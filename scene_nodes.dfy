/**
  The scene nodes of a node tree, as the mutable objects of SceneNode.cpp.

  `SceneGraph` holds every node of one tree arena; a method that the source
  calls on a node `this` takes that node's index `i`. The node-type tags,
  parent links and child lists come from the base tree node, which is not
  part of this model: they are given to the constructor and never change
  here. The hook calls are appended to the ghost log `events`.

  Each method is proved against the functions of `SceneNodeModel`, or states
  its new state outright.
*/
module SceneNodes {
  import opened Wrappers
  import opened SceneNodeModel

  class SceneGraph {
    var nodes: seq<NodeState>
    ghost var events: seq<Event>
    ghost var rank: seq<nat>

    ghost predicate Valid()
      reads this
    {
      WellFormed(nodes, rank)
    }

    ghost function State(): Forest
      reads this
    {
      Forest(nodes, events)
    }

    /** An arena over the given tree, with no hook fired yet. */
    constructor (initial: seq<NodeState>, ghost initialRank: seq<nat>)
      requires WellFormed(initial, initialRank)
      ensures Valid() && nodes == initial && events == [] && rank == initialRank
    {
      nodes := initial;
      events := [];
      rank := initialRank;
    }

    /** `NzSceneNode()`: a new detached scene node, with no scene, drawing enabled and not visible. */
    method AddSceneNode() returns (i: nat)
      requires Valid()
      modifies this
      ensures Valid() && events == old(events) && i == old(|nodes|)
      ensures nodes == old(nodes) + [NodeState(SceneNode, None, [], None, true, false)]
      ensures nodes[i].scene == None && nodes[i].drawingEnabled && !nodes[i].visible
    {
      i := |nodes|;
      nodes := nodes + [NodeState(SceneNode, None, [], None, true, false)];
      rank := rank + [0];
    }

    /**
      `NzSceneNode(const NzSceneNode&)`: a new detached scene node that copies
      only `drawingEnabled` from `source`; it has no scene and is not visible.
    */
    method AddSceneNodeCopy(source: nat) returns (i: nat)
      requires Valid() && source < |nodes| && nodes[source].nodeType == SceneNode
      modifies this
      ensures Valid() && events == old(events) && i == old(|nodes|)
      ensures nodes == old(nodes) + [NodeState(SceneNode, None, [], None, old(nodes[source].drawingEnabled), false)]
      ensures nodes[i].scene == None && !nodes[i].visible
    {
      i := |nodes|;
      nodes := nodes + [NodeState(SceneNode, None, [], None, nodes[source].drawingEnabled, false)];
      rank := rank + [0];
    }

    /**
      Copy assignment `target = source`: copies `drawingEnabled`, makes the
      target not visible and leaves its scene alone. In the source the scene
      follows from the re-parenting done by the base node's assignment, which
      is not part of this model (nor are the hooks it fires).
    */
    method CopyAssign(target: nat, source: nat)
      requires Valid() && target < |nodes| && source < |nodes|
      requires nodes[target].nodeType == SceneNode && nodes[source].nodeType == SceneNode
      modifies this`nodes
      ensures Valid() && events == old(events)
      ensures nodes == old(nodes)[target := old(nodes[target]).(drawingEnabled := old(nodes[source].drawingEnabled), visible := false)]
      ensures nodes[target].scene == old(nodes[target].scene) && !nodes[target].visible
    {
      nodes := nodes[target := nodes[target].(drawingEnabled := nodes[source].drawingEnabled, visible := false)];
    }

    /**
      Move assignment `target = std::move(source)`: copies `drawingEnabled`
      and `visible`, and leaves the target's scene alone and the source as it
      was; the base node's re-parenting is left out as for `CopyAssign`.
    */
    method MoveAssign(target: nat, source: nat)
      requires Valid() && target < |nodes| && source < |nodes|
      requires nodes[target].nodeType == SceneNode && nodes[source].nodeType == SceneNode
      modifies this`nodes
      ensures Valid() && events == old(events)
      ensures nodes == old(nodes)[target := old(nodes[target]).(
        drawingEnabled := old(nodes[source].drawingEnabled), visible := old(nodes[source].visible))]
      ensures nodes[target].scene == old(nodes[target].scene)
    {
      nodes := nodes[target := nodes[target].(drawingEnabled := nodes[source].drawingEnabled, visible := nodes[source].visible)];
    }

    /** `EnableDrawing(drawingEnabled)`: sets the flag and nothing else; `visible` keeps its value. */
    method EnableDrawing(i: nat, drawingEnabled: bool)
      requires Valid() && i < |nodes| && nodes[i].nodeType == SceneNode
      modifies this`nodes
      ensures Valid() && events == old(events)
      ensures nodes == old(nodes)[i := old(nodes[i]).(drawingEnabled := drawingEnabled)]
      ensures nodes[i].visible == old(nodes[i].visible)
    {
      nodes := nodes[i := nodes[i].(drawingEnabled := drawingEnabled)];
    }

    /** The `OnVisibilityChange(visibility)` hook. */
    method OnVisibilityChange(i: nat, visibility: bool)
      modifies this`events
      ensures events == old(events) + [VisibilityChanged(i, visibility)]
    {
      events := events + [VisibilityChanged(i, visibility)];
    }

    /**
      `UpdateVisibility(frustum)`. `inFrustum` is the result of the frustum
      test on the node's bounding volume, `drawable` that of `IsDrawable()`,
      and `safeChecks` whether the engine was built with
      `NAZARA_GRAPHICS_SAFE`. Only `visible` can change, and
      `OnVisibilityChange` fires once, with the new value, exactly when it did.
    */
    method UpdateVisibility(i: nat, inFrustum: bool, drawable: bool, safeChecks: bool)
      requires Valid() && i < |nodes| && nodes[i].nodeType == SceneNode
      modifies this`nodes, this`events
      ensures Valid()
      ensures nodes == old(nodes)[i := old(nodes[i]).(visible := nodes[i].visible)]
      ensures !old(nodes[i].drawingEnabled) ==> !nodes[i].visible
      ensures old(nodes[i].drawingEnabled) && (drawable || !safeChecks) ==> nodes[i].visible == inFrustum
      ensures old(nodes[i].drawingEnabled) && safeChecks && !drawable ==>
        nodes == old(nodes) && events == old(events)
      ensures events == old(events) +
        (if nodes[i].visible != old(nodes[i].visible) then [VisibilityChanged(i, nodes[i].visible)] else [])
    {
      var wasVisible := nodes[i].visible;
      if nodes[i].drawingEnabled {
        if safeChecks && !drawable {
          return;
        }
        nodes := nodes[i := nodes[i].(visible := inFrustum)];
      } else {
        nodes := nodes[i := nodes[i].(visible := false)];
      }
      if nodes[i].visible != wasVisible {
        OnVisibilityChange(i, nodes[i].visible);
      }
    }

    /** The `Register` hook, called once the node has its new, non-null scene. */
    method Register(i: nat)
      requires i < |nodes| && nodes[i].scene.Some?
      modifies this`events
      ensures events == old(events) + [Registered(i, nodes[i].scene.value)]
    {
      events := events + [Registered(i, nodes[i].scene.value)];
    }

    /** The `Unregister` hook, called while the node still has its old, non-null scene. */
    method Unregister(i: nat)
      requires i < |nodes| && nodes[i].scene.Some?
      modifies this`events
      ensures events == old(events) + [Unregistered(i, nodes[i].scene.value)]
    {
      events := events + [Unregistered(i, nodes[i].scene.value)];
    }

    /** `SetScene(scene)` on scene node `i`. */
    method SetScene(i: nat, s: Option<SceneId>)
      requires Valid() && i < |nodes| && nodes[i].nodeType == SceneNode
      modifies this`nodes, this`events
      ensures Valid()
      ensures State() == SceneNodeModel.SetScene(old(State()), rank, i, s)
      decreases rank[i], 2
    {
      if nodes[i].scene != s {
        ghost var hooks := SceneHooks(i, nodes[i].scene, s);
        if nodes[i].scene.Some? {
          Unregister(i);
        }
        nodes := nodes[i := nodes[i].(scene := s)];
        if s.Some? {
          Register(i);
        }
        assert events == old(events) + hooks;
        SceneUpdateKeepsWellFormed(old(nodes), nodes, rank, s);
        RecursiveSetScene(s, i);
      }
    }

    /**
      `RecursiveSetScene(scene, node)` with the recursive call on `child`,
      the evidently intended form; `SceneNodeLiteral` models it as written.
    */
    method RecursiveSetScene(s: Option<SceneId>, node: nat)
      requires Valid() && node < |nodes|
      modifies this`nodes, this`events
      ensures Valid()
      ensures State() == PropagateScene(old(State()), rank, s, node, 0)
      decreases rank[node], 1
    {
      ghost var target := PropagateScene(State(), rank, s, node, 0);
      var children := nodes[node].children;
      var k := 0;
      while k < |children|
        invariant Valid() && node < |nodes| && nodes[node].children == children && k <= |children|
        invariant PropagateScene(State(), rank, s, node, k) == target
      {
        VisitChild(s, node, k);
        k := k + 1;
      }
    }

    /**
      One pass of the loop body of `RecursiveSetScene`: child `k` of `node`
      gets `SetScene` if it is a scene node, then the recursion descends into
      it if it has children.
    */
    method VisitChild(s: Option<SceneId>, node: nat, k: nat)
      requires Valid() && node < |nodes| && k < |nodes[node].children|
      modifies this`nodes, this`events
      ensures Valid() && node < |nodes| && nodes[node].children == old(nodes[node].children)
      ensures State() == SceneNodeModel.VisitChild(old(State()), rank, s, node, k)
      ensures PropagateScene(State(), rank, s, node, k + 1) == PropagateScene(old(State()), rank, s, node, k)
      decreases rank[node], 0
    {
      var child := nodes[node].children[k];
      if nodes[child].nodeType == SceneNode {
        SetScene(child, s);
        SceneUpdateKeepsShape(old(nodes), nodes, s, child);
      }
      if |nodes[child].children| > 0 {
        RecursiveSetScene(s, child);
      }
      PropagateSceneStep(old(State()), rank, s, node, k);
    }

    /**
      `OnParenting(parent)`, as written: a scene-node parent passes on its
      scene, a parent of any other type changes nothing, and no parent means
      no scene.
    */
    method OnParenting(i: nat, parent: Option<nat>)
      requires Valid() && i < |nodes| && nodes[i].nodeType == SceneNode
      requires parent.Some? ==> parent.value < |nodes|
      modifies this`nodes, this`events
      ensures Valid()
      ensures State() == SceneNodeModel.OnParenting(old(State()), rank, i, parent)
    {
      if parent.Some? {
        if nodes[parent.value].nodeType == SceneNode {
          SetScene(i, nodes[parent.value].scene);
        }
      } else {
        SetScene(i, None);
      }
    }
  }
}

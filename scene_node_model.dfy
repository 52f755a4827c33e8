/**
  Value-level model of the scene-membership rules of `NzSceneNode`.

  The node tree of the engine is an arena: a node is an index into a sequence
  of `NodeState` records, each carrying the node-type tag, the parent link and
  the child list of the base tree node, plus the three fields the scene node
  adds (`m_scene`, `m_drawingEnabled`, `m_visible`). The hooks `Register`,
  `Unregister` and `OnVisibilityChange` are default no-ops in the source; here
  each call is recorded as an `Event`, so that "fired", "not fired" and "fired
  once with value v" can be stated.

  The functions below are the specification of the imperative methods of
  `SceneNodes.SceneGraph`; the lemmas state what scene assignment and
  propagation achieve over the whole tree.
*/
module SceneNodeModel {
  import opened Wrappers

  /** Identity of an `NzScene`; the null scene pointer is `None`. */
  type SceneId = nat

  /** The node-type tag (`GetNodeType`): only scene nodes take part in scene membership. */
  datatype NodeType = SceneNode | OtherNode

  datatype NodeState = NodeState(
    nodeType: NodeType,
    parent: Option<nat>,
    children: seq<nat>,
    scene: Option<SceneId>,
    drawingEnabled: bool,
    visible: bool)

  /** One call of a hook, with the node it was called on. */
  datatype Event =
    | Registered(node: nat, scene: SceneId)
    | Unregistered(node: nat, scene: SceneId)
    | VisibilityChanged(node: nat, visible: bool)

  /** All nodes together with the hook calls made so far. */
  datatype Forest = Forest(nodes: seq<NodeState>, events: seq<Event>)

  /** Every child index names a node of the arena. */
  ghost predicate ChildrenInRange(nodes: seq<NodeState>)
  {
    forall p, j :: 0 <= p < |nodes| && 0 <= j < |nodes[p].children| ==> nodes[p].children[j] < |nodes|
  }

  /**
    The arena is a forest: the parent link of each child names the node that
    lists it, and `rank` strictly decreases from a parent to each of its
    children, so there is no cycle.
  */
  ghost predicate WellFormed(nodes: seq<NodeState>, rank: seq<nat>)
  {
    && ChildrenInRange(nodes)
    && |rank| == |nodes|
    && (forall p, j :: 0 <= p < |nodes| && 0 <= j < |nodes[p].children| ==>
          rank[nodes[p].children[j]] < rank[p] && nodes[nodes[p].children[j]].parent == Some(p))
  }

  /** `d` is `a` or lies in the subtree below `a`. */
  ghost predicate Reaches(nodes: seq<NodeState>, rank: seq<nat>, a: nat, d: nat)
    requires WellFormed(nodes, rank) && a < |nodes|
    decreases rank[a], 1
  {
    a == d || ReachesBelow(nodes, rank, a, 0, d)
  }

  /** `d` is one of the children `k..` of `a` or lies in the subtree below one of them. */
  ghost predicate ReachesBelow(nodes: seq<NodeState>, rank: seq<nat>, a: nat, k: nat, d: nat)
    requires WellFormed(nodes, rank) && a < |nodes| && k <= |nodes[a].children|
    decreases rank[a], 0, |nodes[a].children| - k
  {
    k < |nodes[a].children| &&
    (Reaches(nodes, rank, nodes[a].children[k], d) || ReachesBelow(nodes, rank, a, k + 1, d))
  }

  /** From `a` to `b` each node either stayed as it was or was a scene node and had only its scene set to `s`. */
  ghost predicate SceneUpdate(a: seq<NodeState>, b: seq<NodeState>, s: Option<SceneId>)
  {
    |a| == |b| &&
    forall k {:trigger a[k], b[k]} :: 0 <= k < |a| ==> b[k] == a[k] || (a[k].nodeType == SceneNode && b[k] == a[k].(scene := s))
  }

  /** The hooks `SetScene` fires on the node itself when its scene changes from `previous` to `s`. */
  function SceneHooks(i: nat, previous: Option<SceneId>, s: Option<SceneId>): seq<Event>
  {
    (if previous.Some? then [Unregistered(i, previous.value)] else [])
    + (if s.Some? then [Registered(i, s.value)] else [])
  }

  /** The hook calls of `log` made on node `d`, in their order. */
  function HooksOn(log: seq<Event>, d: nat): (r: seq<Event>)
    ensures |r| <= |log|
    ensures forall j :: 0 <= j < |r| ==> r[j].node == d
  {
    if |log| == 0 then []
    else HooksOn(log[..|log| - 1], d) + (if log[|log| - 1].node == d then [log[|log| - 1]] else [])
  }

  /**
    The hook log grew from `a` to `b` while the nodes went from `before` to
    `after`: the new calls are all on nodes of the arena, and the calls on
    each node are exactly the hooks of its scene change if it changed, and
    none if it did not.
  */
  ghost predicate HookLog(before: seq<NodeState>, after: seq<NodeState>, a: seq<Event>, b: seq<Event>, s: Option<SceneId>)
  {
    && |before| == |after|
    && |a| <= |b| && b[..|a|] == a
    && (forall k :: |a| <= k < |b| ==> b[k].node < |before|)
    && (forall d {:trigger HooksOn(b[|a|..], d)} :: 0 <= d < |before| ==>
          HooksOn(b[|a|..], d) == if after[d] == before[d] then [] else SceneHooks(d, before[d].scene, s))
  }

  lemma SceneUpdateKeepsWellFormed(a: seq<NodeState>, b: seq<NodeState>, rank: seq<nat>, s: Option<SceneId>)
    requires WellFormed(a, rank) && SceneUpdate(a, b, s)
    ensures WellFormed(b, rank)
  {
    assert forall k :: 0 <= k < |a| ==> b[k].children == a[k].children && b[k].parent == a[k].parent;
  }

  /** A scene update keeps every node's type and child list. */
  lemma SceneUpdateKeepsShape(a: seq<NodeState>, b: seq<NodeState>, s: Option<SceneId>, x: nat)
    requires SceneUpdate(a, b, s) && x < |a|
    ensures b[x].nodeType == a[x].nodeType && b[x].children == a[x].children
  {
  }

  lemma SceneUpdateTransitive(a: seq<NodeState>, b: seq<NodeState>, c: seq<NodeState>, s: Option<SceneId>)
    requires SceneUpdate(a, b, s) && SceneUpdate(b, c, s)
    ensures SceneUpdate(a, c, s)
  {
    forall k | 0 <= k < |a|
      ensures c[k] == a[k] || (a[k].nodeType == SceneNode && c[k] == a[k].(scene := s))
    {
      assert b[k] == a[k] || b[k] == a[k].(scene := s);
    }
  }

  /** Taking the calls on one node commutes with appending logs. */
  lemma {:induction false} HooksOnAppend(x: seq<Event>, y: seq<Event>, d: nat)
    ensures HooksOn(x + y, d) == HooksOn(x, d) + HooksOn(y, d)
    decreases |y|
  {
    if |y| > 0 {
      var y0 := y[..|y| - 1];
      var last := y[|y| - 1];
      var tail: seq<Event> := if last.node == d then [last] else [];
      assert (x + y)[..|x + y| - 1] == x + y0;
      assert (x + y)[|x + y| - 1] == last;
      assert HooksOn(x + y, d) == HooksOn(x + y0, d) + tail;
      assert HooksOn(y, d) == HooksOn(y0, d) + tail;
      HooksOnAppend(x, y0, d);
      assert HooksOn(x, d) + HooksOn(y0, d) + tail == HooksOn(x, d) + (HooksOn(y0, d) + tail);
    } else {
      assert x + y == x;
    }
  }

  /** The hooks of one node's scene change are all on that node. */
  lemma SceneHooksOn(i: nat, previous: Option<SceneId>, s: Option<SceneId>, d: nat)
    ensures HooksOn(SceneHooks(i, previous, s), d) == if d == i then SceneHooks(i, previous, s) else []
  {
    var u: seq<Event> := if previous.Some? then [Unregistered(i, previous.value)] else [];
    var g: seq<Event> := if s.Some? then [Registered(i, s.value)] else [];
    HooksOnAppend(u, g, d);
    assert HooksOn(u, d) == if d == i then u else [] by {
      if previous.Some? { assert u[..0] == []; }
    }
    assert HooksOn(g, d) == if d == i then g else [] by {
      if s.Some? { assert g[..0] == []; }
    }
  }

  /** Nothing changed and nothing was fired. */
  lemma HookLogUnchanged(n: seq<NodeState>, e: seq<Event>, s: Option<SceneId>)
    ensures HookLog(n, n, e, e, s)
  {
    assert e[|e|..] == [];
  }

  /** `SetScene` on the node itself: its scene is assigned and its hooks fire. */
  lemma HookLogAssign(n: seq<NodeState>, e: seq<Event>, i: nat, s: Option<SceneId>)
    requires i < |n| && n[i].scene != s
    ensures HookLog(n, n[i := n[i].(scene := s)], e, e + SceneHooks(i, n[i].scene, s), s)
  {
    var b := e + SceneHooks(i, n[i].scene, s);
    assert b[..|e|] == e;
    assert b[|e|..] == SceneHooks(i, n[i].scene, s);
    forall d | 0 <= d < |n|
      ensures HooksOn(b[|e|..], d) ==
        if n[i := n[i].(scene := s)][d] == n[d] then [] else SceneHooks(d, n[d].scene, s)
    {
      SceneHooksOn(i, n[i].scene, s, d);
    }
  }

  /** Hook logs of two successive scene updates towards `s` add up. */
  lemma HookLogTransitive(n0: seq<NodeState>, n1: seq<NodeState>, n2: seq<NodeState>,
                          e0: seq<Event>, e1: seq<Event>, e2: seq<Event>, s: Option<SceneId>)
    requires SceneUpdate(n0, n1, s) && SceneUpdate(n1, n2, s)
    requires HookLog(n0, n1, e0, e1, s) && HookLog(n1, n2, e1, e2, s)
    ensures HookLog(n0, n2, e0, e2, s)
  {
    assert e2[..|e0|] == e2[..|e1|][..|e0|];
    forall k | |e0| <= k < |e2|
      ensures e2[k].node < |n0|
    {
      if k < |e1| {
        assert e2[k] == e2[..|e1|][k];
      }
    }
    assert e2[|e0|..] == e1[|e0|..] + e2[|e1|..];
    forall d | 0 <= d < |n0|
      ensures HooksOn(e2[|e0|..], d) == if n2[d] == n0[d] then [] else SceneHooks(d, n0[d].scene, s)
    {
      HooksOnAppend(e1[|e0|..], e2[|e1|..], d);
    }
  }

  /**
    `SetScene(scene)` on scene node `i` (SceneNode.cpp, `SetScene`): nothing
    happens when the scene does not change; otherwise `Unregister` fires if a
    scene was set, the scene is assigned, `Register` fires if the new scene is
    not null, and the new scene is propagated below the node.
  */
  function SetScene(f: Forest, rank: seq<nat>, i: nat, s: Option<SceneId>): (r: Forest)
    requires WellFormed(f.nodes, rank) && i < |f.nodes| && f.nodes[i].nodeType == SceneNode
    ensures WellFormed(r.nodes, rank)
    ensures SceneUpdate(f.nodes, r.nodes, s)
    ensures r.nodes[i].scene == s
    ensures f.nodes[i].scene == s ==> r == f
    decreases rank[i], 1
  {
    var previous := f.nodes[i].scene;
    if previous == s then f
    else
      var f1 := Forest(f.nodes[i := f.nodes[i].(scene := s)], f.events + SceneHooks(i, previous, s));
      SceneUpdateKeepsWellFormed(f.nodes, f1.nodes, rank, s);
      var r := PropagateScene(f1, rank, s, i, 0);
      SceneUpdateTransitive(f.nodes, f1.nodes, r.nodes, s);
      r
  }

  /**
    The loop of `RecursiveSetScene(scene, node)` from child `k` on, in its
    evidently intended form (see `VisitChild`).
  */
  function PropagateScene(f: Forest, rank: seq<nat>, s: Option<SceneId>, node: nat, k: nat): (r: Forest)
    requires WellFormed(f.nodes, rank) && node < |f.nodes| && k <= |f.nodes[node].children|
    ensures WellFormed(r.nodes, rank)
    ensures SceneUpdate(f.nodes, r.nodes, s)
    decreases rank[node], 0, |f.nodes[node].children| - k, 1
  {
    if k == |f.nodes[node].children| then f
    else
      var f1 := VisitChild(f, rank, s, node, k);
      var r := PropagateScene(f1, rank, s, node, k + 1);
      SceneUpdateTransitive(f.nodes, f1.nodes, r.nodes, s);
      r
  }

  /** The first pass of the loop, unfolded. */
  lemma PropagateSceneStep(f: Forest, rank: seq<nat>, s: Option<SceneId>, node: nat, k: nat)
    requires WellFormed(f.nodes, rank) && node < |f.nodes| && k < |f.nodes[node].children|
    ensures var f1 := VisitChild(f, rank, s, node, k);
      |f1.nodes| == |f.nodes| && f1.nodes[node].children == f.nodes[node].children &&
      PropagateScene(f, rank, s, node, k) == PropagateScene(f1, rank, s, node, k + 1)
  {
    SceneUpdateKeepsShape(f.nodes, VisitChild(f, rank, s, node, k).nodes, s, node);
  }

  /**
    One iteration of that loop, on child `c`, the `k`-th child of `node`: a
    scene-node child gets `SetScene(s)`, and a child that has children of its
    own is descended into (the source descends into `node` instead; see
    `SceneNodeLiteral`).
  */
  function VisitChild(f: Forest, rank: seq<nat>, s: Option<SceneId>, node: nat, k: nat): (r: Forest)
    requires WellFormed(f.nodes, rank) && node < |f.nodes| && k < |f.nodes[node].children|
    ensures WellFormed(r.nodes, rank)
    ensures SceneUpdate(f.nodes, r.nodes, s)
    decreases rank[node], 0, |f.nodes[node].children| - k, 0
  {
    var c := f.nodes[node].children[k];
    var f1 := if f.nodes[c].nodeType == SceneNode then SetScene(f, rank, c, s) else f;
    var r := if |f1.nodes[c].children| > 0 then PropagateScene(f1, rank, s, c, 0) else f1;
    SceneUpdateTransitive(f.nodes, f1.nodes, r.nodes, s);
    r
  }

  /** The hook calls of a scene change: see `HookLog`. */
  lemma {:induction false} SetSceneHookLog(f: Forest, rank: seq<nat>, i: nat, s: Option<SceneId>)
    requires WellFormed(f.nodes, rank) && i < |f.nodes| && f.nodes[i].nodeType == SceneNode
    ensures HookLog(f.nodes, SetScene(f, rank, i, s).nodes, f.events, SetScene(f, rank, i, s).events, s)
    decreases rank[i], 1
  {
    if f.nodes[i].scene == s {
      HookLogUnchanged(f.nodes, f.events, s);
    } else {
      var f1 := Forest(f.nodes[i := f.nodes[i].(scene := s)], f.events + SceneHooks(i, f.nodes[i].scene, s));
      SceneUpdateKeepsWellFormed(f.nodes, f1.nodes, rank, s);
      HookLogAssign(f.nodes, f.events, i, s);
      var r := PropagateScene(f1, rank, s, i, 0);
      assert SetScene(f, rank, i, s) == r;
      PropagateSceneHookLog(f1, rank, s, i, 0);
      HookLogTransitive(f.nodes, f1.nodes, r.nodes, f.events, f1.events, r.events, s);
    }
  }

  /**
    A scene change fires the node's own hooks first: `Unregister` with the
    old scene if there was one, then `Register` with the new one if it is
    not null; the propagation below comes after.
  */
  lemma SetSceneFiresOwnHooksFirst(f: Forest, rank: seq<nat>, i: nat, s: Option<SceneId>)
    requires WellFormed(f.nodes, rank) && i < |f.nodes| && f.nodes[i].nodeType == SceneNode
    requires f.nodes[i].scene != s
    ensures var r := SetScene(f, rank, i, s);
      var own := f.events + SceneHooks(i, f.nodes[i].scene, s);
      |own| <= |r.events| && r.events[..|own|] == own
  {
    var f1 := Forest(f.nodes[i := f.nodes[i].(scene := s)], f.events + SceneHooks(i, f.nodes[i].scene, s));
    SceneUpdateKeepsWellFormed(f.nodes, f1.nodes, rank, s);
    PropagateSceneHookLog(f1, rank, s, i, 0);
  }

  /** The hook calls of propagation from child `k` on: see `HookLog`. */
  lemma {:induction false} PropagateSceneHookLog(f: Forest, rank: seq<nat>, s: Option<SceneId>, node: nat, k: nat)
    requires WellFormed(f.nodes, rank) && node < |f.nodes| && k <= |f.nodes[node].children|
    ensures var r := PropagateScene(f, rank, s, node, k); HookLog(f.nodes, r.nodes, f.events, r.events, s)
    decreases rank[node], 0, |f.nodes[node].children| - k, 1
  {
    if k == |f.nodes[node].children| {
      HookLogUnchanged(f.nodes, f.events, s);
    } else {
      var f1 := VisitChild(f, rank, s, node, k);
      var r := PropagateScene(f1, rank, s, node, k + 1);
      assert PropagateScene(f, rank, s, node, k) == r;
      VisitChildHookLog(f, rank, s, node, k);
      PropagateSceneHookLog(f1, rank, s, node, k + 1);
      HookLogTransitive(f.nodes, f1.nodes, r.nodes, f.events, f1.events, r.events, s);
    }
  }

  /** The hook calls of one visit of a child: see `HookLog`. */
  lemma {:induction false} VisitChildHookLog(f: Forest, rank: seq<nat>, s: Option<SceneId>, node: nat, k: nat)
    requires WellFormed(f.nodes, rank) && node < |f.nodes| && k < |f.nodes[node].children|
    ensures var r := VisitChild(f, rank, s, node, k); HookLog(f.nodes, r.nodes, f.events, r.events, s)
    decreases rank[node], 0, |f.nodes[node].children| - k, 0
  {
    var c := f.nodes[node].children[k];
    var f1 := if f.nodes[c].nodeType == SceneNode then SetScene(f, rank, c, s) else f;
    if f.nodes[c].nodeType == SceneNode {
      SetSceneHookLog(f, rank, c, s);
    } else {
      HookLogUnchanged(f.nodes, f.events, s);
    }
    var r := if |f1.nodes[c].children| > 0 then PropagateScene(f1, rank, s, c, 0) else f1;
    assert VisitChild(f, rank, s, node, k) == r;
    if |f1.nodes[c].children| > 0 {
      PropagateSceneHookLog(f1, rank, s, c, 0);
    } else {
      HookLogUnchanged(f1.nodes, f1.events, s);
    }
    HookLogTransitive(f.nodes, f1.nodes, r.nodes, f.events, f1.events, r.events, s);
  }

  /**
    `OnParenting(parent)` (SceneNode.cpp, `OnParenting`), as written: only the
    immediate parent is looked at.
  */
  function OnParenting(f: Forest, rank: seq<nat>, i: nat, parent: Option<nat>): (r: Forest)
    requires WellFormed(f.nodes, rank) && i < |f.nodes| && f.nodes[i].nodeType == SceneNode
    requires parent.Some? ==> parent.value < |f.nodes|
    ensures WellFormed(r.nodes, rank)
    ensures parent.None? ==> r.nodes[i].scene == None
    ensures parent.Some? && f.nodes[parent.value].nodeType == SceneNode ==>
      r.nodes[i].scene == f.nodes[parent.value].scene
    ensures parent.Some? && f.nodes[parent.value].nodeType != SceneNode ==> r == f
  {
    match parent
    case None => SetScene(f, rank, i, None)
    case Some(p) =>
      if f.nodes[p].nodeType == SceneNode then SetScene(f, rank, i, f.nodes[p].scene) else f
  }

  /** Reachability below a node does not depend on scenes. */
  lemma {:induction false} ReachesUnderSceneUpdate(a: seq<NodeState>, b: seq<NodeState>, rank: seq<nat>, s: Option<SceneId>, x: nat, d: nat)
    requires WellFormed(a, rank) && SceneUpdate(a, b, s) && x < |a|
    ensures WellFormed(b, rank)
    ensures Reaches(a, rank, x, d) <==> Reaches(b, rank, x, d)
    decreases rank[x], 1
  {
    SceneUpdateKeepsWellFormed(a, b, rank, s);
    ReachesBelowUnderSceneUpdate(a, b, rank, s, x, 0, d);
  }

  lemma {:induction false} ReachesBelowUnderSceneUpdate(a: seq<NodeState>, b: seq<NodeState>, rank: seq<nat>, s: Option<SceneId>, x: nat, k: nat, d: nat)
    requires WellFormed(a, rank) && SceneUpdate(a, b, s) && x < |a| && k <= |a[x].children|
    ensures WellFormed(b, rank) && a[x].children == b[x].children
    ensures ReachesBelow(a, rank, x, k, d) <==> ReachesBelow(b, rank, x, k, d)
    decreases rank[x], 0, |a[x].children| - k
  {
    SceneUpdateKeepsWellFormed(a, b, rank, s);
    assert a[x].children == b[x].children;
    if k < |a[x].children| {
      ReachesUnderSceneUpdate(a, b, rank, s, a[x].children[k], d);
      ReachesBelowUnderSceneUpdate(a, b, rank, s, x, k + 1, d);
    }
  }

  /** Visiting child `c` of `node` leaves every scene node at or below `c` with scene `s`. */
  lemma {:induction false} VisitChildCovers(f: Forest, rank: seq<nat>, s: Option<SceneId>, node: nat, k: nat, d: nat)
    requires WellFormed(f.nodes, rank) && node < |f.nodes| && k < |f.nodes[node].children|
    requires d < |f.nodes| && f.nodes[d].nodeType == SceneNode
    requires d == f.nodes[node].children[k] || ReachesBelow(f.nodes, rank, f.nodes[node].children[k], 0, d)
    ensures VisitChild(f, rank, s, node, k).nodes[d].scene == s
    decreases rank[node], 0, |f.nodes[node].children| - k, 0
  {
    var c := f.nodes[node].children[k];
    var f1 := if f.nodes[c].nodeType == SceneNode then SetScene(f, rank, c, s) else f;
    if d != c {
      ReachesBelowUnderSceneUpdate(f.nodes, f1.nodes, rank, s, c, 0, d);
      PropagateSceneCovers(f1, rank, s, c, 0, d);
    }
  }

  /**
    Propagation from child `k` on leaves every scene node at or below the
    children `k..` of `node` with scene `s`.
  */
  lemma {:induction false} PropagateSceneCovers(f: Forest, rank: seq<nat>, s: Option<SceneId>, node: nat, k: nat, d: nat)
    requires WellFormed(f.nodes, rank) && node < |f.nodes| && k <= |f.nodes[node].children|
    requires d < |f.nodes| && f.nodes[d].nodeType == SceneNode
    requires ReachesBelow(f.nodes, rank, node, k, d)
    ensures PropagateScene(f, rank, s, node, k).nodes[d].scene == s
    decreases rank[node], 0, |f.nodes[node].children| - k, 1
  {
    var f1 := VisitChild(f, rank, s, node, k);
    var c := f.nodes[node].children[k];
    assert PropagateScene(f, rank, s, node, k) == PropagateScene(f1, rank, s, node, k + 1);
    if d == c || ReachesBelow(f.nodes, rank, c, 0, d) {
      assert f1.nodes[d].scene == s by {
        VisitChildCovers(f, rank, s, node, k, d);
      }
    } else {
      assert ReachesBelow(f.nodes, rank, node, k + 1, d);
      assert PropagateScene(f1, rank, s, node, k + 1).nodes[d].scene == s by {
        ReachesBelowUnderSceneUpdate(f.nodes, f1.nodes, rank, s, node, k + 1, d);
        PropagateSceneCovers(f1, rank, s, node, k + 1, d);
      }
    }
  }

  /**
    A scene change on node `i` reaches the whole subtree: afterwards every
    scene node at or below `i` belongs to `s`.
  */
  lemma SetSceneCoversSubtree(f: Forest, rank: seq<nat>, i: nat, s: Option<SceneId>)
    requires WellFormed(f.nodes, rank) && i < |f.nodes| && f.nodes[i].nodeType == SceneNode
    requires f.nodes[i].scene != s
    ensures forall d :: 0 <= d < |f.nodes| && Reaches(f.nodes, rank, i, d) && f.nodes[d].nodeType == SceneNode ==>
      SetScene(f, rank, i, s).nodes[d].scene == s
  {
    var f1 := Forest(f.nodes[i := f.nodes[i].(scene := s)], f.events + SceneHooks(i, f.nodes[i].scene, s));
    SceneUpdateKeepsWellFormed(f.nodes, f1.nodes, rank, s);
    forall d | 0 <= d < |f.nodes| && Reaches(f.nodes, rank, i, d) && f.nodes[d].nodeType == SceneNode
      ensures SetScene(f, rank, i, s).nodes[d].scene == s
    {
      if d != i {
        ReachesBelowUnderSceneUpdate(f.nodes, f1.nodes, rank, s, i, 0, d);
        PropagateSceneCovers(f1, rank, s, i, 0, d);
      }
    }
  }

  /** Visiting child `c` of `node` leaves every node outside the subtree of `c` as it was. */
  lemma {:induction false} VisitChildFrame(f: Forest, rank: seq<nat>, s: Option<SceneId>, node: nat, k: nat, d: nat)
    requires WellFormed(f.nodes, rank) && node < |f.nodes| && k < |f.nodes[node].children|
    requires d < |f.nodes| && d != f.nodes[node].children[k] && !ReachesBelow(f.nodes, rank, f.nodes[node].children[k], 0, d)
    ensures VisitChild(f, rank, s, node, k).nodes[d] == f.nodes[d]
    decreases rank[node], 0, |f.nodes[node].children| - k, 0
  {
    var c := f.nodes[node].children[k];
    var f1 := if f.nodes[c].nodeType == SceneNode then SetScene(f, rank, c, s) else f;
    var r := VisitChild(f, rank, s, node, k);
    assert r == if |f1.nodes[c].children| > 0 then PropagateScene(f1, rank, s, c, 0) else f1;
    if f.nodes[c].nodeType == SceneNode {
      SetSceneFrame(f, rank, c, s, d);
    }
    if |f1.nodes[c].children| > 0 {
      ReachesBelowUnderSceneUpdate(f.nodes, f1.nodes, rank, s, c, 0, d);
      PropagateSceneFrame(f1, rank, s, c, 0, d);
    }
  }

  /** Propagation from child `k` on touches nothing outside the subtrees of the children `k..`. */
  lemma {:induction false} PropagateSceneFrame(f: Forest, rank: seq<nat>, s: Option<SceneId>, node: nat, k: nat, d: nat)
    requires WellFormed(f.nodes, rank) && node < |f.nodes| && k <= |f.nodes[node].children| && d < |f.nodes|
    requires !ReachesBelow(f.nodes, rank, node, k, d)
    ensures PropagateScene(f, rank, s, node, k).nodes[d] == f.nodes[d]
    decreases rank[node], 0, |f.nodes[node].children| - k, 1
  {
    if k < |f.nodes[node].children| {
      var f1 := VisitChild(f, rank, s, node, k);
      assert Reaches(f.nodes, rank, f.nodes[node].children[k], d) <==>
        d == f.nodes[node].children[k] || ReachesBelow(f.nodes, rank, f.nodes[node].children[k], 0, d);
      VisitChildFrame(f, rank, s, node, k, d);
      ReachesBelowUnderSceneUpdate(f.nodes, f1.nodes, rank, s, node, k + 1, d);
      PropagateSceneFrame(f1, rank, s, node, k + 1, d);
    }
  }

  /** A scene change on node `i` leaves the node `d` outside the subtree of `i` as it was. */
  lemma {:induction false} SetSceneFrame(f: Forest, rank: seq<nat>, i: nat, s: Option<SceneId>, d: nat)
    requires WellFormed(f.nodes, rank) && i < |f.nodes| && f.nodes[i].nodeType == SceneNode
    requires d < |f.nodes| && !Reaches(f.nodes, rank, i, d)
    ensures SetScene(f, rank, i, s).nodes[d] == f.nodes[d]
    decreases rank[i], 2
  {
    if f.nodes[i].scene != s {
      var f1 := Forest(f.nodes[i := f.nodes[i].(scene := s)], f.events + SceneHooks(i, f.nodes[i].scene, s));
      SceneUpdateKeepsWellFormed(f.nodes, f1.nodes, rank, s);
      ReachesBelowUnderSceneUpdate(f.nodes, f1.nodes, rank, s, i, 0, d);
      PropagateSceneFrame(f1, rank, s, i, 0, d);
    }
  }

  /**
    The hooks of a scene change, node by node: each scene node of the
    subtree whose scene differs from `s` gets exactly the hooks of its own
    change, once (`Unregister` with its old scene if it had one, then
    `Register` with `s` if `s` is not null), and no other node of the arena
    gets any hook.
  */
  lemma SetSceneHooksExactlyOnChangedNodes(f: Forest, rank: seq<nat>, i: nat, s: Option<SceneId>)
    requires WellFormed(f.nodes, rank) && i < |f.nodes| && f.nodes[i].nodeType == SceneNode
    requires f.nodes[i].scene != s
    ensures var r := SetScene(f, rank, i, s);
      && |f.events| <= |r.events| && r.events[..|f.events|] == f.events
      && (forall k :: |f.events| <= k < |r.events| ==> r.events[k].node < |f.nodes|)
      && (forall d :: 0 <= d < |f.nodes| ==>
            HooksOn(r.events[|f.events|..], d) ==
              if f.nodes[d].nodeType == SceneNode && Reaches(f.nodes, rank, i, d) && f.nodes[d].scene != s
              then SceneHooks(d, f.nodes[d].scene, s)
              else [])
  {
    var r := SetScene(f, rank, i, s);
    SetSceneHookLog(f, rank, i, s);
    SetSceneCoversSubtree(f, rank, i, s);
    forall d | 0 <= d < |f.nodes|
      ensures HooksOn(r.events[|f.events|..], d) ==
        if f.nodes[d].nodeType == SceneNode && Reaches(f.nodes, rank, i, d) && f.nodes[d].scene != s
        then SceneHooks(d, f.nodes[d].scene, s)
        else []
    {
      if f.nodes[d].nodeType == SceneNode && Reaches(f.nodes, rank, i, d) && f.nodes[d].scene != s {
        assert r.nodes[d].scene != f.nodes[d].scene;
      } else if !Reaches(f.nodes, rank, i, d) {
        SetSceneFrame(f, rank, i, s, d);
      } else {
        assert r.nodes[d] == f.nodes[d];
      }
    }
  }

  /**
    Detaching a node (`OnParenting(nullptr)`) from a scene clears the scene of
    the node and of every scene node below it.
  */
  lemma DetachClearsSubtree(f: Forest, rank: seq<nat>, i: nat)
    requires WellFormed(f.nodes, rank) && i < |f.nodes| && f.nodes[i].nodeType == SceneNode
    requires f.nodes[i].scene.Some?
    ensures forall d :: 0 <= d < |f.nodes| && Reaches(f.nodes, rank, i, d) && f.nodes[d].nodeType == SceneNode ==>
      OnParenting(f, rank, i, None).nodes[d].scene == None
  {
    SetSceneCoversSubtree(f, rank, i, None);
  }

  /**
    Parenting under a scene node whose scene differs from the node's own gives
    that scene to the node and to every scene node below it.
  */
  lemma AttachAdoptsParentSceneInSubtree(f: Forest, rank: seq<nat>, i: nat, p: nat)
    requires WellFormed(f.nodes, rank) && i < |f.nodes| && f.nodes[i].nodeType == SceneNode
    requires p < |f.nodes| && f.nodes[p].nodeType == SceneNode && f.nodes[p].scene != f.nodes[i].scene
    ensures forall d :: 0 <= d < |f.nodes| && Reaches(f.nodes, rank, i, d) && f.nodes[d].nodeType == SceneNode ==>
      OnParenting(f, rank, i, Some(p)).nodes[d].scene == f.nodes[p].scene
  {
    SetSceneCoversSubtree(f, rank, i, f.nodes[p].scene);
  }
}

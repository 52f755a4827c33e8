/**
  `SetScene` and `RecursiveSetScene` of SceneNode.cpp exactly as written.

  Inside the loop over the children of `node`, the source calls
  `RecursiveSetScene(scene, node)` (on `node` itself, guarded by
  `node->HasChilds()`) rather than on `child`. Such a call does not
  terminate, so the literal code cannot be a terminating Dafny function; here
  it is bounded by `fuel`, the number of nested `RecursiveSetScene` calls the
  caller allows, and `None` means "ran out of fuel". The lemmas show that a
  scene change on a node that has a child runs out of fuel whatever the bound,
  and that on a childless node the literal code agrees with the intended one
  (`SceneNodeModel.SetScene`).
*/
module SceneNodeLiteral {
  import opened Wrappers
  import opened SceneNodeModel

  /** `SetScene(scene)` as written, which propagates through `RecursiveSetScene` below. */
  function SetScene(fuel: nat, f: Forest, i: nat, s: Option<SceneId>): (r: Option<Forest>)
    requires ChildrenInRange(f.nodes) && i < |f.nodes| && f.nodes[i].nodeType == SceneNode
    ensures r.Some? ==> ChildrenInRange(r.value.nodes) && SceneUpdate(f.nodes, r.value.nodes, s)
    decreases fuel, 1
  {
    var previous := f.nodes[i].scene;
    if previous == s then Some(f)
    else
      var f1 := Forest(f.nodes[i := f.nodes[i].(scene := s)], f.events + SceneHooks(i, previous, s));
      assert SceneUpdate(f.nodes, f1.nodes, s);
      var r := RecursiveSetScene(fuel, f1, s, i);
      if r.Some? then SceneUpdateTransitive(f.nodes, f1.nodes, r.value.nodes, s); r else r
  }

  /** One call of `RecursiveSetScene(scene, node)` as written; it needs one unit of `fuel`. */
  function RecursiveSetScene(fuel: nat, f: Forest, s: Option<SceneId>, node: nat): (r: Option<Forest>)
    requires ChildrenInRange(f.nodes) && node < |f.nodes|
    ensures r.Some? ==> ChildrenInRange(r.value.nodes) && SceneUpdate(f.nodes, r.value.nodes, s)
    decreases fuel, 0
  {
    if fuel == 0 then None else ChildLoop(fuel - 1, f, s, node, 0)
  }

  /**
    The loop of `RecursiveSetScene` from child `k` on, as written: a scene-node
    child gets `SetScene`, then, since `node` has children, `RecursiveSetScene`
    is called on `node` again.
  */
  function ChildLoop(fuel: nat, f: Forest, s: Option<SceneId>, node: nat, k: nat): (r: Option<Forest>)
    requires ChildrenInRange(f.nodes) && node < |f.nodes| && k <= |f.nodes[node].children|
    ensures r.Some? ==> ChildrenInRange(r.value.nodes) && SceneUpdate(f.nodes, r.value.nodes, s)
    decreases fuel, 2, |f.nodes[node].children| - k
  {
    if k == |f.nodes[node].children| then Some(f)
    else
      var c := f.nodes[node].children[k];
      var r1 := if f.nodes[c].nodeType == SceneNode then SetScene(fuel, f, c, s) else Some(f);
      if r1.None? then None
      else
        var f1 := r1.value;
        var r2 := if |f1.nodes[node].children| > 0 then RecursiveSetScene(fuel, f1, s, node) else Some(f1);
        if r2.None? then None
        else
          var f2 := r2.value;
          SceneUpdateTransitive(f.nodes, f1.nodes, f2.nodes, s);
          var r := ChildLoop(fuel, f2, s, node, k + 1);
          if r.Some? then SceneUpdateTransitive(f.nodes, f2.nodes, r.value.nodes, s); r else r
  }

  /** On a node that has at least one child, `RecursiveSetScene` as written never returns. */
  lemma {:induction false} RecursiveSetSceneDiverges(fuel: nat, f: Forest, s: Option<SceneId>, node: nat)
    requires ChildrenInRange(f.nodes) && node < |f.nodes| && |f.nodes[node].children| > 0
    ensures RecursiveSetScene(fuel, f, s, node) == None
    decreases fuel
  {
    if fuel > 0 {
      var c := f.nodes[node].children[0];
      var r1 := if f.nodes[c].nodeType == SceneNode then SetScene(fuel - 1, f, c, s) else Some(f);
      if r1.Some? {
        RecursiveSetSceneDiverges(fuel - 1, r1.value, s, node);
      }
    }
  }

  /**
    Consequently, as written, changing the scene of a node that has a child
    never returns: not even a node with one childless child can be moved
    into or out of a scene.
  */
  lemma SetSceneDiverges(fuel: nat, f: Forest, i: nat, s: Option<SceneId>)
    requires ChildrenInRange(f.nodes) && i < |f.nodes| && f.nodes[i].nodeType == SceneNode
    requires |f.nodes[i].children| > 0 && f.nodes[i].scene != s
    ensures SetScene(fuel, f, i, s) == None
  {
    var f1 := Forest(f.nodes[i := f.nodes[i].(scene := s)], f.events + SceneHooks(i, f.nodes[i].scene, s));
    RecursiveSetSceneDiverges(fuel, f1, s, i);
  }

  /** On a childless node the loop body never runs: `RecursiveSetScene` as written changes nothing. */
  lemma RecursiveSetSceneChildless(fuel: nat, f: Forest, s: Option<SceneId>, node: nat)
    requires ChildrenInRange(f.nodes) && node < |f.nodes| && |f.nodes[node].children| == 0
    requires fuel > 0
    ensures RecursiveSetScene(fuel, f, s, node) == Some(f)
  {
  }

  /**
    On a childless scene node, `SetScene` as written returns, and does what
    the intended `SceneNodeModel.SetScene` does.
  */
  lemma SetSceneChildlessAgrees(fuel: nat, f: Forest, rank: seq<nat>, i: nat, s: Option<SceneId>)
    requires WellFormed(f.nodes, rank) && i < |f.nodes| && f.nodes[i].nodeType == SceneNode
    requires |f.nodes[i].children| == 0 && fuel > 0
    ensures SetScene(fuel, f, i, s) == Some(SceneNodeModel.SetScene(f, rank, i, s))
  {
    if f.nodes[i].scene != s {
      var f1 := Forest(f.nodes[i := f.nodes[i].(scene := s)], f.events + SceneHooks(i, f.nodes[i].scene, s));
      SceneUpdateKeepsWellFormed(f.nodes, f1.nodes, rank, s);
      assert PropagateScene(f1, rank, s, i, 0) == f1;
      RecursiveSetSceneChildless(fuel, f1, s, i);
    }
  }
}

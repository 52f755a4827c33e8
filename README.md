# Nazara Engine: scene nodes and uniform buffers

A Dafny model of two small stateful parts of the Nazara Engine:

- **`NzSceneNode`** (`src/Nazara/Graphics/SceneNode.cpp`). A node of the
  scene graph carries a nullable scene, a `drawingEnabled` flag and a
  `visible` flag. `SetScene` fires the `Unregister`/`Register` hooks and
  propagates the new scene down the subtree through `RecursiveSetScene`.
  `OnParenting` adopts the scene of the new parent. `UpdateVisibility`
  recomputes `visible` and fires `OnVisibilityChange` when it flips.
- **`UniformBuffer`** (`src/Nazara/Core/UniformBuffer.cpp`). A uniform buffer
  is a window `[startOffset, endOffset)` over a shared `Buffer`. It
  bounds-checks each `Fill` and `Map` and forwards it to the buffer,
  translated by `startOffset`.

Files:

- `wrappers.dfy`: `Option`, where `None` is a null pointer.
- `scene_node_model.dfy` (module `SceneNodeModel`): the node tree as an
  arena of `NodeState` records plus a log of hook calls (`Forest`), and the
  specification functions `SetScene`, `PropagateScene`, `VisitChild` and
  `OnParenting`. Its lemmas prove what scene assignment does to a whole
  subtree, that nothing outside the subtree changes, and which hook calls
  each node of the tree receives. A ghost `rank`
  strictly decreases from each parent to its children. It shows the tree
  has no cycle and is the termination measure.
- `scene_node_literal.dfy` (module `SceneNodeLiteral`): `SetScene` and
  `RecursiveSetScene` exactly as written, bounded by fuel. Its lemmas show
  the written recursion never returns once a node with a child changes
  scene (see Findings).
- `scene_nodes.dfy` (module `SceneNodes`): class `SceneGraph`, which holds
  the node records of one arena and whose methods update them in place.
  `SetScene`, `RecursiveSetScene` (with its loop over the children) and
  `OnParenting` are proved equal to the `SceneNodeModel` functions.
- `uniform_buffer.dfy` (module `UniformBuffers`): classes `Buffer`,
  `BufferFactory` and `UniformBuffer`, the bounds check with and without
  64-bit wrap-around, and lemmas about both.

## Model

| member | source | states |
|---|---|---|
| SceneNodes.SceneGraph.AddSceneNode | src/Nazara/Graphics/SceneNode.cpp:12-17 | a new node has no scene, has drawing enabled and is not visible; no other node changes |
| SceneNodes.SceneGraph.AddSceneNodeCopy | src/Nazara/Graphics/SceneNode.cpp:19-25 | a copy takes only `drawingEnabled` from its source; it has no scene and is not visible |
| SceneNodes.SceneGraph.CopyAssign | src/Nazara/Graphics/SceneNode.cpp:132-141 | copy assignment copies `drawingEnabled` and sets `visible` to false; it does not assign `m_scene` itself, so the target's scene is kept; no other node changes and no hook fires |
| SceneNodes.SceneGraph.MoveAssign | src/Nazara/Graphics/SceneNode.cpp:143-152 | move assignment copies `drawingEnabled` and `visible`; it does not assign `m_scene` itself, so the target's scene is kept; no other node changes and no hook fires |
| SceneNodes.SceneGraph.EnableDrawing | src/Nazara/Graphics/SceneNode.cpp:29-32 | only `drawingEnabled` changes; `visible` keeps its value, even when drawing is turned off |
| SceneNodes.SceneGraph.OnVisibilityChange | src/Nazara/Graphics/SceneNode.cpp:171-176 | the hook is recorded once, with its value |
| SceneNodes.SceneGraph.UpdateVisibility | src/Nazara/Graphics/SceneNode.cpp:221-242 | drawing disabled leaves the node not visible; drawing enabled on a drawable node, or in an unsafe build, sets `visible` to the frustum test; a safe build with a non-drawable node changes nothing and fires nothing; `OnVisibilityChange` fires exactly once, with the new value, exactly when `visible` changed |
| SceneNodes.SceneGraph.Register | src/Nazara/Graphics/SceneNode.cpp:194-196 | the hook is recorded with the node's current scene |
| SceneNodes.SceneGraph.Unregister | src/Nazara/Graphics/SceneNode.cpp:213-215 | the hook is recorded with the node's current scene |
| SceneNodes.SceneGraph.SetScene | src/Nazara/Graphics/SceneNode.cpp:198-211 | the new state is `SceneNodeModel.SetScene` of the old one, and the tree stays well-formed |
| SceneNodes.SceneGraph.RecursiveSetScene | src/Nazara/Graphics/SceneNode.cpp:178-192 | the loop over the children leaves the state `SceneNodeModel.PropagateScene` gives, with the recursion on each child |
| SceneNodes.SceneGraph.VisitChild | src/Nazara/Graphics/SceneNode.cpp:181-190 | one pass of that loop gives the state `SceneNodeModel.VisitChild` gives |
| SceneNodes.SceneGraph.OnParenting | src/Nazara/Graphics/SceneNode.cpp:159-169 | the new state is `SceneNodeModel.OnParenting` of the old one |
| SceneNodeModel.SetScene | src/Nazara/Graphics/SceneNode.cpp:198-211 | setting the current scene again changes nothing and fires no hook; otherwise the node has the new scene afterwards, the tree stays well-formed, and every other node either stays as it was or is a scene node whose scene became the new scene |
| SceneNodeModel.PropagateScene | src/Nazara/Graphics/SceneNode.cpp:178-192 | propagation keeps the tree well-formed and changes a node only by setting the scene of a scene node to the new scene |
| SceneNodeModel.VisitChild | src/Nazara/Graphics/SceneNode.cpp:181-190 | the same for one child |
| SceneNodeModel.SceneHooks | src/Nazara/Graphics/SceneNode.cpp:202-207 | the node's own hook calls on a scene change: `Unregister` with the old scene when one was set, then `Register` with the new scene when it is not null; how they enter the log is stated by `SetSceneFiresOwnHooksFirst` and `SetSceneHooksExactlyOnChangedNodes` |
| SceneNodeModel.SetSceneFiresOwnHooksFirst | src/Nazara/Graphics/SceneNode.cpp:200-207 | on a scene change the node's own hooks come first, straight after the earlier calls: `Unregister` with the old scene if a scene was set, then `Register` with the new scene if it is not null |
| SceneNodeModel.SetSceneHooksExactlyOnChangedNodes | src/Nazara/Graphics/SceneNode.cpp:178-211 | a scene change only appends to the hook log, and only calls on nodes of the tree; each scene node of the subtree whose scene differs from the new one gets exactly the hooks of its own change, once (`Unregister` with its old scene, then `Register`); every other node gets no hook |
| SceneNodeModel.SetSceneHookLog | src/Nazara/Graphics/SceneNode.cpp:198-211 | the calls a scene change appends, node by node: none on a node it left as it was, and exactly that node's `Unregister`/`Register` pair for its old scene on a node it changed |
| SceneNodeModel.PropagateSceneHookLog | src/Nazara/Graphics/SceneNode.cpp:178-192 | the same for propagation from child k on |
| SceneNodeModel.VisitChildHookLog | src/Nazara/Graphics/SceneNode.cpp:181-190 | the same for one child |
| SceneNodeModel.OnParenting | src/Nazara/Graphics/SceneNode.cpp:159-169 | no parent clears the scene; a scene-node parent passes on its own scene; a parent of another type changes nothing |
| SceneNodeModel.SetSceneCoversSubtree | src/Nazara/Graphics/SceneNode.cpp:178-211 | after a scene change, every scene node in the subtree of the node has the new scene |
| SceneNodeModel.SetSceneFrame | src/Nazara/Graphics/SceneNode.cpp:178-211 | a scene change leaves every node outside the subtree as it was |
| SceneNodeModel.PropagateSceneCovers | src/Nazara/Graphics/SceneNode.cpp:178-192 | propagation from child k on reaches every scene node below children k and later |
| SceneNodeModel.PropagateSceneFrame | src/Nazara/Graphics/SceneNode.cpp:178-192 | propagation from child k on touches nothing outside the subtrees of those children |
| SceneNodeModel.VisitChildCovers | src/Nazara/Graphics/SceneNode.cpp:181-190 | visiting a child sets the scene of every scene node at or below it |
| SceneNodeModel.VisitChildFrame | src/Nazara/Graphics/SceneNode.cpp:181-190 | visiting a child touches nothing outside its subtree |
| SceneNodeModel.ReachesUnderSceneUpdate | src/Nazara/Graphics/SceneNode.cpp:180 | which nodes lie below a node does not depend on scenes |
| SceneNodeModel.DetachClearsSubtree | src/Nazara/Graphics/SceneNode.cpp:167-168 | detaching a node that has a scene clears the scene of every scene node in its subtree |
| SceneNodeModel.AttachAdoptsParentSceneInSubtree | src/Nazara/Graphics/SceneNode.cpp:161-166 | parenting under a scene node with another scene gives that scene to every scene node in the subtree |
| SceneNodeLiteral.SetScene | src/Nazara/Graphics/SceneNode.cpp:198-211 | as written; when it returns, only scenes changed, and only to the new scene |
| SceneNodeLiteral.RecursiveSetScene | src/Nazara/Graphics/SceneNode.cpp:178-192 | as written; the same |
| SceneNodeLiteral.ChildLoop | src/Nazara/Graphics/SceneNode.cpp:181-191 | as written, the loop from child k on; the same |
| SceneNodeLiteral.RecursiveSetSceneDiverges | src/Nazara/Graphics/SceneNode.cpp:189-190 | as written, `RecursiveSetScene` on a node that has a child never returns, however deep the call stack may grow |
| SceneNodeLiteral.SetSceneDiverges | src/Nazara/Graphics/SceneNode.cpp:198-211 | as written, a scene change on a node that has a child never returns |
| SceneNodeLiteral.RecursiveSetSceneChildless | src/Nazara/Graphics/SceneNode.cpp:178-192 | as written, `RecursiveSetScene` on a childless node changes nothing |
| SceneNodeLiteral.SetSceneChildlessAgrees | src/Nazara/Graphics/SceneNode.cpp:198-211 | on a childless node the written `SetScene` returns the same as the intended one |
| UniformBuffers.WrappingAdd | src/Nazara/Core/UniformBuffer.cpp:41 | `UInt64` addition is the plain sum when it fits and the sum minus 2^64, smaller than both operands, when it does not |
| UniformBuffers.WithinWindow | src/Nazara/Core/UniformBuffer.cpp:41-43 | the intended bounds check that `Fill` and `Map` require: the true sum `start + offset + size`, with no wrap-around, ends by `end`; its meaning is stated by `WithinWindowMeansInside` |
| UniformBuffers.WithinWindowAsWritten | src/Nazara/Core/UniformBuffer.cpp:41 | the bounds check as written (also lines 49 and 57), each addition wrapping around modulo 2^64 as `WrappingAdd`; compared with the intended check by `AsWrittenAgreesWithoutOverflow` and `AsWrittenAdmitsOverflow` |
| UniformBuffers.WithinWindowMeansInside | src/Nazara/Core/UniformBuffer.cpp:41-43 | the bounds check admits a range exactly when the window is not inverted and the range fits in its length; the forwarded absolute range then lies inside the window, and its offset fits in `UInt64` |
| UniformBuffers.AsWrittenAgreesWithoutOverflow | src/Nazara/Core/UniformBuffer.cpp:41 | when no addition wraps around, the check as written is the intended one |
| UniformBuffers.AsWrittenAdmitsOverflow | src/Nazara/Core/UniformBuffer.cpp:41 | the check as written admits offset 2^64 - 1 and size 1 on a 16-byte window at 0 |
| UniformBuffers.SubViewReachesSizeMinusOffset | src/Nazara/Core/UniformBuffer.cpp:22-27 | a sub-view made with `offset > 0` and `size` admits the range of its first `size - offset` bytes and not one byte more, so it cannot reach its full `size` |
| UniformBuffers.UniformBuffer.FromBuffer | src/Nazara/Core/UniformBuffer.cpp:12-20 | needs a non-null uniform buffer; the window is the whole buffer, from 0 to its size |
| UniformBuffers.UniformBuffer.View | src/Nazara/Core/UniformBuffer.cpp:22-27 | no check; the start is `offset` and the end is `size`, not `offset + size` |
| UniformBuffers.UniformBuffer.Create | src/Nazara/Core/UniformBuffer.cpp:29-36 | needs `size > 0`; asks the factory once for a uniform buffer of exactly `size` bytes, with the given usage and initial data, and spans `[0, size)` of whatever buffer it returns |
| UniformBuffers.UniformBuffer.Fill | src/Nazara/Core/UniformBuffer.cpp:38-44 | needs a buffer and a range inside the window; forwards exactly one `Fill` at `startOffset + offset` with the same data and size, returns its answer and changes no field |
| UniformBuffers.UniformBuffer.Map | src/Nazara/Core/UniformBuffer.cpp:46-60 | both overloads: the same precondition; forwards exactly one `Map` at `startOffset + offset` with the same size, returns its address and changes no field |
| UniformBuffers.UniformBuffer.Unmap | src/Nazara/Core/UniformBuffer.cpp:62-65 | forwards one `Unmap` with no bounds check and changes no field |

## Left out

- The directional accessors `GetForward`, `GetBackward`, `GetUp`, `GetDown`, `GetLeft` and `GetRight` (SceneNode.cpp:34-120): floating-point rotation of the scene's axes by the derived rotation of the base `NzNode`, which is not part of this model.
- `GetScene`, `IsDrawingEnabled`, `IsVisible` and `GetNodeType`: plain reads, represented by the fields `scene`, `drawingEnabled`, `visible` and `nodeType` of `NodeState`.
- `FrustumCull` and `IsDrawable`: frustum and bounding-volume geometry; `UpdateVisibility` takes their results as the booleans `inFrustum` and `drawable`. The build switch `NAZARA_GRAPHICS_SAFE` is the boolean `safeChecks`.
- The `NazaraError` message of `UpdateVisibility`: only its early return is modelled.
- `Update()` and the destructor: empty.
- The base `NzNode`: transforms and their copy by the assignment operators, and the re-linking of parent and child lists. The arena's links are given to the `SceneGraph` constructor and do not change; `OnParenting` takes the new parent as an argument.
- SceneNodes.SceneGraph.CopyAssign: the base `NzNode::operator=` it calls first re-parents the node, and through `OnParenting` that may change the scene and fire `Unregister`/`Register` in the subtree; the model keeps the links fixed, so that scene change and its hooks are not modelled. Only the scene node's own assignments are.
- SceneNodes.SceneGraph.MoveAssign: the same as `CopyAssign`. The scene change and hooks set off by the base assignment's re-parenting are not modelled.
- Pointers between nodes: a node is an index into the arena, so two nodes cannot alias.
- The hooks `Register`, `Unregister` and `OnVisibilityChange` do nothing in the source; the model records each call in a ghost log.
- SceneNodeLiteral.RecursiveSetScene: the written recursion does not terminate, so it is bounded by a fuel count. `None` means only that the run used up that fuel; a run that never returns is one that gives `None` for every fuel, as `RecursiveSetSceneDiverges` proves.
- `OnParenting` looks only at the immediate parent, as written, although its own FIXME (SceneNode.cpp:163) says it should go up to the first scene-node ancestor. A parent that is not a scene node leaves the scene as it was.
- `visible` implies `drawingEnabled` is not an invariant of the code: `EnableDrawing(false)` keeps `visible`, so a visible node can have drawing disabled. `UpdateVisibility`, copy construction and copy assignment set `visible` to false again, and move assignment carries over its source's pair of flags.
- `Buffer`, `BufferFactory` and GPU mapping: a buffer records the calls it receives and answers `Fill` and `Map` with values the model leaves open. Bytes are not modelled; the data, initial-data and mapped pointers are addresses, each possibly null (`None`), passed through unchanged. `shared_ptr` ownership and reference counting are not modelled.
- UniformBuffers.UniformBuffer.Create: the buffer factory is a callback outside the model, so nothing is assumed of what it returns. `Create` states the one request it makes and the window `[0, size)`, and leaves the stored buffer open: it may be null, or of another type or size.
- `NazaraAssertMsg` checks are preconditions. `Unmap` needs a buffer because the source dereferences it unchecked.
- UniformBuffers.UniformBuffer.Fill: requires the bounds check over unbounded integers, which is stronger than the source's wrapping check (see Findings); the same holds for `UniformBuffers.UniformBuffer.Map`.
- The sub-view constructor's end offset `size` (rather than `offset + size`) is kept as written.
- `include/Nazara/Core/Stream.hpp`: an interface of pure virtual functions with nothing to model.
- `include/Nazara/Utility/BasicMainloop.hpp`: window event loop and platform callbacks.
- `src/Nazara/Core/Posix/MutexImpl.cpp` and `src/Nazara/Core/LockGuard.cpp`: concurrency primitives.
- `src/Nazara/Graphics/FramePipeline.cpp`: a defaulted destructor only.

## Findings

| source | as written | input that shows it | evidently intended | confidence | as-written member | corrected member |
|---|---|---|---|---|---|---|
| src/Nazara/Graphics/SceneNode.cpp:189-190 | inside the loop over the children of `node`, `if (node->HasChilds()) RecursiveSetScene(scene, node)` recurses on `node` itself | a scene node with one childless child, given a new scene: the recursion on the node never ends | `if (child->HasChilds()) RecursiveSetScene(scene, child)` | high; not executed | SceneNodeLiteral.RecursiveSetSceneDiverges | SceneNodes.SceneGraph.RecursiveSetScene |
| src/Nazara/Core/UniformBuffer.cpp:41 | `m_startOffset + offset + size <= m_endOffset` is computed in wrapping `UInt64` arithmetic (also lines 49 and 57) | start 0, end 16, offset 2^64 - 1, size 1: the sum wraps to 0 and the check passes, though the range lies far outside the window | the check over the true sum, so that the forwarded range lies inside the window | medium; not executed | UniformBuffers.AsWrittenAdmitsOverflow | UniformBuffers.WithinWindowMeansInside |

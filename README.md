# SceneTree and the uniform cache-entry packer, modelled in Dafny

This project models two parts of the Pipeline scene-graph SDK (dp): the
scene tree of its `xbar` layer and a uniform packer of its OpenGL `rix` backend.

**The scene tree** (`dp/sg/xbar/src/SceneTree.cpp`, module `Xbar`, class
`SceneTree`). The scene tree keeps an object tree that mirrors the authored
scene hierarchy:

- Nodes are addressed by integer indices and linked by parent, first-child
  and next-sibling indices.
- A sentinel node hangs off the transform tree's root, and the scene's root
  is its only child.
- Side registries are kept beside the tree: switches, LODs, light sources,
  the drawable flag, and the transform-tree indices that Transform and
  Billboard nodes own.
- A dirty set records which nodes changed.

The class keeps the nodes, the next free index, the registries, the transform
indices and the listener's event log in one `Store` value (module
`SceneState`). Beside it are the dirty set, the root index and the
removal worklist `indexStack`, which is an `array<int>`. Two ghost maps record
the tree's shape: the ordered child list of each node, and each node's depth.

`Valid()` is the scene invariant (`SceneState.SceneOK`):

- The links spell the child lists.
- Every non-sentinel node has a live parent whose list names it.
- Depths rank the forest.
- Indices below the next free index are the only ones used.
- The dirty set and the registries name live nodes, and the light set holds light sources only.
- The transform-owner map names exactly the transforms that live
  Transform/Billboard nodes introduce.

Every method keeps `Valid()`. Every method also keeps `LightsRegistered()`
(every live light is registered) whenever it held before.

The methods follow the source:

- **construction** (`init`)
- **addSubTree**
- **replaceSubTree**, with its left-sibling scan
- **update**, **updateTransformTree** and **updateObjectTree**. These drain
  the hints and masks, re-resolve the children of the dirty switches and of
  every LOD, mark exactly the nodes whose flag changed, and clear the dirty
  set.
- **addObject**, **addLOD**, **addSwitch**, **addGeoNode** and
  **addLightSource**
- **removeObjectTreeIndex**. This is a breadth-first walk over the
  `indexStack` array with `begin`/`end` counters, followed by deletion of the
  subtree.
- **onRootNodeChanged**

Each state-changing method states its new state. Where possible it
states it as a function of the old state: `Inserted`, `Registered`,
`Reconciled`, `DeleteNodes` or `RemovedEvents`. `replaceSubTree` and
`onRootNodeChanged` state their two halves: the state right after the removal,
exactly (`RemovedSubtree`), and the generator's extension of it (`Extends`,
`Mirrors`, and every child list but the parent's unchanged). `ReplacedComposed`
proves what the two together leave. Lemmas prove what those
functions mean. The scene-tree generator that `init`, `addSubTree` and
`replaceSubTree` call is modelled by `Generator.Build`. It is a pre-order walk
that calls `addObject` and then the registration that the node's kind asks for.
`Generator.Mirrors` states what the walk builds: the subtree's root carries the
scene node's object and its registration by kind, and its child list, in order,
mirrors the scene node's children, level by level, with fresh indices throughout.

**The uniform cache-entry packer**
(`dp/rix/gl/src/ParameterCacheEntryStreamBuffer.cpp`, module `ParameterCache`):

- `CacheEntryMatrix<n, m, SourceType, DestType>` becomes a `CacheEntry`
  value, with its size computation.
- `update` is a triple loop over an `array<Scalar>` cache with one slot per
  destination element.
- The factory's type-to-shape switch is `ShapeOf`.
- The per-program loop that accumulates the cache offset is `CreateEntries`.

Element values are only copied or integer-converted. Integer conversions
wrap modulo 2^bits, as C++'s conversions to unsigned and fixed-width types do.
Floats are opaque 32-bit patterns.

## Model

| member | source | states |
|---|---|---|
| Xbar.SceneTree.constructor | dp/sg/xbar/src/SceneTree.cpp:94-112 | the sentinel hangs off the transform root with no object; the generator builds the scene under it; the root index is the sentinel's only child, and the subtree below it mirrors the whole scene (`Mirrors`: objects, registrations and child order at every level); the scene invariant and light registration hold; the dirty set is empty |
| Xbar.SceneTree.AddSubTree | dp/sg/xbar/src/SceneTree.cpp:119-125 | the new subtree's root takes the next free index under parentIndex; the parent's child list is the old list with the new root inserted right after leftSibling; every other child list and every existing node are unchanged, with every existing registration and drawable flag, and adds nodes and transforms only from the old next indices on (`Extends`); the new subtree mirrors `root` at every level with fresh indices (`Mirrors`); the invariant is kept |
| Xbar.SceneTree.LeftSibling | dp/sg/xbar/src/SceneTree.cpp:133-140 | the sibling scan returns the immediate predecessor of objectIndex in its parent's child list, or NIL when objectIndex is the first child |
| Xbar.SceneTree.ReplaceSubTree | dp/sg/xbar/src/SceneTree.cpp:127-147 | requires a non-sentinel object (parent != ~0); the intermediate state is exactly objectIndex's subtree removed as removeObjectTreeIndex removes it (`RemovedSubtree`: nodes, lists, dirty marks, registrations and owned transforms of the subtree gone, one removal event per node in walk order, everything else kept but the links skipping objectIndex); the final state extends it (`Extends`) with no list changed but the parent's; objectIndex is gone and the parent's child list is the old list with the new subtree's root at objectIndex's position; the new root is fresh, under the same parent, and the subtree below it mirrors `node` at every level (`Mirrors`) |
| Xbar.SceneTree.RemoveForReplace | dp/sg/xbar/src/SceneTree.cpp:142-143 | removing the old subtree leaves exactly `RemovedSubtree` of the old state (the subtree's nodes, lists, dirty marks, registrations and owned transforms gone, its removal events appended in walk order, nothing else changed but the links that skip objectIndex); the parent and the left sibling stay live, the next free index stays unused, and exactly objectIndex leaves the parent's child list |
| Xbar.SceneTree.Update | dp/sg/xbar/src/SceneTree.cpp:153-165 | the world matrices are set first, then the nodes become Reconciled(...) with the LOD choices taken from this frame's matrices; marked is the old dirty set plus exactly the changed nodes; the dirty set ends empty; nothing else in the store changes |
| Xbar.SceneTree.UpdateTransformTree | dp/sg/xbar/src/SceneTree.cpp:167-170 | the world matrices are the ones the transform tree computes (an input) |
| Xbar.SceneTree.UpdateObjectTree | dp/sg/xbar/src/SceneTree.cpp:172-275 | nodes become Reconciled(hints, then dirty switches, then every LOD by its chosen ordinal); marked is the old dirty set plus ReconciledDirty; the dirty set is empty afterwards; the links, registries and transforms are unchanged |
| Xbar.SceneTree.AddObject | dp/sg/xbar/src/SceneTree.cpp:277-301 | the node is inserted at the next index under parentIndex after siblingIndex; it introduces a transform iff its object is a Transform or a Billboard, in which case transformParent is the parent's transform and transform is the freshly allocated index, owned by the new node |
| Xbar.SceneTree.AddLOD | dp/sg/xbar/src/SceneTree.cpp:303-307 | requires that the index is not yet registered; the LOD map gains index -> lod and nothing else changes |
| Xbar.SceneTree.AddSwitch | dp/sg/xbar/src/SceneTree.cpp:309-316 | requires that the index is not yet registered; the switch map gains index -> s and nothing else changes |
| Xbar.SceneTree.AddGeoNode | dp/sg/xbar/src/SceneTree.cpp:318-323 | the node becomes drawable, every other node is unchanged, and exactly one ADDED event carrying the updated node is appended |
| Xbar.SceneTree.AddLightSource | dp/sg/xbar/src/SceneTree.cpp:325-328 | the light set gains index and nothing else changes; if that light was the only unregistered one, every light is now registered |
| Xbar.SceneTree.RemoveObjectTreeIndex | dp/sg/xbar/src/SceneTree.cpp:330-408 | requires index != sentinel; the visit order is breadth-first ([index] + the children lists of the order) and covers exactly the subtree; the subtree leaves the nodes, the child lists, the dirty set, the switch/LOD/light registries and the transform-owner map; the events gain one REMOVED per drawable visited node, in order; the invariant is kept |
| Xbar.SceneTree.OnRootNodeChangedAsWritten | dp/sg/xbar/src/SceneTree.cpp:420-424 | as written: after the replacement the recorded root index names a node that is no longer in the tree |
| Xbar.SceneTree.OnRootNodeChanged | dp/sg/xbar/src/SceneTree.cpp:420-424 | corrected: the old root's subtree is removed exactly (`RemovedSubtree`) and the result is extended by the generator (`Extends`, no list changed but the sentinel's); afterwards the root index is read back from the sentinel, as init does; it is the sentinel's only child, it is fresh, and the subtree below it mirrors the new scene root at every level (`Mirrors`) |
| Xbar.ReplacedComposed | dp/sg/xbar/src/SceneTree.cpp:127-147 | for every valid store: removing the subtree at x (`RemovedSubtree`) and then extending the result into a valid store that changes no list but x's parent's leaves every node outside the subtree with its parent, object, transform and drawable flag, every other list, registration, dirty mark and owned transform outside the subtree (`Survives`), and nothing of the subtree in the tree, the registries or the owned transforms (`Cleared`); the listener heard every removal before anything the generator added |
| Xbar.ReplacedSurvives | dp/sg/xbar/src/SceneTree.cpp:127-147 | what survives a removal followed by an extension: everything outside the removed subtree is kept (`Survives`), and the removal events come first in the listener's log |
| Xbar.ListsSurvive | dp/sg/xbar/src/SceneTree.cpp:142-143 | the child lists outside the removed subtree, other than its parent's, are unchanged by the removal and the generator |
| Xbar.ReplacedCleared | dp/sg/xbar/src/SceneTree.cpp:127-147 | nothing the removal took out comes back: the generator only adds nodes and transforms above the old next indices |
| Xbar.SceneTree.RootNotSentinel | dp/sg/xbar/src/SceneTree.cpp:110-111 | the root index is not the sentinel, and its parent is the sentinel |
| Generator.Build | dp/sg/xbar/src/SceneTree.cpp:106-108 | the generator's walk of a scene node keeps the invariant and light registration; it places the node's root at the next free index under parent after left; the built subtree mirrors the scene node (`Mirrors`: each node's object and registration by kind, each child list in the scene's order) with indices from the old next index on; it changes only the parent's list and keeps every existing node and registration, adding nodes and transforms only from the old next indices on (`Extends`) |
| Generator.Place | dp/sg/xbar/src/SceneTree.cpp:277-328 | one scene node: the new store is exactly addObject at the next index followed by the registration by kind (`Placed`); the node carries the object and the registration its kind asks for; the parent's list gains it after left; existing nodes and registrations are preserved; the invariant is kept |
| Generator.BuildChildren | dp/sg/xbar/src/SceneTree.cpp:119-125 | building a list of scene children keeps the parent's existing children as a prefix and appends one subtree per scene node, the i-th mirroring the i-th scene node; the invariant is kept |
| Generator.BuildChild | dp/sg/xbar/src/SceneTree.cpp:119-125 | building one scene child appends exactly its root, at the next index, to the parent's list; the subtree mirrors the scene child; the invariant is kept |
| Generator.RootStep | dp/sg/xbar/src/SceneTree.cpp:119-125 | one node placed and its children built: the store is extended (`Extends`), only the parent's list changes, and the subtree at the placed node mirrors the scene node |
| Generator.ChildrenStep | dp/sg/xbar/src/SceneTree.cpp:119-125 | one step of the walk over a children list: building the first scene child and then the rest keeps the old children as a prefix, the i-th new child mirroring the i-th scene node, every other list unchanged and the store extended (`ChildrenBuilt`) |
| Generator.PlacedRegisters | dp/sg/xbar/src/SceneTree.cpp:277-328 | addObject followed by the registration leaves the new node carrying its object and registered as its kind asks, and takes no existing registration or drawable flag away |
| Generator.RegisteredPreserves | dp/sg/xbar/src/SceneTree.cpp:303-328 | requires, as addLOD's and addSwitch's assertions do, that the index is not yet in the LOD or switch map; addSwitch, addLOD, addLightSource and addGeoNode then register the node in their own registry (or set its drawable flag) and take nothing away |
| Generator.MirrorsFrame | dp/sg/xbar/src/SceneTree.cpp:119-125 | a subtree the walk has built stays a mirror of its scene node while later siblings are built: they keep its nodes and registrations and change only the parent's child list |
| Generator.InsertedKeeps | dp/sg/xbar/src/SceneTree.cpp:277-301 | addObject on any valid store keeps the whole scene invariant |
| Generator.InsertedPlaces | dp/sg/xbar/src/SceneTree.cpp:280 | addObject gives the node the next index under the requested parent, keeps every other node's place, leaves the registries alone, and every light except the new node stays registered |
| Generator.RegisteredKeeps | dp/sg/xbar/src/SceneTree.cpp:303-328 | registering a node by kind keeps the invariant and every node's place, and completes light registration |
| Generator.PlacedKeeps | dp/sg/xbar/src/SceneTree.cpp:277-328 | addObject followed by its registration keeps the invariant, the nodes' places and light registration |
| SceneState.InitialOK | dp/sg/xbar/src/SceneTree.cpp:99-104 | the tree holding only the sentinel satisfies the scene invariant and light registration |
| SceneState.WithTransform | dp/sg/xbar/src/SceneTree.cpp:285-298 | a Transform (else a Billboard) gets the parent's transform as transformParent, a new transform and its role flag; any other node is unchanged; only those four fields ever change |
| SceneState.WithTransformIntroduces | dp/sg/xbar/src/SceneTree.cpp:285-298 | the new record introduces a transform iff the object is a Transform or a Billboard, and then it names the fresh one |
| SceneState.OwnedTransforms | dp/sg/xbar/src/SceneTree.cpp:285-298 | the owner map's keys are exactly the transforms live nodes introduce, and no two nodes introduce the same transform |
| SceneState.AddObjectKeeps | dp/sg/xbar/src/SceneTree.cpp:277-301 | inserting a record at the next index, with a freshly allocated transform when it introduces one, keeps the scene invariant |
| SceneState.SameShapeKeeps | dp/sg/xbar/src/SceneTree.cpp:186-190 | changing only per-node flags (hints, masks, activity, drawable) keeps the invariant and light registration |
| SceneState.Drawable | dp/sg/xbar/src/SceneTree.cpp:321 | only the given node changes, and it becomes drawable |
| SceneState.RemovedKeeps | dp/sg/xbar/src/SceneTree.cpp:330-408 | deleting a non-sentinel subtree, and dropping it from the dirty set, the registries and the transform-owner map, keeps the scene invariant and light registration |
| SceneState.RemovedRegistriesOK | dp/sg/xbar/src/SceneTree.cpp:349-378 | the dirty set and the registries minus the subtree still name only live nodes, and the light set only light sources |
| SceneState.TransformsDropped | dp/sg/xbar/src/SceneTree.cpp:378-387 | dropping the transforms the subtree introduced keeps the owner map exact |
| SceneState.RemovedSiblings | dp/sg/xbar/src/SceneTree.cpp:127-147 | after the deletion the parent's list is the old list without index, and every other sibling is still live under the same parent |
| ObjectTree.InsertAfter | dp/sg/xbar/src/SceneTree.cpp:280 | the list grows by one: x comes first when left is NIL, else right after left, and the rest of the list keeps its order |
| ObjectTree.RemoveAt | dp/sg/xbar/src/SceneTree.cpp:407 | the list loses exactly the element at pos, and the rest keeps its order |
| ObjectTree.ReplacedInPlace | dp/sg/xbar/src/SceneTree.cpp:127-147 | removing the element at pos, then inserting x after its left neighbour, puts x exactly at pos |
| ObjectTree.InsertAfterRemoveAt | dp/sg/xbar/src/SceneTree.cpp:127-147 | the same, with the left neighbour still present after the removal |
| ObjectTree.InsertNodes | dp/sg/xbar/src/SceneTree.cpp:280 | the new record gets idx with parent, no children and the right next sibling; only the parent's firstChild or the left sibling's nextSibling changes |
| ObjectTree.InsertWellFormed | dp/sg/xbar/src/SceneTree.cpp:280 | insertion keeps the forest well formed |
| ObjectTree.InsertChainSpells | dp/sg/xbar/src/SceneTree.cpp:280 | after insertion the parent's links spell InsertAfter of its old child list |
| ObjectTree.DeleteNodes | dp/sg/xbar/src/SceneTree.cpp:407 | exactly the subtree's indices leave the map; the survivors are relinked past the deleted node |
| ObjectTree.DeleteWellFormed | dp/sg/xbar/src/SceneTree.cpp:407 | deleting a non-sentinel subtree keeps the forest well formed and never deletes the sentinel |
| ObjectTree.DeleteChainSpellsParent | dp/sg/xbar/src/SceneTree.cpp:407 | after deletion the parent's links spell its old list without the deleted node |
| ObjectTree.ChildOfParent | dp/sg/xbar/src/SceneTree.cpp:211-214 | c is in p's child list iff c is not the sentinel and its parent index is p (the DP_ASSERT of the child loops) |
| ObjectTree.ChainNext | dp/sg/xbar/src/SceneTree.cpp:136-139 | following nextSibling from the i-th child reaches the (i+1)-th, or NIL after the last |
| ObjectTree.BreadthFirstStep | dp/sg/xbar/src/SceneTree.cpp:393-400 | pushing the current node's children keeps the queue free of repeats and inside the subtree |
| ObjectTree.BreadthFirstComplete | dp/sg/xbar/src/SceneTree.cpp:341-401 | a queue that starts with index and is closed under children holds exactly the subtree |
| Removal.PushChildren | dp/sg/xbar/src/SceneTree.cpp:393-400 | walking the child chain writes the children into the worklist array after end, in order, and returns the new end |
| Removal.QueueStep | dp/sg/xbar/src/SceneTree.cpp:343-400 | each visited node is new, the first is index, and the worklist never outgrows the tree's size |
| Removal.VisitAccounted | dp/sg/xbar/src/SceneTree.cpp:347-390 | one visit takes exactly the current node out of the registries and the owner map, and appends its REMOVED event when it is drawable |
| Removal.WalkStep | dp/sg/xbar/src/SceneTree.cpp:343-401 | one iteration of the worklist loop preserves both the queue invariant and the accounting invariant |
| Removal.WalkDone | dp/sg/xbar/src/SceneTree.cpp:343-401 | when begin reaches end, the order is exactly the subtree, and the registries, owner map and events are accounted for it |
| Removal.RemovalWalk | dp/sg/xbar/src/SceneTree.cpp:336-401 | the worklist loop visits the subtree in breadth-first order, each node once; it drops exactly the subtree from the registries and its transforms from the owner map, emits RemovedEvents, and touches no node outside the subtree |
| Removal.RemoveSubtree | dp/sg/xbar/src/SceneTree.cpp:330-408 | the walk followed by deleteNode: nodes, lists and dirty set lose the subtree and the result satisfies the scene invariant |
| Removal.WalkDeleteKeeps | dp/sg/xbar/src/SceneTree.cpp:407 | the walk's changes to the subtree's nodes do not matter to the deletion, and the result keeps the invariant |
| Removal.TransformRemovalsAppend | dp/sg/xbar/src/SceneTree.cpp:384-392 | as written, the walk asks the transform tree for removals node by node: visiting one more node appends exactly its own transform when it is a Transform or Billboard |
| Removal.TopmostRemovalsExact | dp/sg/xbar/src/SceneTree.cpp:384 | the removals the comment asks for (topmost Transform and Billboard nodes only) are each made once, and a visited node's transform gets a call of its own exactly when its parent transform is not itself removed |
| Removal.TopmostRemovalsFrom | dp/sg/xbar/src/SceneTree.cpp:384 | every topmost removal is the transform of a visited Transform or Billboard node whose parent transform is not removed |
| Removal.AsWrittenRemovesNested | dp/sg/xbar/src/SceneTree.cpp:384-392 | as written: when a visited Transform or Billboard node's parent transform belongs to a node visited before it, that transform (and with it the node's own) has already been removed, and the visit still asks the transform tree to remove the node's transform again; the topmost removals leave it out |
| Removal.WalkRemovals | dp/sg/xbar/src/SceneTree.cpp:384-392 | on a walk that visits each node of the subtree once, with each transform owned by one node: every dropped transform gets a call of its own as written, while the topmost removals are distinct and are exactly the dropped transforms whose parent transform is not dropped |
| Reconcile.RemovedEventsExact | dp/sg/xbar/src/SceneTree.cpp:355-358 | the removal events are one REMOVED event per drawable visited node, carrying its record, with no repeats and nothing else |
| Reconcile.WithHintsEffect | dp/sg/xbar/src/SceneTree.cpp:179-192 | each drained entry sets its node's hints and mask; no other node and no link changes |
| Reconcile.ActivatedAt | dp/sg/xbar/src/SceneTree.cpp:207-223 | after resolution child i of a resolved parent has localActive == want(i), and the rest of its record is kept |
| Reconcile.ActivatePrefixComplete | dp/sg/xbar/src/SceneTree.cpp:207-223 | the sibling-chain loop over one parent computes the set-level resolution and marks exactly the flipped children |
| Reconcile.ActivatedStep | dp/sg/xbar/src/SceneTree.cpp:195-227 | resolving parents one at a time builds up the resolution of the whole set, and the marked sets add up |
| Reconcile.ActivatedIdempotent | dp/sg/xbar/src/SceneTree.cpp:248-262 | resolving again with the same choices changes nothing and marks nothing dirty |
| Reconcile.LodExclusive | dp/sg/xbar/src/SceneTree.cpp:248-262 | child i of a LOD is active iff i equals its ordinal; at most one child is active; an out-of-range ordinal leaves all of them inactive |
| Update.ApplyHints | dp/sg/xbar/src/SceneTree.cpp:179-192 | the hint loop yields WithHints and marks exactly the drained entries |
| Update.ActivateChildren | dp/sg/xbar/src/SceneTree.cpp:207-223 | the child loop of one switch or LOD yields the prefix resolution and marks exactly the flipped children |
| Update.ResolveParents | dp/sg/xbar/src/SceneTree.cpp:195-227 | the loop over a parent set yields Activated, and dirty grows by exactly Flipped, so unchanged children keep their dirty status |
| Update.LodChoices | dp/sg/xbar/src/SceneTree.cpp:230-243 | every registered LOD gets an ordinal |
| Update.LodChoicesSameTransforms | dp/sg/xbar/src/SceneTree.cpp:238-242 | the ordinals depend only on the LODs' transforms, so resolving the switches first does not change them |
| Update.ReconcileNodes | dp/sg/xbar/src/SceneTree.cpp:178-264 | the three steps compute Reconciled and dirty + ReconciledDirty without changing the tree's shape |
| Update.ReconciledSteps | dp/sg/xbar/src/SceneTree.cpp:178-264 | hints, then switches, then LODs compose to Reconciled, and their marked sets add up to ReconciledDirty |
| ParameterCache.ConvertWidening | dp/rix/gl/src/ParameterCacheEntryStreamBuffer.cpp:102 | a widening conversion keeps every value, except that a negative value stored unsigned wraps to value + 2^bits |
| ParameterCache.ShapeFollowsName | dp/rix/gl/src/ParameterCacheEntryStreamBuffer.cpp:120-332 | the switch gives FLOATk/INTk_b/UINTk_b/BOOLk one row of k columns and MATaXb a rows of b columns, with the element types the names call for; unknown types give none |
| ParameterCache.ShapeWidens | dp/rix/gl/src/ParameterCacheEntryStreamBuffer.cpp:120-332 | every shape has one to four rows and columns, more than one row only for float matrices, and only widening conversions |
| ParameterCache.NameInRange | dp/rix/gl/src/ParameterCacheEntryStreamBuffer.cpp:120-332 | every enumerator names a width of 8, 16, 32 or 64, a vector of one to four elements or a matrix of 2..4 by 2..4 |
| ParameterCache.SizesAgreeForSingleEntries | dp/rix/gl/src/ParameterCacheEntryStreamBuffer.cpp:75-88 | for array size at most 1 the size as written equals the corrected size |
| ParameterCache.NewCacheEntry | dp/rix/gl/src/ParameterCacheEntryStreamBuffer.cpp:66-89 | requires the constructor's assertions; the cache offset is the uniform's offset; the strides and array size are stored as given; the size is computed as written (element size times the array stride for an array, `EntrySizeAsWritten`), which equals the covering size `EntrySize` whenever the array size is at most 1 |
| ParameterCache.AsWrittenSizeTooSmall | dp/rix/gl/src/ParameterCacheEntryStreamBuffer.cpp:84-88 | as written, an 8-element FLOAT array with stride 16 gets 64 bytes, but its last element is written at byte 112 |
| ParameterCache.EntrySizeCoversWrites | dp/rix/gl/src/ParameterCacheEntryStreamBuffer.cpp:75-106 | with the corrected size, every byte that update writes lies in [cacheOffset, cacheOffset + size) |
| ParameterCache.ExtentIsEntrySize | dp/rix/gl/src/ParameterCacheEntryStreamBuffer.cpp:75-88 | the corrected size is the slot extent times sizeof(DestType) |
| ParameterCache.SlotBytePosition | dp/rix/gl/src/ParameterCacheEntryStreamBuffer.cpp:99-102 | slot (a, r, c) starts at byte cacheOffset + a*arrayStride + r*matrixStride + c*sizeof(DestType) |
| ParameterCache.SlotOrder | dp/rix/gl/src/ParameterCacheEntryStreamBuffer.cpp:95-104 | with a packed layout, slots increase strictly in loop order |
| ParameterCache.SlotInjective | dp/rix/gl/src/ParameterCacheEntryStreamBuffer.cpp:95-104 | with a packed layout, distinct (a, r, c) write distinct slots, so arraySize * n * m slots are written |
| ParameterCache.SlotWithinExtent | dp/rix/gl/src/ParameterCacheEntryStreamBuffer.cpp:99-102 | with a packed layout, every written slot lies within the entry's extent |
| ParameterCache.SourceInBounds | dp/rix/gl/src/ParameterCacheEntryStreamBuffer.cpp:93-103 | every element read lies between the container offset and SourceEnd |
| ParameterCache.WriteStep | dp/rix/gl/src/ParameterCacheEntryStreamBuffer.cpp:102-103 | writing one element extends the frame and fill invariants past it |
| ParameterCache.Update | dp/rix/gl/src/ParameterCacheEntryStreamBuffer.cpp:91-107 | slots that no (a, r, c) maps to keep their value; with a packed layout, slot (a, r, c) holds source element (a*n + r)*m + c after the container offset, converted to DestType; the container is read-only |
| ParameterCache.UpdateRow | dp/rix/gl/src/ParameterCacheEntryStreamBuffer.cpp:99-104 | the column loop of one row advances the source index by m and extends both invariants to the end of the row |
| ParameterCache.CreateEntry | dp/rix/gl/src/ParameterCacheEntryStreamBuffer.cpp:109-334 | null iff the type is unknown; otherwise the entry has the table's shape, array size 1, the uniform's offset (the caller's offset is ignored), the container offset, and size n*matrixStride or m*sizeof(DestType) |
| ParameterCache.CreateEntries | dp/rix/gl/src/ParameterCacheEntryStreamBuffer.cpp:336-350 | one entry per uniform, in order; entry i is created with the sum of the sizes of entries 0..i-1 as its cache offset; the final offset is the sum of all sizes |

## Left out

- The observers (attach, detach, `popNewCacheData`, `popDirtySwitches`), `Switch::isActive`, `LOD::getLODToUse` and the listener behind `notify` are inputs. The drained data and the dirty switches are arguments, and `notify` appends to the store's `events` log.
- The scene-tree generator (`SceneTreeGenerator`) is not part of this model. `Generator.Build` stands in for it: a pre-order walk that calls addObject and the registration for the node's kind.
- The generic indexed tree (`insertNode`, `deleteNode`, `markDirty`) is not part of this model. It is modelled as a map from index to node record with link fields and a dirty set. Indices come from a counter and are never reused after deletion.
- Generator.Build: the listener's log gains an `Added` event for each GeoNode of the subtree, but the order of those events across the walk is stated only node by node (each step's store is `Placed`), not for the subtree as a whole.
- Generator.Build: `Mirrors` does not state which transform-tree index each built node gets; that every Transform and Billboard owns a transform of its own follows from the scene invariant.
- Xbar.SceneTree.OnRootNodeChangedAsWritten: the stale root index holds because the model never reuses an index. If the generic tree re-issued the deleted root's index to the new root, the recorded index would happen to name the new root.
- The transform tree is modelled as an owner map from transform index to object-tree index, plus a counter. `compute` and the world matrices are an input, and so is the matrix product `modelToWorld * worldToView`.
- The traversal `processDirtyList` (`UpdateObjectVisitor`) is not modelled. Only the dirty set it receives and the clearing after it are.
- Xbar.SceneTree.UpdateObjectTree: all LOD ordinals are computed from the matrices before any child is changed. This is equivalent to the source's interleaving, because switching a child's flag never changes a LOD's transform (`Update.LodChoicesSameTransforms`).
- Xbar.SceneTree.RemoveObjectTreeIndex: the `DP_VERIFY` that each light erase removes exactly one entry is not checked. The removal takes the visited node out of the light set whether or not it is there. Under `LightsRegistered()` the node is always there.
- Xbar.SceneTree.RemoveObjectTreeIndex: the worklist's `resize` is modelled as a fresh array of the tree's size.
- Xbar.SceneTree.RemoveObjectTreeIndex: the transform tree's `removeTransform`/`removeBillboard` take the transform's whole transform subtree with them, but the owner map drops one key per visited Transform or Billboard node. The final map is the same, but the repeated removal of nested transforms does not show in it. The calls themselves are stated apart, as `TransformRemovals` (as written) and `TopmostRemovals` (as the comment at line 384 intends). The transform tree's ancestry beyond a node's parent transform is not modelled.
- Clip-plane groups, `ProfileEntry`, `shared_ptr`/`weak_ptr` lifetimes and the reset of the authored object are left out. The object is dropped only from the visited record, which is deleted anyway. Node kinds are a tag instead of `dynamic_pointer_cast`.
- ParameterCache.Update: the per-slot result is promised only when rows and array elements do not overlap (`Packed`). With overlapping strides later writes win, and only the frame is promised.
- The cache is modelled as a typed array with one slot per destination element, not as raw bytes reinterpreted through `reinterpret_cast`. Offsets and strides must therefore be multiples of `sizeof(DestType)` (`Aligned`), and `SlotBytePosition` relates slots back to byte positions.
- The GL `uniformType` debug assertions and `shared_ptr` creation are left out. A missing descriptor name is a precondition of `CreateEntries`.
- ParameterCache.CreateEntries: it requires every uniform's type to be known. For an unknown type the source takes `getSize()` of a null entry. The function-level `CreateEntry` models that null entry as `None`.
- Float values are opaque bit patterns: update only copies them.

## Findings

| source | as written | input that shows it | evidently intended | confidence | as-written member | corrected member |
|---|---|---|---|---|---|---|
| dp/rix/gl/src/ParameterCacheEntryStreamBuffer.cpp:84-88 | for an array, `m_size *= m_arrayStride` multiplies the element size by the array stride | FLOAT entry (n = m = 1), arraySize 8, arrayStride 16: the size is 4 * 16 = 64 bytes, but element 7 is written at bytes 112..115 | the size is arraySize * arrayStride, which covers every written byte. The factory only ever passes array size 1, where both agree (`SizesAgreeForSingleEntries`) | not executed | ParameterCache.AsWrittenSizeTooSmall | ParameterCache.EntrySizeCoversWrites |
| dp/sg/xbar/src/SceneTree.cpp:420-424 | `replaceSubTree` removes the subtree at `m_objectTreeRootNode`, but the index is never updated | any scene whose root node changes, provided the generic tree does not re-issue the deleted root's index to one of the new nodes (the model's indices come from a counter and are never reused): afterwards the recorded root index names a deleted node, so a second change replaces a node that is no longer in the tree | read the new root index back from the sentinel's first child, as `init` does at line 111 | not executed; depends on the generic tree not re-issuing a deleted index, and the tree's and the generator's sources are not part of this model | Xbar.SceneTree.OnRootNodeChangedAsWritten | Xbar.SceneTree.OnRootNodeChanged |
| dp/sg/xbar/src/SceneTree.cpp:384-392 | the comment says only the topmost transforms below or at the removed node are removed, so that each is removed once; the code calls `removeTransform`/`removeBillboard` at every visited Transform or Billboard node, and `curParent` (line 382) is computed but never used | a Transform node A with a Transform child B, removed together: the walk visits A first and removes A's transform, which takes B's transform (whose parent is A's) with it; visiting B then asks the transform tree to remove B's transform again | only call the removal for a node whose parent transform is not one the walk removes (`TopmostRemovals`), so every removed transform is removed exactly once | not executed; what a second removal of a removed transform does depends on the transform tree, whose source is not part of this model | Removal.AsWrittenRemovesNested | Removal.TopmostRemovalsExact |

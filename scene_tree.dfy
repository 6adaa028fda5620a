/**
 * SceneTree (dp/sg/xbar/src/SceneTree.cpp): the object tree that mirrors
 * the authored scene hierarchy, its side registries (switches, LODs,
 * light sources, drawable flags), the transform-tree indices its nodes
 * own, and the per-frame reconciliation.
 *
 * Observers, the listener behind notify, Switch::isActive,
 * LOD::getLODToUse and the transform tree's matrix computation are inputs:
 * what the observers have queued arrives as arguments, and notify appends
 * to `events`.
 *
 * Each method that changes several fields computes the new values first
 * (with the value-level walks of modules Generator, Removal and Update),
 * proves the invariant about them, and then stores them through the small
 * setters at the end of the class.
 */
module Xbar {
  import opened Common
  import opened ObjectTree
  import opened Reconcile
  import opened SceneState
  import opened Generator
  import opened Removal
  import opened Update

  /**
   * m (with lists mc and dirty set mdirty) is a with the subtree at x
   * taken out by removeObjectTreeIndex: `order` visits exactly that subtree,
   * each node before its children; the nodes, lists, dirty marks,
   * registrations and owned transforms of the subtree are gone, nothing
   * else changes but the links that skip over x, and the listener was told
   * of each removal in the walk's order.
   */
  ghost predicate RemovedSubtree(a: Store, ac: Children, ad: Depths, adirty: set<int>, x: int,
                                 m: Store, mc: Children, mdirty: set<int>, order: seq<int>) {
    && RemovedFrom(a.nodes, ac, ad, x)
    && (forall i :: 0 <= i < |order| ==> order[i] in a.nodes)
    && order == [x] + Flatten(ac, order)
    && (forall k :: k in order <==> k in Subtree(a.nodes, ad, x))
    && m.nodes.Keys == a.nodes.Keys - Subtree(a.nodes, ad, x)
    && (forall k :: k in m.nodes ==> m.nodes[k] == Relinked(a.nodes[k], x, a.nodes[x].nextSibling))
    && mc == DeleteChildren(a.nodes, ac, ad, x)
    && mdirty == adirty - Subtree(a.nodes, ad, x)
    && m.switchNodes == a.switchNodes - Subtree(a.nodes, ad, x)
    && m.lods == a.lods - Subtree(a.nodes, ad, x)
    && m.lightSources == a.lightSources - Subtree(a.nodes, ad, x)
    && m.transforms == a.transforms - TransformsOf(a.nodes, Subtree(a.nodes, ad, x))
    && m.events == a.events + RemovedEvents(a.nodes, order)
    && m.nextIndex == a.nextIndex && m.nextTransform == a.nextTransform
  }

  /**
   * b (with lists bc and dirty set bd) is a (with lists ac and dirty set ad)
   * with the subtree S taken out and nodes added from a's next index on:
   * what survives of a is kept, and nothing of S is left.
   */
  ghost predicate Replaced(a: Store, ac: Children, ad: set<int>, S: set<int>, b: Store, bc: Children, bd: set<int>, p: int) {
    Survives(a, ac, ad, S, b, bc, bd, p) && Cleared(a, S, b)
  }

  /**
   * Every node outside S keeps its parent, object, transform and drawable
   * flag; every other node of b is new; every list outside S but p's is
   * unchanged; and every registration, dirty mark and owned transform
   * outside S is kept.
   */
  ghost predicate Survives(a: Store, ac: Children, ad: set<int>, S: set<int>, b: Store, bc: Children, bd: set<int>, p: int) {
    && (forall k :: k in a.nodes && k !in S ==>
          && k in b.nodes && b.nodes[k].parentIndex == a.nodes[k].parentIndex && b.nodes[k].authored == a.nodes[k].authored
          && b.nodes[k].transform == a.nodes[k].transform && b.nodes[k].isDrawable == a.nodes[k].isDrawable)
    && (forall k :: k in b.nodes ==> (k in a.nodes && k !in S) || a.nextIndex <= k)
    && (forall q :: q in ac && q !in S && q != p ==> q in bc && bc[q] == ac[q])
    && (forall q :: q in a.switchNodes && q !in S ==> q in b.switchNodes && b.switchNodes[q] == a.switchNodes[q])
    && (forall q :: q in a.lods && q !in S ==> q in b.lods && b.lods[q] == a.lods[q])
    && a.lightSources - S <= b.lightSources
    && bd == ad - S
    && (forall t :: t in a.transforms && t !in TransformsOf(a.nodes, S) ==> t in b.transforms && b.transforms[t] == a.transforms[t])
  }

  /** No node of S is left in the tree or a registry, and no transform a node of S owned is left. */
  ghost predicate Cleared(a: Store, S: set<int>, b: Store) {
    && (forall k :: k in S ==> k !in b.nodes && k !in b.switchNodes && k !in b.lods && k !in b.lightSources)
    && (forall t :: t in TransformsOf(a.nodes, S) ==> t !in b.transforms)
  }

  /**
   * replaceSubTree's two halves composed, for what survives:
   * removeObjectTreeIndex takes the subtree at x out of a, giving m; the
   * generator then extends m, changing no list but p's.
   */
  lemma ReplacedSurvives(a: Store, ac: Children, ad: Depths, adirty: set<int>, x: int,
                         m: Store, mc: Children, mdirty: set<int>, order: seq<int>, b: Store, bc: Children, p: int)
    requires RemovedSubtree(a, ac, ad, adirty, x, m, mc, mdirty, order) && p == a.nodes[x].parentIndex
    requires Extends(m, b) && ListsKept(mc, bc, p)
    ensures Survives(a, ac, adirty, Subtree(a.nodes, ad, x), b, bc, mdirty, p)
    ensures a.events + RemovedEvents(a.nodes, order) <= b.events
  {
    ListsSurvive(a.nodes, ac, ad, x, mc, bc);
  }

  /** The lists the removal did not delete or shorten, and the generator did not touch, are unchanged. */
  lemma ListsSurvive(nodes: Nodes, ac: Children, ad: Depths, x: int, mc: Children, bc: Children)
    requires RemovedFrom(nodes, ac, ad, x)
    requires mc == DeleteChildren(nodes, ac, ad, x) && ListsKept(mc, bc, nodes[x].parentIndex)
    ensures forall q :: q in ac && q !in Subtree(nodes, ad, x) && q != nodes[x].parentIndex ==> q in bc && bc[q] == ac[q]
  {
    forall q | q in ac && q !in Subtree(nodes, ad, x) && q != nodes[x].parentIndex
      ensures q in bc && bc[q] == ac[q]
    {
      assert !InSubtree(nodes, ad, q, x);
      assert q in mc && mc[q] == ac[q];
    }
  }

  /**
   * The same, for what is gone: the generator only adds nodes from the
   * next index on and transforms from the next transform index on, so
   * nothing the removal took out comes back.
   */
  lemma ReplacedCleared(a: Store, ac: Children, ad: Depths, adirty: set<int>, x: int,
                        m: Store, mc: Children, mdirty: set<int>, order: seq<int>, b: Store)
    requires RemovedSubtree(a, ac, ad, adirty, x, m, mc, mdirty, order)
    requires Below(a, Subtree(a.nodes, ad, x))
    requires Extends(m, b)
    requires b.switchNodes.Keys <= b.nodes.Keys && b.lods.Keys <= b.nodes.Keys && b.lightSources <= b.nodes.Keys
    ensures Cleared(a, Subtree(a.nodes, ad, x), b)
  {
  }

  /** Every node of a is below its next index, and every transform, and each one S's nodes introduced, below its next transform index. */
  ghost predicate Below(a: Store, S: set<int>) {
    && (forall k :: k in a.nodes ==> k < a.nextIndex)
    && (forall t :: t in a.transforms ==> t < a.nextTransform)
    && TransformsOf(a.nodes, S) <= a.transforms.Keys
  }

  /** The scene-tree invariant bounds the store's indices. */
  lemma StoreBelow(a: Store, ac: Children, ad: Depths, sentinel: int, adirty: set<int>, transformRoot: int, S: set<int>)
    requires StoreOK(a, ac, ad, sentinel, adirty, transformRoot)
    ensures Below(a, S)
  {
  }

  /**
   * replaceSubTree's two halves composed: when removeObjectTreeIndex takes
   * the subtree at x out of a valid a, giving m, and the generator then
   * extends m into a valid b changing no list but the parent p's, then b is
   * a with that subtree replaced, and the listener heard of every removal
   * before anything the generator added.
   */
  lemma ReplacedComposed(a: Store, ac: Children, ad: Depths, adirty: set<int>, x: int, m: Store, mc: Children,
                         order: seq<int>, b: Store, bc: Children, bd: Depths, bdirty: set<int>, sentinel: int, transformRoot: int)
    requires StoreOK(a, ac, ad, sentinel, adirty, transformRoot) && StoreOK(b, bc, bd, sentinel, bdirty, transformRoot)
    requires x in a.nodes
    requires RemovedSubtree(a, ac, ad, adirty, x, m, mc, bdirty, order)
    requires Extends(m, b) && ListsKept(mc, bc, a.nodes[x].parentIndex)
    ensures Replaced(a, ac, adirty, Subtree(a.nodes, ad, x), b, bc, bdirty, a.nodes[x].parentIndex)
    ensures a.events + RemovedEvents(a.nodes, order) <= b.events
  {
    StoreBelow(a, ac, ad, sentinel, adirty, transformRoot, Subtree(a.nodes, ad, x));
    ReplacedSurvives(a, ac, ad, adirty, x, m, mc, bdirty, order, b, bc, a.nodes[x].parentIndex);
    ReplacedCleared(a, ac, ad, adirty, x, m, mc, bdirty, order, b);
  }

  class SceneTree {
    // the object tree's nodes and its next free index, the switch, LOD and
    // light-source registries, the transform-tree indices the nodes own,
    // and the listener's log: one value, so that the generator and the
    // removal walk can hand over everything they change at once
    var store: Store
    // the shape of the object tree (parent lists and depths)
    ghost var children: Children
    ghost var depth: Depths
    // the object tree's dirty set
    var dirty: set<int>
    const sentinel: int
    var rootIndex: int
    var rootNode: SceneNode

    // the transform tree, as far as the object tree uses it: its root, and
    // the world matrices it computes
    const transformRoot: int
    var worldMatrix: int -> Mat44

    // the worklist of removeObjectTreeIndex
    var indexStack: array<int>

    /** The tree is a forest under the sentinel and every registry is in step with it. */
    ghost predicate Valid()
      reads this`store, this`children, this`depth, this`dirty
    {
      StoreOK(store, children, depth, sentinel, dirty, transformRoot)
    }

    /** Every live light-source node is in the light set. */
    ghost predicate LightsRegistered()
      reads this`store
    {
      LightsOK(store.nodes, store.lightSources)
    }

    /** The root index names the sentinel's only child. */
    ghost predicate RootLive()
      reads this`store, this`children, this`rootIndex
    {
      sentinel in children && children[sentinel] == [rootIndex] && rootIndex in store.nodes
    }

    /**
     * SceneTree::create and init: the sentinel goes in first, hanging off
     * the transform tree's root, then the generator builds the scene below
     * it, and the root index is the sentinel's first child.
     */
    constructor (scene: SceneNode)
      ensures Valid() && LightsRegistered() && RootLive()
      ensures store.nodes[sentinel].authored == None && store.nodes[sentinel].transform == transformRoot
      ensures store.nodes[rootIndex].authored == Some(scene.authored) && store.nodes[rootIndex].parentIndex == sentinel
      ensures |children[rootIndex]| == |scene.children|
      ensures Mirrors(store, children, rootIndex, scene, sentinel + 1)
      ensures rootNode == scene && dirty == {}
    {
      InitialOK(0, 0);
      var s0 := Store(map[0 := SentinelNode(0)], 1, map[], map[], {}, map[], 1, []);
      var root, s, c, d := Build(scene, 0, NIL, s0, map[0 := []], map[0 := 0], 0, {}, 0);
      assert c[0] == [root];
      assert ChainSpells(s.nodes, 0, c[0]);
      sentinel, transformRoot := 0, 0;
      store, children, depth, dirty := s, c, d, {};
      worldMatrix := (t: int) => Mat44([]);
      indexStack := new int[0];
      rootNode := scene;
      rootIndex := s.nodes[0].firstChild;
    }

    /**
     * addSubTree: the generator builds `root` under parentIndex, right
     * after leftSibling. The parent's child list gains exactly the new
     * subtree's root there, every other list is unchanged, every existing
     * node stays where it was, and the new nodes take fresh indices.
     */
    method AddSubTree(root: SceneNode, parentIndex: int, leftSibling: int) returns (ghost newIndex: int)
      requires Valid()
      requires parentIndex in store.nodes
      requires leftSibling == NIL || (leftSibling in store.nodes && leftSibling != sentinel && store.nodes[leftSibling].parentIndex == parentIndex)
      modifies this`store, this`children, this`depth
      ensures Valid()
      ensures old(LightsRegistered()) ==> LightsRegistered()
      ensures newIndex == old(store.nextIndex) && newIndex !in old(store.nodes) && newIndex in store.nodes
      ensures store.nodes[newIndex].parentIndex == parentIndex && store.nodes[newIndex].authored == Some(root.authored)
      ensures |children[newIndex]| == |root.children|
      ensures parentIndex in old(children) && (leftSibling == NIL || leftSibling in old(children[parentIndex]))
      ensures parentIndex in children && children[parentIndex] == InsertAfter(old(children[parentIndex]), leftSibling, newIndex)
      ensures ListsKept(old(children), children, parentIndex)
      ensures Extends(old(store), store)
      ensures Mirrors(store, children, newIndex, root, old(store.nextIndex))
    {
      var index, r, c, d := Build(root, parentIndex, leftSibling, store, children, depth, sentinel, dirty, transformRoot);
      CommitStore(r, c, d);
      newIndex := index;
    }

    /**
     * The sibling scan of replaceSubTree: walk the parent's chain from its
     * first child up to objectIndex; the node before it is the left
     * sibling, NIL when objectIndex is the first child.
     */
    method LeftSibling(objectIndex: int) returns (left: int)
      requires Valid() && objectIndex in store.nodes && objectIndex != sentinel
      ensures var p := store.nodes[objectIndex].parentIndex;
        && p in store.nodes && objectIndex in children[p]
        && var pos := IndexOf(children[p], objectIndex);
        && left == if pos == 0 then NIL else children[p][pos - 1]
    {
      var objectParent := store.nodes[objectIndex].parentIndex;
      assert HasParent(store.nodes, children, depth, objectIndex);
      ghost var kids := children[objectParent];
      ghost var pos := IndexOf(kids, objectIndex);
      assert ChainSpells(store.nodes, objectParent, kids);
      left := NIL;
      var current := store.nodes[objectParent].firstChild;
      ghost var j := 0;
      while current != objectIndex
        invariant 0 <= j <= pos && current == kids[j]
        invariant left == if j == 0 then NIL else kids[j - 1]
        decreases pos - j
      {
        ChainNext(store.nodes, objectParent, kids, j);
        left := current;
        current := store.nodes[current].nextSibling;
        j := j + 1;
      }
      IndexOfDistinct(kids, j);
    }

    /**
     * replaceSubTree: the subtree at objectIndex is removed and the
     * generator builds `node` at the same place, so the parent's child
     * list has the new subtree's root exactly where objectIndex was.
     */
    method ReplaceSubTree(node: SceneNode, objectIndex: int)
      returns (ghost newIndex: int, ghost order: seq<int>, ghost removed: Store, ghost removedChildren: Children)
      requires Valid() && objectIndex in store.nodes
      // objectParent != ~0: the sentinel is never replaced
      requires objectIndex != sentinel
      modifies this`store, this`children, this`depth, this`dirty, this`indexStack
      ensures Valid()
      ensures old(LightsRegistered()) ==> LightsRegistered()
      ensures var p := old(store.nodes[objectIndex].parentIndex);
        && p in old(store.nodes) && objectIndex in old(children[p])
        && p in children && children[p] == old(children[p])[IndexOf(old(children[p]), objectIndex) := newIndex]
        && newIndex in store.nodes && newIndex !in old(store.nodes)
        && store.nodes[newIndex].parentIndex == p && store.nodes[newIndex].authored == Some(node.authored)
      ensures Mirrors(store, children, newIndex, node, old(store.nextIndex))
      ensures objectIndex !in store.nodes
      ensures RemovedSubtree(old(store), old(children), old(depth), old(dirty), objectIndex, removed, removedChildren, dirty, order)
      ensures Extends(removed, store) && ListsKept(removedChildren, children, old(store.nodes[objectIndex].parentIndex))
    {
      var objectParent := store.nodes[objectIndex].parentIndex;
      ghost var s0, c0, d0, y0 := store, children, depth, dirty;
      var objectLeftSibling := LeftSibling(objectIndex);
      assert store == s0 && children == c0 && depth == d0 && dirty == y0;
      ghost var kids := children[objectParent];
      ghost var pos := IndexOf(kids, objectIndex);
      order := RemoveForReplace(objectIndex, objectParent, objectLeftSibling);
      removed, removedChildren := store, children;
      ghost var removedDirty := dirty;
      newIndex := AddSubTree(node, objectParent, objectLeftSibling);
      assert dirty == removedDirty;
      ReplacedInPlace(kids, pos, objectLeftSibling, removedChildren[objectParent], children[objectParent], newIndex);
    }

    /**
     * The removal half of replaceSubTree: removeObjectTreeIndex on
     * objectIndex, with what the re-insertion after the left sibling needs:
     * the parent and the left sibling survive, and the parent's list has
     * lost exactly objectIndex.
     */
    method RemoveForReplace(objectIndex: int, objectParent: int, left: int) returns (ghost order: seq<int>)
      requires Valid() && objectIndex in store.nodes && objectIndex != sentinel
      requires objectParent == store.nodes[objectIndex].parentIndex && objectParent in store.nodes && objectIndex in children[objectParent]
      requires var pos := IndexOf(children[objectParent], objectIndex);
        left == if pos == 0 then NIL else children[objectParent][pos - 1]
      modifies this`store, this`children, this`depth, this`dirty, this`indexStack
      ensures Valid()
      ensures old(LightsRegistered()) ==> LightsRegistered()
      ensures objectIndex !in store.nodes && store.nextIndex == old(store.nextIndex) && old(store.nextIndex !in store.nodes)
      ensures objectParent in store.nodes && (left == NIL || (left in store.nodes && left != sentinel && store.nodes[left].parentIndex == objectParent))
      ensures Distinct(old(children[objectParent])) && NIL !in old(children[objectParent])
      ensures objectParent in children
        && children[objectParent] == RemoveAt(old(children[objectParent]), IndexOf(old(children[objectParent]), objectIndex))
        && (left == NIL || left in children[objectParent])
      ensures RemovedSubtree(old(store), old(children), old(depth), old(dirty), objectIndex, store, children, dirty, order)
    {
      RemovedSiblings(store.nodes, children, depth, sentinel, objectIndex);
      ghost var kids := children[objectParent];
      ghost var pos := IndexOf(kids, objectIndex);
      assert ChainSpells(store.nodes, objectParent, kids);
      assert store.nextIndex !in store.nodes;
      InsertAfterRemoveAt(kids, pos, store.nextIndex);
      if pos > 0 {
        assert kids[pos - 1] != objectIndex;
      }
      order := RemoveObjectTreeIndex(objectIndex);
    }

    /** update: the transform tree first, so the LOD choices see this frame's world matrices, then the object tree. */
    method Update(camera: Camera, lodScaleRange: real, world: int -> Mat44, cd: map<int, CacheData>,
                  dirtySwitches: set<int>, isActive: (SceneObject, nat) -> bool, lodToUse: LodChooser)
      returns (ghost marked: set<int>)
      requires Valid()
      requires cd.Keys <= store.nodes.Keys && dirtySwitches <= store.switchNodes.Keys
      modifies this`worldMatrix, this`store, this`dirty
      ensures Valid()
      ensures old(LightsRegistered()) ==> LightsRegistered()
      ensures worldMatrix == world
      ensures store.nodes == old(Reconciled(store.nodes, children, cd, dirtySwitches, store.switchNodes, isActive, store.lods,
                                  LodChoices(store.nodes, store.lods, world, camera, lodScaleRange, lodToUse)))
      ensures marked == old(dirty + ReconciledDirty(store.nodes, children, cd, dirtySwitches, store.switchNodes, isActive, store.lods,
                                                     LodChoices(store.nodes, store.lods, world, camera, lodScaleRange, lodToUse)))
      ensures store == old(store).(nodes := store.nodes) && dirty == {}
    {
      UpdateTransformTree(world);
      marked := UpdateObjectTree(camera, lodScaleRange, cd, dirtySwitches, isActive, lodToUse);
    }

    /** updateTransformTree: the transform tree computes its world matrices for the camera (an input here). */
    method UpdateTransformTree(world: int -> Mat44)
      modifies this`worldMatrix
      ensures worldMatrix == world
    {
      worldMatrix := world;
    }

    /**
     * updateObjectTree's first step: the drained hints and masks, then the
     * children of the dirty switches, then the children of every LOD by the
     * ordinal it chooses from its world matrix; every node changed is
     * marked dirty, the dirty list is handed to the traversal, and then
     * cleared.
     */
    method UpdateObjectTree(camera: Camera, lodRangeScale: real, cd: map<int, CacheData>,
                            dirtySwitches: set<int>, isActive: (SceneObject, nat) -> bool, lodToUse: LodChooser)
      returns (ghost marked: set<int>)
      requires Valid()
      // the observers only report live nodes, and a dirty switch is a registered one
      requires cd.Keys <= store.nodes.Keys && dirtySwitches <= store.switchNodes.Keys
      modifies this`store, this`dirty
      ensures Valid()
      ensures old(LightsRegistered()) ==> LightsRegistered()
      ensures store.nodes == old(Reconciled(store.nodes, children, cd, dirtySwitches, store.switchNodes, isActive, store.lods,
                                  LodChoices(store.nodes, store.lods, worldMatrix, camera, lodRangeScale, lodToUse)))
      ensures marked == old(dirty + ReconciledDirty(store.nodes, children, cd, dirtySwitches, store.switchNodes, isActive, store.lods,
                                                     LodChoices(store.nodes, store.lods, worldMatrix, camera, lodRangeScale, lodToUse)))
      ensures store == old(store).(nodes := store.nodes) && dirty == {}
    {
      var n;
      n, marked := ReconcileNodes(store.nodes, dirty, children, depth, sentinel, cd, dirtySwitches, store.switchNodes, isActive, store.lods,
                                  worldMatrix, camera, lodRangeScale, lodToUse);
      // processDirtyList would traverse `marked` here
      CommitShape(n, {});
    }

    /**
     * addObject: insert the node under parentIndex after siblingIndex and
     * give a Transform or Billboard its own transform-tree node below the
     * parent's.
     */
    method AddObject(node: ObjectTreeNode, parentIndex: int, siblingIndex: int) returns (index: int)
      requires Valid()
      requires parentIndex in store.nodes
      requires siblingIndex == NIL || (siblingIndex in store.nodes && siblingIndex != sentinel && store.nodes[siblingIndex].parentIndex == parentIndex)
      // the generator hands over a node without a transform of its own
      requires !Introduces(node)
      modifies this`store, this`children, this`depth
      ensures Valid()
      ensures old(LightsRegistered()) ==> LightsOKExcept(store.nodes, store.lightSources, index)
      ensures index == old(store.nextIndex) && index !in old(store.nodes)
      ensures parentIndex in old(children) && (siblingIndex == NIL || siblingIndex in old(children[parentIndex]))
      ensures store == Inserted(old(store), node, parentIndex, siblingIndex)
      ensures children == InsertChildren(old(children), parentIndex, siblingIndex, index)
      ensures depth == InsertDepths(old(depth), parentIndex, index)
      ensures store.nodes[index].parentIndex == parentIndex && store.nodes[index].authored == node.authored
      ensures Introduces(store.nodes[index]) <==> IsKind(node, Transform) || IsKind(node, Billboard)
      ensures Introduces(store.nodes[index]) ==>
        && store.nodes[index].transformParent == old(store.nodes[parentIndex].transform)
        && store.nodes[index].transform == old(store.nextTransform) && store.transforms[old(store.nextTransform)] == index
    {
      var s := store;
      InsertedKeeps(s, children, depth, sentinel, dirty, transformRoot, node, parentIndex, siblingIndex);
      InsertedPlaces(s, node, parentIndex, siblingIndex);
      WithTransformIntroduces(node, store.nodes[parentIndex].transform, store.nextTransform);
      index := store.nextIndex;
      CommitStore(Inserted(s, node, parentIndex, siblingIndex), InsertChildren(children, parentIndex, siblingIndex, index),
                  InsertDepths(depth, parentIndex, index));
    }

    /** addLOD: register an LOD node that is not yet registered. */
    method AddLOD(lod: SceneObject, index: int)
      requires Valid() && index in store.nodes
      // the argument is an LOD, and DP_ASSERT: not yet registered
      requires lod.kind == LOD && index !in store.lods
      modifies this`store
      ensures Valid()
      ensures store.lods == old(store.lods)[index := lod]
      ensures store == Registered(old(store), lod, index)
    {
      store := store.(lods := store.lods[index := lod]);
    }

    /** addSwitch: register a switch node that is not yet registered. */
    method AddSwitch(s: SceneObject, index: int)
      requires Valid() && index in store.nodes
      // the argument is a Switch, and DP_ASSERT: not yet registered
      requires s.kind == Switch && index !in store.switchNodes
      modifies this`store
      ensures Valid()
      ensures store.switchNodes == old(store.switchNodes)[index := s]
      ensures store == Registered(old(store), s, index)
    {
      store := store.(switchNodes := store.switchNodes[index := s]);
    }

    /** addGeoNode: the node becomes drawable and exactly one ADDED event goes out for it. */
    method AddGeoNode(index: int)
      requires Valid() && index in store.nodes
      modifies this`store
      ensures Valid()
      ensures old(LightsRegistered()) ==> LightsRegistered()
      ensures store.nodes == Drawable(old(store.nodes), index)
      ensures store.events == old(store.events) + [Event(index, store.nodes[index], Added)]
      ensures store == old(store).(nodes := store.nodes, events := store.events) && dirty == old(dirty)
    {
      var n := Drawable(store.nodes, index);
      SameShapeKeeps(store.nodes, n, children, depth, sentinel, store.nextIndex, dirty, dirty, store.switchNodes, store.lods, store.lightSources,
                     store.transforms, transformRoot, store.nextTransform);
      store := store.(nodes := n, events := store.events + [Event(index, n[index], Added)]);
    }

    /** addLightSource: the light set gains the node, which completes the registration of every light. */
    method AddLightSource(index: int)
      requires Valid() && index in store.nodes
      // only light-source nodes are registered here
      requires IsLight(store.nodes[index])
      modifies this`store
      ensures Valid()
      ensures store == old(store).(lightSources := old(store.lightSources) + {index})
      ensures old(LightsOKExcept(store.nodes, store.lightSources, index)) ==> LightsRegistered()
    {
      store := store.(lightSources := store.lightSources + {index});
    }

    /**
     * removeObjectTreeIndex: the breadth-first walk of the subtree at index
     * through the worklist takes every node of it out of the light set and
     * the switch and LOD registries, removes the transforms they introduced
     * and notifies every drawable one as removed, in walk order; then the
     * subtree leaves the tree and the dirty set.
     */
    method RemoveObjectTreeIndex(index: int) returns (ghost order: seq<int>)
      requires Valid() && index in store.nodes
      // DP_ASSERT: the sentinel is never removed
      requires index != sentinel
      modifies this`store, this`children, this`depth, this`dirty, this`indexStack
      ensures Valid()
      ensures old(LightsRegistered()) ==> LightsRegistered()
      ensures old(RemovedFrom(store.nodes, children, depth, index))
      ensures forall i :: 0 <= i < |order| ==> order[i] in old(store.nodes)
      ensures order == [index] + Flatten(old(children), order)
      ensures forall k :: k in order <==> k in old(Subtree(store.nodes, depth, index))
      ensures store.nodes == old(DeleteNodes(store.nodes, depth, index))
      ensures children == old(DeleteChildren(store.nodes, children, depth, index))
      ensures depth == old(DeleteDepths(store.nodes, depth, index))
      ensures dirty == old(dirty - Subtree(store.nodes, depth, index))
      ensures store.switchNodes == old(store.switchNodes - Subtree(store.nodes, depth, index))
      ensures store.lods == old(store.lods - Subtree(store.nodes, depth, index))
      ensures store.lightSources == old(store.lightSources - Subtree(store.nodes, depth, index))
      ensures store.transforms == old(store.transforms - TransformsOf(store.nodes, Subtree(store.nodes, depth, index)))
      ensures store.events == old(store.events) + RemovedEvents(old(store.nodes), order)
      ensures store.nextIndex == old(store.nextIndex) && store.nextTransform == old(store.nextTransform)
    {
      indexStack := new int[|store.nodes|];
      var n, dt, w;
      ghost var c, d;
      n, c, d, dt, w, order := RemoveSubtree(indexStack, store.nodes, children, depth, sentinel, store.nextIndex, dirty, store.switchNodes,
                                             store.lods, store.lightSources, store.transforms, transformRoot, store.nextTransform, index);
      CommitRemoval(n, c, d, dt, w.sw, w.lo, w.ls, w.tr, store.events + w.ev);
    }

    /**
     * onRootNodeChanged as written: the scene's new root replaces the
     * subtree at the recorded root index, but the recorded index is not
     * updated, so it names a node that is no longer in the tree.
     */
    method OnRootNodeChangedAsWritten(scene: SceneNode)
      requires Valid() && RootLive()
      modifies this`store, this`children, this`depth, this`dirty, this`indexStack, this`rootNode
      ensures Valid()
      ensures rootNode == scene && rootIndex == old(rootIndex)
      ensures rootIndex !in store.nodes && !RootLive()
    {
      RootNotSentinel();
      ghost var newIndex, order, removed, removedChildren := ReplaceSubTree(scene, rootIndex);
      assert rootIndex !in store.nodes;
      rootNode := scene;
    }

    /**
     * onRootNodeChanged with the root index read back from the sentinel's
     * first child after the replacement, as init does: the index names the
     * new root, and the scene tree keeps its root invariant.
     */
    method OnRootNodeChanged(scene: SceneNode) returns (ghost order: seq<int>, ghost removed: Store, ghost removedChildren: Children)
      requires Valid() && RootLive()
      modifies this`store, this`children, this`depth, this`dirty, this`indexStack, this`rootNode, this`rootIndex
      ensures Valid() && RootLive()
      ensures old(LightsRegistered()) ==> LightsRegistered()
      ensures rootNode == scene && rootIndex !in old(store.nodes)
      ensures store.nodes[rootIndex].authored == Some(scene.authored) && store.nodes[rootIndex].parentIndex == sentinel
      ensures Mirrors(store, children, rootIndex, scene, old(store.nextIndex))
      ensures RemovedSubtree(old(store), old(children), old(depth), old(dirty), old(rootIndex), removed, removedChildren, dirty, order)
      ensures Extends(removed, store) && ListsKept(removedChildren, children, sentinel)
    {
      RootNotSentinel();
      ghost var newIndex;
      newIndex, order, removed, removedChildren := ReplaceSubTree(scene, rootIndex);
      assert children[sentinel] == [newIndex];
      assert ChainSpells(store.nodes, sentinel, children[sentinel]);
      rootIndex := store.nodes[sentinel].firstChild;
      assert rootIndex == newIndex;
      rootNode := scene;
    }

    /** The root is a child of the sentinel, so it is not the sentinel and its parent is the sentinel. */
    lemma RootNotSentinel()
      requires Valid() && RootLive()
      ensures rootIndex != sentinel && store.nodes[rootIndex].parentIndex == sentinel
    {
      assert ChainSpells(store.nodes, sentinel, children[sentinel]);
      ChainNext(store.nodes, sentinel, children[sentinel], 0);
    }

    // ------------------------------------------------------------------
    // Storing a new state

    /** Stores what the generator built, once its invariant has been proved. */
    method CommitStore(r: Store, ghost c: Children, ghost d: Depths)
      requires StoreOK(r, c, d, sentinel, dirty, transformRoot)
      modifies this`store, this`children, this`depth
      ensures store == r && children == c && depth == d
      ensures Valid() && (StoreLights(r) ==> LightsRegistered())
    {
      store, children, depth := r, c, d;
    }

    /** Stores the tree, registries and transform tree after a removal whose invariant has been proved. */
    method CommitRemoval(n: Nodes, ghost c: Children, ghost d: Depths, dt: set<int>,
                         sw: map<int, SceneObject>, lo: map<int, SceneObject>, ls: set<int>, tr: map<int, int>, ev: seq<Event>)
      requires SceneOK(n, c, d, sentinel, store.nextIndex, dt, sw, lo, ls, tr, transformRoot, store.nextTransform)
      modifies this`store, this`children, this`depth, this`dirty
      ensures store == old(store).(nodes := n, switchNodes := sw, lods := lo, lightSources := ls, transforms := tr, events := ev)
      ensures children == c && depth == d && dirty == dt
      ensures Valid() && (LightsOK(n, ls) ==> LightsRegistered())
    {
      store := store.(nodes := n, switchNodes := sw, lods := lo, lightSources := ls, transforms := tr, events := ev);
      children, depth, dirty := c, d, dt;
    }

    /** Stores a new node map of the same shape and a new dirty set. */
    method CommitShape(n: Nodes, dt: set<int>)
      requires Valid() && SameShape(store.nodes, n) && dt <= store.nodes.Keys
      modifies this`store, this`dirty
      ensures Valid() && (old(LightsRegistered()) ==> LightsRegistered())
      ensures store == old(store).(nodes := n) && dirty == dt
    {
      SameShapeKeeps(store.nodes, n, children, depth, sentinel, store.nextIndex, dirty, dt, store.switchNodes, store.lods, store.lightSources,
                     store.transforms, transformRoot, store.nextTransform);
      store, dirty := store.(nodes := n), dt;
    }
  }
}

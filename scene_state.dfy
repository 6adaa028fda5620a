/**
 * The invariants SceneTree keeps between its object tree and the state
 * kept in step with it (the dirty set and allocation counter, the side
 * registries, the transform-tree indices the nodes own), stated on values, and the lemmas that each change the scene
 * tree makes keeps them. The methods in scene_tree.dfy compute their new
 * field values, call these lemmas, and then store the values.
 */
module SceneState {
  import opened Common
  import opened ObjectTree
  import opened Reconcile

  /** The node's authored object is of the given kind (dynamic_pointer_cast succeeds). */
  predicate IsKind(n: ObjectTreeNode, kind: ObjectKind) {
    n.authored.Some? && n.authored.value.kind == kind
  }

  predicate IsLight(n: ObjectTreeNode) {
    IsKind(n, LightSource)
  }

  /** The transform-tree nodes introduced by the nodes of S. */
  ghost function TransformsOf(nodes: Nodes, S: set<int>): set<int>
  {
    set k | k in S && k in nodes && Introduces(nodes[k]) :: nodes[k].transform
  }

  /** Adding one node to S adds the transform it introduces, if any. */
  lemma TransformsOfAdd(nodes: Nodes, S: set<int>, k: int)
    requires k in nodes
    ensures TransformsOf(nodes, S + {k})
         == TransformsOf(nodes, S) + (if Introduces(nodes[k]) then {nodes[k].transform} else {})
  {
    if Introduces(nodes[k]) {
      assert nodes[k].transform in TransformsOf(nodes, S + {k});
    }
  }

  /** The sentinel record: no authored object, hanging off the transform tree's root. */
  function SentinelNode(transformRoot: int): (n: ObjectTreeNode)
    ensures n.authored == None && !Introduces(n) && n.transform == transformRoot
  {
    ObjectTreeNode(NIL, NIL, NIL, None, transformRoot, NIL, 0, 0, true, false, false, false)
  }

  /**
   * addObject's second half: a Transform (or else a Billboard) object gets
   * the parent's transform as transformParent and a fresh transform-tree
   * index of its own; any other node keeps the fields it was handed.
   */
  function WithTransform(node: ObjectTreeNode, parentTransform: int, newTransform: int): (n: ObjectTreeNode)
    ensures IsKind(node, Transform) ==>
      n.transformParent == parentTransform && n.transform == newTransform && n.isTransform && n.isBillboard == node.isBillboard
    ensures !IsKind(node, Transform) && IsKind(node, Billboard) ==>
      n.transformParent == parentTransform && n.transform == newTransform && n.isBillboard && n.isTransform == node.isTransform
    ensures !IsKind(node, Transform) && !IsKind(node, Billboard) ==> n == node
    ensures n.(transformParent := node.transformParent, transform := node.transform,
               isTransform := node.isTransform, isBillboard := node.isBillboard) == node
  {
    if IsKind(node, Transform) then node.(transformParent := parentTransform, transform := newTransform, isTransform := true)
    else if IsKind(node, Billboard) then node.(transformParent := parentTransform, transform := newTransform, isBillboard := true)
    else node
  }

  /** A freshly handed node introduces a transform exactly when it is a Transform or a Billboard. */
  lemma WithTransformIntroduces(node: ObjectTreeNode, parentTransform: int, newTransform: int)
    requires !Introduces(node)
    ensures var n := WithTransform(node, parentTransform, newTransform);
      && (Introduces(n) <==> IsKind(node, Transform) || IsKind(node, Billboard))
      && (Introduces(n) ==> n.transform == newTransform && n.transformParent == parentTransform)
      && n.authored == node.authored
  {
  }

  // ------------------------------------------------------------------
  // The invariants

  /** The links form a forest under the sentinel, with indices below the allocation counter. */
  ghost predicate TreeOK(nodes: Nodes, children: Children, depth: Depths, sentinel: int, nextIndex: int) {
    && WellFormed(nodes, children, depth, sentinel)
    && (forall k :: k in nodes ==> 0 <= k < nextIndex)
  }

  /** Every registry entry and dirty mark names a live node, and the light set holds light sources only. */
  ghost predicate RegistriesOK(nodes: Nodes, dirty: set<int>,
                               switchNodes: map<int, SceneObject>, lods: map<int, SceneObject>, lightSources: set<int>)
  {
    && dirty <= nodes.Keys
    && switchNodes.Keys <= nodes.Keys
    && lods.Keys <= nodes.Keys
    && lightSources <= nodes.Keys
    && (forall k {:trigger k in lightSources} :: k in lightSources ==> IsLight(nodes[k]))
  }

  /**
   * Besides its root, the transform tree holds exactly the transforms that
   * live Transform and Billboard nodes introduced; `owner` maps each to the
   * node that introduced it, so no two nodes share one.
   */
  ghost predicate TransformsOK(nodes: Nodes, owner: map<int, int>, transformRoot: int, nextTransform: int) {
    && 0 <= transformRoot < nextTransform
    && transformRoot !in owner
    && (forall t :: t in owner ==> 0 <= t < nextTransform)
    && (forall t :: t in owner ==> owner[t] in nodes && Introduces(nodes[owner[t]]) && nodes[owner[t]].transform == t)
    && (forall k :: k in nodes && Introduces(nodes[k]) ==> nodes[k].transform in owner && owner[nodes[k].transform] == k)
  }

  /** The whole scene-tree invariant, over the values of its fields. */
  ghost predicate SceneOK(nodes: Nodes, children: Children, depth: Depths, sentinel: int, nextIndex: int, dirty: set<int>,
                          switchNodes: map<int, SceneObject>, lods: map<int, SceneObject>, lightSources: set<int>,
                          owner: map<int, int>, transformRoot: int, nextTransform: int)
  {
    && TreeOK(nodes, children, depth, sentinel, nextIndex)
    && RegistriesOK(nodes, dirty, switchNodes, lods, lightSources)
    && TransformsOK(nodes, owner, transformRoot, nextTransform)
  }

  /** Every live light-source node is in the light set (what removal's DP_VERIFY relies on). */
  ghost predicate LightsOK(nodes: Nodes, lightSources: set<int>) {
    forall k :: k in nodes && IsLight(nodes[k]) ==> k in lightSources
  }

  /** Every live light-source node other than idx is in the light set. */
  ghost predicate LightsOKExcept(nodes: Nodes, lightSources: set<int>, idx: int) {
    forall k :: k in nodes && k != idx && IsLight(nodes[k]) ==> k in lightSources
  }

  /** The transforms the owner map lists are exactly those the live nodes introduced, each by one node. */
  lemma OwnedTransforms(nodes: Nodes, owner: map<int, int>, transformRoot: int, nextTransform: int)
    requires TransformsOK(nodes, owner, transformRoot, nextTransform)
    ensures owner.Keys == TransformsOf(nodes, nodes.Keys)
    ensures forall j, k ::
      (j in nodes && k in nodes && Introduces(nodes[j]) && Introduces(nodes[k]) && nodes[j].transform == nodes[k].transform)
      ==> j == k
  {
    forall t | t in owner
      ensures t in TransformsOf(nodes, nodes.Keys)
    {
      var k := owner[t];
      assert k in nodes && Introduces(nodes[k]) && nodes[k].transform == t;
    }
  }

  /** Every node of a is still in b, under the same parent, with the same authored object and transform. */
  ghost predicate Kept(a: Nodes, b: Nodes) {
    forall q :: q in a ==>
      q in b && b[q].parentIndex == a[q].parentIndex && b[q].authored == a[q].authored && b[q].transform == a[q].transform
  }

  lemma KeptTrans(a: Nodes, b: Nodes, c: Nodes)
    requires Kept(a, b) && Kept(b, c)
    ensures Kept(a, c)
  {
  }

  /** b keeps every node of a, and every node b adds has an index from `from` on. */
  ghost predicate Grown(a: Nodes, b: Nodes, from: int) {
    && Kept(a, b)
    && forall k :: k in b ==> k in a || from <= k
  }

  lemma GrownTrans(a: Nodes, b: Nodes, c: Nodes, from: int, from2: int)
    requires Grown(a, b, from) && Grown(b, c, from2) && from <= from2
    ensures Grown(a, c, from)
  {
  }

  /** Every child list of c other than p's is the same in r. */
  ghost predicate ListsKept(c: Children, r: Children, p: int) {
    forall q :: q in c && q != p ==> q in r && r[q] == c[q]
  }

  lemma ListsKeptTrans(c: Children, r: Children, r2: Children, p: int, p2: int)
    requires ListsKept(c, r, p) && ListsKept(r, r2, p2) && (p2 == p || p2 !in c)
    ensures ListsKept(c, r2, p)
  {
  }

  /** Inserting a leaf gives it an empty list, puts it in its parent's list and changes no other list. */
  lemma InsertChildrenLists(children: Children, parent: int, left: int, idx: int)
    requires parent in children && (left == NIL || left in children[parent]) && idx !in children
    ensures var r := InsertChildren(children, parent, left, idx);
      && parent in r && r[parent] == InsertAfter(children[parent], left, idx)
      && idx in r && r[idx] == []
      && ListsKept(children, r, parent)
  {
  }

  // ------------------------------------------------------------------
  // init

  /** Right after the sentinel went in, nothing else is in the tree and every invariant holds. */
  lemma InitialOK(sentinel: int, transformRoot: int)
    requires 0 <= sentinel && 0 <= transformRoot
    ensures var nodes := map[sentinel := SentinelNode(transformRoot)];
      && SceneOK(nodes, map[sentinel := []], map[sentinel := 0], sentinel, sentinel + 1, {}, map[], map[], {},
                 map[], transformRoot, transformRoot + 1)
      && LightsOK(nodes, {})
  {
    assert ChainSpells(map[sentinel := SentinelNode(transformRoot)], sentinel, []);
  }

  // ------------------------------------------------------------------
  // addObject

  /** Inserting a leaf at the next index keeps the forest and the index bound. */
  lemma InsertTreeOK(nodes: Nodes, children: Children, depth: Depths, sentinel: int, nextIndex: int,
                     value: ObjectTreeNode, parent: int, left: int)
    requires TreeOK(nodes, children, depth, sentinel, nextIndex)
    requires parent in nodes
    requires left == NIL || (left in nodes && left != sentinel && nodes[left].parentIndex == parent)
    ensures nextIndex !in nodes && (left == NIL || left in children[parent])
    ensures TreeOK(InsertNodes(nodes, value, parent, left, nextIndex), InsertChildren(children, parent, left, nextIndex),
                   InsertDepths(depth, parent, nextIndex), sentinel, nextIndex + 1)
  {
    assert nextIndex !in nodes;
    assert NIL !in nodes;
    InsertWellFormed(nodes, children, depth, sentinel, value, parent, left, nextIndex);
  }

  /** Inserting a leaf keeps the registries in step. */
  lemma InsertRegistriesOK(nodes: Nodes, dirty: set<int>,
                           switchNodes: map<int, SceneObject>, lods: map<int, SceneObject>, lightSources: set<int>,
                           value: ObjectTreeNode, parent: int, left: int, idx: int)
    requires RegistriesOK(nodes, dirty, switchNodes, lods, lightSources)
    requires parent in nodes && idx !in nodes && (left == NIL || left in nodes)
    ensures RegistriesOK(InsertNodes(nodes, value, parent, left, idx), dirty, switchNodes, lods, lightSources)
  {
    var r := InsertNodes(nodes, value, parent, left, idx);
    forall k | k in lightSources
      ensures IsLight(r[k])
    {
      assert IsLight(nodes[k]);
    }
  }

  /**
   * Inserting a leaf keeps the transform tree in step; a leaf that
   * introduces a transform gets the next transform index, owned by it.
   */
  lemma InsertTransformsOK(nodes: Nodes, owner: map<int, int>, transformRoot: int, nextTransform: int,
                           value: ObjectTreeNode, parent: int, left: int, idx: int)
    requires TransformsOK(nodes, owner, transformRoot, nextTransform)
    requires parent in nodes && idx !in nodes && (left == NIL || left in nodes)
    requires Introduces(value) ==> value.transform == nextTransform
    ensures var r := InsertNodes(nodes, value, parent, left, idx);
      if Introduces(value) then
        TransformsOK(r, owner[nextTransform := idx], transformRoot, nextTransform + 1)
      else
        TransformsOK(r, owner, transformRoot, nextTransform)
  {
    var r := InsertNodes(nodes, value, parent, left, idx);
    var o := if Introduces(value) then owner[nextTransform := idx] else owner;
    forall t | t in o
      ensures o[t] in r && Introduces(r[o[t]]) && r[o[t]].transform == t
    {
      if t != nextTransform || !Introduces(value) {
        assert owner[t] in nodes && Introduces(nodes[owner[t]]);
      }
    }
    forall k | k in r && Introduces(r[k])
      ensures r[k].transform in o && o[r[k].transform] == k
    {
      if k != idx {
        assert Introduces(nodes[k]);
      }
    }
  }

  /**
   * Inserting keeps every other node where it was, and every light source
   * but possibly the new node stays registered.
   */
  lemma InsertKeeps(nodes: Nodes, lightSources: set<int>, value: ObjectTreeNode, parent: int, left: int, idx: int)
    requires parent in nodes && idx !in nodes && (left == NIL || left in nodes)
    ensures var r := InsertNodes(nodes, value, parent, left, idx);
      && Kept(nodes, r)
      && (LightsOK(nodes, lightSources) ==> LightsOKExcept(r, lightSources, idx))
  {
    var r := InsertNodes(nodes, value, parent, left, idx);
    if LightsOK(nodes, lightSources) {
      forall k | k in r && k != idx && IsLight(r[k])
        ensures k in lightSources
      {
        assert IsLight(nodes[k]);
      }
    }
  }

  /**
   * addObject keeps the whole invariant: the node goes in as a leaf at the
   * next index, and a node that introduces a transform owns the next
   * transform index.
   */
  lemma AddObjectKeeps(nodes: Nodes, children: Children, depth: Depths, sentinel: int, nextIndex: int, dirty: set<int>,
                       switchNodes: map<int, SceneObject>, lods: map<int, SceneObject>, lightSources: set<int>,
                       owner: map<int, int>, transformRoot: int, nextTransform: int,
                       value: ObjectTreeNode, parent: int, left: int)
    requires SceneOK(nodes, children, depth, sentinel, nextIndex, dirty, switchNodes, lods, lightSources,
                     owner, transformRoot, nextTransform)
    requires parent in nodes
    requires left == NIL || (left in nodes && left != sentinel && nodes[left].parentIndex == parent)
    requires Introduces(value) ==> value.transform == nextTransform
    ensures nextIndex !in nodes && parent in children && (left == NIL || left in children[parent])
    ensures SceneOK(InsertNodes(nodes, value, parent, left, nextIndex), InsertChildren(children, parent, left, nextIndex),
                    InsertDepths(depth, parent, nextIndex), sentinel, nextIndex + 1, dirty, switchNodes, lods, lightSources,
                    if Introduces(value) then owner[nextTransform := nextIndex] else owner,
                    transformRoot, if Introduces(value) then nextTransform + 1 else nextTransform)
  {
    InsertTreeOK(nodes, children, depth, sentinel, nextIndex, value, parent, left);
    InsertRegistriesOK(nodes, dirty, switchNodes, lods, lightSources, value, parent, left, nextIndex);
    InsertTransformsOK(nodes, owner, transformRoot, nextTransform, value, parent, left, nextIndex);
  }

  // ------------------------------------------------------------------
  // Changes to node flags only

  /** The two trees hold the same nodes with the same links, authored objects and transforms. */
  ghost predicate SameShape(a: Nodes, b: Nodes) {
    && SameLinks(a, b)
    && forall k :: k in a ==>
         a[k].authored == b[k].authored && a[k].transform == b[k].transform
         && a[k].isTransform == b[k].isTransform && a[k].isBillboard == b[k].isBillboard
  }

  /**
   * Changing only per-node flags (drawable, hints, mask, activation) and
   * marking live nodes dirty keeps the whole invariant, and keeps every
   * light source registered.
   */
  lemma SameShapeKeeps(nodes: Nodes, r: Nodes, children: Children, depth: Depths, sentinel: int, nextIndex: int,
                       dirty: set<int>, dirty2: set<int>,
                       switchNodes: map<int, SceneObject>, lods: map<int, SceneObject>, lightSources: set<int>,
                       owner: map<int, int>, transformRoot: int, nextTransform: int)
    requires SceneOK(nodes, children, depth, sentinel, nextIndex, dirty, switchNodes, lods, lightSources,
                     owner, transformRoot, nextTransform)
    requires SameShape(nodes, r) && dirty2 <= nodes.Keys
    ensures SceneOK(r, children, depth, sentinel, nextIndex, dirty2, switchNodes, lods, lightSources,
                    owner, transformRoot, nextTransform)
    ensures LightsOK(nodes, lightSources) ==> LightsOK(r, lightSources)
  {
    SameLinksWellFormed(nodes, r, children, depth, sentinel);
    forall k | k in lightSources
      ensures IsLight(r[k])
    {
      assert IsLight(nodes[k]);
    }
    forall t | t in owner
      ensures owner[t] in r && Introduces(r[owner[t]]) && r[owner[t]].transform == t
    {
      var k := owner[t];
      assert k in nodes && Introduces(nodes[k]) && nodes[k].transform == t;
      assert r[k].transform == t && r[k].isTransform == nodes[k].isTransform && r[k].isBillboard == nodes[k].isBillboard;
    }
    forall k | k in r && Introduces(r[k])
      ensures r[k].transform in owner && owner[r[k].transform] == k
    {
      assert r[k].transform == nodes[k].transform && r[k].isTransform == nodes[k].isTransform
          && r[k].isBillboard == nodes[k].isBillboard;
      assert Introduces(nodes[k]);
    }
    if LightsOK(nodes, lightSources) {
      forall k | k in r && IsLight(r[k])
        ensures k in lightSources
      {
        assert IsLight(nodes[k]);
      }
    }
  }

  /** addGeoNode's change to the tree: the node becomes drawable. */
  function Drawable(nodes: Nodes, index: int): (r: Nodes)
    requires index in nodes
    ensures SameShape(nodes, r)
    ensures r.Keys == nodes.Keys && r[index].isDrawable
    ensures forall k :: k in nodes && k != index ==> r[k] == nodes[k]
  {
    nodes[index := nodes[index].(isDrawable := true)]
  }

  // ------------------------------------------------------------------
  // removeObjectTreeIndex

  /**
   * Removing a subtree from the tree, from every registry and from the
   * dirty set keeps the registries in step, light registration included.
   */
  lemma RemovedRegistriesOK(nodes: Nodes, children: Children, depth: Depths, sentinel: int, dirty: set<int>,
                            switchNodes: map<int, SceneObject>, lods: map<int, SceneObject>, lightSources: set<int>, index: int)
    requires WellFormed(nodes, children, depth, sentinel) && index in nodes && index != sentinel
    requires RegistriesOK(nodes, dirty, switchNodes, lods, lightSources)
    ensures Ranked(nodes, depth)
    ensures var S := Subtree(nodes, depth, index);
      RegistriesOK(DeleteNodes(nodes, depth, index), dirty - S, switchNodes - S, lods - S, lightSources - S)
    ensures LightsOK(nodes, lightSources) ==> LightsOK(DeleteNodes(nodes, depth, index), lightSources - Subtree(nodes, depth, index))
  {
    DeleteWellFormed(nodes, children, depth, sentinel, index);
    var S := Subtree(nodes, depth, index);
    var r := DeleteNodes(nodes, depth, index);
    forall k | k in lightSources - S
      ensures IsLight(r[k])
    {
      assert IsLight(nodes[k]);
    }
    if LightsOK(nodes, lightSources) {
      forall k | k in r && IsLight(r[k])
        ensures k in lightSources - S
      {
        assert IsLight(nodes[k]);
      }
    }
  }

  /**
   * Dropping a set of nodes, and with them the transforms they introduced,
   * keeps the transform tree in step with the nodes left.
   */
  lemma TransformsDropped(nodes: Nodes, owner: map<int, int>, transformRoot: int, nextTransform: int,
                          S: set<int>, r: Nodes)
    requires TransformsOK(nodes, owner, transformRoot, nextTransform)
    requires r.Keys == nodes.Keys - S
    requires forall k :: k in r ==> r[k].transform == nodes[k].transform && Introduces(r[k]) == Introduces(nodes[k])
    ensures var T := TransformsOf(nodes, S);
      TransformsOK(r, owner - T, transformRoot, nextTransform)
  {
    var T := TransformsOf(nodes, S);
    var o := owner - T;
    OwnedTransforms(nodes, owner, transformRoot, nextTransform);
    forall t | t in o
      ensures o[t] in r && Introduces(r[o[t]]) && r[o[t]].transform == t
    {
      var k := owner[t];
      assert Introduces(nodes[k]) && nodes[k].transform == t;
    }
    forall k | k in r && Introduces(r[k])
      ensures r[k].transform in o && o[r[k].transform] == k
    {
      assert Introduces(nodes[k]);
    }
  }

  /**
   * removeObjectTreeIndex keeps the whole invariant: the subtree leaves the
   * tree, every registry and the dirty set, and the
   * transforms its nodes introduced leave the transform tree.
   */
  lemma RemovedKeeps(nodes: Nodes, children: Children, depth: Depths, sentinel: int, nextIndex: int, dirty: set<int>,
                     switchNodes: map<int, SceneObject>, lods: map<int, SceneObject>, lightSources: set<int>,
                     owner: map<int, int>, transformRoot: int, nextTransform: int, index: int)
    requires SceneOK(nodes, children, depth, sentinel, nextIndex, dirty, switchNodes, lods, lightSources,
                     owner, transformRoot, nextTransform)
    requires index in nodes && index != sentinel
    ensures Ranked(nodes, depth)
    ensures nodes[index].parentIndex in nodes && index in children[nodes[index].parentIndex]
    ensures var S := Subtree(nodes, depth, index);
      var T := TransformsOf(nodes, S);
      SceneOK(DeleteNodes(nodes, depth, index), DeleteChildren(nodes, children, depth, index), DeleteDepths(nodes, depth, index),
              sentinel, nextIndex, dirty - S, switchNodes - S, lods - S, lightSources - S,
              owner - T, transformRoot, nextTransform)
    ensures LightsOK(nodes, lightSources) ==> LightsOK(DeleteNodes(nodes, depth, index), lightSources - Subtree(nodes, depth, index))
  {
    DeleteWellFormed(nodes, children, depth, sentinel, index);
    RemovedRegistriesOK(nodes, children, depth, sentinel, dirty, switchNodes, lods, lightSources, index);
    var r := DeleteNodes(nodes, depth, index);
    assert TreeOK(r, DeleteChildren(nodes, children, depth, index), DeleteDepths(nodes, depth, index), sentinel, nextIndex);
    TransformsDropped(nodes, owner, transformRoot, nextTransform, Subtree(nodes, depth, index), r);
  }

  /**
   * What replaceSubTree relies on: the removed node's parent survives with
   * the node taken out of its list, and so do the node's siblings.
   */
  lemma RemovedSiblings(nodes: Nodes, children: Children, depth: Depths, sentinel: int, index: int)
    requires WellFormed(nodes, children, depth, sentinel) && index in nodes && index != sentinel
    ensures Ranked(nodes, depth)
    ensures var p := nodes[index].parentIndex;
      var r := DeleteNodes(nodes, depth, index);
      && p in nodes && index in children[p]
      && p in r && p in DeleteChildren(nodes, children, depth, index)
      && DeleteChildren(nodes, children, depth, index)[p] == RemoveAt(children[p], IndexOf(children[p], index))
      && (forall q :: q in children[p] && q != index ==> q in r && q != sentinel && r[q].parentIndex == p)
    ensures index !in DeleteNodes(nodes, depth, index)
  {
    DeleteWellFormed(nodes, children, depth, sentinel, index);
    var p := nodes[index].parentIndex;
    assert HasParent(nodes, children, depth, index);
    assert !InSubtree(nodes, depth, p, index) by {
      if InSubtree(nodes, depth, p, index) {
        SubtreeDeeper(nodes, depth, p, index);
      }
    }
    forall q | q in children[p] && q != index
      ensures q in DeleteNodes(nodes, depth, index) && q != sentinel && DeleteNodes(nodes, depth, index)[q].parentIndex == p
    {
      ChainNext(nodes, p, children[p], IndexOf(children[p], q));
      assert !InSubtree(nodes, depth, q, index);
    }
  }

  // ------------------------------------------------------------------
  // The scene tree's state as one value

  /**
   * The scene tree's state apart from its shape and dirty set: the object
   * tree's nodes and next free index, the switch, LOD and light-source
   * registries, the transform-tree indices the nodes own, and the
   * listener's log.
   */
  datatype Store = Store(nodes: Nodes, nextIndex: int,
                         switchNodes: map<int, SceneObject>, lods: map<int, SceneObject>, lightSources: set<int>,
                         transforms: map<int, int>, nextTransform: int, events: seq<Event>)

  /** The scene-tree invariant over a store, the tree's shape and its dirty set. */
  ghost predicate StoreOK(s: Store, children: Children, depth: Depths, sentinel: int, dirty: set<int>, transformRoot: int) {
    SceneOK(s.nodes, children, depth, sentinel, s.nextIndex, dirty, s.switchNodes, s.lods, s.lightSources,
            s.transforms, transformRoot, s.nextTransform)
  }

  /** Every live light-source node of the store is registered. */
  ghost predicate StoreLights(s: Store) {
    LightsOK(s.nodes, s.lightSources)
  }
}

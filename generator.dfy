/**
 * The scene-tree generator (SceneTreeGenerator, whose source is not part of
 * this model) as the scene tree sees it: a pre-order walk of the authored
 * scene that, for every scene node, calls addObject under the current
 * parent after the current left sibling and then the registration the
 * node's kind asks for (addSwitch, addLOD, addLightSource or addGeoNode).
 *
 * The walk is computed here on a value holding the scene-tree fields it
 * changes; the scene tree stores the result once the walk is over.
 */
module Generator {
  import opened Common
  import opened ObjectTree
  import opened Reconcile
  import opened SceneState

  /** An authored scene-graph node and its children, as the generator walks them. */
  datatype SceneNode = SceneNode(authored: SceneObject, children: seq<SceneNode>)

  /** The record addObject stores for node under parent: a Transform or Billboard gets a fresh transform of its own. */
  function NodeFor(s: Store, node: ObjectTreeNode, parent: int): (n: ObjectTreeNode)
    requires parent in s.nodes
  {
    WithTransform(node, s.nodes[parent].transform, s.nextTransform)
  }

  /**
   * addObject on a store: the node goes in under parent after left at the
   * next index, with a transform of its own when its object is a Transform
   * or a Billboard.
   */
  function Inserted(s: Store, node: ObjectTreeNode, parent: int, left: int): (r: Store)
    requires parent in s.nodes && s.nextIndex !in s.nodes && (left == NIL || left in s.nodes)
  {
    var value := NodeFor(s, node, parent);
    var n := InsertNodes(s.nodes, value, parent, left, s.nextIndex);
    s.(nodes := n, nextIndex := s.nextIndex + 1,
       transforms := if Introduces(value) then s.transforms[s.nextTransform := s.nextIndex] else s.transforms,
       nextTransform := if Introduces(value) then s.nextTransform + 1 else s.nextTransform)
  }

  /** The registration by kind: addSwitch, addLOD, addLightSource or addGeoNode, and nothing for other kinds. */
  function Registered(s: Store, obj: SceneObject, idx: int): (r: Store)
    requires idx in s.nodes
  {
    match obj.kind
    case Switch => s.(switchNodes := s.switchNodes[idx := obj])
    case LOD => s.(lods := s.lods[idx := obj])
    case LightSource => s.(lightSources := s.lightSources + {idx})
    case GeoNode =>
      var n := Drawable(s.nodes, idx);
      s.(nodes := n, events := s.events + [Event(idx, n[idx], Added)])
    case _ => s
  }

  /** One scene node: addObject with a fresh record under the parent's transform, then its registration. */
  function Placed(s: Store, obj: SceneObject, parent: int, left: int): (r: Store)
    requires parent in s.nodes && s.nextIndex !in s.nodes && (left == NIL || left in s.nodes)
  {
    var t := Inserted(s, NewNode(obj, s.nodes[parent].transform), parent, left);
    Registered(t, obj, s.nextIndex)
  }

  /** addObject on a store keeps the whole invariant. */
  lemma InsertedKeeps(s: Store, children: Children, depth: Depths, sentinel: int, dirty: set<int>, transformRoot: int,
                      node: ObjectTreeNode, parent: int, left: int)
    requires StoreOK(s, children, depth, sentinel, dirty, transformRoot)
    requires parent in s.nodes
    requires left == NIL || (left in s.nodes && left != sentinel && s.nodes[left].parentIndex == parent)
    requires !Introduces(node)
    ensures s.nextIndex !in s.nodes && parent in children && (left == NIL || left in children[parent])
    ensures StoreOK(Inserted(s, node, parent, left), InsertChildren(children, parent, left, s.nextIndex),
                    InsertDepths(depth, parent, s.nextIndex), sentinel, dirty, transformRoot)
  {
    var value := NodeFor(s, node, parent);
    WithTransformIntroduces(node, s.nodes[parent].transform, s.nextTransform);
    AddObjectKeeps(s.nodes, children, depth, sentinel, s.nextIndex, dirty, s.switchNodes, s.lods, s.lightSources,
                   s.transforms, transformRoot, s.nextTransform, value, parent, left);
    InsertedFields(s, node, parent, left);
  }

  /** The fields addObject changes on a store, one by one. */
  lemma InsertedFields(s: Store, node: ObjectTreeNode, parent: int, left: int)
    requires parent in s.nodes && s.nextIndex !in s.nodes && (left == NIL || left in s.nodes)
    ensures var value := NodeFor(s, node, parent);
      var t := Inserted(s, node, parent, left);
      && t.nodes == InsertNodes(s.nodes, value, parent, left, s.nextIndex) && t.nextIndex == s.nextIndex + 1
      && t.switchNodes == s.switchNodes && t.lods == s.lods && t.lightSources == s.lightSources
      && t.transforms == (if Introduces(value) then s.transforms[s.nextTransform := s.nextIndex] else s.transforms)
      && t.nextTransform == (if Introduces(value) then s.nextTransform + 1 else s.nextTransform)
  {
  }

  /**
   * addObject on a store gives the node the next index under the requested
   * parent, keeps every other node where it was, leaves the registries
   * alone, and every light source but the new node stays registered.
   */
  lemma InsertedPlaces(s: Store, node: ObjectTreeNode, parent: int, left: int)
    requires parent in s.nodes && s.nextIndex !in s.nodes && (left == NIL || left in s.nodes)
    ensures var t := Inserted(s, node, parent, left);
      && t.nextIndex == s.nextIndex + 1
      && t.nodes.Keys == s.nodes.Keys + {s.nextIndex}
      && t.nodes[s.nextIndex].parentIndex == parent && t.nodes[s.nextIndex].authored == node.authored
      && Kept(s.nodes, t.nodes)
      && t.switchNodes == s.switchNodes && t.lods == s.lods && t.lightSources == s.lightSources
      && (StoreLights(s) ==> LightsOKExcept(t.nodes, t.lightSources, s.nextIndex))
  {
    InsertKeeps(s.nodes, s.lightSources, NodeFor(s, node, parent), parent, left, s.nextIndex);
  }

  /**
   * The registration keeps the whole invariant and every node where it
   * was, and leaves every light source registered, the new one included.
   */
  lemma RegisteredKeeps(t: Store, children: Children, depth: Depths, sentinel: int, dirty: set<int>, transformRoot: int,
                        obj: SceneObject, idx: int)
    requires StoreOK(t, children, depth, sentinel, dirty, transformRoot)
    requires idx in t.nodes && t.nodes[idx].authored == Some(obj)
    ensures StoreOK(Registered(t, obj, idx), children, depth, sentinel, dirty, transformRoot)
    ensures var r := Registered(t, obj, idx);
      && r.nextIndex == t.nextIndex
      && r.nodes.Keys == t.nodes.Keys
      && Kept(t.nodes, r.nodes)
      && (LightsOKExcept(t.nodes, t.lightSources, idx) ==> StoreLights(r))
  {
    var r := Registered(t, obj, idx);
    match obj.kind {
      case GeoNode =>
        SameShapeKeeps(t.nodes, r.nodes, children, depth, sentinel, t.nextIndex, dirty, dirty, t.switchNodes, t.lods,
                       t.lightSources, t.transforms, transformRoot, t.nextTransform);
        assert !IsLight(t.nodes[idx]);
      case LightSource =>
        assert IsLight(t.nodes[idx]);
      case _ =>
        assert !IsLight(t.nodes[idx]);
    }
  }

  /**
   * Placing one scene node keeps the whole invariant, gives the node the
   * next index under the requested parent, keeps every other node where it
   * was, and keeps every light source registered.
   */
  lemma PlacedKeeps(s: Store, children: Children, depth: Depths, sentinel: int, dirty: set<int>, transformRoot: int,
                    obj: SceneObject, parent: int, left: int)
    requires StoreOK(s, children, depth, sentinel, dirty, transformRoot)
    requires parent in s.nodes
    requires left == NIL || (left in s.nodes && left != sentinel && s.nodes[left].parentIndex == parent)
    ensures s.nextIndex !in s.nodes && parent in children && (left == NIL || left in children[parent])
    ensures StoreOK(Placed(s, obj, parent, left), InsertChildren(children, parent, left, s.nextIndex),
                    InsertDepths(depth, parent, s.nextIndex), sentinel, dirty, transformRoot)
    ensures var r := Placed(s, obj, parent, left);
      && r.nextIndex == s.nextIndex + 1
      && r.nodes.Keys == s.nodes.Keys + {s.nextIndex}
      && r.nodes[s.nextIndex].parentIndex == parent && r.nodes[s.nextIndex].authored == Some(obj)
      && Kept(s.nodes, r.nodes)
      && (StoreLights(s) ==> StoreLights(r))
  {
    var node := NewNode(obj, s.nodes[parent].transform);
    InsertedKeeps(s, children, depth, sentinel, dirty, transformRoot, node, parent, left);
    InsertedPlaces(s, node, parent, left);
    var t := Inserted(s, node, parent, left);
    RegisteredKeeps(t, InsertChildren(children, parent, left, s.nextIndex), InsertDepths(depth, parent, s.nextIndex),
                    sentinel, dirty, transformRoot, obj, s.nextIndex);
    KeptTrans(s.nodes, t.nodes, Placed(s, obj, parent, left).nodes);
  }

  /** The registration obj's kind asks for is in place for node k. */
  ghost predicate RegisteredAs(s: Store, k: int, obj: SceneObject)
    requires k in s.nodes
  {
    match obj.kind
    case Switch => k in s.switchNodes && s.switchNodes[k] == obj
    case LOD => k in s.lods && s.lods[k] == obj
    case LightSource => k in s.lightSources
    case GeoNode => s.nodes[k].isDrawable
    case _ => true
  }

  /**
   * The object-tree subtree at k mirrors the scene node sn: k carries sn's
   * object with its registration, and its children, in order, mirror sn's
   * children. Every index in it is at least lo.
   */
  ghost predicate Mirrors(s: Store, c: Children, k: int, sn: SceneNode, lo: int)
    decreases sn
  {
    && k in s.nodes && k in c && lo <= k
    && s.nodes[k].authored == Some(sn.authored) && RegisteredAs(s, k, sn.authored)
    && |c[k]| == |sn.children|
    && forall i :: 0 <= i < |sn.children| ==> Mirrors(s, c, c[k][i], sn.children[i], lo)
  }

  /**
   * t keeps every node of s in place, with its object and drawable flag,
   * keeps every registration and owned transform, and only appends to the
   * listener's log.
   */
  ghost predicate Preserves(s: Store, t: Store) {
    && Kept(s.nodes, t.nodes)
    && (forall q :: q in s.nodes ==> q in t.nodes && t.nodes[q].isDrawable == s.nodes[q].isDrawable)
    && RegistriesKept(s, t)
  }

  /** t keeps every registration and owned transform of s, and only appends to the listener's log. */
  ghost predicate RegistriesKept(s: Store, t: Store) {
    && (forall q :: q in s.switchNodes ==> q in t.switchNodes && t.switchNodes[q] == s.switchNodes[q])
    && (forall q :: q in s.lods ==> q in t.lods && t.lods[q] == s.lods[q])
    && s.lightSources <= t.lightSources
    && (forall q :: q in s.transforms ==> q in t.transforms && t.transforms[q] == s.transforms[q])
    && s.events <= t.events
  }

  /**
   * r is s with nodes added from s's next index on and transforms from its
   * next transform index on: everything of s is preserved.
   */
  ghost predicate Extends(s: Store, r: Store) {
    && Grown(s.nodes, r.nodes, s.nextIndex) && s.nextIndex <= r.nextIndex && Preserves(s, r)
    && s.nextTransform <= r.nextTransform
    && forall t :: t in r.transforms && t !in s.transforms ==> s.nextTransform <= t
  }

  lemma ExtendsTrans(a: Store, b: Store, c: Store)
    requires Extends(a, b) && Extends(b, c)
    ensures Extends(a, c)
  {
    GrownTrans(a.nodes, b.nodes, c.nodes, a.nextIndex, b.nextIndex);
    PreservesTrans(a, b, c);
  }

  lemma PreservesTrans(a: Store, b: Store, c: Store)
    requires Preserves(a, b) && Preserves(b, c)
    ensures Preserves(a, c)
  {
    KeptTrans(a.nodes, b.nodes, c.nodes);
  }

  /** addObject keeps every existing node with its drawable flag and every registration. */
  lemma InsertedPreserves(s: Store, node: ObjectTreeNode, parent: int, left: int)
    requires parent in s.nodes && s.nextIndex !in s.nodes && (left == NIL || left in s.nodes)
    requires s.nextTransform !in s.transforms
    ensures Preserves(s, Inserted(s, node, parent, left))
  {
    InsertedFields(s, node, parent, left);
    InsertedPlaces(s, node, parent, left);
  }

  /** The registration puts idx in the registry its kind asks for and takes nothing away. */
  lemma RegisteredPreserves(t: Store, obj: SceneObject, idx: int)
    requires idx in t.nodes && idx !in t.switchNodes && idx !in t.lods
    ensures var r := Registered(t, obj, idx);
      && r.nodes.Keys == t.nodes.Keys && r.nodes[idx].authored == t.nodes[idx].authored
      && (forall q :: q in t.nodes && q != idx ==> r.nodes[q] == t.nodes[q])
      && RegisteredAs(r, idx, obj) && RegistriesKept(t, r)
  {
  }

  /** One scene node placed: its node is registered as its kind asks, and every existing node keeps its registrations. */
  lemma PlacedRegisters(s: Store, obj: SceneObject, parent: int, left: int)
    requires parent in s.nodes && s.nextIndex !in s.nodes && (left == NIL || left in s.nodes)
    requires s.switchNodes.Keys <= s.nodes.Keys && s.lods.Keys <= s.nodes.Keys && s.nextTransform !in s.transforms
    ensures var r := Placed(s, obj, parent, left);
      && s.nextIndex in r.nodes && r.nodes[s.nextIndex].authored == Some(obj)
      && RegisteredAs(r, s.nextIndex, obj) && Preserves(s, r)
  {
    var node := NewNode(obj, s.nodes[parent].transform);
    var t := Inserted(s, node, parent, left);
    InsertedFields(s, node, parent, left);
    InsertedPlaces(s, node, parent, left);
    InsertedPreserves(s, node, parent, left);
    RegisteredPreserves(t, obj, s.nextIndex);
  }

  /** A registration stays in place in a store that preserves its node's. */
  lemma RegisteredAsKept(s: Store, t: Store, k: int, obj: SceneObject)
    requires k in s.nodes && RegisteredAs(s, k, obj) && Preserves(s, t)
    ensures k in t.nodes && RegisteredAs(t, k, obj)
  {
  }

  /** What the scene-tree invariant says about indices: all below the next one, registries only on live nodes. */
  lemma StoreIndices(s: Store, children: Children, depth: Depths, sentinel: int, dirty: set<int>, transformRoot: int)
    requires StoreOK(s, children, depth, sentinel, dirty, transformRoot)
    ensures forall k :: k in s.nodes ==> k < s.nextIndex
    ensures s.switchNodes.Keys <= s.nodes.Keys && s.lods.Keys <= s.nodes.Keys && s.nextTransform !in s.transforms
  {
  }

  /** A live node's index is below the next one. */
  lemma LiveBelowNext(s: Store, children: Children, depth: Depths, sentinel: int, dirty: set<int>, transformRoot: int, k: int)
    requires StoreOK(s, children, depth, sentinel, dirty, transformRoot) && k in s.nodes
    ensures k < s.nextIndex
  {
  }

  /**
   * A mirrored subtree stays mirrored when later steps keep its nodes and
   * registrations and change only the child list of p, which lies below
   * the subtree's indices; its lower bound may also be lowered.
   */
  lemma {:induction false} MirrorsFrame(s: Store, c: Children, t: Store, c2: Children, k: int, sn: SceneNode,
                                        lo: int, lo2: int, p: int)
    requires Mirrors(s, c, k, sn, lo) && Preserves(s, t) && ListsKept(c, c2, p)
    requires lo2 <= lo && p < lo2
    ensures Mirrors(t, c2, k, sn, lo2)
    decreases sn
  {
    assert c2[k] == c[k];
    forall i | 0 <= i < |sn.children|
      ensures Mirrors(t, c2, c2[k][i], sn.children[i], lo2)
    {
      MirrorsFrame(s, c, t, c2, c[k][i], sn.children[i], lo, lo2, p);
    }
  }

  /**
   * The walk from root, composed: root's node was placed at the next index
   * with an empty list, then its children were built below it. The result
   * mirrors root, extends s, and changes no list but parent's (which the
   * children's step leaves alone).
   */
  lemma RootStep(s: Store, r0: Store, r: Store, children: Children, rc0: Children, rc: Children, parent: int,
                 index: int, root: SceneNode)
    requires Extends(s, r0) && index == s.nextIndex && r0.nextIndex == index + 1
    requires index in r0.nodes && r0.nodes[index].authored == Some(root.authored) && RegisteredAs(r0, index, root.authored)
    requires index in rc0 && rc0[index] == [] && ListsKept(children, rc0, parent) && index !in children && parent != index
    requires ChildrenBuilt(r0, r, rc0, rc, index, [], root.children)
    ensures Extends(s, r) && index in r.nodes && index < r.nextIndex
    ensures r.nodes[index].parentIndex == r0.nodes[index].parentIndex
    ensures index in rc && |rc[index]| == |root.children|
    ensures ListsKept(children, rc, parent) && (parent in rc0 ==> parent in rc && rc[parent] == rc0[parent])
    ensures Mirrors(r, rc, index, root, s.nextIndex)
  {
    ListsKeptTrans(children, rc0, rc, parent, index);
    ExtendsTrans(s, r0, r);
    RegisteredAsKept(r0, r, index, root.authored);
    forall i | 0 <= i < |root.children|
      ensures Mirrors(r, rc, rc[index][i], root.children[i], s.nextIndex)
    {
      MirrorsFrame(r, rc, r, rc, rc[index][i], root.children[i], r0.nextIndex, s.nextIndex, s.nextIndex - 1);
    }
  }

  /**
   * What building the scene nodes `nodes` below parent leaves: parent's old
   * children kids stay a prefix of its list, child |kids| + i mirrors
   * nodes[i] with fresh indices, no other list changes, and s is extended.
   */
  ghost predicate ChildrenBuilt(s: Store, r: Store, children: Children, rc: Children, parent: int, kids: seq<int>,
                                nodes: seq<SceneNode>)
  {
    && parent in rc && |rc[parent]| == |kids| + |nodes| && rc[parent][..|kids|] == kids
    && ListsKept(children, rc, parent) && Extends(s, r)
    && forall i :: 0 <= i < |nodes| ==> Mirrors(r, rc, rc[parent][|kids| + i], nodes[i], s.nextIndex)
  }

  /**
   * One step of the walk over a children list: building nodes[0] as c and
   * then the rest leaves the old children as a prefix, child |kids| + i
   * mirroring nodes[i], every other list unchanged, and s extended.
   */
  lemma ChildrenStep(s: Store, r1: Store, r: Store, children: Children, rc1: Children, rc: Children,
                     parent: int, kids: seq<int>, c: int, nodes: seq<SceneNode>)
    requires |nodes| >= 1 && parent < s.nextIndex
    requires parent in rc1 && rc1[parent] == kids + [c] && ListsKept(children, rc1, parent)
    requires Extends(s, r1) && c == s.nextIndex < r1.nextIndex && Mirrors(r1, rc1, c, nodes[0], s.nextIndex)
    requires ChildrenBuilt(r1, r, rc1, rc, parent, kids + [c], nodes[1..])
    ensures ChildrenBuilt(s, r, children, rc, parent, kids, nodes)
  {
    ListsKeptTrans(children, rc1, rc, parent, parent);
    ExtendsTrans(s, r1, r);
    assert rc[parent][..|kids|] == rc[parent][..|kids + [c]|][..|kids|];
    assert rc[parent][|kids|] == rc[parent][..|kids + [c]|][|kids|];
    MirrorsFrame(r1, rc1, r, rc, c, nodes[0], s.nextIndex, s.nextIndex, parent);
    forall i | 1 <= i < |nodes|
      ensures Mirrors(r, rc, rc[parent][|kids| + i], nodes[i], s.nextIndex)
    {
      assert nodes[i] == nodes[1..][i - 1] && |kids + [c]| + (i - 1) == |kids| + i;
      MirrorsFrame(r, rc, r, rc, rc[parent][|kids| + i], nodes[i], r1.nextIndex, s.nextIndex, parent);
    }
  }

  /**
   * The generator's walk from `root`: the root's node goes in under parent
   * after left, then the children are built in order below it, each after
   * the previous one. The store's invariant is kept, every node added has
   * an index from the counter on, the parent's child list gains exactly
   * the root's node after left, every other existing list is unchanged,
   * and the root's node gets one child per authored child.
   */
  method Build(root: SceneNode, parent: int, left: int, s: Store, ghost children: Children, ghost depth: Depths,
               ghost sentinel: int, ghost dirty: set<int>, ghost transformRoot: int)
    returns (index: int, r: Store, ghost rc: Children, ghost rd: Depths)
    requires StoreOK(s, children, depth, sentinel, dirty, transformRoot)
    requires parent in s.nodes
    requires left == NIL || (left in s.nodes && left != sentinel && s.nodes[left].parentIndex == parent)
    decreases root, 0
    ensures StoreOK(r, rc, rd, sentinel, dirty, transformRoot)
    ensures StoreLights(s) ==> StoreLights(r)
    ensures index == s.nextIndex && index !in s.nodes && index in r.nodes && index < r.nextIndex
    ensures r.nodes[index].parentIndex == parent && r.nodes[index].authored == Some(root.authored)
    ensures index in rc && |rc[index]| == |root.children|
    ensures parent in children && (left == NIL || left in children[parent])
    ensures parent in rc && rc[parent] == InsertAfter(children[parent], left, index)
    ensures ListsKept(children, rc, parent)
    ensures Extends(s, r)
    ensures Mirrors(r, rc, index, root, s.nextIndex)
  {
    StoreIndices(s, children, depth, sentinel, dirty, transformRoot);
    index, r, rc, rd := Place(root.authored, parent, left, s, children, depth, sentinel, dirty, transformRoot);
    ghost var r0, rc0 := r, rc;
    r, rc, rd := BuildChildren(root.children, index, NIL, [], r, rc, rd, sentinel, dirty, transformRoot);
    RootStep(s, r0, r, children, rc0, rc, parent, index, root);
  }

  /**
   * The generator's addObject and registration for one scene node: its
   * node goes in under parent after left, as a leaf with the next index.
   */
  method Place(obj: SceneObject, parent: int, left: int, s: Store, ghost children: Children, ghost depth: Depths,
               ghost sentinel: int, ghost dirty: set<int>, ghost transformRoot: int)
    returns (index: int, r: Store, ghost rc: Children, ghost rd: Depths)
    requires StoreOK(s, children, depth, sentinel, dirty, transformRoot)
    requires parent in s.nodes
    requires left == NIL || (left in s.nodes && left != sentinel && s.nodes[left].parentIndex == parent)
    ensures StoreOK(r, rc, rd, sentinel, dirty, transformRoot)
    ensures StoreLights(s) ==> StoreLights(r)
    ensures index == s.nextIndex && index !in s.nodes && index in r.nodes && r.nextIndex == index + 1
    ensures r.nodes[index].parentIndex == parent && r.nodes[index].authored == Some(obj)
    ensures index in rc && rc[index] == []
    ensures parent in children && (left == NIL || left in children[parent])
    ensures parent in rc && rc[parent] == InsertAfter(children[parent], left, index)
    ensures ListsKept(children, rc, parent)
    ensures Extends(s, r)
    ensures r == Placed(s, obj, parent, left)
    ensures RegisteredAs(r, index, obj)
  {
    index := s.nextIndex;
    StoreIndices(s, children, depth, sentinel, dirty, transformRoot);
    PlacedRegisters(s, obj, parent, left);
    PlacedKeeps(s, children, depth, sentinel, dirty, transformRoot, obj, parent, left);
    InsertChildrenLists(children, parent, left, index);
    r := Placed(s, obj, parent, left);
    rc := InsertChildren(children, parent, left, index);
    rd := InsertDepths(depth, parent, index);
  }

  /**
   * The children of one scene node, built in order below parent's node
   * after the ones it already has (kids, the last of them left): each goes
   * in after the previous one.
   */
  method BuildChildren(nodes: seq<SceneNode>, parent: int, left: int, ghost kids: seq<int>, s: Store,
                       ghost children: Children, ghost depth: Depths,
                       ghost sentinel: int, ghost dirty: set<int>, ghost transformRoot: int)
    returns (r: Store, ghost rc: Children, ghost rd: Depths)
    requires StoreOK(s, children, depth, sentinel, dirty, transformRoot)
    requires parent in s.nodes && parent in children && children[parent] == kids
    requires left == if kids == [] then NIL else kids[|kids| - 1]
    decreases nodes, 2
    ensures StoreOK(r, rc, rd, sentinel, dirty, transformRoot)
    ensures StoreLights(s) ==> StoreLights(r)
    ensures ChildrenBuilt(s, r, children, rc, parent, kids, nodes)
  {
    if nodes == [] {
      return s, children, depth;
    }
    LiveBelowNext(s, children, depth, sentinel, dirty, transformRoot, parent);
    var c, r1;
    ghost var rc1, rd1;
    c, r1, rc1, rd1 := BuildChild(nodes[0], parent, left, kids, s, children, depth, sentinel, dirty, transformRoot);
    r, rc, rd := BuildChildren(nodes[1..], parent, c, kids + [c], r1, rc1, rd1, sentinel, dirty, transformRoot);
    ChildrenStep(s, r1, r, children, rc1, rc, parent, kids, c, nodes);
  }

  /**
   * One child of the walk: `child` is built below parent after the last of
   * the children parent has so far, so its node ends parent's list.
   */
  method BuildChild(child: SceneNode, parent: int, left: int, ghost kids: seq<int>, s: Store, ghost children: Children, ghost depth: Depths,
                    ghost sentinel: int, ghost dirty: set<int>, ghost transformRoot: int)
    returns (c: int, r: Store, ghost rc: Children, ghost rd: Depths)
    requires StoreOK(s, children, depth, sentinel, dirty, transformRoot)
    requires parent in s.nodes && parent in children && children[parent] == kids
    requires left == if kids == [] then NIL else kids[|kids| - 1]
    decreases child, 1
    ensures StoreOK(r, rc, rd, sentinel, dirty, transformRoot)
    ensures StoreLights(s) ==> StoreLights(r)
    ensures parent in rc && rc[parent] == kids + [c]
    ensures ListsKept(children, rc, parent)
    ensures Extends(s, r) && c == s.nextIndex < r.nextIndex
    ensures Mirrors(r, rc, c, child, s.nextIndex)
  {
    assert ChainSpells(s.nodes, parent, kids);
    if kids != [] {
      ChainNext(s.nodes, parent, kids, |kids| - 1);
      assert s.nodes[sentinel].parentIndex == NIL;
    }
    c, r, rc, rd := Build(child, parent, left, s, children, depth, sentinel, dirty, transformRoot);
    InsertAfterLast(kids, c);
  }
}

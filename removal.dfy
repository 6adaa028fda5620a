/**
 * The traversal of SceneTree::removeObjectTreeIndex
 * (dp/sg/xbar/src/SceneTree.cpp): a breadth-first walk of the removed
 * subtree through the worklist m_objectIndexStack, read from `begin` and
 * filled at `end`, that takes each visited node out of the light set, the
 * switch and LOD registries and the transform tree, and notifies the
 * listener of every drawable node that goes.
 *
 * The walk works on the values of the scene tree's fields; the scene tree
 * stores them and then deletes the subtree from the object tree.
 */
module Removal {
  import opened Common
  import opened ObjectTree
  import opened Reconcile
  import opened SceneState

  /**
   * The inner loop: follow cur's first-child / next-sibling chain and put
   * each child on the worklist, in sibling order.
   */
  method PushChildren(a: array<int>, end: int, nodes: Nodes, cur: int, ghost kids: seq<int>) returns (newEnd: int)
    requires cur in nodes && ChainSpells(nodes, cur, kids) && NIL !in nodes
    requires 0 <= end && end + |kids| <= a.Length
    modifies a
    ensures newEnd == end + |kids|
    ensures a[..newEnd] == old(a[..end]) + kids
  {
    var child := nodes[cur].firstChild;
    newEnd := end;
    ghost var j := 0;
    while child != NIL
      invariant 0 <= j <= |kids| && newEnd == end + j
      invariant child == if j < |kids| then kids[j] else NIL
      invariant a[..newEnd] == old(a[..end]) + kids[..j]
      decreases |kids| - j
    {
      ChainNext(nodes, cur, kids, j);
      a[newEnd] := child;
      assert a[..newEnd + 1] == a[..newEnd] + [child];
      assert kids[..j + 1] == kids[..j] + [kids[j]];
      newEnd := newEnd + 1;
      child := nodes[child].nextSibling;
      j := j + 1;
    }
    if j < |kids| {
      ChainNext(nodes, cur, kids, j);
    }
    assert kids[..j] == kids;
  }

  /** The values the walk updates: the node records, the registries, the transform tree and the listener's log. */
  datatype Walk = Walk(n: Nodes, ls: set<int>, sw: map<int, SceneObject>, lo: map<int, SceneObject>,
                       tr: map<int, int>, ev: seq<Event>)

  /**
   * One visit of the walk to `cur`, in the order the source takes the
   * steps: a light source leaves the light set; a drawable node is notified
   * as removed with its record, after which the drawable flag that gets
   * cleared is the one of `index`, the walk's start, not of cur; cur
   * leaves the switch and LOD registries; a Transform or Billboard node's
   * transform leaves the transform tree, at every such node whatever lies
   * above it (`TransformRemovals`); and cur's authored object is dropped.
   */
  function Visit(w: Walk, cur: int, index: int): (r: Walk)
    requires cur in w.n && index in w.n
  {
    var node := w.n[cur];
    var ls := if IsLight(node) then w.ls - {cur} else w.ls;
    var ev := if node.isDrawable then w.ev + [Event(cur, node, Removed)] else w.ev;
    var n1 := if node.isDrawable then w.n[index := w.n[index].(isDrawable := false)] else w.n;
    var tr := if n1[cur].isTransform || n1[cur].isBillboard then w.tr - {n1[cur].transform} else w.tr;
    Walk(n1[cur := n1[cur].(authored := None)], ls, w.sw - {cur}, w.lo - {cur}, tr, ev)
  }

  /**
   * After visiting the nodes of `done` (the set D), the walk has changed no
   * link and no node outside D, has taken exactly D out of the light set
   * and the registries and exactly D's transforms out of the transform
   * tree, and has notified exactly the drawable nodes of `done`, in order.
   */
  ghost predicate Accounted(nodes: Nodes, lightSources: set<int>, switchNodes: map<int, SceneObject>,
                            lods: map<int, SceneObject>, transforms: map<int, int>, index: int,
                            w: Walk, done: seq<int>, D: set<int>)
  {
    && (forall k :: k in D <==> k in done)
    && (done != [] ==> index in D)
    && SameLinks(nodes, w.n)
    && (forall k :: k in nodes && k !in D ==> w.n[k] == nodes[k])
    && w.ls == lightSources - D && w.sw == switchNodes - D && w.lo == lods - D
    && w.tr == transforms - TransformsOf(nodes, D)
    && (forall i :: 0 <= i < |done| ==> done[i] in nodes)
    && w.ev == RemovedEvents(nodes, done)
  }

  /** Visiting a node changes no link, and no record but cur's and possibly the start's. */
  lemma VisitLinks(nodes: Nodes, w: Walk, D: set<int>, cur: int, index: int)
    requires SameLinks(nodes, w.n) && (forall k :: k in nodes && k !in D ==> w.n[k] == nodes[k])
    requires cur in nodes && index in nodes && (index in D || index == cur)
    ensures SameLinks(nodes, Visit(w, cur, index).n)
    ensures forall k :: k in nodes && k !in D + {cur} ==> Visit(w, cur, index).n[k] == nodes[k]
  {
  }

  /** Visiting a node takes it out of the light set and the switch and LOD registries. */
  lemma VisitRegistries(nodes: Nodes, lightSources: set<int>, switchNodes: map<int, SceneObject>,
                        lods: map<int, SceneObject>, w: Walk, D: set<int>, cur: int, index: int)
    requires forall k :: k in lightSources ==> k in nodes && IsLight(nodes[k])
    requires cur in nodes && cur in w.n && index in w.n && w.n[cur] == nodes[cur]
    requires w.ls == lightSources - D && w.sw == switchNodes - D && w.lo == lods - D
    ensures var r := Visit(w, cur, index);
      && r.ls == lightSources - (D + {cur}) && r.sw == switchNodes - (D + {cur}) && r.lo == lods - (D + {cur})
  {
    if !IsLight(nodes[cur]) {
      assert cur !in lightSources;
    }
  }

  /** Visiting a node takes the transform it introduces, if any, out of the transform tree. */
  lemma VisitTransforms(nodes: Nodes, transforms: map<int, int>, w: Walk, D: set<int>, cur: int, index: int)
    requires cur in nodes && cur in w.n && index in w.n && w.n[cur] == nodes[cur]
    requires w.tr == transforms - TransformsOf(nodes, D)
    ensures Visit(w, cur, index).tr == transforms - TransformsOf(nodes, D + {cur})
  {
    TransformsOfAdd(nodes, D, cur);
  }

  /** Visiting a node appends its removal notice when it is drawable. */
  lemma VisitEvents(nodes: Nodes, w: Walk, done: seq<int>, cur: int, index: int)
    requires cur in nodes && index in nodes && cur in w.n && index in w.n && w.n[cur] == nodes[cur]
    requires forall i :: 0 <= i < |done| ==> done[i] in nodes
    requires w.ev == RemovedEvents(nodes, done)
    ensures Visit(w, cur, index).ev == RemovedEvents(nodes, done + [cur])
  {
    assert (done + [cur])[..|done|] == done;
  }

  /** Visiting a node not yet visited (the start first) keeps the account. */
  lemma VisitAccounted(nodes: Nodes, lightSources: set<int>, switchNodes: map<int, SceneObject>,
                       lods: map<int, SceneObject>, transforms: map<int, int>, index: int,
                       w: Walk, done: seq<int>, D: set<int>, cur: int)
    requires Accounted(nodes, lightSources, switchNodes, lods, transforms, index, w, done, D)
    requires forall k :: k in lightSources ==> k in nodes && IsLight(nodes[k])
    requires cur in nodes && index in nodes && cur !in D && (done == [] ==> cur == index)
    ensures Accounted(nodes, lightSources, switchNodes, lods, transforms, index, Visit(w, cur, index), done + [cur], D + {cur})
  {
    assert w.n[cur] == nodes[cur];
    assert index in D || index == cur;
    VisitLinks(nodes, w, D, cur, index);
    VisitRegistries(nodes, lightSources, switchNodes, lods, w, D, cur, index);
    VisitTransforms(nodes, transforms, w, D, cur, index);
    VisitEvents(nodes, w, done, cur, index);
  }

  /** Before the walk, the worklist holds only index and nothing is accounted for. */
  lemma WalkStart(nodes: Nodes, children: Children, depth: Depths, index: int, lightSources: set<int>,
                  switchNodes: map<int, SceneObject>, lods: map<int, SceneObject>, transforms: map<int, int>)
    requires Ranked(nodes, depth) && index in nodes && index in children
    ensures Queued(nodes, children, depth, index, [], [index])
    ensures Accounted(nodes, lightSources, switchNodes, lods, transforms, index,
                      Walk(nodes, lightSources, switchNodes, lods, transforms, []), [], {})
  {
    assert InSubtree(nodes, depth, index, index);
    assert Flatten(children, []) == [];
    assert TransformsOf(nodes, {}) == {};
  }

  /**
   * The worklist holds the start and then, in order, the children of every
   * node taken off it (`done`, a prefix of it); all of them are distinct
   * nodes of the start's subtree.
   */
  ghost predicate Queued(nodes: Nodes, children: Children, depth: Depths, index: int, done: seq<int>, q: seq<int>)
    requires Ranked(nodes, depth)
  {
    && (forall i :: 0 <= i < |q| ==> q[i] in nodes && q[i] in children && InSubtree(nodes, depth, q[i], index))
    && |done| <= |q| && done == q[..|done|]
    && q == [index] + Flatten(children, done)
    && Distinct(q)
  }

  /**
   * Taking the next node off the worklist and putting its children on it
   * keeps the worklist as described, and it never outgrows the tree.
   */
  lemma QueueStep(nodes: Nodes, children: Children, depth: Depths, sentinel: int, index: int, done: seq<int>, q: seq<int>)
    requires WellFormed(nodes, children, depth, sentinel) && Ranked(nodes, depth) && index in nodes
    requires Queued(nodes, children, depth, index, done, q) && |done| < |q|
    ensures var cur := q[|done|];
      && cur in nodes && cur !in done && (done == [] ==> cur == index)
      && Queued(nodes, children, depth, index, done + [cur], q + children[cur])
      && |q + children[cur]| <= |nodes|
  {
    var cur := q[|done|];
    forall i | 0 <= i < |done|
      ensures done[i] != cur
    {
      assert q[i] == done[i];
    }
    BreadthFirstStep(nodes, children, depth, sentinel, index, done, cur);
    var q2 := q + children[cur];
    DistinctBound(q2, nodes.Keys);
    PrefixSnoc(q, children[cur], done);
  }

  /** One more element of a queue, appended or not, extends its prefix by that element. */
  lemma PrefixSnoc(q: seq<int>, more: seq<int>, done: seq<int>)
    requires |done| < |q| && done == q[..|done|]
    ensures done + [q[|done|]] == (q + more)[..|done| + 1]
  {
    assert (q + more)[..|done| + 1] == q[..|done| + 1];
  }

  /**
   * One round of the walk: the next node off the worklist is a node of the
   * tree not visited before; visiting it and putting its children on the
   * worklist keeps both the worklist and the account, and the worklist
   * never outgrows the tree.
   */
  lemma WalkStep(nodes: Nodes, children: Children, depth: Depths, sentinel: int, index: int,
                 lightSources: set<int>, switchNodes: map<int, SceneObject>, lods: map<int, SceneObject>,
                 transforms: map<int, int>, w: Walk, done: seq<int>, q: seq<int>, D: set<int>)
    requires WellFormed(nodes, children, depth, sentinel) && Ranked(nodes, depth) && index in nodes
    requires forall k :: k in lightSources ==> k in nodes && IsLight(nodes[k])
    requires Queued(nodes, children, depth, index, done, q) && |done| < |q|
    requires Accounted(nodes, lightSources, switchNodes, lods, transforms, index, w, done, D)
    ensures var cur := q[|done|];
      && cur in w.n && index in w.n
      && var r := Visit(w, cur, index);
      && cur in r.n && NIL !in r.n && ChainSpells(r.n, cur, children[cur])
      && |q| + |children[cur]| <= |nodes|
      && Queued(nodes, children, depth, index, done + [cur], q + children[cur])
      && Accounted(nodes, lightSources, switchNodes, lods, transforms, index, r, done + [cur], D + {cur})
  {
    var cur := q[|done|];
    QueueStep(nodes, children, depth, sentinel, index, done, q);
    VisitAccounted(nodes, lightSources, switchNodes, lods, transforms, index, w, done, D, cur);
    var r := Visit(w, cur, index);
    SameLinksWellFormed(nodes, r.n, children, depth, sentinel);
  }

  /**
   * When the worklist is used up, the visited nodes are exactly the start's
   * subtree, in breadth-first order, and the account is the one the walk
   * promises.
   */
  lemma WalkDone(nodes: Nodes, children: Children, depth: Depths, sentinel: int, index: int,
                 lightSources: set<int>, switchNodes: map<int, SceneObject>, lods: map<int, SceneObject>,
                 transforms: map<int, int>, w: Walk, order: seq<int>, q: seq<int>, D: set<int>)
    requires WellFormed(nodes, children, depth, sentinel) && Ranked(nodes, depth) && index in nodes
    requires Queued(nodes, children, depth, index, order, q) && |order| == |q|
    requires Accounted(nodes, lightSources, switchNodes, lods, transforms, index, w, order, D)
    ensures forall i :: 0 <= i < |order| ==> order[i] in nodes
    ensures order == [index] + Flatten(children, order)
    ensures forall k :: k in order <==> k in Subtree(nodes, depth, index)
    ensures SameLinks(nodes, w.n)
    ensures forall k :: k in nodes && !InSubtree(nodes, depth, k, index) ==> w.n[k] == nodes[k]
    ensures w.ls == lightSources - Subtree(nodes, depth, index)
    ensures w.sw == switchNodes - Subtree(nodes, depth, index)
    ensures w.lo == lods - Subtree(nodes, depth, index)
    ensures w.tr == transforms - TransformsOf(nodes, Subtree(nodes, depth, index))
    ensures w.ev == RemovedEvents(nodes, order)
  {
    assert order == q;
    BreadthFirstComplete(nodes, children, depth, sentinel, index, order);
    var S := Subtree(nodes, depth, index);
    SameElements(D, S);
  }

  /** Two sets with the same members are equal. */
  lemma SameElements(D: set<int>, S: set<int>)
    requires forall k :: k in D <==> k in S
    ensures D == S
  {
    forall k | k in D
      ensures k in S
    {
    }
    forall k | k in S
      ensures k in D
    {
    }
  }

  /**
   * The walk from `index`: every node of its subtree is visited exactly
   * once, in breadth-first order, and leaves the light set, the switch and
   * LOD registries and the transform tree; every drawable one is notified
   * as removed, with its record, in that order. Outside the subtree no node
   * changes, and no link changes anywhere.
   */
  method RemovalWalk(a: array<int>, nodes: Nodes, ghost children: Children, ghost depth: Depths, ghost sentinel: int,
                     index: int, lightSources: set<int>, switchNodes: map<int, SceneObject>, lods: map<int, SceneObject>,
                     transforms: map<int, int>)
    returns (w: Walk, ghost order: seq<int>)
    requires WellFormed(nodes, children, depth, sentinel) && index in nodes
    // the light set holds light-source nodes only
    requires forall k :: k in lightSources ==> k in nodes && IsLight(nodes[k])
    requires a.Length == |nodes|
    modifies a
    ensures Ranked(nodes, depth)
    ensures forall i :: 0 <= i < |order| ==> order[i] in nodes
    ensures order == [index] + Flatten(children, order)
    ensures forall k :: k in order <==> k in Subtree(nodes, depth, index)
    ensures Distinct(order)
    ensures SameLinks(nodes, w.n)
    ensures forall k :: k in nodes && !InSubtree(nodes, depth, k, index) ==> w.n[k] == nodes[k]
    ensures w.ls == lightSources - Subtree(nodes, depth, index)
    ensures w.sw == switchNodes - Subtree(nodes, depth, index)
    ensures w.lo == lods - Subtree(nodes, depth, index)
    ensures w.tr == transforms - TransformsOf(nodes, Subtree(nodes, depth, index))
    ensures w.ev == RemovedEvents(nodes, order)
  {
    WellFormedRanked(nodes, children, depth, sentinel);
    w := Walk(nodes, lightSources, switchNodes, lods, transforms, []);
    WalkStart(nodes, children, depth, index, lightSources, switchNodes, lods, transforms);
    a[0] := index;
    var begin, end := 0, 1;
    ghost var D: set<int> := {};
    ghost var done: seq<int>, q: seq<int> := [], [index];
    while begin != end
      invariant 0 <= begin <= end <= a.Length
      invariant a[..end] == q && begin == |done| && end == |q|
      invariant Queued(nodes, children, depth, index, done, q)
      invariant Accounted(nodes, lightSources, switchNodes, lods, transforms, index, w, done, D)
      decreases a.Length - begin
    {
      var cur := a[begin];
      assert cur == q[|done|];
      WalkStep(nodes, children, depth, sentinel, index, lightSources, switchNodes, lods, transforms, w, done, q, D);
      w := Visit(w, cur, index);
      end := PushChildren(a, end, w.n, cur, children[cur]);
      D, done, q := D + {cur}, done + [cur], q + children[cur];
      begin := begin + 1;
    }
    order := done;
    WalkDone(nodes, children, depth, sentinel, index, lightSources, switchNodes, lods, transforms, w, order, q, D);
  }

  /** The removed node hangs off a live parent whose child list names it. */
  ghost predicate RemovedFrom(nodes: Nodes, children: Children, depth: Depths, index: int) {
    && Ranked(nodes, depth) && index in nodes && children.Keys == nodes.Keys
    && nodes[index].parentIndex in nodes && index in children[nodes[index].parentIndex]
  }

  /**
   * removeObjectTreeIndex on the values of the scene tree: the walk, then
   * the deletion of the subtree from the object tree and its dirty set.
   * The result keeps the scene tree's invariant.
   */
  method RemoveSubtree(a: array<int>, nodes: Nodes, ghost children: Children, ghost depth: Depths, ghost sentinel: int,
                       ghost nextIndex: int, dirty: set<int>, switchNodes: map<int, SceneObject>, lods: map<int, SceneObject>,
                       lightSources: set<int>, transforms: map<int, int>, ghost transformRoot: int, ghost nextTransform: int,
                       index: int)
    returns (n: Nodes, ghost c: Children, ghost d: Depths, dt: set<int>, w: Walk, ghost order: seq<int>)
    requires SceneOK(nodes, children, depth, sentinel, nextIndex, dirty, switchNodes, lods, lightSources,
                     transforms, transformRoot, nextTransform)
    requires index in nodes && index != sentinel && a.Length == |nodes|
    modifies a
    ensures RemovedFrom(nodes, children, depth, index)
    ensures forall i :: 0 <= i < |order| ==> order[i] in nodes
    ensures order == [index] + Flatten(children, order)
    ensures forall k :: k in order <==> k in Subtree(nodes, depth, index)
    ensures n == DeleteNodes(nodes, depth, index)
    ensures c == DeleteChildren(nodes, children, depth, index) && d == DeleteDepths(nodes, depth, index)
    ensures dt == dirty - Subtree(nodes, depth, index)
    ensures w.ls == lightSources - Subtree(nodes, depth, index)
    ensures w.sw == switchNodes - Subtree(nodes, depth, index)
    ensures w.lo == lods - Subtree(nodes, depth, index)
    ensures w.tr == transforms - TransformsOf(nodes, Subtree(nodes, depth, index))
    ensures w.ev == RemovedEvents(nodes, order)
    ensures SceneOK(n, c, d, sentinel, nextIndex, dt, w.sw, w.lo, w.ls, w.tr, transformRoot, nextTransform)
    ensures LightsOK(nodes, lightSources) ==> LightsOK(n, w.ls)
  {
    w, order := RemovalWalk(a, nodes, children, depth, sentinel, index, lightSources, switchNodes, lods, transforms);
    DeleteSameOutside(nodes, w.n, depth, index);
    WalkDeleteKeeps(nodes, children, depth, sentinel, nextIndex, dirty, switchNodes, lods, lightSources,
                    transforms, transformRoot, nextTransform, index, w);
    n := DeleteNodes(w.n, depth, index);
    dt := dirty * n.Keys;
    c, d := DeleteChildren(nodes, children, depth, index), DeleteDepths(nodes, depth, index);
  }

  /**
   * Deleting the subtree from the walked tree, which deletes what deleting
   * it from the original tree would, together with the walk's registries
   * keeps the scene tree's invariant; the dirty set keeps exactly its
   * surviving nodes.
   */
  lemma WalkDeleteKeeps(nodes: Nodes, children: Children, depth: Depths, sentinel: int, nextIndex: int, dirty: set<int>,
                        switchNodes: map<int, SceneObject>, lods: map<int, SceneObject>, lightSources: set<int>,
                        transforms: map<int, int>, transformRoot: int, nextTransform: int, index: int, w: Walk)
    requires SceneOK(nodes, children, depth, sentinel, nextIndex, dirty, switchNodes, lods, lightSources,
                     transforms, transformRoot, nextTransform)
    requires index in nodes && index != sentinel
    requires Ranked(nodes, depth) && Ranked(w.n, depth) && index in w.n
    requires DeleteNodes(w.n, depth, index) == DeleteNodes(nodes, depth, index)
    requires w.ls == lightSources - Subtree(nodes, depth, index)
    requires w.sw == switchNodes - Subtree(nodes, depth, index)
    requires w.lo == lods - Subtree(nodes, depth, index)
    requires w.tr == transforms - TransformsOf(nodes, Subtree(nodes, depth, index))
    ensures RemovedFrom(nodes, children, depth, index)
    ensures dirty * DeleteNodes(w.n, depth, index).Keys == dirty - Subtree(nodes, depth, index)
    ensures SceneOK(DeleteNodes(w.n, depth, index), DeleteChildren(nodes, children, depth, index), DeleteDepths(nodes, depth, index),
                    sentinel, nextIndex, dirty * DeleteNodes(w.n, depth, index).Keys, w.sw, w.lo, w.ls, w.tr,
                    transformRoot, nextTransform)
    ensures LightsOK(nodes, lightSources) ==> LightsOK(DeleteNodes(w.n, depth, index), w.ls)
  {
    RemovedKeeps(nodes, children, depth, sentinel, nextIndex, dirty, switchNodes, lods, lightSources,
                 transforms, transformRoot, nextTransform, index);
    assert dirty * DeleteNodes(nodes, depth, index).Keys == dirty - Subtree(nodes, depth, index);
  }

  /**
   * The transform-tree removals the walk makes as written: one
   * removeTransform or removeBillboard for every Transform or Billboard node
   * it visits, in visiting order, whatever lies above the node.
   */
  function TransformRemovals(nodes: Nodes, order: seq<int>): (r: seq<int>)
    requires forall i :: 0 <= i < |order| ==> order[i] in nodes
    ensures |r| <= |order|
    ensures forall i :: 0 <= i < |order| && Introduces(nodes[order[i]]) ==> nodes[order[i]].transform in r
  {
    if order == [] then []
    else
      (if Introduces(nodes[order[0]]) then [nodes[order[0]].transform] else [])
      + TransformRemovals(nodes, order[1..])
  }

  /**
   * The removals the walk means to make: only the topmost Transform and
   * Billboard nodes, those whose parent transform is not one of the
   * `removed` transforms, because removing a transform takes its whole
   * transform subtree with it.
   */
  function TopmostRemovals(nodes: Nodes, order: seq<int>, removed: set<int>): (r: seq<int>)
    requires forall i :: 0 <= i < |order| ==> order[i] in nodes
  {
    if order == [] then []
    else
      var k := order[0];
      (if Introduces(nodes[k]) && nodes[k].transformParent !in removed then [nodes[k].transform] else [])
      + TopmostRemovals(nodes, order[1..], removed)
  }

  /** No two Transform or Billboard nodes of `order` own the same transform. */
  ghost predicate OwnedOnce(nodes: Nodes, order: seq<int>) {
    forall i, j :: 0 <= i < |order| && 0 <= j < |order| && order[i] in nodes && order[j] in nodes
      && Introduces(nodes[order[i]]) && Introduces(nodes[order[j]]) && nodes[order[i]].transform == nodes[order[j]].transform
      ==> order[i] == order[j]
  }

  /** Removals are made node by node: visiting one more node adds its removal, if any, at the end. */
  lemma {:induction false} TransformRemovalsAppend(nodes: Nodes, order: seq<int>, k: int)
    requires forall i :: 0 <= i < |order| ==> order[i] in nodes
    requires k in nodes
    ensures TransformRemovals(nodes, order + [k])
         == TransformRemovals(nodes, order) + (if Introduces(nodes[k]) then [nodes[k].transform] else [])
    decreases |order|
  {
    if order != [] {
      assert (order + [k])[1..] == order[1..] + [k];
      TransformRemovalsAppend(nodes, order[1..], k);
    }
  }

  /** Every topmost removal is the transform of a visited node whose parent transform is not removed. */
  lemma {:induction false} TopmostRemovalsFrom(nodes: Nodes, order: seq<int>, removed: set<int>)
    requires forall i :: 0 <= i < |order| ==> order[i] in nodes
    ensures forall t :: t in TopmostRemovals(nodes, order, removed) ==>
      exists j :: 0 <= j < |order| && Introduces(nodes[order[j]]) && nodes[order[j]].transform == t
                  && nodes[order[j]].transformParent !in removed
    decreases |order|
  {
    if order != [] {
      var rest := order[1..];
      TopmostRemovalsFrom(nodes, rest, removed);
      forall t | t in TopmostRemovals(nodes, rest, removed)
        ensures exists j :: 0 <= j < |order| && Introduces(nodes[order[j]]) && nodes[order[j]].transform == t
                            && nodes[order[j]].transformParent !in removed
      {
        var j :| 0 <= j < |rest| && Introduces(nodes[rest[j]]) && nodes[rest[j]].transform == t
                 && nodes[rest[j]].transformParent !in removed;
        assert order[j + 1] == rest[j];
      }
    }
  }

  /** Dropping the first visited node keeps the visiting order distinct and the transforms owned once. */
  lemma OrderTail(nodes: Nodes, order: seq<int>)
    requires order != [] && Distinct(order) && OwnedOnce(nodes, order)
    ensures Distinct(order[1..]) && OwnedOnce(nodes, order[1..])
  {
    var rest := order[1..];
    forall a, b | 0 <= a < b < |rest| ensures rest[a] != rest[b] {
      assert rest[a] == order[a + 1] && rest[b] == order[b + 1];
    }
    forall a, b | 0 <= a < |rest| && 0 <= b < |rest| && rest[a] in nodes && rest[b] in nodes
      && Introduces(nodes[rest[a]]) && Introduces(nodes[rest[b]]) && nodes[rest[a]].transform == nodes[rest[b]].transform
      ensures rest[a] == rest[b]
    {
      assert rest[a] == order[a + 1] && rest[b] == order[b + 1];
    }
  }

  /**
   * Each topmost removal is made once; and a visited Transform or Billboard
   * node's transform is removed by a call of its own exactly when its
   * parent transform is not removed (otherwise the removal of an ancestor
   * takes it).
   */
  lemma {:induction false} TopmostRemovalsExact(nodes: Nodes, order: seq<int>, removed: set<int>)
    requires forall i :: 0 <= i < |order| ==> order[i] in nodes
    requires Distinct(order) && OwnedOnce(nodes, order)
    ensures Distinct(TopmostRemovals(nodes, order, removed))
    ensures forall i :: 0 <= i < |order| && Introduces(nodes[order[i]]) ==>
      (nodes[order[i]].transform in TopmostRemovals(nodes, order, removed) <==> nodes[order[i]].transformParent !in removed)
    decreases |order|
  {
    if order != [] {
      var rest := order[1..];
      var k := order[0];
      OrderTail(nodes, order);
      TopmostRemovalsExact(nodes, rest, removed);
      TopmostRemovalsFrom(nodes, rest, removed);
      var r := TopmostRemovals(nodes, rest, removed);
      if Introduces(nodes[k]) && nodes[k].transformParent !in removed {
        forall j | 0 <= j < |r| ensures r[j] !in [nodes[k].transform] {
          var t := r[j];
          assert t in r;
          var m :| 0 <= m < |rest| && Introduces(nodes[rest[m]]) && nodes[rest[m]].transform == t
                   && nodes[rest[m]].transformParent !in removed;
          assert order[m + 1] == rest[m] && rest[m] != k;
        }
        DistinctAppend([nodes[k].transform], r);
      }
      forall i | 0 <= i < |order| && Introduces(nodes[order[i]])
        ensures nodes[order[i]].transform in TopmostRemovals(nodes, order, removed) <==> nodes[order[i]].transformParent !in removed
      {
        if i > 0 {
          assert order[i] == rest[i - 1];
        }
      }
    }
  }

  /**
   * The walk as written: when a visited Transform or Billboard node (the
   * j-th) has as its parent transform the transform of one visited before
   * it (the i-th), the removal of the i-th node's transform has already
   * taken it out with its transform subtree, and still the visit of the
   * j-th node asks the transform tree to remove it again. The topmost
   * removals leave it out.
   */
  lemma AsWrittenRemovesNested(nodes: Nodes, order: seq<int>, removed: set<int>, i: int, j: int)
    requires forall n :: 0 <= n < |order| ==> order[n] in nodes
    requires Distinct(order) && OwnedOnce(nodes, order)
    requires 0 <= i < j < |order| && Introduces(nodes[order[i]]) && Introduces(nodes[order[j]])
    requires nodes[order[j]].transformParent == nodes[order[i]].transform && nodes[order[i]].transform in removed
    ensures nodes[order[i]].transform in TransformRemovals(nodes, order[..j])
    ensures TransformRemovals(nodes, order[..j + 1]) == TransformRemovals(nodes, order[..j]) + [nodes[order[j]].transform]
    ensures nodes[order[j]].transform !in TopmostRemovals(nodes, order, removed)
  {
    assert order[..j][i] == order[i];
    assert order[..j + 1] == order[..j] + [order[j]];
    TransformRemovalsAppend(nodes, order[..j], order[j]);
    TopmostRemovalsExact(nodes, order, removed);
  }

  /**
   * On a visiting order that takes each node of S once, in a tree whose
   * transforms each have one owner: as written, every transform the walk
   * drops is asked of the transform tree by a call of its own; as meant,
   * the calls are the transforms of S's topmost Transform and Billboard
   * nodes, each once.
   */
  lemma WalkRemovals(nodes: Nodes, owner: map<int, int>, transformRoot: int, nextTransform: int, order: seq<int>, S: set<int>)
    requires TransformsOK(nodes, owner, transformRoot, nextTransform)
    requires forall i :: 0 <= i < |order| ==> order[i] in nodes
    requires Distinct(order) && forall k :: k in order <==> k in S
    ensures forall t :: t in TransformsOf(nodes, S) ==> t in TransformRemovals(nodes, order)
    ensures Distinct(TopmostRemovals(nodes, order, TransformsOf(nodes, S)))
    ensures forall t :: t in TransformsOf(nodes, S) ==>
      && t in owner && owner[t] in nodes
      && (t in TopmostRemovals(nodes, order, TransformsOf(nodes, S)) <==> nodes[owner[t]].transformParent !in TransformsOf(nodes, S))
  {
    OwnedTransforms(nodes, owner, transformRoot, nextTransform);
    TopmostRemovalsExact(nodes, order, TransformsOf(nodes, S));
    forall t | t in TransformsOf(nodes, S)
      ensures t in TransformRemovals(nodes, order)
      ensures t in owner && owner[t] in nodes
      ensures t in TopmostRemovals(nodes, order, TransformsOf(nodes, S)) <==> nodes[owner[t]].transformParent !in TransformsOf(nodes, S)
    {
      var k :| k in S && k in nodes && Introduces(nodes[k]) && nodes[k].transform == t;
      var i :| 0 <= i < |order| && order[i] == k;
    }
  }
}

/**
 * The indexed object tree the scene tree maintains: nodes addressed by
 * integer indices, linked by parent, first-child and next-sibling indices,
 * under a sentinel root.
 *
 * The generic tree itself (insertNode, deleteNode) is not part of the
 * shown source; it is modelled here by the two functions InsertNodes and
 * DeleteNodes, with only the effects SceneTree.cpp relies on, and the
 * lemmas that both keep the links a well-formed forest.
 *
 * Alongside the links the model keeps, as ghost state, each node's list of
 * children in sibling order (what the first-child / next-sibling chain
 * spells) and a depth that decreases towards the sentinel, which is what
 * makes "ancestor" a terminating notion.
 */
module ObjectTree {
  import opened Common

  /** ~0: the "no node" value of every index link. */
  const NIL: int := -1

  /** The dynamic type of an authored node, as dynamic_pointer_cast tells it. */
  datatype ObjectKind = Group | Transform | Billboard | Switch | LOD | LightSource | GeoNode | OtherNode

  /** An authored scene-graph object; `id` stands for its identity. */
  datatype SceneObject = SceneObject(id: nat, kind: ObjectKind)

  /** ObjectTreeNode: the links of the generic tree and the scene tree's own per-node data. */
  datatype ObjectTreeNode = ObjectTreeNode(
    parentIndex: int,
    firstChild: int,
    nextSibling: int,
    authored: Option<SceneObject>,
    transform: int,
    transformParent: int,
    localHints: nat,
    localMask: nat,
    localActive: bool,
    isTransform: bool,
    isBillboard: bool,
    isDrawable: bool)

  type Nodes = map<int, ObjectTreeNode>
  type Children = map<int, seq<int>>
  type Depths = map<int, nat>

  /** The node introduces its own transform-tree node. */
  predicate Introduces(n: ObjectTreeNode) {
    n.isTransform || n.isBillboard
  }

  /** A node as a caller hands it to insertNode: not yet linked, no transform of its own. */
  function NewNode(authored: SceneObject, transform: int): (n: ObjectTreeNode)
    ensures !Introduces(n) && !n.isDrawable && n.localActive && n.authored == Some(authored)
  {
    ObjectTreeNode(NIL, NIL, NIL, Some(authored), transform, NIL, 0, 0, true, false, false, false)
  }

  // ------------------------------------------------------------------
  // Child lists

  ghost predicate Distinct(s: seq<int>) {
    forall i, j :: 0 <= i < j < |s| ==> s[i] != s[j]
  }

  /** The position of x in s. */
  function IndexOf(s: seq<int>, x: int): (i: nat)
    requires x in s
    ensures i < |s| && s[i] == x
    ensures forall j :: 0 <= j < i ==> s[j] != x
  {
    if s[0] == x then 0 else 1 + IndexOf(s[1..], x)
  }

  lemma IndexOfDistinct(s: seq<int>, i: int)
    requires Distinct(s) && 0 <= i < |s|
    ensures IndexOf(s, s[i]) == i
  {
  }

  /** x placed right after `left` in s, or at the front when left is NIL. */
  function InsertAfter(s: seq<int>, left: int, x: int): (r: seq<int>)
    requires left == NIL || left in s
    ensures |r| == |s| + 1
    ensures left == NIL ==> r == [x] + s
    ensures left != NIL ==> var pos := IndexOf(s, left); r[pos + 1] == x && r[..pos + 1] == s[..pos + 1] && r[pos + 2..] == s[pos + 1..]
  {
    if left == NIL then [x] + s
    else
      var pos := IndexOf(s, left);
      s[..pos + 1] + [x] + s[pos + 1..]
  }

  /** Placing x after the last element of a list (or at the front of an empty one) appends it. */
  lemma InsertAfterLast(s: seq<int>, x: int)
    requires Distinct(s) && (s == [] || s[|s| - 1] != NIL)
    ensures InsertAfter(s, if s == [] then NIL else s[|s| - 1], x) == s + [x]
  {
    if s == [] {
      return;
    }
    IndexOfDistinct(s, |s| - 1);
    calc {
      InsertAfter(s, s[|s| - 1], x);
      s[..|s|] + [x] + s[|s|..];
      { assert s[..|s|] == s && s[|s|..] == []; }
      s + [x];
    }
  }

  /** s without its element at position pos. */
  function RemoveAt(s: seq<int>, pos: nat): (r: seq<int>)
    requires pos < |s|
    ensures |r| == |s| - 1
    ensures forall i :: 0 <= i < pos ==> r[i] == s[i]
    ensures forall i :: pos <= i < |r| ==> r[i] == s[i + 1]
  {
    s[..pos] + s[pos + 1..]
  }

  /** Taking out the element at pos and then inserting x after its left neighbour puts x in its place. */
  lemma ReplacedInPlace(s: seq<int>, pos: nat, left: int, removed: seq<int>, inserted: seq<int>, x: int)
    requires Distinct(s) && NIL !in s && pos < |s|
    requires left == (if pos == 0 then NIL else s[pos - 1])
    requires removed == RemoveAt(s, pos) && (left == NIL || left in removed)
    requires inserted == InsertAfter(removed, left, x)
    ensures inserted == s[pos := x]
  {
    InsertAfterRemoveAt(s, pos, x);
  }

  /** Taking an element out and putting a new one after its left neighbour is replacing it in place. */
  lemma InsertAfterRemoveAt(s: seq<int>, pos: nat, x: int)
    requires Distinct(s) && NIL !in s && pos < |s|
    ensures var left := if pos == 0 then NIL else s[pos - 1];
      (left == NIL || left in RemoveAt(s, pos)) && InsertAfter(RemoveAt(s, pos), left, x) == s[pos := x]
  {
    var r := RemoveAt(s, pos);
    if pos == 0 {
      assert InsertAfter(r, NIL, x) == [x] + s[1..];
    } else {
      assert r[pos - 1] == s[pos - 1];
      assert IndexOf(r, s[pos - 1]) == pos - 1 by {
        assert Distinct(r);
        IndexOfDistinct(r, pos - 1);
      }
      var t := InsertAfter(r, s[pos - 1], x);
      assert t[..pos] == r[..pos] && t[pos] == x && t[pos + 1..] == r[pos..];
      forall i | 0 <= i < |s|
        ensures t[i] == s[pos := x][i]
      {
        if i < pos {
          assert t[i] == t[..pos][i] == r[i];
        } else if i > pos {
          assert t[i] == t[pos + 1..][i - pos - 1] == r[i - 1];
        }
      }
    }
  }

  lemma DistinctInsertAfter(s: seq<int>, left: int, x: int)
    requires Distinct(s) && x !in s && (left == NIL || left in s)
    ensures Distinct(InsertAfter(s, left, x))
  {
    var r := InsertAfter(s, left, x);
    if left != NIL {
      var pos := IndexOf(s, left);
      forall i, j | 0 <= i < j < |r|
        ensures r[i] != r[j]
      {
        var i' := if i <= pos then i else i - 1;
        var j' := if j <= pos then j else j - 1;
        if i <= pos { assert r[i] == r[..pos + 1][i] == s[i]; }
        else if i > pos + 1 { assert r[i] == r[pos + 2..][i - pos - 2] == s[i - 1]; }
        if j <= pos { assert r[j] == r[..pos + 1][j] == s[j]; }
        else if j > pos + 1 { assert r[j] == r[pos + 2..][j - pos - 2] == s[j - 1]; }
      }
    }
  }

  lemma DistinctRemoveAt(s: seq<int>, pos: nat)
    requires Distinct(s) && pos < |s|
    ensures Distinct(RemoveAt(s, pos))
    ensures forall x :: x in RemoveAt(s, pos) <==> x in s && x != s[pos]
  {
    var r := RemoveAt(s, pos);
    forall x | x in s && x != s[pos]
      ensures x in r
    {
      var i := IndexOf(s, x);
      if i < pos { assert r[i] == x; } else { assert r[i - 1] == x; }
    }
  }

  /** A list of distinct elements of a finite set is no longer than the set. */
  lemma {:induction false} DistinctBound(s: seq<int>, keys: set<int>)
    requires Distinct(s) && forall i :: 0 <= i < |s| ==> s[i] in keys
    ensures |s| <= |keys|
    decreases |s|
  {
    if s != [] {
      var last := s[|s| - 1];
      var rest := s[..|s| - 1];
      assert forall i :: 0 <= i < |rest| ==> rest[i] in keys - {last};
      DistinctBound(rest, keys - {last});
    }
  }

  // ------------------------------------------------------------------
  // Well-formedness

  /** p's first-child / next-sibling chain spells `kids`, all of which name p as parent. */
  ghost predicate ChainSpells(nodes: Nodes, p: int, kids: seq<int>)
    requires p in nodes
  {
    && nodes[p].firstChild == (if kids == [] then NIL else kids[0])
    && Distinct(kids)
    && forall i :: 0 <= i < |kids| ==> ChainLink(nodes, p, kids, i)
  }

  /** The i-th child names p as parent and links on to the (i+1)-th, or to NIL after the last. */
  ghost predicate ChainLink(nodes: Nodes, p: int, kids: seq<int>, i: int)
    requires 0 <= i < |kids|
  {
    && kids[i] in nodes
    && nodes[kids[i]].parentIndex == p
    && nodes[kids[i]].nextSibling == (if i + 1 < |kids| then kids[i + 1] else NIL)
  }

  /**
   * The links form a forest under the sentinel: every node other than the
   * sentinel has a parent whose chain lists it, closer to the sentinel.
   */
  ghost predicate WellFormed(nodes: Nodes, children: Children, depth: Depths, sentinel: int) {
    && sentinel in nodes && nodes[sentinel].parentIndex == NIL
    && NIL !in nodes
    && children.Keys == nodes.Keys && depth.Keys == nodes.Keys
    && (forall p {:trigger children[p]} :: p in nodes ==> ChainSpells(nodes, p, children[p]))
    && (forall k {:trigger HasParent(nodes, children, depth, k)} :: k in nodes && k != sentinel ==> HasParent(nodes, children, depth, k))
  }

  /** k's parent is a node closer to the sentinel whose chain lists k. */
  ghost predicate HasParent(nodes: Nodes, children: Children, depth: Depths, k: int)
    requires k in nodes
  {
    var p := nodes[k].parentIndex;
    && p in nodes && p in depth && k in depth && p in children
    && depth[p] < depth[k]
    && k in children[p]
  }

  /** Parents are closer to the sentinel than their children. */
  ghost predicate Ranked(nodes: Nodes, depth: Depths) {
    forall k :: k in nodes && nodes[k].parentIndex in nodes ==>
      k in depth && nodes[k].parentIndex in depth && depth[nodes[k].parentIndex] < depth[k]
  }

  lemma WellFormedRanked(nodes: Nodes, children: Children, depth: Depths, sentinel: int)
    requires WellFormed(nodes, children, depth, sentinel)
    ensures Ranked(nodes, depth)
  {
    forall k | k in nodes && nodes[k].parentIndex in nodes
      ensures k in depth && nodes[k].parentIndex in depth && depth[nodes[k].parentIndex] < depth[k]
    {
      assert HasParent(nodes, children, depth, k);
    }
  }

  /** In a well-formed tree, c is a child of p exactly when p's chain lists c. */
  lemma ChildOfParent(nodes: Nodes, children: Children, depth: Depths, sentinel: int, p: int, c: int)
    requires WellFormed(nodes, children, depth, sentinel) && p in nodes && c in nodes
    ensures c in children[p] <==> (c != sentinel && nodes[c].parentIndex == p)
  {
    if c in children[p] {
      ChainNext(nodes, p, children[p], IndexOf(children[p], c));
    } else if c != sentinel {
      assert HasParent(nodes, children, depth, c);
    }
  }

  /** The link that follows the i-th element of a chain. */
  lemma ChainNext(nodes: Nodes, p: int, kids: seq<int>, i: int)
    requires p in nodes && ChainSpells(nodes, p, kids) && 0 <= i < |kids|
    ensures kids[i] in nodes && nodes[kids[i]].parentIndex == p
    ensures nodes[kids[i]].nextSibling == if i + 1 < |kids| then kids[i + 1] else NIL
  {
    assert ChainLink(nodes, p, kids, i);
  }

  /** Same nodes, same links: payload changes cannot break the forest. */
  ghost predicate SameLinks(a: Nodes, b: Nodes) {
    && a.Keys == b.Keys
    && forall k :: k in a ==>
         && a[k].parentIndex == b[k].parentIndex
         && a[k].firstChild == b[k].firstChild
         && a[k].nextSibling == b[k].nextSibling
  }

  lemma SameLinksWellFormed(a: Nodes, b: Nodes, children: Children, depth: Depths, sentinel: int)
    requires WellFormed(a, children, depth, sentinel) && SameLinks(a, b)
    ensures WellFormed(b, children, depth, sentinel)
  {
    forall p | p in b
      ensures ChainSpells(b, p, children[p])
    {
      assert ChainSpells(a, p, children[p]);
      forall i | 0 <= i < |children[p]|
        ensures ChainLink(b, p, children[p], i)
      {
        assert ChainLink(a, p, children[p], i);
      }
    }
    forall k | k in b && k != sentinel
      ensures HasParent(b, children, depth, k)
    {
      assert HasParent(a, children, depth, k);
    }
  }

  // ------------------------------------------------------------------
  // Subtrees

  /** r is k or one of k's ancestors. */
  predicate InSubtree(nodes: Nodes, ghost depth: Depths, k: int, r: int)
    requires Ranked(nodes, depth)
    decreases if k in depth then depth[k] else 0
  {
    k == r || (k in nodes && nodes[k].parentIndex in nodes && InSubtree(nodes, depth, nodes[k].parentIndex, r))
  }

  /** The nodes of the subtree rooted at r. */
  ghost function Subtree(nodes: Nodes, depth: Depths, r: int): set<int>
    requires Ranked(nodes, depth)
  {
    set k | k in nodes && InSubtree(nodes, depth, k, r)
  }

  /** Membership in a subtree depends only on the parent links. */
  lemma {:induction false} InSubtreeSameLinks(a: Nodes, b: Nodes, depth: Depths, k: int, r: int)
    requires Ranked(a, depth) && SameLinks(a, b)
    ensures Ranked(b, depth)
    ensures InSubtree(a, depth, k, r) == InSubtree(b, depth, k, r)
    decreases if k in depth then depth[k] else 0
  {
    if k != r && k in a && a[k].parentIndex in a {
      InSubtreeSameLinks(a, b, depth, a[k].parentIndex, r);
    }
  }

  /** Every proper descendant of r lies deeper than r. */
  lemma {:induction false} SubtreeDeeper(nodes: Nodes, depth: Depths, k: int, r: int)
    requires Ranked(nodes, depth) && r in nodes && k in nodes && k in depth && r in depth
    requires InSubtree(nodes, depth, k, r) && k != r
    ensures depth[r] < depth[k]
    decreases depth[k]
  {
    var p := nodes[k].parentIndex;
    if p != r {
      SubtreeDeeper(nodes, depth, p, r);
    }
  }

  /**
   * A set that holds r and the whole child list of each of its members
   * holds every node of r's subtree.
   */
  lemma {:induction false} ClosedHoldsSubtree(nodes: Nodes, children: Children, depth: Depths, sentinel: int,
                                              r: int, s: set<int>, k: int)
    requires WellFormed(nodes, children, depth, sentinel) && Ranked(nodes, depth) && r in s
    requires forall q :: q in s && q in nodes ==> forall i :: 0 <= i < |children[q]| ==> children[q][i] in s
    requires k in nodes && InSubtree(nodes, depth, k, r)
    ensures k in s
    decreases depth[k]
  {
    if k != r {
      assert HasParent(nodes, children, depth, k);
      var p := nodes[k].parentIndex;
      ClosedHoldsSubtree(nodes, children, depth, sentinel, r, s, p);
      var i := IndexOf(children[p], k);
    }
  }

  /** Subtree membership is transitive. */
  lemma {:induction false} InSubtreeTransitive(nodes: Nodes, depth: Depths, k: int, m: int, r: int)
    requires Ranked(nodes, depth) && InSubtree(nodes, depth, k, m) && InSubtree(nodes, depth, m, r)
    ensures InSubtree(nodes, depth, k, r)
    decreases if k in depth then depth[k] else 0
  {
    if k != m {
      InSubtreeTransitive(nodes, depth, nodes[k].parentIndex, m, r);
    }
  }

  // ------------------------------------------------------------------
  // insertNode

  /**
   * insertNode(value, parent, leftSibling): the value becomes a leaf under
   * `parent`, right after `left` in the sibling chain, or first when left
   * is NIL; only the predecessor's link is redirected to it.
   */
  function InsertNodes(nodes: Nodes, value: ObjectTreeNode, parent: int, left: int, idx: int): (r: Nodes)
    requires parent in nodes && idx !in nodes && (left == NIL || left in nodes)
    ensures r.Keys == nodes.Keys + {idx}
    ensures r[idx] == value.(parentIndex := parent, firstChild := NIL,
                             nextSibling := if left == NIL then nodes[parent].firstChild else nodes[left].nextSibling)
    ensures forall k {:trigger r[k]} :: k in nodes ==>
      r[k] == if left == NIL && k == parent then nodes[k].(firstChild := idx)
              else if left != NIL && k == left then nodes[k].(nextSibling := idx)
              else nodes[k]
  {
    var next := if left == NIL then nodes[parent].firstChild else nodes[left].nextSibling;
    var linked := if left == NIL then nodes[parent := nodes[parent].(firstChild := idx)]
                  else nodes[left := nodes[left].(nextSibling := idx)];
    linked[idx := value.(parentIndex := parent, firstChild := NIL, nextSibling := next)]
  }

  ghost function InsertChildren(children: Children, parent: int, left: int, idx: int): (r: Children)
    requires parent in children && (left == NIL || left in children[parent])
    ensures r.Keys == children.Keys + {idx}
  {
    children[parent := InsertAfter(children[parent], left, idx)][idx := []]
  }

  ghost function InsertDepths(depth: Depths, parent: int, idx: int): (r: Depths)
    requires parent in depth
    ensures r.Keys == depth.Keys + {idx}
  {
    depth[idx := depth[parent] + 1]
  }

  /** Inserting a leaf keeps the forest well formed and places it after `left` in its parent's list. */
  lemma InsertWellFormed(nodes: Nodes, children: Children, depth: Depths, sentinel: int,
                         value: ObjectTreeNode, parent: int, left: int, idx: int)
    requires WellFormed(nodes, children, depth, sentinel)
    requires parent in nodes && idx !in nodes && idx != NIL
    requires left == NIL || (left in nodes && left != sentinel && nodes[left].parentIndex == parent)
    ensures left == NIL || left in children[parent]
    ensures WellFormed(InsertNodes(nodes, value, parent, left, idx), InsertChildren(children, parent, left, idx),
                       InsertDepths(depth, parent, idx), sentinel)
  {
    if left != NIL {
      ChildOfParent(nodes, children, depth, sentinel, parent, left);
    }
    InsertChainsSpell(nodes, children, depth, sentinel, value, parent, left, idx);
    InsertParentsPlaced(nodes, children, depth, sentinel, value, parent, left, idx);
  }

  /** After an insertion every chain spells its (updated) list. */
  lemma InsertChainsSpell(nodes: Nodes, children: Children, depth: Depths, sentinel: int,
                          value: ObjectTreeNode, parent: int, left: int, idx: int)
    requires WellFormed(nodes, children, depth, sentinel)
    requires parent in nodes && idx !in nodes && idx != NIL
    requires left == NIL || (left in children[parent] && left in nodes && nodes[left].parentIndex == parent)
    ensures var r := InsertNodes(nodes, value, parent, left, idx);
      var ch := InsertChildren(children, parent, left, idx);
      ch.Keys == r.Keys && forall p :: p in r ==> ChainSpells(r, p, ch[p])
  {
    var r := InsertNodes(nodes, value, parent, left, idx);
    var ch := InsertChildren(children, parent, left, idx);
    assert ch.Keys == r.Keys;
    forall p | p in r
      ensures ChainSpells(r, p, ch[p])
    {
      if p == parent {
        if left != NIL {
          ChainNext(nodes, parent, children[parent], IndexOf(children[parent], left));
        }
        InsertChainSpells(nodes, parent, children[parent], value, left, idx);
      } else if p != idx {
        InsertChainSpellsOther(nodes, children, depth, sentinel, value, parent, left, idx, p);
      }
    }
  }

  /** After an insertion every node but the sentinel still has its parent, listed and shallower. */
  lemma InsertParentsPlaced(nodes: Nodes, children: Children, depth: Depths, sentinel: int,
                            value: ObjectTreeNode, parent: int, left: int, idx: int)
    requires WellFormed(nodes, children, depth, sentinel)
    requires parent in nodes && idx !in nodes && idx != NIL
    requires left == NIL || (left in children[parent] && left in nodes)
    ensures var r := InsertNodes(nodes, value, parent, left, idx);
      var ch := InsertChildren(children, parent, left, idx);
      var dp := InsertDepths(depth, parent, idx);
      dp.Keys == r.Keys && forall k :: k in r && k != sentinel ==> HasParent(r, ch, dp, k)
  {
    var r := InsertNodes(nodes, value, parent, left, idx);
    var ch := InsertChildren(children, parent, left, idx);
    var dp := InsertDepths(depth, parent, idx);
    assert dp.Keys == r.Keys;
    forall k | k in r && k != sentinel
      ensures HasParent(r, ch, dp, k)
    {
      if k != idx {
        InsertKeepsPlace(nodes, children, depth, sentinel, parent, left, idx, k);
      }
    }
  }

  /** A chain other than the parent's is untouched by an insertion. */
  lemma InsertChainSpellsOther(nodes: Nodes, children: Children, depth: Depths, sentinel: int,
                               value: ObjectTreeNode, parent: int, left: int, idx: int, p: int)
    requires WellFormed(nodes, children, depth, sentinel)
    requires parent in nodes && idx !in nodes && idx != NIL
    requires left == NIL || (left in nodes && nodes[left].parentIndex == parent)
    requires p in nodes && p != parent
    ensures ChainSpells(InsertNodes(nodes, value, parent, left, idx), p, children[p])
  {
    var kids := children[p];
    var r := InsertNodes(nodes, value, parent, left, idx);
    forall i | 0 <= i < |kids|
      ensures ChainLink(r, p, kids, i)
    {
      ChainNext(nodes, p, kids, i);
      assert kids[i] != left && kids[i] != idx;
    }
  }

  /** An old node keeps its parent and its place in the parent's list. */
  lemma InsertKeepsPlace(nodes: Nodes, children: Children, depth: Depths, sentinel: int,
                         parent: int, left: int, idx: int, k: int)
    requires WellFormed(nodes, children, depth, sentinel)
    requires parent in nodes && idx !in nodes && idx != NIL
    requires left == NIL || left in children[parent]
    requires k in nodes && k != sentinel
    ensures nodes[k].parentIndex in nodes && HasParent(nodes, children, depth, k)
    ensures k in InsertChildren(children, parent, left, idx)[nodes[k].parentIndex]
  {
    assert HasParent(nodes, children, depth, k);
    if nodes[k].parentIndex == parent {
      var kids := children[parent];
      var s := InsertAfter(kids, left, idx);
      var i := IndexOf(kids, k);
      if left == NIL {
        assert s[i + 1] == k;
      } else if i <= IndexOf(kids, left) {
        assert s[..IndexOf(kids, left) + 1][i] == k;
      } else {
        assert s[IndexOf(kids, left) + 2..][i - IndexOf(kids, left) - 1] == k;
      }
    }
  }

  /** The parent's own chain after insertion spells the list with the new index in place. */
  lemma InsertChainSpells(nodes: Nodes, parent: int, kids: seq<int>, value: ObjectTreeNode, left: int, idx: int)
    requires parent in nodes && idx !in nodes && idx != NIL && NIL !in nodes
    requires ChainSpells(nodes, parent, kids)
    requires left == NIL || (left in kids && left in nodes)
    ensures ChainSpells(InsertNodes(nodes, value, parent, left, idx), parent, InsertAfter(kids, left, idx))
  {
    var r := InsertNodes(nodes, value, parent, left, idx);
    var s := InsertAfter(kids, left, idx);
    assert idx !in kids by {
      if idx in kids {
        ChainNext(nodes, parent, kids, IndexOf(kids, idx));
      }
    }
    DistinctInsertAfter(kids, left, idx);
    if left == NIL {
      forall i | 0 <= i < |s|
        ensures ChainLink(r, parent, s, i)
      {
        if i > 0 {
          assert s[i] == kids[i - 1];
          ChainNext(nodes, parent, kids, i - 1);
          if i < |kids| {
            assert s[i + 1] == kids[i];
          }
        }
      }
    } else {
      var pos := IndexOf(kids, left);
      forall i | 0 <= i < |s|
        ensures ChainLink(r, parent, s, i)
      {
        if i < pos {
          assert s[i] == kids[i] && s[i + 1] == kids[i + 1];
          ChainNext(nodes, parent, kids, i);
        } else if i == pos {
          assert s[i] == left;
          ChainNext(nodes, parent, kids, i);
        } else if i == pos + 1 {
          ChainNext(nodes, parent, kids, pos);
          if pos + 1 < |kids| {
            assert s[i + 1] == kids[pos + 1];
          }
        } else {
          assert s[i] == kids[i - 1];
          ChainNext(nodes, parent, kids, i - 1);
          if i < |kids| {
            assert s[i + 1] == kids[i];
          }
        }
      }
    }
  }

  // ------------------------------------------------------------------
  // deleteNode

  /** A surviving node's link to the deleted node now skips over it, to `next`. */
  function Relinked(n: ObjectTreeNode, index: int, next: int): ObjectTreeNode
  {
    n.(firstChild := if n.firstChild == index then next else n.firstChild,
       nextSibling := if n.nextSibling == index then next else n.nextSibling)
  }

  /**
   * deleteNode(index): the node and its whole subtree disappear, and the
   * parent's chain skips over it.
   */
  function DeleteNodes(nodes: Nodes, ghost depth: Depths, index: int): (r: Nodes)
    requires Ranked(nodes, depth) && index in nodes
    ensures r.Keys == nodes.Keys - Subtree(nodes, depth, index)
    ensures forall k :: k in r ==> r[k] == Relinked(nodes[k], index, nodes[index].nextSibling)
  {
    var next := nodes[index].nextSibling;
    map k | k in nodes && !InSubtree(nodes, depth, k, index) :: Relinked(nodes[k], index, next)
  }

  ghost function DeleteChildren(nodes: Nodes, children: Children, depth: Depths, index: int): Children
    requires Ranked(nodes, depth) && index in nodes && children.Keys == nodes.Keys
    requires nodes[index].parentIndex in nodes && index in children[nodes[index].parentIndex]
  {
    var p := nodes[index].parentIndex;
    map k | k in nodes && !InSubtree(nodes, depth, k, index) ::
      if k == p then RemoveAt(children[p], IndexOf(children[p], index)) else children[k]
  }

  ghost function DeleteDepths(nodes: Nodes, depth: Depths, index: int): Depths
    requires Ranked(nodes, depth)
  {
    map k | k in depth && !(k in nodes && InSubtree(nodes, depth, k, index)) :: depth[k]
  }

  /** Deleting any subtree but the sentinel's keeps the forest well formed. */
  lemma DeleteWellFormed(nodes: Nodes, children: Children, depth: Depths, sentinel: int, index: int)
    requires WellFormed(nodes, children, depth, sentinel)
    requires index in nodes && index != sentinel
    ensures Ranked(nodes, depth)
    ensures nodes[index].parentIndex in nodes && index in children[nodes[index].parentIndex]
    ensures sentinel !in Subtree(nodes, depth, index)
    ensures WellFormed(DeleteNodes(nodes, depth, index), DeleteChildren(nodes, children, depth, index),
                       DeleteDepths(nodes, depth, index), sentinel)
  {
    WellFormedRanked(nodes, children, depth, sentinel);
    assert HasParent(nodes, children, depth, index);
    var p := nodes[index].parentIndex;
    var r := DeleteNodes(nodes, depth, index);
    var ch := DeleteChildren(nodes, children, depth, index);
    var dp := DeleteDepths(nodes, depth, index);
    var kids := children[p];
    var pos := IndexOf(kids, index);
    assert ChainSpells(nodes, p, kids);
    assert !InSubtree(nodes, depth, p, index) by {
      if InSubtree(nodes, depth, p, index) {
        SubtreeDeeper(nodes, depth, p, index);
      }
    }
    forall q | q in r
      ensures ChainSpells(r, q, ch[q])
    {
      assert ChainSpells(nodes, q, children[q]);
      if q == p {
        DeleteChainSpellsParent(nodes, depth, p, kids, index, pos);
      } else {
        DeleteChainSpellsOther(nodes, depth, q, children[q], index, p);
      }
    }
    forall k | k in r && k != sentinel
      ensures HasParent(r, ch, dp, k)
    {
      DeleteKeepsPlace(nodes, children, depth, sentinel, index, k);
    }
  }

  /** A surviving node keeps its parent, which survives too, and its place in the parent's list. */
  lemma DeleteKeepsPlace(nodes: Nodes, children: Children, depth: Depths, sentinel: int, index: int, k: int)
    requires WellFormed(nodes, children, depth, sentinel) && Ranked(nodes, depth)
    requires index in nodes && index != sentinel
    requires k in nodes && k != sentinel && !InSubtree(nodes, depth, k, index)
    ensures nodes[index].parentIndex in nodes && index in children[nodes[index].parentIndex]
    ensures nodes[k].parentIndex in nodes && !InSubtree(nodes, depth, nodes[k].parentIndex, index)
    ensures k in DeleteChildren(nodes, children, depth, index)[nodes[k].parentIndex]
  {
    assert HasParent(nodes, children, depth, k) && HasParent(nodes, children, depth, index);
    var p := nodes[index].parentIndex;
    if nodes[k].parentIndex == p {
      var kids := children[p];
      var pos := IndexOf(kids, index);
      var i := IndexOf(kids, k);
      var s := RemoveAt(kids, pos);
      if i < pos {
        assert s[i] == k;
      } else {
        assert s[i - 1] == k;
      }
    }
  }

  /** The deleted node's parent: its chain spells its list without the deleted node. */
  lemma DeleteChainSpellsParent(nodes: Nodes, depth: Depths, p: int, kids: seq<int>, index: int, pos: nat)
    requires Ranked(nodes, depth) && p in nodes && index in nodes && NIL !in nodes
    requires ChainSpells(nodes, p, kids) && pos < |kids| && kids[pos] == index
    requires !InSubtree(nodes, depth, p, index)
    ensures ChainSpells(DeleteNodes(nodes, depth, index), p, RemoveAt(kids, pos))
  {
    ChainNext(nodes, p, kids, pos);
    var r := DeleteNodes(nodes, depth, index);
    var s := RemoveAt(kids, pos);
    DistinctRemoveAt(kids, pos);
    assert p in r;
    forall i | 0 <= i < |s|
      ensures ChainLink(r, p, s, i)
    {
      var j := if i < pos then i else i + 1;
      ChainNext(nodes, p, kids, j);
      assert s[i] == kids[j] && kids[j] != index;
      assert !InSubtree(nodes, depth, kids[j], index);
      if j + 1 == pos {
        assert r[s[i]].nextSibling == nodes[index].nextSibling;
      } else if j + 1 < |kids| {
        assert kids[j + 1] != index;
        assert s[i + 1] == kids[j + 1];
      }
    }
  }

  /** Any other surviving node: its chain and its children are untouched. */
  lemma DeleteChainSpellsOther(nodes: Nodes, depth: Depths, q: int, kids: seq<int>, index: int, p: int)
    requires Ranked(nodes, depth) && q in nodes && index in nodes && NIL !in nodes
    requires ChainSpells(nodes, q, kids) && p == nodes[index].parentIndex && q != p
    requires !InSubtree(nodes, depth, q, index)
    ensures ChainSpells(DeleteNodes(nodes, depth, index), q, kids)
  {
    var r := DeleteNodes(nodes, depth, index);
    forall i | 0 <= i < |kids|
      ensures ChainLink(r, q, kids, i)
    {
      ChainNext(nodes, q, kids, i);
      assert kids[i] != index;
      assert !InSubtree(nodes, depth, kids[i], index);
      if i + 1 < |kids| {
        ChainNext(nodes, q, kids, i + 1);
      }
    }
    if kids != [] {
      ChainNext(nodes, q, kids, 0);
    }
  }

  /** Deleting gives the same result on two trees that agree outside the deleted subtree and on every link. */
  lemma DeleteSameOutside(a: Nodes, b: Nodes, depth: Depths, index: int)
    requires Ranked(a, depth) && SameLinks(a, b) && index in a
    requires forall k :: k in a && !InSubtree(a, depth, k, index) ==> a[k] == b[k]
    ensures Ranked(b, depth)
    ensures Subtree(a, depth, index) == Subtree(b, depth, index)
    ensures DeleteNodes(a, depth, index) == DeleteNodes(b, depth, index)
  {
    InSubtreeSameLinks(a, b, depth, index, index);
    forall k | k in a
      ensures InSubtree(a, depth, k, index) == InSubtree(b, depth, k, index)
    {
      InSubtreeSameLinks(a, b, depth, k, index);
    }
  }

  // ------------------------------------------------------------------
  // Breadth-first walk

  /** The child lists of the nodes of s, one after the other: what a breadth-first queue appends. */
  ghost function Flatten(children: Children, s: seq<int>): seq<int>
    requires forall i :: 0 <= i < |s| ==> s[i] in children
  {
    if s == [] then [] else Flatten(children, s[..|s| - 1]) + children[s[|s| - 1]]
  }

  /** Everything in the flattened lists comes from the list of some element of s. */
  lemma {:induction false} FlattenFrom(children: Children, s: seq<int>, e: int)
    requires forall i :: 0 <= i < |s| ==> s[i] in children
    requires e in Flatten(children, s)
    ensures exists i :: 0 <= i < |s| && e in children[s[i]]
    decreases |s|
  {
    var rest := s[..|s| - 1];
    if e in Flatten(children, rest) {
      FlattenFrom(children, rest, e);
      var i :| 0 <= i < |rest| && e in children[rest[i]];
      assert s[i] == rest[i];
    } else {
      assert e in children[s[|s| - 1]];
    }
  }

  /** The list of every element of s is in the flattened lists. */
  lemma {:induction false} FlattenHas(children: Children, s: seq<int>, i: int, j: int)
    requires forall i :: 0 <= i < |s| ==> s[i] in children
    requires 0 <= i < |s| && 0 <= j < |children[s[i]]|
    ensures children[s[i]][j] in Flatten(children, s)
    decreases |s|
  {
    var rest := s[..|s| - 1];
    if i < |s| - 1 {
      assert rest[i] == s[i];
      FlattenHas(children, rest, i, j);
    } else {
      assert Flatten(children, s) == Flatten(children, rest) + children[s[i]];
    }
  }

  /**
   * One step of the breadth-first walk of r's subtree: popping a node not
   * popped before and pushing its children keeps the queue free of
   * repeats and inside the subtree.
   */
  lemma BreadthFirstStep(nodes: Nodes, children: Children, depth: Depths, sentinel: int,
                         r: int, done: seq<int>, cur: int)
    requires WellFormed(nodes, children, depth, sentinel) && Ranked(nodes, depth) && r in nodes
    requires forall i :: 0 <= i < |done| ==> done[i] in nodes
    requires Distinct([r] + Flatten(children, done))
    requires forall e :: e in [r] + Flatten(children, done) ==> e in nodes && InSubtree(nodes, depth, e, r)
    requires cur in [r] + Flatten(children, done) && cur !in done
    ensures forall i :: 0 <= i < |done + [cur]| ==> (done + [cur])[i] in nodes
    ensures [r] + Flatten(children, done + [cur]) == [r] + Flatten(children, done) + children[cur]
    ensures Distinct([r] + Flatten(children, done + [cur]))
    ensures forall e :: e in [r] + Flatten(children, done + [cur]) ==> e in nodes && InSubtree(nodes, depth, e, r)
  {
    var d := done + [cur];
    forall i | 0 <= i < |d|
      ensures d[i] in nodes
    {
      if i < |done| {
        assert d[i] == done[i];
      }
    }
    var f := Flatten(children, done);
    assert d[..|done|] == done;
    assert Flatten(children, d) == f + children[cur];
    assert [r] + (f + children[cur]) == [r] + f + children[cur];
    assert ChainSpells(nodes, cur, children[cur]);
    QueuedChildren(nodes, children, depth, sentinel, r, done, cur);
    DistinctAppend([r] + f, children[cur]);
  }

  /** The children of a node in the queue are in r's subtree and not yet queued. */
  lemma QueuedChildren(nodes: Nodes, children: Children, depth: Depths, sentinel: int,
                       r: int, done: seq<int>, cur: int)
    requires WellFormed(nodes, children, depth, sentinel) && Ranked(nodes, depth) && r in nodes
    requires forall i :: 0 <= i < |done| ==> done[i] in nodes
    requires forall e :: e in [r] + Flatten(children, done) ==> e in nodes && InSubtree(nodes, depth, e, r)
    requires cur in [r] + Flatten(children, done) && cur !in done
    ensures forall j :: 0 <= j < |children[cur]| ==>
      var c := children[cur][j];
      c in nodes && InSubtree(nodes, depth, c, r) && c !in [r] + Flatten(children, done)
  {
    var kids := children[cur];
    assert ChainSpells(nodes, cur, kids);
    forall j | 0 <= j < |kids|
      ensures kids[j] in nodes && InSubtree(nodes, depth, kids[j], r) && kids[j] !in [r] + Flatten(children, done)
    {
      ChainNext(nodes, cur, kids, j);
      var c := kids[j];
      if c == r {
        assert HasParent(nodes, children, depth, r);
        if cur != r {
          SubtreeDeeper(nodes, depth, cur, r);
        }
      } else if c in Flatten(children, done) {
        FlattenFrom(children, done, c);
        var i :| 0 <= i < |done| && c in children[done[i]];
        ChildOfParent(nodes, children, depth, sentinel, done[i], c);
      }
    }
  }

  /** Two repeat-free sequences with nothing in common concatenate to a repeat-free one. */
  lemma DistinctAppend(q: seq<int>, kids: seq<int>)
    requires Distinct(q) && Distinct(kids) && forall j :: 0 <= j < |kids| ==> kids[j] !in q
    ensures Distinct(q + kids)
  {
    var t := q + kids;
    forall i, j | 0 <= i < j < |t|
      ensures t[i] != t[j]
    {
      if j >= |q| {
        assert t[j] == kids[j - |q|];
        if i >= |q| {
          assert t[i] == kids[i - |q|];
        }
      }
    }
  }

  /**
   * When the walk stops, every popped node's children have been queued, so
   * the queue holds exactly r's subtree.
   */
  lemma BreadthFirstComplete(nodes: Nodes, children: Children, depth: Depths, sentinel: int,
                             r: int, order: seq<int>)
    requires WellFormed(nodes, children, depth, sentinel) && Ranked(nodes, depth) && r in nodes
    requires forall i :: 0 <= i < |order| ==> order[i] in nodes && InSubtree(nodes, depth, order[i], r)
    requires order == [r] + Flatten(children, order)
    ensures forall k :: k in order <==> k in Subtree(nodes, depth, r)
  {
    var s := set i | 0 <= i < |order| :: order[i];
    forall q | q in s && q in nodes
      ensures forall j :: 0 <= j < |children[q]| ==> children[q][j] in s
    {
      var i :| 0 <= i < |order| && order[i] == q;
      forall j | 0 <= j < |children[q]|
        ensures children[q][j] in s
      {
        FlattenHas(children, order, i, j);
        var e := children[q][j];
        assert e in order by { assert order[1..] == Flatten(children, order); }
        var m := IndexOf(order, e);
      }
    }
    assert order[0] == r;
    forall k | k in Subtree(nodes, depth, r)
      ensures k in order
    {
      ClosedHoldsSubtree(nodes, children, depth, sentinel, r, s, k);
    }
  }
}

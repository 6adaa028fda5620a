/**
 * What the per-frame reconciliation of SceneTree::updateObjectTree and the
 * notifications of removeObjectTreeIndex compute, stated as functions of
 * the object tree: the scene tree's methods are proved to produce exactly
 * these, and the lemmas here say what they mean.
 */
module Reconcile {
  import opened Common
  import opened ObjectTree

  // ------------------------------------------------------------------
  // Hints and masks

  /** One entry the object observer queued for a node: its new hints and mask. */
  datatype CacheData = CacheData(hints: nat, mask: nat)

  /** The tree after the drained hint/mask entries are applied. */
  ghost function WithHints(nodes: Nodes, cd: map<int, CacheData>): Nodes
  {
    map k | k in nodes :: if k in cd then nodes[k].(localHints := cd[k].hints, localMask := cd[k].mask) else nodes[k]
  }

  /**
   * Each drained entry sets exactly that node's hints and mask; every other
   * node, and every link, is left as it was.
   */
  lemma WithHintsEffect(nodes: Nodes, cd: map<int, CacheData>)
    ensures var r := WithHints(nodes, cd);
      && SameLinks(nodes, r)
      && (forall k :: k in cd && k in nodes ==>
            r[k] == nodes[k].(localHints := cd[k].hints, localMask := cd[k].mask))
      && (forall k :: k in nodes && k !in cd ==> r[k] == nodes[k])
  {
  }

  /** Applying entries one at a time builds up WithHints. */
  lemma WithHintsStep(nodes: Nodes, cd: map<int, CacheData>, k: int, data: CacheData)
    requires k in nodes && k !in cd
    ensures WithHints(nodes, cd)[k := WithHints(nodes, cd)[k].(localHints := data.hints, localMask := data.mask)]
         == WithHints(nodes, cd[k := data])
  {
  }

  // ------------------------------------------------------------------
  // Switch and LOD activation

  /**
   * The activation wanted for the i-th child of parent q (isActive(i) of a
   * switch, "i is the chosen ordinal" for a LOD).
   */
  type Want = (int, nat) -> bool

  /** k is the child of a parent in P, listed in that parent's child list. */
  ghost predicate ChildOfIn(nodes: Nodes, children: Children, P: set<int>, k: int)
    requires k in nodes
  {
    var q := nodes[k].parentIndex;
    q in P && q in children && k in children[q]
  }

  /** Every child of a parent in P gets the activation wanted for its sibling position. */
  ghost function Activated(nodes: Nodes, children: Children, P: set<int>, want: Want): (r: Nodes)
    ensures r.Keys == nodes.Keys
  {
    map k | k in nodes ::
      if ChildOfIn(nodes, children, P, k)
      then nodes[k].(localActive := want(nodes[k].parentIndex, IndexOf(children[nodes[k].parentIndex], k)))
      else nodes[k]
  }

  /** The children of parents in P whose activation flag actually changes. */
  ghost function Flipped(nodes: Nodes, children: Children, P: set<int>, want: Want): (r: set<int>)
    ensures forall k :: k in r <==> k in nodes && Activated(nodes, children, P, want)[k] != nodes[k]
  {
    set k | k in nodes && ChildOfIn(nodes, children, P, k)
                       && nodes[k].localActive != want(nodes[k].parentIndex, IndexOf(children[nodes[k].parentIndex], k))
  }

  /** The first `upto` children of p, in sibling order, get want(i). */
  ghost function ActivatePrefix(nodes: Nodes, p: int, kids: seq<int>, want: nat -> bool, upto: nat): Nodes
    requires upto <= |kids|
  {
    map k | k in nodes :: if k in kids[..upto] then nodes[k].(localActive := want(IndexOf(kids, k))) else nodes[k]
  }

  /** The children among the first `upto` whose flag differs from want(i). */
  ghost function FlippedPrefix(nodes: Nodes, kids: seq<int>, want: nat -> bool, upto: nat): set<int>
    requires upto <= |kids|
  {
    set k | k in nodes && k in kids[..upto] && nodes[k].localActive != want(IndexOf(kids, k))
  }

  /** The sibling walk extends the activated prefix by one child. */
  lemma ActivatePrefixStep(nodes: Nodes, p: int, kids: seq<int>, want: nat -> bool, i: nat)
    requires Distinct(kids) && i < |kids| && kids[i] in nodes
    ensures var before := ActivatePrefix(nodes, p, kids, want, i);
      && kids[i] in before && before[kids[i]] == nodes[kids[i]]
      && ActivatePrefix(nodes, p, kids, want, i + 1)
         == (if nodes[kids[i]].localActive == want(i) then before
             else before[kids[i] := nodes[kids[i]].(localActive := want(i))])
      && FlippedPrefix(nodes, kids, want, i + 1)
         == FlippedPrefix(nodes, kids, want, i) + (if nodes[kids[i]].localActive == want(i) then {} else {kids[i]})
  {
    IndexOfDistinct(kids, i);
    assert kids[..i + 1] == kids[..i] + [kids[i]];
    assert kids[i] !in kids[..i];
  }

  /**
   * Walking all of p's children with want(i) is activating the children of
   * {p} with any Want that agrees with it at p.
   */
  lemma ActivatePrefixComplete(nodes: Nodes, children: Children, depth: Depths, sentinel: int,
                               p: int, want: nat -> bool, W: Want)
    requires WellFormed(nodes, children, depth, sentinel) && p in nodes
    requires forall i: nat :: want(i) == W(p, i)
    ensures ActivatePrefix(nodes, p, children[p], want, |children[p]|) == Activated(nodes, children, {p}, W)
    ensures FlippedPrefix(nodes, children[p], want, |children[p]|) == Flipped(nodes, children, {p}, W)
  {
    var kids := children[p];
    assert kids[..|kids|] == kids;
    forall k | k in nodes
      ensures (k in kids) == ChildOfIn(nodes, children, {p}, k)
    {
      ChildOfParent(nodes, children, depth, sentinel, p, k);
    }
  }

  /** Activating one more parent's children composes with those already done. */
  lemma ActivatedStep(nodes: Nodes, children: Children, done: set<int>, s: int, W: Want)
    requires s !in done
    ensures SameLinks(nodes, Activated(nodes, children, done, W))
    ensures Activated(Activated(nodes, children, done, W), children, {s}, W) == Activated(nodes, children, done + {s}, W)
    ensures Flipped(Activated(nodes, children, done, W), children, {s}, W) + Flipped(nodes, children, done, W)
         == Flipped(nodes, children, done + {s}, W)
  {
  }

  /** Two Wants that agree on the parents in P activate alike. */
  lemma ActivatedAgree(nodes: Nodes, children: Children, P: set<int>, W1: Want, W2: Want)
    requires forall q, i: nat :: q in P ==> W1(q, i) == W2(q, i)
    ensures Activated(nodes, children, P, W1) == Activated(nodes, children, P, W2)
    ensures Flipped(nodes, children, P, W1) == Flipped(nodes, children, P, W2)
  {
  }

  /** The child at sibling position i of a parent in P ends up with want(p, i); nothing else changes. */
  lemma ActivatedAt(nodes: Nodes, children: Children, depth: Depths, sentinel: int,
                    P: set<int>, want: Want, p: int, i: int)
    requires WellFormed(nodes, children, depth, sentinel) && p in P && p in nodes && 0 <= i < |children[p]|
    ensures children[p][i] in nodes
    ensures Activated(nodes, children, P, want)[children[p][i]]
         == nodes[children[p][i]].(localActive := want(p, i))
  {
    ChainNext(nodes, p, children[p], i);
    IndexOfDistinct(children[p], i);
  }

  /** Resolving again with the same wants changes nothing and flips nothing. */
  lemma ActivatedIdempotent(nodes: Nodes, children: Children, P: set<int>, want: Want)
    ensures Activated(Activated(nodes, children, P, want), children, P, want) == Activated(nodes, children, P, want)
    ensures Flipped(Activated(nodes, children, P, want), children, P, want) == {}
  {
    var r := Activated(nodes, children, P, want);
    assert forall k :: k in r ==> r[k].parentIndex == nodes[k].parentIndex;
  }

  /** A switch's wants: child i of switch q is active when the switch says isActive(i). */
  function SwitchWant(switches: map<int, SceneObject>, isActive: (SceneObject, nat) -> bool): Want
  {
    (q: int, i: nat) => q in switches && isActive(switches[q], i)
  }

  /** A LOD's wants: only the child whose position is the chosen ordinal is active. */
  function LodWant(choice: map<int, int>): Want
  {
    (q: int, i: nat) => q in choice && choice[q] == i
  }

  /**
   * After LOD resolution a child of LOD p is active exactly when its
   * position is p's ordinal: at most one child is active, and none when
   * the ordinal is out of range.
   */
  lemma LodExclusive(nodes: Nodes, children: Children, depth: Depths, sentinel: int,
                     P: set<int>, choice: map<int, int>, p: int)
    requires WellFormed(nodes, children, depth, sentinel) && p in P && p in nodes && p in choice
    ensures forall i :: 0 <= i < |children[p]| ==> children[p][i] in nodes
    ensures forall i :: 0 <= i < |children[p]| ==>
      (Activated(nodes, children, P, LodWant(choice))[children[p][i]].localActive <==> choice[p] == i)
    ensures forall i, j :: 0 <= i < j < |children[p]| ==>
      !(Activated(nodes, children, P, LodWant(choice))[children[p][i]].localActive
        && Activated(nodes, children, P, LodWant(choice))[children[p][j]].localActive)
    ensures !(0 <= choice[p] < |children[p]|) ==>
      forall i :: 0 <= i < |children[p]| ==> !Activated(nodes, children, P, LodWant(choice))[children[p][i]].localActive
  {
    forall i | 0 <= i < |children[p]|
      ensures children[p][i] in nodes
      ensures Activated(nodes, children, P, LodWant(choice))[children[p][i]].localActive <==> choice[p] == i
    {
      ActivatedAt(nodes, children, depth, sentinel, P, LodWant(choice), p, i);
    }
  }

  // ------------------------------------------------------------------
  // Drawable notifications

  datatype EventType = Added | Removed

  /** Event(index, node, type) as handed to the scene tree's listeners. */
  datatype Event = Event(index: int, node: ObjectTreeNode, eventType: EventType)

  /** One REMOVED event per drawable node of `order`, in that order, carrying the node's record. */
  function RemovedEvents(nodes: Nodes, order: seq<int>): seq<Event>
    requires forall i :: 0 <= i < |order| ==> order[i] in nodes
  {
    if order == [] then []
    else
      var last := order[|order| - 1];
      RemovedEvents(nodes, order[..|order| - 1])
        + (if nodes[last].isDrawable then [Event(last, nodes[last], Removed)] else [])
  }

  /**
   * The removal notifications are exactly one REMOVED event for each
   * drawable node visited, with that node's record, and no other.
   */
  lemma {:induction false} RemovedEventsExact(nodes: Nodes, order: seq<int>)
    requires Distinct(order) && forall i :: 0 <= i < |order| ==> order[i] in nodes
    ensures var ev := RemovedEvents(nodes, order);
      && (forall e :: e in ev ==>
            e.eventType == Removed && e.index in order && nodes[e.index].isDrawable && e.node == nodes[e.index])
      && (forall k :: k in order && nodes[k].isDrawable ==> exists e :: e in ev && e.index == k)
      && (forall i, j :: 0 <= i < j < |ev| ==> ev[i].index != ev[j].index)
    decreases |order|
  {
    if order != [] {
      var rest := order[..|order| - 1];
      var last := order[|order| - 1];
      assert forall i :: 0 <= i < |rest| ==> rest[i] in nodes;
      RemovedEventsExact(nodes, rest);
      var ev0 := RemovedEvents(nodes, rest);
      assert forall e :: e in ev0 ==> e.index in rest;
      assert last !in rest;
      forall k | k in order && nodes[k].isDrawable
        ensures exists e :: e in RemovedEvents(nodes, order) && e.index == k
      {
        if k != last {
          var j :| 0 <= j < |order| && order[j] == k;
          assert k in rest by { assert rest[j] == k; }
          var e :| e in ev0 && e.index == k;
          assert e in RemovedEvents(nodes, order);
        } else {
          assert Event(last, nodes[last], Removed) in RemovedEvents(nodes, order);
        }
      }
      forall e | e in RemovedEvents(nodes, order)
        ensures e.eventType == Removed && e.index in order && nodes[e.index].isDrawable && e.node == nodes[e.index]
      {
        if e in ev0 {
          var j :| 0 <= j < |rest| && rest[j] == e.index;
          assert order[j] == e.index;
        }
      }
    }
  }
}

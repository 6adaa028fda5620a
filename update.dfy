/**
 * The first step of SceneTree::updateObjectTree (dp/sg/xbar/src/SceneTree.cpp):
 * the hints and masks the object observer queued, the children of the
 * switches whose state changed, and the children of every LOD, each loop
 * marking dirty exactly the nodes it changes.
 *
 * The loops work on the values of the object tree and its dirty set; the
 * scene tree stores the result once they are over.
 */
module Update {
  import opened ObjectTree
  import opened Reconcile
  import opened SceneState

  /** A 4x4 matrix, carried but never computed on. */
  datatype Mat44 = Mat44(entries: seq<real>)

  /** What the reconciliation needs of the camera. */
  datatype Camera = Camera(worldToView: Mat44)

  /** LOD::getLODToUse(modelToView, lodRangeScale), given modelToWorld and worldToView. */
  type LodChooser = (SceneObject, Mat44, Mat44, real) -> int

  /** The ordinal each LOD node chooses, from the world matrix of its transform. */
  function LodChoices(nodes: Nodes, lods: map<int, SceneObject>, world: int -> Mat44, camera: Camera,
                      lodRangeScale: real, lodToUse: LodChooser): (r: map<int, int>)
    requires lods.Keys <= nodes.Keys
    ensures r.Keys == lods.Keys
  {
    map q | q in lods :: lodToUse(lods[q], world(nodes[q].transform), camera.worldToView, lodRangeScale)
  }

  /** The choices only look at the LOD nodes' transforms. */
  lemma LodChoicesSameTransforms(a: Nodes, b: Nodes, lods: map<int, SceneObject>, world: int -> Mat44, camera: Camera,
                                 lodRangeScale: real, lodToUse: LodChooser)
    requires lods.Keys <= a.Keys && lods.Keys <= b.Keys
    requires forall q :: q in lods ==> a[q].transform == b[q].transform
    ensures LodChoices(a, lods, world, camera, lodRangeScale, lodToUse)
         == LodChoices(b, lods, world, camera, lodRangeScale, lodToUse)
  {
    var ra := LodChoices(a, lods, world, camera, lodRangeScale, lodToUse);
    var rb := LodChoices(b, lods, world, camera, lodRangeScale, lodToUse);
    forall q | q in lods
      ensures ra[q] == rb[q]
    {
      assert a[q].transform == b[q].transform;
    }
  }

  /**
   * The first step of updateObjectTree: the drained hints and masks, then
   * the dirty switches' children, then every LOD's children.
   */
  ghost function Reconciled(nodes: Nodes, children: Children, cd: map<int, CacheData>,
                            dirtySwitches: set<int>, switchNodes: map<int, SceneObject>, isActive: (SceneObject, nat) -> bool,
                            lods: map<int, SceneObject>, choice: map<int, int>): Nodes
  {
    Activated(Activated(WithHints(nodes, cd), children, dirtySwitches, SwitchWant(switchNodes, isActive)),
              children, lods.Keys, LodWant(choice))
  }

  /** The nodes the first step marks dirty: the drained entries' and every child whose activation flipped. */
  ghost function ReconciledDirty(nodes: Nodes, children: Children, cd: map<int, CacheData>,
                                 dirtySwitches: set<int>, switchNodes: map<int, SceneObject>, isActive: (SceneObject, nat) -> bool,
                                 lods: map<int, SceneObject>, choice: map<int, int>): set<int>
  {
    var h := WithHints(nodes, cd);
    var sw := SwitchWant(switchNodes, isActive);
    cd.Keys + Flipped(h, children, dirtySwitches, sw) + Flipped(Activated(h, children, dirtySwitches, sw), children, lods.Keys, LodWant(choice))
  }

  /**
   * The hint/mask loop: each drained entry sets its node's hints and mask
   * and marks the node dirty; the tree keeps its shape.
   */
  method ApplyHints(nodes: Nodes, dirty: set<int>, cd: map<int, CacheData>) returns (n: Nodes, dt: set<int>)
    // the observer only queues entries for live nodes
    requires cd.Keys <= nodes.Keys
    ensures n == WithHints(nodes, cd) && dt == dirty + cd.Keys
  {
    n, dt := nodes, dirty;
    var rest := cd.Keys;
    ghost var done: set<int> := {};
    while rest != {}
      invariant rest <= cd.Keys && done == cd.Keys - rest
      invariant n.Keys == nodes.Keys && dt == dirty + done
      invariant forall k :: k in nodes ==> n[k] == HintedAt(nodes, cd, done, k)
      decreases |rest|
    {
      var k := Pick(rest);
      n := n[k := n[k].(localHints := cd[k].hints, localMask := cd[k].mask)];
      dt := dt + {k};
      done := done + {k};
      rest := rest - {k};
    }
    WithHintsPointwise(nodes, cd, n);
  }

  /** Some element of a nonempty set: the next key an iteration over the set visits. */
  method Pick(s: set<int>) returns (x: int)
    requires s != {}
    ensures x in s
  {
    if forall y :: y !in s {
      assert false;
    }
    x :| x in s;
  }

  /** Node k's record once the entries for the keys in `done` have been applied. */
  ghost function HintedAt(nodes: Nodes, cd: map<int, CacheData>, done: set<int>, k: int): ObjectTreeNode
    requires k in nodes && done <= cd.Keys
  {
    if k in done then nodes[k].(localHints := cd[k].hints, localMask := cd[k].mask) else nodes[k]
  }

  /** A tree whose every node carries its entry's hints and mask is WithHints. */
  lemma WithHintsPointwise(nodes: Nodes, cd: map<int, CacheData>, n: Nodes)
    requires cd.Keys <= nodes.Keys && n.Keys == nodes.Keys
    requires forall k :: k in nodes ==> n[k] == HintedAt(nodes, cd, cd.Keys, k)
    ensures n == WithHints(nodes, cd)
  {
    var w := WithHints(nodes, cd);
    assert w.Keys == nodes.Keys;
    forall k | k in nodes
      ensures n[k] == w[k]
    {
    }
  }

  /** Setting hints and masks changes no link, authored object or transform. */
  lemma WithHintsShape(nodes: Nodes, cd: map<int, CacheData>)
    ensures SameShape(nodes, WithHints(nodes, cd))
  {
    WithHintsEffect(nodes, cd);
  }

  /**
   * The sibling walk below one switch or LOD: the i-th child gets want(i),
   * and a child whose flag changes is marked dirty.
   */
  method ActivateChildren(nodes: Nodes, dirty: set<int>, ghost children: Children, ghost depth: Depths, ghost sentinel: int,
                          p: int, want: nat -> bool) returns (n: Nodes, dt: set<int>)
    requires WellFormed(nodes, children, depth, sentinel) && p in nodes
    ensures n == ActivatePrefix(nodes, p, children[p], want, |children[p]|)
    ensures dt == dirty + FlippedPrefix(nodes, children[p], want, |children[p]|)
  {
    ghost var kids := children[p];
    assert ChainSpells(nodes, p, kids);
    n, dt := nodes, dirty;
    var childIndex := nodes[p].firstChild;
    var i: nat := 0;
    assert n == ActivatePrefix(nodes, p, kids, want, 0);
    while childIndex != NIL
      invariant 0 <= i <= |kids|
      invariant childIndex == if i < |kids| then kids[i] else NIL
      invariant n == ActivatePrefix(nodes, p, kids, want, i)
      invariant dt == dirty + FlippedPrefix(nodes, kids, want, i)
      decreases |kids| - i
    {
      ChainNext(nodes, p, kids, i);
      ActivatePrefixStep(nodes, p, kids, want, i);
      var newActive := want(i);
      if n[childIndex].localActive != newActive {
        n := n[childIndex := n[childIndex].(localActive := newActive)];
        dt := dt + {childIndex};
      }
      childIndex := n[childIndex].nextSibling;
      i := i + 1;
    }
    if i < |kids| {
      ChainNext(nodes, p, kids, i);
      assert false;
    }
  }

  /**
   * The loop over a set of parents (the dirty switches, or every LOD):
   * each parent's children get the activation `want` asks for at their
   * position, and exactly the children whose flag changes are marked dirty.
   */
  method ResolveParents(nodes: Nodes, dirty: set<int>, ghost children: Children, ghost depth: Depths, ghost sentinel: int,
                        P: set<int>, want: Want) returns (n: Nodes, dt: set<int>)
    requires WellFormed(nodes, children, depth, sentinel) && P <= nodes.Keys
    ensures n == Activated(nodes, children, P, want)
    ensures dt == dirty + Flipped(nodes, children, P, want)
  {
    n, dt := nodes, dirty;
    var rest := P;
    ghost var done: set<int> := {};
    assert n == Activated(nodes, children, {}, want);
    assert Flipped(nodes, children, {}, want) == {};
    while rest != {}
      invariant rest <= P && done == P - rest
      invariant n == Activated(nodes, children, done, want)
      invariant dt == dirty + Flipped(nodes, children, done, want)
      decreases |rest|
    {
      var s := Pick(rest);
      var wantHere := (i: nat) => want(s, i);
      ResolveStep(nodes, children, depth, sentinel, done, s, want, wantHere, dirty);
      n, dt := ActivateChildren(n, dt, children, depth, sentinel, s, wantHere);
      MoveOne(P, done, rest, s);
      done := done + {s};
      rest := rest - {s};
    }
    MoveOne(P, done, rest, NIL);
  }

  /** Moving an element from the rest to the done part of a set keeps the split; with no rest, done is all. */
  lemma MoveOne(P: set<int>, done: set<int>, rest: set<int>, s: int)
    requires rest <= P && done == P - rest
    ensures s in rest ==> rest - {s} <= P && done + {s} == P - (rest - {s})
    ensures rest == {} ==> done == P
  {
  }

  /**
   * One round of the loop over parents: walking parent s's children after
   * the parents in `done` is activating the children of done + {s}, and
   * the children it marks are the ones whose flag changes.
   */
  lemma ResolveStep(nodes: Nodes, children: Children, depth: Depths, sentinel: int,
                    done: set<int>, s: int, W: Want, want: nat -> bool, dirty: set<int>)
    requires WellFormed(nodes, children, depth, sentinel) && s in nodes && s !in done
    requires forall i: nat :: want(i) == W(s, i)
    ensures var n0 := Activated(nodes, children, done, W);
      && WellFormed(n0, children, depth, sentinel) && s in n0
      && ActivatePrefix(n0, s, children[s], want, |children[s]|) == Activated(nodes, children, done + {s}, W)
      && dirty + Flipped(nodes, children, done, W) + FlippedPrefix(n0, children[s], want, |children[s]|)
         == dirty + Flipped(nodes, children, done + {s}, W)
  {
    var n0 := Activated(nodes, children, done, W);
    ActivatedStep(nodes, children, done, s, W);
    SameLinksWellFormed(nodes, n0, children, depth, sentinel);
    ActivatePrefixComplete(n0, children, depth, sentinel, s, want, W);
  }

  /**
   * The first step of updateObjectTree on the values of the object tree:
   * the hint/mask loop, the loop over the dirty switches and the loop over
   * the LODs, whose ordinals come from the transforms' world matrices.
   */
  method ReconcileNodes(nodes: Nodes, dirty: set<int>, ghost children: Children, ghost depth: Depths, ghost sentinel: int,
                        cd: map<int, CacheData>, dirtySwitches: set<int>, switchNodes: map<int, SceneObject>,
                        isActive: (SceneObject, nat) -> bool, lods: map<int, SceneObject>,
                        world: int -> Mat44, camera: Camera, lodRangeScale: real, lodToUse: LodChooser)
    returns (n: Nodes, dt: set<int>)
    requires WellFormed(nodes, children, depth, sentinel)
    requires cd.Keys <= nodes.Keys && dirtySwitches <= nodes.Keys && lods.Keys <= nodes.Keys
    ensures SameShape(nodes, n)
    ensures n == Reconciled(nodes, children, cd, dirtySwitches, switchNodes, isActive, lods,
                            LodChoices(nodes, lods, world, camera, lodRangeScale, lodToUse))
    ensures dt == dirty + ReconciledDirty(nodes, children, cd, dirtySwitches, switchNodes, isActive, lods,
                                          LodChoices(nodes, lods, world, camera, lodRangeScale, lodToUse))
  {
    var sw := SwitchWant(switchNodes, isActive);
    ReconciledSteps(nodes, children, depth, sentinel, dirty, cd, dirtySwitches, switchNodes, isActive, lods,
                    world, camera, lodRangeScale, lodToUse);
    n, dt := ApplyHints(nodes, dirty, cd);
    n, dt := ResolveParents(n, dt, children, depth, sentinel, dirtySwitches, sw);
    var choice := LodChoices(n, lods, world, camera, lodRangeScale, lodToUse);
    n, dt := ResolveParents(n, dt, children, depth, sentinel, lods.Keys, LodWant(choice));
  }

  /**
   * The three loops in sequence compute Reconciled and ReconciledDirty:
   * each loop starts from a well-formed tree, and the LOD choices read from
   * the tree after the switch loop are those of the original tree.
   */
  lemma ReconciledSteps(nodes: Nodes, children: Children, depth: Depths, sentinel: int, dirty: set<int>,
                        cd: map<int, CacheData>, dirtySwitches: set<int>, switchNodes: map<int, SceneObject>,
                        isActive: (SceneObject, nat) -> bool, lods: map<int, SceneObject>,
                        world: int -> Mat44, camera: Camera, lodRangeScale: real, lodToUse: LodChooser)
    requires WellFormed(nodes, children, depth, sentinel)
    requires cd.Keys <= nodes.Keys && dirtySwitches <= nodes.Keys && lods.Keys <= nodes.Keys
    ensures var sw := SwitchWant(switchNodes, isActive);
      var h := WithHints(nodes, cd);
      var a := Activated(h, children, dirtySwitches, sw);
      && WellFormed(h, children, depth, sentinel) && WellFormed(a, children, depth, sentinel)
      && h.Keys == nodes.Keys && a.Keys == nodes.Keys
      && var choice := LodChoices(a, lods, world, camera, lodRangeScale, lodToUse);
      && choice == LodChoices(nodes, lods, world, camera, lodRangeScale, lodToUse)
      && var r := Activated(a, children, lods.Keys, LodWant(choice));
      && SameShape(nodes, r)
      && dirty + cd.Keys + Flipped(h, children, dirtySwitches, sw) + Flipped(a, children, lods.Keys, LodWant(choice))
         == dirty + ReconciledDirty(nodes, children, cd, dirtySwitches, switchNodes, isActive, lods, choice)
  {
    var sw := SwitchWant(switchNodes, isActive);
    var h := WithHints(nodes, cd);
    var a := Activated(h, children, dirtySwitches, sw);
    var choice0 := LodChoices(nodes, lods, world, camera, lodRangeScale, lodToUse);
    ReconciledShape(nodes, children, depth, sentinel, cd, dirtySwitches, sw, lods.Keys, LodWant(choice0));
    LodChoicesSameTransforms(nodes, a, lods, world, camera, lodRangeScale, lodToUse);
    UnionRegroup(dirty, cd.Keys, Flipped(h, children, dirtySwitches, sw), Flipped(a, children, lods.Keys, LodWant(choice0)));
  }

  lemma UnionRegroup(a: set<int>, b: set<int>, c: set<int>, d: set<int>)
    ensures a + b + c + d == a + (b + c + d)
  {
  }

  /**
   * The three loops of the first step keep the tree's shape: every
   * intermediate tree is well formed, and the final one has the links,
   * authored objects and transforms of the original.
   */
  lemma ReconciledShape(nodes: Nodes, children: Children, depth: Depths, sentinel: int, cd: map<int, CacheData>,
                        P1: set<int>, w1: Want, P2: set<int>, w2: Want)
    requires WellFormed(nodes, children, depth, sentinel)
    ensures var h := WithHints(nodes, cd);
      var a := Activated(h, children, P1, w1);
      && WellFormed(h, children, depth, sentinel) && WellFormed(a, children, depth, sentinel)
      && SameShape(nodes, a) && SameShape(nodes, Activated(a, children, P2, w2))
  {
    var h := WithHints(nodes, cd);
    var a := Activated(h, children, P1, w1);
    WithHintsShape(nodes, cd);
    SameLinksWellFormed(nodes, h, children, depth, sentinel);
    ActivatedShape(h, children, P1, w1);
    SameShapeTrans(nodes, h, a);
    SameLinksWellFormed(nodes, a, children, depth, sentinel);
    ActivatedShape(a, children, P2, w2);
    SameShapeTrans(nodes, a, Activated(a, children, P2, w2));
  }

  /** Having the same shape is transitive. */
  lemma SameShapeTrans(a: Nodes, b: Nodes, c: Nodes)
    requires SameShape(a, b) && SameShape(b, c)
    ensures SameShape(a, c)
  {
  }

  /** Activation changes flags only: the tree keeps its shape. */
  lemma ActivatedShape(nodes: Nodes, children: Children, P: set<int>, want: Want)
    ensures SameShape(nodes, Activated(nodes, children, P, want))
  {
    var r := Activated(nodes, children, P, want);
    assert forall k :: k in nodes ==> r[k] == nodes[k] || r[k] == nodes[k].(localActive := r[k].localActive);
  }
}

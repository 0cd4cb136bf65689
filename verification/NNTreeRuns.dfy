/**
 * What holds over every run of insert and remove from an empty tree, and what does not: an upper limit
 * that an insertion of libqpdf/NNTree.cc leaves behind, and iterators for missing keys that are equal to
 * the end but cannot be moved from there.
 */
module NNTreeRuns {
  import opened Wrappers
  import opened NNTreeModel
  import opened NNTreeLimits
  import opened NNTreeSplit
  import opened NNTreeInvariant
  import opened NNTreeContents
  import opened NNTree
  import opened NNTreeTight

  datatype Operation = Set(key: int, value: int) | Delete(key: int)

  // The same operations on a map.
  function Effect(ops: seq<Operation>): map<int, int> {
    if ops == [] then map[] else EffectOf(ops[|ops| - 1], Effect(ops[..|ops| - 1]))
  }

  function EffectOf(op: Operation, m: map<int, int>): map<int, int> {
    match op
    case Set(k, v) => m[k := v]
    case Delete(k) => m - {k}
  }

  lemma {:induction false} EffectNext(ops: seq<Operation>, i: nat)
    requires i < |ops|
    ensures Effect(ops[..i + 1]) == EffectOf(ops[i], Effect(ops[..i]))
  {
    assert ops[..i + 1][..i] == ops[..i];
  }

  // The operation inserts a new pair and leaves an upper limit behind.
  ghost predicate Lags(op: Operation, t: Tree, threshold: nat) {
    && op.Set?
    && var s := InsertSorted(Flat(t), op.key, op.value);
       && |s| != |Flat(t)|
       && exists k :: 0 <= k < |s| && s[k].key == op.key && InsertLags(t, k, threshold)
  }

  method Step(t: NNTreeImpl, op: Operation)
    requires t.Valid()
    modifies t
    ensures t.Valid()
    ensures MapOf(t.Contents()) == EffectOf(op, MapOf(old(t.Contents())))
    ensures old(t.Tight()) && !Lags(op, old(t.tree), t.splitThreshold) ==> t.Tight()
  {
    ghost var s := t.Contents();
    assert Sorted(s);
    hide t.Valid, t.Tight, Sorted, MapOf, InsertLags, InsertSorted;
    match op {
      case Set(k, v) =>
        InsertSortedIsMapUpdate(s, k, v);
        var _ := t.Insert(k, v);
      case Delete(k) =>
        RemoveKeyIsMapRemoval(s, k);
        var _, _ := t.RemoveEntry(k);
    }
  }

  // The trees before each of the first operations.
  ghost predicate Traced(ops: seq<Operation>, trees: seq<Tree>) {
    |trees| <= |ops| && forall i :: 0 <= i < |trees| ==> MapOf(Flat(trees[i])) == Effect(ops[..i])
  }

  ghost predicate NoneLags(ops: seq<Operation>, trees: seq<Tree>, threshold: nat) {
    |trees| <= |ops| && forall i :: 0 <= i < |trees| ==> !Lags(ops[i], trees[i], threshold)
  }

  lemma {:induction false} TraceNext(ops: seq<Operation>, trees: seq<Tree>, t: Tree, threshold: nat)
    requires Traced(ops, trees) && |trees| < |ops| && MapOf(Flat(t)) == Effect(ops[..|trees|])
    ensures Traced(ops, trees + [t])
    ensures NoneLags(ops, trees + [t], threshold) <==>
              NoneLags(ops, trees, threshold) && !Lags(ops[|trees|], t, threshold)
  {
    hide Lags, MapOf, Effect;
    var more := trees + [t];
    assert more[|trees|] == t && forall i :: 0 <= i < |trees| ==> more[i] == trees[i];
  }

  method Run(ops: seq<Operation>, splitThreshold: nat)
    returns (t: NNTreeImpl, listing: seq<Pair>, ghost trees: seq<Tree>)
    requires splitThreshold >= 3
    ensures fresh(t) && t.Valid() && t.splitThreshold == splitThreshold
    ensures listing == t.Contents() && Sorted(listing) && MapOf(listing) == Effect(ops)
    ensures |trees| == |ops| && Traced(ops, trees) && (NoneLags(ops, trees, splitThreshold) ==> t.Tight())
  {
    hide Effect, EffectOf, MapOf, Lags, Sorted, Good, TightRoot, Traced, NoneLags, Flat;
    t := new NNTreeImpl.NewEmpty(map[], 1, splitThreshold);
    trees := [];
    NoneYet(ops, splitThreshold);
    for i := 0 to |ops|
      invariant fresh(t) && t.Valid() && t.splitThreshold == splitThreshold
      invariant MapOf(t.Contents()) == Effect(ops[..i])
      invariant |trees| == i && Traced(ops, trees) && (NoneLags(ops, trees, splitThreshold) ==> t.Tight())
    {
      EffectNext(ops, i);
      TraceNext(ops, trees, t.tree, splitThreshold);
      trees := trees + [t.tree];
      Step(t, ops[i]);
    }
    assert ops[..|ops|] == ops;
    SortedListing(t);
    var m;
    listing, m := t.GetAsMap();
  }

  lemma {:induction false} NoneYet(ops: seq<Operation>, threshold: nat)
    ensures MapOf([]) == Effect(ops[..0]) && Traced(ops, []) && NoneLags(ops, [], threshold)
  {
  }

  lemma SortedListing(t: NNTreeImpl)
    requires t.Valid()
    ensures Sorted(t.Contents())
  {
  }

  // Two runs with the same effect give the same listing, whatever their order of operations and their
  // thresholds make of the trees.
  method RunBoth(ops: seq<Operation>, ops': seq<Operation>, threshold: nat, threshold': nat)
    returns (listing: seq<Pair>, listing': seq<Pair>)
    requires threshold >= 3 && threshold' >= 3
    ensures listing == listing' <==> Effect(ops) == Effect(ops')
  {
    var _, s, _ := Run(ops, threshold);
    var _, s', _ := Run(ops', threshold');
    listing, listing' := s, s';
    if Effect(ops) == Effect(ops') {
      SortedUnique(listing, listing');
    }
  }

  function Height(t: Tree): nat {
    match t
    case Leaf(_, _) => 0
    case Inner(_, kids) => if kids == [] then 0 else 1 + Height(kids[0])
  }

  lemma {:induction false} HeightIs(t: Tree, d: nat, threshold: nat)
    requires NodeOk(t, d, threshold)
    ensures Height(t) == d
  {
    if t.Inner? {
      HeightIs(t.kids[0], d - 1, threshold);
    }
  }

  // The invariant, read off at any node of a tree that is not empty.
  lemma {:induction false} WellFormed(h: Heap, next: Id, root: Id, threshold: nat, c: Ctx, t: Tree)
    requires Good(h, next, root, threshold, Plug(c, t)) && Flat(Plug(c, t)) != []
    ensures 1 <= Size(t) <= threshold
    ensures t.Leaf? ==> DepthOf(c) == Height(Plug(c, t))
    ensures Flat(t) != [] && Sorted(Before(c) + Flat(t) + After(c))
    ensures t.id in h && (c.Top? ==> h[t.id].limits == None)
    ensures c.Down? ==>
      && h[t.id].limits.Some?
      && h[t.id].limits.value.lo == Flat(t)[0].key
      && Flat(t)[0].key <= h[t.id].limits.value.hi <= Flat(t)[|Flat(t)| - 1].key
  {
    hide Distinct, Ids, IdsCtx;
    var d := GoodOpens(h, next, root, threshold, c, t);
    NonEmpty(t, d, threshold);
    OkPlug(c, t, d, threshold);
    HeightIs(Plug(c, t), d + DepthOf(c), threshold);
    HeightIs(t, d, threshold);
    if c.Down? {
      LimBounds(h, t, d, threshold);
    }
  }

  // ---------------------------------------------------------------- an upper limit left behind

  // The root 0 has 1 as its only kid, 1 has 2, and 2 has the full leaf 3.
  const TIGHT_DOCUMENT: Heap := map[
    0 := Node(None, None, Some([1])),
    1 := Node(Some(Limits(1, 3)), None, Some([2])),
    2 := Node(Some(Limits(1, 3)), None, Some([3])),
    3 := Node(Some(Limits(1, 3)), Some([Pair(1, 0), Pair(2, 0), Pair(3, 0)]), None)
  ]

  const FULL_LEAF := Leaf(3, [Pair(1, 0), Pair(2, 0), Pair(3, 0)])
  const AROUND_LEAF := Down(Down(Down(Top, 0, [], []), 1, [], []), 2, [], [])
  const THIN_TREE := Inner(0, [Inner(1, [Inner(2, [FULL_LEAF])])])

  lemma ThinListing()
    ensures Flat(THIN_TREE) == FULL_LEAF.items && Plug(AROUND_LEAF, FULL_LEAF) == THIN_TREE && Before(AROUND_LEAF) == []
  {
    var t2 := Inner(2, [FULL_LEAF]);
    var t1 := Inner(1, [t2]);
    FlatAllSingle(FULL_LEAF);
    FlatAllSingle(t2);
    FlatAllSingle(t1);
    assert [] + [FULL_LEAF] + [] == [FULL_LEAF] && [] + [t2] + [] == [t2] && [] + [t1] + [] == [t1];
    assert Plug(Down(Top, 0, [], []), t1) == THIN_TREE;
    assert Plug(Down(Down(Top, 0, [], []), 1, [], []), t2) == THIN_TREE;
  }

  lemma ThinIds()
    ensures Ids(THIN_TREE) == multiset{0, 1, 2, 3}
  {
    var t2 := Inner(2, [FULL_LEAF]);
    var t1 := Inner(1, [t2]);
    OnlyIds(FULL_LEAF);
    OnlyIds(t2);
    OnlyIds(t1);
    hide IdsAll;
    assert Ids(t2) == multiset{2, 3} && Ids(t1) == multiset{1, 2, 3};
  }

  lemma OnlyIds(t: Tree)
    ensures IdsAll([t]) == Ids(t)
  {
    hide Ids;
    assert [t][1..] == [];
  }

  lemma ThinHolds()
    ensures Holds(TIGHT_DOCUMENT, THIN_TREE)
  {
    var h := TIGHT_DOCUMENT;
    assert Holds(h, FULL_LEAF);
    assert Holds(h, Inner(2, [FULL_LEAF])) by {
      assert IdsOf([FULL_LEAF]) == [3];
    }
    assert Holds(h, Inner(1, [Inner(2, [FULL_LEAF])])) by {
      assert IdsOf([Inner(2, [FULL_LEAF])]) == [2];
    }
    assert IdsOf([Inner(1, [Inner(2, [FULL_LEAF])])]) == [1];
  }

  lemma ThinLimits()
    ensures LimRoot(TIGHT_DOCUMENT, THIN_TREE) && TightRoot(TIGHT_DOCUMENT, THIN_TREE)
  {
    var h, t2 := TIGHT_DOCUMENT, Inner(2, [FULL_LEAF]);
    var t1 := Inner(1, [t2]);
    assert LimAt(h, 3) && LimAt(h, 2) && LimAt(h, 1) && TightAt(h, 3) && TightAt(h, 2) && TightAt(h, 1);
    assert LimTree(h, FULL_LEAF) && TightTree(h, FULL_LEAF);
    assert LimTree(h, t2) && TightTree(h, t2);
    assert LimTree(h, t1) && TightTree(h, t1);
  }

  lemma ThinOk()
    ensures NodeOk(THIN_TREE, 3, 3)
  {
    var t2 := Inner(2, [FULL_LEAF]);
    assert NodeOk(FULL_LEAF, 0, 3);
    assert NodeOk(t2, 1, 3);
    assert NodeOk(Inner(1, [t2]), 2, 3);
  }

  lemma ThinGood()
    ensures Good(TIGHT_DOCUMENT, 4, 0, 3, THIN_TREE)
  {
    ThinListing();
    ThinIds();
    ThinHolds();
    ThinLimits();
    ThinOk();
    hide Holds, LimRoot, NodeOk, Ids, Flat;
  }

  // A good tree with exact limits that the insertion of one pair leaves with an upper limit too small.
  method InsertBehind() returns (t: NNTreeImpl)
    ensures Good(TIGHT_DOCUMENT, 4, 0, 3, THIN_TREE) && TightRoot(TIGHT_DOCUMENT, THIN_TREE)
    ensures InsertLags(THIN_TREE, 3, 3)
    ensures t.Valid() && !t.Tight() && t.Contents() == Flat(THIN_TREE) + [Pair(4, 0)]
  {
    hide Good, TightRoot, InsertLags, Flat, InsertSorted;
    ThinReady();
    t := new NNTreeImpl.Existing(TIGHT_DOCUMENT, 4, 0, 3, THIN_TREE);
    assert t.Tight() && t.Contents() == FULL_LEAF.items;
    var it := t.Insert(4, 0);
    assert t.Contents() == FULL_LEAF.items + [Pair(4, 0)];
  }

  lemma ThinReady()
    ensures Good(TIGHT_DOCUMENT, 4, 0, 3, THIN_TREE) && TightRoot(TIGHT_DOCUMENT, THIN_TREE)
    ensures InsertLags(THIN_TREE, 3, 3)
    ensures Flat(THIN_TREE) == FULL_LEAF.items && InsertSorted(FULL_LEAF.items, 4, 0) == FULL_LEAF.items + [Pair(4, 0)]
  {
    ThinGood();
    ThinListing();
    ThinLimits();
    InsertsFourth();
    hide Good, TightRoot, Flat, InsertSorted;
    assert TakesIn(THIN_TREE, AROUND_LEAF, FULL_LEAF, 3);
    assert LeavesLag(AROUND_LEAF, 4, 3);
  }

  lemma InsertsFourth()
    ensures InsertSorted(FULL_LEAF.items, 4, 0) == FULL_LEAF.items + [Pair(4, 0)]
  {
    var items := FULL_LEAF.items;
    InsertSortedAt(items, 4, 0, 2);
    assert PutIn(items, 3, Pair(4, 0)) == items + [Pair(4, 0)];
  }

  // ---------------------------------------------------------------- iterators for missing keys

  lemma RootKids(t: NNTreeImpl)
    requires t.Valid()
    ensures t.tree.Leaf? <==> t.KidsOf(t.treeRoot) == []
  {
    NodeFacts(t.objects, t.nextId, t.treeRoot, t.splitThreshold, Top, t.tree);
  }

  // Find a key that is not there and move on: the iterator was equal to the end, but it comes to an item
  // only if the root is a leaf or the key is before all others.
  method NextOfMissing(t: NNTreeImpl, key: int, backward: bool) returns (it: NNTreeIterator, isEnd: bool)
    requires t.Valid() && key !in MapOf(t.Contents())
    ensures fresh(it) && it.impl == t && isEnd
    ensures var s := t.Contents();
            && (it.IsValid() <==> s != [] && (t.KidsOf(t.treeRoot) == [] || key < s[0].key))
            && (it.IsValid() ==> it.Points() && it.Rank() == if backward then |s| - 1 else 0)
            && (!it.IsValid() ==> if s == [] then it.AtEnd() else it.StoppedFor(key))
  {
    RootKids(t);
    MapOfKeys(t.Contents(), key);
    hide t.Valid, MapOf;
    it := t.Find(key, false);
    var end := t.End();
    isEnd := it.Equals(end);
    it.Increment(backward);
  }

  // Find a key that is not there and insert after it: the pair comes first, but the iterator denotes it
  // only in the same cases.
  method InsertAtMissing(t: NNTreeImpl, missing: int, key: int, value: int) returns (it: NNTreeIterator)
    requires t.Valid() && missing !in MapOf(t.Contents()) && Sorted([Pair(key, value)] + t.Contents())
    modifies t
    ensures t.Valid() && t.Contents() == [Pair(key, value)] + old(t.Contents()) && fresh(it) && it.impl == t
    ensures var s := old(t.Contents());
            it.IsValid() <==> s == [] || old(t.KidsOf(t.treeRoot)) == [] || missing < s[0].key
    ensures it.IsValid() ==> it.Points() && it.Rank() == 0
  {
    RootKids(t);
    MapOfKeys(t.Contents(), missing);
    assert PutIn(t.Contents(), 0, Pair(key, value)) == [Pair(key, value)] + t.Contents();
    hide t.Valid, MapOf, Sorted;
    it := t.Find(missing, false);
    it.InsertAfter(key, value);
  }

  // A tree with items in which the iterator for a key that is not there cannot be moved.
  method MissingStays() returns (t: NNTreeImpl, it: NNTreeIterator, isEnd: bool)
    ensures t.Valid() && t.Contents() == [Pair(1, 0), Pair(2, 0), Pair(3, 0)] && t.KidsOf(t.treeRoot) == [1]
    ensures it.impl == t && isEnd && !it.IsValid() && it.StoppedFor(5)
  {
    ThinReady();
    hide Good, Flat;
    t := new NNTreeImpl.Existing(TIGHT_DOCUMENT, 4, 0, 3, THIN_TREE);
    MapOfKeys(t.Contents(), 5);
    it, isEnd := NextOfMissing(t, 5, false);
  }
}

/**
 * One level of NNTreeIterator::split in libqpdf/NNTree.cc: a node that is over the threshold gives
 * the second half of its items or kids to a new node, which its parent takes in next to it.
 */
module NNTreeSplit {
  import opened Wrappers
  import opened NNTreeModel
  import opened NNTreeLimits

  // Where a flat array of n elements is cut: (n / 2) & ~1.
  function StartIdx(n: nat): (r: nat)
    ensures r % 2 == 0 && n >= 4 ==> 2 <= r < n
  {
    n / 2 - (n / 2) % 2
  }

  // The number of pairs or kids the first half keeps. Pairs take two elements of the items array.
  function Cut(t: Tree): nat {
    match t
    case Leaf(_, items) => StartIdx(2 * |items|) / 2
    case Inner(_, kids) => StartIdx(|kids|)
  }

  function Size(t: Tree): nat {
    match t
    case Leaf(_, items) => |items|
    case Inner(_, kids) => |kids|
  }

  lemma CutBounds(t: Tree)
    requires Size(t) >= 4
    ensures 2 <= Cut(t) <= Size(t) - 2
  {
  }

  function FirstHalf(t: Tree): Tree
    requires Size(t) >= 4
  {
    CutBounds(t);
    match t
    case Leaf(id, items) => Leaf(id, items[..Cut(t)])
    case Inner(id, kids) => Inner(id, kids[..Cut(t)])
  }

  function SecondHalf(t: Tree, id: Id): Tree
    requires Size(t) >= 4
  {
    CutBounds(t);
    match t
    case Leaf(_, items) => Leaf(id, items[Cut(t)..])
    case Inner(_, kids) => Inner(id, kids[Cut(t)..])
  }

  predicate Even(n: nat) {
    n % 2 == 0
  }

  // Nearly half stays: of a leaf at most one pair less than half, of other nodes an even number of kids and
  // at most three less than go.
  lemma HalvesEven(t: Tree, id: Id)
    requires Size(t) >= 4
    ensures var a, b := Size(FirstHalf(t)), Size(SecondHalf(t, id));
            && a + b == Size(t) && a <= b <= a + (if t.Leaf? then 1 else 3) && (t.Inner? ==> Even(a))
            && FirstHalf(t).id == t.id && Flat(t) == Flat(FirstHalf(t)) + Flat(SecondHalf(t, id))
  {
    hide Flat, StartIdx, Cut, Even;
    HalvesFlat(t, id);
    HalfSizes(t, id);
    var q := CutIs(t);
    hide FirstHalf, SecondHalf;
  }

  lemma HalfSizes(t: Tree, id: Id)
    requires Size(t) >= 4
    ensures Size(FirstHalf(t)) == Cut(t) <= Size(t) && Size(SecondHalf(t, id)) == Size(t) - Cut(t)
    ensures FirstHalf(t).id == t.id
  {
    CutBounds(t);
    hide Cut;
  }

  lemma CutIs(t: Tree) returns (q: nat)
    ensures t.Leaf? ==> Cut(t) == q && 2 * q <= Size(t) <= 2 * q + 1
    ensures t.Inner? ==> Cut(t) == 2 * q && 4 * q <= Size(t) <= 4 * q + 3 && Even(Cut(t))
  {
    hide StartIdx;
    q := CutAt(if t.Leaf? then 2 * Size(t) else Size(t));
  }

  lemma CutAt(n: nat) returns (q: nat)
    ensures StartIdx(n) == 2 * q && 4 * q <= n <= 4 * q + 3
  {
    q := n / 2 / 2;
  }

  lemma HalvesFlat(t: Tree, id: Id)
    requires Size(t) >= 4
    ensures Flat(t) == Flat(FirstHalf(t)) + Flat(SecondHalf(t, id))
  {
    CutBounds(t);
    match t
    case Leaf(_, items) =>
    case Inner(_, kids) =>
      FlatAllAppend(kids[..Cut(t)], kids[Cut(t)..]);
      assert kids == kids[..Cut(t)] + kids[Cut(t)..];
  }

  lemma HalvesIds(t: Tree, id: Id)
    requires Size(t) >= 4
    ensures Ids(FirstHalf(t)) + Ids(SecondHalf(t, id)) == Ids(t) + multiset{id}
    ensures Ids(FirstHalf(t)) <= Ids(t)
  {
    CutBounds(t);
    match t
    case Leaf(_, items) =>
    case Inner(_, kids) =>
      var a, b := kids[..Cut(t)], kids[Cut(t)..];
      IdsAllAppend(a, b);
      assert kids == a + b;
      var ma, mb := IdsAll(a), IdsAll(b);
      assert (multiset{t.id} + ma) + (multiset{id} + mb) == multiset{t.id} + (ma + mb) + multiset{id};
  }

  lemma HalvesOk(t: Tree, id: Id, d: nat, threshold: nat)
    requires Size(t) >= 4 && Fullish(t, d, threshold)
    ensures NodeOk(FirstHalf(t), d, threshold) && NodeOk(SecondHalf(t, id), d, threshold)
    ensures NodeOk(t, d, threshold + 1)
  {
    CutBounds(t);
    if t.Inner? {
      var a, b := t.kids[..Cut(t)], t.kids[Cut(t)..];
      forall i | 0 <= i < |b|
        ensures NodeOk(b[i], d - 1, threshold)
      {
        assert b[i] == t.kids[Cut(t) + i];
      }
      AllLarger(t.kids, d - 1, threshold);
    }
  }

  lemma {:induction false} Larger(t: Tree, d: nat, threshold: nat)
    requires NodeOk(t, d, threshold)
    ensures NodeOk(t, d, threshold + 1)
    decreases t, 1
  {
    if t.Inner? {
      AllLarger(t.kids, d - 1, threshold);
    }
  }

  lemma {:induction false} AllLarger(ts: seq<Tree>, d: nat, threshold: nat)
    requires AllOk(ts, d, threshold)
    ensures AllOk(ts, d, threshold + 1)
    decreases ts, 0
  {
    forall i | 0 <= i < |ts|
      ensures NodeOk(ts[i], d, threshold + 1)
    {
      Larger(ts[i], d, threshold);
    }
  }

  lemma {:induction false} CtxLarger(c: Ctx, d: nat, threshold: nat)
    requires CtxOk(c, d, threshold)
    ensures CtxOk(c, d, threshold + 1)
  {
    if c.Down? {
      AllLarger(c.left, d, threshold);
      AllLarger(c.right, d, threshold);
      CtxLarger(c.up, d + 1, threshold);
    }
  }

  // The record of a tree's own node.
  function Record(t: Tree, limits: Option<Limits>): Node {
    match t
    case Leaf(_, items) => Node(limits, Some(items), None)
    case Inner(_, kids) => Node(limits, None, Some(IdsOf(kids)))
  }

  // The parent after it has taken in the new node next to the old one.
  function Parent(c: Ctx, t: Tree, id: Id): Tree
    requires c.Down? && Size(t) >= 4
  {
    Inner(c.id, c.left + [FirstHalf(t), SecondHalf(t, id)] + c.right)
  }

  // The document at the points of split that its comments mark.
  ghost function Truncated(h: Heap, t: Tree): Heap
    requires Size(t) >= 4 && t.id in h
  {
    h[t.id := Record(FirstHalf(t), h[t.id].limits)]
  }

  ghost function WithNew(h: Heap, t: Tree, id: Id): Heap
    requires Size(t) >= 4
  {
    h[id := Record(SecondHalf(t, id), None)]
  }

  ghost function Attached(h: Heap, c: Ctx, t: Tree, id: Id): Heap
    requires c.Down? && Size(t) >= 4 && c.id in h
  {
    h[c.id := h[c.id].(kids := Some(IdsOf(Parent(c, t, id).kids)))]
  }

  lemma SortedDrop(a: seq<Pair>, b: seq<Pair>, x: seq<Pair>, z: seq<Pair>)
    requires Sorted(a + (b + x) + z)
    ensures Sorted(a + b + z) && Sorted(x)
    ensures |b| > 0 && |x| > 0 ==> b[|b| - 1].key < x[0].key
  {
    var s, r := a + (b + x) + z, a + b + z;
    var n, k := |a| + |b|, |x|;
    assert forall i :: 0 <= i < n ==> s[i] == r[i];
    assert forall i :: n <= i < |r| ==> s[i + k] == r[i];
    forall i, j | 0 <= i < j < |r|
      ensures r[i].key < r[j].key
    {
      var i', j' := if i < n then i else i + k, if j < n then j else j + k;
      assert s[i'] == r[i] && s[j'] == r[j];
    }
    assert s == (a + b) + x + z;
    SortedPart(a + b, x, z);
    if |b| > 0 && |x| > 0 {
      assert (a + b)[|a + b| - 1] == b[|b| - 1];
    }
  }

  // What splitting t does to sizes, order and sharing, seen from both halves.
  lemma HalvesFit(c: Ctx, t: Tree, id: Id, d: nat, threshold: nat)
    requires Size(t) >= 4 && Fullish(t, d, threshold) && CtxOk(c, d, threshold)
    requires Fits(c, t, d, threshold + 1)
    requires id !in IdsCtx(c) && id !in Ids(t)
    ensures Fits(c, FirstHalf(t), d, threshold + 1)
    ensures Fits(Top, SecondHalf(t, id), d, threshold + 1)
    ensures Apart(Ids(SecondHalf(t, id)), IdsCtx(c) + Ids(FirstHalf(t)))
    ensures var a, b := Flat(FirstHalf(t)), Flat(SecondHalf(t, id)); |a| > 0 && |b| > 0 && a[|a| - 1].key < b[0].key
  {
    assert CtxOk(Top, d, threshold + 1);
    hide Distinct, IdsCtx, Ids, Sorted, CtxOk, Apart, Flat, Before, After, Fullish, NodeOk, FirstHalf, SecondHalf;
    CtxLarger(c, d, threshold);
    HalvesNodes(t, id, d, threshold);
    HalvesOrder(Before(c), t, id, After(c));
    NothingAround(Flat(SecondHalf(t, id)));
    HalvesBags(c, t, id);
  }

  lemma HalvesNodes(t: Tree, id: Id, d: nat, threshold: nat)
    requires Size(t) >= 4 && Fullish(t, d, threshold)
    ensures var a, b := FirstHalf(t), SecondHalf(t, id);
            && NodeOk(a, d, threshold + 1) && NodeOk(b, d, threshold + 1) && |Flat(a)| > 0 && |Flat(b)| > 0
  {
    hide Fullish, NodeOk, Flat;
    var a, b := FirstHalf(t), SecondHalf(t, id);
    HalvesOk(t, id, d, threshold);
    Larger(a, d, threshold);
    Larger(b, d, threshold);
    NonEmpty(a, d, threshold);
    NonEmpty(b, d, threshold);
  }

  lemma HalvesOrder(u: seq<Pair>, t: Tree, id: Id, z: seq<Pair>)
    requires Size(t) >= 4 && Sorted(u + Flat(t) + z)
    ensures var a, b := Flat(FirstHalf(t)), Flat(SecondHalf(t, id));
            && Sorted(u + a + z) && Sorted(b)
            && (|a| > 0 && |b| > 0 ==> a[|a| - 1].key < b[0].key)
  {
    hide Sorted, Flat;
    HalvesFlat(t, id);
    SortedDrop(u, Flat(FirstHalf(t)), Flat(SecondHalf(t, id)), z);
  }

  lemma NothingAround(s: seq<Pair>)
    ensures Before(Top) + s + After(Top) == s
  {
  }

  lemma HalvesBags(c: Ctx, t: Tree, id: Id)
    requires Size(t) >= 4 && Distinct(IdsCtx(c) + Ids(t)) && id !in IdsCtx(c) && id !in Ids(t)
    ensures Distinct(IdsCtx(c) + Ids(FirstHalf(t))) && Distinct(IdsCtx(Top) + Ids(SecondHalf(t, id)))
    ensures Apart(Ids(SecondHalf(t, id)), IdsCtx(c) + Ids(FirstHalf(t)))
  {
    assert IdsCtx(Top) == multiset{};
    hide IdsCtx, Ids;
    var a, b := FirstHalf(t), SecondHalf(t, id);
    HalvesIds(t, id);
    hide FirstHalf, SecondHalf;
    var mc, mt, ma, mb := IdsCtx(c), Ids(t), Ids(a), Ids(b);
    forall x
      ensures (mc + ma)[x] <= 1 && (multiset{} + mb)[x] <= 1 && (x in mb ==> x !in mc + ma)
    {
      assert (mc + mt)[x] == mc[x] + mt[x] <= 1;
      assert (ma + mb)[x] == ma[x] + mb[x] == mt[x] + multiset{id}[x];
      assert (mc + ma)[x] == mc[x] + ma[x];
    }
  }

  // The whole tree seen from the parent: the same listing, one kid more.
  lemma ParentFits(c: Ctx, t: Tree, id: Id, d: nat, threshold: nat)
    requires c.Down? && Size(t) >= 4 && Fullish(t, d, threshold) && CtxOk(c, d, threshold)
    requires Fits(c, t, d, threshold + 1)
    requires id !in IdsCtx(c) && id !in Ids(t)
    ensures var p := Parent(c, t, id);
            Fits(c.up, p, d + 1, threshold + 1) && Fullish(p, d + 1, threshold) && CtxOk(c.up, d + 1, threshold)
            && Flat(Plug(c.up, p)) == Flat(Plug(c, t))
  {
    var a, b := FirstHalf(t), SecondHalf(t, id);
    var p := Parent(c, t, id);
    var l, r := c.left, c.right;
    HalvesOk(t, id, d, threshold);
    assert p.kids == (l + [a]) + [b] + r;
    AllOkMiddle(l, a, [], d, threshold);
    assert l + [a] + [] == l + [a];
    AllOkMiddle(l + [a], b, r, d, threshold);
    assert Fullish(p, d + 1, threshold);
    assert NodeOk(p, d + 1, threshold + 1) by {
      AllLarger(p.kids, d, threshold);
    }
    CtxLarger(c.up, d + 1, threshold);
    HalvesFlat(t, id);
    FlatAllMiddle(l + [a], b, r);
    FlatAllAppend(l, [a]);
    FlatAllSingle(a);
    FlatPlug(c.up, p);
    FlatPlug(c, t);
    ParentFlat(Before(c.up), FlatAll(l), Flat(a), Flat(b), FlatAll(r), After(c.up));
    assert Distinct(IdsCtx(c.up) + Ids(p)) by {
      HalvesIds(t, id);
      IdsAllMiddle(l + [a], b, r);
      IdsAllMiddle(l, a, []);
      ParentBags(IdsCtx(c.up), c.id, IdsAll(l), Ids(a), Ids(b), IdsAll(r), Ids(t), id);
    }
  }

  lemma ParentFlat(u: seq<Pair>, l: seq<Pair>, a: seq<Pair>, b: seq<Pair>, r: seq<Pair>, z: seq<Pair>)
    ensures u + ((l + a) + b + r) + z == (u + l) + (a + b) + (r + z)
  {
  }

  lemma ParentBags(u: multiset<Id>, p: Id, l: multiset<Id>, a: multiset<Id>, b: multiset<Id>, r: multiset<Id>,
                   t: multiset<Id>, id: Id)
    requires a + b == t + multiset{id}
    requires Distinct((u + multiset{p} + l + r) + t) && id !in u + multiset{p} + l + r && id !in t
    ensures Distinct(u + (multiset{p} + ((l + a + multiset{}) + b + r)))
  {
    forall x
      ensures (u + (multiset{p} + ((l + a + multiset{}) + b + r)))[x] <= 1
    {
      assert ((u + multiset{p} + l + r) + t)[x] == u[x] + multiset{p}[x] + l[x] + r[x] + t[x];
      assert (a + b)[x] == a[x] + b[x] == t[x] + multiset{id}[x];
    }
  }

  // The subtree t in the hole of c is laid out in the document, and all limits are in order but
  // perhaps those of the node of t itself.
  ghost predicate Laid(h: Heap, c: Ctx, t: Tree) {
    HoldsCtx(h, c, t.id) && Holds(h, t) && LimCtx(h, c) && LimRoot(h, t)
  }

  lemma {:induction false} KidsLaid(h: Heap, h': Heap, t: Tree, i: nat, j: nat)
    requires t.Inner? && i <= j <= |t.kids|
    requires Holds(h, t) && LimRoot(h, t) && SameNodes(h, h', IdsAll(t.kids[i..j]))
    ensures HoldsAll(h', t.kids[i..j]) && LimAll(h', t.kids[i..j])
  {
    var ks := t.kids[i..j];
    assert HoldsAll(h, ks) && LimAll(h, ks);
    HoldsAllFrame(h, h', ks);
    LimAllFrame(h, h', ks);
  }

  lemma {:induction false} FirstHalfLaid(h: Heap, c: Ctx, t: Tree, d: nat, threshold: nat)
    requires Size(t) >= 4 && Laid(h, c, t) && Fits(c, t, d, threshold)
    requires c.Down? && c.up.Down? ==> LimAt(h, t.id)
    ensures Laid(Truncated(h, t), c, FirstHalf(t))
  {
    hide Fits, IdsCtx, Ids, IdsAll, NodeOk, CtxOk, Distinct, Sorted;
    var h' := Truncated(h, t);
    FitsApart(c, t, d, threshold);
    HoldsCtxFrame(h, h', c, t.id);
    LimCtxFrame(h, h', c, t.id);
    CutBounds(t);
    if t.Inner? {
      var k := Cut(t);
      FirstKidsApart(t, k);
      KidsLaid(h, h', t, 0, k);
    }
  }

  lemma FirstKidsApart(t: Tree, k: nat)
    requires t.Inner? && k <= |t.kids| && Distinct(Ids(t))
    ensures t.id !in IdsAll(t.kids[0..k])
  {
    assert Ids(t) == multiset{t.id} + IdsAll(t.kids);
    hide Ids, IdsAll;
    assert t.kids == t.kids[..k] + t.kids[k..] && t.kids[0..k] == t.kids[..k];
    IdsAllAppend(t.kids[..k], t.kids[k..]);
    KidsApart(t.id, IdsAll(t.kids[..k]), IdsAll(t.kids[k..]));
  }

  lemma KidsApart(id: Id, a: multiset<Id>, b: multiset<Id>)
    requires Distinct(multiset{id} + (a + b))
    ensures id !in a && id !in b
  {
    assert (multiset{id} + (a + b))[id] == 1 + a[id] + b[id];
  }

  lemma {:induction false} SecondHalfLaid(h: Heap, h1: Heap, h2: Heap, c: Ctx, t: Tree, id: Id, d: nat, threshold: nat)
    requires Size(t) >= 4 && Laid(h, c, t) && Fits(c, t, d, threshold)
    requires h1 == Truncated(h, t) && OnlyIn(h1, h2, c, FirstHalf(t)) && id !in h && HoldsCtx(h2, c, t.id)
    requires Holds(h2, FirstHalf(t)) && LimCtx(h2, c) && (c.Down? ==> LimTree(h2, FirstHalf(t)))
    requires Apart(Ids(SecondHalf(t, id)), IdsCtx(c) + Ids(FirstHalf(t)))
    ensures var h3, b := WithNew(h2, t, id), SecondHalf(t, id);
            && Holds(h3, b) && LimRoot(h3, b) && h3[b.id].limits == None
            && HoldsCtx(h3, c, t.id) && Holds(h3, FirstHalf(t)) && LimCtx(h3, c)
            && (c.Down? ==> LimTree(h3, FirstHalf(t)))
  {
    hide Fits, IdsCtx, StartIdx, Cut;
    CutBounds(t);
    var h3, a, b := WithNew(h2, t, id), FirstHalf(t), SecondHalf(t, id);
    OwnId(b);
    ApartParts(id, IdsCtx(c), Ids(a));
    OwnId(a);
    HoldsCtxFrame(h2, h3, c, t.id);
    HoldsFrame(h2, h3, a);
    if c.Down? {
      LimCtxFrame(h2, h3, c, t.id);
      LimFrame(h2, h3, a);
    }
    if t.Inner? {
      SecondKidsLaid(h, h1, h2, c, t, id);
    }
  }

  lemma {:induction false} SecondKidsLaid(h: Heap, h1: Heap, h2: Heap, c: Ctx, t: Tree, id: Id)
    requires t.Inner? && Size(t) >= 4 && Holds(h, t) && LimRoot(h, t) && id !in h
    requires h1 == Truncated(h, t) && OnlyIn(h1, h2, c, FirstHalf(t))
    requires Apart(Ids(SecondHalf(t, id)), IdsCtx(c) + Ids(FirstHalf(t)))
    ensures var b := SecondHalf(t, id);
            HoldsAll(WithNew(h2, t, id), b.kids) && LimAll(WithNew(h2, t, id), b.kids)
  {
    hide IdsCtx, Holds, LimRoot;
    CutBounds(t);
    var k, n := Cut(t), |t.kids|;
    assert t.kids[k..] == t.kids[k..n];
    assert IdsAll(t.kids[k..n]) <= Ids(SecondHalf(t, id));
    OwnId(FirstHalf(t));
    forall x | x in IdsAll(t.kids[k..n]) && x in h
      ensures x in WithNew(h2, t, id) && WithNew(h2, t, id)[x] == h[x]
    {
      ApartParts(x, IdsCtx(c), Ids(FirstHalf(t)));
    }
    KidsLaid(h, WithNew(h2, t, id), t, k, n);
  }

  // The parent with both halves below it.
  lemma {:induction false} ParentLaid(h: Heap, c: Ctx, t: Tree, id: Id, d: nat, threshold: nat)
    requires c.Down? && Size(t) >= 4
    requires HoldsCtx(h, c, t.id) && Holds(h, FirstHalf(t)) && Holds(h, SecondHalf(t, id))
    requires LimCtx(h, c) && LimTree(h, FirstHalf(t)) && LimTree(h, SecondHalf(t, id))
    requires Fits(c.up, Parent(c, t, id), d + 1, threshold)
    requires NodeOk(FirstHalf(t), d, threshold) && NodeOk(SecondHalf(t, id), d, threshold)
    requires var a, b := Flat(FirstHalf(t)), Flat(SecondHalf(t, id)); |a| > 0 && |b| > 0 && a[|a| - 1].key < b[0].key
    ensures var h', p := Attached(h, c, t, id), Parent(c, t, id);
            Laid(h', c.up, p) && (c.up.Down? ==> LimAt(h', p.id))
  {
    hide Fits, IdsCtx, Ids, IdsAll, NodeOk, Sorted;
    var h', p := Attached(h, c, t, id), Parent(c, t, id);
    var a, b := FirstHalf(t), SecondHalf(t, id);
    LimBounds(h, a, d, threshold);
    LimBounds(h, b, d, threshold);
    FitsApart(c.up, p, d + 1, threshold);
    HoldsCtxFrame(h, h', c.up, c.id);
    LimCtxFrame(h, h', c.up, c.id);
    PutSide(h, c.left, a, b, c.right, p.kids);
    NotInside(p);
    assert SameNodes(h, h', IdsAll(p.kids));
    HoldsAllFrame(h, h', p.kids);
    LimAllFrame(h, h', p.kids);
    if c.up.Down? {
      ParentLim(h, h', c, t, id);
    }
  }

  lemma NotInside(p: Tree)
    requires p.Inner? && Distinct(Ids(p))
    ensures p.id !in IdsAll(p.kids)
    ensures forall i :: 0 <= i < |p.kids| ==> p.kids[i].id != p.id
  {
    assert Ids(p)[p.id] == 1 + IdsAll(p.kids)[p.id];
    forall i | 0 <= i < |p.kids|
      ensures p.kids[i].id != p.id
    {
      IdsAllMember(p.kids, i);
      OwnId(p.kids[i]);
    }
  }

  lemma {:induction false} PutSide(h: Heap, l: seq<Tree>, a: Tree, b: Tree, r: seq<Tree>, ks: seq<Tree>)
    requires HoldsAll(h, l) && Holds(h, a) && Holds(h, b) && HoldsAll(h, r)
    requires LimAll(h, l) && LimTree(h, a) && LimTree(h, b) && LimAll(h, r)
    requires ks == l + [a, b] + r
    ensures HoldsAll(h, ks) && LimAll(h, ks)
  {
    forall i | 0 <= i < |ks|
      ensures Holds(h, ks[i]) && LimTree(h, ks[i])
    {
      if i > |l| + 1 {
        assert ks[i] == r[i - |l| - 2];
      }
    }
  }

  // Taking in the new node leaves the parent's own limits in order, if no longer tight.
  lemma {:induction false} ParentLim(h: Heap, h': Heap, c: Ctx, t: Tree, id: Id)
    requires c.Down? && c.up.Down? && Size(t) >= 4
    requires HoldsCtx(h, c, t.id) && LimCtx(h, c)
    requires LimTree(h, FirstHalf(t)) && LimTree(h, SecondHalf(t, id))
    requires h[t.id].limits.value.hi <= h[id].limits.value.hi
    requires h' == Attached(h, c, t, id)
    requires forall i :: 0 <= i < |Parent(c, t, id).kids| ==> Parent(c, t, id).kids[i].id != c.id
    ensures LimAt(h', c.id)
  {
    var a, b := FirstHalf(t), SecondHalf(t, id);
    var ks := Parent(c, t, id).kids;
    var l, r := c.left, c.right;
    assert ks[|l|] == a && ks[|l| + 1] == b;
    assert h[c.id].kids.value == IdsOf(l) + [t.id] + IdsOf(r);
    assert LimAt(h, c.id) && LimAt(h, t.id) && LimAt(h, id);
    assert |l| > 0 ==> ks[0] == l[0];
    assert |r| > 0 ==> ks[|ks| - 1] == r[|r| - 1];
    assert ks[0].id == h[c.id].kids.value[0];
    assert |r| > 0 ==> ks[|ks| - 1].id == h[c.id].kids.value[|l| + |r|];
  }

  lemma {:induction false} IdsIn(h: Heap, t: Tree)
    requires Holds(h, t)
    ensures forall x :: x in Ids(t) ==> x in h
    decreases t, 1
  {
    if t.Inner? {
      IdsAllIn(h, t.kids);
    }
  }

  lemma {:induction false} IdsAllIn(h: Heap, ts: seq<Tree>)
    requires HoldsAll(h, ts)
    ensures forall x :: x in IdsAll(ts) ==> x in h
    decreases ts, 0
  {
    if ts != [] {
      IdsIn(h, ts[0]);
      IdsAllIn(h, ts[1..]);
    }
  }

  lemma {:induction false} IdsCtxIn(h: Heap, c: Ctx, hole: Id)
    requires HoldsCtx(h, c, hole)
    ensures forall x :: x in IdsCtx(c) ==> x in h
  {
    if c.Down? {
      IdsAllIn(h, c.left);
      IdsAllIn(h, c.right);
      IdsCtxIn(h, c.up, c.id);
    }
  }

  // The document when split has dealt with t and its parent, up to where the parent's own turn comes.
  ghost function AfterSplit(h: Heap, path: seq<PathElement>, c: Ctx, t: Tree, id: Id): (h5: Heap)
    requires c.Down? && DepthOf(c) <= |path| && Size(t) >= 4
    requires t.id in h && c.id in h && PathIn(path, h)
    ensures h5.Keys == h.Keys + {id}
  {
    var h2 := ResetH(Truncated(h, t), path, t.id, DepthOf(c) - 1);
    var h4 := ResetH(WithNew(h2, t, id), path, id, DepthOf(c) - 1);
    Attached(h4, c, t, id)
  }

  // Both halves laid out, the second one not attached yet.
  ghost predicate Halved(h: Heap, c: Ctx, t: Tree, id: Id)
    requires Size(t) >= 4
  {
    var a, b := FirstHalf(t), SecondHalf(t, id);
    && id in h && Holds(h, b) && LimRoot(h, b) && h[id].limits == None
    && HoldsCtx(h, c, t.id) && Holds(h, a) && LimCtx(h, c) && LimTree(h, a)
  }

  lemma {:induction false} SplitHalves(h: Heap, path: seq<PathElement>, c: Ctx, t: Tree, id: Id, d: nat, threshold: nat)
    requires c.Down? && Size(t) >= 4 && OnPath(path, c) && PathIn(path, h) && DepthOf(c) <= |path|
    requires Laid(h, c, t) && (c.up.Down? ==> LimAt(h, t.id)) && id !in h
    requires Fullish(t, d, threshold) && CtxOk(c, d, threshold) && Fits(c, t, d, threshold + 1)
    ensures var h3 := WithNew(ResetH(Truncated(h, t), path, t.id, DepthOf(c) - 1), t, id);
            && Halved(h3, c, t, id)
            && RootId(c) in h && RootId(c) in h3 && h3[RootId(c)] == h[RootId(c)]
  {
    hide Fits, IdsCtx, Ids, IdsAll, Fullish, CtxOk, NodeOk, LimAt, ResetH, OnPath, Sorted, Distinct, RootId;
    var root := RootId(c);
    IdsCtxIn(h, c, t.id);
    IdsIn(h, t);
    assert root in h && root != t.id && root != id by {
      OnPathRoot(path, c);
      FitsApart(c, t, d, threshold + 1);
    }
    HalvesFit(c, t, id, d, threshold);
    var h1 := Truncated(h, t);
    FirstHalfLaid(h, c, t, d, threshold + 1);
    ResetAttached(h1, path, c, FirstHalf(t), d, threshold + 1);
    var h2 := ResetH(h1, path, t.id, DepthOf(c) - 1);
    ShapeKept(h1, h2, c, FirstHalf(t));
    SecondHalfLaid(h, h1, h2, c, t, id, d, threshold + 1);
  }

  // The second half gets limits too.
  lemma {:induction false} HalvesReset(h: Heap, path: seq<PathElement>, c: Ctx, t: Tree, id: Id, d: nat, threshold: nat)
    requires c.Down? && Size(t) >= 4 && OnPath(path, c) && PathIn(path, h) && DepthOf(c) <= |path|
    requires Halved(h, c, t, id) && id !in IdsCtx(c) && id !in Ids(t) && RootId(c) in h
    requires Fullish(t, d, threshold) && CtxOk(c, d, threshold) && Fits(c, t, d, threshold + 1)
    ensures id in h
    ensures var h', a, b := ResetH(h, path, id, DepthOf(c) - 1), FirstHalf(t), SecondHalf(t, id);
            && HoldsCtx(h', c, t.id) && Holds(h', a) && Holds(h', b)
            && LimCtx(h', c) && LimTree(h', a) && LimTree(h', b) && h'[RootId(c)] == h[RootId(c)]
  {
    hide Fits, IdsCtx, Ids, IdsAll, Fullish, CtxOk, NodeOk, LimAt, ResetH, OnPath, Sorted, Distinct, RootId, Flat;
    hide LimTree, LimCtx, HoldsCtx;
    var a, b := FirstHalf(t), SecondHalf(t, id);
    HalvesFit(c, t, id, d, threshold);
    ResetDetached(h, path, b, d, c, a, d, threshold + 1);
    var h' := ResetH(h, path, id, DepthOf(c) - 1);
    OnPathRoot(path, c);
    ShapeKept(h, h', c, a);
    ShapeKept(h, h', c, b);
  }

  lemma {:induction false} SplitLevel(h: Heap, path: seq<PathElement>, c: Ctx, t: Tree, id: Id, d: nat, threshold: nat)
    requires c.Down? && Size(t) >= 4 && OnPath(path, c) && PathIn(path, h) && DepthOf(c) <= |path|
    requires Laid(h, c, t) && (c.up.Down? ==> LimAt(h, t.id)) && id !in h
    requires Fullish(t, d, threshold) && CtxOk(c, d, threshold) && Fits(c, t, d, threshold + 1)
    ensures var h', p := AfterSplit(h, path, c, t, id), Parent(c, t, id);
            && Laid(h', c.up, p) && (c.up.Down? ==> LimAt(h', p.id))
            && Fits(c.up, p, d + 1, threshold + 1) && Fullish(p, d + 1, threshold) && CtxOk(c.up, d + 1, threshold)
            && Flat(Plug(c.up, p)) == Flat(Plug(c, t))
            && RootId(c) in h && RootId(c) in h' && h'[RootId(c)].limits == h[RootId(c)].limits
  {
    hide Fits, IdsCtx, Ids, IdsAll, Fullish, CtxOk, NodeOk, LimAt, ResetH, OnPath, Sorted, Distinct, RootId, Flat;
    hide LimTree, LimCtx, HoldsCtx, Halved;
    IdsCtxIn(h, c, t.id);
    IdsIn(h, t);
    SplitHalves(h, path, c, t, id, d, threshold);
    var h3 := WithNew(ResetH(Truncated(h, t), path, t.id, DepthOf(c) - 1), t, id);
    hide Laid;
    HalvesReset(h3, path, c, t, id, d, threshold);
    ToParent(ResetH(h3, path, id, DepthOf(c) - 1), c, t, id, d, threshold);
  }

  lemma {:induction false} ToParent(h: Heap, c: Ctx, t: Tree, id: Id, d: nat, threshold: nat)
    requires c.Down? && Size(t) >= 4 && id !in IdsCtx(c) && id !in Ids(t)
    requires HoldsCtx(h, c, t.id) && Holds(h, FirstHalf(t)) && Holds(h, SecondHalf(t, id))
    requires LimCtx(h, c) && LimTree(h, FirstHalf(t)) && LimTree(h, SecondHalf(t, id))
    requires Fullish(t, d, threshold) && CtxOk(c, d, threshold) && Fits(c, t, d, threshold + 1)
    ensures var h', p := Attached(h, c, t, id), Parent(c, t, id);
            && Laid(h', c.up, p) && (c.up.Down? ==> LimAt(h', p.id))
            && Fits(c.up, p, d + 1, threshold + 1) && Fullish(p, d + 1, threshold) && CtxOk(c.up, d + 1, threshold)
            && Flat(Plug(c.up, p)) == Flat(Plug(c, t))
  {
    hide Fits, IdsCtx, Ids, Fullish, CtxOk, NodeOk, LimAt, Flat, LimTree, LimCtx, HoldsCtx, Plug, Parent, Holds, Laid;
    HalvesFit(c, t, id, d, threshold);
    ParentFits(c, t, id, d, threshold);
    HalvesOver(t, id, d, threshold);
    ParentLaid(h, c, t, id, d, threshold + 1);
  }

  lemma {:induction false} HalvesOver(t: Tree, id: Id, d: nat, threshold: nat)
    requires Fullish(t, d, threshold) && Size(t) >= 4
    ensures NodeOk(FirstHalf(t), d, threshold + 1) && NodeOk(SecondHalf(t, id), d, threshold + 1)
  {
    hide NodeOk, Fullish;
    HalvesOk(t, id, d, threshold);
    Larger(FirstHalf(t), d, threshold);
    Larger(SecondHalf(t, id), d, threshold);
  }

  lemma {:induction false} ShapeKept(h: Heap, h': Heap, c: Ctx, t: Tree)
    requires h.Keys == h'.Keys && forall x :: x in h ==> h'[x].items == h[x].items && h'[x].kids == h[x].kids
    ensures HoldsCtx(h, c, t.id) ==> HoldsCtx(h', c, t.id)
    ensures Holds(h, t) ==> Holds(h', t)
  {
    if HoldsCtx(h, c, t.id) {
      HoldsCtxFrame(h, h', c, t.id);
    }
    if Holds(h, t) {
      HoldsFrame(h, h', t);
    }
  }

}

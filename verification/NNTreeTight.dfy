/**
 * When the upper limits of a name or number tree of libqpdf/NNTree.cc are exact, and what an insertion
 * does to that: a split of several levels may leave one node above with an upper limit too small.
 */
module NNTreeTight {
  import opened Wrappers
  import opened NNTreeModel
  import opened NNTreeLimits
  import opened NNTreeSplit
  import opened NNTreePosition
  import opened NNTreeInvariant
  import opened NNTreeLookup

  // The limits of a node are just those that its contents or its outer kids imply.
  ghost predicate TightAt(h: Heap, id: Id) {
    id in h && h[id].limits.Some? && h[id].limits == Outer(h, id)
  }

  ghost predicate TightTree(h: Heap, t: Tree)
    decreases t, 1
  {
    TightAt(h, t.id) && (t.Inner? ==> TightAll(h, t.kids))
  }

  ghost predicate TightAll(h: Heap, ts: seq<Tree>)
    decreases ts, 0
  {
    forall i :: 0 <= i < |ts| ==> TightTree(h, ts[i])
  }

  // The root has no limits of its own.
  ghost predicate TightRoot(h: Heap, t: Tree) {
    t.Inner? ==> TightAll(h, t.kids)
  }

  ghost predicate TightCtx(h: Heap, c: Ctx) {
    match c
    case Top => true
    case Down(up, id, l, r) =>
      (up.Down? ==> TightAt(h, id)) && TightAll(h, l) && TightAll(h, r) && TightCtx(h, up)
  }

  lemma {:induction false} TightPlug(h: Heap, c: Ctx, t: Tree)
    ensures c.Top? ==> (TightRoot(h, Plug(c, t)) <==> TightRoot(h, t))
    ensures c.Down? ==> (TightRoot(h, Plug(c, t)) <==> TightCtx(h, c) && TightTree(h, t))
  {
    hide TightAt;
    match c
    case Top =>
    case Down(up, id, l, r) =>
      var p := Inner(id, l + [t] + r);
      TightPlug(h, up, p);
      TightMiddle(h, l, t, r);
  }

  lemma {:induction false} TightMiddle(h: Heap, l: seq<Tree>, t: Tree, r: seq<Tree>)
    ensures TightAll(h, l + [t] + r) <==> TightAll(h, l) && TightTree(h, t) && TightAll(h, r)
  {
    hide TightTree;
    var ks := l + [t] + r;
    assert ks[|l|] == t;
    assert forall i :: 0 <= i < |l| ==> ks[i] == l[i];
    assert forall i :: 0 <= i < |r| ==> ks[|l| + 1 + i] == r[i];
    assert forall i :: |l| < i < |ks| ==> ks[i] == r[i - |l| - 1];
  }

  // ---------------------------------------------------------------- elsewhere

  lemma {:induction false} TightFrame(h: Heap, h': Heap, t: Tree)
    requires Holds(h, t) && TightTree(h, t) && SameNodes(h, h', Ids(t))
    ensures TightTree(h', t)
    decreases t, 1
  {
    OwnId(t);
    if t.Inner? {
      TightAllFrame(h, h', t.kids);
      var n := |t.kids|;
      assert n > 0;
      IdsAllMember(t.kids, 0);
      IdsAllMember(t.kids, n - 1);
      OwnId(t.kids[0]);
      OwnId(t.kids[n - 1]);
    }
  }

  lemma {:induction false} TightAllFrame(h: Heap, h': Heap, ts: seq<Tree>)
    requires HoldsAll(h, ts) && TightAll(h, ts) && SameNodes(h, h', IdsAll(ts))
    ensures TightAll(h', ts)
    decreases ts, 0
  {
    hide TightAt;
    forall i | 0 <= i < |ts|
      ensures TightTree(h', ts[i])
    {
      IdsAllMember(ts, i);
      TightFrame(h, h', ts[i]);
    }
  }

  // The limits of the hole are what they were.
  ghost predicate SameLimits(h: Heap, h': Heap, hole: Id) {
    hole in h && hole in h' && h'[hole].limits == h[hole].limits
  }

  lemma {:induction false} TightCtxFrame(h: Heap, h': Heap, c: Ctx, hole: Id)
    requires HoldsCtx(h, c, hole) && TightCtx(h, c) && SameNodes(h, h', IdsCtx(c))
    requires c.Down? && c.up.Down? ==> SameLimits(h, h', hole)
    ensures TightCtx(h', c)
  {
    hide IdsCtx, TightAt;
    if c.Down? {
      CtxParts(c);
      TightAllFrame(h, h', c.left);
      TightAllFrame(h, h', c.right);
      if c.up.Down? {
        assert SameLimits(h, h', c.id);
        TightCtxFrame(h, h', c.up, c.id);
        OuterKept(h, h', c, hole);
      }
    }
  }

  // The node around a hole keeps what it implies if the hole keeps its limits.
  lemma {:induction false} OuterKept(h: Heap, h': Heap, c: Ctx, hole: Id)
    requires c.Down? && HoldsCtx(h, c, hole) && SameNodes(h, h', IdsCtx(c)) && SameLimits(h, h', hole)
    ensures c.id in h && c.id in h' && h'[c.id] == h[c.id] && Outer(h', c.id) == Outer(h, c.id)
    ensures TightAt(h, c.id) ==> TightAt(h', c.id)
  {
    hide IdsCtx, Outer;
    CtxParts(c);
    KeptKid(h, h', c, hole, 0);
    KeptKid(h, h', c, hole, |c.left| + |c.right|);
    assert h[c.id].items == None && h[c.id].kids.Some?;
    hide HoldsCtx, SameNodes;
    OuterOf(h, c.id, h[c.id].kids.value);
    OuterOf(h', c.id, h[c.id].kids.value);
  }

  lemma {:induction false} OuterOf(h: Heap, id: Id, ks: seq<Id>)
    requires id in h && h[id].items == None && h[id].kids == Some(ks) && ks != []
    ensures Outer(h, id) ==
            var first, last := ks[0], ks[|ks| - 1];
            if first in h && h[first].limits.Some? && last in h && h[last].limits.Some? then
              Some(Limits(h[first].limits.value.lo, h[last].limits.value.hi))
            else None
  {
  }

  // Everything but t itself and perhaps the node around it.
  ghost predicate TightAround(h: Heap, c: Ctx) {
    c.Down? ==> TightAll(h, c.left) && TightAll(h, c.right) && TightCtx(h, c.up)
  }

  ghost predicate ParentTight(h: Heap, c: Ctx) {
    c.Down? && c.up.Down? ==> TightAt(h, c.id)
  }

  lemma {:induction false} AroundFrame(h: Heap, h': Heap, c: Ctx, hole: Id)
    requires c.Down? && HoldsCtx(h, c, hole) && TightAround(h, c) && SameNodes(h, h', IdsCtx(c))
    ensures TightAround(h', c)
  {
    hide IdsCtx, TightAt, TightAll;
    CtxParts(c);
    TightAllFrame(h, h', c.left);
    TightAllFrame(h, h', c.right);
    TightCtxFrame(h, h', c.up, c.id);
  }

  // ---------------------------------------------------------------- resetLimits

  // Called on the subtree t in the hole of c, resetLimits makes everything tight if it goes on to the
  // node around or that is tight.
  lemma {:induction false} ResetTight(h: Heap, path: seq<PathElement>, c: Ctx, t: Tree, d: nat, threshold: nat)
    requires c.Down? && OnPath(path, c) && PathIn(path, h)
    requires HoldsCtx(h, c, t.id) && Holds(h, t) && Fits(c, t, d, threshold) && LimRoot(h, t) && LimCtx(h, c)
    requires TightRoot(h, t) && TightAround(h, c)
    requires h[t.id].limits == Outer(h, t.id) ==> ParentTight(h, c)
    ensures var h' := ResetH(h, path, t.id, DepthOf(c) - 1); TightCtx(h', c) && TightTree(h', t)
    decreases c
  {
    hide Fits, IdsCtx, Ids, IdsAll, LimAt, NodeOk;
    SetOwn(h, path, c, t, d, threshold);
    var h1 := h[t.id := h[t.id].(limits := Outer(h, t.id))];
    var h' := ResetH(h, path, t.id, DepthOf(c) - 1);
    OwnTight(h, h1, c, t, d, threshold);
    if h[t.id].limits == Outer(h, t.id) {
      assert h1 == h && h' == h;
    } else {
      assert h' == if DepthOf(c.up) == 0 then h1 else ResetH(h1, path, c.id, DepthOf(c.up) - 1);
      hide ResetH;
      FitsApart(c, t, d, threshold);
      AroundFrame(h, h1, c, t.id);
      AroundOne(h, h1, c, t, d, threshold);
      if c.up.Down? {
        ResetTightUp(h1, path, c, t, d, threshold);
      }
    }
  }

  lemma {:induction false} ResetTightUp(h1: Heap, path: seq<PathElement>, c: Ctx, t: Tree, d: nat, threshold: nat)
    requires c.Down? && c.up.Down? && OnPath(path, c) && PathIn(path, h1)
    requires HoldsCtx(h1, c, t.id) && Holds(h1, t) && Fits(c, t, d, threshold) && LimTree(h1, t)
    requires TightTree(h1, t) && TightAround(h1, c)
    requires LimAll(h1, c.left) && LimAll(h1, c.right) && LimCtx(h1, c.up)
    ensures var h' := ResetH(h1, path, c.id, DepthOf(c.up) - 1); TightCtx(h', c) && TightTree(h', t)
    decreases c, 0
  {
    var p := Inner(c.id, c.left + [t] + c.right);
    FillHole(h1, c, t);
    FitsUp(c, t, d, threshold);
    hide Fits, IdsCtx, Ids, IdsAll, LimAt, NodeOk, ResetH, TightAt;
    TightMiddle(h1, c.left, t, c.right);
    ResetTight(h1, path, c.up, p, d + 1, threshold);
    var h' := ResetH(h1, path, c.id, DepthOf(c.up) - 1);
    TightMiddle(h', c.left, t, c.right);
  }

  // Refreshing the limits of t makes t tight.
  lemma {:induction false} OwnTight(h: Heap, h1: Heap, c: Ctx, t: Tree, d: nat, threshold: nat)
    requires Holds(h, t) && Fits(c, t, d, threshold) && LimRoot(h, t) && TightRoot(h, t) && Outer(h, t.id).Some?
    requires h1 == h[t.id := h[t.id].(limits := Outer(h, t.id))]
    ensures TightTree(h1, t)
  {
    hide IdsCtx, Sorted, NodeOk, CtxOk;
    FitsApart(c, t, d, threshold);
    hide Fits;
    SetLimits(h, t, Outer(h, t.id));
    if t.Inner? {
      NotInside(t);
      TightAllFrame(h, h1, t.kids);
      assert |t.kids| > 0;
    }
  }

  // ---------------------------------------------------------------- one level of split

  // A node that is over the threshold, with everything tight below and around it.
  ghost predicate TightOver(h: Heap, path: seq<PathElement>, c: Ctx, t: Tree, d: nat, threshold: nat) {
    && c.Down? && Size(t) >= 4 && OnPath(path, c) && PathIn(path, h) && DepthOf(c) <= |path|
    && Laid(h, c, t) && (c.up.Down? ==> LimAt(h, t.id) && TightAt(h, t.id))
    && Fullish(t, d, threshold) && CtxOk(c, d, threshold) && Fits(c, t, d, threshold + 1)
    && TightRoot(h, t) && TightAround(h, c)
  }

  // The first half ends before the whole node does.
  lemma {:induction false} CutLowers(h: Heap, t: Tree, d: nat, threshold: nat)
    requires Size(t) >= 4 && Holds(h, t) && LimRoot(h, t) && TightAt(h, t.id)
    requires NodeOk(t, d, threshold) && Sorted(Flat(t)) && Distinct(Ids(t))
    ensures Truncated(h, t)[t.id].limits != Outer(Truncated(h, t), t.id)
  {
    hide NodeOk, Distinct, Ids;
    CutBounds(t);
    var h1, k, n := Truncated(h, t), Cut(t), Size(t);
    if t.Inner? {
      KidsInOrder(h, t, d, threshold, k - 1, n - 1);
      NotInside(t);
      assert LimTree(h, t.kids[n - 1]);
      assert h[t.id].items == None && h[t.id].kids == Some(IdsOf(t.kids));
      assert FirstHalf(t).kids[k - 1] == t.kids[k - 1] && FirstHalf(t).kids[0] == t.kids[0];
      hide Holds, LimRoot, Flat;
      var last, lastLeft := t.kids[n - 1].id, t.kids[k - 1].id;
      assert h[t.id].limits.value.hi == h[last].limits.value.hi > h[lastLeft].limits.value.hi;
      assert h1[lastLeft] == h[lastLeft] && h1[t.id].kids == Some(IdsOf(FirstHalf(t).kids));
      assert Outer(h1, t.id).Some? ==> Outer(h1, t.id).value.hi == h[lastLeft].limits.value.hi;
    } else {
      assert t.items[k - 1].key < t.items[n - 1].key;
    }
  }

  lemma {:induction false} FirstKidsTight(h: Heap, t: Tree, k: nat)
    requires t.Inner? && Holds(h, t) && TightRoot(h, t) && Distinct(Ids(t)) && k <= |t.kids| && Size(t) >= 4
    ensures TightAll(Truncated(h, t), t.kids[..k])
  {
    hide Holds, TightTree, Ids, IdsAll, Distinct;
    HoldsKids(h, t);
    FirstKidsApart(t, k);
    assert t.kids[0..k] == t.kids[..k];
    assert HoldsAll(h, t.kids[..k]) && TightAll(h, t.kids[..k]);
    TightAllFrame(h, Truncated(h, t), t.kids[..k]);
  }

  lemma {:induction false} HoldsKids(h: Heap, t: Tree)
    requires t.Inner? && Holds(h, t)
    ensures HoldsAll(h, t.kids) && t.id in h
  {
  }

  // The first half and everything around it is tight after resetLimits.
  lemma {:induction false} FirstHalfTight(h: Heap, path: seq<PathElement>, c: Ctx, t: Tree, id: Id, d: nat,
                                          threshold: nat)
    requires TightOver(h, path, c, t, d, threshold) && id !in h
    ensures var h2 := ResetH(Truncated(h, t), path, t.id, DepthOf(c) - 1);
            TightCtx(h2, c) && TightTree(h2, FirstHalf(t))
  {
    hide Fits, IdsCtx, Ids, IdsAll, Fullish, CtxOk, NodeOk, LimAt, ResetH, OnPath, Sorted, Distinct, TightAt;
    IdsCtxIn(h, c, t.id);
    IdsIn(h, t);
    HalvesFit(c, t, id, d, threshold);
    var h1, a := Truncated(h, t), FirstHalf(t);
    FirstHalfLaid(h, c, t, d, threshold + 1);
    FitsApart(c, t, d, threshold + 1);
    AroundFrame(h, h1, c, t.id);
    if t.Inner? {
      CutBounds(t);
      FirstKidsTight(h, t, Cut(t));
    }
    if c.up.Down? {
      CutLowers(h, t, d, threshold + 1);
    }
    ResetTight(h1, path, c, a, d, threshold + 1);
  }

  // ---------------------------------------------------------------- the new node and the parent

  lemma {:induction false} SecondKidsTight(h: Heap, h1: Heap, h2: Heap, c: Ctx, t: Tree, id: Id)
    requires t.Inner? && Size(t) >= 4 && Holds(h, t) && TightRoot(h, t) && id !in h
    requires h1 == Truncated(h, t) && OnlyIn(h1, h2, c, FirstHalf(t))
    requires Apart(Ids(SecondHalf(t, id)), IdsCtx(c) + Ids(FirstHalf(t)))
    ensures TightAll(WithNew(h2, t, id), SecondHalf(t, id).kids)
  {
    hide IdsCtx, IdsAll, Holds, TightTree;
    HoldsKids(h, t);
    CutBounds(t);
    var k, b := Cut(t), SecondHalf(t, id);
    var h3, ks := WithNew(h2, t, id), t.kids[k..];
    assert b.kids == ks && IdsAll(ks) <= Ids(b) && FirstHalf(t).id == t.id;
    OwnId(FirstHalf(t));
    hide FirstHalf, SecondHalf, Ids;
    KidsSame(h, h2, h3, c, t, id, IdsAll(ks));
    assert HoldsAll(h, ks) && TightAll(h, ks);
    TightAllFrame(h, h3, ks);
  }

  // What is only below the second half is in the document as it was.
  lemma {:induction false} KidsSame(h: Heap, h2: Heap, h3: Heap, c: Ctx, t: Tree, id: Id, m: multiset<Id>)
    requires Size(t) >= 4 && id !in h && t.id in h && h3 == WithNew(h2, t, id) && t.id in Ids(FirstHalf(t))
    requires OnlyIn(Truncated(h, t), h2, c, FirstHalf(t)) && m <= Ids(SecondHalf(t, id))
    requires Apart(Ids(SecondHalf(t, id)), IdsCtx(c) + Ids(FirstHalf(t)))
    ensures SameNodes(h, h3, m)
  {
    assert FirstHalf(t).id == t.id;
    hide IdsCtx, Ids, FirstHalf, SecondHalf;
    forall x | x in m && x in h
      ensures x in h3 && h3[x] == h[x]
    {
      ApartParts(x, IdsCtx(c), Ids(FirstHalf(t)));
    }
  }

  // The document before the second half gets limits.
  lemma {:induction false} SecondHalfReady(h: Heap, path: seq<PathElement>, c: Ctx, t: Tree, id: Id, d: nat,
                                           threshold: nat)
    requires TightOver(h, path, c, t, d, threshold) && id !in h
    ensures var h3 := WithNew(ResetH(Truncated(h, t), path, t.id, DepthOf(c) - 1), t, id);
            && Halved(h3, c, t, id) && TightCtx(h3, c) && TightTree(h3, FirstHalf(t))
            && TightRoot(h3, SecondHalf(t, id))
  {
    hide Fits, IdsCtx, Ids, IdsAll, Fullish, CtxOk, NodeOk, LimAt, ResetH, OnPath, Sorted, Distinct, TightAt;
    IdsCtxIn(h, c, t.id);
    IdsIn(h, t);
    HalvesFit(c, t, id, d, threshold);
    FirstHalfTight(h, path, c, t, id, d, threshold);
    SplitHalves(h, path, c, t, id, d, threshold);
    var h1, a := Truncated(h, t), FirstHalf(t);
    var h2 := ResetH(h1, path, t.id, DepthOf(c) - 1);
    var h3 := WithNew(h2, t, id);
    FirstHalfLaid(h, c, t, d, threshold + 1);
    ShapeKept(h1, h2, c, a);
    assert OnlyIn(h1, h2, c, a) by {
      ResetAttached(h1, path, c, a, d, threshold + 1);
    }
    assert h3[t.id] == h2[t.id];
    OwnId(SecondHalf(t, id));
    ApartParts(id, IdsCtx(c), Ids(a));
    KeptByNew(h2, h3, c, a, id);
    if t.Inner? {
      SecondKidsTight(h, h1, h2, c, t, id);
    }
  }

  lemma {:induction false} KeptByNew(h: Heap, h': Heap, c: Ctx, t: Tree, id: Id)
    requires id !in IdsCtx(c) && id !in Ids(t) && forall x :: x in h && x != id ==> x in h' && h'[x] == h[x]
    requires TightCtx(h, c) && TightTree(h, t) && HoldsCtx(h, c, t.id) && Holds(h, t)
    ensures TightCtx(h', c) && TightTree(h', t)
  {
    hide TightAt;
    OwnId(t);
    TightCtxFrame(h, h', c, t.id);
    TightFrame(h, h', t);
  }

  // resetLimits on the new node b stops at the node that is to be its parent.
  lemma {:induction false} NewNodeTight(h: Heap, h1: Heap, path: seq<PathElement>, c: Ctx, a: Tree, b: Tree, d: nat,
                                        threshold: nat)
    requires c.Down? && OnPath(path, c) && PathIn(path, h) && b.id !in IdsCtx(c) && b.id !in Ids(a)
    requires Holds(h, b) && LimRoot(h, b) && h[b.id].limits == None && Fits(Top, b, d, threshold)
    requires HoldsCtx(h, c, a.id) && Holds(h, a)
    requires TightCtx(h, c) && TightTree(h, a) && TightRoot(h, b)
    requires h1 == h[b.id := h[b.id].(limits := Outer(h, b.id))]
    ensures DepthOf(c) <= |path| && ResetH(h, path, b.id, DepthOf(c) - 1) == h1
    ensures TightCtx(h1, c) && TightTree(h1, a) && TightTree(h1, b)
    ensures HoldsCtx(h1, c, a.id) && Holds(h1, a) && Holds(h1, b)
  {
    hide IdsCtx, Ids, IdsAll, NodeOk, TightAt, LimAt, ResetH, TightTree, TightAll, LimTree, LimCtx;
    OnPathRoot(path, c);
    NewNodeOwn(h, path, b, d, threshold);
    hide Fits, TightRoot, LimRoot;
    DetachedUnfold(h, path, b.id, DepthOf(c) - 1);
    ShapeKept(h, h1, c, a);
    hide Holds, HoldsCtx;
    KeptByNew(h, h1, c, a, b.id);
    if c.up.Down? {
      TightStops(h1, path, c);
      assert path[DepthOf(c) - 1].node == c.id;
    }
  }

  lemma {:induction false} NewNodeOwn(h: Heap, path: seq<PathElement>, b: Tree, d: nat, threshold: nat)
    requires Holds(h, b) && LimRoot(h, b) && TightRoot(h, b) && Fits(Top, b, d, threshold)
    ensures var h1 := h[b.id := h[b.id].(limits := Outer(h, b.id))];
            Outer(h, b.id).Some? && Holds(h1, b) && TightTree(h1, b)
  {
    hide Fits;
    SetOwn(h, path, Top, b, d, threshold);
    OwnTight(h, h[b.id := h[b.id].(limits := Outer(h, b.id))], Top, b, d, threshold);
  }

  lemma {:induction false} TightStops(h: Heap, path: seq<PathElement>, c: Ctx)
    requires c.Down? && c.up.Down? && OnPath(path, c) && PathIn(path, h) && TightCtx(h, c)
    ensures DepthOf(c) >= 2 && path[DepthOf(c) - 1].node == c.id && ResetH(h, path, c.id, DepthOf(c) - 2) == h
  {
  }

  // The parent takes in the new node. It may not be tight itself then.
  lemma {:induction false} ParentRootTight(h: Heap, c: Ctx, t: Tree, id: Id, d: nat, threshold: nat)
    requires c.Down? && Size(t) >= 4 && Fits(c.up, Parent(c, t, id), d, threshold)
    requires HoldsCtx(h, c, t.id) && Holds(h, FirstHalf(t)) && Holds(h, SecondHalf(t, id))
    requires TightCtx(h, c) && TightTree(h, FirstHalf(t)) && TightTree(h, SecondHalf(t, id))
    ensures var h', p := Attached(h, c, t, id), Parent(c, t, id);
            TightRoot(h', p) && TightCtx(h', c.up)
  {
    hide Fits, IdsCtx, Ids, IdsAll, NodeOk, TightAt, TightTree, Holds;
    var h', p := Attached(h, c, t, id), Parent(c, t, id);
    FitsApart(c.up, p, d, threshold);
    NotInside(p);
    PutTight(h, c.left, FirstHalf(t), SecondHalf(t, id), c.right, p.kids);
    TightAllFrame(h, h', p.kids);
    TightCtxFrame(h, h', c.up, c.id);
  }

  lemma {:induction false} PutTight(h: Heap, l: seq<Tree>, a: Tree, b: Tree, r: seq<Tree>, ks: seq<Tree>)
    requires HoldsAll(h, l) && Holds(h, a) && Holds(h, b) && HoldsAll(h, r)
    requires TightAll(h, l) && TightTree(h, a) && TightTree(h, b) && TightAll(h, r)
    requires ks == l + [a, b] + r
    ensures HoldsAll(h, ks) && TightAll(h, ks)
  {
    hide TightTree, Holds;
    forall i | 0 <= i < |ks|
      ensures Holds(h, ks[i]) && TightTree(h, ks[i])
    {
      if i > |l| + 1 {
        assert ks[i] == r[i - |l| - 2];
      }
    }
  }

  // Whether the parent is tight still depends on whether its last kid is a new one.
  lemma {:induction false} ParentImplies(h: Heap, c: Ctx, t: Tree, id: Id)
    requires c.Down? && Size(t) >= 4 && HoldsCtx(h, c, t.id) && TightAt(h, c.id) && TightAt(h, t.id) && TightAt(h, id)
    requires h[t.id].limits.value.hi < h[id].limits.value.hi
    requires forall i :: 0 <= i < |Parent(c, t, id).kids| ==> Parent(c, t, id).kids[i].id != c.id
    requires TightAll(h, c.left) && TightAll(h, c.right)
    ensures var h' := Attached(h, c, t, id);
            && Outer(h', c.id).Some? && h'[c.id].limits.Some?
            && Outer(h', c.id).value.lo == h'[c.id].limits.value.lo
            && (Outer(h', c.id) == h'[c.id].limits <==> c.right != [])
  {
    var h', ks := Attached(h, c, t, id), Parent(c, t, id).kids;
    var l, r := c.left, c.right;
    var a, b := FirstHalf(t), SecondHalf(t, id);
    assert a.id == t.id && b.id == id;
    assert ks[|l|] == a && ks[|l| + 1] == b;
    assert h[c.id].kids.value == IdsOf(l) + [t.id] + IdsOf(r) && h[c.id].items == None;
    hide HoldsCtx, FirstHalf, SecondHalf;
    assert |l| > 0 ==> ks[0] == l[0] && TightTree(h, l[0]);
    assert |r| > 0 ==> ks[|ks| - 1] == r[|r| - 1] && TightTree(h, r[|r| - 1]);
    assert ks[0].id == h[c.id].kids.value[0];
    assert |r| > 0 ==> ks[|ks| - 1].id == h[c.id].kids.value[|l| + |r|];
    assert |r| == 0 ==> ks[|ks| - 1].id == id && h[c.id].kids.value[|l|] == t.id;
    assert h'[ks[0].id] == h[ks[0].id] && h'[ks[|ks| - 1].id] == h[ks[|ks| - 1].id];
  }

  // The limits of the halves are apart.
  lemma {:induction false} HalvesApart(h: Heap, a: Tree, b: Tree, d: nat, threshold: nat)
    requires Holds(h, a) && Holds(h, b) && LimTree(h, a) && LimTree(h, b)
    requires NodeOk(a, d, threshold) && NodeOk(b, d, threshold)
    requires |Flat(a)| > 0 && |Flat(b)| > 0 && Flat(a)[|Flat(a)| - 1].key < Flat(b)[0].key
    ensures h[a.id].limits.value.hi < h[b.id].limits.value.hi
  {
    LimBounds(h, a, d, threshold);
    LimBounds(h, b, d, threshold);
  }

  lemma {:induction false} LimHalves(h3: Heap, h4: Heap, path: seq<PathElement>, c: Ctx, t: Tree, id: Id, d: nat,
                                     threshold: nat)
    requires c.Down? && Size(t) >= 4 && OnPath(path, c) && PathIn(path, h3) && Halved(h3, c, t, id)
    requires Fullish(t, d, threshold) && Fits(c, FirstHalf(t), d, threshold + 1)
    requires Fits(Top, SecondHalf(t, id), d, threshold + 1)
    requires Apart(Ids(SecondHalf(t, id)), IdsCtx(c) + Ids(FirstHalf(t)))
    requires var a, b := Flat(FirstHalf(t)), Flat(SecondHalf(t, id)); |a| > 0 && |b| > 0 && a[|a| - 1].key < b[0].key
    requires DepthOf(c) <= |path| && h4 == ResetH(h3, path, id, DepthOf(c) - 1)
    requires Holds(h4, FirstHalf(t)) && Holds(h4, SecondHalf(t, id))
    ensures t.id in h4 && id in h4 && h4[t.id].limits.Some? && h4[id].limits.Some?
    ensures h4[t.id].limits.value.hi < h4[id].limits.value.hi
  {
    hide Fits, IdsCtx, Ids, IdsAll, Fullish, CtxOk, LimAt, ResetH, OnPath, Flat;
    var a, b := FirstHalf(t), SecondHalf(t, id);
    ResetDetached(h3, path, b, d, c, a, d, threshold + 1);
    HalvesOk(t, id, d, threshold);
    Larger(a, d, threshold);
    Larger(b, d, threshold);
    hide NodeOk, Holds;
    LimSome(h4, a);
    LimSome(h4, b);
    HalvesApart(h4, a, b, d, threshold + 1);
  }

  lemma {:induction false} LimSome(h: Heap, t: Tree)
    requires LimTree(h, t)
    ensures t.id in h && h[t.id].limits.Some?
  {
  }

  // One level of split, up to where the parent's own turn comes.
  lemma {:induction false} LevelTight(h: Heap, path: seq<PathElement>, c: Ctx, t: Tree, id: Id, d: nat, threshold: nat)
    requires TightOver(h, path, c, t, d, threshold) && id !in h
    ensures var h', p := AfterSplit(h, path, c, t, id), Parent(c, t, id);
            && TightRoot(h', p) && TightCtx(h', c.up)
            && (c.up.Down? ==>
                  && c.id in h' && Outer(h', c.id).Some? && h'[c.id].limits.Some?
                  && Outer(h', c.id).value.lo == h'[c.id].limits.value.lo
                  && (Outer(h', c.id) == h'[c.id].limits <==> c.right != []))
  {
    hide Fits, IdsCtx, Ids, IdsAll, Fullish, CtxOk, NodeOk, LimAt, ResetH, OnPath, Sorted, Distinct, TightAt;
    var a, b := FirstHalf(t), SecondHalf(t, id);
    IdsCtxIn(h, c, t.id);
    IdsIn(h, t);
    HalvesFit(c, t, id, d, threshold);
    ParentFits(c, t, id, d, threshold);
    SecondHalfReady(h, path, c, t, id, d, threshold);
    var h3 := WithNew(ResetH(Truncated(h, t), path, t.id, DepthOf(c) - 1), t, id);
    OwnId(b);
    ApartParts(id, IdsCtx(c), Ids(a));
    var h4 := h3[id := h3[id].(limits := Outer(h3, id))];
    NewNodeTight(h3, h4, path, c, a, b, d, threshold + 1);
    ParentRootTight(h4, c, t, id, d + 1, threshold + 1);
    if c.up.Down? {
      LimHalves(h3, h4, path, c, t, id, d, threshold);
      assert TightTree(h4, a) && TightTree(h4, b) && TightCtx(h4, c);
      FitsApart(c.up, Parent(c, t, id), d + 1, threshold + 1);
      NotInside(Parent(c, t, id));
      ParentImplies(h4, c, t, id);
    }
  }

  // The call of resetLimits on the parent p, in the hole of c, with the path element of p itself: p is
  // tight then, but the node around it only if p is not its last kid or p was tight already.
  lemma {:induction false} OwnStageTight(h: Heap, path: seq<PathElement>, c: Ctx, p: Tree, d: nat, threshold: nat)
    requires c.Down? && OnPath(path, c) && PathIn(path, h) && DepthOf(c) < |path| && path[DepthOf(c)].node == p.id
    requires Laid(h, c, p) && Fits(c, p, d, threshold) && TightRoot(h, p) && TightCtx(h, c)
    requires h[p.id].limits.Some?
    requires Outer(h, p.id).Some? && Outer(h, p.id).value.lo == h[p.id].limits.value.lo
    ensures var h' := ResetH(h, path, p.id, DepthOf(c));
            && TightTree(h', p) && TightAround(h', c)
            && (ParentTight(h', c) <==> !(c.up.Down? && c.right == [] && Outer(h, p.id) != h[p.id].limits))
  {
    hide Fits, IdsCtx, Ids, IdsAll, NodeOk, ResetH, LimAt, TightAt;
    var h1 := h[p.id := h[p.id].(limits := Outer(h, p.id))];
    SetOwn(h, path, c, p, d, threshold);
    FitsApart(c, p, d, threshold);
    OwnTight(h, h1, c, p, d, threshold);
    OwnUnfold(h, path, p.id, DepthOf(c)) by {
      OuterOwn(h, h1, p);
    }
    AroundFrame(h, h1, c, p.id);
    if c.up.Down? {
      hide Holds, LimTree, TightTree, OnPath, PathIn;
      AroundStale(h, h1, c, p);
    }
  }

  // Setting the limits of a node does not change what it implies.
  lemma {:induction false} OuterOwn(h: Heap, h1: Heap, p: Tree)
    requires p.id in h && h1 == h[p.id := h[p.id].(limits := Outer(h, p.id))] && TightTree(h1, p)
    ensures Outer(h1, p.id) == Outer(h, p.id)
  {
  }

  lemma {:induction false} AroundStale(h: Heap, h1: Heap, c: Ctx, p: Tree)
    requires c.Down? && c.up.Down? && HoldsCtx(h, c, p.id) && TightAt(h, c.id) && p.id !in IdsCtx(c)
    requires p.id in h && Outer(h, p.id).Some? && h1 == h[p.id := h[p.id].(limits := Outer(h, p.id))]
    requires h[p.id].limits.Some? && Outer(h, p.id).value.lo == h[p.id].limits.value.lo
    ensures TightAt(h1, c.id) <==> !(c.right == [] && Outer(h, p.id) != h[p.id].limits)
  {
    hide IdsCtx, Outer;
    CtxParts(c);
    var ks, n := h[c.id].kids.value, |c.left| + |c.right|;
    assert ks == IdsOf(c.left) + [p.id] + IdsOf(c.right) && h[c.id].items == None && c.id != p.id;
    KeptKid(h, h1, c, p.id, 0);
    KeptKid(h, h1, c, p.id, n);
    hide HoldsCtx, IdsOf;
    LastIs(c, p);
    OuterOf(h, c.id, ks);
    OuterOf(h1, c.id, ks);
    StaleLimits(h, h1, c.id, p.id, ks, Outer(h, p.id).value);
  }

  // A node keeps its limits, but one of its kids gets a new upper limit.
  lemma {:induction false} StaleLimits(h: Heap, h1: Heap, id: Id, kid: Id, ks: seq<Id>, lim: Limits)
    requires ks != [] && id in h && kid in h && kid != id && h[kid].limits.Some? && lim.lo == h[kid].limits.value.lo
    requires h1 == h[kid := h[kid].(limits := Some(lim))] && TightAt(h, id)
    requires ks[0] in h && h[ks[0]].limits.Some? && ks[|ks| - 1] in h && h[ks[|ks| - 1]].limits.Some?
    requires Outer(h, id) == Some(Limits(h[ks[0]].limits.value.lo, h[ks[|ks| - 1]].limits.value.hi))
    requires Outer(h1, id) == Some(Limits(h1[ks[0]].limits.value.lo, h1[ks[|ks| - 1]].limits.value.hi))
    ensures TightAt(h1, id) <==> !(ks[|ks| - 1] == kid && Some(lim) != h[kid].limits)
  {
    hide Outer;
  }

  lemma LastIs(c: Ctx, t: Tree)
    requires c.Down? && t.id !in IdsCtx(c)
    ensures var ks, n := IdsOf(c.left) + [t.id] + IdsOf(c.right), |c.left| + |c.right|;
            |ks| == n + 1 && (ks[n] == t.id <==> c.right == [])
  {
    if c.right != [] {
      NotLast(c, t);
    }
  }

  lemma NotLast(c: Ctx, t: Tree)
    requires c.Down? && c.right != [] && t.id !in IdsCtx(c)
    ensures var ks := IdsOf(c.left) + [t.id] + IdsOf(c.right);
            |ks| == |c.left| + 1 + |c.right| && ks[|c.left| + |c.right|] != t.id
  {
    RightIds(c);
    hide IdsCtx;
    assert IdsOf(c.right)[|c.right| - 1] != t.id;
  }

  lemma {:induction false} RightIds(c: Ctx)
    requires c.Down? && c.right != []
    ensures c.right[|c.right| - 1].id in IdsCtx(c)
  {
    hide Ids, IdsAll, IdsCtx;
    var last := c.right[|c.right| - 1];
    OwnId(last);
    IdsAllMember(c.right, |c.right| - 1);
    CtxParts(c);
    assert last.id in IdsAll(c.right);
  }

  // ---------------------------------------------------------------- a whole split

  // A node of this size in the hole of c is split, and so are full nodes above it, in a way that leaves
  // an upper limit too small: the last node to be split is the last kid of its parent, the parent takes
  // in the new node without being split, it is the last kid of its own parent, and that is not the
  // root. The limit left behind is that of the parent's parent.
  predicate LeavesLag(c: Ctx, size: nat, threshold: nat) {
    if size <= threshold || c.Top? then false
    else
      var kids := |c.left| + 2 + |c.right|;
      if kids > threshold then LeavesLag(c.up, kids, threshold)
      else c.right == [] && c.up.Down? && c.up.right == [] && c.up.up.Down?
  }

  // All is tight but perhaps the node around t.
  ghost predicate TightBefore(h: Heap, c: Ctx, t: Tree) {
    TightRoot(h, t) && TightAround(h, c) && (c.Down? ==> TightAt(h, t.id))
  }

  // Whether split makes the whole tree tight.
  ghost predicate EndsTight(h: Heap, c: Ctx, t: Tree, threshold: nat) {
    if Size(t) <= threshold then ParentTight(h, c) else !LeavesLag(c, Size(t), threshold)
  }

  // With the parent tight, only what split leaves behind counts.
  lemma LagOnly(h: Heap, c: Ctx, t: Tree, threshold: nat)
    requires ParentTight(h, c)
    ensures EndsTight(h, c, t, threshold) <==> !LeavesLag(c, Size(t), threshold)
  {
    hide ParentTight;
  }

  lemma {:induction false} DoneTight(h: Heap, c: Ctx, t: Tree, threshold: nat)
    requires TightBefore(h, c, t) && Size(t) <= threshold
    ensures TightRoot(h, Plug(c, t)) <==> EndsTight(h, c, t, threshold)
  {
    hide TightAt;
    TightPlug(h, c, t);
  }

  lemma {:induction false} PushTight(h: Heap, t: Tree, first: Id)
    requires Laid(h, Top, t) && Distinct(Ids(t)) && first !in h && TightRoot(h, t)
    ensures var h', c := Pushed(h, t, first), Down(Top, t.id, [], []);
            TightRoot(h', Rename(t, first)) && TightAround(h', c)
  {
    hide TightAt, TightTree;
    IdsIn(h, t);
    if t.Inner? {
      NotInside(t);
      HoldsKids(h, t);
      TightAllFrame(h, Pushed(h, t, first), t.kids);
    }
  }

  // One level of split with the parent refreshed: what is left to do is the same for the parent.
  lemma {:induction false} NextTight(h: Heap, path: seq<PathElement>, path': seq<PathElement>, c: Ctx, t: Tree, id: Id,
                                     d: nat, threshold: nat)
    requires TightOver(h, path, c, t, d, threshold) && id !in h && Size(t) > threshold
    requires OnPath(path', c.up) && PathIn(path', AfterSplit(h, path, c, t, id))
    requires DepthOf(c) <= |path'| && path'[DepthOf(c) - 1].node == c.id
    ensures var h', p := ResetH(AfterSplit(h, path, c, t, id), path', c.id, DepthOf(c) - 1), Parent(c, t, id);
            && TightBefore(h', c.up, p)
            && (EndsTight(h', c.up, p, threshold) <==> EndsTight(h, c, t, threshold))
  {
    hide Fits, IdsCtx, Ids, IdsAll, Fullish, CtxOk, NodeOk, LimAt, ResetH, OnPath, PathIn, TightAt, TightCtx;
    var h5, p := AfterSplit(h, path, c, t, id), Parent(c, t, id);
    SplitLevel(h, path, c, t, id, d, threshold);
    LevelTight(h, path, c, t, id, d, threshold);
    hide AfterSplit;
    if c.up.Top? {
      ResetOwn(h5, path', c.up, p, d + 1, threshold + 1);
    } else {
      OwnStageTight(h5, path', c.up, p, d + 1, threshold + 1);
    }
  }

  // ---------------------------------------------------------------- a whole insertion

  // A leaf that has taken in one more pair, and resetLimits called on it.
  lemma {:induction false} InsertTight(h: Heap, next: Id, root: Id, threshold: nat, path: seq<PathElement>, c: Ctx,
                                       leaf: Tree, items: seq<Pair>)
    requires leaf.Leaf? && Good(h, next, root, threshold, Plug(c, leaf)) && path == PathOf(c)
    requires |items| == |leaf.items| + 1 && Sorted(Before(c) + items + After(c))
    requires TightRoot(h, Plug(c, leaf))
    ensures leaf.id in h
    ensures var h1 := h[leaf.id := h[leaf.id].(items := Some(items))];
            && PathIn(path, h1) && |path| == DepthOf(c)
            && var h' := ResetH(h1, path, leaf.id, |path| - 1);
               TightBefore(h', c, Leaf(leaf.id, items)) && ParentTight(h', c)
  {
    hide Fits, IdsCtx, Ids, IdsAll, Fullish, CtxOk, LimAt, ResetH, OnPath, Sorted, Distinct, TightAt, RootOk, Flat;
    NodeFacts(h, next, root, threshold, c, leaf);
    hide Good;
    var h1, leaf' := h[leaf.id := h[leaf.id].(items := Some(items))], Leaf(leaf.id, items);
    LeafReplaced(h, h1, next, root, threshold, c, leaf, items);
    FitsApart(c, leaf', 0, threshold + 1);
    HoldsCtxIds(h1, c, leaf.id);
    PathFacts(c);
    hide PathOf, NodeOk;
    if c.Down? {
      TightPlug(h, c, leaf);
      hide Plug;
      OldHolds(h, h1, c, leaf, leaf');
      AroundFrame(h, h1, c, leaf.id);
      if c.up.Down? && h1[leaf.id].limits == Outer(h1, leaf.id) {
        OuterKept(h, h1, c, leaf.id);
      }
      PathOnPath(path, c);
      ResetTight(h1, path, c, leaf', 0, threshold + 1);
    }
  }

  lemma {:induction false} OldHolds(h: Heap, h1: Heap, c: Ctx, leaf: Tree, leaf': Tree)
    requires leaf.Leaf? && leaf'.Leaf? && leaf'.id == leaf.id && leaf.id in h && leaf.id !in IdsCtx(c)
    requires h1.Keys == h.Keys && (forall x :: x in h && x != leaf.id ==> h1[x] == h[x])
    requires HoldsCtx(h1, c, leaf.id)
    ensures HoldsCtx(h, c, leaf.id) && SameNodes(h, h1, IdsCtx(c)) && SameNodes(h1, h, IdsCtx(c))
  {
    hide IdsCtx;
    HoldsCtxFrame(h1, h, c, leaf.id);
  }

  lemma PathOnPath(path: seq<PathElement>, c: Ctx)
    requires path == PathOf(c)
    ensures OnPath(path, c)
  {
    assert path == PathOf(c) + [];
    OnPathOf(path, c, []);
  }

  // The leaf that takes in a new pair at index k of the listing: the one with the pair before it, or
  // the first.
  ghost predicate TakesIn(t: Tree, c: Ctx, leaf: Tree, k: nat) {
    && leaf.Leaf? && Plug(c, leaf) == t
    && if k == 0 then Before(c) == [] else |Before(c)| < k <= |Before(c)| + |leaf.items|
  }

  // The insertion of a new pair at index k leaves an upper limit behind.
  ghost predicate InsertLags(t: Tree, k: nat, threshold: nat) {
    exists c, leaf :: TakesIn(t, c, leaf, k) && LeavesLag(c, |leaf.items| + 1, threshold)
  }

  lemma {:induction false} OneTakesIn(t: Tree, d: nat, threshold: nat, c: Ctx, leaf: Tree, c': Ctx, leaf': Tree, k: nat)
    requires NodeOk(t, d, threshold) && TakesIn(t, c, leaf, k) && TakesIn(t, c', leaf', k)
    ensures c == c' && leaf == leaf'
    decreases t
  {
    if c.Top? || c'.Top? {
      PlugsLeaf(c, leaf);
      PlugsLeaf(c', leaf');
    } else {
      var (l, r, cj) := OuterFrame(c);
      var (l', r', cj') := OuterFrame(c');
      OuterFrameProps(c, leaf);
      OuterFrameProps(c', leaf');
      var x, x' := Plug(cj, leaf), Plug(cj', leaf');
      FlatPlug(cj, leaf);
      FlatPlug(cj', leaf');
      NotFurther(t.kids, l, x, l', x', d, threshold, |Before(cj)|, |leaf.items|, |Before(cj')|, k);
      NotFurther(t.kids, l', x', l, x, d, threshold, |Before(cj')|, |leaf'.items|, |Before(cj)|, k);
      assert t.kids[|l|] == x && t.kids[|l'|] == x';
      assert l == t.kids[..|l|] && l' == t.kids[..|l'|] && r == t.kids[|l| + 1..] && r' == t.kids[|l'| + 1..];
      var k' := k - |FlatAll(l)|;
      OneTakesIn(x, d - 1, threshold, cj, leaf, cj', leaf', k');
      OuterFrameIs(c);
      OuterFrameIs(c');
    }
  }

  lemma {:induction false} PlugsLeaf(c: Ctx, leaf: Tree)
    requires leaf.Leaf?
    ensures Plug(c, leaf).Leaf? <==> c.Top?
  {
    if c.Down? {
      PlugIsInner(c, leaf);
    }
  }

  // The place of index k is not in a kid further on.
  lemma {:induction false} NotFurther(ks: seq<Tree>, l: seq<Tree>, x: Tree, l': seq<Tree>, x': Tree, d: nat,
                                      threshold: nat, before: nat, items: nat, before': nat, k: nat)
    requires d > 0 && AllOk(ks, d - 1, threshold) && l + [x] <= ks && l' + [x'] <= ks
    requires before + items <= |Flat(x)|
    requires if k == 0 then |FlatAll(l)| + before == 0 else k <= |FlatAll(l)| + before + items
    requires if k == 0 then |FlatAll(l')| + before' == 0 else |FlatAll(l')| + before' < k
    ensures |l'| <= |l|
  {
    if |l'| > |l| {
      assert l + [x] <= l';
      var rest := l'[|l| + 1..];
      assert l' == (l + [x]) + rest;
      FlatAllAppend(l + [x], rest);
      FlatAllAppend(l, [x]);
      FlatAllSingle(x);
      assert ks[|l|] == x;
      NonEmpty(x, d - 1, threshold);
    }
  }

  // There is one such leaf.
  lemma {:induction false} TightPlaces(h: Heap, next: Id, root: Id, threshold: nat, t: Tree, c: Ctx, leaf: Tree, k: nat)
    requires Good(h, next, root, threshold, t) && TakesIn(t, c, leaf, k)
    ensures InsertLags(t, k, threshold) <==> LeavesLag(c, |leaf.items| + 1, threshold)
  {
    if InsertLags(t, k, threshold) {
      var c', leaf' :| TakesIn(t, c', leaf', k) && LeavesLag(c', |leaf'.items| + 1, threshold);
      if t.Leaf? {
        PlugsLeaf(c, leaf);
        PlugsLeaf(c', leaf');
      } else {
        var d: nat :| NodeOk(t, d, threshold);
        OneTakesIn(t, d, threshold, c, leaf, c', leaf', k);
      }
    }
  }

  // Other values in a leaf change no limits.
  lemma {:induction false} ValuesTight(h: Heap, next: Id, root: Id, threshold: nat, c: Ctx, leaf: Tree,
                                       items: seq<Pair>)
    requires leaf.Leaf? && leaf.items != [] && Good(h, next, root, threshold, Plug(c, leaf))
    requires |items| == |leaf.items| && forall i :: 0 <= i < |items| ==> items[i].key == leaf.items[i].key
    requires TightRoot(h, Plug(c, leaf))
    ensures leaf.id in h
    ensures TightRoot(h[leaf.id := h[leaf.id].(items := Some(items))], Plug(c, Leaf(leaf.id, items)))
  {
    hide Ids, IdsCtx, Distinct, Sorted, LimAt, CtxOk;
    LeafFull(c, leaf, threshold);
    var d := GoodOpens(h, next, root, threshold, c, leaf);
    FitsApart(c, leaf, d, threshold);
    var h', leaf' := h[leaf.id := h[leaf.id].(items := Some(items))], Leaf(leaf.id, items);
    hide Good, Fits, TightCtx;
    TightPlug(h, c, leaf);
    TightPlug(h', c, leaf');
    if c.Down? {
      assert TightTree(h', leaf') by {
        assert TightAt(h, leaf.id);
      }
      hide TightAt, Holds;
      TightCtxFrame(h, h', c, leaf.id);
    }
  }

  // AfterSplit is defined.
  ghost predicate Halves(h: Heap, path: seq<PathElement>, c: Ctx, t: Tree) {
    c.Down? && DepthOf(c) <= |path| && Size(t) >= 4 && t.id in h && c.id in h && PathIn(path, h)
  }
}

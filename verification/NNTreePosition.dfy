/**
 * Where an iterator is, as a context and a leaf, and how split moves it: the item it denotes keeps
 * its place in the listing of the tree.
 */
module NNTreePosition {
  import opened Wrappers
  import opened NNTreeModel
  import opened NNTreeLimits
  import opened NNTreeSplit

  // An item inside some subtree.
  datatype Spot = Spot(ctx: Ctx, leaf: Tree, item: int)

  ghost predicate SpotIn(s: Spot, t: Tree) {
    Plug(s.ctx, s.leaf) == t && s.leaf.Leaf? && 0 <= s.item < |s.leaf.items|
  }

  function Rank(s: Spot): int {
    |Before(s.ctx)| + s.item
  }

  // The item at a spot is the one that the listing has at its rank.
  lemma SpotItem(s: Spot, t: Tree)
    requires SpotIn(s, t)
    ensures 0 <= Rank(s) < |Flat(t)| && Flat(t)[Rank(s)] == s.leaf.items[s.item]
  {
    FlatPlug(s.ctx, s.leaf);
  }

  // The outermost frame of a context, and what is left inside it.
  function OuterFrame(ci: Ctx): (r: (seq<Tree>, seq<Tree>, Ctx))
    requires ci.Down?
  {
    if ci.up.Top? then
      (ci.left, ci.right, Top)
    else
      var (l, r, cj) := OuterFrame(ci.up);
      (l, r, Down(cj, ci.id, ci.left, ci.right))
  }

  lemma {:induction false} OuterFrameIs(ci: Ctx)
    requires ci.Down?
    ensures var (l, r, cj) := OuterFrame(ci); ci == Compose(Down(Top, RootId(ci), l, r), cj)
  {
    if ci.up.Down? {
      OuterFrameIs(ci.up);
    }
  }

  lemma OuterFrameProps(ci: Ctx, t: Tree)
    requires ci.Down?
    ensures var (l, r, cj) := OuterFrame(ci);
            && Plug(ci, t) == Inner(RootId(ci), l + [Plug(cj, t)] + r)
            && PathOf(ci) == [PathElement(RootId(ci), |l|)] + PathOf(cj)
            && Before(ci) == FlatAll(l) + Before(cj)
  {
    OuterFrameIs(ci);
    var (l, r, cj) := OuterFrame(ci);
    ComposeProps(Down(Top, RootId(ci), l, r), cj, t);
  }

  ghost predicate InSecond(t: Tree, s: Spot)
    requires SpotIn(s, t) && Size(t) >= 4
  {
    if s.ctx.Top? then s.item >= Cut(t) else |OuterFrame(s.ctx).0| >= Cut(t)
  }

  // The spot s of t after the split, seen from the parent of both halves.
  ghost function MoveSpot(c: Ctx, t: Tree, s: Spot, id: Id): Spot
    requires c.Down? && SpotIn(s, t) && Size(t) >= 4
  {
    var a, b, k := FirstHalf(t), SecondHalf(t, id), Cut(t);
    var first := Down(Top, c.id, c.left, [b] + c.right);
    var second := Down(Top, c.id, c.left + [a], c.right);
    if s.ctx.Top? then
      if s.item >= k then Spot(second, b, s.item - k) else Spot(first, a, s.item)
    else
      var (l, r, cj) := OuterFrame(s.ctx);
      if |l| >= k then
        Spot(Compose(Down(second, id, l[k..], r), cj), s.leaf, s.item)
      else
        OuterFrameProps(s.ctx, s.leaf);
        CutBounds(t);
        Spot(Compose(Down(first, t.id, l, r[..k - |l| - 1]), cj), s.leaf, s.item)
  }

  lemma TwoFrames(f: Ctx, t: Tree)
    requires f.Down? && f.up.Down? && f.up.up.Top?
    ensures Plug(f, t) == Inner(f.up.id, f.up.left + [Inner(f.id, f.left + [t] + f.right)] + f.up.right)
    ensures Before(f) == FlatAll(f.up.left) + FlatAll(f.left)
    ensures PathOf(f) == [PathElement(f.up.id, |f.up.left|), PathElement(f.id, |f.left|)]
  {
    assert Before(f.up) == FlatAll(f.up.left);
    assert PathOf(f.up) == [PathElement(f.up.id, |f.up.left|)];
    assert Plug(f.up, Inner(f.id, f.left + [t] + f.right)) ==
           Inner(f.up.id, f.up.left + [Inner(f.id, f.left + [t] + f.right)] + f.up.right);
  }

  // It is a spot of the parent, at the same place in the listing, ...
  lemma MoveSpotKeeps(c: Ctx, t: Tree, s: Spot, id: Id)
    requires c.Down? && SpotIn(s, t) && Size(t) >= 4
    ensures var s' := MoveSpot(c, t, s, id);
            SpotIn(s', Parent(c, t, id)) && Rank(s') == |FlatAll(c.left)| + Rank(s)
  {
    var a, b, k := FirstHalf(t), SecondHalf(t, id), Cut(t);
    CutBounds(t);
    FlatAllAppend(c.left, [a]);
    FlatAllSingle(a);
    assert c.left + [a, b] + c.right == c.left + [a] + ([b] + c.right) == (c.left + [a]) + [b] + c.right;
    if s.ctx.Down? {
      var (l, r, cj) := OuterFrame(s.ctx);
      var m := Plug(cj, s.leaf);
      OuterFrameProps(s.ctx, s.leaf);
      assert t.kids == l + [m] + r;
      if |l| >= k {
        assert t.kids[k..] == l[k..] + [m] + r && t.kids[..k] == l[..k];
        assert l == l[..k] + l[k..];
        FlatAllAppend(l[..k], l[k..]);
        var f := Down(Down(Top, c.id, c.left + [a], c.right), id, l[k..], r);
        ComposeProps(f, cj, s.leaf);
        TwoFrames(f, m);
      } else {
        assert t.kids[..k] == l + [m] + r[..k - |l| - 1];
        var f := Down(Down(Top, c.id, c.left, [b] + c.right), t.id, l, r[..k - |l| - 1]);
        assert MoveSpot(c, t, s, id) == Spot(Compose(f, cj), s.leaf, s.item);
        ComposeProps(f, cj, s.leaf);
        TwoFrames(f, m);
      }
    }
  }

  // ... and this is its path.
  lemma MoveSpotPath(c: Ctx, t: Tree, s: Spot, id: Id)
    requires c.Down? && SpotIn(s, t) && Size(t) >= 4
    ensures var s' := MoveSpot(c, t, s, id);
            var n := |c.left| + if InSecond(t, s) then 1 else 0;
            if s.ctx.Top? then
              PathOf(s'.ctx) == [PathElement(c.id, n)]
            else
              var l := |OuterFrame(s.ctx).0|;
              && |PathOf(s.ctx)| > 0
              && PathOf(s'.ctx) == [PathElement(c.id, n)] + PathOf(s.ctx)[0 :=
                   if InSecond(t, s) then PathElement(id, l - Cut(t)) else PathElement(t.id, l)]
  {
    if s.ctx.Down? {
      var a, b, k := FirstHalf(t), SecondHalf(t, id), Cut(t);
      CutBounds(t);
      var (l, r, cj) := OuterFrame(s.ctx);
      OuterFrameProps(s.ctx, s.leaf);
      if |l| >= k {
        var f := Down(Down(Top, c.id, c.left + [a], c.right), id, l[k..], r);
        ComposeProps(f, cj, s.leaf);
        TwoFrames(f, s.leaf);
      } else {
        var f := Down(Down(Top, c.id, c.left, [b] + c.right), t.id, l, r[..k - |l| - 1]);
        assert MoveSpot(c, t, s, id) == Spot(Compose(f, cj), s.leaf, s.item);
        ComposeProps(f, cj, s.leaf);
        TwoFrames(f, s.leaf);
      }
    }
  }

  // The whole path before and after.
  ghost function MovedPath(path: seq<PathElement>, c: Ctx, t: Tree, s: Spot, id: Id): seq<PathElement>
    requires c.Down? && SpotIn(s, t) && Size(t) >= 4 && DepthOf(c) <= |path| && (s.ctx.Down? ==> DepthOf(c) < |path|)
  {
    var n := DepthOf(c) - 1;
    if !InSecond(t, s) then
      path
    else if s.ctx.Top? then
      path[n := PathElement(c.id, |c.left| + 1)]
    else
      path[n := PathElement(c.id, |c.left| + 1)][n + 1 := PathElement(id, |OuterFrame(s.ctx).0| - Cut(t))]
  }

  lemma SplitPaths(c: Ctx, t: Tree, s: Spot, id: Id)
    requires c.Down? && SpotIn(s, t) && Size(t) >= 4
    ensures var path := PathOf(Compose(c, s.ctx));
            var n := DepthOf(c) - 1;
            && |path| > n && path[n] == PathElement(c.id, |c.left|) && (s.ctx.Top? <==> t.Leaf?)
            && (s.ctx.Down? ==> |path| > n + 1 && path[n + 1] == PathElement(t.id, |OuterFrame(s.ctx).0|))
            && PathOf(Compose(c.up, MoveSpot(c, t, s, id).ctx)) == MovedPath(path, c, t, s, id)
  {
    hide MoveSpot, PathOf, Compose, OuterFrame, InSecond, Cut;
    PathParts(c, t, s, id);
    MoveSpotPath(c, t, s, id);
    var s' := MoveSpot(c, t, s, id);
    var e, e' := PathElement(c.id, |c.left|), PathElement(c.id, |c.left| + if InSecond(t, s) then 1 else 0);
    var up, q := PathOf(c.up), PathOf(s.ctx);
    if s.ctx.Down? {
      TwoUpdates(up, e, e', q, if InSecond(t, s) then PathElement(id, |OuterFrame(s.ctx).0| - Cut(t)) else q[0]);
    } else {
      OneUpdate(up, e, e');
    }
  }

  // The parent stays where it is on the path.
  lemma MovedAt(c: Ctx, t: Tree, s: Spot, id: Id)
    requires c.Down? && SpotIn(s, t) && Size(t) >= 4
    ensures var path' := PathOf(Compose(c.up, MoveSpot(c, t, s, id).ctx));
            |path'| > DepthOf(c.up) && path'[DepthOf(c.up)].node == c.id
  {
    hide MoveSpot, PathOf, Compose, OuterFrame, InSecond, Cut;
    PathParts(c, t, s, id);
    MoveSpotPath(c, t, s, id);
  }

  lemma PathParts(c: Ctx, t: Tree, s: Spot, id: Id)
    requires c.Down? && SpotIn(s, t) && Size(t) >= 4
    ensures PathOf(Compose(c, s.ctx)) == (PathOf(c.up) + [PathElement(c.id, |c.left|)]) + PathOf(s.ctx)
    ensures PathOf(Compose(c.up, MoveSpot(c, t, s, id).ctx)) == PathOf(c.up) + PathOf(MoveSpot(c, t, s, id).ctx)
    ensures |PathOf(c.up)| == DepthOf(c) - 1 && (s.ctx.Top? <==> t.Leaf?)
    ensures s.ctx.Top? ==> PathOf(s.ctx) == []
    ensures s.ctx.Down? ==> |PathOf(s.ctx)| > 0 && PathOf(s.ctx)[0] == PathElement(t.id, |OuterFrame(s.ctx).0|)
  {
    var s' := MoveSpot(c, t, s, id);
    ComposeProps(c, s.ctx, s.leaf);
    ComposeProps(c.up, s'.ctx, s'.leaf);
    PathFacts(c.up);
    if s.ctx.Down? {
      OuterFrameProps(s.ctx, s.leaf);
    }
  }

  lemma OneUpdate(up: seq<PathElement>, e: PathElement, e': PathElement)
    ensures ((up + [e]) + [])[|up| := e'] == up + [e']
  {
  }

  lemma TwoUpdates(up: seq<PathElement>, e: PathElement, e': PathElement, q: seq<PathElement>, f: PathElement)
    requires |q| > 0
    ensures var n, path := |up|, (up + [e]) + q;
            && path[n := e'][n + 1 := f] == up + ([e'] + q[0 := f])
            && path[n] == e && path[n + 1] == q[0]
            && (e == e' && f == q[0] ==> path == up + ([e'] + q[0 := f]))
  {
  }

  // The parent's /Kids with the new node put in after the old one.
  lemma NewKid(c: Ctx, t: Tree, id: Id)
    requires c.Down? && Size(t) >= 4
    ensures var ks, n := IdsOf(c.left) + [t.id] + IdsOf(c.right), |c.left|;
            ks[..n + 1] + [id] + ks[n + 1..] == IdsOf(Parent(c, t, id).kids)
  {
    var a, b := FirstHalf(t), SecondHalf(t, id);
    assert a.id == t.id && b.id == id;
    hide FirstHalf, SecondHalf;
    IdsOfTwo(c.left, a, b, c.right);
    hide IdsOf;
    PutIdIn(IdsOf(c.left), t.id, id, IdsOf(c.right));
    IdsOfLength(c.left);
  }

  lemma IdsOfLength(ts: seq<Tree>)
    ensures |IdsOf(ts)| == |ts|
  {
  }

  lemma IdsOfTwo(l: seq<Tree>, a: Tree, b: Tree, r: seq<Tree>)
    ensures IdsOf(l + [a, b] + r) == IdsOf(l) + [a.id, b.id] + IdsOf(r)
  {
  }

  lemma PutIdIn(l: seq<Id>, x: Id, y: Id, r: seq<Id>)
    ensures var ks, n := l + [x] + r, |l|; ks[..n + 1] + [y] + ks[n + 1..] == l + [x, y] + r
  {
    var ks, n := l + [x] + r, |l|;
    assert ks[..n + 1] == l + [x] && ks[n + 1..] == r;
  }

  // ---------------------------------------------------------------- splitting the root

  function Rename(t: Tree, id: Id): Tree {
    match t
    case Leaf(_, items) => Leaf(id, items)
    case Inner(_, kids) => Inner(id, kids)
  }

  // The root's contents move to a new node, its only kid.
  ghost function Pushed(h: Heap, t: Tree, first: Id): Heap
  {
    h[first := Record(t, None)][t.id := Node(None, None, Some([first]))]
  }

  ghost function PushSpot(s: Spot, first: Id): Spot {
    if s.ctx.Top? then
      Spot(Top, Rename(s.leaf, first), s.item)
    else
      var (l, r, cj) := OuterFrame(s.ctx);
      Spot(Compose(Down(Top, first, l, r), cj), s.leaf, s.item)
  }

  lemma PushSpotKeeps(t: Tree, s: Spot, first: Id)
    requires SpotIn(s, t)
    ensures var s' := PushSpot(s, first);
            && SpotIn(s', Rename(t, first)) && Rank(s') == Rank(s)
            && (s.ctx.Top? ==> s'.ctx.Top?)
    ensures var s' := PushSpot(s, first);
            s.ctx.Down? ==>
              && s'.ctx.Down? && |PathOf(s.ctx)| > 0
              && PathOf(s'.ctx) == PathOf(s.ctx)[0 := PathElement(first, PathOf(s.ctx)[0].kidNumber)]
              && OuterFrame(s'.ctx).0 == OuterFrame(s.ctx).0
  {
    if s.ctx.Down? {
      var (l, r, cj) := OuterFrame(s.ctx);
      OuterFrameProps(s.ctx, s.leaf);
      ComposeProps(Down(Top, first, l, r), cj, s.leaf);
      PushFrame(s.ctx, first);
    }
  }

  lemma {:induction false} PushFrame(ci: Ctx, first: Id)
    requires ci.Down?
    ensures var (l, r, cj) := OuterFrame(ci);
            var ci' := Compose(Down(Top, first, l, r), cj);
            ci'.Down? && OuterFrame(ci') == (l, r, cj)
  {
    if ci.up.Down? {
      PushFrame(ci.up, first);
    }
  }

  lemma {:induction false} PushLaid(h: Heap, t: Tree, first: Id, d: nat, threshold: nat)
    requires Laid(h, Top, t) && first !in h && h[t.id].limits == None && threshold > 0
    requires Fullish(t, d, threshold) && Fits(Top, t, d, threshold + 1)
    ensures var h', c, t' := Pushed(h, t, first), Down(Top, t.id, [], []), Rename(t, first);
            && Laid(h', c, t') && Fullish(t', d, threshold) && CtxOk(c, d, threshold)
            && Fits(c, t', d, threshold + 1) && Flat(Plug(c, t')) == Flat(t)
            && t.id in h' && h'[t.id].limits == None
  {
    var h', c, t' := Pushed(h, t, first), Down(Top, t.id, [], []), Rename(t, first);
    PushIds(h, t, first);
    PushFlat(t, first);
    if t.Inner? {
      PushKids(h, h', t);
    }
    assert IdsOf([]) + [first] + IdsOf([]) == [first];
  }

  lemma {:induction false} PushIds(h: Heap, t: Tree, first: Id)
    requires Holds(h, t) && Distinct(IdsCtx(Top) + Ids(t)) && first !in h
    ensures Distinct(IdsCtx(Down(Top, t.id, [], [])) + Ids(Rename(t, first)))
  {
    var c, t' := Down(Top, t.id, [], []), Rename(t, first);
    IdsIn(h, t);
    assert IdsCtx(c) == multiset{t.id};
    forall x
      ensures (multiset{t.id} + Ids(t'))[x] <= 1
    {
      assert (multiset{} + Ids(t))[x] == Ids(t)[x];
    }
  }

  lemma PushFlat(t: Tree, first: Id)
    ensures var c, t' := Down(Top, t.id, [], []), Rename(t, first);
            && Flat(Plug(c, t')) == Flat(t) && Before(c) + Flat(t') + After(c) == Before(Top) + Flat(t) + After(Top)
  {
    var c, t' := Down(Top, t.id, [], []), Rename(t, first);
    FlatPlug(c, t');
    assert Flat(t') == Flat(t);
    assert Before(c) == [] && After(c) == [];
    assert [] + Flat(t) + [] == Flat(t);
  }

  lemma {:induction false} PushKids(h: Heap, h': Heap, t: Tree)
    requires t.Inner? && Holds(h, t) && LimRoot(h, t) && Distinct(multiset{} + Ids(t))
    requires forall x :: x in h && x != t.id ==> x in h' && h'[x] == h[x]
    ensures HoldsAll(h', t.kids) && LimAll(h', t.kids)
  {
    assert (multiset{} + Ids(t))[t.id] == Ids(t)[t.id] == 1 + IdsAll(t.kids)[t.id];
    HoldsAllFrame(h, h', t.kids);
    LimAllFrame(h, h', t.kids);
  }
}

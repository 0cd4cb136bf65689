/**
 * resetLimits of libqpdf/NNTree.cc as a function on documents, and what a call of it restores.
 *
 * The source calls it in three ways: on the node below the path element it is given, on a new node
 * that is not attached yet, and (after a split) on the node of that path element itself. Only the
 * first way carries on to the ancestors until nothing changes; the last one stops at the node, so
 * upper limits further up can stay too small. Lower limits are exact after every one of them.
 */
module NNTreeLimits {
  import opened Wrappers
  import opened NNTreeModel

  // The limits that the contents of a node, or the limits of its first and last kid, imply.
  function Outer(h: Heap, id: Id): Option<Limits>
    requires id in h
  {
    var items := h[id].items;
    var kids := h[id].kids;
    if items.Some? && |items.value| > 0 then
      Some(Limits(items.value[0].key, items.value[|items.value| - 1].key))
    else if kids.Some? && |kids.value| > 0 then
      var first, last := kids.value[0], kids.value[|kids.value| - 1];
      if first in h && h[first].limits.Some? && last in h && h[last].limits.Some? then
        Some(Limits(h[first].limits.value.lo, h[last].limits.value.hi))
      else
        None
    else
      None
  }

  ghost predicate PathIn(path: seq<PathElement>, h: Heap) {
    forall i :: 0 <= i < |path| ==> path[i].node in h
  }

  // The document after resetLimits(a, parent), with -1 for the end of the path.
  ghost function ResetH(h: Heap, path: seq<PathElement>, a: Id, parent: int): (h': Heap)
    requires -1 <= parent < |path| && a in h && PathIn(path, h)
    ensures h'.Keys == h.Keys
    ensures forall x :: x in h ==> h'[x].items == h[x].items && h'[x].kids == h[x].kids
    decreases parent + 1
  {
    if parent == -1 then
      h[a := h[a].(limits := None)]
    else
      var outer := Outer(h, a);
      if outer.Some? && h[a].limits == outer then
        h
      else
        var h1 := if outer.Some? && a != path[0].node then h[a := h[a].(limits := outer)] else h;
        if parent == 0 then h1 else ResetH(h1, path, path[parent].node, parent - 1)
  }

  ghost function RootId(c: Ctx): Id
    requires c.Down?
  {
    if c.up.Top? then c.id else RootId(c.up)
  }

  // The elements of c are where the path begins.
  ghost predicate OnPath(path: seq<PathElement>, c: Ctx) {
    match c
    case Top => true
    case Down(up, id, l, _) =>
      DepthOf(up) < |path| && path[DepthOf(up)] == PathElement(id, |l|) && OnPath(path, up)
  }

  lemma {:induction false} OnPathRoot(path: seq<PathElement>, c: Ctx)
    requires OnPath(path, c) && c.Down?
    ensures path[0].node == RootId(c) && RootId(c) in IdsCtx(c)
  {
    if c.up.Down? {
      OnPathRoot(path, c.up);
    }
    assert c.id in IdsCtx(c);
  }

  lemma {:induction false} PathFacts(c: Ctx)
    ensures |PathOf(c)| == DepthOf(c)
    ensures c.Down? ==> |PathOf(c)| > 0 && PathOf(c)[0].node == RootId(c)
    ensures forall i :: 0 <= i < |PathOf(c)| ==> PathOf(c)[i].node in IdsCtx(c)
    ensures c.Down? ==> PathOf(c)[|PathOf(c)| - 1] == PathElement(c.id, |c.left|) && RootId(c) in IdsCtx(c)
  {
    if c.Down? {
      PathFacts(c.up);
      assert c.id in IdsCtx(c);
    }
  }

  lemma {:induction false} HoldsCtxIds(h: Heap, c: Ctx, hole: Id)
    requires HoldsCtx(h, c, hole)
    ensures PathIn(PathOf(c), h)
  {
    if c.Down? {
      HoldsCtxIds(h, c.up, c.id);
    }
  }

  lemma SortedPart(a: seq<Pair>, b: seq<Pair>, c: seq<Pair>)
    requires Sorted(a + b + c)
    ensures Sorted(b)
    ensures |a| > 0 && |b| > 0 ==> a[|a| - 1].key < b[0].key
    ensures |b| > 0 && |c| > 0 ==> b[|b| - 1].key < c[0].key
  {
    var s := a + b + c;
    forall i, j | 0 <= i < j < |b|
      ensures b[i].key < b[j].key
    {
      assert s[|a| + i] == b[i] && s[|a| + j] == b[j];
    }
    if |a| > 0 && |b| > 0 {
      assert s[|a| - 1] == a[|a| - 1] && s[|a|] == b[0];
    }
    if |b| > 0 && |c| > 0 {
      assert s[|a| + |b| - 1] == b[|b| - 1] && s[|a| + |b|] == c[0];
    }
  }

  // When the kids of a node have proper limits, so do the limits they imply.
  lemma {:induction false} OuterProps(h: Heap, t: Tree, d: nat, threshold: nat)
    requires Holds(h, t) && LimRoot(h, t) && NodeOk(t, d, threshold) && Sorted(Flat(t))
    ensures Outer(h, t.id).Some?
    ensures (t.Inner? ==> t.kids[0].id != t.id && t.kids[|t.kids| - 1].id != t.id)
            ==> LimAt(h[t.id := h[t.id].(limits := Outer(h, t.id))], t.id)
  {
    if t.Inner? {
      var n := |t.kids|;
      var first, last := t.kids[0], t.kids[n - 1];
      LimBounds(h, first, d - 1, threshold);
      LimBounds(h, last, d - 1, threshold);
      OuterKids(t);
      var s, sl := Flat(t), Flat(last);
      assert s[0] == Flat(first)[0];
      assert s[|s| - |sl|] == sl[0];
    }
  }

  // Restoring a node's limits disturbs nothing else in a tree without shared nodes.
  lemma {:induction false} SetLimits(h: Heap, t: Tree, lim: Option<Limits>)
    requires Holds(h, t) && Distinct(Ids(t)) && LimRoot(h, t)
    ensures var h' := h[t.id := h[t.id].(limits := lim)];
            Holds(h', t) && LimRoot(h', t)
    ensures t.Inner? && |t.kids| > 0 ==> t.kids[0].id != t.id && t.kids[|t.kids| - 1].id != t.id
  {
    var h' := h[t.id := h[t.id].(limits := lim)];
    HoldsFrame(h, h', t);
    if t.Inner? {
      assert Ids(t)[t.id] == 1 + IdsAll(t.kids)[t.id];
      LimAllFrame(h, h', t.kids);
      if |t.kids| > 0 {
        IdsAllMember(t.kids, 0);
        IdsAllMember(t.kids, |t.kids| - 1);
        assert t.kids[0].id in Ids(t.kids[0]) && t.kids[|t.kids| - 1].id in Ids(t.kids[|t.kids| - 1]);
      }
    }
  }

  lemma CtxParts(c: Ctx)
    requires c.Down?
    ensures IdsCtx(c.up) <= IdsCtx(c) && IdsAll(c.left) <= IdsCtx(c) && IdsAll(c.right) <= IdsCtx(c)
    ensures c.id in IdsCtx(c)
  {
    BagParts(IdsCtx(c.up), c.id, IdsAll(c.left), IdsAll(c.right));
  }

  lemma BagParts(a: multiset<Id>, id: Id, l: multiset<Id>, r: multiset<Id>)
    ensures a <= a + multiset{id} + l + r && l <= a + multiset{id} + l + r && r <= a + multiset{id} + l + r
    ensures id in a + multiset{id} + l + r
  {
  }

  // The limits of a hole may only be raised, and only at the upper end, without a look at its parent.
  ghost predicate Raised(h: Heap, h': Heap, hole: Id) {
    && hole in h && hole in h' && h[hole].limits.Some? && h'[hole].limits.Some?
    && h'[hole].limits.value.lo == h[hole].limits.value.lo
    && h[hole].limits.value.hi <= h'[hole].limits.value.hi
  }

  lemma {:induction false} LimCtxFrame(h: Heap, h': Heap, c: Ctx, hole: Id)
    requires HoldsCtx(h, c, hole) && LimCtx(h, c) && SameNodes(h, h', IdsCtx(c))
    requires c.Down? && c.up.Down? ==> Raised(h, h', hole)
    ensures LimCtx(h', c)
  {
    if c.Down? {
      CtxParts(c);
      LimAllFrame(h, h', c.left);
      LimAllFrame(h, h', c.right);
      if c.up.Down? {
        LimCtxFrame(h, h', c.up, c.id);
        assert LimAt(h', c.id) by {
          KeptKid(h, h', c, hole, 0);
          KeptKid(h, h', c, hole, |c.left| + |c.right|);
        }
      }
    }
  }

  lemma {:induction false} KeptKid(h: Heap, h': Heap, c: Ctx, hole: Id, i: nat)
    requires c.Down? && i <= |c.left| + |c.right|
    requires HoldsCtx(h, c, hole) && SameNodes(h, h', IdsCtx(c))
    ensures var k := h[c.id].kids.value[i]; k == hole || (k in h && k in h' && h'[k] == h[k])
    ensures |h[c.id].kids.value| == |c.left| + 1 + |c.right|
  {
    hide IdsCtx, Ids, IdsAll;
    CtxParts(c);
    var n := |c.left|;
    if i < n {
      KidInside(h, h', c.left, i);
    } else if i > n {
      KidInside(h, h', c.right, i - n - 1);
    }
  }

  lemma {:induction false} KidInside(h: Heap, h': Heap, ts: seq<Tree>, i: nat)
    requires i < |ts| && HoldsAll(h, ts) && SameNodes(h, h', IdsAll(ts))
    ensures var k := ts[i].id; k in h && k in h' && h'[k] == h[k]
  {
    IdsAllMember(ts, i);
    assert ts[i].id in Ids(ts[i]);
  }

  // Sizes, order and absence of sharing, for the subtree t in the hole of c.
  ghost predicate Fits(c: Ctx, t: Tree, d: nat, threshold: nat) {
    && Distinct(IdsCtx(c) + Ids(t))
    && CtxOk(c, d, threshold) && NodeOk(t, d, threshold)
    && Sorted(Before(c) + Flat(t) + After(c))
  }

  lemma SameBag(a: multiset<Id>, b: multiset<Id>, l: multiset<Id>, t: multiset<Id>, r: multiset<Id>)
    ensures a + (b + (l + t + r)) == (a + b + l + r) + t
  {
  }

  lemma SameList(a: seq<Pair>, l: seq<Pair>, t: seq<Pair>, r: seq<Pair>, z: seq<Pair>)
    ensures a + (l + t + r) + z == (a + l) + t + (r + z)
  {
  }

  lemma AllOkMiddle(l: seq<Tree>, t: Tree, r: seq<Tree>, d: nat, threshold: nat)
    requires AllOk(l, d, threshold) && NodeOk(t, d, threshold) && AllOk(r, d, threshold)
    ensures AllOk(l + [t] + r, d, threshold)
  {
    var ks := l + [t] + r;
    forall i | 0 <= i < |ks|
      ensures NodeOk(ks[i], d, threshold)
    {
      if i > |l| {
        assert ks[i] == r[i - |l| - 1];
      }
    }
  }

  lemma FitsUp(c: Ctx, t: Tree, d: nat, threshold: nat)
    requires c.Down? && Fits(c, t, d, threshold)
    ensures Fits(c.up, Inner(c.id, c.left + [t] + c.right), d + 1, threshold)
  {
    var p := Inner(c.id, c.left + [t] + c.right);
    IdsAllMiddle(c.left, t, c.right);
    SameBag(IdsCtx(c.up), multiset{c.id}, IdsAll(c.left), Ids(t), IdsAll(c.right));
    FlatAllMiddle(c.left, t, c.right);
    SameList(Before(c.up), FlatAll(c.left), Flat(t), FlatAll(c.right), After(c.up));
    AllOkMiddle(c.left, t, c.right, d, threshold);
  }

  lemma FitsApart(c: Ctx, t: Tree, d: nat, threshold: nat)
    requires Fits(c, t, d, threshold)
    ensures Distinct(Ids(t)) && t.id !in IdsCtx(c) && Sorted(Flat(t))
    ensures NodeOk(t, d, threshold) && CtxOk(c, d, threshold)
  {
    SortedPart(Before(c), Flat(t), After(c));
    assert t.id in Ids(t);
    forall x
      ensures Ids(t)[x] <= 1 && (x in Ids(t) ==> x !in IdsCtx(c))
    {
      assert (IdsCtx(c) + Ids(t))[x] == IdsCtx(c)[x] + Ids(t)[x];
    }
  }

  // The node around a hole, once the hole is filled with a subtree whose limits are in order.
  lemma {:induction false} FillHole(h: Heap, c: Ctx, t: Tree)
    requires c.Down? && HoldsCtx(h, c, t.id) && Holds(h, t) && LimTree(h, t)
    requires LimAll(h, c.left) && LimAll(h, c.right)
    ensures var p := Inner(c.id, c.left + [t] + c.right);
            Holds(h, p) && LimRoot(h, p)
  {
    var p := Inner(c.id, c.left + [t] + c.right);
    HoldsPlug(h, c, t);
    HoldsPlug(h, c.up, p);
    forall i | 0 <= i < |p.kids|
      ensures LimTree(h, p.kids[i])
    {
      if i > |c.left| {
        assert p.kids[i] == c.right[i - |c.left| - 1];
      }
    }
  }

  lemma {:induction false} EmptyHole(h: Heap, c: Ctx, t: Tree)
    requires c.Down? && LimAll(h, c.left + [t] + c.right)
    ensures LimAll(h, c.left) && LimAll(h, c.right) && LimTree(h, t)
  {
    var ks := c.left + [t] + c.right;
    assert ks[|c.left|] == t;
    assert forall i :: 0 <= i < |c.left| ==> ks[i] == c.left[i];
    assert forall i :: 0 <= i < |c.right| ==> ks[|c.left| + 1 + i] == c.right[i];
  }

  // Only the nodes of c, and not the root, may have changed.
  ghost predicate OnlyIn(h: Heap, h': Heap, c: Ctx, t: Tree) {
    && h'.Keys == h.Keys
    && forall x :: x in h && ((x !in IdsCtx(c) && x != t.id) || (c.Down? && x == RootId(c))) ==> h'[x] == h[x]
  }

  // What resetLimits has restored when it is done with the subtree t and the nodes around it.
  ghost predicate Restored(h: Heap, h': Heap, c: Ctx, t: Tree) {
    && LimCtx(h', c) && OnlyIn(h, h', c, t)
    && if c.Top? then LimRoot(h', t) && t.id in h' && h'[t.id].limits == None else LimTree(h', t)
  }

  // Setting the limits of t itself to what its contents imply.
  lemma {:induction false} SetOwn(h: Heap, path: seq<PathElement>, c: Ctx, t: Tree, d: nat, threshold: nat)
    requires OnPath(path, c) && HoldsCtx(h, c, t.id) && Holds(h, t) && Fits(c, t, d, threshold) && LimRoot(h, t)
    ensures c.Down? ==> path[0].node != t.id
    ensures var outer := Outer(h, t.id);
            var h1 := h[t.id := h[t.id].(limits := outer)];
            outer.Some? && Holds(h1, t) && LimTree(h1, t) && OnlyIn(h, h1, c, t)
  {
    FitsApart(c, t, d, threshold);
    OuterProps(h, t, d, threshold);
    SetLimits(h, t, Outer(h, t.id));
    if c.Down? {
      OnPathRoot(path, c);
    }
  }

  // Called on the subtree t in the hole of c, resetLimits leaves all limits in order.
  lemma {:induction false} ResetAttached(h: Heap, path: seq<PathElement>, c: Ctx, t: Tree, d: nat, threshold: nat)
    requires OnPath(path, c) && PathIn(path, h)
    requires HoldsCtx(h, c, t.id) && Holds(h, t) && Fits(c, t, d, threshold)
    requires LimRoot(h, t) && LimCtx(h, c)
    ensures Restored(h, ResetH(h, path, t.id, DepthOf(c) - 1), c, t)
    decreases c, 1
  {
    hide Fits, IdsCtx, Ids, IdsAll, LimAt, OnlyIn, NodeOk;
    if c.Top? {
      ResetRoot(h, path, t, d, threshold);
    } else {
      SetOwn(h, path, c, t, d, threshold);
      var h1 := h[t.id := h[t.id].(limits := Outer(h, t.id))];
      if h[t.id].limits == Outer(h, t.id) {
        assert h1 == h;
        OnlyInSelf(h, c, t);
      } else {
        ResetStep(h, h1, path, c, t, d, threshold);
        OnlyInTrans(h, h1, ResetH(h, path, t.id, DepthOf(c) - 1), c, t);
      }
    }
  }

  lemma {:induction false} ResetRoot(h: Heap, path: seq<PathElement>, t: Tree, d: nat, threshold: nat)
    requires PathIn(path, h) && Holds(h, t) && Fits(Top, t, d, threshold) && LimRoot(h, t)
    ensures Restored(h, ResetH(h, path, t.id, -1), Top, t)
  {
    hide Fits, IdsCtx, Ids, IdsAll, LimAt, NodeOk;
    FitsApart(Top, t, d, threshold);
    SetLimits(h, t, None);
  }

  lemma {:induction false} OnlyInTrans(h0: Heap, h1: Heap, h2: Heap, c: Ctx, t: Tree)
    requires OnlyIn(h0, h1, c, t) && OnlyIn(h1, h2, c, t)
    ensures OnlyIn(h0, h2, c, t)
  {
  }

  lemma {:induction false} StepDone(h: Heap, h': Heap, c: Ctx, t: Tree)
    requires c.Down? && c.up.Down?
    requires var p := Inner(c.id, c.left + [t] + c.right);
             Restored(h, h', c.up, p)
    ensures Restored(h, h', c, t)
  {
    EmptyHole(h', c, t);
    CtxParts(c);
  }

  // The rest of the way up once the limits of t have been set.
  lemma {:induction false} ResetStep(h: Heap, h1: Heap, path: seq<PathElement>, c: Ctx, t: Tree, d: nat, threshold: nat)
    requires c.Down? && OnPath(path, c) && PathIn(path, h1)
    requires HoldsCtx(h, c, t.id) && LimCtx(h, c) && Fits(c, t, d, threshold)
    requires t.id in h && h1.Keys == h.Keys && (forall x :: x in h && x != t.id ==> h1[x] == h[x])
    requires Holds(h1, t) && LimTree(h1, t)
    ensures var h' := if DepthOf(c.up) == 0 then h1 else ResetH(h1, path, c.id, DepthOf(c.up) - 1);
            Restored(h1, h', c, t)
    decreases c, 0
  {
    hide Fits, IdsCtx, Ids, IdsAll, LimAt, Holds, OnlyIn;
    AroundOne(h, h1, c, t, d, threshold);
    if c.up.Down? {
      var p := Inner(c.id, c.left + [t] + c.right);
      FillHole(h1, c, t);
      FitsUp(c, t, d, threshold);
      ResetAttached(h1, path, c.up, p, d + 1, threshold);
      StepDone(h1, ResetH(h1, path, c.id, DepthOf(c.up) - 1), c, t);
    } else {
      OnlyInSelf(h1, c, t);
      assert c.up == Top && DepthOf(c.up) == 0;
      assert LimCtx(h1, c.up);
      assert LimTree(h1, t);
      assert LimCtx(h1, c);
    }
  }

  lemma {:induction false} OnlyInSelf(h: Heap, c: Ctx, t: Tree)
    ensures OnlyIn(h, h, c, t)
  {
  }

  // Nothing around t noticed.
  lemma {:induction false} AroundOne(h: Heap, h1: Heap, c: Ctx, t: Tree, d: nat, threshold: nat)
    requires c.Down? && HoldsCtx(h, c, t.id) && LimCtx(h, c) && Fits(c, t, d, threshold)
    requires t.id in h && h1.Keys == h.Keys && (forall x :: x in h && x != t.id ==> h1[x] == h[x])
    ensures LimAll(h1, c.left) && LimAll(h1, c.right) && HoldsCtx(h1, c, t.id)
    ensures c.up.Down? ==> LimCtx(h1, c.up)
  {
    hide Fits, Ids, IdsAll, IdsCtx;
    FitsApart(c, t, d, threshold);
    CtxParts(c);
    LimAllFrame(h, h1, c.left);
    LimAllFrame(h, h1, c.right);
    HoldsCtxFrame(h, h1, c, t.id);
    if c.up.Down? {
      LimCtxFrame(h, h1, c.up, c.id);
    }
  }

  // Called on a node with that node's own path element, resetLimits refreshes this one node (and
  // not even that for the root) and stops: upper limits of its ancestors may be left behind.
  lemma {:induction false} ResetOwn(h: Heap, path: seq<PathElement>, c: Ctx, t: Tree, d: nat, threshold: nat)
    requires OnPath(path, c) && PathIn(path, h) && DepthOf(c) < |path| && path[DepthOf(c)].node == t.id
    requires HoldsCtx(h, c, t.id) && Holds(h, t) && Fits(c, t, d, threshold)
    requires LimCtx(h, c) && LimRoot(h, t) && (c.Down? ==> LimAt(h, t.id))
    ensures var h' := ResetH(h, path, t.id, DepthOf(c));
            LimCtx(h', c) && LimRoot(h', t) && (c.Down? ==> LimTree(h', t)) && OnlyIn(h, h', c, t)
            && (c.Top? ==> h' == h)
  {
    hide Fits, IdsCtx, Ids, IdsAll, ResetH;
    SetOwn(h, path, c, t, d, threshold);
    OwnUnfold(h, path, t.id, DepthOf(c));
    if c.Down? {
      var h1 := h[t.id := h[t.id].(limits := Outer(h, t.id))];
      FitsApart(c, t, d, threshold);
      OwnRaised(h, h1, t);
      hide LimAt, Holds, OnPath, PathIn;
      LimCtxFrame(h, h1, c, t.id);
      hide HoldsCtx, LimCtx;
      assert LimTree(h1, t);
    } else {
      OnlyInSelf(h, c, t);
      assert LimCtx(h, c);
    }
  }

  // Refreshing limits that were in order can only raise the upper one.
  lemma {:induction false} OwnRaised(h: Heap, h1: Heap, t: Tree)
    requires Holds(h, t) && LimAt(h, t.id) && Outer(h, t.id).Some?
    requires h1 == h[t.id := h[t.id].(limits := Outer(h, t.id))]
    ensures Raised(h, h1, t.id)
  {
  }

  lemma {:induction false} OwnUnfold(h: Heap, path: seq<PathElement>, a: Id, parent: nat)
    requires parent < |path| && PathIn(path, h) && path[parent].node == a && a in h && Outer(h, a).Some?
    requires a == path[0].node ==> parent == 0
    requires Outer(h[a := h[a].(limits := Outer(h, a))], a) == Outer(h, a)
    ensures ResetH(h, path, a, parent) ==
            if a == path[0].node then h else h[a := h[a].(limits := Outer(h, a))]
  {
    var h1 := h[a := h[a].(limits := Outer(h, a))];
    if h[a].limits == Outer(h, a) {
      assert h1 == h;
    }
  }

  ghost predicate Apart(m: multiset<Id>, m': multiset<Id>) {
    forall x :: x in m ==> x !in m'
  }

  // Called on a new node b that is not attached yet, resetLimits sets its limits and then carries
  // on with the ancestors-to-be as they are now.
  lemma {:induction false} ResetDetached(h: Heap, path: seq<PathElement>, b: Tree, db: nat, c: Ctx, t: Tree, d: nat,
          threshold: nat)
    requires c.Down? && OnPath(path, c) && PathIn(path, h)
    requires HoldsCtx(h, c, t.id) && Holds(h, t) && Fits(c, t, d, threshold)
    requires LimCtx(h, c) && LimTree(h, t)
    requires Holds(h, b) && LimRoot(h, b) && h[b.id].limits == None
    requires Fits(Top, b, db, threshold) && Apart(Ids(b), IdsCtx(c) + Ids(t))
    ensures var h' := ResetH(h, path, b.id, DepthOf(c) - 1);
            LimCtx(h', c) && LimTree(h', t) && LimTree(h', b)
            && forall x :: x in h && x != b.id && ((x !in IdsCtx(c) && x != t.id) || x == RootId(c)) ==> h'[x] == h[x]
  {
    hide Fits, IdsCtx, Ids, IdsAll, LimAt, ResetH, NodeOk;
    var h1 := h[b.id := h[b.id].(limits := Outer(h, b.id))];
    DetachedStart(h, h1, path, b, db, c, t, threshold);
    var h' := ResetH(h, path, b.id, DepthOf(c) - 1);
    assert h' == if DepthOf(c.up) == 0 then h1 else ResetH(h1, path, c.id, DepthOf(c.up) - 1) by {
      OnPathRoot(path, c);
      DetachedUnfold(h, path, b.id, DepthOf(c) - 1);
    }
    ResetStep(h1, h1, path, c, t, d, threshold);
    assert SameNodes(h1, h', Ids(b)) by {
      OwnId(t);
      forall x | x in Ids(b)
        ensures x !in IdsCtx(c) && x != t.id
      {
        ApartParts(x, IdsCtx(c), Ids(t));
      }
    }
    LimFrame(h1, h', b);
    hide Holds, HoldsCtx, LimTree, LimCtx;
  }

  lemma {:induction false} DetachedUnfold(h: Heap, path: seq<PathElement>, a: Id, parent: nat)
    requires parent < |path| && PathIn(path, h) && a in h && Outer(h, a).Some? && h[a].limits == None
    requires a != path[0].node
    ensures var h1 := h[a := h[a].(limits := Outer(h, a))];
            ResetH(h, path, a, parent) == if parent == 0 then h1 else ResetH(h1, path, path[parent].node, parent - 1)
  {
  }

  lemma {:induction false} DetachedStart(h: Heap, h1: Heap, path: seq<PathElement>, b: Tree, db: nat, c: Ctx,
          t: Tree, threshold: nat)
    requires b.id in h && h1 == h[b.id := h[b.id].(limits := Outer(h, b.id))]
    requires c.Down? && OnPath(path, c) && HoldsCtx(h, c, t.id) && Holds(h, t) && LimCtx(h, c) && LimTree(h, t)
    requires Holds(h, b) && LimRoot(h, b)
    requires Fits(Top, b, db, threshold) && Apart(Ids(b), IdsCtx(c) + Ids(t))
    ensures Outer(h, b.id).Some? && Holds(h1, b) && LimTree(h1, b)
    ensures HoldsCtx(h1, c, t.id) && Holds(h1, t) && LimCtx(h1, c) && LimTree(h1, t)
    ensures b.id !in IdsCtx(c) && b.id != t.id && b.id != path[0].node
  {
    hide Fits, IdsCtx, Ids, IdsAll;
    OwnId(b);
    OwnId(t);
    OnPathRoot(path, c);
    ApartParts(b.id, IdsCtx(c), Ids(t));
    assert Holds(h1, b) && LimTree(h1, b) && Outer(h, b.id).Some? by {
      SetOwn(h, path, Top, b, db, threshold);
    }
    HoldsCtxFrame(h, h1, c, t.id);
    LimCtxFrame(h, h1, c, t.id);
    HoldsFrame(h, h1, t);
    LimFrame(h, h1, t);
  }

  lemma OwnId(t: Tree)
    ensures t.id in Ids(t)
  {
  }

  lemma ApartParts(x: Id, a: multiset<Id>, b: multiset<Id>)
    requires x !in a + b
    ensures x !in a && x !in b
  {
  }
}

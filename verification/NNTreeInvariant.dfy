/**
 * The invariant that every operation of the tree keeps, and how it opens at the place where an
 * operation works and closes again behind it.
 */
module NNTreeInvariant {
  import opened Wrappers
  import opened NNTreeModel
  import opened NNTreeLimits
  import opened NNTreeSplit
  import opened NNTreePosition

  // The document spells out the tree t at root: no node shared, all leaves at one depth, no empty
  // node but an empty root, none over the threshold, keys strictly increasing, limits in order.
  ghost predicate Good(h: Heap, next: Id, root: Id, threshold: nat, t: Tree) {
    && threshold >= 3
    && t.id == root && Holds(h, t) && LimRoot(h, t) && h[root].limits == None
    && Distinct(Ids(t)) && Sorted(Flat(t)) && RootOk(t, threshold)
    && (forall x :: x in h ==> x < next)
  }

  // As Good, for the tree Plug(c, t), but t may be one over the threshold.
  ghost predicate Splitting(h: Heap, next: Id, root: Id, threshold: nat, c: Ctx, t: Tree, d: nat) {
    && threshold >= 3
    && Laid(h, c, t) && (c.Down? ==> LimAt(h, t.id))
    && Fits(c, t, d, threshold + 1) && CtxOk(c, d, threshold) && Fullish(t, d, threshold)
    && Plug(c, t).id == root && root in h && h[root].limits == None
    && (forall x :: x in h ==> x < next)
  }

  lemma {:induction false} OnPathOf(path: seq<PathElement>, c: Ctx, rest: seq<PathElement>)
    requires path == PathOf(c) + rest
    ensures OnPath(path, c) && |path| == DepthOf(c) + |rest|
  {
    if c.Down? {
      var e := PathElement(c.id, |c.left|);
      assert path == PathOf(c.up) + ([e] + rest);
      OnPathOf(path, c.up, [e] + rest);
    }
  }

  lemma {:induction false} PlugId(c: Ctx, t: Tree)
    ensures Plug(c, t).id == if c.Top? then t.id else RootId(c)
  {
    if c.Down? {
      PlugId(c.up, Inner(c.id, c.left + [t] + c.right));
    }
  }

  // Opening the invariant at a subtree.
  lemma {:induction false} GoodOpens(h: Heap, next: Id, root: Id, threshold: nat, c: Ctx, t: Tree) returns (d: nat)
    requires Good(h, next, root, threshold, Plug(c, t)) && Flat(Plug(c, t)) != []
    ensures Laid(h, c, t) && (c.Down? ==> LimTree(h, t))
    ensures Fits(c, t, d, threshold) && PathIn(PathOf(c), h)
  {
    hide Distinct, Ids, IdsCtx, Sorted, Holds, HoldsCtx, LimAt;
    var d0: nat :| NodeOk(Plug(c, t), d0, threshold);
    OkUnplug(c, t, d0, threshold);
    d := d0 - DepthOf(c);
    HoldsPlug(h, c, t);
    LimPlug(h, c, t);
    IdsPlug(c, t);
    FlatPlug(c, t);
    HoldsCtxIds(h, c, t.id);
  }

  // Closing it.
  lemma {:induction false} GoodCloses(h: Heap, next: Id, root: Id, threshold: nat, c: Ctx, t: Tree, d: nat)
    requires threshold >= 3 && Laid(h, c, t) && (c.Down? ==> LimAt(h, t.id))
    requires Fits(c, t, d, threshold)
    requires Plug(c, t).id == root && root in h && h[root].limits == None && forall x :: x in h ==> x < next
    ensures Good(h, next, root, threshold, Plug(c, t))
  {
    hide Distinct, Ids, IdsCtx, Sorted, Holds, HoldsCtx, LimAt;
    assert IdsCtx(c) + Ids(t) == Ids(Plug(c, t)) by {
      IdsPlug(c, t);
    }
    OkPlug(c, t, d, threshold);
    HoldsPlug(h, c, t);
    LimPlug(h, c, t);
    IdsPlug(c, t);
    FlatPlug(c, t);
  }

  lemma {:induction false} SplittingDone(h: Heap, next: Id, root: Id, threshold: nat, c: Ctx, t: Tree, d: nat)
    requires Splitting(h, next, root, threshold, c, t, d) && Size(t) <= threshold
    ensures Good(h, next, root, threshold, Plug(c, t))
  {
    assert NodeOk(t, d, threshold);
    GoodCloses(h, next, root, threshold, c, t, d);
  }

  lemma {:induction false} GoodRoot(h: Heap, next: Id, root: Id, threshold: nat, c: Ctx, t: Tree)
    requires Good(h, next, root, threshold, Plug(c, t))
    ensures threshold >= 3 && root in h && h[root].limits == None && Plug(c, t).id == root && forall x :: x in h ==>
              x < next
  {
  }

  // One item more in a leaf, and resetLimits called on it.
  lemma {:induction false} ItemInserted(h: Heap, next: Id, root: Id, threshold: nat, path: seq<PathElement>, c: Ctx,
          leaf: Tree, items: seq<Pair>)
    requires leaf.Leaf? && Good(h, next, root, threshold, Plug(c, leaf))
    requires path == PathOf(c)
    requires |items| == |leaf.items| + 1 && Sorted(Before(c) + items + After(c))
    ensures leaf.id in h
    ensures var h1 := h[leaf.id := h[leaf.id].(items := Some(items))];
            PathIn(path, h1) && |path| == DepthOf(c) &&
            Splitting(ResetH(h1, path, leaf.id, |path| - 1), next, root, threshold, c, Leaf(leaf.id, items), 0)
  {
    hide Ids, IdsCtx, Distinct, Sorted, Flat, NodeOk, CtxOk, LimAt, RootOk, Fits, Fullish, LimCtx, PathOf;
    NodeFacts(h, next, root, threshold, c, leaf);
    GoodRoot(h, next, root, threshold, c, leaf);
    hide Good;
    var h1 := h[leaf.id := h[leaf.id].(items := Some(items))];
    LeafReplaced(h, h1, next, root, threshold, c, leaf, items);
    LeafReset(h1, next, root, threshold + 1, path, c, Leaf(leaf.id, items));
  }

  // resetLimits called on a leaf just changed.
  lemma {:induction false} LeafReset(h: Heap, next: Id, root: Id, threshold: nat, path: seq<PathElement>, c: Ctx,
          leaf: Tree)
    requires leaf.Leaf? && Laid(h, c, leaf) && Fits(c, leaf, 0, threshold) && path == PathOf(c)
    requires root in h && h[root].limits == None && Plug(c, leaf).id == root && forall x :: x in h ==> x < next
    ensures leaf.id in h && PathIn(path, h) && |path| == DepthOf(c) && OnPath(path, c)
    ensures var h' := ResetH(h, path, leaf.id, |path| - 1);
            && Laid(h', c, leaf) && (c.Down? ==> LimAt(h', leaf.id))
            && root in h' && h'[root].limits == None && forall x :: x in h' ==> x < next
  {
    hide Fits, LimAt, LimCtx, HoldsCtx, PathIn, ResetH;
    HoldsCtxIds(h, c, leaf.id);
    assert path == PathOf(c) + [];
    OnPathOf(path, c, []);
    hide PathOf, OnPath, DepthOf;
    ResetAttached(h, path, c, leaf, 0, threshold);
    RestoredInTree(h, ResetH(h, path, leaf.id, |path| - 1), next, root, c, leaf, 0, threshold);
  }

  lemma PlugRoot(c: Ctx, t: Tree, t': Tree)
    requires t.id == t'.id
    ensures Plug(c, t).id == Plug(c, t').id
  {
    PlugId(c, t);
    PlugId(c, t');
  }

  // resetLimits leaves the subtree laid out and the root without limits.
  lemma {:induction false} RestoredInTree(h: Heap, h': Heap, next: Id, root: Id, c: Ctx, t: Tree, d: nat,
          threshold: nat)
    requires HoldsCtx(h, c, t.id) && Holds(h, t) && Fits(c, t, d, threshold) && Restored(h, h', c, t)
    requires forall x :: x in h ==> h'[x].items == h[x].items && h'[x].kids == h[x].kids
    requires Plug(c, t).id == root && root in h && h[root].limits == None && forall x :: x in h ==> x < next
    ensures Laid(h', c, t) && (c.Down? ==> LimAt(h', t.id))
    ensures root in h' && h'[root].limits == None && forall x :: x in h' ==> x < next
  {
    hide Fits, IdsCtx, LimAt;
    FitsApart(c, t, d, threshold);
    ShapeKept(h, h', c, t);
    PlugId(c, t);
  }

  lemma {:induction false} LeafReplaced(h: Heap, h1: Heap, next: Id, root: Id, threshold: nat, c: Ctx, leaf: Tree,
          items: seq<Pair>)
    requires leaf.Leaf? && Good(h, next, root, threshold, Plug(c, leaf))
    requires |items| == |leaf.items| + 1 && Sorted(Before(c) + items + After(c))
    requires leaf.id in h && h1 == h[leaf.id := h[leaf.id].(items := Some(items))]
    ensures Laid(h1, c, Leaf(leaf.id, items))
    ensures Fits(c, Leaf(leaf.id, items), 0, threshold + 1) && CtxOk(c, 0, threshold)
    ensures Fullish(Leaf(leaf.id, items), 0, threshold)
    ensures Plug(c, Leaf(leaf.id, items)).id == Plug(c, leaf).id
  {
    PlugRoot(c, leaf, Leaf(leaf.id, items));
    if c.Top? && leaf.items == [] {
      assert Ids(Leaf(leaf.id, items)) == Ids(leaf);
      assert IdsCtx(c) + Ids(leaf) == Ids(leaf);
    } else {
      LeafFull(c, leaf, threshold);
      var d := GoodOpens(h, next, root, threshold, c, leaf);
      FitsApart(c, leaf, d, threshold);
      HoldsCtxFrame(h, h1, c, leaf.id);
      LimCtxFrame(h, h1, c, leaf.id);
      CtxLarger(c, 0, threshold);
      assert Ids(Leaf(leaf.id, items)) == Ids(leaf);
    }
  }

  // What HandOver needs of the state that split is in.
  lemma {:induction false} SplittingFacts(h: Heap, next: Id, root: Id, threshold: nat, path: seq<PathElement>,
          c: Ctx, t: Tree, s: Spot, d: nat)
    requires threshold >= 3 && Laid(h, c, t) && Fits(c, t, d, threshold + 1) && Fullish(t, d, threshold)
    requires Plug(c, t).id == root && (forall x :: x in h ==> x < next)
    requires SpotIn(s, t) && path == PathOf(Compose(c, s.ctx))
    ensures t.id in h && PathIn(path, h) && OnPath(path, c) && next !in h && |path| >= DepthOf(c)
    ensures c.Down? ==> c.id != t.id && DepthOf(c) > 0 && RootId(c) == root
    ensures c.Top? ==> path == PathOf(s.ctx) && t.id == root
    ensures h[t.id].items == (if t.Leaf? then Some(t.items) else None)
    ensures h[t.id].kids == (if t.Leaf? then None else Some(IdsOf(t.kids)))
    ensures Size(t) > 0
  {
    hide Fits, Sorted, Distinct, Ids, IdsCtx, LimCtx, LimRoot;
    FitsApart(c, t, d, threshold + 1);
    if c.Down? {
      CtxParts(c);
    }
    ComposeProps(c, s.ctx, s.leaf);
    OnPathOf(path, c, PathOf(s.ctx));
    HoldsPlug(h, Compose(c, s.ctx), s.leaf);
    HoldsPlug(h, c, t);
    HoldsCtxIds(h, Compose(c, s.ctx), s.leaf.id);
    PlugId(c, t);
  }

  lemma {:induction false} RootIds(h: Heap, next: Id, root: Id, threshold: nat, c: Ctx, t: Tree, id: Id)
    requires c.Down? && Plug(c, t).id == root && Size(t) >= 4
    ensures Plug(c.up, Parent(c, t, id)).id == root && RootId(c) == root
    ensures c.up.Top? ==> c.id == root
  {
    PlugId(c, t);
    PlugId(c.up, Parent(c, t, id));
  }

  // The last act of split on a level that is not the root's: the call of resetLimits on the parent
  // with the parent's own path element, after which the parent may be split in its turn.
  lemma {:induction false} ParentReset(h: Heap, next: Id, root: Id, threshold: nat, path: seq<PathElement>, c: Ctx,
          t: Tree, d: nat)
    requires Splitting(h, next, root, threshold, c, t, d)
    requires OnPath(path, c) && PathIn(path, h) && DepthOf(c) < |path| && path[DepthOf(c)].node == t.id
    ensures t.id in h
    ensures Splitting(ResetH(h, path, t.id, DepthOf(c)), next, root, threshold, c, t, d)
  {
    hide Fits, CtxOk, Fullish, Sorted, Distinct, Ids, IdsCtx, LimAt, ResetH;
    assert t.id in h;
    hide OnPath, PathIn, LimCtx, Holds, HoldsCtx;
    var h' := ResetH(h, path, t.id, DepthOf(c));
    PlugId(c, t);
    hide Plug;
    ResetOwn(h, path, c, t, d, threshold + 1);
    ShapeKept(h, h', c, t);
    FitsApart(c, t, d, threshold + 1);
    assert c.Down? ==> h'[root] == h[root];
    hide OnlyIn, LimRoot, IdsCtx, DepthOf;
    if c.Down? {
      assert LimAt(h', t.id);
    }
    assert Laid(h', c, t);
  }

  // Only an empty root is without items.
  lemma LeafFull(c: Ctx, leaf: Tree, threshold: nat)
    requires leaf.Leaf? && RootOk(Plug(c, leaf), threshold) && (c.Down? || leaf.items != [])
    ensures leaf.items != [] && Flat(Plug(c, leaf)) != []
  {
    if c.Down? {
      PlugIsInner(c, leaf);
    }
    var d: nat :| NodeOk(Plug(c, leaf), d, threshold);
    OkUnplug(c, leaf, d, threshold);
    NonEmpty(Plug(c, leaf), d, threshold);
  }

  lemma {:induction false} PlugIsInner(c: Ctx, t: Tree)
    requires c.Down?
    ensures Plug(c, t).Inner?
  {
    if c.up.Down? {
      PlugIsInner(c.up, Inner(c.id, c.left + [t] + c.right));
    }
  }

  // ---------------------------------------------------------------- moving about

  // A path never meets the node it leads to.
  lemma {:induction false} PathApart(h: Heap, next: Id, root: Id, threshold: nat, c: Ctx, t: Tree)
    requires Good(h, next, root, threshold, Plug(c, t))
    ensures forall i :: 0 <= i < |PathOf(c)| ==> PathOf(c)[i].node != t.id
  {
    PathFacts(c);
    IdsPlug(c, t);
    OwnId(t);
    assert (IdsCtx(c) + Ids(t))[t.id] == IdsCtx(c)[t.id] + Ids(t)[t.id];
  }

  // What the document says at the top of a subtree.
  lemma {:induction false} NodeFacts(h: Heap, next: Id, root: Id, threshold: nat, c: Ctx, t: Tree)
    requires Good(h, next, root, threshold, Plug(c, t))
    ensures t.id in h
    ensures t.Leaf? ==> h[t.id].items == Some(t.items) && h[t.id].kids == None
    ensures t.Inner? ==> h[t.id].items == None && h[t.id].kids == Some(IdsOf(t.kids)) && |t.kids| > 0
    ensures t.Inner? || c.Down? ==> Flat(t) != []
  {
    hide Distinct, Ids, Sorted, LimRoot, RootOk;
    HoldsPlug(h, c, t);
    assert t.Inner? && t.kids == [] ==> Flat(t) == [];
    if Flat(t) == [] {
      EmptyIsRoot(h, next, root, threshold, c, t);
    }
  }

  // The context of a sibling: one to the right, or one to the left.
  function Beside(c: Ctx, t: Tree, backward: bool): Ctx
    requires c.Down? && (if backward then c.left else c.right) != []
  {
    if backward then
      Down(c.up, c.id, c.left[..|c.left| - 1], [t] + c.right)
    else
      Down(c.up, c.id, c.left + [t], c.right[1..])
  }

  function Sibling(c: Ctx, backward: bool): Tree
    requires c.Down? && (if backward then c.left else c.right) != []
  {
    if backward then c.left[|c.left| - 1] else c.right[0]
  }

  lemma BesideProps(c: Ctx, t: Tree, backward: bool)
    requires c.Down? && (if backward then c.left else c.right) != []
    ensures var c', s := Beside(c, t, backward), Sibling(c, backward);
            && Plug(c', s) == Plug(c, t)
            && |PathOf(c)| > 0 &&
                PathOf(c') == PathOf(c.up) + [PathElement(c.id, |c.left| + if backward then -1 else 1)]
            && |Before(c')| == |Before(c)| + if backward then -|Flat(s)| else |Flat(t)|
  {
    var c', s := Beside(c, t, backward), Sibling(c, backward);
    assert c'.left + [s] + c'.right == c.left + [t] + c.right;
    if backward {
      assert c.left == c.left[..|c.left| - 1] + [s];
      FlatAllAppend(c.left[..|c.left| - 1], [s]);
      FlatAllSingle(s);
    } else {
      FlatAllAppend(c.left, [t]);
      FlatAllSingle(t);
    }
  }

  // A subtree without items is an empty root.
  lemma {:induction false} EmptyIsRoot(h: Heap, next: Id, root: Id, threshold: nat, c: Ctx, t: Tree)
    requires Good(h, next, root, threshold, Plug(c, t)) && Flat(t) == []
    ensures c.Top? && t == Leaf(root, [])
  {
    hide Distinct, Ids, Sorted;
    if Plug(c, t).Leaf? && Plug(c, t).items == [] {
      if c.Down? {
        PlugIsInner(c, t);
      }
    } else {
      var d0: nat :| NodeOk(Plug(c, t), d0, threshold);
      OkUnplug(c, t, d0, threshold);
      NonEmpty(t, d0 - DepthOf(c), threshold);
    }
  }

  // Going down to a kid.
  lemma StepDown(c: Ctx, t: Tree, k: nat)
    requires t.Inner? && k < |t.kids|
    ensures var cc := Down(c, t.id, t.kids[..k], t.kids[k + 1..]);
            && Plug(cc, t.kids[k]) == Plug(c, t)
            && PathOf(cc) == PathOf(c) + [PathElement(t.id, k)]
            && Before(cc) == Before(c) + FlatAll(t.kids[..k])
            && Flat(t) == FlatAll(t.kids[..k]) + Flat(t.kids[k]) + FlatAll(t.kids[k + 1..])
  {
    assert t.kids == t.kids[..k] + [t.kids[k]] + t.kids[k + 1..];
    FlatAllMiddle(t.kids[..k], t.kids[k], t.kids[k + 1..]);
  }

  // The items of a leaf with the same keys and other values.
  lemma {:induction false} ValueReplaced(h: Heap, next: Id, root: Id, threshold: nat, c: Ctx, leaf: Tree,
          items: seq<Pair>)
    requires leaf.Leaf? && Good(h, next, root, threshold, Plug(c, leaf)) && leaf.items != []
    requires |items| == |leaf.items| && forall i :: 0 <= i < |items| ==> items[i].key == leaf.items[i].key
    ensures leaf.id in h
    ensures Good(h[leaf.id := h[leaf.id].(items := Some(items))], next, root, threshold, Plug(c, Leaf(leaf.id, items)))
  {
    hide Ids, IdsCtx, Distinct, Sorted, NodeOk, CtxOk, RootOk, LimAt, Plug, PathIn, PathOf;
    var leaf' := Leaf(leaf.id, items);
    GoodRoot(h, next, root, threshold, c, leaf);
    LeafFull(c, leaf, threshold);
    var d := GoodOpens(h, next, root, threshold, c, leaf);
    hide Good, RootOk;
    PlugRoot(c, leaf, leaf');
    FitsApart(c, leaf, d, threshold);
    SameKeys(Before(c), leaf.items, items, After(c));
    var h1 := h[leaf.id := h[leaf.id].(items := Some(items))];
    LeafInstead(c, leaf, leaf', d, threshold);
    LeafChanged(h, h1, c, leaf, leaf');
    SameLimAt(h, h1, leaf, leaf');
    hide Holds, HoldsCtx, LimCtx, Before, After, Laid, Fits;
    GoodCloses(h1, next, root, threshold, c, leaf', d);
  }

  // Another leaf in the same place.
  lemma {:induction false} LeafInstead(c: Ctx, leaf: Tree, leaf': Tree, d: nat, threshold: nat)
    requires leaf.Leaf? && leaf'.Leaf? && leaf'.id == leaf.id && Fits(c, leaf, d, threshold)
    requires 0 < |leaf'.items| <= threshold && Sorted(Before(c) + leaf'.items + After(c))
    ensures Fits(c, leaf', d, threshold)
  {
    hide Distinct, Sorted, CtxOk, IdsCtx, Before, After;
    assert Ids(leaf') == Ids(leaf);
  }

  lemma {:induction false} LeafChanged(h: Heap, h1: Heap, c: Ctx, leaf: Tree, leaf': Tree)
    requires leaf.Leaf? && leaf'.Leaf? && leaf'.id == leaf.id && Laid(h, c, leaf) && leaf.id !in IdsCtx(c)
    requires c.Down? ==> LimTree(h, leaf)
    requires leaf.id in h && h1 == h[leaf.id := h[leaf.id].(items := Some(leaf'.items))]
    ensures Laid(h1, c, leaf')
  {
    hide IdsCtx;
    HoldsCtxFrame(h, h1, c, leaf.id);
    assert Holds(h1, leaf') && LimRoot(h1, leaf');
    assert c.Down? ==> Raised(h, h1, leaf.id);
    hide Holds, LimTree, LimRoot;
    LimCtxFrame(h, h1, c, leaf.id);
  }

  lemma {:induction false} SameLimAt(h: Heap, h1: Heap, leaf: Tree, leaf': Tree)
    requires leaf.Leaf? && leaf'.Leaf? && leaf'.id == leaf.id && Holds(h, leaf) && |leaf'.items| == |leaf.items|
    requires forall i :: 0 <= i < |leaf.items| ==> leaf'.items[i].key == leaf.items[i].key
    requires leaf.id in h && h1 == h[leaf.id := h[leaf.id].(items := Some(leaf'.items))]
    ensures LimAt(h, leaf.id) ==> LimAt(h1, leaf.id)
  {
  }

  lemma SameKeys(a: seq<Pair>, s: seq<Pair>, s': seq<Pair>, z: seq<Pair>)
    requires |s| == |s'| && (forall i :: 0 <= i < |s| ==> s'[i].key == s[i].key) && Sorted(a + s + z)
    ensures Sorted(a + s' + z)
  {
    var w, r := a + s + z, a + s' + z;
    assert forall i :: 0 <= i < |w| ==> w[i].key == r[i].key;
  }

  // ---------------------------------------------------------------- removal

  lemma SortedWithout(a: seq<Pair>, s: seq<Pair>, i: nat, z: seq<Pair>)
    requires i < |s| && Sorted(a + s + z)
    ensures Sorted(a + (s[..i] + s[i + 1..]) + z)
    ensures a + (s[..i] + s[i + 1..]) + z == (a + s + z)[..|a| + i] + (a + s + z)[|a| + i + 1..]
  {
    var w, r := a + s + z, a + (s[..i] + s[i + 1..]) + z;
    forall j, k | 0 <= j < k < |r|
      ensures r[j].key < r[k].key
    {
      var j', k' := if j < |a| + i then j else j + 1, if k < |a| + i then k else k + 1;
      assert w[j'] == r[j] && w[k'] == r[k];
    }
  }

  // One item less in a leaf that keeps some.
  lemma {:induction false} ItemRemoved(h: Heap, next: Id, root: Id, threshold: nat, path: seq<PathElement>, c: Ctx,
          leaf: Tree, i: nat)
    requires leaf.Leaf? && Good(h, next, root, threshold, Plug(c, leaf))
    requires path == PathOf(c) && i < |leaf.items| && |leaf.items| > 1
    ensures leaf.id in h
    ensures var items := leaf.items[..i] + leaf.items[i + 1..];
            var h1 := h[leaf.id := h[leaf.id].(items := Some(items))];
            && PathIn(path, h1)
            && Good(ResetH(h1, path, leaf.id, |path| - 1), next, root, threshold, Plug(c, Leaf(leaf.id, items)))
            && (0 < i < |leaf.items| - 1 ==> Good(h1, next, root, threshold, Plug(c, Leaf(leaf.id, items))))
  {
    hide Ids, IdsCtx, Distinct, Sorted, CtxOk, Fits, LimAt, LimCtx, RootOk, PathOf;
    var items := leaf.items[..i] + leaf.items[i + 1..];
    var leaf' := Leaf(leaf.id, items);
    NodeFacts(h, next, root, threshold, c, leaf);
    GoodRoot(h, next, root, threshold, c, leaf);
    hide Good;
    var h1 := h[leaf.id := h[leaf.id].(items := Some(items))];
    LeafShrunk(h, h1, next, root, threshold, c, leaf, i);
    PlugRoot(c, leaf, leaf');
    LeafReset(h1, next, root, threshold, path, c, leaf');
    GoodCloses(ResetH(h1, path, leaf.id, |path| - 1), next, root, threshold, c, leaf', 0);
    if 0 < i < |leaf.items| - 1 {
      GoodCloses(h1, next, root, threshold, c, leaf', 0);
    }
  }

  lemma {:induction false} LeafShrunk(h: Heap, h1: Heap, next: Id, root: Id, threshold: nat, c: Ctx, leaf: Tree, i: nat)
    requires leaf.Leaf? && Good(h, next, root, threshold, Plug(c, leaf))
    requires i < |leaf.items| && |leaf.items| > 1
    requires var items := leaf.items[..i] + leaf.items[i + 1..];
             leaf.id in h && h1 == h[leaf.id := h[leaf.id].(items := Some(items))]
    ensures var leaf' := Leaf(leaf.id, leaf.items[..i] + leaf.items[i + 1..]);
            && Laid(h1, c, leaf') && Fits(c, leaf', 0, threshold)
            && (c.Down? && 0 < i < |leaf.items| - 1 ==> LimAt(h1, leaf.id))
  {
    hide Ids, IdsCtx, Distinct, Sorted, CtxOk, RootOk, LimAt, Plug;
    var leaf' := Leaf(leaf.id, leaf.items[..i] + leaf.items[i + 1..]);
    LeafFull(c, leaf, threshold);
    var d := GoodOpens(h, next, root, threshold, c, leaf);
    hide Good;
    FitsApart(c, leaf, d, threshold);
    SortedWithout(Before(c), leaf.items, i, After(c));
    assert d == 0 && |leaf.items| <= threshold;
    LeafInstead(c, leaf, leaf', d, threshold);
    LeafChanged(h, h1, c, leaf, leaf');
    hide Laid, Fits;
    InnerGone(h, h1, leaf, i);
  }

  lemma {:induction false} InnerGone(h: Heap, h1: Heap, leaf: Tree, i: nat)
    requires leaf.Leaf? && Holds(h, leaf) && 0 <= i < |leaf.items|
    requires h1 == h[leaf.id := h[leaf.id].(items := Some(leaf.items[..i] + leaf.items[i + 1..]))]
    ensures LimAt(h, leaf.id) && 0 < i < |leaf.items| - 1 ==> LimAt(h1, leaf.id)
  {
  }

  // A node dead, in the hole of c, is empty and has to be taken out of the node around it.
  ghost predicate Pruning(h: Heap, next: Id, root: Id, threshold: nat, c: Ctx, dead: Id, d: nat) {
    && threshold >= 3 && c.Down?
    && HoldsCtx(h, c, dead) && LimCtx(h, c) && CtxOk(c, d, threshold)
    && Distinct(IdsCtx(c)) && dead !in IdsCtx(c) && dead in h && h[dead].limits.Some?
    && Sorted(Before(c) + After(c))
    && RootId(c) == root && root in h && h[root].limits == None && (forall x :: x in h ==> x < next)
  }

  lemma {:induction false} PruneStart(h: Heap, next: Id, root: Id, threshold: nat, c: Ctx, leaf: Tree)
    requires leaf.Leaf? && |leaf.items| == 1 && c.Down? && Good(h, next, root, threshold, Plug(c, leaf))
    ensures leaf.id in h
    ensures Pruning(h[leaf.id := h[leaf.id].(items := Some([]))], next, root, threshold, c, leaf.id, 0)
  {
    hide Ids, IdsCtx, Distinct, Sorted;
    LeafFull(c, leaf, threshold);
    var d := GoodOpens(h, next, root, threshold, c, leaf);
    FitsApart(c, leaf, d, threshold);
    var h1 := h[leaf.id := h[leaf.id].(items := Some([]))];
    HoldsCtxFrame(h, h1, c, leaf.id);
    LimCtxFrame(h, h1, c, leaf.id);
    PlugId(c, leaf);
    DistinctLeft(IdsCtx(c), Ids(leaf));
    SortedWithout(Before(c), leaf.items, 0, After(c));
    assert leaf.items[..0] + leaf.items[1..] == [];
    assert Before(c) + [] + After(c) == Before(c) + After(c);
  }

  lemma DistinctLeft(a: multiset<Id>, b: multiset<Id>)
    requires Distinct(a + b)
    ensures Distinct(a)
  {
    forall x
      ensures a[x] <= 1
    {
      assert (a + b)[x] == a[x] + b[x];
    }
  }

  // The node around has lost its only kid: it is dead as well.
  lemma {:induction false} PruneUp(h: Heap, next: Id, root: Id, threshold: nat, c: Ctx, dead: Id, d: nat)
    requires Pruning(h, next, root, threshold, c, dead, d) && c.up.Down? && c.left == [] && c.right == []
    ensures c.id in h
    ensures Pruning(h[c.id := h[c.id].(kids := Some([]))], next, root, threshold, c.up, c.id, d + 1)
  {
    hide IdsCtx, Distinct, Sorted, LimAt, Holds;
    var h1 := h[c.id := h[c.id].(kids := Some([]))];
    OnlyKid(c);
    assert h[c.id].limits.Some? by {
      InnerLimits(h, c);
    }
    assert FlatAll([]) == [];
    assert Before(c) + After(c) == Before(c.up) + After(c.up);
    HoldsCtxFrame(h, h1, c.up, c.id);
    LimCtxFrame(h, h1, c.up, c.id);
  }

  lemma {:induction false} InnerLimits(h: Heap, c: Ctx)
    requires c.Down? && c.up.Down? && LimCtx(h, c)
    ensures c.id in h && h[c.id].limits.Some?
  {
  }

  lemma OnlyKid(c: Ctx)
    requires c.Down? && c.left == [] && c.right == [] && Distinct(IdsCtx(c))
    ensures c.id !in IdsCtx(c.up) && Distinct(IdsCtx(c.up))
  {
    forall x
      ensures IdsCtx(c.up)[x] <= 1 && (x in IdsCtx(c.up) ==> x != c.id)
    {
      assert IdsCtx(c)[x] == IdsCtx(c.up)[x] + multiset{c.id}[x];
    }
  }

  // The root has lost its only kid: the tree is empty.
  lemma {:induction false} PruneRoot(h: Heap, next: Id, root: Id, threshold: nat, c: Ctx, dead: Id, d: nat)
    requires Pruning(h, next, root, threshold, c, dead, d) && c.up.Top? && c.left == [] && c.right == []
    ensures c.id == root && root in h
    ensures Good(h[root := Node(h[root].limits, Some([]), None)], next, root, threshold, Leaf(root, []))
    ensures Before(c) + After(c) == []
  {
    assert Distinct(Ids(Leaf(root, [])));
  }

  // The node around keeps kids: the tree is whole again without the dead node.
  lemma {:induction false} PruneStop(h: Heap, next: Id, root: Id, threshold: nat, path: seq<PathElement>, c: Ctx,
          dead: Id, d: nat)
    requires Pruning(h, next, root, threshold, c, dead, d) && c.left + c.right != []
    requires OnPath(path, c) && PathIn(path, h) && |path| == DepthOf(c)
    ensures c.id in h
    ensures var p := Inner(c.id, c.left + c.right);
            var h1 := h[c.id := h[c.id].(kids := Some(IdsOf(p.kids)))];
            && PathIn(path, h1)
            && Good(ResetH(h1, path, c.id, |path| - 2), next, root, threshold, Plug(c.up, p))
            && (c.left != [] && c.right != [] ==> Good(h1, next, root, threshold, Plug(c.up, p)))
            && Flat(Plug(c.up, p)) == Before(c) + After(c)
  {
    hide Ids, IdsCtx, IdsAll, Distinct, Sorted, CtxOk;
    var p := Inner(c.id, c.left + c.right);
    var h1 := h[c.id := h[c.id].(kids := Some(IdsOf(p.kids)))];
    PrunedFits(c, d, threshold);
    PrunedLaid(h, h1, c, dead, d, threshold);
    ResetAttached(h1, path, c.up, p, d + 1, threshold);
    PlugId(c.up, p);
    hide Fits, NodeOk, ResetH, LimCtx, HoldsCtx, Holds, PathOf, OnPath, Plug, RootId, Pruning;
    var h2 := ResetH(h1, path, c.id, |path| - 2);
    RestoredInTree(h1, h2, next, root, c.up, p, d + 1, threshold);
    GoodCloses(h2, next, root, threshold, c.up, p, d + 1);
    if c.left != [] && c.right != [] {
      GoodCloses(h1, next, root, threshold, c.up, p, d + 1);
    }
  }

  lemma PrunedFits(c: Ctx, d: nat, threshold: nat)
    requires c.Down? && CtxOk(c, d, threshold) && c.left + c.right != []
    requires Distinct(IdsCtx(c)) && Sorted(Before(c) + After(c))
    ensures var p := Inner(c.id, c.left + c.right);
            Fits(c.up, p, d + 1, threshold) && Flat(Plug(c.up, p)) == Before(c) + After(c)
  {
    var p := Inner(c.id, c.left + c.right);
    assert Distinct(IdsCtx(c.up) + Ids(p)) by {
      IdsAllAppend(c.left, c.right);
      BagShift(IdsCtx(c.up), multiset{c.id}, IdsAll(c.left), IdsAll(c.right));
    }
    assert Before(c.up) + Flat(p) + After(c.up) == Before(c) + After(c) by {
      FlatAllAppend(c.left, c.right);
      ListShift(Before(c.up), FlatAll(c.left), FlatAll(c.right), After(c.up));
    }
    hide Ids, IdsCtx, Distinct, Sorted;
    FlatPlug(c.up, p);
    assert AllOk(p.kids, d, threshold);
  }

  lemma BagShift(a: multiset<Id>, b: multiset<Id>, l: multiset<Id>, r: multiset<Id>)
    ensures a + (b + (l + r)) == a + b + l + r
  {
  }

  lemma ListShift(a: seq<Pair>, l: seq<Pair>, r: seq<Pair>, z: seq<Pair>)
    ensures a + (l + r) + z == (a + l) + (r + z)
  {
  }

  lemma {:induction false} PrunedLaid(h: Heap, h1: Heap, c: Ctx, dead: Id, d: nat, threshold: nat)
    requires c.Down? && HoldsCtx(h, c, dead) && LimCtx(h, c) && dead in h
    requires c.left + c.right != []
    requires Fits(c.up, Inner(c.id, c.left + c.right), d + 1, threshold)
    requires h1 == h[c.id := h[c.id].(kids := Some(IdsOf(c.left + c.right)))]
    ensures Laid(h1, c.up, Inner(c.id, c.left + c.right))
    ensures c.up.Down? && c.left != [] && c.right != [] ==> LimAt(h1, c.id)
  {
    hide Fits, IdsCtx, Ids, IdsAll, NodeOk, CtxOk, Sorted;
    var p := Inner(c.id, c.left + c.right);
    FitsApart(c.up, p, d + 1, threshold);
    HoldsCtxFrame(h, h1, c.up, c.id);
    LimCtxFrame(h, h1, c.up, c.id);
    assert HoldsAll(h, p.kids) && LimAll(h, p.kids);
    NotInside(p);
    HoldsAllFrame(h, h1, p.kids);
    LimAllFrame(h, h1, p.kids);
    if c.up.Down? && c.left != [] && c.right != [] {
      var n := |p.kids|;
      assert h[c.id].kids.value == IdsOf(c.left) + [dead] + IdsOf(c.right);
      assert h[c.id].kids.value[0] == p.kids[0].id && h[c.id].kids.value[n] == p.kids[n - 1].id;
      assert LimAt(h, c.id);
    }
  }

  lemma {:induction false} PruneFacts(h: Heap, next: Id, root: Id, threshold: nat, path: seq<PathElement>, c: Ctx,
          dead: Id, d: nat)
    requires Pruning(h, next, root, threshold, c, dead, d) && path == PathOf(c)
    ensures |path| == DepthOf(c) > 0 && OnPath(path, c) && PathIn(path, h)
    ensures path[|path| - 1] == PathElement(c.id, |c.left|) && path[..|path| - 1] == PathOf(c.up)
    ensures c.id in h && h[c.id].items == None && h[c.id].kids == Some(IdsOf(c.left) + [dead] + IdsOf(c.right))
    ensures var ks, n := h[c.id].kids.value, |c.left|; ks[..n] + ks[n + 1..] == IdsOf(c.left + c.right)
  {
    hide Sorted, Distinct, CtxOk, LimCtx, IdsCtx, Before, After;
    HoldsCtxIds(h, c, dead);
    KidsWithout(c, dead);
    hide Pruning, Holds, HoldsAll, HoldsCtx, IdsOf;
    assert path == PathOf(c) + [];
    OnPathOf(path, c, []);
  }

  lemma KidsWithout(c: Ctx, dead: Id)
    requires c.Down?
    ensures var ks, n := IdsOf(c.left) + [dead] + IdsOf(c.right), |c.left|;
            ks[..n] + ks[n + 1..] == IdsOf(c.left + c.right)
  {
  }

  // Where the neighbours of a removed kid are.
  lemma PruneSpot(c: Ctx, p: Tree, k: nat)
    requires c.Down? && p == Inner(c.id, c.left + c.right) && k < |p.kids| && (k == |c.left| || k == |c.left| - 1)
    ensures var cc := Down(c.up, c.id, p.kids[..k], p.kids[k + 1..]);
            && Plug(cc, p.kids[k]) == Plug(c.up, p)
            && PathOf(cc) == PathOf(c.up) + [PathElement(c.id, k)]
            && |Before(cc)| + (if k == |c.left| then 0 else |Flat(p.kids[k])|) == |Before(c)|
            && (k == |c.left| - 1 && c.right == [] ==> After(cc) == After(c))
  {
    StepDown(c.up, p, k);
    if k == |c.left| {
      assert p.kids[..k] == c.left;
    } else {
      assert c.left == p.kids[..k] + [p.kids[k]];
      FlatAllAppend(p.kids[..k], [p.kids[k]]);
      FlatAllSingle(p.kids[k]);
      assert c.right == [] ==> p.kids[k + 1..] == [];
    }
  }
}

/**
 * A removal from a name or number tree of libqpdf/NNTree.cc leaves upper limits exact that are exact: the
 * limits that a removed item or node has set are refreshed, up to a node whose limits stay the same.
 */
module NNTreeTightRemoval {
  import opened Wrappers
  import opened NNTreeModel
  import opened NNTreeLimits
  import opened NNTreeSplit
  import opened NNTreeInvariant
  import opened NNTreeTight

  // One item less in a leaf that keeps some: all is tight after resetLimits, and without it if the item
  // was an inner one.
  lemma {:induction false} ItemTight(h: Heap, next: Id, root: Id, threshold: nat, path: seq<PathElement>, c: Ctx,
                                     leaf: Tree, i: nat)
    requires leaf.Leaf? && Good(h, next, root, threshold, Plug(c, leaf)) && path == PathOf(c)
    requires i < |leaf.items| && |leaf.items| > 1 && TightRoot(h, Plug(c, leaf))
    ensures leaf.id in h
    ensures var items := leaf.items[..i] + leaf.items[i + 1..];
            var h1 := h[leaf.id := h[leaf.id].(items := Some(items))];
            && PathIn(path, h1)
            && TightRoot(ResetH(h1, path, leaf.id, |path| - 1), Plug(c, Leaf(leaf.id, items)))
            && (0 < i < |leaf.items| - 1 ==> TightRoot(h1, Plug(c, Leaf(leaf.id, items))))
  {
    hide Fits, IdsCtx, Ids, IdsAll, CtxOk, LimAt, ResetH, OnPath, Sorted, Distinct, TightAt, RootOk, Flat;
    NodeFacts(h, next, root, threshold, c, leaf);
    hide Good;
    var leaf' := Leaf(leaf.id, leaf.items[..i] + leaf.items[i + 1..]);
    var h1 := h[leaf.id := h[leaf.id].(items := Some(leaf'.items))];
    LeafShrunk(h, h1, next, root, threshold, c, leaf, i);
    FitsApart(c, leaf', 0, threshold);
    HoldsCtxIds(h1, c, leaf.id);
    PathFacts(c);
    hide PathOf, NodeOk;
    var h' := ResetH(h1, path, leaf.id, |path| - 1);
    TightPlug(h, c, leaf);
    TightPlug(h1, c, leaf');
    TightPlug(h', c, leaf');
    hide Plug;
    if c.Down? {
      OldHolds(h, h1, c, leaf, leaf');
      AroundFrame(h, h1, c, leaf.id);
      if c.up.Down? {
        OuterKept(h, h1, c, leaf.id);
      }
      PathOnPath(path, c);
      ResetTight(h1, path, c, leaf', 0, threshold);
      if 0 < i < |leaf.items| - 1 {
        TightCtxFrame(h, h1, c, leaf.id);
        InnerItem(h, h1, leaf, i);
      }
    }
  }

  lemma {:induction false} InnerItem(h: Heap, h1: Heap, leaf: Tree, i: nat)
    requires leaf.Leaf? && TightTree(h, leaf) && h[leaf.id].items == Some(leaf.items) && 0 < i < |leaf.items| - 1
    requires h1 == h[leaf.id := h[leaf.id].(items := Some(leaf.items[..i] + leaf.items[i + 1..]))]
    ensures TightTree(h1, Leaf(leaf.id, leaf.items[..i] + leaf.items[i + 1..]))
  {
  }

  // A leaf that is left without items: all around it is as tight as it was.
  lemma {:induction false} EmptyTight(h: Heap, next: Id, root: Id, threshold: nat, c: Ctx, leaf: Tree)
    requires leaf.Leaf? && |leaf.items| == 1 && c.Down?
    requires Good(h, next, root, threshold, Plug(c, leaf)) && TightRoot(h, Plug(c, leaf))
    ensures leaf.id in h && TightCtx(h[leaf.id := h[leaf.id].(items := Some([]))], c)
  {
    hide Ids, IdsCtx, Distinct, Sorted, TightAt;
    LeafFull(c, leaf, threshold);
    var d := GoodOpens(h, next, root, threshold, c, leaf);
    FitsApart(c, leaf, d, threshold);
    hide Fits, NodeOk, Good;
    TightPlug(h, c, leaf);
    TightCtxFrame(h, h[leaf.id := h[leaf.id].(items := Some([]))], c, leaf.id);
  }

  // A node that has lost its only kid.
  lemma {:induction false} UpTight(h: Heap, next: Id, root: Id, threshold: nat, c: Ctx, dead: Id, d: nat)
    requires Pruning(h, next, root, threshold, c, dead, d) && c.up.Down? && c.left == [] && c.right == []
    requires TightCtx(h, c)
    ensures c.id in h && TightCtx(h[c.id := h[c.id].(kids := Some([]))], c.up)
  {
    hide IdsCtx, Distinct, Sorted, TightAt, LimCtx, CtxOk;
    OnlyKid(c);
    TightCtxFrame(h, h[c.id := h[c.id].(kids := Some([]))], c.up, c.id);
  }

  // A node that keeps kids: all is tight after resetLimits, and without it if an inner kid went.
  lemma {:induction false} StopTight(h: Heap, next: Id, root: Id, threshold: nat, path: seq<PathElement>, c: Ctx,
                                     dead: Id, d: nat)
    requires Pruning(h, next, root, threshold, c, dead, d) && c.left + c.right != [] && TightCtx(h, c)
    requires OnPath(path, c) && PathIn(path, h) && |path| == DepthOf(c)
    ensures c.id in h
    ensures var p := Inner(c.id, c.left + c.right);
            var h1 := h[c.id := h[c.id].(kids := Some(IdsOf(p.kids)))];
            && PathIn(path, h1)
            && TightRoot(ResetH(h1, path, c.id, |path| - 2), Plug(c.up, p))
            && (c.left != [] && c.right != [] ==> TightRoot(h1, Plug(c.up, p)))
  {
    hide Ids, IdsCtx, IdsAll, Distinct, Sorted, CtxOk, ResetH, TightAt, LimAt;
    var p := Inner(c.id, c.left + c.right);
    var h1 := h[c.id := h[c.id].(kids := Some(IdsOf(p.kids)))];
    PrunedFits(c, d, threshold);
    PrunedLaid(h, h1, c, dead, d, threshold);
    FitsApart(c.up, p, d + 1, threshold);
    KidsTight(h, h1, c, p);
    hide TightCtx, Holds, HoldsCtx, LimCtx, Pruning;
    PruneReset(h1, path, c.up, p, d + 1, threshold);
    if c.left != [] && c.right != [] {
      TightPlug(h1, c.up, p);
      if c.up.Down? {
        InnerKid(h, h1, c, dead);
      }
    }
  }

  lemma {:induction false} KidsTight(h: Heap, h1: Heap, c: Ctx, p: Tree)
    requires c.Down? && p == Inner(c.id, c.left + c.right) && c.id in h
    requires HoldsAll(h, c.left) && HoldsAll(h, c.right) && HoldsCtx(h, c.up, c.id) && TightCtx(h, c)
    requires Distinct(Ids(p)) && c.id !in IdsCtx(c.up) && h1 == h[c.id := h[c.id].(kids := Some(IdsOf(p.kids)))]
    ensures TightAll(h1, p.kids) && TightCtx(h1, c.up)
    ensures forall i :: 0 <= i < |p.kids| ==> p.kids[i].id != c.id
  {
    hide IdsCtx, Ids, IdsAll, Distinct, TightAt, TightTree, Holds, HoldsCtx;
    NotInside(p);
    Joined(h, c.left, c.right);
    hide TightAll, HoldsAll;
    TightCtxFrame(h, h1, c.up, c.id);
    TightAllFrame(h, h1, p.kids);
  }

  lemma {:induction false} Joined(h: Heap, l: seq<Tree>, r: seq<Tree>)
    requires HoldsAll(h, l) && HoldsAll(h, r) && TightAll(h, l) && TightAll(h, r)
    ensures HoldsAll(h, l + r) && TightAll(h, l + r)
  {
    hide TightTree, Holds;
  }

  lemma {:induction false} InnerKid(h: Heap, h1: Heap, c: Ctx, dead: Id)
    requires c.Down? && c.up.Down? && HoldsCtx(h, c, dead) && TightCtx(h, c) && c.left != [] && c.right != []
    requires h1 == h[c.id := h[c.id].(kids := Some(IdsOf(c.left + c.right)))]
    requires forall i :: 0 <= i < |c.left + c.right| ==> (c.left + c.right)[i].id != c.id
    ensures TightAt(h1, c.id)
  {
    var ks, ks' := IdsOf(c.left) + [dead] + IdsOf(c.right), IdsOf(c.left + c.right);
    assert ks[0] == ks'[0] && ks[|ks| - 1] == ks'[|ks'| - 1];
    hide HoldsAll, LimCtx, Outer;
    OuterOf(h, c.id, ks);
    OuterOf(h1, c.id, ks');
  }

  // resetLimits on a node p that has lost a kid, with all else tight.
  lemma {:induction false} PruneReset(h: Heap, path: seq<PathElement>, c: Ctx, p: Tree, d: nat, threshold: nat)
    requires OnPath(path, c) && PathIn(path, h) && |path| >= DepthOf(c)
    requires Laid(h, c, p) && Fits(c, p, d, threshold) && p.Inner? && TightAll(h, p.kids) && TightCtx(h, c)
    ensures TightRoot(ResetH(h, path, p.id, DepthOf(c) - 1), Plug(c, p))
  {
    hide IdsCtx, Ids, IdsAll, NodeOk, TightAt, LimAt;
    var h' := ResetH(h, path, p.id, DepthOf(c) - 1);
    TightPlug(h', c, p);
    hide Plug;
    if c.Top? {
      FitsApart(c, p, d, threshold);
      NotInside(p);
      HoldsKids(h, p);
      TightAllFrame(h, h', p.kids);
    } else {
      hide ResetH;
      ResetTight(h, path, c, p, d, threshold);
    }
  }
}

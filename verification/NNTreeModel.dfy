/**
 * Values and predicates behind the name/number tree of libqpdf/NNTree.cc.
 *
 * A document is a map from object ids to node dictionaries. A node holds an items array, a
 * /Kids array or (for the transient parts of a split) whatever has been put there, and the
 * /Limits of every node but the root. `Tree` is the shape that a well-formed part of a document
 * spells out; `Ctx` is a tree with one subtree missing, innermost node first, which is what the
 * path of an iterator is.
 */
module NNTreeModel {
  import opened Wrappers

  type Id = nat

  datatype Pair = Pair(key: int, value: int)

  datatype Limits = Limits(lo: int, hi: int)

  // A node dictionary. /Nums is a list of pairs here, so the source's item_number is twice ours.
  datatype Node = Node(limits: Option<Limits>, items: Option<seq<Pair>>, kids: Option<seq<Id>>)

  type Heap = map<Id, Node>

  datatype Tree =
    | Leaf(id: Id, items: seq<Pair>)
    | Inner(id: Id, kids: seq<Tree>)

  datatype Ctx =
    | Top
    | Down(up: Ctx, id: Id, left: seq<Tree>, right: seq<Tree>)

  datatype PathElement = PathElement(node: Id, kidNumber: int)

  // ---------------------------------------------------------------- contents

  function Flat(t: Tree): seq<Pair>
    decreases t, 1
  {
    match t
    case Leaf(_, items) => items
    case Inner(_, kids) => FlatAll(kids)
  }

  function FlatAll(ts: seq<Tree>): seq<Pair>
    decreases ts, 0
  {
    if ts == [] then [] else Flat(ts[0]) + FlatAll(ts[1..])
  }

  predicate Sorted(s: seq<Pair>) {
    forall i, j :: 0 <= i < j < |s| ==> s[i].key < s[j].key
  }

  // What comes before and after the missing subtree in the listing of the whole tree.
  function Before(c: Ctx): seq<Pair> {
    match c
    case Top => []
    case Down(up, _, l, _) => Before(up) + FlatAll(l)
  }

  function After(c: Ctx): seq<Pair> {
    match c
    case Top => []
    case Down(up, _, _, r) => FlatAll(r) + After(up)
  }

  // ---------------------------------------------------------------- contexts

  function Plug(c: Ctx, t: Tree): Tree {
    match c
    case Top => t
    case Down(up, id, l, r) => Plug(up, Inner(id, l + [t] + r))
  }

  // The context c with the context ci in its hole.
  function Compose(c: Ctx, ci: Ctx): Ctx {
    match ci
    case Top => c
    case Down(up, id, l, r) => Down(Compose(c, up), id, l, r)
  }

  function PathOf(c: Ctx): seq<PathElement> {
    match c
    case Top => []
    case Down(up, id, l, _) => PathOf(up) + [PathElement(id, |l|)]
  }

  lemma {:induction false} FlatAllAppend(a: seq<Tree>, b: seq<Tree>)
    ensures FlatAll(a + b) == FlatAll(a) + FlatAll(b)
  {
    if a == [] {
      assert a + b == b;
    } else {
      FlatAllAppend(a[1..], b);
      assert (a + b)[1..] == a[1..] + b;
      assert FlatAll(a + b) == Flat(a[0]) + (FlatAll(a[1..]) + FlatAll(b));
    }
  }

  lemma FlatAllSingle(t: Tree)
    ensures FlatAll([t]) == Flat(t)
  {
    assert FlatAll([t]) == Flat(t) + FlatAll([]);
  }

  lemma FlatAllMiddle(l: seq<Tree>, t: Tree, r: seq<Tree>)
    ensures FlatAll(l + [t] + r) == FlatAll(l) + Flat(t) + FlatAll(r)
  {
    FlatAllAppend(l + [t], r);
    FlatAllAppend(l, [t]);
    FlatAllSingle(t);
  }

  lemma {:induction false} FlatPlug(c: Ctx, t: Tree)
    ensures Flat(Plug(c, t)) == Before(c) + Flat(t) + After(c)
  {
    match c
    case Top =>
    case Down(up, id, l, r) =>
      FlatPlug(up, Inner(id, l + [t] + r));
      FlatAllMiddle(l, t, r);
      hide Flat, FlatAll, Before, After;
      Regroup(Before(up), FlatAll(l), Flat(t), FlatAll(r), After(up));
  }

  lemma Regroup(a: seq<Pair>, b: seq<Pair>, c: seq<Pair>, d: seq<Pair>, e: seq<Pair>)
    ensures a + (b + c + d) + e == (a + b) + c + (d + e)
  {
  }

  lemma {:induction false} ComposeProps(c: Ctx, ci: Ctx, t: Tree)
    ensures Plug(Compose(c, ci), t) == Plug(c, Plug(ci, t))
    ensures PathOf(Compose(c, ci)) == PathOf(c) + PathOf(ci)
    ensures Before(Compose(c, ci)) == Before(c) + Before(ci)
    ensures After(Compose(c, ci)) == After(ci) + After(c)
  {
    match ci
    case Top =>
    case Down(up, id, l, r) =>
      ComposeProps(c, up, Inner(id, l + [t] + r));
  }

  // ---------------------------------------------------------------- object ids

  function Ids(t: Tree): multiset<Id>
    decreases t, 1
  {
    match t
    case Leaf(id, _) => multiset{id}
    case Inner(id, kids) => multiset{id} + IdsAll(kids)
  }

  function IdsAll(ts: seq<Tree>): multiset<Id>
    decreases ts, 0
  {
    if ts == [] then multiset{} else Ids(ts[0]) + IdsAll(ts[1..])
  }

  function IdsCtx(c: Ctx): multiset<Id> {
    match c
    case Top => multiset{}
    case Down(up, id, l, r) => IdsCtx(up) + multiset{id} + IdsAll(l) + IdsAll(r)
  }

  // No node is shared: every id is used once.
  ghost predicate Distinct(m: multiset<Id>) {
    forall x :: m[x] <= 1
  }

  lemma {:induction false} IdsAllAppend(a: seq<Tree>, b: seq<Tree>)
    ensures IdsAll(a + b) == IdsAll(a) + IdsAll(b)
  {
    hide Ids;
    if a == [] {
      assert a + b == b;
    } else {
      IdsAllAppend(a[1..], b);
      assert (a + b)[1..] == a[1..] + b && (a + b)[0] == a[0];
      var p, q, s := Ids(a[0]), IdsAll(a[1..]), IdsAll(b);
      assert p + (q + s) == p + q + s;
    }
  }

  lemma IdsAllMiddle(l: seq<Tree>, t: Tree, r: seq<Tree>)
    ensures IdsAll(l + [t] + r) == IdsAll(l) + Ids(t) + IdsAll(r)
  {
    IdsAllAppend(l + [t], r);
    IdsAllAppend(l, [t]);
    assert IdsAll([t]) == Ids(t) + IdsAll([]);
  }

  lemma {:induction false} IdsPlug(c: Ctx, t: Tree)
    ensures Ids(Plug(c, t)) == IdsCtx(c) + Ids(t)
  {
    match c
    case Top =>
    case Down(up, id, l, r) =>
      IdsPlug(up, Inner(id, l + [t] + r));
      IdsAllMiddle(l, t, r);
  }

  lemma {:induction false} IdsCompose(c: Ctx, ci: Ctx)
    ensures IdsCtx(Compose(c, ci)) == IdsCtx(c) + IdsCtx(ci)
  {
    match ci
    case Top =>
    case Down(up, _, _, _) => IdsCompose(c, up);
  }

  lemma {:induction false} IdsAllMember(ts: seq<Tree>, i: nat)
    requires i < |ts|
    ensures Ids(ts[i]) <= IdsAll(ts)
  {
    if i > 0 {
      IdsAllMember(ts[1..], i - 1);
    }
  }

  // ---------------------------------------------------------------- a document spells out a tree

  function IdsOf(ts: seq<Tree>): (r: seq<Id>)
    ensures |r| == |ts|
    ensures forall i :: 0 <= i < |ts| ==> r[i] == ts[i].id
  {
    seq(|ts|, i requires 0 <= i < |ts| => ts[i].id)
  }

  lemma IdsOfMiddle(l: seq<Tree>, t: Tree, r: seq<Tree>)
    ensures IdsOf(l + [t] + r) == IdsOf(l) + [t.id] + IdsOf(r)
  {
  }

  ghost predicate Holds(h: Heap, t: Tree)
    decreases t, 1
  {
    && t.id in h
    && match t
       case Leaf(id, items) => h[id].items == Some(items) && h[id].kids == None
       case Inner(id, kids) => h[id].items == None && h[id].kids == Some(IdsOf(kids)) && HoldsAll(h, kids)
  }

  ghost predicate HoldsAll(h: Heap, ts: seq<Tree>)
    decreases ts, 0
  {
    forall i :: 0 <= i < |ts| ==> Holds(h, ts[i])
  }

  ghost predicate HoldsCtx(h: Heap, c: Ctx, hole: Id) {
    match c
    case Top => true
    case Down(up, id, l, r) =>
      && id in h && h[id].items == None
      && h[id].kids == Some(IdsOf(l) + [hole] + IdsOf(r))
      && HoldsAll(h, l) && HoldsAll(h, r)
      && HoldsCtx(h, up, id)
  }

  lemma {:induction false} HoldsPlug(h: Heap, c: Ctx, t: Tree)
    ensures Holds(h, Plug(c, t)) <==> HoldsCtx(h, c, t.id) && Holds(h, t)
  {
    match c
    case Top =>
    case Down(up, id, l, r) =>
      var p := Inner(id, l + [t] + r);
      HoldsPlug(h, up, p);
      IdsOfMiddle(l, t, r);
      var ks := l + [t] + r;
      assert ks[|l|] == t;
      assert forall i :: 0 <= i < |l| ==> ks[i] == l[i];
      assert forall i :: 0 <= i < |r| ==> ks[|l| + 1 + i] == r[i];
  }

  // Two documents agree on the structure (not the limits) of a set of nodes.
  ghost predicate SameShape(h: Heap, h': Heap, m: multiset<Id>) {
    forall x :: x in m && x in h ==> x in h' && h'[x].items == h[x].items && h'[x].kids == h[x].kids
  }

  ghost predicate SameNodes(h: Heap, h': Heap, m: multiset<Id>) {
    forall x :: x in m && x in h ==> x in h' && h'[x] == h[x]
  }

  lemma {:induction false} HoldsFrame(h: Heap, h': Heap, t: Tree)
    requires Holds(h, t) && SameShape(h, h', Ids(t))
    ensures Holds(h', t)
    decreases t, 1
  {
    assert t.id in Ids(t);
    if t.Inner? {
      HoldsAllFrame(h, h', t.kids);
    }
  }

  lemma {:induction false} HoldsAllFrame(h: Heap, h': Heap, ts: seq<Tree>)
    requires HoldsAll(h, ts) && SameShape(h, h', IdsAll(ts))
    ensures HoldsAll(h', ts)
    decreases ts, 0
  {
    forall i | 0 <= i < |ts|
      ensures Holds(h', ts[i])
    {
      IdsAllMember(ts, i);
      HoldsFrame(h, h', ts[i]);
    }
  }

  lemma {:induction false} HoldsCtxFrame(h: Heap, h': Heap, c: Ctx, hole: Id)
    requires HoldsCtx(h, c, hole) && SameShape(h, h', IdsCtx(c))
    ensures HoldsCtx(h', c, hole)
  {
    match c
    case Top =>
    case Down(up, id, l, r) =>
      assert id in IdsCtx(c);
      HoldsAllFrame(h, h', l);
      HoldsAllFrame(h, h', r);
      HoldsCtxFrame(h, h', up, id);
  }

  // ---------------------------------------------------------------- sizes and depth

  // t, not the root, has all its leaves d levels down, and no node is empty or over the threshold.
  ghost predicate NodeOk(t: Tree, d: nat, threshold: nat)
    decreases t, 1
  {
    match t
    case Leaf(_, items) => d == 0 && 1 <= |items| <= threshold
    case Inner(_, kids) =>
      d > 0 && 1 <= |kids| <= threshold && AllOk(kids, d - 1, threshold)
  }

  ghost predicate AllOk(ts: seq<Tree>, d: nat, threshold: nat)
    decreases ts, 0
  {
    forall i :: 0 <= i < |ts| ==> NodeOk(ts[i], d, threshold)
  }

  // As NodeOk, but t itself may be one over the threshold: the state just before a split.
  ghost predicate Fullish(t: Tree, d: nat, threshold: nat) {
    match t
    case Leaf(_, items) => d == 0 && 1 <= |items| <= threshold + 1
    case Inner(_, kids) => d > 0 && 1 <= |kids| <= threshold + 1 && AllOk(kids, d - 1, threshold)
  }

  ghost predicate RootOk(t: Tree, threshold: nat) {
    (t.Leaf? && t.items == []) || exists d: nat :: NodeOk(t, d, threshold)
  }

  ghost predicate CtxOk(c: Ctx, d: nat, threshold: nat) {
    match c
    case Top => true
    case Down(up, _, l, r) =>
      |l| + 1 + |r| <= threshold && AllOk(l, d, threshold) && AllOk(r, d, threshold) && CtxOk(up, d + 1, threshold)
  }

  function DepthOf(c: Ctx): nat {
    match c
    case Top => 0
    case Down(up, _, _, _) => 1 + DepthOf(up)
  }

  lemma {:induction false} OkPlug(c: Ctx, t: Tree, d: nat, threshold: nat)
    requires CtxOk(c, d, threshold) && NodeOk(t, d, threshold)
    ensures NodeOk(Plug(c, t), d + DepthOf(c), threshold)
  {
    match c
    case Top =>
    case Down(up, id, l, r) =>
      OkPlug(up, Inner(id, l + [t] + r), d + 1, threshold);
  }

  // Going down a tree, every context on the way is in order.
  lemma {:induction false} OkUnplug(c: Ctx, t: Tree, d: nat, threshold: nat)
    requires NodeOk(Plug(c, t), d, threshold)
    ensures DepthOf(c) <= d
    ensures CtxOk(c, d - DepthOf(c), threshold) && NodeOk(t, d - DepthOf(c), threshold)
  {
    match c
    case Top =>
    case Down(up, id, l, r) =>
      var p := Inner(id, l + [t] + r);
      OkUnplug(up, p, d, threshold);
      assert p.kids[|l|] == t;
      assert forall i :: 0 <= i < |l| ==> p.kids[i] == l[i];
      assert forall i :: 0 <= i < |r| ==> p.kids[|l| + 1 + i] == r[i];
  }

  lemma {:induction false} NonEmpty(t: Tree, d: nat, threshold: nat)
    requires NodeOk(t, d, threshold)
    ensures |Flat(t)| > 0
    decreases t
  {
    if t.Inner? {
      NonEmpty(t.kids[0], d - 1, threshold);
    }
  }

  // ---------------------------------------------------------------- limits

  // The limits of one node against its own contents or the limits of its outer kids. The lower
  // limit is exact; the upper limit may lag behind that of the last kid.
  ghost predicate LimAt(h: Heap, id: Id) {
    && id in h && h[id].limits.Some?
    && var lim := h[id].limits.value;
       lim.lo <= lim.hi &&
       match h[id].items
       case Some(items) => |items| > 0 && lim.lo == items[0].key && lim.hi == items[|items| - 1].key
       case None =>
         && h[id].kids.Some?
         && var ks := h[id].kids.value;
            && |ks| > 0 && ks[0] in h && ks[|ks| - 1] in h
            && h[ks[0]].limits.Some? && h[ks[|ks| - 1]].limits.Some?
            && lim.lo == h[ks[0]].limits.value.lo
            && lim.hi <= h[ks[|ks| - 1]].limits.value.hi
  }

  ghost predicate LimTree(h: Heap, t: Tree)
    decreases t, 1
  {
    LimAt(h, t.id) && (t.Inner? ==> LimAll(h, t.kids))
  }

  ghost predicate LimAll(h: Heap, ts: seq<Tree>)
    decreases ts, 0
  {
    forall i :: 0 <= i < |ts| ==> LimTree(h, ts[i])
  }

  // The root itself has no limits.
  ghost predicate LimRoot(h: Heap, t: Tree) {
    t.Inner? ==> LimAll(h, t.kids)
  }

  ghost predicate LimCtx(h: Heap, c: Ctx) {
    match c
    case Top => true
    case Down(up, id, l, r) =>
      (up.Down? ==> LimAt(h, id)) && LimAll(h, l) && LimAll(h, r) && LimCtx(h, up)
  }

  lemma {:induction false} LimPlug(h: Heap, c: Ctx, t: Tree)
    ensures c.Top? ==> (LimRoot(h, Plug(c, t)) <==> LimRoot(h, t))
    ensures c.Down? ==> (LimRoot(h, Plug(c, t)) <==> LimCtx(h, c) && LimTree(h, t))
  {
    match c
    case Top =>
    case Down(up, id, l, r) =>
      var p := Inner(id, l + [t] + r);
      LimPlug(h, up, p);
      assert p.kids[|l|] == t;
      assert forall i :: 0 <= i < |l| ==> p.kids[i] == l[i];
      assert forall i :: 0 <= i < |r| ==> p.kids[|l| + 1 + i] == r[i];
  }

  lemma {:induction false} LimFrame(h: Heap, h': Heap, t: Tree)
    requires Holds(h, t) && LimTree(h, t) && SameNodes(h, h', Ids(t))
    ensures LimTree(h', t)
    decreases t, 1
  {
    assert t.id in Ids(t);
    if t.Inner? {
      LimAllFrame(h, h', t.kids);
      var n := |t.kids|;
      assert n > 0;
      IdsAllMember(t.kids, 0);
      IdsAllMember(t.kids, n - 1);
      assert t.kids[0].id in Ids(t.kids[0]) && t.kids[n - 1].id in Ids(t.kids[n - 1]);
    }
  }

  lemma {:induction false} LimAllFrame(h: Heap, h': Heap, ts: seq<Tree>)
    requires HoldsAll(h, ts) && LimAll(h, ts) && SameNodes(h, h', IdsAll(ts))
    ensures LimAll(h', ts)
    decreases ts, 0
  {
    forall i | 0 <= i < |ts|
      ensures LimTree(h', ts[i])
    {
      IdsAllMember(ts, i);
      LimFrame(h, h', ts[i]);
    }
  }

  lemma OuterKids(t: Tree)
    requires t.Inner? && |t.kids| > 0
    ensures Flat(t.kids[0]) <= Flat(t)
    ensures var last := Flat(t.kids[|t.kids| - 1]);
            |last| <= |Flat(t)| && Flat(t)[|Flat(t)| - |last|..] == last
  {
    var n := |t.kids|;
    assert t.kids == t.kids[..n - 1] + [t.kids[n - 1]];
    FlatAllAppend(t.kids[..n - 1], [t.kids[n - 1]]);
    FlatAllSingle(t.kids[n - 1]);
  }

  // Lower limits are exact and upper limits never exceed the greatest key.
  lemma {:induction false} LimBounds(h: Heap, t: Tree, d: nat, threshold: nat)
    requires Holds(h, t) && LimTree(h, t)
    requires NodeOk(t, d, threshold)
    ensures |Flat(t)| > 0
    ensures h[t.id].limits.value.lo == Flat(t)[0].key
    ensures h[t.id].limits.value.lo <= h[t.id].limits.value.hi <= Flat(t)[|Flat(t)| - 1].key
    decreases t
  {
    if t.Inner? {
      var n := |t.kids|;
      var first, last := t.kids[0], t.kids[n - 1];
      LimBounds(h, first, d - 1, threshold);
      LimBounds(h, last, d - 1, threshold);
      OuterKids(t);
    }
  }
}

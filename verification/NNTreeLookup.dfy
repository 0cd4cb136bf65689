/**
 * Why the descent of findInternal in libqpdf/NNTree.cc ends at the right leaf although the upper
 * limits on its way may be too small.
 */
module NNTreeLookup {
  import opened Wrappers
  import opened NNTreeModel
  import opened NNTreeLimits
  import opened NNTreeSplit
  import opened NNTreePosition
  import opened NNTreeInvariant
  import opened NNTreeContents
  import opened NNTreeSearch

  // If the key is in the tree, it is in t, the subtree in the hole of c.
  ghost predicate Heading(c: Ctx, t: Tree, key: int) {
    && Flat(t) != [] && Flat(t)[0].key <= key
    && (After(c) != [] ==> key < After(c)[0].key)
  }

  // Kids are disjoint ranges in order, whatever their upper limits say.
  lemma {:induction false} KidsInOrder(h: Heap, t: Tree, d: nat, threshold: nat, i: nat, j: nat)
    requires t.Inner? && Holds(h, t) && LimRoot(h, t) && NodeOk(t, d, threshold) && Sorted(Flat(t))
    requires i < j < |t.kids|
    ensures t.kids[i].id in h && t.kids[j].id in h
    ensures var li, lj := h[t.kids[i].id].limits, h[t.kids[j].id].limits;
            li.Some? && lj.Some? && li.value.lo <= li.value.hi < lj.value.lo
  {
    assert Holds(h, t.kids[i]) && LimTree(h, t.kids[i]) && NodeOk(t.kids[i], d - 1, threshold);
    assert Holds(h, t.kids[j]) && LimTree(h, t.kids[j]) && NodeOk(t.kids[j], d - 1, threshold);
    hide Holds, LimRoot, LimTree, LimAll, LimAt, NodeOk, Sorted, Flat;
    LimBounds(h, t.kids[i], d - 1, threshold);
    LimBounds(h, t.kids[j], d - 1, threshold);
    KidsOrdered(t, i, j);
  }

  lemma {:induction false} KidsOrdered(t: Tree, i: nat, j: nat)
    requires t.Inner? && i < j < |t.kids| && Sorted(Flat(t)) && |Flat(t.kids[i])| > 0 && |Flat(t.kids[j])| > 0
    ensures Flat(t.kids[i])[|Flat(t.kids[i])| - 1].key < Flat(t.kids[j])[0].key
  {
    assert Flat(t) == FlatAll(t.kids);
    hide Sorted, Flat, FlatAll;
    var a, b, z := t.kids[..i], t.kids[i + 1..j], t.kids[j + 1..];
    var fi, fj := Flat(t.kids[i]), Flat(t.kids[j]);
    assert t.kids == (a + [t.kids[i]] + b) + [t.kids[j]] + z;
    FlatAllMiddle(a + [t.kids[i]] + b, t.kids[j], z);
    FlatAllMiddle(a, t.kids[i], b);
    OrderedParts(FlatAll(a), fi, FlatAll(b), fj, FlatAll(z));
  }

  lemma OrderedParts(a: seq<Pair>, b: seq<Pair>, c: seq<Pair>, d: seq<Pair>, e: seq<Pair>)
    requires Sorted((a + b + c) + d + e) && |b| > 0 && |d| > 0
    ensures b[|b| - 1].key < d[0].key
  {
    var s := (a + b + c) + d + e;
    assert s[|a| + |b| - 1] == b[|b| - 1] && s[|a| + |b| + |c|] == d[0];
  }

  lemma {:induction false} KidsSearchable(h: Heap, t: Tree, d: nat, threshold: nat, key: int)
    requires t.Inner? && Holds(h, t) && LimRoot(h, t) && NodeOk(t, d, threshold) && Sorted(Flat(t))
    ensures Searchable(h, key, Kids(IdsOf(t.kids)))
  {
    var e := Kids(IdsOf(t.kids));
    forall i | 0 <= i < |t.kids|
      ensures e.kids[i] in h && h[e.kids[i]].limits.Some?
    {
      assert LimTree(h, t.kids[i]);
    }
    forall i, j | 0 <= i < j < e.Size() && Compare(h, key, e, i) <= 0
      ensures Compare(h, key, e, j) == -1
    {
      KidsInOrder(h, t, d, threshold, i, j);
    }
  }

  // The kid found leads on.
  lemma {:induction false} KidFound(h: Heap, c: Ctx, t: Tree, d: nat, threshold: nat, key: int, r: int)
    requires t.Inner? && Holds(h, t) && LimRoot(h, t) && NodeOk(t, d, threshold) && Sorted(Flat(t))
    requires Heading(c, t, key)
    requires Searchable(h, key, Kids(IdsOf(t.kids))) && -1 <= r < |t.kids|
    requires r >= 0 ==> Compare(h, key, Kids(IdsOf(t.kids)), r) >= 0
    requires Above(Statuses(h, key, Kids(IdsOf(t.kids))), r)
    ensures r >= 0
    ensures Heading(Down(c, t.id, t.kids[..r], t.kids[r + 1..]), t.kids[r], key)
  {
    var e := Kids(IdsOf(t.kids));
    LimBounds(h, t.kids[0], d - 1, threshold);
    OuterKids(t);
    var st := Statuses(h, key, e);
    assert st[0] >= 0;
    LimBounds(h, t.kids[r], d - 1, threshold);
    if r + 1 < |t.kids| {
      assert st[r + 1] == -1;
      LimBounds(h, t.kids[r + 1], d - 1, threshold);
      assert t.kids[r + 1..] == [t.kids[r + 1]] + t.kids[r + 2..];
      assert FlatAll(t.kids[r + 1..])[0] == Flat(t.kids[r + 1])[0];
    } else {
      assert FlatAll(t.kids[r + 1..]) == [];
    }
  }

  lemma {:induction false} ItemsSearchable(h: Heap, items: seq<Pair>, key: int)
    requires Sorted(items)
    ensures Searchable(h, key, Items(items))
  {
  }

  // The item found in the leaf is the one the listing has.
  lemma {:induction false} ItemFound(h: Heap, c: Ctx, t: Tree, key: int, r: int)
    requires t.Leaf? && Heading(c, t, key) && Sorted(Before(c) + t.items + After(c))
    requires Searchable(h, key, Items(t.items)) && -1 <= r < |t.items|
    requires r >= 0 ==> Compare(h, key, Items(t.items), r) >= 0
    requires Above(Statuses(h, key, Items(t.items)), r)
    ensures r >= 0 && IsAtOrBelow(Flat(Plug(c, t)), key, |Before(c)| + r)
  {
    hide Sorted, Statuses, Above, Searchable, Compare, Plug, After, Before;
    assert Heading(c, t, key);
    FlatPlug(c, t);
    FoundInItems(h, t.items, key, r);
    Within(Before(c), t.items, After(c), r);
  }

  lemma {:induction false} FoundInItems(h: Heap, items: seq<Pair>, key: int, r: int)
    requires items != [] && items[0].key <= key && Searchable(h, key, Items(items)) && -1 <= r < |items|
    requires r >= 0 ==> Compare(h, key, Items(items), r) >= 0
    requires Above(Statuses(h, key, Items(items)), r)
    ensures r >= 0 && items[r].key <= key && (r + 1 < |items| ==> key < items[r + 1].key)
  {
    var st := Statuses(h, key, Items(items));
    assert st[0] >= 0;
    if r + 1 < |items| {
      assert st[r + 1] == -1;
    }
  }

  lemma Within(a: seq<Pair>, s: seq<Pair>, z: seq<Pair>, r: nat)
    requires r < |s|
    ensures var w, k := a + s + z, |a| + r;
            && k < |w| && w[k] == s[r]
            && (k + 1 < |w| ==> w[k + 1] == if r + 1 < |s| then s[r + 1] else z[0])
            && (k + 1 < |w| && r + 1 == |s| ==> z != [])
  {
  }

  lemma {:induction false} ItemMissing(h: Heap, c: Ctx, t: Tree, key: int)
    requires t.Leaf? && Heading(c, t, key) && Sorted(Before(c) + t.items + After(c))
    requires forall j :: 0 <= j < |t.items| ==> Compare(h, key, Items(t.items), j) != 0
    ensures forall i :: 0 <= i < |Flat(Plug(c, t))| ==> Flat(Plug(c, t))[i].key != key
  {
    FlatPlug(c, t);
    forall j | 0 <= j < |t.items|
      ensures t.items[j].key != key
    {
      assert Compare(h, key, Items(t.items), j) != 0;
    }
    assert t.items[0].key <= key && (After(c) != [] ==> key < After(c)[0].key);
    hide Compare, Before, After, Plug, Heading;
    NotBeside(Before(c), t.items, After(c), key);
  }

  lemma NotBeside(a: seq<Pair>, s: seq<Pair>, z: seq<Pair>, key: int)
    requires s != [] && Sorted(a + s + z) && s[0].key <= key && (z != [] ==> key < z[0].key)
    requires forall j :: 0 <= j < |s| ==> s[j].key != key
    ensures forall i :: 0 <= i < |a + s + z| ==> (a + s + z)[i].key != key
  {
    var w, n, m := a + s + z, |a|, |s|;
    assert w[n] == s[0] && (z != [] ==> w[n + m] == z[0]);
    forall i | 0 <= i < |w|
      ensures w[i].key != key
    {
      if i < n {
        assert w[i].key < w[n].key;
      } else if i < n + m {
        assert w[i] == s[i - n];
      } else if i > n + m {
        assert w[n + m].key < w[i].key;
      }
    }
  }
}

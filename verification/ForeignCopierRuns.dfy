/**
 * What the copies made by any number of calls of libqpdf/QPDF.cc's foreign object copier are worth:
 * whatever can be followed in the copies is what can be followed in the original document.
 */
module ForeignCopierRuns {
  import opened ForeignCopierModel
  import opened ForeignCopier

  // Every copy that has been made is right, by the one id map as it is now, even if it was made long
  // ago by a smaller map.
  lemma {:induction false} CopiesMirror(g: Graph, s: State, copies: Copies, og: ObjGen)
    requires Consistent(g, s) && Settled(g, s, copies) && og in copies && NoDirectPages(g, Contents(g[og]))
    ensures og in s.m && s.m[og] in s.local && MirrorsNode(g, s.m, g[og], s.local[s.m[og]])
  {
    assert Finished(g, s, copies, og);
    ImageOfNodeMirrors(g, copies[og], s.m, g[og]);
  }

  // ---------------------------------------------------------------- following paths

  datatype Step = Item(index: nat) | Key(key: string)

  // The handle found by going through references, arrays and dictionaries. What is not there is null.
  function Next(g: Graph, o: Obj, step: Step): Obj {
    var c := Contents(Resolve(g, o));
    match step
    case Item(i) => if c.Arr? && i < |c.items| then c.items[i] else Null
    case Key(k) => if c.Dict? then Lookup(c.entries, k) else Null
  }

  function Follow(g: Graph, o: Obj, path: seq<Step>): Obj
    decreases |path|
  {
    if path == [] then o else Follow(g, Next(g, o, path[0]), path[1..])
  }

  // The path meets neither the page tree nor a page that has not been copied.
  ghost predicate Inside(g: Graph, copies: Copies, o: Obj, path: seq<Step>)
    decreases |path|
  {
    && !(o.Ref? && IsPages(g, o))
    && (path != [] && o.Ref? ==> o.og in copies)
    && (path != [] ==> Inside(g, copies, Next(g, o, path[0]), path[1..]))
  }

  // A handle and its copy: the same thing, or both null.
  ghost predicate Same(g: Graph, m: IdMap, o: Obj, o': Obj) {
    Mirrors(g, m, o, o') || (IsNull(g, o) && o' == Null)
  }

  ghost predicate AllDirect(g: Graph) {
    forall og :: og in g ==> NoDirectPages(g, Contents(g[og]))
  }

  lemma {:induction false} LookupAt(es: seq<Entry>, i: nat)
    requires DistinctKeys(es) && i < |es|
    ensures Lookup(es, es[i].key) == es[i].value
    decreases |es|
  {
    if i > 0 {
      assert es[1..][i - 1] == es[i];
      assert es[0].key != es[i].key;
      LookupAt(es[1..], i - 1);
    }
  }

  lemma {:induction false} LookupNone(es: seq<Entry>, k: string)
    requires forall i :: 0 <= i < |es| ==> es[i].key != k
    ensures Lookup(es, k) == Null
    decreases |es|
  {
    if es != [] {
      LookupNone(es[1..], k);
    }
  }

  lemma {:induction false} KeptDistinct(g: Graph, es: seq<Entry>, n: nat)
    requires DistinctKeys(es) && n <= |es|
    ensures DistinctKeys(Kept(g, es, n))
    decreases n
  {
    hide Dropped, Kept;
    if n == 0 {
      KeptNone(g, es);
    } else {
      KeptDistinct(g, es, n - 1);
      KeptOthers(g, es, n);
      KeptNext(g, es, n);
    }
  }

  lemma {:induction false} KeptNone(g: Graph, es: seq<Entry>)
    ensures Kept(g, es, 0) == []
  {
  }

  lemma {:induction false} KeptNext(g: Graph, es: seq<Entry>, n: nat)
    requires 0 < n <= |es|
    ensures Kept(g, es, n) == Kept(g, es, n - 1) + if Dropped(g, es[n - 1].value) then [] else [es[n - 1]]
  {
    hide Dropped;
  }

  lemma {:induction false} KeptOthers(g: Graph, es: seq<Entry>, n: nat)
    requires DistinctKeys(es) && 0 < n <= |es|
    ensures var kept := Kept(g, es, n - 1); forall i :: 0 <= i < |kept| ==> kept[i].key != es[n - 1].key
  {
    hide Dropped, Kept;
    var kept := Kept(g, es, n - 1);
    forall i | 0 <= i < |kept|
      ensures kept[i].key != es[n - 1].key
    {
      assert kept[i] in kept;
      var j :| 0 <= j < n - 1 && es[j] == kept[i];
      assert es[j].key != es[n - 1].key;
    }
  }

  // A key leads to the same thing in a dictionary and in its copy.
  lemma {:induction false} SameKey(g: Graph, m: IdMap, es: seq<Entry>, es': seq<Entry>, k: string)
    requires DistinctKeys(es) && Mirrors(g, m, Dict(es), Dict(es'))
    requires !(Lookup(es, k).Ref? && IsPages(g, Lookup(es, k)))
    ensures Same(g, m, Lookup(es, k), Lookup(es', k))
  {
    var kept := Kept(g, es, |es|);
    KeptDistinct(g, es, |es|);
    KeptKey(g, es, k);
    hide Kept, OfType, IsNull;
    forall i, j | 0 <= i < j < |es'| ensures es'[i].key != es'[j].key {
      assert es'[i].key == kept[i].key && es'[j].key == kept[j].key;
    }
    if i :| 0 <= i < |es'| && es'[i].key == k {
      LookupAt(es', i);
      LookupAt(kept, i);
      assert Mirrors(g, m, kept[i].value, es'[i].value);
    } else {
      LookupNone(es', k);
      LookupNone(kept, k);
    }
  }

  lemma {:induction false} KeptKey(g: Graph, es: seq<Entry>, k: string)
    requires DistinctKeys(es)
    ensures var kept := Kept(g, es, |es|);
            Lookup(kept, k) == if Dropped(g, Lookup(es, k)) then Null else Lookup(es, k)
  {
    var kept := Kept(g, es, |es|);
    KeptDistinct(g, es, |es|);
    hide OfType, IsNull;
    if i :| 0 <= i < |kept| && kept[i].key == k {
      LookupAt(kept, i);
      assert kept[i] in kept;
      var j :| 0 <= j < |es| && es[j] == kept[i] && !Dropped(g, es[j].value);
      LookupAt(es, j);
    } else {
      LookupNone(kept, k);
      if j :| 0 <= j < |es| && es[j].key == k {
        LookupAt(es, j);
        assert es[j] !in kept;
      } else {
        LookupNone(es, k);
      }
    }
  }

  // One step through an object that is not a reference.
  lemma {:induction false} SameBelow(g: Graph, m: IdMap, l: Graph, o: Obj, o': Obj, step: Step)
    requires Mirrors(g, m, o, o') && !o.Ref? && Known(g, o)
    requires var n := Next(g, o, step); !(n.Ref? && IsPages(g, n))
    ensures Same(g, m, Next(g, o, step), Next(l, o', step))
  {
    if step.Key? && o.Dict? {
      SameKey(g, m, o.entries, o'.entries, step.key);
    }
  }

  lemma {:induction false} KnownNext(g: Graph, o: Obj, step: Step)
    requires Document(g) && Known(g, o)
    ensures Known(g, Next(g, o, step))
  {
    var c := Contents(Resolve(g, o));
    assert Known(g, c);
    if step.Key? && c.Dict? {
      KnownValue(g, c.entries, step.key);
    }
  }

  lemma {:induction false} KnownValue(g: Graph, es: seq<Entry>, k: string)
    requires forall i :: 0 <= i < |es| ==> Known(g, es[i].value)
    ensures Known(g, Lookup(es, k))
    decreases |es|
  {
    if es != [] && es[0].key != k {
      KnownValue(g, es[1..], k);
    }
  }

  // One step through anything that has been copied.
  lemma {:induction false} SameNext(g: Graph, s: State, copies: Copies, o: Obj, o': Obj, step: Step)
    requires Document(g) && AllDirect(g) && Consistent(g, s) && Settled(g, s, copies)
    requires Known(g, o) && Same(g, s.m, o, o') && !(o.Ref? && IsPages(g, o)) && (o.Ref? ==> o.og in copies)
    requires var n := Next(g, o, step); !(n.Ref? && IsPages(g, n))
    ensures Same(g, s.m, Next(g, o, step), Next(s.local, o', step))
  {
    if IsNull(g, o) && o' == Null {
      return;
    }
    if o.Ref? {
      CopiesMirror(g, s, copies, o.og);
      var c, c' := Contents(g[o.og]), Contents(s.local[s.m[o.og]]);
      assert Known(g, c) && !c.Ref? && Mirrors(g, s.m, c, c');
      assert Next(g, o, step) == Next(g, c, step);
      hide OfType, Kept, Covered;
      assert !c'.Ref? && Next(s.local, o', step) == Next(s.local, c', step);
      SameBelow(g, s.m, s.local, c, c', step);
    } else {
      SameBelow(g, s.m, s.local, o, o', step);
    }
  }

  // Any path leads to the same thing in the original and in the copy, through shared objects and
  // cycles, as long as it stays away from the page tree and from pages that have not been copied.
  lemma {:induction false} SamePaths(g: Graph, s: State, copies: Copies, o: Obj, o': Obj, path: seq<Step>)
    requires Document(g) && AllDirect(g) && Consistent(g, s) && Settled(g, s, copies)
    requires Known(g, o) && Same(g, s.m, o, o') && Inside(g, copies, o, path)
    ensures Same(g, s.m, Follow(g, o, path), Follow(s.local, o', path))
    decreases |path|
  {
    if path != [] {
      SameNext(g, s, copies, o, o', path[0]);
      KnownNext(g, o, path[0]);
      hide Same, Next, Document, AllDirect, Consistent, Settled, Known, OfType;
      SamePaths(g, s, copies, Next(g, o, path[0]), Next(s.local, o', path[0]), path[1..]);
    }
  }

  lemma {:induction false} InsideEnd(g: Graph, copies: Copies, o: Obj, path: seq<Step>)
    requires Inside(g, copies, o, path)
    ensures var e := Follow(g, o, path); !(e.Ref? && IsPages(g, e))
    decreases |path|
  {
    if path != [] {
      InsideEnd(g, copies, Next(g, o, path[0]), path[1..]);
    }
  }

  // Sharing: two paths that lead to references end in one object of the copy exactly if they end in
  // one object of the original.
  lemma {:induction false} SharingKept(g: Graph, s: State, copies: Copies, a: Obj, a': Obj, path: seq<Step>,
                                       b: Obj, b': Obj, path': seq<Step>)
    requires Document(g) && AllDirect(g) && Consistent(g, s) && Settled(g, s, copies)
    requires Known(g, a) && Same(g, s.m, a, a') && Inside(g, copies, a, path)
    requires Known(g, b) && Same(g, s.m, b, b') && Inside(g, copies, b, path')
    ensures var e, f := Follow(g, a, path), Follow(g, b, path');
            var e', f' := Follow(s.local, a', path), Follow(s.local, b', path');
            e.Ref? && f.Ref? && !IsNull(g, e) && !IsNull(g, f) ==> e'.Ref? && f'.Ref? && (e' == f' <==> e == f)
  {
    SamePaths(g, s, copies, a, a', path);
    SamePaths(g, s, copies, b, b', path');
    InsideEnd(g, copies, a, path);
    InsideEnd(g, copies, b, path');
    hide Document, AllDirect, Settled, Known, Inside, Follow, IsPages, IsNull;
  }

  // ---------------------------------------------------------------- any number of calls

  // A copy that is there stays there.
  lemma {:induction false} FinishedStays(g: Graph, s: State, copies: Copies, og: ObjGen, f: State, copies': Copies,
          a: ObjGen)
    requires og in g && Effect(g, s, copies, og, f, copies') && Settled(g, f, copies') && a in copies
    ensures Finished(g, f, copies', a)
  {
    hide IsPages, Reaches, Covered;
    assert a in copies' && a in f.m;
  }

  // After any calls, everything asked for has its copy, and every reference handed out is to it:
  // also for a page that an earlier call could only leave null.
  method CopyEach(c: Copier, asked: seq<ObjGen>) returns (refs: seq<Obj>)
    requires c.Valid() && forall i :: 0 <= i < |asked| ==> asked[i] in c.source
    modifies c
    ensures c.Valid() && |refs| == |asked|
    ensures forall i :: 0 <= i < |asked| ==>
              if IsPages(c.source, Ref(asked[i])) then refs[i] == Null
              else Finished(c.source, c.St(), c.copies, asked[i]) && refs[i] == Ref(c.objectMap[asked[i]])
  {
    hide Effect, Settled, Consistent, Document, Finished, IsPages;
    refs := [];
    for i := 0 to |asked|
      invariant c.Valid() && |refs| == i
      invariant forall j :: 0 <= j < i ==> Served(c.source, c.St(), c.copies, asked[j], refs[j])
    {
      ghost var s, copies := c.St(), c.copies;
      var r := c.Copied(Ref(asked[i]));
      forall j | 0 <= j < i ensures Served(c.source, c.St(), c.copies, asked[j], refs[j]) {
        ServedStays(c.source, s, copies, asked[i], c.St(), c.copies, asked[j], refs[j]);
      }
      ServedNow(c.source, s, copies, asked[i], c.St(), c.copies, r);
      refs := refs + [r];
    }
  }

  ghost predicate Served(g: Graph, s: State, copies: Copies, og: ObjGen, r: Obj) {
    if IsPages(g, Ref(og)) then r == Null else Finished(g, s, copies, og) && r == Ref(s.m[og])
  }

  lemma {:induction false} ServedNow(g: Graph, s: State, copies: Copies, og: ObjGen, f: State, copies': Copies, r: Obj)
    requires og in g && Effect(g, s, copies, og, f, copies')
    requires if IsPages(g, Ref(og)) then r == Null else og in f.m && r == Ref(f.m[og])
    ensures Served(g, f, copies', og, r)
  {
    hide IsPages, Finished;
  }

  lemma {:induction false} ServedStays(g: Graph, s: State, copies: Copies, og: ObjGen, f: State, copies': Copies,
                                       a: ObjGen, r: Obj)
    requires og in g && Effect(g, s, copies, og, f, copies') && Settled(g, f, copies') && Served(g, s, copies, a, r)
    ensures Served(g, f, copies', a, r)
  {
    if !IsPages(g, Ref(a)) {
      FinishedStays(g, s, copies, og, f, copies', a);
    }
  }
}

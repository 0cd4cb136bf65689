/**
 * Objects::Foreign::Copier of libqpdf/QPDF.cc, lines 445 to 615: copying an object and all that it
 * refers to from another document, up to page boundaries, in two passes over an id map.
 */
module ForeignCopier {
  import opened ForeignCopierModel

  // The id map, the objects still to be copied and the document that they go to.
  datatype State = State(m: IdMap, toCopy: seq<ObjGen>, local: Graph, lastId: nat)

  ghost predicate Consistent(g: Graph, s: State) {
    && NoPages(g, s.m)
    && (forall a :: a in s.m ==> s.m[a] in s.local)
    && (forall a, b :: a in s.m && b in s.m && s.m[a] == s.m[b] ==> a == b)
    && (forall id :: id in s.local ==> id.obj <= s.lastId)
    && (forall i :: 0 <= i < |s.toCopy| ==> s.toCopy[i] in s.m)
    && (forall i, j :: 0 <= i < j < |s.toCopy| ==> s.toCopy[i] != s.toCopy[j])
  }

  // What a new object is before it is copied.
  function Blank(n: Node): Node {
    if n.Stream? then Stream([], []) else Direct(Null)
  }

  ghost predicate NewlyMapped(g: Graph, s: State, t: State, og: ObjGen)
    requires og in t.m && |s.toCopy| <= |t.toCopy|
  {
    && t.m[og] !in s.local && og in g
    && t.m[og] in t.local && t.local[t.m[og]] == Blank(g[og])
    && (og in t.toCopy[|s.toCopy|..] <==> !IsPage(g, Ref(og)))
  }

  ghost predicate Reserved(g: Graph, s: State, t: State, og: ObjGen) {
    og !in s.m && og in g && !IsPage(g, Ref(og)) && Covered(g, Contents(g[og]), t.m.Keys)
  }

  // Reserving goes from s to t: nothing there changes, and what is new to copy has places for all it
  // refers to.
  ghost predicate Grew(g: Graph, s: State, t: State) {
    && Submap(s.m, t.m) && s.toCopy <= t.toCopy && s.lastId <= t.lastId
    && s.local.Keys <= t.local.Keys && (forall id :: id in s.local ==> t.local[id] == s.local[id])
    && (forall og :: og in t.m && og !in s.m ==> NewlyMapped(g, s, t, og))
    && (forall og :: og in t.toCopy[|s.toCopy|..] ==> Reserved(g, s, t, og))
  }

  lemma {:induction false} GrewTwice(g: Graph, s: State, t: State, u: State)
    requires Grew(g, s, t) && Grew(g, t, u)
    ensures Grew(g, s, u)
  {
    var n, k := |s.toCopy|, |t.toCopy|;
    assert u.toCopy[n..] == t.toCopy[n..] + u.toCopy[k..];
    forall og | og in u.toCopy[n..] ensures Reserved(g, s, u, og) {
      if og in t.toCopy[n..] {
        assert Reserved(g, s, t, og);
        CoveredGrows(g, Contents(g[og]), t.m.Keys, u.m.Keys);
      } else {
        assert Reserved(g, t, u, og);
      }
    }
    forall og | og in u.m && og !in s.m ensures NewlyMapped(g, s, u, og) {
      if og in t.m {
        assert NewlyMapped(g, s, t, og);
      } else {
        assert NewlyMapped(g, t, u, og);
      }
    }
  }

  // A new id, and the object with it among those to copy.
  function Mapped(g: Graph, s: State, og: ObjGen, push: bool): State
    requires og in g
  {
    var id := ObjGen(s.lastId + 1, 0);
    State(s.m[og := id], if push then s.toCopy + [og] else s.toCopy, s.local[id := Blank(g[og])], s.lastId + 1)
  }

  lemma {:induction false} MappedConsistent(g: Graph, s: State, og: ObjGen, push: bool)
    requires Consistent(g, s) && og in g && og !in s.m && !IsPages(g, Ref(og))
    ensures Consistent(g, Mapped(g, s, og, push))
  {
  }

  lemma {:induction false} PlaceholderGrew(g: Graph, s: State, og: ObjGen)
    requires Consistent(g, s) && og in g && og !in s.m && IsPage(g, Ref(og))
    ensures Grew(g, s, Mapped(g, s, og, false)) && From(g, Ref(og), s.m, Mapped(g, s, og, false).m)
  {
    var t := Mapped(g, s, og, false);
    FromRef(g, og, s.m, t.m, t.m);
    assert NewlyMapped(g, s, t, og);
    assert t.toCopy[|s.toCopy|..] == [];
  }

  // The object and then everything below it.
  lemma {:induction false} MappedGrew(g: Graph, s: State, og: ObjGen, t: State)
    requires Consistent(g, s) && og in g && og !in s.m && !IsPages(g, Ref(og)) && !IsPage(g, Ref(og))
    requires Grew(g, Mapped(g, s, og, true), t) && Covered(g, Contents(g[og]), t.m.Keys)
    ensures Grew(g, s, t)
  {
    hide Covered, Contents, IsPage, IsPages;
    var m := Mapped(g, s, og, true);
    var n := |s.toCopy|;
    assert t.toCopy[n..] == [og] + t.toCopy[n + 1..];
    assert Reserved(g, s, t, og);
    forall a | a in t.toCopy[n..] ensures Reserved(g, s, t, a) {
      if a != og {
        assert a in t.toCopy[n + 1..];
        assert Reserved(g, m, t, a);
      }
    }
    forall a | a in t.m && a !in s.m ensures NewlyMapped(g, s, t, a) {
      if a != og {
        assert NewlyMapped(g, m, t, a);
      } else {
        assert og in t.toCopy[n..];
      }
    }
  }

  ghost function Pushed(g: Graph, s: State, og: ObjGen): State
    requires og in g
  {
    if og in s.m then s.(toCopy := [og]) else Mapped(g, s, og, true)
  }

  // The object asked for is to be copied if it has no copy: a page that has a place only, too.
  predicate ToStart(g: Graph, s: State, og: ObjGen) {
    && !IsPages(g, Ref(og))
    && (og in s.m ==> IsPage(g, Ref(og)) && IsNull(s.local, Ref(s.m[og])))
  }

  ghost function Started(g: Graph, s: State, foreign: Obj, top: bool): State {
    if top && foreign.Ref? && foreign.og in g && ToStart(g, s, foreign.og) then Pushed(g, s, foreign.og) else s
  }

  lemma {:induction false} GrewSelf(g: Graph, s: State)
    ensures Grew(g, s, s)
  {
    assert s.toCopy[|s.toCopy|..] == [];
  }

  function PartCount(o: Obj): nat {
    if o.Arr? then |o.items| else if o.Dict? then |o.entries| else 0
  }

  function Part(o: Obj, i: nat): (r: Obj)
    requires i < PartCount(o)
    ensures r < o
  {
    if o.Arr? then o.items[i] else o.entries[i].value
  }

  predicate Skipped(g: Graph, o: Obj, i: nat)
    requires i < PartCount(o)
  {
    o.Dict? && IsNull(g, o.entries[i].value)
  }

  // The first n parts of the object have been gone through, from s to t.
  ghost predicate Walked(g: Graph, o: Obj, n: nat, s: State, t: State) {
    && n <= PartCount(o) && Grew(g, s, t) && From(g, o, s.m, t.m)
    && forall j :: 0 <= j < n ==> Skipped(g, o, j) || Covered(g, Part(o, j), t.m.Keys)
  }

  lemma {:induction false} WalkedOn(g: Graph, o: Obj, n: nat, s: State, t: State, u: State)
    requires Walked(g, o, n, s, t) && n < PartCount(o) && !IsPages(g, o) && !Skipped(g, o, n)
    requires Grew(g, t, u) && From(g, Part(o, n), t.m, u.m) && Covered(g, Part(o, n), u.m.Keys)
    ensures Walked(g, o, n + 1, s, u)
  {
    hide Grew, Covered, OfType, From;
    GrewTwice(g, s, t, u);
    PartWithin(g, o, n);
    FromItem(g, Part(o, n), o, s.m, t.m, u.m);
    GrewKeys(g, t, u);
    forall j | 0 <= j < n && !Skipped(g, o, j) ensures Covered(g, Part(o, j), u.m.Keys) {
      CoveredGrows(g, Part(o, j), t.m.Keys, u.m.Keys);
    }
  }

  lemma {:induction false} GrewKeys(g: Graph, s: State, t: State)
    requires Grew(g, s, t)
    ensures s.m.Keys <= t.m.Keys
  {
  }

  lemma {:induction false} PartWithin(g: Graph, o: Obj, i: nat)
    requires i < PartCount(o) && !IsPages(g, o) && !Skipped(g, o, i)
    ensures Within(g, Part(o, i), o)
  {
  }

  lemma {:induction false} WalkedAll(g: Graph, o: Obj, s: State, t: State)
    requires Walked(g, o, PartCount(o), s, t) && !o.Ref?
    ensures Covered(g, o, t.m.Keys) && Grew(g, s, t) && From(g, o, s.m, t.m)
  {
    assert o.Arr? ==> forall j :: 0 <= j < |o.items| ==> o.items[j] == Part(o, j);
    assert o.Dict? ==> forall j :: 0 <= j < |o.entries| ==>
      o.entries[j].value == Part(o, j) && (Skipped(g, o, j) <==> IsNull(g, o.entries[j].value));
  }

  lemma {:induction false} KnownPart(g: Graph, o: Obj, i: nat)
    requires Known(g, o) && i < PartCount(o)
    ensures Known(g, Part(o, i))
  {
  }

  lemma {:induction false} PagesCovered(g: Graph, o: Obj, ogs: set<ObjGen>)
    requires IsPages(g, o)
    ensures Covered(g, o, ogs) && !IsPage(g, o)
  {
  }

  lemma {:induction false} RefCovered(g: Graph, og: ObjGen, ogs: set<ObjGen>)
    requires og in ogs
    ensures Covered(g, Ref(og), ogs)
  {
  }

  lemma {:induction false} KnownRef(g: Graph, o: Obj)
    requires Known(g, o) && o.Ref?
    ensures o.og in g
  {
  }

  lemma {:induction false} KnownRefTo(g: Graph, og: ObjGen)
    requires og in g
    ensures Known(g, Ref(og))
  {
  }

  lemma {:induction false} KnownContents(g: Graph, og: ObjGen)
    requires Document(g) && og in g
    ensures Known(g, Contents(g[og])) && !Contents(g[og]).Ref?
    ensures g[og].Direct? && !IsPages(g, Ref(og)) ==> !IsPages(g, g[og].value)
  {
  }

  lemma {:induction false} PushedConsistent(g: Graph, s: State, og: ObjGen)
    requires Consistent(g, s) && og in g && !IsPages(g, Ref(og))
    requires og in s.m ==> s.toCopy == []
    ensures Consistent(g, Pushed(g, s, og))
  {
  }

  lemma {:induction false} ContentsReserved(g: Graph, s: State, og: ObjGen, top: bool, t: State)
    requires Consistent(g, s) && og in g && !IsPages(g, Ref(og))
    requires top || (og !in s.m && !IsPage(g, Ref(og)))
    requires var u := Pushed(g, s, og); Grew(g, u, t) && From(g, Contents(g[og]), u.m, t.m)
    requires Covered(g, Contents(g[og]), t.m.Keys)
    ensures Covered(g, Ref(og), t.m.Keys)
    ensures !top ==> Grew(g, s, t) && From(g, Ref(og), s.m, t.m)
  {
    if !top {
      MappedGrew(g, s, og, t);
      FromRef(g, og, s.m, Pushed(g, s, og).m, t.m);
    }
  }

  // There is a place for the object, not filled yet, and for all that it refers to.
  ghost predicate Ready(g: Graph, t: State, og: ObjGen) {
    && og in t.m && og in g && t.m[og] in t.local && t.local[t.m[og]] == Blank(g[og])
    && Covered(g, Contents(g[og]), t.m.Keys)
  }

  ghost predicate AllAreReady(g: Graph, t: State) {
    forall i :: 0 <= i < |t.toCopy| ==> Ready(g, t, t.toCopy[i])
  }

  // The local document once the first n objects are copied.
  ghost function Filled(g: Graph, t: State, n: nat): Graph {
    if n == 0 || n > |t.toCopy| then t.local
    else
      var og := t.toCopy[n - 1];
      if og in t.m && og in g then Filled(g, t, n - 1)[t.m[og] := ImageOfNode(g, t.m, g[og])] else Filled(g, t, n - 1)
  }

  lemma {:induction false} FilledKeys(g: Graph, t: State, n: nat)
    requires n <= |t.toCopy| && AllAreReady(g, t)
    ensures Filled(g, t, n).Keys == t.local.Keys
  {
    if n > 0 {
      FilledKeys(g, t, n - 1);
      assert Ready(g, t, t.toCopy[n - 1]);
    }
  }

  lemma {:induction false} FilledAt(g: Graph, t: State, n: nat, og: ObjGen)
    requires Consistent(g, t) && n <= |t.toCopy| && og in t.m
    requires AllAreReady(g, t)
    ensures Filled(g, t, n).Keys == t.local.Keys
    ensures Filled(g, t, n)[t.m[og]] ==
            if og in t.toCopy[..n] then ImageOfNode(g, t.m, g[og]) else t.local[t.m[og]]
  {
    hide Covered, ImageOfNode, Contents, Blank;
    if n > 0 {
      FilledAt(g, t, n - 1, og);
      FilledKeys(g, t, n - 1);
      var b := t.toCopy[n - 1];
      assert t.toCopy[..n] == t.toCopy[..n - 1] + [b];
      assert Ready(g, t, b) && (t.m[b] == t.m[og] ==> b == og);
      hide Covered, ImageOfNode, Contents, Blank, Consistent, Ready, AllAreReady;
    }
  }

  lemma {:induction false} FilledElsewhere(g: Graph, t: State, n: nat, id: ObjGen)
    requires Consistent(g, t) && n <= |t.toCopy| && id in t.local
    requires AllAreReady(g, t)
    requires forall og :: og in t.toCopy ==> t.m[og] != id
    ensures id in Filled(g, t, n) && Filled(g, t, n)[id] == t.local[id]
  {
    if n > 0 {
      FilledElsewhere(g, t, n - 1, id);
    }
  }

  type Copies = map<ObjGen, IdMap>

  // An object has been copied by the map of its time, which had places for all it refers to.
  ghost predicate Finished(g: Graph, s: State, copies: Copies, og: ObjGen) {
    && og in copies && og in g && og in s.m && s.m[og] in s.local
    && Submap(copies[og], s.m)
    && Covered(g, Contents(g[og]), copies[og].Keys)
    && s.local[s.m[og]] == ImageOfNode(g, copies[og], g[og])
  }

  // A page that has only been referred to is null.
  ghost predicate Pending(g: Graph, s: State, copies: Copies, og: ObjGen) {
    && og !in copies && og in g && IsPage(g, Ref(og))
    && og in s.m && s.m[og] in s.local && s.local[s.m[og]] == Direct(Null)
  }

  ghost predicate Settled(g: Graph, s: State, copies: Copies) {
    && copies.Keys <= s.m.Keys
    && forall og :: og in s.m ==> Finished(g, s, copies, og) || Pending(g, s, copies, og)
  }

  // What the first pass finds to copy can be copied.
  lemma {:induction false} NewReady(g: Graph, u: State, t: State, a: ObjGen)
    requires Consistent(g, t) && Grew(g, u, t) && a in t.toCopy[|u.toCopy|..]
    ensures Ready(g, t, a) && a in t.m && a !in u.m && !IsPage(g, Ref(a))
  {
    hide Covered, OfType, Contents;
    assert Reserved(g, u, t, a);
    assert a in t.toCopy;
    assert NewlyMapped(g, u, t, a);
  }

  lemma {:induction false} StartReady(g: Graph, s: State, og: ObjGen, t: State)
    requires Consistent(g, s) && og in g && ToStart(g, s, og) && Grew(g, Pushed(g, s, og), t)
    requires Covered(g, Contents(g[og]), t.m.Keys)
    ensures Ready(g, t, og)
  {
    PageIsDirect(g, og);
    hide Covered, Contents, IsPage;
    var u := Pushed(g, s, og);
    assert u.m[og] in u.local && u.local[u.m[og]] == Blank(g[og]);
  }

  lemma {:induction false} PageIsDirect(g: Graph, og: ObjGen)
    requires og in g
    ensures IsPage(g, Ref(og)) ==> Blank(g[og]) == Direct(Null)
  {
  }

  ghost predicate AllReady(g: Graph, s: State, og: ObjGen, t: State) {
    && AllAreReady(g, t)
    && (forall a :: a in t.m ==> (a in t.toCopy <==> ToBeCopied(g, s, og, a)))
    && (forall a :: a in t.m && a !in s.m && a !in t.toCopy ==> t.m[a] in t.local && t.local[t.m[a]] == Direct(Null))
    && (forall a :: a in t.m && a !in s.m ==> t.m[a] !in s.local)
    && Submap(s.m, t.m) && s.local.Keys <= t.local.Keys && (forall id :: id in s.local ==> t.local[id] == s.local[id])
  }

  // After the first pass: which objects are to be copied, and that all of them can be.
  lemma {:induction false} FirstPass(g: Graph, s: State, og: ObjGen, t: State)
    requires Consistent(g, s) && s.toCopy == [] && og in g && Consistent(g, t)
    requires Grew(g, Started(g, s, Ref(og), true), t)
    requires ToStart(g, s, og) ==> Covered(g, Contents(g[og]), t.m.Keys)
    requires og in t.m ==> og in s.m || ToStart(g, s, og)
    ensures AllReady(g, s, og, t)
  {
    hide Covered, Contents, Ready, Reserved, NewlyMapped, Consistent, Started, ToStart, ToBeCopied, IsPage;
    var u := Started(g, s, Ref(og), true);
    StartedKeeps(g, s, og);
    forall a | a in t.toCopy ensures Ready(g, t, a) {
      FirstPassReady(g, s, og, t, a);
    }
    forall a | a in t.m
      ensures a in t.toCopy <==> ToBeCopied(g, s, og, a)
      ensures a !in s.m && a !in t.toCopy ==> t.m[a] in t.local && t.local[t.m[a]] == Direct(Null)
      ensures a !in s.m ==> t.m[a] !in s.local
    {
      FirstPassChoice(g, s, og, t, a);
    }
  }

  lemma {:induction false} StartedKeeps(g: Graph, s: State, og: ObjGen)
    requires Consistent(g, s) && og in g
    ensures var u := Started(g, s, Ref(og), true);
            Submap(s.m, u.m) && s.local.Keys <= u.local.Keys && forall id :: id in s.local ==>
                u.local[id] == s.local[id]
  {
    hide IsPage, OfType, Blank;
  }

  lemma {:induction false} FirstPassReady(g: Graph, s: State, og: ObjGen, t: State, a: ObjGen)
    requires Consistent(g, s) && s.toCopy == [] && og in g && Consistent(g, t)
    requires Grew(g, Started(g, s, Ref(og), true), t)
    requires ToStart(g, s, og) ==> Covered(g, Contents(g[og]), t.m.Keys)
    requires a in t.toCopy
    ensures Ready(g, t, a)
  {
    hide Contents, Ready, Reserved, NewlyMapped, IsPage, IsPages;
    var u := Started(g, s, Ref(og), true);
    var k := |u.toCopy|;
    assert t.toCopy == u.toCopy + t.toCopy[k..];
    hide Covered, Contents, Ready, Reserved, NewlyMapped, Consistent, ToStart, IsPage;
    if a in t.toCopy[k..] {
      NewReady(g, u, t, a);
    } else {
      StartReady(g, s, og, t);
    }
  }

  lemma {:induction false} FirstPassChoice(g: Graph, s: State, og: ObjGen, t: State, a: ObjGen)
    requires Consistent(g, s) && s.toCopy == [] && og in g && Consistent(g, t)
    requires Grew(g, Started(g, s, Ref(og), true), t)
    requires og in t.m ==> og in s.m || ToStart(g, s, og)
    requires a in t.m
    ensures a in t.toCopy <==> ToBeCopied(g, s, og, a)
    ensures a !in s.m && a !in t.toCopy ==> t.m[a] in t.local && t.local[t.m[a]] == Direct(Null)
    ensures a !in s.m ==> t.m[a] !in s.local
  {
    hide Covered, Contents, Ready, Reserved, IsPages;
    var u := Started(g, s, Ref(og), true);
    var k := |u.toCopy|;
    assert t.toCopy == u.toCopy + t.toCopy[k..];
    assert NewlyMapped(g, u, t, a) || a in u.m;
    PageIsDirect(g, a);
    hide Covered, Contents, Ready, Reserved, Consistent, ToStart, IsPage;
    if a in t.toCopy[k..] {
      NewReady(g, u, t, a);
    }
  }

  ghost predicate ToBeCopied(g: Graph, s: State, og: ObjGen, a: ObjGen) {
    if a == og then ToStart(g, s, og) else a !in s.m && !IsPage(g, Ref(a))
  }

  ghost function AddedCopies(copies: Copies, t: State): Copies {
    copies + map a | a in t.toCopy :: t.m
  }

  // After the second pass: every object is copied or a page that waits.
  lemma {:induction false} SecondPass(g: Graph, s: State, copies: Copies, og: ObjGen, t: State, f: State)
    requires Settled(g, s, copies) && Consistent(g, t) && AllReady(g, s, og, t)
    requires f == t.(toCopy := [], local := Filled(g, t, |t.toCopy|))
    requires forall a :: a in copies ==> a !in t.toCopy
    ensures Consistent(g, f) && Settled(g, f, AddedCopies(copies, t))
    ensures forall a :: a in t.toCopy ==> Finished(g, f, AddedCopies(copies, t), a)
  {
    hide Pending, Ready, IsPage, Covered, Contents;
    FilledKeys(g, t, |t.toCopy|);
    assert forall a :: a in t.toCopy ==> a in t.m;
    assert AddedCopies(copies, t).Keys <= f.m.Keys;
    hide Finished, Pending, Ready, Filled, AddedCopies, Consistent, IsPage, ToBeCopied;
    forall a | a in t.m
      ensures if a in t.toCopy then Finished(g, f, AddedCopies(copies, t), a)
              else Finished(g, f, AddedCopies(copies, t), a) || Pending(g, f, AddedCopies(copies, t), a)
    {
      SecondPassEach(g, s, copies, og, t, f, a);
    }
    StillConsistent(g, t, f);
  }

  lemma {:induction false} StillConsistent(g: Graph, t: State, f: State)
    requires Consistent(g, t) && f == t.(toCopy := [], local := f.local) && f.local.Keys == t.local.Keys
    ensures Consistent(g, f)
  {
  }

  lemma {:induction false} SecondPassEach(g: Graph, s: State, copies: Copies, og: ObjGen, t: State, f: State, a: ObjGen)
    requires Settled(g, s, copies) && Consistent(g, t) && AllReady(g, s, og, t)
    requires f == t.(toCopy := [], local := Filled(g, t, |t.toCopy|)) && f.local.Keys == t.local.Keys
    requires (forall a :: a in copies ==> a !in t.toCopy) && a in t.m
    ensures if a in t.toCopy then Finished(g, f, AddedCopies(copies, t), a)
            else Finished(g, f, AddedCopies(copies, t), a) || Pending(g, f, AddedCopies(copies, t), a)
  {
    hide Covered, Contents, IsPage, IsPages, Blank;
    var n := |t.toCopy|;
    assert t.toCopy[..n] == t.toCopy;
    assert a in g && t.m[a] in t.local && a in f.m && f.m[a] in f.local;
    FilledAt(g, t, n, a);
    assert a in t.toCopy ==> Ready(g, t, a);
    assert a in t.toCopy <==> ToBeCopied(g, s, og, a);
    assert a in s.m ==> Finished(g, s, copies, a) || Pending(g, s, copies, a);
    hide Filled, Consistent, IsPage, Covered, Contents, Settled, ImageOfNode, Blank, AllReady, ToStart;
    if a in t.toCopy {
    } else if a in s.m {
      hide Finished, Pending, Ready;
      OldStays(g, s, copies, t, f, a);
    } else {
      assert a in copies ==> a in s.m;
    }
  }

  lemma {:induction false} OldStays(g: Graph, s: State, copies: Copies, t: State, f: State, a: ObjGen)
    requires Finished(g, s, copies, a) || Pending(g, s, copies, a)
    requires Submap(s.m, f.m) && a in s.m && a !in t.toCopy
    requires f.m[a] in f.local && s.m[a] in s.local && f.local[f.m[a]] == s.local[s.m[a]]
    ensures Finished(g, f, AddedCopies(copies, t), a) || Pending(g, f, AddedCopies(copies, t), a)
  {
    hide IsPage, Covered, Contents, ImageOfNode;
  }

  // What one call does, from s to f: the object has its copy, unless it belongs to the page tree.
  // What was there stays as it was, but for a page that was null. Places are made for what the
  // object reaches only, and a page among it waits as null. A second time, nothing happens.
  ghost predicate Effect(g: Graph, s: State, copies: Copies, og: ObjGen, f: State, copies': Copies)
    requires og in g
  {
    && (if IsPages(g, Ref(og)) then og !in f.m else Finished(g, f, copies', og))
    && Submap(s.m, f.m) && CopiesStay(copies, copies') && LocalsStay(s, og, f) && OnlyReached(g, s, og, f, copies')
    && (og in copies ==> f == s && copies' == copies)
  }

  ghost predicate CopiesStay(copies: Copies, copies': Copies) {
    forall a :: a in copies ==> a in copies' && copies'[a] == copies[a]
  }

  ghost predicate LocalsStay(s: State, og: ObjGen, f: State) {
    forall id :: id in s.local ==> id in f.local && (f.local[id] == s.local[id] || WasWaiting(s, og, id))
  }

  ghost predicate OnlyReached(g: Graph, s: State, og: ObjGen, f: State, copies': Copies)
    requires og in g
  {
    forall a :: a in f.m && a !in s.m && a != og ==>
      Reaches(g, Contents(g[og]), a) && (IsPage(g, Ref(a)) ==> Pending(g, f, copies', a))
  }

  ghost predicate WasWaiting(s: State, og: ObjGen, id: ObjGen) {
    og in s.m && id == s.m[og] && id in s.local && s.local[id] == Direct(Null)
  }

  lemma {:induction false} FinishedNotNull(g: Graph, s: State, copies: Copies, og: ObjGen)
    requires Finished(g, s, copies, og)
    ensures !ToStart(g, s, og)
  {
  }

  lemma {:induction false} OldCopies(g: Graph, s: State, copies: Copies, og: ObjGen, t: State)
    requires Settled(g, s, copies) && Consistent(g, t) && AllReady(g, s, og, t)
    ensures Submap(s.m, t.m) && forall a :: a in copies ==> a !in t.toCopy
    ensures CopiesStay(copies, AddedCopies(copies, t))
  {
    hide Covered, Contents, ImageOfNode, IsPages;
    forall a | a in copies ensures a !in t.toCopy {
      assert a in s.m && Finished(g, s, copies, a);
      FinishedNotNull(g, s, copies, a);
      assert a in t.m && (a in t.toCopy <==> ToBeCopied(g, s, og, a));
    }
  }

  ghost function SecondPassed(g: Graph, t: State): State {
    t.(toCopy := [], local := Filled(g, t, |t.toCopy|))
  }

  // Copying into the places that there are in t will have the effect.
  ghost predicate Planned(g: Graph, s: State, copies: Copies, og: ObjGen, t: State)
    requires og in g
  {
    var f, copies' := SecondPassed(g, t), AddedCopies(copies, t);
    && Consistent(g, t) && AllAreReady(g, t) && (!IsPages(g, Ref(og)) ==> og in t.m)
    && Consistent(g, f) && Settled(g, f, copies') && Effect(g, s, copies, og, f, copies')
  }

  lemma {:induction false} CopiedEffect(g: Graph, s: State, copies: Copies, og: ObjGen, t: State)
    requires Consistent(g, s) && s.toCopy == [] && og in g && Settled(g, s, copies) && Consistent(g, t)
    requires Grew(g, Started(g, s, Ref(og), true), t) && Covered(g, Ref(og), t.m.Keys)
    requires ToStart(g, s, og) ==>
               Covered(g, Contents(g[og]), t.m.Keys) && From(g, Contents(g[og]), Pushed(g, s, og).m, t.m)
    requires !ToStart(g, s, og) ==> t == s
    ensures Planned(g, s, copies, og, t)
  {
    HasPlace(g, t, og);
    FirstPass(g, s, og, t);
    hide Consistent, Grew, Covered, Contents, OfType, Settled, ToStart, From, Ready, Started, Finished, Pending, Filled;
    hide IsPages, IsPage, Reaches, ToBeCopied, AddedCopies, WasWaiting, Pushed, AllAreReady;
    hide Submap, CopiesStay, LocalsStay, OnlyReached, AllReady;
    var f := t.(toCopy := [], local := Filled(g, t, |t.toCopy|));
    OldCopies(g, s, copies, og, t);
    SecondPass(g, s, copies, og, t, f);
    OldLocals(g, s, og, t);
    NewReached(g, s, copies, og, t, f);
    if og in t.m {
      OgDone(g, s, copies, og, t, f);
    }
    if og in copies {
      OgNotStarted(g, s, copies, og, t);
    }
  }

  lemma {:induction false} OgDone(g: Graph, s: State, copies: Copies, og: ObjGen, t: State, f: State)
    requires Settled(g, s, copies) && AllReady(g, s, og, t) && og in t.m && !IsPages(g, Ref(og))
    requires forall a :: a in t.toCopy ==> Finished(g, f, AddedCopies(copies, t), a)
    requires f.m == t.m && Settled(g, f, AddedCopies(copies, t))
    ensures Finished(g, f, AddedCopies(copies, t), og)
  {
    hide OfType, Covered, Contents, ImageOfNode, IsPages, IsPage, Ready;
    assert og in t.toCopy <==> ToBeCopied(g, s, og, og);
    assert Finished(g, f, AddedCopies(copies, t), og) || Pending(g, f, AddedCopies(copies, t), og);
    assert og in s.m ==> Finished(g, s, copies, og) || Pending(g, s, copies, og);
  }

  lemma {:induction false} OgNotStarted(g: Graph, s: State, copies: Copies, og: ObjGen, t: State)
    requires Settled(g, s, copies) && og in copies && s.toCopy == []
    requires !ToStart(g, s, og) ==> t == s
    ensures t == s && AddedCopies(copies, t) == copies && Filled(g, t, |t.toCopy|) == s.local
  {
    assert Finished(g, s, copies, og);
    FinishedNotNull(g, s, copies, og);
  }

  lemma {:induction false} OldLocals(g: Graph, s: State, og: ObjGen, t: State)
    requires Consistent(g, t) && AllReady(g, s, og, t)
    ensures LocalsStay(s, og, t.(toCopy := [], local := Filled(g, t, |t.toCopy|)))
  {
    forall id | id in s.local
      ensures var l := Filled(g, t, |t.toCopy|); id in l && (l[id] == s.local[id] || WasWaiting(s, og, id))
    {
      if exists a :: a in t.toCopy && a in t.m && t.m[a] == id {
        var a :| a in t.toCopy && a in t.m && t.m[a] == id;
        assert ToBeCopied(g, s, og, a);
        assert a in s.m && a == og && ToStart(g, s, og);
        FilledKeys(g, t, |t.toCopy|);
      } else {
        FilledElsewhere(g, t, |t.toCopy|, id);
      }
    }
  }

  lemma {:induction false} NewReached(g: Graph, s: State, copies: Copies, og: ObjGen, t: State, f: State)
    requires Consistent(g, s) && og in g && AllReady(g, s, og, t) && Settled(g, s, copies)
    requires ToStart(g, s, og) ==> From(g, Contents(g[og]), Pushed(g, s, og).m, t.m)
    requires !ToStart(g, s, og) ==> t == s
    requires f.m == t.m && Settled(g, f, AddedCopies(copies, t))
    ensures OnlyReached(g, s, og, f, AddedCopies(copies, t))
  {
    hide ToStart, OfType, Reaches, Consistent, Covered;
    forall a | a in f.m && a !in s.m && a != og
      ensures Reaches(g, Contents(g[og]), a) && (IsPage(g, Ref(a)) ==> Pending(g, f, AddedCopies(copies, t), a))
    {
      assert Finished(g, f, AddedCopies(copies, t), a) || Pending(g, f, AddedCopies(copies, t), a);
      assert a in t.toCopy <==> ToBeCopied(g, s, og, a);
    }
  }

  lemma {:induction false} HasPlace(g: Graph, t: State, og: ObjGen)
    requires Consistent(g, t) && og in g && Covered(g, Ref(og), t.m.Keys)
    ensures og in t.m <==> !IsPages(g, Ref(og))
  {
  }

  lemma {:induction false} HasNoPlace(g: Graph, t: State, og: ObjGen)
    requires Consistent(g, t) && IsPages(g, Ref(og))
    ensures og !in t.m
  {
  }

  class Copier {
    const source: Graph
    var objectMap: IdMap
    var toCopy: seq<ObjGen>
    var visiting: set<ObjGen>
    // The document that is copied to.
    var local: Graph
    var lastId: nat
    // The objects that have been copied, with the map each was copied by.
    ghost var copies: Copies

    ghost function St(): State
      reads this
    {
      State(objectMap, toCopy, local, lastId)
    }

    constructor (source: Graph, local: Graph, lastId: nat)
      requires Document(source) && forall id :: id in local ==> id.obj <= lastId
      ensures Valid() && this.source == source && this.local == local && objectMap == map[]
    {
      this.source, this.local, this.lastId := source, local, lastId;
      objectMap, toCopy, visiting, copies := map[], [], {}, map[];
    }

    ghost predicate Valid()
      reads this
    {
      && Document(source) && Consistent(source, St()) && toCopy == [] && visiting == {}
      && Settled(source, St(), copies)
    }

    // Places for an object and for everything it refers to.
    method ReserveObjects(foreign: Obj, top: bool)
      requires Document(source) && Consistent(source, St()) && Known(source, foreign)
      requires visiting <= objectMap.Keys && (top ==> foreign.Ref? && visiting == {} && toCopy == [])
      modifies this`objectMap, this`toCopy, this`visiting, this`local, this`lastId
      ensures Consistent(source, St()) && visiting == old(visiting)
      ensures Covered(source, foreign, objectMap.Keys)
      ensures Grew(source, Started(source, old(St()), foreign, top), St())
      ensures !top ==> From(source, foreign, old(objectMap), objectMap)
      ensures top && !ToStart(source, old(St()), foreign.og) ==> St() == old(St())
      ensures top && ToStart(source, old(St()), foreign.og) ==>
                && Covered(source, Contents(source[foreign.og]), objectMap.Keys)
                && From(source, Contents(source[foreign.og]), Pushed(source, old(St()), foreign.og).m, objectMap)
      decreases source.Keys - objectMap.Keys, top, foreign, 1
    {
      ghost var s := St();
      GrewSelf(source, s);
      hide OfType, Covered, Grew, Known, Consistent, IsPage, IsPages, Resolve, Contents;
      if IsPages(source, foreign) {
        PagesCovered(source, foreign, objectMap.Keys);
        return;
      }
      if foreign.Ref? {
        var og := foreign.og;
        KnownRef(source, foreign);
        if og in visiting {
          RefCovered(source, og, objectMap.Keys);
          return;
        }
        visiting := visiting + {og};
        if og in objectMap {
          RefCovered(source, og, objectMap.Keys);
          if !(top && IsPage(source, foreign) && IsNull(local, Ref(objectMap[og]))) {
            visiting := visiting - {og};
            return;
          }
        } else {
          NewObject(og);
          RefCovered(source, og, objectMap.Keys);
          if !top && IsPage(source, foreign) {
            PlaceholderGrew(source, s, og);
            visiting := visiting - {og};
            return;
          }
        }
        ReserveContents(og, top, s);
        visiting := visiting - {og};
      } else {
        ReserveBelow(foreign);
      }
    }

    // The object is put among those to copy, and what it contains is next.
    method ReserveContents(og: ObjGen, top: bool, ghost s: State)
      requires Document(source) && Consistent(source, St()) && Consistent(source, s) && og in source
      requires !IsPages(source, Ref(og)) && og in visiting && visiting <= objectMap.Keys
      requires top ==> s.toCopy == []
      requires top || (og !in s.m && !IsPage(source, Ref(og)))
      requires St() == if og in s.m then s else Mapped(source, s, og, false)
      modifies this`objectMap, this`toCopy, this`visiting, this`local, this`lastId
      ensures Consistent(source, St()) && visiting == old(visiting)
      ensures Covered(source, Ref(og), objectMap.Keys) && Covered(source, Contents(source[og]), objectMap.Keys)
      ensures var u := Pushed(source, s, og);
              if top then Grew(source, u, St()) && From(source, Contents(source[og]), u.m, objectMap)
              else Grew(source, s, St()) && From(source, Ref(og), s.m, objectMap)
      decreases source.Keys - s.m.Keys, top, Ref(og), 0
    {
      hide OfType, IsPages, Covered, Grew, Known, Consistent, Document;
      PushedConsistent(source, s, og);
      toCopy := toCopy + [og];
      ghost var t := Pushed(source, s, og);
      assert St() == t && s.m.Keys <= objectMap.Keys && og in objectMap && visiting <= objectMap.Keys;
      assert source.Keys - objectMap.Keys <= source.Keys - s.m.Keys;
      assert og !in s.m ==> og in source.Keys - s.m.Keys && og !in source.Keys - objectMap.Keys;
      hide Pushed;
      KnownContents(source, og);
      if source[og].Stream? {
        ReserveObjects(Dict(source[og].dict), false);
      } else {
        ReserveBelow(source[og].value);
      }
      ContentsReserved(source, s, og, top, St());
    }

    // newStream or newIndirectNull.
    method NewObject(og: ObjGen)
      requires og in source && Consistent(source, St()) && og !in objectMap && !IsPages(source, Ref(og))
      modifies this`objectMap, this`local, this`lastId
      ensures St() == Mapped(source, old(St()), og, false)
      ensures Consistent(source, St())
    {
      MappedConsistent(source, St(), og, false);
      lastId := lastId + 1;
      var id := ObjGen(lastId, 0);
      objectMap := objectMap[og := id];
      local := local[id := if source[og].Stream? then Stream([], []) else Direct(Null)];
    }

    // What is in a direct object.
    method ReserveBelow(o: Obj)
      requires Document(source) && Consistent(source, St()) && Known(source, o) && !o.Ref? && !IsPages(source, o)
      requires visiting <= objectMap.Keys
      modifies this`objectMap, this`toCopy, this`visiting, this`local, this`lastId
      ensures Consistent(source, St()) && visiting == old(visiting)
      ensures Covered(source, o, objectMap.Keys)
      ensures Grew(source, old(St()), St()) && From(source, o, old(objectMap), objectMap)
      decreases source.Keys - objectMap.Keys, false, o, 0
    {
      ghost var s := St();
      GrewSelf(source, s);
      assert Walked(source, o, 0, s, s);
      match o {
        case Arr(items) =>
          for i := 0 to |items|
            invariant Consistent(source, St()) && visiting == old(visiting) && Walked(source, o, i, s, St())
          {
            assert items[i] == Part(o, i) && !Skipped(source, o, i);
            ReservePart(items[i], i, o, s);
          }
        case Dict(es) =>
          for i := 0 to |es|
            invariant Consistent(source, St()) && visiting == old(visiting) && Walked(source, o, i, s, St())
          {
            assert es[i].value == Part(o, i);
            if !IsNull(source, es[i].value) {
              ReservePart(es[i].value, i, o, s);
            }
          }
        case _ =>
      }
      WalkedAll(source, o, s, St());
    }

    // The call for one part of an object.
    method ReservePart(foreign: Obj, ghost i: nat, ghost o: Obj, ghost s: State)
      requires Document(source) && Consistent(source, St()) && Known(source, o) && !IsPages(source, o)
      requires Walked(source, o, i, s, St()) && i < PartCount(o) && !Skipped(source, o, i) && foreign == Part(o, i)
      requires visiting <= s.m.Keys
      modifies this`objectMap, this`toCopy, this`visiting, this`local, this`lastId
      ensures Consistent(source, St()) && visiting == old(visiting) && Walked(source, o, i + 1, s, St())
      decreases source.Keys - s.m.Keys, false, foreign, 2
    {
      ghost var t := St();
      KnownPart(source, o, i);
      assert Grew(source, s, t);
      GrewKeys(source, s, t);
      assert source.Keys - objectMap.Keys <= source.Keys - s.m.Keys;
      hide Grew, Walked, Consistent, OfType, Covered, From, Known;
      ReserveObjects(foreign, false);
      WalkedOn(source, o, i, s, t, St());
    }

    // An object of the document that is null so far gets its value.
    method ReplaceReserved(id: ObjGen, copy: Obj)
      requires id in local && local[id] == Direct(Null)
      modifies this`local
      ensures local == old(local)[id := Direct(copy)]
    {
      local := local[id := Direct(copy)];
    }

    // The second pass: everything there is a place for is copied into it.
    method CopyReserved()
      requires Document(source) && Consistent(source, St())
      requires AllAreReady(source, St())
      modifies this`local
      ensures local == Filled(source, old(St()), |toCopy|)
    {
      ghost var t := St();
      hide Covered, Known, NoPages;
      for i := 0 to |toCopy|
        invariant St() == t.(local := Filled(source, t, i))
      {
        var og := toCopy[i];
        var id := objectMap[og];
        FilledAt(source, t, i, og);
        if source[og].Stream? {
          var dict := Image(source, objectMap, Dict(source[og].dict));
          local := local[id := Stream(dict.entries, source[og].data)];
        } else {
          ReplaceReserved(id, Image(source, objectMap, source[og].value));
        }
      }
    }

    // A copy of the object, with all that it refers to up to pages, as a reference.
    method Copied(foreign: Obj) returns (r: Obj)
      requires Valid() && foreign.Ref? && foreign.og in source
      modifies this
      ensures Valid()
      ensures Effect(source, old(St()), old(copies), foreign.og, St(), copies)
      ensures if IsPages(source, foreign) then r == Null
              else foreign.og in objectMap && r == Ref(objectMap[foreign.og])
    {
      var og := foreign.og;
      CopyWithAll(og);
      if IsPages(source, foreign) {
        HasNoPlace(source, St(), og);
      }
      hide IsPages, Effect;
      if og !in objectMap {
        return Null;
      }
      r := Ref(objectMap[og]);
    }

    // The two passes.
    method CopyWithAll(og: ObjGen)
      requires Valid() && og in source
      modifies this
      ensures Valid()
      ensures Effect(source, old(St()), old(copies), og, St(), copies)
      ensures !IsPages(source, Ref(og)) ==> og in objectMap
    {
      hide Consistent, Document, Settled, Filled, Ready, Effect, IsPages, AddedCopies, AllAreReady;
      hide Covered, Known, ImageOfNode, NoPages, Submap;
      ReserveTop(og);
      ghost var t := St();
      ghost var f, copies' := SecondPassed(source, t), AddedCopies(copies, t);
      assert Consistent(source, f) && Settled(source, f, copies');
      assert Effect(source, old(St()), old(copies), og, f, copies');
      hide Planned;
      CopyReserved();
      copies := copies';
      toCopy := [];
      assert St() == f;
    }

    // The first pass, and what it promises of the second.
    method ReserveTop(og: ObjGen)
      requires Valid() && og in source
      modifies this`objectMap, this`toCopy, this`visiting, this`local, this`lastId
      ensures visiting == {} && Planned(source, old(St()), copies, og, St())
    {
      ghost var s := St();
      KnownRefTo(source, og);
      hide Consistent, Document, Known, Grew, Covered, Contents, OfType, Settled, ToStart, From, Filled, Ready, Effect;
      hide Started, IsPages, AddedCopies, AllAreReady, Pushed, Submap, Contents, Resolve, Planned;
      ReserveObjects(Ref(og), true);
      CopiedEffect(source, s, copies, og, St());
    }
  }
}

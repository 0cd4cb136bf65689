/**
 * Where copying between documents stops (Objects::Foreign::Copier of libqpdf/QPDF.cc): at pages that
 * nobody asked for and at the page tree, by what their dictionaries have for /Type.
 */
module ForeignCopierPages {
  import opened ForeignCopierModel
  import opened ForeignCopier
  import opened ForeignCopierRuns

  // The object is a dictionary with the name for its /Type, directly or by a reference.
  ghost predicate TypeIs(g: Graph, og: ObjGen, name: string) {
    && og in g && g[og].Direct? && g[og].value.Dict?
    && exists i :: 0 <= i < |g[og].value.entries| && TypeEntry(g, g[og].value.entries[i], name)
  }

  ghost predicate TypeEntry(g: Graph, e: Entry, name: string) {
    && e.key == "/Type"
    && (e.value == Name(name) || (e.value.Ref? && e.value.og in g && g[e.value.og] == Direct(Name(name))))
  }

  lemma {:induction false} TypesAgree(g: Graph, og: ObjGen)
    requires Document(g) && og in g
    ensures IsPage(g, Ref(og)) <==> TypeIs(g, og, "/Page")
    ensures IsPages(g, Ref(og)) <==> TypeIs(g, og, "/Pages")
  {
    OfTypeIs(g, og, "/Page");
    OfTypeIs(g, og, "/Pages");
  }

  lemma {:induction false} OfTypeIs(g: Graph, og: ObjGen, name: string)
    requires Document(g) && og in g
    ensures OfType(g, Ref(og), name) <==> TypeIs(g, og, name)
  {
    if g[og].Direct? && g[og].value.Dict? {
      var es := g[og].value.entries;
      assert Known(g, Contents(g[og]));
      if i :| 0 <= i < |es| && es[i].key == "/Type" {
        LookupAt(es, i);
      } else {
        LookupNone(es, "/Type");
      }
    }
  }

  // The reference is somewhere in the object.
  predicate Mentions(o: Obj, og: ObjGen) {
    match o
    case Ref(r) => r == og
    case Arr(items) => exists i :: 0 <= i < |items| && Mentions(items[i], og)
    case Dict(es) => exists i :: 0 <= i < |es| && Mentions(es[i].value, og)
    case _ => false
  }

  lemma {:induction false} RefersMentions(g: Graph, o: Obj, og: ObjGen)
    requires Refers(g, o, og)
    ensures Mentions(o, og)
    decreases o
  {
    match o
    case Arr(items) =>
      var i :| 0 <= i < |items| && Refers(g, items[i], og);
      RefersMentions(g, items[i], og);
    case Dict(es) =>
      var i :| 0 <= i < |es| && !IsNull(g, es[i].value) && Refers(g, es[i].value, og);
      RefersMentions(g, es[i].value, og);
    case _ =>
  }

  // One object after the other is mentioned by the one before, and none between is a page.
  ghost predicate PageFree(g: Graph, p: seq<ObjGen>) {
    && p != []
    && (forall i :: 0 <= i < |p| - 1 ==> p[i] in g && Mentions(Contents(g[p[i]]), p[i + 1]))
    && (forall i :: 0 < i < |p| - 1 ==> !TypeIs(g, p[i], "/Page"))
  }

  ghost predicate LeadsTo(g: Graph, asked: seq<ObjGen>, og: ObjGen) {
    exists p :: PageFree(g, p) && p[0] in asked && p[|p| - 1] == og
  }

  lemma {:induction false} ReachedIsLed(g: Graph, asked: seq<ObjGen>, og: ObjGen, a: ObjGen)
    requires Document(g) && og in g && og in asked && Reaches(g, Contents(g[og]), a)
    ensures LeadsTo(g, asked, a)
  {
    hide PageFree;
    var t :| Trail(g, Contents(g[og]), t) && t[|t| - 1] == a;
    hide Trail;
    TrailSome(g, Contents(g[og]), t);
    TrailFree(g, og, t);
    var p := [og] + t;
    assert p[0] in asked && p[|p| - 1] == a;
  }

  lemma {:induction false} TrailSome(g: Graph, o: Obj, t: seq<ObjGen>)
    requires Trail(g, o, t)
    ensures t != []
  {
  }

  lemma {:induction false} TrailFree(g: Graph, og: ObjGen, t: seq<ObjGen>)
    requires Document(g) && og in g && Trail(g, Contents(g[og]), t)
    ensures PageFree(g, [og] + t)
  {
    hide Mentions, Document, TypeIs, Contents, Trail;
    var p := [og] + t;
    assert forall i :: 0 <= i < |t| ==> p[i + 1] == t[i];
    forall i | 0 <= i < |p| - 1
      ensures p[i] in g && Mentions(Contents(g[p[i]]), p[i + 1]) && (i > 0 ==> !TypeIs(g, p[i], "/Page"))
    {
      TrailStep(g, Contents(g[og]), t, i);
    }
  }

  lemma {:induction false} TrailStep(g: Graph, o: Obj, t: seq<ObjGen>, i: nat)
    requires Document(g) && Trail(g, o, t) && i < |t|
    ensures i == 0 ==> Mentions(o, t[0])
    ensures i > 0 ==> t[i - 1] in g && Mentions(Contents(g[t[i - 1]]), t[i]) && !TypeIs(g, t[i - 1], "/Page")
  {
    hide Refers, Mentions, IsPage, Document, TypeIs, Contents;
    if i == 0 {
      RefersMentions(g, o, t[0]);
    } else {
      assert t[i - 1] in g && !IsPage(g, Ref(t[i - 1])) && Refers(g, Contents(g[t[i - 1]]), t[i - 1 + 1]);
      RefersMentions(g, Contents(g[t[i - 1]]), t[i]);
      TypesAgree(g, t[i - 1]);
    }
  }

  // What holds of the places after the calls so far: pages that were not asked for are null, what is not
  // a page is copied, nothing of the page tree has a place, and nothing that is behind a page only.
  ghost predicate Stopped(g: Graph, asked: seq<ObjGen>, s: State, copies: Copies) {
    && (forall og :: og in s.m && TypeIs(g, og, "/Page") && og !in asked ==>
          s.m[og] in s.local && s.local[s.m[og]] == Direct(Null))
    && (forall og :: og in s.m && !TypeIs(g, og, "/Page") ==> Finished(g, s, copies, og))
    && (forall og :: og in s.m ==> og in g && !TypeIs(g, og, "/Pages") && LeadsTo(g, asked, og))
  }

  lemma {:induction false} StillLeads(g: Graph, asked: seq<ObjGen>, og: ObjGen, a: ObjGen)
    requires LeadsTo(g, asked, a)
    ensures LeadsTo(g, asked + [og], a)
  {
    var p :| PageFree(g, p) && p[0] in asked && p[|p| - 1] == a;
    hide PageFree;
    assert p[0] in asked + [og];
  }

  lemma {:induction false} LeadsToItself(g: Graph, asked: seq<ObjGen>, og: ObjGen)
    ensures LeadsTo(g, asked + [og], og)
  {
    assert PageFree(g, [og]) && [og][0] in asked + [og];
  }

  lemma {:induction false} PlaceLed(g: Graph, asked: seq<ObjGen>, s: State, copies: Copies, og: ObjGen, f: State,
                                    copies': Copies, a: ObjGen)
    requires Document(g) && og in g && Stopped(g, asked, s, copies) && Effect(g, s, copies, og, f, copies') && a in f.m
    ensures LeadsTo(g, asked + [og], a)
  {
    hide LeadsTo, Document, TypeIs, Reaches, IsPages, IsPage, Pending, Finished, CopiesStay, LocalsStay, Submap;
    if a in s.m {
      StillLeads(g, asked, og, a);
    } else if a == og {
      LeadsToItself(g, asked, og);
    } else {
      ReachedIsLed(g, asked + [og], og, a);
    }
  }

  lemma {:induction false} PageStays(g: Graph, asked: seq<ObjGen>, s: State, copies: Copies, og: ObjGen, f: State,
                                     copies': Copies, a: ObjGen)
    requires Document(g) && og in g && Stopped(g, asked, s, copies) && Effect(g, s, copies, og, f, copies')
    requires Consistent(g, s) && a in f.m && a in g && TypeIs(g, a, "/Page") && a !in asked && a != og
    ensures f.m[a] in f.local && f.local[f.m[a]] == Direct(Null)
  {
    TypesAgree(g, a);
    hide LeadsTo, Document, TypeIs, Reaches, IsPages, IsPage, Finished, CopiesStay;
  }

  lemma {:induction false} StoppedNext(g: Graph, asked: seq<ObjGen>, s: State, copies: Copies, og: ObjGen, f: State,
                                       copies': Copies)
    requires Document(g) && og in g && Stopped(g, asked, s, copies) && Effect(g, s, copies, og, f, copies')
    requires Consistent(g, s) && Consistent(g, f) && Settled(g, f, copies')
    ensures Stopped(g, asked + [og], f, copies')
  {
    hide LeadsTo, Document, TypeIs, Effect, Stopped, IsPages, IsPage, Finished;
    forall a | a in f.m
      ensures a in g && !TypeIs(g, a, "/Pages") && LeadsTo(g, asked + [og], a)
      ensures !TypeIs(g, a, "/Page") ==> Finished(g, f, copies', a)
      ensures TypeIs(g, a, "/Page") && a !in asked + [og] ==> f.m[a] in f.local && f.local[f.m[a]] == Direct(Null)
    {
      PlaceLed(g, asked, s, copies, og, f, copies', a);
      PlaceIn(g, f, copies', a);
      TypesAgree(g, a);
      if TypeIs(g, a, "/Page") && a !in asked + [og] {
        PageStays(g, asked, s, copies, og, f, copies', a);
      }
    }
    hide Consistent, Settled;
    AllStopped(g, asked + [og], f, copies');
  }

  lemma {:induction false} PlaceIn(g: Graph, f: State, copies: Copies, a: ObjGen)
    requires Consistent(g, f) && Settled(g, f, copies) && a in f.m
    ensures a in g && !IsPages(g, Ref(a)) && (!IsPage(g, Ref(a)) ==> Finished(g, f, copies, a))
  {
    hide IsPages, IsPage;
  }

  lemma {:induction false} AllStopped(g: Graph, asked: seq<ObjGen>, s: State, copies: Copies)
    requires forall og :: og in s.m && TypeIs(g, og, "/Page") && og !in asked ==>
               s.m[og] in s.local && s.local[s.m[og]] == Direct(Null)
    requires forall og :: og in s.m && !TypeIs(g, og, "/Page") ==> Finished(g, s, copies, og)
    requires forall og :: og in s.m ==> og in g && !TypeIs(g, og, "/Pages") && LeadsTo(g, asked, og)
    ensures Stopped(g, asked, s, copies)
  {
  }

  // After any calls.
  method CopyUpToPages(source: Graph, local: Graph, lastId: nat, asked: seq<ObjGen>) returns (c: Copier)
    requires Document(source) && forall id :: id in local ==> id.obj <= lastId
    requires forall i :: 0 <= i < |asked| ==> asked[i] in source
    ensures fresh(c) && c.Valid() && c.source == source && Stopped(source, asked, c.St(), c.copies)
    ensures forall i :: 0 <= i < |asked| && !TypeIs(source, asked[i], "/Pages") ==>
              Finished(source, c.St(), c.copies, asked[i])
  {
    hide Effect, Settled, Consistent, Document, Finished, IsPages, Stopped, TypeIs;
    c := new Copier(source, local, lastId);
    NothingYet(source, c.St(), c.copies);
    for i := 0 to |asked|
      invariant fresh(c) && c.Valid() && c.source == source && Stopped(source, asked[..i], c.St(), c.copies)
      invariant forall j :: 0 <= j < i && !TypeIs(source, asked[j], "/Pages") ==>
                  Finished(source, c.St(), c.copies, asked[j])
    {
      ghost var s, copies := c.St(), c.copies;
      var _ := c.Copied(Ref(asked[i]));
      StoppedNext(source, asked[..i], s, copies, asked[i], c.St(), c.copies);
      assert asked[..i + 1] == asked[..i] + [asked[i]];
      forall j | 0 <= j < i && !TypeIs(source, asked[j], "/Pages")
        ensures Finished(source, c.St(), c.copies, asked[j])
      {
        DoneStays(source, s, copies, asked[i], c.St(), c.copies, asked[j]);
      }
      AskedDone(source, s, copies, asked[i], c.St(), c.copies);
    }
    assert asked[..|asked|] == asked;
  }

  lemma {:induction false} DoneStays(g: Graph, s: State, copies: Copies, og: ObjGen, f: State, copies': Copies,
                                     a: ObjGen)
    requires og in g && Effect(g, s, copies, og, f, copies') && Settled(g, f, copies') && Finished(g, s, copies, a)
    ensures Finished(g, f, copies', a)
  {
    FinishedStays(g, s, copies, og, f, copies', a);
  }

  lemma {:induction false} AskedDone(g: Graph, s: State, copies: Copies, og: ObjGen, f: State, copies': Copies)
    requires Document(g) && og in g && Effect(g, s, copies, og, f, copies')
    ensures !TypeIs(g, og, "/Pages") ==> Finished(g, f, copies', og)
  {
    TypesAgree(g, og);
    hide TypeIs, IsPages, Document;
  }

  lemma {:induction false} NothingYet(g: Graph, s: State, copies: Copies)
    requires s.m == map[]
    ensures Stopped(g, [], s, copies)
  {
  }
}

/**
 * What copying objects between documents has to achieve: the objects of a PDF document as a graph,
 * and when a copy of one is right (Objects::Foreign::Copier of libqpdf/QPDF.cc).
 */
module ForeignCopierModel {
  datatype ObjGen = ObjGen(obj: nat, gen: nat)

  datatype Obj =
    | Null
    | Name(name: string)
    | Scalar(text: string)
    | Ref(og: ObjGen)
    | Arr(items: seq<Obj>)
    | Dict(entries: seq<Entry>)

  datatype Entry = Entry(key: string, value: Obj)

  // An indirect object. A stream is never direct; its data are passed along as they are.
  datatype Node = Direct(value: Obj) | Stream(dict: seq<Entry>, data: seq<int>)

  // A document. References to objects that it does not define are to entries that are null.
  type Graph = map<ObjGen, Node>

  function Lookup(entries: seq<Entry>, key: string): Obj {
    if entries == [] then Null
    else if entries[0].key == key then entries[0].value
    else Lookup(entries[1..], key)
  }

  // What is behind a handle.
  function Resolve(g: Graph, o: Obj): Node {
    if !o.Ref? then Direct(o) else if o.og in g then g[o.og] else Direct(Null)
  }

  predicate IsNull(g: Graph, o: Obj) {
    Resolve(g, o) == Direct(Null)
  }

  predicate OfType(g: Graph, o: Obj, name: string) {
    var n := Resolve(g, o);
    n.Direct? && n.value.Dict? && Resolve(g, Lookup(n.value.entries, "/Type")) == Direct(Name(name))
  }

  predicate IsPages(g: Graph, o: Obj) {
    OfType(g, o, "/Pages")
  }

  predicate IsPage(g: Graph, o: Obj) {
    OfType(g, o, "/Page")
  }

  // A node seen as a direct object: of a stream, its dictionary.
  function Contents(n: Node): Obj {
    if n.Direct? then n.value else Dict(n.dict)
  }

  predicate DistinctKeys(es: seq<Entry>) {
    forall i, j :: 0 <= i < j < |es| ==> es[i].key != es[j].key
  }

  // Every reference is to an object of the document, and no key is there twice.
  predicate Known(g: Graph, o: Obj) {
    match o
    case Ref(og) => og in g
    case Arr(items) => forall i :: 0 <= i < |items| ==> Known(g, items[i])
    case Dict(es) => DistinctKeys(es) && forall i :: 0 <= i < |es| ==> Known(g, es[i].value)
    case _ => true
  }

  ghost predicate Document(g: Graph) {
    forall og :: og in g ==> Known(g, Contents(g[og])) && !Contents(g[og]).Ref?
  }

  // Every object that is referred to is in the set, apart from null values in dictionaries and what
  // is in the page tree.
  predicate Covered(g: Graph, o: Obj, ogs: set<ObjGen>) {
    IsPages(g, o) ||
    match o
    case Ref(og) => og in ogs
    case Arr(items) => forall i :: 0 <= i < |items| ==> Covered(g, items[i], ogs)
    case Dict(es) => forall i :: 0 <= i < |es| ==> IsNull(g, es[i].value) || Covered(g, es[i].value, ogs)
    case _ => true
  }

  // The object refers to og, not from the page tree and not from a null value.
  predicate Refers(g: Graph, o: Obj, og: ObjGen) {
    !IsPages(g, o) &&
    match o
    case Ref(r) => r == og
    case Arr(items) => exists i :: 0 <= i < |items| && Refers(g, items[i], og)
    case Dict(es) => exists i :: 0 <= i < |es| && !IsNull(g, es[i].value) && Refers(g, es[i].value, og)
    case _ => false
  }

  // References lead from the object to the last of the trail, through no page.
  ghost predicate Trail(g: Graph, o: Obj, p: seq<ObjGen>) {
    && p != [] && Refers(g, o, p[0])
    && forall i :: 0 <= i < |p| - 1 ==>
         p[i] in g && !IsPage(g, Ref(p[i])) && Refers(g, Contents(g[p[i]]), p[i + 1])
  }

  ghost predicate Reaches(g: Graph, o: Obj, og: ObjGen) {
    exists p :: Trail(g, o, p) && p[|p| - 1] == og
  }

  // What is in m' and not in m is reached from the object.
  ghost predicate From(g: Graph, o: Obj, m: IdMap, m': IdMap) {
    forall og :: og in m' && og !in m ==> Reaches(g, o, og)
  }

  // All that an item refers to is what the object that has it refers to.
  ghost predicate Within(g: Graph, item: Obj, o: Obj) {
    !IsPages(g, o) &&
    ((o.Arr? && item in o.items) ||
     (o.Dict? && !IsNull(g, item) && exists i :: 0 <= i < |o.entries| && o.entries[i].value == item))
  }

  lemma {:induction false} FromItem(g: Graph, item: Obj, o: Obj, m: IdMap, m': IdMap, m'': IdMap)
    requires Within(g, item, o) && From(g, o, m, m') && From(g, item, m', m'')
    ensures From(g, o, m, m'')
  {
    forall og | og in m'' && og !in m ensures Reaches(g, o, og) {
      if og !in m' {
        var p :| Trail(g, item, p) && p[|p| - 1] == og;
        assert Refers(g, o, p[0]);
        assert Trail(g, o, p);
      }
    }
  }

  lemma {:induction false} FromRef(g: Graph, og: ObjGen, m: IdMap, m': IdMap, m'': IdMap)
    requires og in g && !IsPages(g, Ref(og)) && m'.Keys == m.Keys + {og}
    requires IsPage(g, Ref(og)) ==> m'' == m'
    requires From(g, Contents(g[og]), m', m'')
    ensures From(g, Ref(og), m, m'')
  {
    forall a | a in m'' && a !in m ensures Reaches(g, Ref(og), a) {
      if a == og {
        assert Trail(g, Ref(og), [og]);
      } else {
        var p :| Trail(g, Contents(g[og]), p) && p[|p| - 1] == a;
        LongerTrail(g, og, p);
      }
    }
  }

  lemma {:induction false} LongerTrail(g: Graph, og: ObjGen, p: seq<ObjGen>)
    requires og in g && !IsPages(g, Ref(og)) && !IsPage(g, Ref(og)) && Trail(g, Contents(g[og]), p)
    ensures Reaches(g, Ref(og), p[|p| - 1])
  {
    var q := [og] + p;
    assert Refers(g, Ref(og), q[0]);
    hide Refers, OfType, Contents;
    forall i | 0 <= i < |q| - 1
      ensures q[i] in g && !IsPage(g, Ref(q[i])) && Refers(g, Contents(g[q[i]]), q[i + 1])
    {
      if i > 0 {
        assert q[i] == p[i - 1] && q[i + 1] == p[i - 1 + 1];
      }
    }
    assert Trail(g, Ref(og), q) && q[|q| - 1] == p[|p| - 1];
  }

  // No direct dictionary in it is a node of the page tree.
  predicate NoDirectPages(g: Graph, o: Obj) {
    match o
    case Arr(items) => forall i :: 0 <= i < |items| ==> NoDirectPages(g, items[i])
    case Dict(es) => !IsPages(g, o) && forall i :: 0 <= i < |es| ==> NoDirectPages(g, es[i].value)
    case _ => true
  }

  // ---------------------------------------------------------------- the copy of an object

  type IdMap = map<ObjGen, ObjGen>

  // replace_indirect_object. A dictionary does not keep a key whose new value is a direct null.
  function Image(g: Graph, m: IdMap, o: Obj): Obj
    decreases o
  {
    match o
    case Ref(og) => if og in m then Ref(m[og]) else Null
    case Arr(items) => Arr(seq(|items|, i requires 0 <= i < |items| => Image(g, m, items[i])))
    case Dict(es) => Dict(ImageOfEntries(g, m, o, |es|))
    case _ => o
  }

  function ImageOfEntries(g: Graph, m: IdMap, o: Obj, n: nat): seq<Entry>
    requires o.Dict? && n <= |o.entries|
    decreases o, n
  {
    if n == 0 then []
    else
      var e := o.entries[n - 1];
      ImageOfEntries(g, m, o, n - 1) +
      if IsNull(g, e.value) || Image(g, m, e.value).Null? then [] else [Entry(e.key, Image(g, m, e.value))]
  }

  function ImageOfNode(g: Graph, m: IdMap, n: Node): Node {
    match n
    case Direct(o) => Direct(Image(g, m, o))
    case Stream(dict, data) => Stream(Image(g, m, Dict(dict)).entries, data)
  }

  // ---------------------------------------------------------------- when a copy is right

  // The entries that a copy has: without null values and without references into the page tree.
  function Kept(g: Graph, es: seq<Entry>, n: nat): (r: seq<Entry>)
    requires n <= |es|
    ensures forall e :: e in r <==> exists i :: 0 <= i < n && es[i] == e && !Dropped(g, e.value)
  {
    if n == 0 then []
    else Kept(g, es, n - 1) + if Dropped(g, es[n - 1].value) then [] else [es[n - 1]]
  }

  predicate Dropped(g: Graph, o: Obj) {
    IsNull(g, o) || (o.Ref? && IsPages(g, o))
  }

  // The copy has the same shape, every reference goes through one map, and the page tree is null.
  ghost predicate Mirrors(g: Graph, m: IdMap, o: Obj, o': Obj)
    decreases o
  {
    match o
    case Ref(og) => if IsPages(g, o) then o' == Null else og in m && o' == Ref(m[og])
    case Arr(items) =>
      o'.Arr? && |o'.items| == |items| && forall i :: 0 <= i < |items| ==> Mirrors(g, m, items[i], o'.items[i])
    case Dict(es) =>
      var kept := Kept(g, es, |es|);
      o'.Dict? && |o'.entries| == |kept| &&
      forall i :: 0 <= i < |kept| ==>
        kept[i] in es && o'.entries[i].key == kept[i].key && Mirrors(g, m, kept[i].value, o'.entries[i].value)
    case _ => o' == o
  }

  ghost predicate MirrorsNode(g: Graph, m: IdMap, n: Node, n': Node) {
    match n
    case Direct(o) => n'.Direct? && Mirrors(g, m, o, n'.value)
    case Stream(dict, data) => n'.Stream? && n'.data == data && Mirrors(g, m, Dict(dict), Dict(n'.dict))
  }

  ghost predicate Submap(m: IdMap, m': IdMap) {
    m.Keys <= m'.Keys && forall og :: og in m ==> m'[og] == m[og]
  }

  // No object of the page tree has a copy.
  ghost predicate NoPages(g: Graph, m: IdMap) {
    forall og :: og in m ==> og in g && !IsPages(g, Ref(og))
  }

  lemma {:induction false} CoveredGrows(g: Graph, o: Obj, a: set<ObjGen>, b: set<ObjGen>)
    requires Covered(g, o, a) && a <= b
    ensures Covered(g, o, b)
    decreases o
  {
    if !IsPages(g, o) {
      match o
      case Arr(items) =>
        forall i | 0 <= i < |items| ensures Covered(g, items[i], b) { CoveredGrows(g, items[i], a, b); }
      case Dict(es) =>
        forall i | 0 <= i < |es| && !IsNull(g, es[i].value) ensures Covered(g, es[i].value, b) {
          CoveredGrows(g, es[i].value, a, b);
        }
      case _ =>
    }
  }

  // Once all that an object refers to has a place in the map, the copy is right, and stays right
  // however much the map grows.
  lemma {:induction false} ImageMirrors(g: Graph, m: IdMap, m': IdMap, o: Obj)
    requires Covered(g, o, m.Keys) && NoDirectPages(g, o) && NoPages(g, m') && Submap(m, m')
    ensures Mirrors(g, m', o, Image(g, m, o))
    decreases o, 1, 0
  {
    match o
    case Arr(items) =>
      forall i | 0 <= i < |items| ensures Mirrors(g, m', items[i], Image(g, m, items[i])) {
        ImageMirrors(g, m, m', items[i]);
      }
    case Dict(es) =>
      EntriesMirror(g, m, m', o, |es|);
    case _ =>
  }

  ghost predicate EntryMirrors(g: Graph, m: IdMap, o: Obj, e: Entry, e': Entry) {
    o.Dict? && e in o.entries && e'.key == e.key && Mirrors(g, m, e.value, e'.value)
  }

  ghost predicate AllMirror(g: Graph, m: IdMap, o: Obj, es: seq<Entry>, es': seq<Entry>) {
    |es'| == |es| && forall i :: 0 <= i < |es| ==> EntryMirrors(g, m, o, es[i], es'[i])
  }

  lemma {:induction false} EntriesMirror(g: Graph, m: IdMap, m': IdMap, o: Obj, n: nat)
    requires Covered(g, o, m.Keys) && NoDirectPages(g, o) && NoPages(g, m') && Submap(m, m')
    requires o.Dict? && n <= |o.entries|
    ensures AllMirror(g, m', o, Kept(g, o.entries, n), ImageOfEntries(g, m, o, n))
    decreases o, 0, n
  {
    if n > 0 {
      EntriesMirror(g, m, m', o, n - 1);
      var e := o.entries[n - 1];
      assert e.value < o && (!IsNull(g, e.value) ==> Covered(g, e.value, m.Keys)) && NoDirectPages(g, e.value);
      hide Covered, NoDirectPages, NoPages, Submap, AllMirror, EntryMirrors;
      var v := Image(g, m, e.value);
      if !IsNull(g, e.value) {
        ImageMirrors(g, m, m', e.value);
        DroppedAsNull(g, m, m', e.value);
        OneMirrors(g, m', o, n - 1, v);
      }
      OneMore(g, m, m', o, n);
    }
  }

  lemma {:induction false} OneMirrors(g: Graph, m': IdMap, o: Obj, i: nat, v: Obj)
    requires o.Dict? && i < |o.entries| && Mirrors(g, m', o.entries[i].value, v)
    ensures EntryMirrors(g, m', o, o.entries[i], Entry(o.entries[i].key, v))
  {
    hide Mirrors;
  }

  lemma {:induction false} OneMore(g: Graph, m: IdMap, m': IdMap, o: Obj, n: nat)
    requires o.Dict? && 0 < n <= |o.entries|
    requires AllMirror(g, m', o, Kept(g, o.entries, n - 1), ImageOfEntries(g, m, o, n - 1))
    requires var e := o.entries[n - 1]; var v := Image(g, m, e.value);
             && (IsNull(g, e.value) || v.Null? <==> Dropped(g, e.value))
             && (!Dropped(g, e.value) ==> EntryMirrors(g, m', o, e, Entry(e.key, v)))
    ensures AllMirror(g, m', o, Kept(g, o.entries, n), ImageOfEntries(g, m, o, n))
  {
    hide EntryMirrors, Image, IsNull, Dropped;
  }

  lemma {:induction false} DroppedAsNull(g: Graph, m: IdMap, m': IdMap, o: Obj)
    requires Covered(g, o, m.Keys) && !IsNull(g, o) && NoPages(g, m') && Submap(m, m')
    ensures Dropped(g, o) <==> Image(g, m, o).Null?
  {
  }

  lemma {:induction false} ImageOfNodeMirrors(g: Graph, m: IdMap, m': IdMap, n: Node)
    requires Covered(g, Contents(n), m.Keys) && NoDirectPages(g, Contents(n)) && NoPages(g, m') && Submap(m, m')
    ensures MirrorsNode(g, m', n, ImageOfNode(g, m, n))
  {
    ImageMirrors(g, m, m', Contents(n));
  }
}

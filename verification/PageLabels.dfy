/**
 * Page labels, section 12.4.2 of ISO 32000-1: the label table that
 * libqpdf/QPDFPageLabelDocumentHelper.cc, lines 49 to 123, builds for pages taken from other documents.
 */
module PageLabels {
  import opened Wrappers

  // The start of a range is an integer, or is not there or is something else.
  datatype Start = IntStart(value: int) | OtherStart

  datatype Label = Label(style: Option<string>, prefix: Option<string>, start: Start)

  // From this page on, pages are numbered by the label.
  datatype Entry = Entry(index: int, labelDict: Label)

  // The entries of a number tree in their order, or no tree.
  type Labels = Option<seq<Entry>>

  predicate Sorted(s: seq<Entry>) {
    forall i, j :: 0 <= i < j < |s| ==> s[i].index < s[j].index
  }

  predicate HasIndex(s: seq<Entry>, page: int) {
    exists i :: 0 <= i < |s| && s[i].index == page
  }

  // findObjectAtOrBelow: of a sorted sequence, the entry with the greatest index not above the page.
  function AtOrBelow(s: seq<Entry>, page: int): (r: Option<nat>)
    ensures r.Some? ==> r.value < |s| && s[r.value].index <= page
    ensures Sorted(s) && r.Some? ==> forall i :: r.value < i < |s| ==> s[i].index > page
    ensures r.None? ==> forall i :: 0 <= i < |s| ==> s[i].index > page
  {
    if s == [] then None
    else if s[|s| - 1].index <= page then Some(|s| - 1)
    else AtOrBelow(s[..|s| - 1], page)
  }

  // The number of the page that is this far behind the start of its range.
  function Numbered(l: Label, offset: int): Label {
    l.(start := IntStart((if l.start.IntStart? then l.start.value else 1) + offset))
  }

  // The label that a table of entries gives to a page.
  function LabelAt(s: seq<Entry>, page: int): Option<Label> {
    var i := AtOrBelow(s, page);
    if i.None? then None else Some(Numbered(s[i.value].labelDict, page - s[i.value].index))
  }

  // Of the entries in their order, the last one that is not behind the page counts. Its range starts with
  // its own number or else with 1.
  lemma LabelOf(s: seq<Entry>, i: nat, page: int)
    requires Sorted(s) && i < |s| && s[i].index <= page && (i + 1 < |s| ==> page < s[i + 1].index)
    ensures var l := s[i].labelDict;
            LabelAt(s, page) == Some(Label(l.style, l.prefix, IntStart(page - s[i].index + match l.start
                                                                       case IntStart(v) => v
                                                                       case OtherStart => 1)))
  {
    var j := AtOrBelow(s, page);
    hide AtOrBelow;
  }

  lemma NoLabel(s: seq<Entry>, page: int)
    requires forall i :: 0 <= i < |s| ==> page < s[i].index
    ensures LabelAt(s, page) == None
  {
  }

  // getLabelForPage
  function GetLabelForPage(labels: Labels, page: int): Option<Label> {
    if labels.None? then None else LabelAt(labels.value, page)
  }

  // The label that a page must have at its new place: its own, or if it has none, its new number.
  function Wanted(labels: Labels, page: int, newPage: int): Label {
    var l := GetLabelForPage(labels, page);
    if l.Some? then l.value else Label(None, None, IntStart(1 + newPage))
  }

  // A page of a document without labels, or before the first of them, is numbered by its new place, from 1.
  lemma WantedPlain(labels: Labels, page: int, newPage: int)
    requires labels.Some? ==> forall i :: 0 <= i < |labels.value| ==> page < labels.value[i].index
    ensures Wanted(labels, page, newPage) == Label(None, None, IntStart(newPage + 1))
  {
  }

  // One entry more at the end.
  lemma LabelAtAppend(s: seq<Entry>, e: Entry, page: int)
    ensures LabelAt(s + [e], page) == if e.index <= page then Some(Numbered(e.labelDict, page - e.index)) else
              LabelAt(s, page)
  {
    assert (s + [e])[..|s|] == s;
    if e.index > page && AtOrBelow(s, page).Some? {
      assert (s + [e])[AtOrBelow(s, page).value] == s[AtOrBelow(s, page).value];
    }
  }

  // A page without an entry of its own is numbered on from the page before.
  lemma {:induction false} AtOrBelowNext(s: seq<Entry>, page: int)
    requires !HasIndex(s, page)
    ensures AtOrBelow(s, page) == AtOrBelow(s, page - 1)
  {
    if s != [] {
      var b := s[..|s| - 1];
      assert forall i :: 0 <= i < |b| ==> b[i] == s[i];
      assert s[|s| - 1].index != page;
      AtOrBelowNext(b, page);
    }
  }

  lemma LabelAtNext(s: seq<Entry>, page: int)
    requires !HasIndex(s, page)
    ensures LabelAt(s, page) == if LabelAt(s, page - 1).None? then None else
              Some(Numbered(LabelAt(s, page - 1).value, 1))
  {
    AtOrBelowNext(s, page);
    hide AtOrBelow;
  }

  // Within a range, the wanted label of a page without an entry goes on from the page before.
  lemma WantedNext(labels: Labels, page: int, newPage: int)
    requires labels.Some? ==> !HasIndex(labels.value, page)
    ensures Wanted(labels, page, newPage) == Numbered(Wanted(labels, page - 1, newPage - 1), 1)
  {
    if labels.Some? {
      LabelAtNext(labels.value, page);
    }
  }

  predicate Redundant(last: Entry, labelDict: Label, newPage: int) {
    && labelDict.style == last.labelDict.style && labelDict.prefix == last.labelDict.prefix
    && labelDict.start.IntStart? && last.labelDict.start.IntStart?
    && labelDict.start.value - last.labelDict.start.value == newPage - last.index
  }

  // A table with entries for pages before the next only, all of which have numbers.
  ghost predicate Table(s: seq<Entry>, next: int) {
    Sorted(s) && forall i :: 0 <= i < |s| ==> s[i].index < next && s[i].labelDict.start.IntStart?
  }

  lemma TableAppend(s: seq<Entry>, next: int, e: Entry)
    requires Table(s, next) && e.index == next && e.labelDict.start.IntStart?
    ensures Table(s + [e], next + 1)
  {
  }

  // Pages before the new entries keep their labels.
  ghost predicate Extends(s: seq<Entry>, t: seq<Entry>, next: int) {
    forall p :: p < next ==> LabelAt(t, p) == LabelAt(s, p)
  }

  lemma ExtendsItself(s: seq<Entry>, next: int)
    ensures Extends(s, s, next)
  {
  }

  // A page of a range that begins with first and goes to newFirst has the label that it must have.
  predicate Carried(table: seq<Entry>, labels: Labels, first: int, newFirst: int, page: int) {
    var n := newFirst + (page - first);
    LabelAt(table, n) == Some(Wanted(labels, page, n))
  }

  // getLabelsForPageRange. Without labels, a range has one page.
  method GetLabelsForPageRange(labels: Labels, startIdx: int, endIdx: int, newStartIdx: int, newLabels: seq<Entry>)
    returns (newLabels': seq<Entry>)
    requires labels.Some? ==> Sorted(labels.value)
    requires startIdx <= endIdx && (labels.None? ==> startIdx == endIdx)
    requires Table(newLabels, newStartIdx)
    ensures Table(newLabels', newStartIdx + (endIdx - startIdx) + 1)
    ensures Extends(newLabels, newLabels', newStartIdx)
    ensures forall i :: startIdx <= i <= endIdx ==> Carried(newLabels', labels, startIdx, newStartIdx, i)
  {
    hide LabelAt, Wanted, Sorted, Table, Extends, GetLabelForPage;
    var labelDict := GetLabelForPage(labels, startIdx);
    if labelDict.None? {
      labelDict := Some(Label(None, None, IntStart(1 + newStartIdx)));
    }
    var size := |newLabels|;
    var skipFirst := size >= 1 && Redundant(newLabels[size - 1], labelDict.value, newStartIdx);
    newLabels' := newLabels;
    WantedFirst(labels, startIdx, newStartIdx, labelDict.value);
    if skipFirst {
      SkippedFirst(newLabels, labelDict.value, newStartIdx);
      ExtendsItself(newLabels, newStartIdx);
    } else {
      newLabels' := newLabels' + [Entry(newStartIdx, labelDict.value)];
      TableAppend(newLabels, newStartIdx, Entry(newStartIdx, labelDict.value));
      Appended(newLabels, Entry(newStartIdx, labelDict.value));
    }
    assert Carried(newLabels', labels, startIdx, newStartIdx, startIdx);
    var i := startIdx + 1;
    while i <= endIdx
      invariant startIdx < i <= endIdx + 1
      invariant Table(newLabels', newStartIdx + (i - startIdx)) && Extends(newLabels, newLabels', newStartIdx)
      invariant forall k :: startIdx <= k < i ==> Carried(newLabels', labels, startIdx, newStartIdx, k)
    {
      ghost var was, n := newLabels', newStartIdx + (i - startIdx);
      assert Carried(was, labels, startIdx, newStartIdx, i - 1);
      if HasIndex(labels.value, i) {
        HasLabel(labels, i, n);
        labelDict := GetLabelForPage(labels, i);
        var e := Entry(newStartIdx + (i - startIdx), labelDict.value);
        newLabels' := newLabels' + [e];
        TableAppend(was, n, e);
        Appended(was, e);
        StillCarried(newLabels, was, newLabels', labels, startIdx, newStartIdx, i);
      } else {
        WantedNext(labels, i, n);
        NoEntryYet(newLabels', n);
      }
      assert Carried(newLabels', labels, startIdx, newStartIdx, i);
      hide Carried;
      i := i + 1;
    }
  }

  lemma WantedFirst(labels: Labels, page: int, newPage: int, l: Label)
    requires l == if GetLabelForPage(labels, page).Some? then GetLabelForPage(labels, page).value
                  else Label(None, None, IntStart(1 + newPage))
    ensures Wanted(labels, page, newPage) == l && l.start.IntStart?
  {
  }

  // Entries from page i on change nothing before it.
  lemma StillCarried(s: seq<Entry>, was: seq<Entry>, t: seq<Entry>, labels: Labels, first: int, newFirst: int, i: int)
    requires Extends(s, was, newFirst) && Extends(was, t, newFirst + (i - first)) && first <= i
    requires forall k :: first <= k < i ==> Carried(was, labels, first, newFirst, k)
    ensures Extends(s, t, newFirst)
    ensures forall k :: first <= k < i ==> Carried(t, labels, first, newFirst, k)
  {
    hide LabelAt, Wanted;
    forall k | first <= k < i ensures Carried(t, labels, first, newFirst, k) {
      assert Carried(was, labels, first, newFirst, k);
    }
  }

  lemma Appended(s: seq<Entry>, e: Entry)
    requires e.labelDict.start.IntStart?
    ensures Extends(s, s + [e], e.index) && LabelAt(s + [e], e.index) == Some(e.labelDict)
  {
    forall p | p < e.index ensures LabelAt(s + [e], p) == LabelAt(s, p) {
      LabelAtAppend(s, e, p);
    }
    LabelAtAppend(s, e, e.index);
  }

  // The first entry is left out only if the one before goes on to the same label.
  lemma SkippedFirst(s: seq<Entry>, labelDict: Label, next: int)
    requires s != [] && Table(s, next) && Redundant(s[|s| - 1], labelDict, next)
    ensures Table(s, next + 1) && LabelAt(s, next) == Some(labelDict)
  {
  }

  lemma HasLabel(labels: Labels, page: int, newPage: int)
    requires labels.Some? && HasIndex(labels.value, page)
    ensures GetLabelForPage(labels, page).Some? && GetLabelForPage(labels, page).value.start.IntStart?
    ensures Wanted(labels, page, newPage) == GetLabelForPage(labels, page).value
  {
  }

  lemma NoEntryYet(s: seq<Entry>, next: int)
    requires Table(s, next)
    ensures Table(s, next + 1)
    ensures LabelAt(s, next) == if LabelAt(s, next - 1).None? then None else
              Some(Numbered(LabelAt(s, next - 1).value, 1))
  {
    LabelAtNext(s, next);
  }

  // ---------------------------------------------------------------- any number of ranges

  datatype Range = Range(labels: Labels, first: int, last: int)

  predicate Proper(r: Range) {
    r.first <= r.last && if r.labels.Some? then Sorted(r.labels.value) else r.first == r.last
  }

  datatype Source = Source(labels: Labels, page: int)

  function PagesOf(r: Range): seq<Source>
    requires Proper(r)
  {
    seq(r.last - r.first + 1, i requires 0 <= i => Source(r.labels, r.first + i))
  }

  // The pages of the new document: where each is from.
  function Pages(ranges: seq<Range>): seq<Source>
    requires forall i :: 0 <= i < |ranges| ==> Proper(ranges[i])
  {
    if ranges == [] then [] else Pages(ranges[..|ranges| - 1]) + PagesOf(ranges[|ranges| - 1])
  }

  // However the pages of a new document are put together, its table gives each the label that it is
  // to have.
  method LabelsForRanges(ranges: seq<Range>) returns (table: seq<Entry>)
    requires forall i :: 0 <= i < |ranges| ==> Proper(ranges[i])
    ensures Sorted(table)
    ensures var pages := Pages(ranges);
            forall n :: 0 <= n < |pages| ==> LabelAt(table, n) == Some(Wanted(pages[n].labels, pages[n].page, n))
  {
    table := [];
    var next := 0;
    for i := 0 to |ranges|
      invariant next == |Pages(ranges[..i])| && Table(table, next)
      invariant Labelled(table, Pages(ranges[..i]))
    {
      var r := ranges[i];
      ghost var was, before := table, Pages(ranges[..i]);
      table := GetLabelsForPageRange(r.labels, r.first, r.last, next, table);
      assert ranges[..i + 1][..i] == ranges[..i];
      MoreLabelled(was, table, before, r);
      next := next + (r.last - r.first + 1);
    }
    assert ranges[..|ranges|] == ranges;
  }

  ghost predicate Labelled(table: seq<Entry>, pages: seq<Source>) {
    forall n :: 0 <= n < |pages| ==> LabelAt(table, n) == Some(Wanted(pages[n].labels, pages[n].page, n))
  }

  lemma MoreLabelled(was: seq<Entry>, table: seq<Entry>, before: seq<Source>, r: Range)
    requires Labelled(was, before) && Proper(r) && Extends(was, table, |before|)
    requires forall i :: r.first <= i <= r.last ==> Carried(table, r.labels, r.first, |before|, i)
    ensures Labelled(table, before + PagesOf(r))
  {
    var pages := before + PagesOf(r);
    hide LabelAt, Wanted;
    forall n | 0 <= n < |pages|
      ensures LabelAt(table, n) == Some(Wanted(pages[n].labels, pages[n].page, n))
    {
      if n >= |before| {
        var i := r.first + (n - |before|);
        assert pages[n] == Source(r.labels, i);
        assert Carried(table, r.labels, r.first, |before|, i);
      }
    }
  }
}

/**
 * The binary search of libqpdf/NNTree.cc: a fixed number of steps whose width is a power of two.
 */
module NNTreeSearch {
  import opened Wrappers
  import opened Bytes
  import opened NNTreeModel

  // std::bit_ceil: the least power of two that is not below n.
  function BitCeil(n: nat): (r: nat)
    ensures n <= r && (n > 1 ==> r < 2 * n) && (n <= 1 ==> r == 1)
  {
    if n <= 1 then 1 else 2 * BitCeil((n + 1) / 2)
  }

  // std::bit_width: the number of binary digits of n.
  function BitWidth(n: nat): nat {
    if n == 0 then 0 else 1 + BitWidth(n / 2)
  }

  lemma {:induction false} BitCeilPow2(n: nat) returns (k: nat)
    ensures BitCeil(n) == Pow2(k) && BitWidth(BitCeil(n)) == k + 1
  {
    if n <= 1 {
      k := 0;
      assert BitWidth(1) == 1 + BitWidth(0);
    } else {
      var j := BitCeilPow2((n + 1) / 2);
      k := j + 1;
      assert BitCeil(n) / 2 == Pow2(j);
    }
  }

  // What is searched: the items of a leaf or the kids of an inner node.
  datatype Entries = Items(items: seq<Pair>) | Kids(kids: seq<Id>)
  {
    function Size(): nat {
      match this
      case Items(s) => |s|
      case Kids(s) => |s|
    }
  }

  function CompareKeys(a: int, b: int): int {
    if a < b then -1 else if a > b then 1 else 0
  }

  // compareKeyItem and compareKeyKid; a kid without limits is an error of the document.
  function Compare(h: Heap, key: int, e: Entries, idx: nat): int
    requires idx < e.Size()
    requires e.Kids? ==> e.kids[idx] in h && h[e.kids[idx]].limits.Some?
  {
    match e
    case Items(s) => CompareKeys(key, s[idx].key)
    case Kids(s) =>
      var limits := h[s[idx]].limits.value;
      if CompareKeys(key, limits.lo) < 0 then -1
      else if CompareKeys(key, limits.hi) > 0 then 1
      else 0
  }

  ghost predicate Searchable(h: Heap, key: int, e: Entries) {
    && (e.Kids? ==> forall i :: 0 <= i < |e.kids| ==> e.kids[i] in h && h[e.kids[i]].limits.Some?)
    && (forall i, j :: 0 <= i < j < e.Size() && Compare(h, key, e, i) <= 0 ==> Compare(h, key, e, j) == -1)
  }

  // The outcome of every comparison, in order.
  ghost function Statuses(h: Heap, key: int, e: Entries): (st: seq<int>)
    requires Searchable(h, key, e)
    ensures |st| == e.Size() && Falling(st)
    ensures forall i :: 0 <= i < |st| ==> st[i] == Compare(h, key, e, i)
  {
    seq(e.Size(), i requires 0 <= i < e.Size() => Compare(h, key, e, i))
  }

  ghost predicate Falling(st: seq<int>) {
    && (forall i :: 0 <= i < |st| ==> -1 <= st[i] <= 1)
    && (forall i, j :: 0 <= i < j < |st| && st[i] <= 0 ==> st[j] == -1)
  }

  // Everything above idx is above the key.
  ghost predicate Above(st: seq<int>, idx: int) {
    forall j :: 0 <= j < |st| && idx < j ==> st[j] == -1
  }

  // Before step i of k + 1: a bracket around idx that halves with the step, until one index next
  // to the result is left.
  ghost predicate Bracket(st: seq<int>, k: nat, i: nat, step: int, idx: int, foundIdx: int) {
    && -1 <= foundIdx < |st| && (foundIdx >= 0 ==> st[foundIdx] == 1)
    && if i < k then
         && step == Pow2(k - 1 - i) && step <= idx && Above(st, idx + step - 1)
         && (foundIdx == idx - step || (foundIdx == -1 && idx == step))
       else if i == k then
         idx >= 0 && Above(st, idx) && (foundIdx == idx || foundIdx == idx - 1)
       else
         Above(st, foundIdx)
  }

  function NextStep(step: int): int {
    if step / 2 > 1 then step / 2 else 1
  }

  lemma BracketStep(st: seq<int>, k: nat, i: nat, step: int, idx: int, foundIdx: int)
    requires Falling(st) && Bracket(st, k, i, step, idx, foundIdx) && i <= k
    requires idx < |st| ==> st[idx] != 0
    ensures var status := if idx < |st| then st[idx] else -1;
            Bracket(st, k, i + 1, NextStep(step), idx + status * NextStep(step), if status > 0 then idx else foundIdx)
  {
    if i + 1 < k {
      assert Pow2(k - 1 - i) == 2 * Pow2(k - 1 - (i + 1));
    }
  }

  // Every index compared is in range: the searched entries have no other comparison.
  method BinarySearch(h: Heap, key: int, e: Entries, returnPrevIfNotFound: bool) returns (r: int)
    requires Searchable(h, key, e)
    ensures -1 <= r < e.Size()
    ensures returnPrevIfNotFound ==> (r >= 0 ==> Compare(h, key, e, r) >= 0) && Above(Statuses(h, key, e), r)
    ensures !returnPrevIfNotFound && r >= 0 ==> Compare(h, key, e, r) == 0
    ensures !returnPrevIfNotFound && r < 0 ==> forall j :: 0 <= j < e.Size() ==> Compare(h, key, e, j) != 0
  {
    var numItems := e.Size();
    var maxIdx := BitCeil(numItems);
    var step := maxIdx / 2;
    var checks := BitWidth(maxIdx);
    var idx: int := step;
    var foundIdx := -1;
    ghost var k := BitCeilPow2(numItems);
    ghost var st := Statuses(h, key, e);
    assert k > 0 ==> Pow2(k) == 2 * Pow2(k - 1);
    hide Compare, Pow2, BitCeil, BitWidth;
    for i := 0 to checks
      invariant Bracket(st, k, i, step, idx, foundIdx)
    {
      ghost var foundBefore := foundIdx;
      var status := -1;
      if idx < numItems {
        status := Compare(h, key, e, idx);
        if status == 0 {
          return idx;
        }
        if status > 0 {
          foundIdx := idx;
        }
      }
      BracketStep(st, k, i, step, idx, foundBefore);
      step := if step / 2 > 1 then step / 2 else 1;
      idx := idx + status * step;
    }
    return if returnPrevIfNotFound then foundIdx else -1;
  }
}

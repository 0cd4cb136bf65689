/**
 * What the tree is for: a sorted map, as a strictly sorted list of pairs. insert and remove of the
 * tree are compared with InsertSorted and RemoveKey, and those with a map.
 */
module NNTreeContents {
  import opened NNTreeModel

  function InsertSorted(s: seq<Pair>, key: int, value: int): seq<Pair> {
    if s == [] || key < s[0].key then [Pair(key, value)] + s
    else if key == s[0].key then [Pair(key, value)] + s[1..]
    else [s[0]] + InsertSorted(s[1..], key, value)
  }

  function RemoveKey(s: seq<Pair>, key: int): seq<Pair> {
    if s == [] then []
    else if s[0].key == key then s[1..]
    else [s[0]] + RemoveKey(s[1..], key)
  }

  function MapOf(s: seq<Pair>): map<int, int> {
    if s == [] then map[] else MapOf(s[1..])[s[0].key := s[0].value]
  }

  // i is where a lookup of key ends: the greatest index whose key is not above it, or -1.
  ghost predicate IsAtOrBelow(s: seq<Pair>, key: int, i: int) {
    && -1 <= i < |s|
    && (i >= 0 ==> s[i].key <= key)
    && (i + 1 < |s| ==> key < s[i + 1].key)
  }

  lemma {:induction false} MapOfKeys(s: seq<Pair>, k: int)
    ensures k in MapOf(s) <==> exists i :: 0 <= i < |s| && s[i].key == k
  {
    if s != [] {
      MapOfKeys(s[1..], k);
      if exists i :: 0 <= i < |s| && s[i].key == k {
        var i :| 0 <= i < |s| && s[i].key == k;
        assert i > 0 ==> s[1..][i - 1].key == k;
      }
      if k in MapOf(s[1..]) {
        var i :| 0 <= i < |s[1..]| && s[1..][i].key == k;
        assert s[i + 1].key == k;
      }
    }
  }

  lemma {:induction false} MapOfValue(s: seq<Pair>, i: nat)
    requires Sorted(s) && i < |s|
    ensures s[i].key in MapOf(s) && MapOf(s)[s[i].key] == s[i].value
  {
    if i > 0 {
      MapOfValue(s[1..], i - 1);
    }
  }

  lemma MapOfEmpty(s: seq<Pair>)
    ensures MapOf(s) == map[] <==> s == []
  {
    if s != [] {
      assert s[0].key in MapOf(s);
    }
  }

  // A sorted list is determined by its map.
  lemma {:induction false} SortedUnique(s: seq<Pair>, t: seq<Pair>)
    requires Sorted(s) && Sorted(t) && MapOf(s) == MapOf(t)
    ensures s == t
  {
    MapOfEmpty(s);
    MapOfEmpty(t);
    if s == [] || t == [] {
    } else {
      MapOfKeys(t, s[0].key);
      MapOfKeys(s, t[0].key);
      MapOfValue(s, 0);
      MapOfValue(t, 0);
      assert s[0].key in MapOf(t) && t[0].key in MapOf(s);
      assert s[0].key == t[0].key;
      assert s[0] == t[0];
      MapOfTail(s);
      MapOfTail(t);
      SortedUnique(s[1..], t[1..]);
    }
  }

  lemma MapOfTail(s: seq<Pair>)
    requires Sorted(s) && s != []
    ensures MapOf(s[1..]) == MapOf(s) - {s[0].key}
  {
    MapOfKeys(s[1..], s[0].key);
  }

  lemma SortedCons(p: Pair, r: seq<Pair>)
    requires Sorted(r) && (r == [] || p.key < r[0].key)
    ensures Sorted([p] + r)
  {
  }

  lemma {:induction false} InsertSortedIsMapUpdate(s: seq<Pair>, key: int, value: int)
    requires Sorted(s)
    ensures Sorted(InsertSorted(s, key, value))
    ensures MapOf(InsertSorted(s, key, value)) == MapOf(s)[key := value]
  {
    if s == [] || key < s[0].key {
      assert ([Pair(key, value)] + s)[1..] == s;
    } else if key == s[0].key {
      assert ([Pair(key, value)] + s[1..])[1..] == s[1..];
    } else {
      InsertSortedIsMapUpdate(s[1..], key, value);
      var r := InsertSorted(s[1..], key, value);
      assert ([s[0]] + r)[1..] == r;
      SortedCons(s[0], r);
    }
  }

  lemma {:induction false} RemoveKeyIsMapRemoval(s: seq<Pair>, key: int)
    requires Sorted(s)
    ensures Sorted(RemoveKey(s, key))
    ensures MapOf(RemoveKey(s, key)) == MapOf(s) - {key}
  {
    if s == [] {
    } else if s[0].key == key {
      MapOfTail(s);
    } else {
      RemoveKeyIsMapRemoval(s[1..], key);
      var r := RemoveKey(s[1..], key);
      assert ([s[0]] + r)[1..] == r;
      SortedCons(s[0], r);
    }
  }

  // In terms of the place where a lookup ends.
  lemma {:induction false} InsertSortedAt(s: seq<Pair>, key: int, value: int, i: int)
    requires Sorted(s) && IsAtOrBelow(s, key, i)
    ensures InsertSorted(s, key, value) ==
            if i >= 0 && s[i].key == key then s[i := Pair(key, value)]
            else s[..i + 1] + [Pair(key, value)] + s[i + 1..]
  {
    if s == [] || i == -1 {
    } else if i == 0 {
      if s[0].key < key {
        assert InsertSorted(s[1..], key, value) == [Pair(key, value)] + s[1..];
      }
    } else {
      assert s[0].key < s[i].key && s[i] == s[1..][i - 1];
      assert Sorted(s[1..]) && IsAtOrBelow(s[1..], key, i - 1);
      InsertSortedAt(s[1..], key, value, i - 1);
      hide Sorted;
      PutBehind(s, Pair(key, value), i);
    }
  }

  lemma PutBehind(s: seq<Pair>, p: Pair, i: nat)
    requires i < |s|
    ensures [s[0]] + (s[1..][..i] + [p] + s[1..][i..]) == s[..i + 1] + [p] + s[i + 1..]
    ensures i > 0 ==> [s[0]] + s[1..][i - 1 := p] == s[i := p]
  {
  }

  lemma {:induction false} RemoveKeyAt(s: seq<Pair>, i: nat)
    requires Sorted(s) && i < |s|
    ensures RemoveKey(s, s[i].key) == s[..i] + s[i + 1..]
  {
    if i > 0 {
      RemoveKeyAt(s[1..], i - 1);
      assert [s[0]] + (s[1..][..i - 1] + s[1..][i..]) == s[..i] + s[i + 1..];
    }
  }

  lemma {:induction false} RemoveKeyAbsent(s: seq<Pair>, key: int)
    requires forall i :: 0 <= i < |s| ==> s[i].key != key
    ensures RemoveKey(s, key) == s
  {
    if s != [] {
      RemoveKeyAbsent(s[1..], key);
    }
  }

  // Adding pairs in the order of the listing.
  lemma {:induction false} MapOfSnoc(s: seq<Pair>, p: Pair, all: seq<Pair>)
    requires Sorted(all) && s + [p] <= all
    ensures MapOf(s + [p]) == MapOf(s)[p.key := p.value]
  {
    if s == [] {
      assert [] + [p] == [p];
      assert [p][1..] == [];
    } else {
      MapOfSnoc(s[1..], p, all[1..]);
      assert (s + [p])[1..] == s[1..] + [p];
      assert all[0] == s[0] && all[|s|] == p;
    }
  }
}

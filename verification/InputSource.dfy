/**
 * InputSource::findFirst of libqpdf/InputSource.cc, lines 63 to 161: searching a file for a sequence of
 * characters through a buffer of 1024 bytes.
 */
module InputSource {
  import opened Bytes

  const SIZE := 1024

  predicate Occurs(content: seq<byte>, start: seq<byte>, pos: nat) {
    pos + |start| <= |content| && content[pos..pos + |start|] == start
  }

  // Where a match may begin.
  predicate InRange(content: seq<byte>, start: seq<byte>, offset: nat, len: nat, pos: nat) {
    pos + |start| <= |content| && (len == 0 || pos < offset + len)
  }

  // The caller's further check of an occurrence, given the positions of all checks up to this one.
  type Finder = seq<nat> -> bool

  // Searching position after position, with the checks made so far.
  function Naive(content: seq<byte>, start: seq<byte>, offset: nat, len: nat, finder: Finder, pos: nat,
          calls: seq<nat>):
    (bool, seq<nat>)
    requires offset <= pos
    decreases |content| - pos
  {
    if pos >= |content| || !InRange(content, start, offset, len, pos) then (false, calls)
    else if Occurs(content, start, pos) then
      if finder(calls + [pos]) then (true, calls + [pos])
      else Naive(content, start, offset, len, finder, pos + 1, calls + [pos])
    else Naive(content, start, offset, len, finder, pos + 1, calls)
  }

  predicate Ascending(s: seq<nat>) {
    forall i, j :: 0 <= i < j < |s| ==> s[i] < s[j]
  }

  predicate Candidate(content: seq<byte>, start: seq<byte>, offset: nat, len: nat, pos: nat) {
    InRange(content, start, offset, len, pos) && Occurs(content, start, pos)
  }

  // The checks from pos on, added to those made before it, are of all the occurrences in range, in
  // order, up to the first that succeeds.
  ghost predicate Checks(content: seq<byte>, start: seq<byte>, offset: nat, len: nat, finder: Finder, pos: nat,
                         calls: seq<nat>, found: bool, all: seq<nat>) {
    && calls <= all && Ascending(all)
    && (found ==> |all| > |calls| && finder(all))
    && (forall i :: |calls| < i < |all| || (!found && i == |all| > |calls|) ==> !finder(all[..i]))
    && (forall i :: |calls| <= i < |all| ==> pos <= all[i] && Candidate(content, start, offset, len, all[i]))
    && (forall p :: pos <= p && Candidate(content, start, offset, len, p) ==>
                      p in all || (found && p > all[|all| - 1]))
  }

  lemma {:induction false} NaiveChecks(content: seq<byte>, start: seq<byte>, offset: nat, len: nat, finder: Finder,
                                       pos: nat, calls: seq<nat>)
    requires offset <= pos && start != [] && Ascending(calls) && (forall i :: 0 <= i < |calls| ==> calls[i] < pos)
    ensures var (found, all) := Naive(content, start, offset, len, finder, pos, calls);
            Checks(content, start, offset, len, finder, pos, calls, found, all)
    decreases |content| - pos
  {
    if pos < |content| && InRange(content, start, offset, len, pos) {
      var (found, all) := Naive(content, start, offset, len, finder, pos, calls);
      if Occurs(content, start, pos) {
        hide Checks, Occurs, InRange;
        FoundHere(content, start, offset, len, finder, pos, calls);
        if !finder(calls + [pos]) {
          NaiveChecks(content, start, offset, len, finder, pos + 1, calls + [pos]);
          ChecksOn(content, start, offset, len, finder, pos, calls, found, all);
        }
      } else {
        hide Checks;
        NaiveChecks(content, start, offset, len, finder, pos + 1, calls);
        ChecksPast(content, start, offset, len, finder, pos, calls, found, all);
      }
    }
  }

  lemma FoundHere(content: seq<byte>, start: seq<byte>, offset: nat, len: nat, finder: Finder, pos: nat,
                  calls: seq<nat>)
    requires Ascending(calls) && (forall i :: 0 <= i < |calls| ==> calls[i] < pos)
    requires Candidate(content, start, offset, len, pos)
    ensures Ascending(calls + [pos])
    ensures finder(calls + [pos]) ==> Checks(content, start, offset, len, finder, pos, calls, true, calls + [pos])
  {
    hide Candidate;
    var all := calls + [pos];
    assert all[|calls|] == pos;
    assert forall i :: 0 <= i < |calls| ==> all[i] == calls[i];
  }

  lemma ChecksOn(content: seq<byte>, start: seq<byte>, offset: nat, len: nat, finder: Finder, pos: nat,
                 calls: seq<nat>, found: bool, all: seq<nat>)
    requires Candidate(content, start, offset, len, pos) && !finder(calls + [pos])
    requires Checks(content, start, offset, len, finder, pos + 1, calls + [pos], found, all)
    ensures Checks(content, start, offset, len, finder, pos, calls, found, all)
  {
    hide Candidate, Ascending;
    var more := calls + [pos];
    assert all[..|more|] == more && all[|calls|] == pos;
    assert calls == more[..|calls|];
  }

  lemma ChecksPast(content: seq<byte>, start: seq<byte>, offset: nat, len: nat, finder: Finder, pos: nat,
                   calls: seq<nat>, found: bool, all: seq<nat>)
    requires !Occurs(content, start, pos)
    requires Checks(content, start, offset, len, finder, pos + 1, calls, found, all)
    ensures Checks(content, start, offset, len, finder, pos, calls, found, all)
  {
    hide Ascending, Occurs, InRange;
  }

  predicate Found(content: seq<byte>, start: seq<byte>, pos: nat) {
    pos + |start| <= |content| && forall k :: 0 <= k < |start| ==> content[pos + k] == start[k]
  }

  // A search that begins at the offset makes its checks at places that are found from there on, and if a
  // length is given less than that behind the offset: in order, all of them, or up to the one that succeeds.
  lemma SearchedAre(content: seq<byte>, start: seq<byte>, offset: nat, len: nat, finder: Finder)
    requires start != []
    ensures var (found, all) := Naive(content, start, offset, len, finder, offset, []);
            && Ascending(all) && (found ==> all != [])
            && (forall p :: p in all ==> offset <= p && (len > 0 ==> p < offset + len) && Found(content, start, p))
            && (forall p: nat :: offset <= p && (len > 0 ==> p < offset + len) && Found(content, start, p) ==>
                  p in all || (found && p > all[|all| - 1]))
            && (forall i :: 0 < i < |all| ==> !finder(all[..i])) && (all != [] ==> (finder(all) <==> found))
  {
    var (found, all) := Naive(content, start, offset, len, finder, offset, []);
    NaiveChecks(content, start, offset, len, finder, offset, []);
    hide Naive;
    assert all[..|all|] == all;
    forall p: nat
      ensures Candidate(content, start, offset, len, p) <==> (len > 0 ==> p < offset + len) && Found(content, start, p)
    {
      if p + |start| <= |content| {
        var here := content[p..p + |start|];
        assert forall k :: 0 <= k < |here| ==> here[k] == content[p + k];
      }
    }
  }

  // Positions at which the first character is not there can be skipped.
  lemma {:induction false} NaiveSkip(content: seq<byte>, start: seq<byte>, offset: nat, len: nat, finder: Finder,
                                     pos: nat, next: nat, calls: seq<nat>)
    requires offset <= pos <= next && start != []
    requires forall p :: pos <= p < next && p < |content| ==> content[p] != start[0]
    ensures Naive(content, start, offset, len, finder, pos, calls) ==
              Naive(content, start, offset, len, finder, next, calls)
    decreases next - pos
  {
    if pos < next {
      assert Occurs(content, start, pos) ==> content[pos..pos + |start|][0] == start[0];
      NaiveSkip(content, start, offset, len, finder, pos + 1, next, calls);
    }
  }

  lemma NaiveOver(content: seq<byte>, start: seq<byte>, offset: nat, len: nat, finder: Finder, pos: nat,
          calls: seq<nat>)
    requires offset <= pos && start != []
    ensures !InRange(content, start, offset, len, pos) ==>
              Naive(content, start, offset, len, finder, pos, calls) == (false, calls)
    ensures InRange(content, start, offset, len, pos) ==> pos < |content|
  {
  }

  // One position in range.
  lemma NaiveMiss(content: seq<byte>, start: seq<byte>, offset: nat, len: nat, finder: Finder, pos: nat,
          calls: seq<nat>)
    requires offset <= pos && start != [] && InRange(content, start, offset, len, pos)
    requires content[pos..pos + |start|] != start
    ensures Naive(content, start, offset, len, finder, pos, calls) ==
            Naive(content, start, offset, len, finder, pos + 1, calls)
  {
  }

  lemma NaiveHit(content: seq<byte>, start: seq<byte>, offset: nat, len: nat, finder: Finder, pos: nat, calls: seq<nat>)
    requires offset <= pos && start != [] && InRange(content, start, offset, len, pos)
    requires content[pos..pos + |start|] == start
    ensures Naive(content, start, offset, len, finder, pos, calls) ==
            if finder(calls + [pos]) then (true, calls + [pos])
            else Naive(content, start, offset, len, finder, pos + 1, calls + [pos])
  {
  }

  class InputSource {
    const content: seq<byte>
    var pos: nat

    constructor (content: seq<byte>)
      ensures this.content == content && pos == 0
    {
      this.content := content;
      pos := 0;
    }

    method Seek(offset: nat)
      modifies this`pos
      ensures pos == offset
    {
      pos := offset;
    }

    // As much as there is, up to the size of the buffer.
    ghost function Available(at: nat): nat {
      if at + SIZE <= |content| then SIZE else if at <= |content| then |content| - at else 0
    }

    method Read(buf: array<byte>) returns (n: nat)
      requires buf.Length == SIZE
      modifies this`pos, buf
      ensures n == Available(old(pos)) && pos == old(pos) + n
      ensures forall i :: 0 <= i < n ==> buf[i] == content[old(pos) + i]
    {
      n := 0;
      while n < SIZE && pos < |content|
        invariant n <= SIZE && pos == old(pos) + n && (n == 0 || pos <= |content|)
        invariant forall i :: 0 <= i < n ==> buf[i] == content[old(pos) + i]
      {
        buf[n] := content[pos];
        n, pos := n + 1, pos + 1;
      }
    }

    // memchr, from p up to the end of what was read: the end if the character is not there.
    method FindChar(buf: array<byte>, p: nat, c: byte, end: nat) returns (q: nat)
      requires p <= end <= buf.Length
      ensures p <= q <= end && (q < end ==> buf[q] == c) && forall i :: p <= i < q ==> buf[i] != c
    {
      q := p;
      while q < end && buf[q] != c
        invariant p <= q <= end && forall i :: p <= i < q ==> buf[i] != c
      {
        q := q + 1;
      }
    }

    // strncmp with a start that has no null characters.
    method Matches(buf: array<byte>, p: nat, start: seq<byte>) returns (r: bool)
      requires p + |start| <= buf.Length
      ensures r <==> buf[p..p + |start|] == start
    {
      for i := 0 to |start|
        invariant forall k :: 0 <= k < i ==> buf[p + k] == start[k]
      {
        if buf[p + i] != start[i] {
          assert buf[p..p + |start|][i] != start[i];
          return false;
        }
      }
      return true;
    }

    method FindFirst(start: seq<byte>, offset: nat, len: nat, finder: Finder) returns (found: bool, calls: seq<nat>)
      requires 1 <= |start| <= SIZE
      modifies this`pos
      ensures (found, calls) == Naive(content, start, offset, len, finder, offset, [])
    {
      var buf := new byte[SIZE](_ => 0);
      calls := [];
      var p: nat := 0;
      var started := false;
      var bufOffset := offset;
      var bytesRead: nat := 0;
      ghost var all := Naive(content, start, offset, len, finder, offset, []);
      hide Naive, Occurs, InRange, Available, Holds;
      while true
        invariant offset <= bufOffset
        invariant if started then p <= bytesRead && Holds(buf, bufOffset, bytesRead)
                  else p == 0 && bufOffset == offset && calls == []
        invariant all == Naive(content, start, offset, len, finder, bufOffset + p, calls)
        decreases !started, |content| - (bufOffset + p)
      {
        if !started || p + |start| > bytesRead {
          if started {
            bufOffset := bufOffset + p;
          }
          bytesRead := Refill(buf, bufOffset);
          if bytesRead < |start| {
            NaiveOver(content, start, offset, len, finder, bufOffset, calls);
            TooShort(start, offset, len, bufOffset);
            return false, calls;
          }
          p, started := 0, true;
        }
        var done;
        done, found, p, calls := Look(buf, bufOffset, bytesRead, p, start, offset, len, finder, calls);
        if done {
          return;
        }
      }
    }

    // To the next place where the first character is, and the comparison there if there is room for
    // it in the buffer.
    method Look(buf: array<byte>, at: nat, n: nat, p: nat, start: seq<byte>, offset: nat, len: nat, finder: Finder,
                calls: seq<nat>) returns (done: bool, found: bool, p': nat, calls': seq<nat>)
      requires Holds(buf, at, n) && p + |start| <= n && offset <= at && start != []
      modifies this`pos
      ensures !done ==> p < p' <= n && at + p' <= |content|
      ensures Naive(content, start, offset, len, finder, at + p, calls) ==
              if done then (found, calls') else Naive(content, start, offset, len, finder, at + p', calls')
    {
      hide Naive, Occurs, InRange, Available, Holds;
      var q := SkipTo(buf, at, n, p, start, offset, len, finder, calls);
      EndOfHeld(buf, at, n);
      if q == n {
        return false, false, q, calls;
      }
      if len != 0 && q + (at - offset) >= len {
        NaiveOver(content, start, offset, len, finder, at + q, calls);
        TooFar(start, offset, len, at + q);
        return true, false, q, calls;
      }
      if q + |start| > n {
        return false, false, q, calls;
      }
      found, calls' := CheckAt(buf, at, n, q, start, offset, len, finder, calls);
      return found, found, q + 1, calls';
    }

    method Refill(buf: array<byte>, at: nat) returns (n: nat)
      requires buf.Length == SIZE
      modifies this`pos, buf
      ensures n == Available(at) && (n > 0 ==> Holds(buf, at, n))
    {
      Seek(at);
      n := Read(buf);
    }

    // On to the next place where the first character is.
    method SkipTo(buf: array<byte>, at: nat, n: nat, p: nat, start: seq<byte>, offset: nat, len: nat, finder: Finder,
                  ghost checks: seq<nat>) returns (q: nat)
      requires Holds(buf, at, n) && p <= n && offset <= at && start != []
      ensures p <= q <= n && (q < n ==> buf[q] == start[0])
      ensures Naive(content, start, offset, len, finder, at + p, checks) ==
              Naive(content, start, offset, len, finder, at + q, checks)
    {
      q := FindChar(buf, p, start[0], n);
      Skipped(buf, at, n, p, q, start[0]);
      NaiveSkip(content, start, offset, len, finder, at + p, at + q, checks);
    }

    // The comparison at one place, and the caller's check of it.
    method CheckAt(buf: array<byte>, at: nat, n: nat, p: nat, start: seq<byte>, offset: nat, len: nat, finder: Finder,
                   checks: seq<nat>) returns (found: bool, checks': seq<nat>)
      requires Holds(buf, at, n) && p + |start| <= n && offset <= at && start != [] &&
                (len != 0 ==> p + (at - offset) < len)
      modifies this`pos
      ensures Naive(content, start, offset, len, finder, at + p, checks) ==
              if found then (true, checks') else Naive(content, start, offset, len, finder, at + p + 1, checks')
    {
      hide Naive;
      var matched := Matches(buf, p, start);
      Window(buf, at, n, p, |start|);
      checks' := checks;
      if matched {
        NaiveHit(content, start, offset, len, finder, at + p, checks);
        Seek(at + p);
        checks' := checks' + [pos];
        return finder(checks'), checks';
      }
      NaiveMiss(content, start, offset, len, finder, at + p, checks);
      return false, checks';
    }

    // The buffer has what is in the file from there on.
    ghost predicate Holds(buf: array<byte>, at: nat, n: nat)
      reads buf
    {
      && buf.Length == SIZE && n == Available(at) && n <= SIZE && at + n <= |content|
      && forall i :: 0 <= i < n ==> buf[i] == content[at + i]
    }

    lemma EndOfHeld(buf: array<byte>, at: nat, n: nat)
      requires Holds(buf, at, n)
      ensures at + n <= |content|
    {
    }

    lemma TooShort(start: seq<byte>, offset: nat, len: nat, at: nat)
      requires Available(at) < |start| <= SIZE
      ensures !InRange(content, start, offset, len, at)
    {
    }

    lemma TooFar(start: seq<byte>, offset: nat, len: nat, at: nat)
      requires len != 0 && at >= offset + len
      ensures !InRange(content, start, offset, len, at)
    {
    }

    lemma Skipped(buf: array<byte>, at: nat, n: nat, from: nat, to: nat, c: byte)
      requires Holds(buf, at, n) && from <= to <= n && forall i :: from <= i < to ==> buf[i] != c
      ensures forall q :: at + from <= q < at + to && q < |content| ==> content[q] != c
    {
      forall q | at + from <= q < at + to ensures content[q] != c {
        assert buf[q - at] == content[at + (q - at)];
      }
    }

    lemma Window(buf: array<byte>, at: nat, n: nat, p: nat, k: nat)
      requires Holds(buf, at, n) && p + k <= n
      ensures at + p + k <= |content| && buf[p..p + k] == content[at + p..at + p + k]
    {
    }
  }
}

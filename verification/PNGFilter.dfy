/**
 * Pl_PNGFilter of libqpdf/Pl_PNGFilter.cc: rows are collected from pieces of any size and filtered or
 * decoded in place, in two buffers that change places.
 */
module PNGFilter {
  import opened Wrappers
  import opened Bytes
  import opened PNGModel

  // Encoding uses one filter only.
  function Ups(n: nat): (r: seq<byte>)
    ensures |r| == n
  {
    seq(n, _ => 2)
  }

  class PNGFilter {
    const encode: bool
    const bytesPerRow: nat
    const bytesPerPixel: nat
    const incoming: nat
    const buf1: array<byte>
    const buf2: array<byte>
    var curRow: array<byte>
    var prevRow: array?<byte>
    var pos: nat
    // What has been written to the next stage; what of it is of streams that have been finished; the
    // complete rows since then.
    var next: seq<byte>
    ghost var earlier: seq<byte>
    ghost var rows: seq<Row>
    ghost var start: Option<Row>
    // What has come in since the last finish.
    ghost var taken: seq<byte>

    constructor (encode: bool, bytesPerRow: nat, bytesPerPixel: nat)
      requires bytesPerRow > 0 && bytesPerPixel > 0
      ensures Valid() && taken == [] && earlier == [] && start == Some(Zeros(bytesPerRow))
      ensures fresh(buf1) && fresh(buf2) && this.encode == encode
      ensures this.bytesPerRow == bytesPerRow && this.bytesPerPixel == bytesPerPixel
    {
      this.encode, this.bytesPerRow, this.bytesPerPixel := encode, bytesPerRow, bytesPerPixel;
      incoming := if encode then bytesPerRow else bytesPerRow + 1;
      var b1 := new byte[bytesPerRow + 1](_ => 0);
      var b2 := new byte[bytesPerRow + 1](_ => 0);
      buf1, buf2, curRow, prevRow := b1, b2, b1, b2;
      pos, next, earlier, rows, taken := 0, [], [], [], [];
      start := Some(Zeros(bytesPerRow));
      new;
      assert curRow[..0] == [] && Data(prevRow[..]) == Zeros(bytesPerRow);
    }

    predicate Buffers()
      reads this
    {
      && bytesPerRow > 0 && bytesPerPixel > 0 && incoming == (if encode then bytesPerRow else bytesPerRow + 1)
      && buf1 != buf2 && buf1.Length == buf2.Length == bytesPerRow + 1
      && if prevRow == null then curRow == buf1 else {curRow, prevRow} == {buf1, buf2}
    }

    // The bytes of a row in a buffer: to encode, from its start; to decode, behind the filter byte.
    function Data(buffer: Row): Row
      requires |buffer| == bytesPerRow + 1
    {
      if encode then buffer[..bytesPerRow] else buffer[1..]
    }

    // What the rows come to.
    ghost function Result(rows: seq<Row>, start: Option<Row>): seq<Row>
      requires bytesPerRow > 0 && bytesPerPixel > 0 && RowsOf(rows, incoming)
      requires incoming == (if encode then bytesPerRow else bytesPerRow + 1)
      requires start.Some? ==> |start.value| == bytesPerRow
    {
      if encode then Encoded(bytesPerRow, bytesPerPixel, Above0(start), rows, Ups(|rows|))
      else Decoded(bytesPerRow, bytesPerPixel, start, rows)
    }

    ghost function Above0(start: Option<Row>): Row {
      if start.Some? then start.value else Zeros(bytesPerRow)
    }

    // The decoded or original row above the next one.
    ghost function Above(rows: seq<Row>, start: Option<Row>): Option<Row>
      requires bytesPerRow > 0 && bytesPerPixel > 0 && RowsOf(rows, incoming)
      requires incoming == (if encode then bytesPerRow else bytesPerRow + 1)
      requires start.Some? ==> |start.value| == bytesPerRow
    {
      if rows == [] then start
      else if encode then Some(rows[|rows| - 1])
      else Some(Result(rows, start)[|rows| - 1])
    }

    // The output is that of the rows, and the row above is in its buffer.
    ghost predicate Rows()
      reads this, buf1, buf2
    {
      && Buffers() && RowsOf(rows, incoming)
      && (start.Some? ==> start.value == Zeros(bytesPerRow))
      && PrevData() == Above(rows, start)
      && next == earlier + Concat(Result(rows, start))
    }

    ghost predicate ZerosFrom(n: nat)
      reads this, buf1, buf2
    {
      curRow in {buf1, buf2} && forall i :: n <= i < curRow.Length ==> curRow[i] == 0
    }

    ghost predicate Valid()
      reads this, buf1, buf2
    {
      Rows() && pos < incoming && ZerosFrom(pos) && taken == Concat(rows) + curRow[..pos]
    }

    // The first i bytes of the row are decoded, and the rest is as it was.
    ghost predicate Decoding(filter: nat, was: Row, i: nat)
      reads this, buf1, buf2
    {
      && Buffers() && prevRow != null && |was| == curRow.Length && i <= bytesPerRow
      && curRow[0] == was[0] && curRow[i + 1..] == was[i + 1..]
      && curRow[1..i + 1] == Unfiltered(filter, bytesPerPixel, prevRow[1..], was[1..], i)
    }

    // One byte of the row in place.
    method Put(i: nat, b: byte, ghost filter: nat, ghost was: Row)
      requires Decoding(filter, was, i) && i < bytesPerRow
      requires b == (was[i + 1] + Predicted(filter, bytesPerPixel, prevRow[1..], curRow[1..i + 1], i)) % 256
      modifies curRow
      ensures Decoding(filter, was, i + 1)
    {
      ghost var done := curRow[1..i + 1];
      curRow[i + 1] := b;
      assert curRow[1..i + 2] == done + [b];
      assert curRow[i + 2..] == was[i + 2..] by {
        forall k | i + 2 <= k < curRow.Length ensures curRow[k] == was[k] {
          assert was[i + 1..][k - i - 1] == was[k];
        }
      }
      hide Predicted;
    }

    // Undoing any of the four filters in place. The byte before the row stays.
    method DecodeInPlace(filter: nat)
      requires Buffers() && prevRow != null && 1 <= filter <= 4
      modifies curRow
      ensures curRow[0] == old(curRow[0])
      ensures curRow[1..] == Unfiltered(filter, bytesPerPixel, prevRow[1..], old(curRow[1..]), bytesPerRow)
    {
      ghost var was := curRow[..];
      assert Decoding(filter, was, 0);
      match filter {
        case 1 => DecodeSub(was);
        case 2 => DecodeUp(was);
        case 3 => DecodeAverage(was);
        case _ => DecodePaeth(was);
      }
      assert was[1..] == old(curRow[1..]) && curRow[1..bytesPerRow + 1] == curRow[1..];
    }

    method DecodeSub(ghost was: Row)
      requires Decoding(1, was, 0)
      modifies curRow
      ensures Decoding(1, was, bytesPerRow)
    {
      for i := 0 to bytesPerRow
        invariant Decoding(1, was, i)
      {
        var left: byte := 0;
        if i >= bytesPerPixel {
          left := curRow[1 + i - bytesPerPixel];
        }
        Put(i, (curRow[1 + i] + left) % 256, 1, was);
      }
    }

    method DecodeUp(ghost was: Row)
      requires Decoding(2, was, 0)
      modifies curRow
      ensures Decoding(2, was, bytesPerRow)
    {
      for i := 0 to bytesPerRow
        invariant Decoding(2, was, i)
      {
        var up: int := prevRow[1 + i];
        Put(i, (curRow[1 + i] + up) % 256, 2, was);
      }
    }

    method DecodeAverage(ghost was: Row)
      requires Decoding(3, was, 0)
      modifies curRow
      ensures Decoding(3, was, bytesPerRow)
    {
      for i := 0 to bytesPerRow
        invariant Decoding(3, was, i)
      {
        var left: byte := 0;
        if i >= bytesPerPixel {
          left := curRow[1 + i - bytesPerPixel];
        }
        Put(i, (curRow[1 + i] + (left + prevRow[1 + i]) / 2) % 256, 3, was);
      }
    }

    method DecodePaeth(ghost was: Row)
      requires Decoding(4, was, 0)
      modifies curRow
      ensures Decoding(4, was, bytesPerRow)
    {
      for i := 0 to bytesPerRow
        invariant Decoding(4, was, i)
      {
        var left: byte, upperLeft: byte := 0, 0;
        if i >= bytesPerPixel {
          left := curRow[1 + i - bytesPerPixel];
          upperLeft := prevRow[1 + i - bytesPerPixel];
        }
        Put(i, (curRow[1 + i] + PaethPredictor(left, prevRow[1 + i], upperLeft)) % 256, 4, was);
      }
    }

    // What a complete row in the buffer comes to.
    ghost function RowResult(above: Option<Row>, row: Row): Row
      requires bytesPerRow > 0 && bytesPerPixel > 0 && |row| == incoming
      requires incoming == (if encode then bytesPerRow else bytesPerRow + 1)
      requires above.Some? ==> |above.value| == bytesPerRow
    {
      if encode then [2] + Filtered(2, bytesPerPixel, if above.Some? then above.value else Zeros(bytesPerRow), row)
      else DecodedRow(bytesPerPixel, above, row)
    }

    ghost function PrevData(): Option<Row>
      reads this, buf1, buf2
      requires Buffers()
    {
      if prevRow == null then None else Some(Data(prevRow[..]))
    }

    // Without a row above, a row is not decoded.
    method DecodeRow()
      requires Buffers() && !encode
      modifies this`next, curRow
      ensures var r := RowResult(PrevData(), old(curRow[..])); next == old(next) + r && curRow[1..] == r
    {
      var filter := curRow[0];
      ghost var row := curRow[..];
      if prevRow != null {
        if 1 <= filter <= 4 {
          DecodeInPlace(filter);
        } else {
          NoFilter(filter, bytesPerPixel, prevRow[1..], row[1..], bytesPerRow);
          assert row[1..][..bytesPerRow] == row[1..];
        }
      }
      next := next + curRow[1..];
    }

    method EncodeRow()
      requires Buffers() && encode
      modifies this`next
      ensures next == old(next) + RowResult(PrevData(), curRow[..bytesPerRow])
    {
      next := next + [2];
      ghost var row := curRow[..bytesPerRow];
      if prevRow != null {
        ghost var above := prevRow[..bytesPerRow];
        ghost var f := Filtered(2, bytesPerPixel, above, row);
        for i := 0 to bytesPerRow
          invariant next == old(next) + [2] + f[..i]
        {
          var up: int := prevRow[i];
          next := next + [(curRow[i] - up) % 256];
          assert f[..i + 1] == f[..i] + [f[i]];
        }
        assert f[..bytesPerRow] == f && old(next) + [2] + f == old(next) + ([2] + f);
      } else {
        next := next + curRow[..bytesPerRow];
        assert Filtered(2, bytesPerPixel, Zeros(bytesPerRow), row) == row;
      }
    }

    // One row more.
    lemma ResultNext(rows: seq<Row>, row: Row, start: Option<Row>)
      requires bytesPerRow > 0 && bytesPerPixel > 0 && RowsOf(rows, incoming) && |row| == incoming
      requires incoming == (if encode then bytesPerRow else bytesPerRow + 1)
      requires start.Some? ==> |start.value| == bytesPerRow
      ensures Result(rows + [row], start) == Result(rows, start) + [RowResult(Above(rows, start), row)]
      ensures Above(rows + [row], start) ==
              Some(if encode then row else RowResult(Above(rows, start), row))
    {
      var all := rows + [row];
      assert all[..|rows|] == rows && Ups(|all|)[..|rows|] == Ups(|rows|);
      hide Filtered, Unfiltered;
    }

    // A complete row goes out.
    method ProcessRow()
      requires Rows()
      modifies this`next, this`rows, curRow
      ensures Buffers() && RowsOf(rows, incoming) && rows == old(rows) + [old(curRow[..incoming])]
      ensures next == earlier + Concat(Result(rows, start)) && Above(rows, start) == Some(Data(curRow[..]))
    {
      ghost var row, above := curRow[..incoming], PrevData();
      RowOut(rows, row, start, earlier);
      hide Result, Above, Concat, RowResult, RowsOf, Data;
      RunRow();
      rows := rows + [row];
    }

    lemma RowOut(rows: seq<Row>, row: Row, start: Option<Row>, earlier: seq<byte>)
      requires bytesPerRow > 0 && bytesPerPixel > 0 && RowsOf(rows, incoming) && |row| == incoming
      requires incoming == (if encode then bytesPerRow else bytesPerRow + 1)
      requires start.Some? ==> |start.value| == bytesPerRow
      ensures RowsOf(rows + [row], incoming)
      ensures var r := RowResult(Above(rows, start), row);
              && earlier + Concat(Result(rows + [row], start)) == earlier + Concat(Result(rows, start)) + r
              && Above(rows + [row], start) == Some(if encode then row else r)
    {
      assert RowsOf(rows + [row], incoming);
      ResultNext(rows, row, start);
      hide Result, Above, RowResult, RowsOf, Concat;
      var result, r := Result(rows, start), RowResult(Above(rows, start), row);
      ConcatNext(result, r);
      Joined(earlier, Concat(result), r);
    }

    lemma Joined(a: seq<byte>, b: seq<byte>, c: seq<byte>)
      ensures a + (b + c) == a + b + c
    {
    }

    method RunRow()
      requires Buffers()
      modifies this`next, curRow
      ensures var row := old(curRow[..incoming]); var r := RowResult(old(PrevData()), row);
              next == old(next) + r && Data(curRow[..]) == if encode then row else r
    {
      if encode {
        EncodeRow();
        assert curRow[..][..bytesPerRow] == curRow[..bytesPerRow];
      } else {
        assert curRow[..] == curRow[..incoming];
        DecodeRow();
        assert curRow[..][1..] == curRow[1..];
      }
    }

    // The buffers change places.
    method SwapRows()
      requires Buffers()
      modifies this`curRow, this`prevRow, buf1, buf2
      ensures Buffers() && prevRow == old(curRow) && prevRow[..] == old(curRow[..]) && ZerosFrom(0)
    {
      var t := prevRow;
      prevRow := curRow;
      curRow := if t != null then t else buf2;
      ClearRow();
    }

    method ClearRow()
      requires Buffers()
      modifies curRow
      ensures ZerosFrom(0)
    {
      forall i | 0 <= i < curRow.Length {
        curRow[i] := 0;
      }
    }

    method Fill(at: nat, data: seq<byte>)
      requires Buffers() && at + |data| <= incoming && ZerosFrom(at)
      modifies curRow
      ensures curRow[..at + |data|] == old(curRow[..at]) + data && ZerosFrom(at + |data|)
    {
      forall k | 0 <= k < |data| {
        curRow[at + k] := data[k];
      }
    }

    method Write(data: seq<byte>)
      requires Valid()
      modifies this`curRow, this`prevRow, this`pos, this`next, this`rows, this`taken, buf1, buf2
      ensures Valid() && taken == old(taken) + data
    {
      assert pos < incoming && curRow in {buf1, buf2};
      hide Valid;
      var left := incoming - pos;
      var offset := 0;
      while |data| - offset >= left
        invariant Valid() && curRow in {buf1, buf2} && pos < incoming && left == incoming - pos && 0 <= offset <= |data|
        invariant taken == old(taken) + data[..offset]
      {
        Pieces(old(taken), data, offset, offset + left);
        CompleteRow(data[offset..offset + left]);
        offset := offset + left;
        left := incoming;
      }
      Pieces(old(taken), data, offset, |data|);
      KeepPart(data[offset..]);
    }

    lemma Pieces(a: seq<byte>, data: seq<byte>, p: nat, q: nat)
      requires p <= q <= |data|
      ensures a + data[..p] + data[p..q] == a + data[..q] && data[..|data|] == data && data[p..|data|] == data[p..]
    {
    }

    method CompleteRow(data: seq<byte>)
      requires Valid() && pos + |data| == incoming
      modifies this`curRow, this`prevRow, this`pos, this`next, this`rows, this`taken, buf1, buf2
      ensures Valid() && pos == 0 < incoming && curRow in {buf1, buf2} && taken == old(taken) + data
    {
      hide Result, Above, Concat, Data, RowsOf;
      ghost var was, part := rows, curRow[..pos];
      Fill(pos, data);
      ProcessRow();
      SwapRows();
      pos := 0;
      ConcatNext(was, part + data);
      taken := taken + data;
      assert curRow[..0] == [] && Concat(was) + (part + data) == Concat(was) + part + data;
    }

    method KeepPart(data: seq<byte>)
      requires Valid() && pos + |data| < incoming
      modifies this`pos, this`taken, curRow
      ensures Valid() && taken == old(taken) + data
    {
      hide Result, Above, Concat, Data, RowsOf;
      ghost var part := curRow[..pos];
      Fill(pos, data);
      pos := pos + |data|;
      taken := taken + data;
      assert Concat(rows) + (part + data) == Concat(rows) + part + data;
    }

    // The rows of a stream, the last one filled up with zeros.
    ghost function AllRows(): (r: seq<Row>)
      requires Valid()
      reads this, buf1, buf2
      ensures RowsOf(r, incoming)
    {
      if pos == 0 then rows else rows + [curRow[..incoming]]
    }

    lemma Facts()
      requires Valid()
      ensures Buffers() && pos < incoming && RowsOf(rows, incoming) && taken == Concat(rows) + curRow[..pos]
      ensures pos == 0 ==> AllRows() == rows
      ensures start.Some? ==> start.value == Zeros(bytesPerRow)
      ensures var all := AllRows();
              Result(all, start) ==
              if encode then Encoded(bytesPerRow, bytesPerPixel, Above0(start), all, Ups(|all|))
              else Decoded(bytesPerRow, bytesPerPixel, start, all)
    {
    }

    // What has come in, and zeros.
    lemma AllTaken()
      requires Valid() && encode
      ensures FilledUp(taken, Concat(AllRows()), bytesPerRow)
    {
      assert Buffers() && incoming == bytesPerRow;
      hide Rows, RowsOf;
      if pos == 0 {
        assert Concat(rows) + curRow[..0] == Concat(rows);
      } else {
        ConcatNext(rows, curRow[..incoming]);
        hide Concat;
        Filled(Concat(rows), curRow[..incoming], pos);
        assert curRow[..incoming][..pos] == curRow[..pos];
      }
    }

    lemma Filled(before: seq<byte>, row: Row, n: nat)
      requires n <= |row| && forall i :: n <= i < |row| ==> row[i] == 0
      ensures before + row[..n] <= before + row
      ensures forall i :: |before| + n <= i < |before + row| ==> (before + row)[i] == 0
    {
    }

    // A row that is not complete is processed with zeros. There is no row above the next stream.
    method Finish()
      requires Valid()
      modifies this, buf1, buf2
      ensures Valid() && taken == [] && start == None && next == earlier
      ensures next == old(earlier + Concat(Result(AllRows(), start)))
    {
      hide Result, Concat, Data, RowsOf;
      if pos > 0 {
        ProcessRow();
      }
      NoRows();
      prevRow := null;
      curRow := buf1;
      pos := 0;
      ClearRow();
      earlier, rows, start, taken := next, [], None, [];
      assert next + [] == next && curRow[..0] == [];
    }

    lemma NoRows()
      requires Buffers()
      ensures RowsOf([], incoming) && Concat([]) == [] && Result([], None) == []
    {
    }
  }

  lemma ConcatNext(rows: seq<Row>, row: Row)
    ensures Concat(rows + [row]) == Concat(rows) + row
  {
    assert (rows + [row])[..|rows|] == rows;
  }

  // Bytes can be cut into rows in one way only.
  lemma {:induction false} OneWay(a: seq<Row>, b: seq<Row>, tail: Row, n: nat)
    requires RowsOf(a, n) && RowsOf(b, n) && |tail| < n && Concat(a) + tail == Concat(b)
    ensures a == b && tail == []
  {
    ConcatLength(a, n);
    ConcatLength(b, n);
    assert n * |a| + |tail| == n * |b|;
    SameCount(n, |a|, |b|, |tail|);
    assert Concat(a) + [] == Concat(a);
    SameRows(a, b, n);
  }

  lemma SameCount(n: nat, a: nat, b: nat, t: nat)
    requires n * a + t == n * b && t < n
    ensures a == b && t == 0
  {
    DivUnique(n * b, n, a, t);
    DivUnique(n * b, n, b, 0);
  }

  lemma {:induction false} ConcatLength(a: seq<Row>, n: nat)
    requires RowsOf(a, n)
    ensures |Concat(a)| == n * |a|
  {
    if a != [] {
      ConcatLength(a[..|a| - 1], n);
      assert n * |a| == n * (|a| - 1) + n;
    }
  }

  lemma {:induction false} SameRows(a: seq<Row>, b: seq<Row>, n: nat)
    requires RowsOf(a, n) && RowsOf(b, n) && |a| == |b| && Concat(a) == Concat(b)
    ensures a == b
  {
    if a != [] {
      var a', b' := a[..|a| - 1], b[..|b| - 1];
      ConcatLength(a', n);
      ConcatLength(b', n);
      assert Concat(a)[..n * |a'|] == Concat(a') && Concat(b)[..n * |a'|] == Concat(b');
      assert Concat(a)[n * |a'|..] == a[|a'|] && Concat(b)[n * |a'|..] == b[|a'|];
      SameRows(a', b', n);
      assert a == a' + [a[|a'|]] && b == b' + [b[|b'|]];
    }
  }

  // Encoding in any pieces and decoding in any pieces gives the input, filled up with zeros to whole
  // rows.
  method RoundTrip(n: nat, bpp: nat, pieces: seq<seq<byte>>, cuts: seq<nat>) returns (out: seq<byte>)
    requires n > 0 && bpp > 0
    ensures FilledUp(Concat(pieces), out, n) && |out| % n == 0
  {
    var code: seq<byte>;
    ghost var rows: seq<Row>;
    code, rows := EncodeAll(n, bpp, pieces);
    out := DecodeAll(n, bpp, code, cuts, Encoded(n, bpp, Zeros(n), rows, Ups(|rows|)));
    RowsRecovered(n, bpp, Zeros(n), rows, Ups(|rows|));
    ConcatLength(rows, n);
    DivUnique(n * |rows|, n, |rows|, 0);
  }

  method WriteAll(p: PNGFilter, pieces: seq<seq<byte>>)
    requires p.Valid()
    modifies p, p.buf1, p.buf2
    ensures p.Valid() && p.taken == old(p.taken) + Concat(pieces) && p.earlier == old(p.earlier) &&
              p.start == old(p.start)
  {
    hide PNGFilter.Valid;
    assert pieces[..0] == [];
    for i := 0 to |pieces|
      invariant p.Valid() && p.taken == old(p.taken) + Concat(pieces[..i])
      invariant p.earlier == old(p.earlier) && p.start == old(p.start)
    {
      p.Write(pieces[i]);
      assert pieces[..i + 1] == pieces[..i] + [pieces[i]];
      ConcatNext(pieces[..i], pieces[i]);
    }
    assert pieces[..|pieces|] == pieces;
  }

  method WriteCut(p: PNGFilter, data: seq<byte>, cuts: seq<nat>)
    requires p.Valid()
    modifies p, p.buf1, p.buf2
    ensures p.Valid() && p.taken == old(p.taken) + data && p.earlier == old(p.earlier) && p.start == old(p.start)
  {
    hide PNGFilter.Valid;
    var done := 0;
    for i := 0 to |cuts|
      invariant 0 <= done <= |data| && p.Valid() && p.taken == old(p.taken) + data[..done]
      invariant p.earlier == old(p.earlier) && p.start == old(p.start)
    {
      var end := if done + cuts[i] <= |data| then done + cuts[i] else |data|;
      p.Pieces(old(p.taken), data, done, end);
      p.Write(data[done..end]);
      done := end;
    }
    p.Pieces(old(p.taken), data, done, |data|);
    p.Write(data[done..]);
  }

  method EncodeAll(n: nat, bpp: nat, pieces: seq<seq<byte>>) returns (code: seq<byte>, ghost rows: seq<Row>)
    requires n > 0 && bpp > 0
    ensures RowsOf(rows, n) && code == Concat(Encoded(n, bpp, Zeros(n), rows, Ups(|rows|)))
    ensures FilledUp(Concat(pieces), Concat(rows), n)
  {
    var encoder := new PNGFilter(true, n, bpp);
    hide PNGFilter.Valid, PNGFilter.Result, PNGFilter.AllRows, Encoded, Concat, FilledUp;
    WriteAll(encoder, pieces);
    assert [] + Concat(pieces) == Concat(pieces);
    encoder.Facts();
    rows := encoder.AllRows();
    encoder.AllTaken();
    encoder.Finish();
    code := encoder.next;
    assert [] + code == code;
  }

  // The data, and less than a row of zeros.
  predicate FilledUp(data: seq<byte>, all: seq<byte>, n: nat) {
    data <= all && |all| - |data| < n && forall i :: |data| <= i < |all| ==> all[i] == 0
  }

  method DecodeAll(n: nat, bpp: nat, code: seq<byte>, cuts: seq<nat>, ghost rows: seq<Row>) returns (out: seq<byte>)
    requires n > 0 && bpp > 0 && RowsOf(rows, n + 1) && code == Concat(rows)
    ensures out == Concat(Decoded(n, bpp, Some(Zeros(n)), rows))
  {
    var decoder := new PNGFilter(false, n, bpp);
    hide PNGFilter.Valid, PNGFilter.Result, PNGFilter.AllRows, Decoded, Concat;
    WriteCut(decoder, code, cuts);
    assert [] + code == code;
    decoder.Facts();
    OneWay(decoder.rows, rows, decoder.curRow[..decoder.pos], n + 1);
    decoder.Finish();
    out := decoder.next;
    assert [] + out == out;
  }

  // Other filter bytes than 1 to 4 leave a row as it is.
  lemma {:induction false} NoFilter(filter: nat, bpp: nat, above: Row, row: Row, n: nat)
    requires |above| == |row| && 0 < bpp && n <= |row| && !(1 <= filter <= 4)
    ensures Unfiltered(filter, bpp, above, row, n) == row[..n]
  {
    if n > 0 {
      NoFilter(filter, bpp, above, row, n - 1);
      assert row[..n] == row[..n - 1] + [row[n - 1]];
    }
  }
}

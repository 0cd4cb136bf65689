/**
 * The filters of section 6 of RFC 2083, row by row, as libqpdf/Pl_PNGFilter.cc applies and undoes them.
 */
module PNGModel {
  import opened Wrappers
  import opened Bytes

  type Row = seq<byte>

  function AbsDiff(a: int, b: int): int {
    if a > b then a - b else b - a
  }

  function PaethPredictor(a: int, b: int, c: int): int {
    var p := a + b - c;
    var pa, pb, pc := AbsDiff(p, a), AbsDiff(p, b), AbsDiff(p, c);
    if pa <= pb && pa <= pc then a else if pb <= pc then b else c
  }

  // The predictor chooses the neighbour that is nearest to a + b - c, in this order if there is more
  // than one.
  lemma PaethIsNearest(a: int, b: int, c: int)
    ensures var r, p := PaethPredictor(a, b, c), a + b - c;
            && (r == a || r == b || r == c)
            && AbsDiff(p, r) <= AbsDiff(p, a) && AbsDiff(p, r) <= AbsDiff(p, b) && AbsDiff(p, r) <= AbsDiff(p, c)
            && (AbsDiff(p, a) == AbsDiff(p, r) ==> r == a)
            && (AbsDiff(p, b) == AbsDiff(p, r) ==> r == a || r == b)
  {
  }

  // What a filter predicts for a byte: of the bytes to the left, above, and above to the left.
  function Predicted(filter: nat, bpp: nat, above: Row, row: Row, i: nat): (r: byte)
    requires i <= |row| && i < |above| && 0 < bpp
  {
    var left := if i >= bpp then row[i - bpp] else 0;
    var upperLeft := if i >= bpp then above[i - bpp] else 0;
    match filter
    case 1 => left
    case 2 => above[i]
    case 3 => (left + above[i]) / 2
    case 4 => PaethPredictor(left, above[i], upperLeft)
    case _ => 0
  }

  // The filter applied to a row.
  function Filtered(filter: nat, bpp: nat, above: Row, row: Row): (r: Row)
    requires |above| == |row| && 0 < bpp
    ensures |r| == |row|
  {
    seq(|row|, i requires 0 <= i < |row| => (row[i] - Predicted(filter, bpp, above, row, i)) % 256)
  }

  // The first n bytes of a row with the filter undone: what has been undone is used to predict more.
  function Unfiltered(filter: nat, bpp: nat, above: Row, row: Row, n: nat): (r: Row)
    requires |above| == |row| && 0 < bpp && n <= |row|
    ensures |r| == n
  {
    if n == 0 then []
    else
      var d := Unfiltered(filter, bpp, above, row, n - 1);
      d + [(row[n - 1] + Predicted(filter, bpp, above, d, n - 1)) % 256]
  }

  lemma PredictedPrefix(filter: nat, bpp: nat, above: Row, row: Row, i: nat)
    requires i <= |row| && i < |above| && 0 < bpp
    ensures Predicted(filter, bpp, above, row, i) == Predicted(filter, bpp, above, row[..i], i)
  {
  }

  // Undoing a filter gives back the row.
  lemma {:induction false} FilterUndone(filter: nat, bpp: nat, above: Row, row: Row, n: nat)
    requires |above| == |row| && 0 < bpp && n <= |row|
    ensures Unfiltered(filter, bpp, above, Filtered(filter, bpp, above, row), n) == row[..n]
  {
    if n > 0 {
      FilterUndone(filter, bpp, above, row, n - 1);
      PredictedPrefix(filter, bpp, above, row, n - 1);
      assert row[..n] == row[..n - 1] + [row[n - 1]];
      Back(row[n - 1], Predicted(filter, bpp, above, row, n - 1));
    }
  }

  lemma Back(a: byte, p: byte)
    ensures ((a - p) % 256 + p) % 256 == a
  {
  }

  // What is made of a byte x, section 6 of RFC 2083: it stays with None; with the others, the byte to the left
  // is added for Sub, the one above for Up, half the sum of both, rounded down, for Average, and for Paeth
  // whichever of them and the one above to the left is nearest to their combination.
  ghost predicate Undone(filter: nat, x: int, left: int, up: int, upLeft: int, r: int) {
    match filter
    case 1 => r == (x + left) % 256
    case 2 => r == (x + up) % 256
    case 3 => exists p :: 2 * p <= left + up <= 2 * p + 1 && r == (x + p) % 256
    case 4 => exists p :: Nearest(p, left, up, upLeft) && r == (x + p) % 256
    case _ => r == x
  }

  lemma {:induction false} UndoneIs(filter: nat, bpp: nat, above: Row, row: Row, n: nat, i: nat)
    requires |above| == |row| && 0 < bpp && i < n <= |row|
    ensures var d := Unfiltered(filter, bpp, above, row, n);
            Undone(filter, row[i], if i < bpp then 0 else d[i - bpp], above[i], if i < bpp then 0 else above[i - bpp],
                   d[i])
  {
    hide Predicted, Undone;
    var d, d' := Unfiltered(filter, bpp, above, row, n), Unfiltered(filter, bpp, above, row, n - 1);
    assert d == d' + [d[n - 1]];
    if i < n - 1 {
      UndoneIs(filter, bpp, above, row, n - 1, i);
    } else {
      PredictedIs(filter, bpp, above, d', i, row[i]);
    }
  }

  lemma PredictedIs(filter: nat, bpp: nat, above: Row, row: Row, i: nat, x: byte)
    requires i <= |row| && i < |above| && 0 < bpp
    ensures Undone(filter, x, if i < bpp then 0 else row[i - bpp], above[i], if i < bpp then 0 else above[i - bpp],
                   (x + Predicted(filter, bpp, above, row, i)) % 256)
  {
    var left: int, up: int, upLeft: int :=
      if i < bpp then 0 else row[i - bpp], above[i], if i < bpp then 0 else above[i - bpp];
    var p: int := Predicted(filter, bpp, above, row, i);
    if filter == 4 {
      PaethIsNearest(left, up, upLeft);
      assert Nearest(p, left, up, upLeft);
    } else if filter == 3 {
      assert 2 * p <= left + up <= 2 * p + 1;
    }
  }

  // The first of a, b and c that is as near to a + b - c as any.
  predicate Nearest(p: int, a: int, b: int, c: int) {
    var q := a + b - c;
    var m := if AbsDiff(q, a) <= AbsDiff(q, b) then AbsDiff(q, a) else AbsDiff(q, b);
    var least := if m <= AbsDiff(q, c) then m else AbsDiff(q, c);
    p == if AbsDiff(q, a) == least then a else if AbsDiff(q, b) == least then b else c
  }

  // Every step-th byte up to place i, added up.
  function Strided(row: Row, step: nat, i: nat): nat
    requires 0 < step && i < |row|
  {
    row[i] + if i < step then 0 else Strided(row, step, i - step)
  }

  // With Sub, a byte is the sum of the bytes of its kind so far.
  lemma {:induction false} SubSums(bpp: nat, above: Row, row: Row, n: nat, i: nat)
    requires |above| == |row| && 0 < bpp && i < n <= |row|
    ensures Unfiltered(1, bpp, above, row, n)[i] == Strided(row, bpp, i) % 256
    decreases i
  {
    hide Unfiltered;
    UndoneIs(1, bpp, above, row, n, i);
    if i >= bpp {
      SubSums(bpp, above, row, n, i - bpp);
      SumMod(row[i], Strided(row, bpp, i - bpp));
    }
  }

  lemma SumMod(a: nat, b: nat)
    ensures (a + b % 256) % 256 == (a + b) % 256
  {
  }

  // ---------------------------------------------------------------- streams of rows

  predicate RowsOf(rows: seq<Row>, n: nat) {
    forall i :: 0 <= i < |rows| ==> |rows[i]| == n
  }

  // The row above the next one, decoded: none after a stream has been finished, else zeros at first.
  // Without one, rows are not decoded.
  function DecodedRow(bpp: nat, above: Option<Row>, row: Row): (r: Row)
    requires |row| > 0 && 0 < bpp && (above.Some? ==> |above.value| == |row| - 1)
    ensures |r| == |row| - 1
  {
    if above.None? then row[1..] else Unfiltered(row[0], bpp, above.value, row[1..], |row| - 1)
  }

  // The rows of a stream that begins with nothing or zeros above it.
  function Decoded(n: nat, bpp: nat, start: Option<Row>, rows: seq<Row>): (r: seq<Row>)
    requires RowsOf(rows, n + 1) && 0 < bpp && (start.Some? ==> |start.value| == n)
    ensures |r| == |rows| && RowsOf(r, n)
  {
    if rows == [] then []
    else
      var d := Decoded(n, bpp, start, rows[..|rows| - 1]);
      d + [DecodedRow(bpp, if d == [] then start else Some(d[|d| - 1]), rows[|rows| - 1])]
  }

  // A column of rows, each behind its filter byte, added up.
  function Column(rows: seq<Row>, n: nat, i: nat): nat
    requires RowsOf(rows, n + 1) && i < n
  {
    if rows == [] then 0 else Column(rows[..|rows| - 1], n, i) + rows[|rows| - 1][i + 1]
  }

  // With Up for all rows, a byte is the sum of its column so far, and of what the stream begins with above it.
  lemma {:induction false} UpSums(n: nat, bpp: nat, start: Row, rows: seq<Row>, i: nat)
    requires RowsOf(rows, n + 1) && 0 < bpp && |start| == n && i < n && rows != []
    requires forall k :: 0 <= k < |rows| ==> rows[k][0] == 2
    ensures Decoded(n, bpp, Some(start), rows)[|rows| - 1][i] == (start[i] + Column(rows, n, i)) % 256
  {
    hide Unfiltered, Undone;
    var k := |rows| - 1;
    var above := if k == 0 then start else Decoded(n, bpp, Some(start), rows[..k])[k - 1];
    assert Decoded(n, bpp, Some(start), rows)[k] == DecodedRow(bpp, Some(above), rows[k]);
    UpRow(bpp, above, rows[k], i);
    hide Decoded, DecodedRow;
    if k > 0 {
      UpSums(n, bpp, start, rows[..k], i);
      SumMod(rows[k][i + 1], start[i] + Column(rows[..k], n, i));
    }
  }

  lemma UpRow(bpp: nat, above: Row, row: Row, i: nat)
    requires 0 < bpp && |row| == |above| + 1 && row[0] == 2 && i < |above|
    ensures DecodedRow(bpp, Some(above), row)[i] == (row[i + 1] as int + above[i] as int) % 256
  {
    hide Unfiltered;
    UndoneIs(2, bpp, above, row[1..], |above|, i);
  }

  // Rows filtered each by its own filter.
  function Encoded(n: nat, bpp: nat, start: Row, rows: seq<Row>, filters: seq<byte>): (r: seq<Row>)
    requires RowsOf(rows, n) && 0 < bpp && |start| == n && |filters| == |rows|
    ensures |r| == |rows| && RowsOf(r, n + 1)
  {
    if rows == [] then []
    else
      var k := |rows| - 1;
      Encoded(n, bpp, start, rows[..k], filters[..k]) +
      [[filters[k]] + Filtered(filters[k], bpp, if k == 0 then start else rows[k - 1], rows[k])]
  }

  // For any rows and any choice of filters, decoding recovers the rows.
  lemma {:induction false} RowsRecovered(n: nat, bpp: nat, start: Row, rows: seq<Row>, filters: seq<byte>)
    requires RowsOf(rows, n) && 0 < bpp && |start| == n && |filters| == |rows|
    ensures Decoded(n, bpp, Some(start), Encoded(n, bpp, start, rows, filters)) == rows
  {
    hide DecodedRow, Filtered;
    if rows != [] {
      var k := |rows| - 1;
      var e := Encoded(n, bpp, start, rows, filters);
      assert e[..k] == Encoded(n, bpp, start, rows[..k], filters[..k]);
      RowsRecovered(n, bpp, start, rows[..k], filters[..k]);
      RowBack(bpp, if k == 0 then start else rows[k - 1], rows[k], filters[k]);
      assert rows == rows[..k] + [rows[k]];
    }
  }

  lemma RowBack(bpp: nat, above: Row, row: Row, filter: byte)
    requires 0 < bpp && |above| == |row|
    ensures DecodedRow(bpp, Some(above), [filter] + Filtered(filter, bpp, above, row)) == row
  {
    hide Filtered, Unfiltered;
    var e := [filter] + Filtered(filter, bpp, above, row);
    assert e[1..] == Filtered(filter, bpp, above, row) && row[..|row|] == row;
    FilterUndone(filter, bpp, above, row, |row|);
  }
}

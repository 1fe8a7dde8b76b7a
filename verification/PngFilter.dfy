// The line filters of PNG images, as the W3C PNG specification defines them (section 9).
module PngFilter {
  import opened Words
  import opened Sequences

  function Paeth(a: int, b: int, c: int): int {
    var p := a + b - c;
    var pa, pb, pc := Abs(p - a), Abs(p - b), Abs(p - c);
    if pa <= pb && pa <= pc then a
    else if pb <= pc then b
    else c
  }

  // The prediction of filter type f from the bytes to the left, above, and above to the left.
  function Pred(f: nat, a: byte, b: byte, c: byte): int
    requires f <= 4
  {
    match f
    case 0 => 0
    case 1 => a
    case 2 => b
    case 3 => (a + b) / 2
    case _ => Paeth(a, b, c)
  }

  // The byte n places to the left; bytes outside the image count as zero.
  function Left(row: seq<byte>, i: nat, n: nat): byte
    requires i < |row| + n
  {
    if i < n then 0 else row[i - n]
  }

  function Wrap(v: int): byte { v % 256 }

  function Zeros(n: nat): (z: seq<byte>)
    ensures |z| == n && forall i :: 0 <= i < n ==> z[i] == 0
  {
    seq(n, i => 0)
  }

  function Filtered(row: seq<byte>, prior: seq<byte>, n: nat, f: nat): (line: seq<byte>)
    requires f <= 4 && |prior| == |row| && n > 0
    ensures |line| == |row|
    ensures forall i :: 0 <= i < |row| ==>
      line[i] == Wrap(row[i] - Pred(f, Left(row, i, n), prior[i], Left(prior, i, n)))
  {
    seq(|row|, i requires 0 <= i < |row| => Wrap(row[i] - Pred(f, Left(row, i, n), prior[i], Left(prior, i, n))))
  }

  // The first k bytes of the row that a filtered line stands for.
  function Unfiltered(line: seq<byte>, prior: seq<byte>, n: nat, f: nat, k: nat): (row: seq<byte>)
    requires f <= 4 && |prior| == |line| && n > 0 && k <= |line|
    ensures |row| == k
  {
    if k == 0 then []
    else
      var row := Unfiltered(line, prior, n, f, k - 1);
      row + [Wrap(line[k - 1] + Pred(f, Left(row, k - 1, n), prior[k - 1], Left(prior, k - 1, n)))]
  }

  // ---------- the filters of the standard ----------

  // r is the one of a, b and c that is nearest to a + b - c; of equally near ones, the first.
  ghost predicate Nearest(a: int, b: int, c: int, r: int) {
    var p := a + b - c;
    && (r == a || r == b || r == c)
    && Abs(p - r) <= Abs(p - a) && Abs(p - r) <= Abs(p - b) && Abs(p - r) <= Abs(p - c)
    && (Abs(p - a) == Abs(p - r) ==> r == a)
    && (Abs(p - b) == Abs(p - r) < Abs(p - a) ==> r == b)
  }

  lemma PaethIsNearest(a: int, b: int, c: int)
    ensures Nearest(a, b, c, Paeth(a, b, c))
  {}

  lemma NearestUnique(a: int, b: int, c: int, r: int, q: int)
    requires Nearest(a, b, c, r) && Nearest(a, b, c, q)
    ensures r == q
  {}

  // What each filter type takes away from a byte: nothing, the byte to the left, the byte above, half their
  // sum rounded down, or the one of left, above and above left that is nearest to left + above - above left.
  ghost predicate Predicts(f: nat, a: int, b: int, c: int, r: int) {
    && (f == 0 ==> r == 0)
    && (f == 1 ==> r == a)
    && (f == 2 ==> r == b)
    && (f == 3 ==> 2 * r <= a + b <= 2 * r + 1)
    && (f == 4 ==> Nearest(a, b, c, r))
  }

  // The byte v and its filtered byte differ by the prediction from a, b and c, modulo 256.
  ghost predicate Differs(f: nat, a: int, b: int, c: int, v: int, filtered: int) {
    exists r :: Predicts(f, a, b, c, r) && (filtered + r - v) % 256 == 0
  }

  // The same for byte i of a row: the bytes n places to the left, above, and above that, all zero outside
  // the image.
  ghost predicate FilteredBy(f: nat, row: seq<byte>, prior: seq<byte>, n: nat, i: nat, filtered: byte)
    requires i < |row| == |prior|
  {
    if i >= n then Differs(f, row[i - n], prior[i], prior[i - n], row[i], filtered)
    else Differs(f, 0, prior[i], 0, row[i], filtered)
  }

  lemma PredPredicts(f: nat, a: byte, b: byte, c: byte)
    requires f <= 4
    ensures Predicts(f, a, b, c, Pred(f, a, b, c))
  {
    hide Nearest, Paeth;
    PaethIsNearest(a, b, c);
  }

  lemma FilteredIs(row: seq<byte>, prior: seq<byte>, n: nat, f: nat, i: nat)
    requires f <= 4 && |prior| == |row| && n > 0 && i < |row|
    ensures FilteredBy(f, row, prior, n, i, Filtered(row, prior, n, f)[i])
  {
    hide Predicts, Pred, Wrap;
    var a, b, c: int := Left(row, i, n), prior[i], Left(prior, i, n);
    PredPredicts(f, a, b, c);
    var r := Pred(f, a, b, c);
    WrapDiffers(row[i] - r);
    assert Differs(f, a, b, c, row[i], Filtered(row, prior, n, f)[i]);
  }

  lemma WrapDiffers(v: int)
    ensures (Wrap(v) - v) % 256 == 0
  {
    DivModUnique(Wrap(v) - v, 256, -(v / 256), 0);
  }

  // An unfiltered row is one that the line is the filtered form of.
  lemma {:induction false} UnfilteredIs(line: seq<byte>, prior: seq<byte>, n: nat, f: nat, k: nat)
    requires f <= 4 && |prior| == |line| && n > 0 && k <= |line|
    ensures Filtered(Unfiltered(line, prior, n, f, k), prior[..k], n, f) == line[..k]
    decreases k
  {
    hide Filtered, Unfiltered;
    var row := Unfiltered(line, prior, n, f, k);
    if k > 0 {
      UnfilteredIs(line, prior, n, f, k - 1);
      UnfilteredStep(line, prior, n, f, k);
      FilteredFront(row, prior[..k], n, f);
      assert prior[..k][..k - 1] == prior[..k - 1];
      assert line[..k] == line[..k - 1] + [line[k - 1]];
    } else {
      assert row == [] && Filtered(row, prior[..k], n, f) == [];
    }
  }

  lemma UnfilteredStep(line: seq<byte>, prior: seq<byte>, n: nat, f: nat, k: nat)
    requires f <= 4 && |prior| == |line| && n > 0 && 0 < k <= |line|
    ensures var row := Unfiltered(line, prior, n, f, k);
      row[..k - 1] == Unfiltered(line, prior, n, f, k - 1) &&
      Wrap(row[k - 1] - Pred(f, Left(row, k - 1, n), prior[..k][k - 1], Left(prior[..k], k - 1, n))) == line[k - 1]
  {
    hide Wrap, Pred;
    var row, before := Unfiltered(line, prior, n, f, k), Unfiltered(line, prior, n, f, k - 1);
    assert Left(row, k - 1, n) == Left(before, k - 1, n) && Left(prior[..k], k - 1, n) == Left(prior, k - 1, n);
    WrapBack(line[k - 1], Pred(f, Left(row, k - 1, n), prior[k - 1], Left(prior, k - 1, n)));
  }

  // A filtered line but for its last byte.
  lemma FilteredFront(row: seq<byte>, prior: seq<byte>, n: nat, f: nat)
    requires f <= 4 && |prior| == |row| > 0 && n > 0
    ensures var k := |row| - 1;
      Filtered(row, prior, n, f) ==
        Filtered(row[..k], prior[..k], n, f) + [Wrap(row[k] - Pred(f, Left(row, k, n), prior[k], Left(prior, k, n)))]
  {
    hide Wrap, Pred;
    var k := |row| - 1;
    var all, front := Filtered(row, prior, n, f), Filtered(row[..k], prior[..k], n, f);
    forall i | 0 <= i < k ensures all[i] == front[i] {
      assert Left(row[..k], i, n) == Left(row, i, n) && Left(prior[..k], i, n) == Left(prior, i, n);
    }
  }

  lemma WrapBack(v: byte, p: int)
    ensures Wrap(Wrap(v - p) + p) == v && Wrap(Wrap(v + p) - p) == v
  {
    DivModUnique(Wrap(v - p) + p, 256, -((v - p) / 256), v);
    DivModUnique(Wrap(v + p) - p, 256, -((v + p) / 256), v);
  }

  lemma {:induction false} UnfilterFiltered(row: seq<byte>, prior: seq<byte>, n: nat, f: nat, k: nat)
    requires f <= 4 && |prior| == |row| && n > 0 && k <= |row|
    ensures Unfiltered(Filtered(row, prior, n, f), prior, n, f, k) == row[..k]
  {
    hide Wrap, Pred;
    if k > 0 {
      UnfilterFiltered(row, prior, n, f, k - 1);
      assert Left(row[..k - 1], k - 1, n) == Left(row, k - 1, n);
      WrapBack(row[k - 1], Pred(f, Left(row, k - 1, n), prior[k - 1], Left(prior, k - 1, n)));
    }
  }

  // ---------- whole images ----------

  // The lines in order, each as its filter type and its filtered bytes.
  function EncodeLines(rows: seq<seq<byte>>, filters: seq<nat>, prior: seq<byte>, n: nat): seq<byte>
    requires |filters| == |rows| && n > 0
    requires forall i :: 0 <= i < |rows| ==> filters[i] <= 4 && |rows[i]| == |prior|
  {
    if rows == [] then []
    else [filters[0]] + Filtered(rows[0], prior, n, filters[0]) + EncodeLines(rows[1..], filters[1..], rows[0], n)
  }

  // The rows of the first h lines, unless a filter type is invalid.
  datatype Decoded = Bad | Rows(bytes: seq<byte>)

  function DecodeLines(raw: seq<byte>, prior: seq<byte>, n: nat, h: nat): Decoded
    requires n > 0 && |raw| >= h * (|prior| + 1)
  {
    if h == 0 then Rows([])
    else (
      MoreLines(raw, prior, h);
      var w := |prior|;
      if raw[0] > 4 then Bad
      else
        var row := Unfiltered(raw[1..w + 1], prior, n, raw[0], w);
        match DecodeLines(raw[w + 1..], row, n, h - 1)
        case Bad => Bad
        case Rows(rest) => Rows(row + rest)
    )
  }

  lemma MoreLines(raw: seq<byte>, prior: seq<byte>, h: nat)
    requires h > 0 && |raw| >= h * (|prior| + 1)
    ensures |raw| >= |prior| + 1 && |raw| - (|prior| + 1) >= (h - 1) * (|prior| + 1)
  {}

  lemma {:induction false} EncodedLength(rows: seq<seq<byte>>, filters: seq<nat>, prior: seq<byte>, n: nat)
    requires |filters| == |rows| && n > 0
    requires forall i :: 0 <= i < |rows| ==> filters[i] <= 4 && |rows[i]| == |prior|
    ensures |EncodeLines(rows, filters, prior, n)| == |rows| * (|prior| + 1)
    decreases |rows|
  {
    if rows != [] {
      EncodedLength(rows[1..], filters[1..], rows[0], n);
      Distribute(|rows| - 1, 1, |prior| + 1);
    }
  }

  // Unfiltering gives back the rows, whatever filter each of them was written with.
  lemma {:induction false} DecodeEncoded(rows: seq<seq<byte>>, filters: seq<nat>, prior: seq<byte>, n: nat)
    requires |filters| == |rows| && n > 0
    requires forall i :: 0 <= i < |rows| ==> filters[i] <= 4 && |rows[i]| == |prior|
    ensures |EncodeLines(rows, filters, prior, n)| == |rows| * (|prior| + 1)
    ensures DecodeLines(EncodeLines(rows, filters, prior, n), prior, n, |rows|) == Rows(Concat(rows))
    decreases |rows|
  {
    hide Filtered, Unfiltered;
    EncodedLength(rows, filters, prior, n);
    if rows != [] {
      var w, raw := |prior|, EncodeLines(rows, filters, prior, n);
      var line, rest := Filtered(rows[0], prior, n, filters[0]), EncodeLines(rows[1..], filters[1..], rows[0], n);
      MoreLines(raw, prior, |rows|);
      assert raw == [filters[0]] + line + rest;
      assert raw[1..w + 1] == line && raw[w + 1..] == rest;
      UnfilterFiltered(rows[0], prior, n, filters[0], w);
      assert rows[0][..w] == rows[0];
      DecodeEncoded(rows[1..], filters[1..], rows[0], n);
    }
  }

  // ---------- lines of a decoded image ----------

  // Line j of the data, with w bytes behind each filter type.
  predicate InLine(raw: seq<byte>, w: nat, j: nat) { (j + 1) * (w + 1) <= |raw| }

  function LineType(raw: seq<byte>, w: nat, j: nat): byte
    requires InLine(raw, w, j)
  {
    LineStart(w, j);
    raw[j * (w + 1)]
  }

  function LineByte(raw: seq<byte>, w: nat, j: nat, i: nat): byte
    requires InLine(raw, w, j) && i < w
  {
    LineStart(w, j);
    raw[j * (w + 1) + 1 + i]
  }

  lemma LineStart(w: nat, j: nat)
    ensures (j + 1) * (w + 1) == j * (w + 1) + w + 1 && (j + 1) * w == j * w + w
  {
    Distribute(j, 1, w + 1);
    Distribute(j, 1, w);
  }

  // Row j of rows of w bytes.
  function RowOfImage(bytes: seq<byte>, w: nat, j: nat): (row: seq<byte>)
    requires (j + 1) * w <= |bytes|
    ensures |row| == w
  {
    LineStart(w, j);
    bytes[j * w..j * w + w]
  }

  function AboveRow(bytes: seq<byte>, prior: seq<byte>, w: nat, j: nat): (row: seq<byte>)
    requires (j + 1) * w <= |bytes| && |prior| == w
    ensures |row| == w
  {
    LineStart(w, j);
    if j == 0 then prior else RowOfImage(bytes, w, j - 1)
  }

  // Line j is row j of the image, filtered by the filter of its type.
  ghost predicate LineSays(raw: seq<byte>, bytes: seq<byte>, prior: seq<byte>, w: nat, n: nat, j: nat)
    requires |prior| == w
  {
    && InLine(raw, w, j) && (j + 1) * w <= |bytes| && LineType(raw, w, j) <= 4
    && forall i :: 0 <= i < w ==>
         FilteredBy(LineType(raw, w, j), RowOfImage(bytes, w, j), AboveRow(bytes, prior, w, j), n, i, LineByte(raw, w, j, i))
  }

  lemma LinesInside(raw: seq<byte>, w: nat, h: nat, j: nat)
    requires |raw| >= h * (w + 1) && j < h
    ensures InLine(raw, w, j)
  {
    MulMono(j + 1, h, w + 1);
  }

  // Lines behind the first one.
  lemma NextLines(raw: seq<byte>, w: nat, h: nat, j: nat)
    requires |raw| >= h * (w + 1) && 0 < j < h
    ensures InLine(raw, w, j) && w + 1 <= |raw| && InLine(raw[w + 1..], w, j - 1)
    ensures LineType(raw[w + 1..], w, j - 1) == LineType(raw, w, j)
    ensures forall i :: 0 <= i < w ==> LineByte(raw[w + 1..], w, j - 1, i) == LineByte(raw, w, j, i)
  {
    LinesInside(raw, w, h, j);
    LineStart(w, j);
    LineStart(w, j - 1);
    Distribute(j - 1, 1, w + 1);
  }

  lemma FirstSays(raw: seq<byte>, prior: seq<byte>, n: nat, row: seq<byte>, rest: seq<byte>)
    requires n > 0 && |raw| >= |prior| + 1 && raw[0] <= 4
    requires row == Unfiltered(raw[1..|prior| + 1], prior, n, raw[0], |prior|)
    ensures LineSays(raw, row + rest, prior, |prior|, n, 0)
  {
    hide Unfiltered, FilteredBy;
    var w, line := |prior|, raw[1..|prior| + 1];
    UnfilteredIs(line, prior, n, raw[0], w);
    assert prior[..w] == prior && line[..w] == line;
    assert RowOfImage(row + rest, w, 0) == row;
    forall i | 0 <= i < w ensures FilteredBy(raw[0], row, prior, n, i, LineByte(raw, w, 0, i)) {
      FilteredIs(row, prior, n, raw[0], i);
      assert LineByte(raw, w, 0, i) == line[i];
    }
  }

  lemma LaterSays(raw: seq<byte>, prior: seq<byte>, n: nat, h: nat, row: seq<byte>, rest: seq<byte>, j: nat)
    requires n > 0 && |raw| >= h * (|prior| + 1) && 0 < j < h && |row| == |prior|
    requires |prior| + 1 <= |raw| && LineSays(raw[|prior| + 1..], rest, row, |prior|, n, j - 1)
    ensures LineSays(raw, row + rest, prior, |prior|, n, j)
  {
    hide FilteredBy;
    var w, bytes := |prior|, row + rest;
    NextLines(raw, w, h, j);
    LineStart(w, j);
    LineStart(w, j - 1);
    Distribute(j - 1, 1, w);
    assert RowOfImage(bytes, w, j) == RowOfImage(rest, w, j - 1);
    AboveLater(prior, row, rest, w, j);
  }

  lemma AboveLater(prior: seq<byte>, row: seq<byte>, rest: seq<byte>, w: nat, j: nat)
    requires |prior| == |row| == w && 0 < j && j * w <= |rest|
    ensures (j + 1) * w <= |row + rest| && (j - 1 + 1) * w <= |rest|
    ensures AboveRow(row + rest, prior, w, j) == AboveRow(rest, row, w, j - 1)
  {
    LineStart(w, j);
    LineStart(w, j - 1);
    if j > 1 {
      LineStart(w, j - 2);
      Distribute(j - 2, 1, w);
      assert RowOfImage(row + rest, w, j - 1) == RowOfImage(rest, w, j - 2);
    } else {
      assert RowOfImage(row + rest, w, 0) == row;
    }
  }

  // The rows of a decoded image are those that the lines are the filtered forms of.
  lemma {:induction false} DecodedLines(raw: seq<byte>, prior: seq<byte>, n: nat, h: nat, j: nat)
    requires n > 0 && |raw| >= h * (|prior| + 1) && DecodeLines(raw, prior, n, h).Rows? && j < h
    ensures LineSays(raw, DecodeLines(raw, prior, n, h).bytes, prior, |prior|, n, j)
    decreases h
  {
    hide Unfiltered, LineSays;
    MoreLines(raw, prior, h);
    var w := |prior|;
    var row := Unfiltered(raw[1..w + 1], prior, n, raw[0], w);
    var rest := DecodeLines(raw[w + 1..], row, n, h - 1).bytes;
    if j == 0 {
      FirstSays(raw, prior, n, row, rest);
    } else {
      DecodedLines(raw[w + 1..], row, n, h - 1, j - 1);
      LaterSays(raw, prior, n, h, row, rest, j);
    }
  }

  // The filter types of the first h lines exist.
  ghost predicate TypesExist(raw: seq<byte>, w: nat, h: nat) {
    forall j :: 0 <= j < h ==> InLine(raw, w, j) && LineType(raw, w, j) <= 4
  }

  lemma FirstTypeThenRest(raw: seq<byte>, w: nat, h: nat)
    requires h > 0 && |raw| >= h * (w + 1)
    ensures w + 1 <= |raw| && (TypesExist(raw, w, h) <==> raw[0] <= 4 && TypesExist(raw[w + 1..], w, h - 1))
  {
    hide LineType, InLine;
    MulMono(1, h, w + 1);
    LinesInside(raw, w, h, 0);
    assert LineType(raw, w, 0) == raw[0] by { FirstType(raw, w); }
    if raw[0] <= 4 && TypesExist(raw[w + 1..], w, h - 1) {
      forall j | 0 <= j < h ensures InLine(raw, w, j) && LineType(raw, w, j) <= 4 {
        if j > 0 { NextLines(raw, w, h, j); }
      }
    }
    if TypesExist(raw, w, h) {
      var rest := raw[w + 1..];
      forall j | 0 <= j < h - 1 ensures InLine(rest, w, j) && LineType(rest, w, j) <= 4 {
        NextLines(raw, w, h, j + 1);
      }
    }
  }

  lemma FirstType(raw: seq<byte>, w: nat)
    requires InLine(raw, w, 0)
    ensures LineType(raw, w, 0) == raw[0]
  {}

  // Decoding fails exactly at a filter type that does not exist.
  lemma {:induction false} DecodableLines(raw: seq<byte>, prior: seq<byte>, n: nat, h: nat)
    requires n > 0 && |raw| >= h * (|prior| + 1)
    ensures DecodeLines(raw, prior, n, h).Rows? <==> TypesExist(raw, |prior|, h)
    decreases h
  {
    hide Unfiltered, TypesExist;
    if h > 0 {
      MoreLines(raw, prior, h);
      FirstTypeThenRest(raw, |prior|, h);
      if raw[0] <= 4 {
        DecodableLines(raw[|prior| + 1..], Unfiltered(raw[1..|prior| + 1], prior, n, raw[0], |prior|), n, h - 1);
      }
    } else {
      NoTypes(raw, |prior|);
    }
  }

  lemma NoTypes(raw: seq<byte>, w: nat)
    ensures TypesExist(raw, w, 0)
  {}
}

// Rebuilding the pixels of an 8-bit PNG image from its filtered lines, and the round trip.
module PngImage {
  import opened Words
  import opened PngFilter
  import opened PngLines

  // The first pixel of a line.
  function FirstCase(t: nat, r: byte, up: byte): byte
    requires t <= 6
  {
    match t
    case 2 => Wrap(r + up)
    case 3 => Wrap(r + up / 2)
    case 4 => Wrap(r + Paeth(0, up, 0))
    case _ => r
  }

  // The other pixels.
  function RestCase(t: nat, r: byte, left: byte, up: byte, upLeft: byte): byte
    requires t <= 6
  {
    match t
    case 0 => r
    case 1 => Wrap(r + left)
    case 2 => Wrap(r + up)
    case 3 => Wrap(r + (up + left) / 2)
    case 4 => Wrap(r + Paeth(left, up, upLeft))
    case 5 => Wrap(r + left / 2)
    case _ => Wrap(r + Paeth(left, 0, 0))
  }

  lemma FirstCaseIs(f: nat, j: nat, r: byte, up: byte)
    requires f <= 4 && (j == 0 ==> up == 0)
    ensures FirstCase(TypeOf(f, j), r, if ReadsUp(TypeOf(f, j)) then up else 0) == Wrap(r + Pred(f, 0, up, 0))
  {
    PaethOne(up);
  }

  lemma RestCaseIs(f: nat, j: nat, r: byte, left: byte, up: byte, upLeft: byte)
    requires f <= 4 && (j == 0 ==> up == 0 && upLeft == 0)
    ensures RestCase(TypeOf(f, j), r, left, if ReadsUp(TypeOf(f, j)) then up else 0, if ReadsUp(TypeOf(f, j)) then upLeft else 0)
      == Wrap(r + Pred(f, left, up, upLeft))
  {}

  // The row at cur has been rebuilt up to position i, and the one before it is at cur - w.
  ghost predicate Rebuilt(out: seq<byte>, cur: nat, line: seq<byte>, prior: seq<byte>, n: nat, f: nat, j: nat, i: nat)
    requires f <= 4 && |prior| == |line| && n > 0 && i <= |line|
  {
    && cur + |line| <= |out|
    && out[cur..cur + i] == Unfiltered(line, prior, n, f, i)
    && (j > 0 ==> cur >= |line| && out[cur - |line|..cur] == prior)
    && (j == 0 ==> forall k :: 0 <= k < |prior| ==> prior[k] == 0)
  }

  lemma RebuiltMore(out: seq<byte>, cur: nat, line: seq<byte>, prior: seq<byte>, n: nat, f: nat, j: nat, i: nat, v: byte)
    requires f <= 4 && |prior| == |line| && n > 0 && i < |line| && Rebuilt(out, cur, line, prior, n, f, j, i)
    requires var left, upLeft := (if i < n then 0 else out[cur + i - n]), (if i < n then 0 else prior[i - n]);
      v == Wrap(line[i] + Pred(f, left, prior[i], upLeft))
    ensures Rebuilt(out[cur + i := v], cur, line, prior, n, f, j, i + 1)
  {
    hide Pred, Wrap;
    var now := out[cur + i := v];
    var row := Unfiltered(line, prior, n, f, i);
    assert i >= n ==> row[i - n] == out[cur..cur + i][i - n];
    assert now[cur..cur + i + 1] == row + [v];
    if j > 0 { assert now[cur - |line|..cur] == out[cur - |line|..cur]; }
  }

  // Rebuilds one row at cur, from the row before it where the filter looks at that.
  method UnfilterLine(raw: seq<byte>, f: nat, j: nat, n: nat, out: array<byte>, cur: nat, ghost prior: seq<byte>)
    requires f <= 4 && |prior| == |raw| && 0 < n <= |raw| && Rebuilt(out[..], cur, raw, prior, n, f, j, 0)
    modifies out
    ensures out[..cur] == old(out[..cur]) && cur + |raw| <= out.Length
    ensures out[cur..cur + |raw|] == Unfiltered(raw, prior, n, f, |raw|)
  {
    hide Pred, Wrap, TypeOf, ReadsUp, FirstCase, RestCase, Rebuilt;
    var w, t := |raw|, TypeOf(f, j);
    NoneAbove(f, j);
    RebuiltShape(out[..], cur, raw, prior, n, f, j, 0);
    ghost var before := out[..cur];
    var i := 0;
    while i < w
      invariant i <= w && Rebuilt(out[..], cur, raw, prior, n, f, j, i) && out[..cur] == before
    {
      RebuiltShape(out[..], cur, raw, prior, n, f, j, i);
      ghost var was := out[..];
      var up := if ReadsUp(t) then out[cur + i - w] else 0;
      if i < n {
        FirstCaseIs(f, j, raw[i], prior[i]);
        RebuiltMore(was, cur, raw, prior, n, f, j, i, FirstCase(t, raw[i], up));
        out[cur + i] := FirstCase(t, raw[i], up);
      } else {
        var upLeft := if ReadsUp(t) then out[cur + i - w - n] else 0;
        RestCaseIs(f, j, raw[i], out[cur + i - n], prior[i], prior[i - n]);
        RebuiltMore(was, cur, raw, prior, n, f, j, i, RestCase(t, raw[i], out[cur + i - n], up, upLeft));
        out[cur + i] := RestCase(t, raw[i], out[cur + i - n], up, upLeft);
      }
      assert out[..] == was[cur + i := out[cur + i]];
      i := i + 1;
    }
    RebuiltShape(out[..], cur, raw, prior, n, f, j, i);
  }

  lemma RebuiltShape(out: seq<byte>, cur: nat, line: seq<byte>, prior: seq<byte>, n: nat, f: nat, j: nat, i: nat)
    requires f <= 4 && |prior| == |line| && n > 0 && i <= |line| && Rebuilt(out, cur, line, prior, n, f, j, i)
    ensures cur + |line| <= |out| && out[cur..cur + i] == Unfiltered(line, prior, n, f, i)
    ensures j > 0 ==> cur >= |line| && forall k :: 0 <= k < |line| ==> prior[k] == out[cur + k - |line|]
    ensures j == 0 ==> forall k :: 0 <= k < |prior| ==> prior[k] == 0
  {
    if j > 0 { assert forall k :: 0 <= k < |line| ==> prior[k] == out[cur - |line|..cur][k]; }
  }

  function Prepend(bytes: seq<byte>, d: Decoded): Decoded {
    match d
    case Bad => Bad
    case Rows(rest) => Rows(bytes + rest)
  }

  lemma DecodeStep(raw: seq<byte>, prior: seq<byte>, n: nat, h: nat, done: seq<byte>)
    requires n > 0 && h > 0 && |raw| >= h * (|prior| + 1)
    ensures |raw| >= |prior| + 1 && |raw| - (|prior| + 1) >= (h - 1) * (|prior| + 1)
    ensures raw[0] > 4 ==> Prepend(done, DecodeLines(raw, prior, n, h)) == Bad
    ensures raw[0] <= 4 ==>
      var w := |prior|;
      var row := Unfiltered(raw[1..w + 1], prior, n, raw[0], w);
      Prepend(done, DecodeLines(raw, prior, n, h)) == Prepend(done + row, DecodeLines(raw[w + 1..], row, n, h - 1))
  {
    hide Unfiltered;
    MoreLines(raw, prior, h);
    if raw[0] <= 4 {
      var w := |prior|;
      var row := Unfiltered(raw[1..w + 1], prior, n, raw[0], w);
      match DecodeLines(raw[w + 1..], row, n, h - 1) {
        case Bad =>
        case Rows(rest) => assert done + (row + rest) == done + row + rest;
      }
    }
  }

  lemma DecodeStart(raw: seq<byte>, prior: seq<byte>, n: nat, h: nat)
    requires n > 0 && |raw| >= h * (|prior| + 1)
    ensures Prepend([], DecodeLines(raw, prior, n, h)) == DecodeLines(raw, prior, n, h)
  {}

  // The lines behind pos are still to be decoded; the rows before cur are what the others stand for.
  ghost predicate Pending(whole: Decoded, out: seq<byte>, cur: nat, raw: seq<byte>, pos: nat, prior: seq<byte>, n: nat, j: nat, h: nat) {
    && n > 0 && cur <= |out| && pos <= |raw| && |raw| - pos >= h * (|prior| + 1)
    && (j == 0 ==> forall k :: 0 <= k < |prior| ==> prior[k] == 0)
    && (j > 0 ==> cur >= |prior| && out[cur - |prior|..cur] == prior)
    && whole == Prepend(out[..cur], DecodeLines(raw[pos..], prior, n, h))
  }

  // Decodes the line at pos into the row at cur.
  method NextRow(raw: seq<byte>, pos: nat, n: nat, j: nat, out: array<byte>, cur: nat, w: nat,
                 ghost prior: seq<byte>, ghost h: nat, ghost whole: Decoded)
    returns (ok: bool, ghost row: seq<byte>)
    requires Pending(whole, out[..], cur, raw, pos, prior, n, j, h) && h > 0 && 0 < n <= w == |prior| && cur + w <= out.Length
    modifies out
    ensures !ok ==> whole == Bad
    ensures ok ==> |row| == w && Pending(whole, out[..], cur + w, raw, pos + w + 1, row, n, j + 1, h - 1)
  {
    hide DecodeLines, Unfiltered, Prepend;
    DecodeStep(raw[pos..], prior, n, h, out[..cur]);
    var filter := raw[pos];
    ok, row := filter <= 4, [];
    if ok {
      var line := raw[pos + 1..pos + 1 + w];
      assert line == raw[pos..][1..w + 1] && raw[pos..][w + 1..] == raw[pos + w + 1..];
      UnfilterLine(line, filter, j, n, out, cur, prior);
      row := Unfiltered(line, prior, n, filter, w);
      assert out[..cur + w] == out[..cur] + out[cur..cur + w];
    }
  }

  lemma Start(raw: seq<byte>, w: nat, n: nat, y: nat, out: seq<byte>)
    requires n > 0 && |raw| >= (w + 1) * y
    ensures |raw| >= y * (w + 1)
    ensures Pending(DecodeLines(raw, Zeros(w), n, y), out, 0, raw, 0, Zeros(w), n, 0, y)
  {
    assert raw[0..] == raw && out[..0] == [];
    DecodeStart(raw, Zeros(w), n, y);
  }

  lemma Finished(whole: Decoded, out: seq<byte>, cur: nat, raw: seq<byte>, pos: nat, prior: seq<byte>, n: nat, j: nat)
    requires Pending(whole, out, cur, raw, pos, prior, n, j, 0) && cur == |out|
    ensures whole == Rows(out)
  {
    assert out[..cur] == out;
  }

  lemma RowRoom(j: nat, y: nat, w: nat)
    requires j < y
    ensures j * w + w == (j + 1) * w <= w * y && j * (w + 1) + w + 1 == (j + 1) * (w + 1)
  {
    MulMono(j + 1, y, w);
  }

  // The pixels of x by y n-byte pixels that the lines in raw stand for; fails if raw is too short for
  // them or a line has an invalid filter type.
  method CreateImage(raw: seq<byte>, n: nat, x: nat, y: nat) returns (ok: bool, out: array<byte>)
    requires n > 0 && x > 0
    ensures ok <==> |raw| >= y * (x * n + 1) && DecodeLines(raw, Zeros(x * n), n, y).Rows?
    ensures ok ==> DecodeLines(raw, Zeros(x * n), n, y) == Rows(out[..])
    ensures ok <==> |raw| >= y * (x * n + 1) && TypesExist(raw, x * n, y)
    ensures ok ==> forall j: nat :: j < y ==> LineSays(raw, out[..], Zeros(x * n), x * n, n, j)
  {
    hide DecodeLines, Zeros, Pending, TypesExist, LineSays;
    var w: nat := x * n;
    MulMono(1, x, n);
    out := new byte[w * y](i => 0);
    ok := |raw| >= (w + 1) * y;
    if ok {
      DecodableLines(raw, Zeros(w), n, y);
      ghost var whole := DecodeLines(raw, Zeros(w), n, y);
      ghost var prior := Zeros(w);
      Start(raw, w, n, y, out[..]);
      var j := 0;
      while j < y && ok
        invariant j <= y && |prior| == w
        invariant ok ==> Pending(whole, out[..], j * w, raw, j * (w + 1), prior, n, j, y - j)
        invariant !ok ==> whole == Bad
      {
        RowRoom(j, y, w);
        ok, prior := NextRow(raw, j * (w + 1), n, j, out, j * w, w, prior, y - j, whole);
        if !ok { prior := Zeros(w); }
        j := j + 1;
      }
      if ok {
        assert y * w == w * y;
        Finished(whole, out[..], j * w, raw, j * (w + 1), prior, n, j);
        forall k: nat | k < y ensures LineSays(raw, out[..], Zeros(w), w, n, k) { DecodedLines(raw, Zeros(w), n, y, k); }
      }
    }
  }
}

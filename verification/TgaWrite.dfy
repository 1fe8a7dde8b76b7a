// Writing TGA images with run-length packets.
module TgaWrite {
  import opened Words
  import opened Sequences
  import opened TgaRle

  // The bytes of a pixel in the file: blue, green, red, with alpha last.
  function FileBytes(d: Pixel): (b: Pixel)
    requires 1 <= |d| <= 4
    ensures |b| == |d|
  {
    match |d|
    case 1 => [d[0]]
    case 2 => [d[0], d[1]]
    case 3 => [d[2], d[1], d[0]]
    case _ => [d[2], d[1], d[0], d[3]]
  }

  function FilePixels(row: seq<Pixel>, comp: nat): (s: seq<Pixel>)
    requires 1 <= comp <= 4 && AllSized(row, comp)
    ensures |s| == |row| && AllSized(s, comp) && forall i :: 0 <= i < |row| ==> s[i] == FileBytes(row[i])
  {
    seq(|row|, i requires 0 <= i < |row| => FileBytes(row[i]))
  }

  function UChar(v: int): byte { v % 256 }

  // The packet at position i: as many equal pixels as follow, up to 128, if the next one is equal; else
  // pixels up to the first one that is equal to the one two places before it, which is left out with the
  // one between.
  ghost predicate Packs(row: seq<Pixel>, i: nat, len: nat, diff: bool)
    requires i < |row|
  {
    && 1 <= len <= 128 && i + len <= |row|
    && (diff <==> i + 1 == |row| || row[i] != row[i + 1])
    && (!diff ==>
        && (forall k :: i <= k < i + len ==> row[k] == row[i])
        && (len == 128 || i + len == |row| || row[i + len] != row[i]))
    && (diff ==>
        && (forall k :: i + 2 <= k < i + len ==> row[k] != row[k - 2])
        && (len == 128 || i + len == |row| || (i + len + 1 < |row| && row[i + len + 1] == row[i + len - 1])))
  }

  // Packet p is packed from the pixels from a to b.
  ghost predicate PackedAt(row: seq<Pixel>, comp: nat, p: Packet, a: nat, b: nat)
    requires 1 <= comp <= 4 && AllSized(row, comp)
  {
    a < b <= |row| && Packs(row, a, b - a, p.Raw?) && PacketData(p) == FilePixels(row, comp)[a..b]
  }

  // These packets are packed from the first i pixels of a row, one after the other.
  ghost predicate RowPacked(row: seq<Pixel>, comp: nat, ps: seq<Packet>, at: seq<nat>, i: nat)
    requires 1 <= comp <= 4 && AllSized(row, comp)
  {
    && |at| == |ps| + 1 && at[0] == 0 && at[|ps|] == i <= |row|
    && forall k :: 0 <= k < |ps| ==> PackedAt(row, comp, ps[k], at[k], at[k + 1])
  }

  ghost predicate IsPacked(row: seq<Pixel>, comp: nat, ps: seq<Packet>)
    requires 1 <= comp <= 4 && AllSized(row, comp)
  {
    exists at :: RowPacked(row, comp, ps, at, |row|)
  }

  lemma OneMorePacked(row: seq<Pixel>, comp: nat, ps: seq<Packet>, at: seq<nat>, i: nat, len: nat, p: Packet)
    requires 1 <= comp <= 4 && AllSized(row, comp) && RowPacked(row, comp, ps, at, i) && i < |row|
    requires Packs(row, i, len, p.Raw?) && i + len <= |row| && PacketData(p) == FilePixels(row, comp)[i..i + len]
    ensures RowPacked(row, comp, ps + [p], at + [i + len], i + len)
  {
    hide PackedAt;
    assert PackedAt(row, comp, p, i, i + len) by { ThisPacked(row, comp, i, len, p); }
    var more, ats := ps + [p], at + [i + len];
    forall k | 0 <= k < |more|
      ensures PackedAt(row, comp, more[k], ats[k], ats[k + 1])
    {
      if k < |ps| { assert more[k] == ps[k] && ats[k] == at[k] && ats[k + 1] == at[k + 1]; }
    }
  }

  lemma ThisPacked(row: seq<Pixel>, comp: nat, i: nat, len: nat, p: Packet)
    requires 1 <= comp <= 4 && AllSized(row, comp) && i < |row| && Packs(row, i, len, p.Raw?) && i + len <= |row|
    requires PacketData(p) == FilePixels(row, comp)[i..i + len]
    ensures i + len <= |row| && PackedAt(row, comp, p, i, i + len)
  {
    hide FilePixels, PacketData;
  }

  lemma PackedLength(row: seq<Pixel>, i: nat, len: nat, diff: bool)
    requires i < |row| && Packs(row, i, len, diff)
    ensures 1 <= len <= 128 && i + len <= |row|
    ensures !diff ==> forall k :: i <= k < i + len ==> row[k] == row[i]
  {}

  // The length of the packet at position i of the row, and whether its pixels differ.
  method NextPacket(row: seq<Pixel>, i: nat) returns (len: nat, diff: bool)
    requires i < |row|
    ensures 1 <= len <= 128 && i + len <= |row|
    ensures Packs(row, i, len, diff)
  {
    len, diff := 1, true;
    if i < |row| - 1 {
      len := len + 1;
      diff := row[i] != row[i + 1];
      if diff {
        var prev, k := i, i + 2;
        while k < |row| && len < 128
          invariant i + 2 <= k <= |row| && len == k - i <= 128 && prev == k - 2
          invariant forall m :: i + 2 <= m < k ==> row[m] != row[m - 2]
        {
          if row[prev] != row[k] {
            prev := prev + 1;
            len := len + 1;
          } else {
            len := len - 1;
            break;
          }
          k := k + 1;
        }
      } else {
        var k := i + 2;
        while k < |row| && len < 128
          invariant i + 2 <= k <= |row| && len == k - i <= 128
          invariant forall m :: i <= m < k ==> row[m] == row[i]
        {
          if row[i] == row[k] {
            len := len + 1;
          } else {
            break;
          }
          k := k + 1;
        }
      }
    }
  }

  // The packets ps have been written, for these pixels.
  ghost predicate Progress(pixels: seq<Pixel>, comp: nat, out: seq<byte>, ps: seq<Packet>) {
    AllWellFormed(ps, comp) && out == Written(ps, comp) && pixels == Expanded(ps)
  }

  lemma MoreProgress(pixels: seq<Pixel>, comp: nat, out: seq<byte>, ps: seq<Packet>, p: Packet)
    requires Progress(pixels, comp, out, ps) && WellFormed(p, comp)
    ensures Progress(pixels + PacketData(p), comp, out + PacketBytes(p, comp), ps + [p])
  {
    Snoc(ps, p, comp);
  }

  // The pixels one after the other.
  method WritePixels(pxs: seq<Pixel>, comp: nat) returns (out: seq<byte>)
    requires 1 <= comp <= 4 && AllSized(pxs, comp)
    ensures out == Concat(FilePixels(pxs, comp))
  {
    out := [];
    ghost var file := FilePixels(pxs, comp);
    for k := 0 to |pxs|
      invariant out == Concat(file[..k])
    {
      out := out + FileBytes(pxs[k]);
      ConcatSnoc(file[..k], file[k]);
      assert file[..k + 1] == file[..k] + [file[k]];
    }
    assert file[..|pxs|] == file;
  }

  lemma RawPixels(row: seq<Pixel>, comp: nat, i: nat, len: nat)
    requires 1 <= comp <= 4 && AllSized(row, comp) && i + len <= |row|
    ensures FilePixels(row[i..i + len], comp) == FilePixels(row, comp)[i..i + len]
  {
    hide FileBytes, FilePixels;
    var a, b := FilePixels(row[i..i + len], comp), FilePixels(row, comp)[i..i + len];
    forall k | 0 <= k < len ensures a[k] == b[k] {
      assert row[i..i + len][k] == row[i + k];
    }
  }

  lemma RunPixels(row: seq<Pixel>, comp: nat, i: nat, len: nat)
    requires 1 <= comp <= 4 && AllSized(row, comp) && 1 <= len && i + len <= |row|
    requires forall k :: i <= k < i + len ==> row[k] == row[i]
    ensures Repeat(len, FileBytes(row[i])) == FilePixels(row, comp)[i..i + len]
  {
    hide FileBytes, FilePixels;
    var b := FilePixels(row, comp)[i..i + len];
    forall k | 0 <= k < len ensures b[k] == FileBytes(row[i]) {
      assert row[i + k] == row[i];
    }
  }

  // A packet with all of the pixels, or one that repeats the first of them.
  method WritePacket(row: seq<Pixel>, comp: nat, i: nat, len: nat, diff: bool) returns (bytes: seq<byte>, ghost p: Packet)
    requires 1 <= comp <= 4 && AllSized(row, comp) && 1 <= len <= 128 && i + len <= |row|
    requires !diff ==> forall k :: i <= k < i + len ==> row[k] == row[i]
    ensures WellFormed(p, comp) && PacketBytes(p, comp) == bytes && PacketData(p) == FilePixels(row, comp)[i..i + len]
    ensures p.Raw? <==> diff
  {
    hide FileBytes, Concat, FilePixels;
    if diff {
      bytes := WritePixels(row[i..i + len], comp);
      bytes := [UChar(len - 1)] + bytes;
      p := Raw(FilePixels(row[i..i + len], comp));
      RawPixels(row, comp, i, len);
    } else {
      bytes := [UChar(len - 129)] + FileBytes(row[i]);
      p := Run(len, FileBytes(row[i]));
      assert UChar(len - 129) == len + 127;
      RunPixels(row, comp, i, len);
    }
  }

  // Appends one row as packets that do not go beyond it.
  method WriteRow(row: seq<Pixel>, comp: nat, out0: seq<byte>, ghost done: seq<Pixel>, ghost ps0: seq<Packet>)
    returns (out: seq<byte>, ghost ps: seq<Packet>)
    requires 1 <= comp <= 4 && AllSized(row, comp) && Progress(done, comp, out0, ps0)
    ensures Progress(done + FilePixels(row, comp), comp, out, ps0 + ps) && IsPacked(row, comp, ps)
  {
    hide Progress, PacketBytes, FileBytes, Packs, RowPacked, PacketData, WellFormed, FilePixels, Written;
    ghost var file := FilePixels(row, comp);
    ghost var at: seq<nat> := [0];
    out, ps := out0, [];
    var i := 0;
    assert done + file[..0] == done && ps0 + [] == ps0;
    NonePacked(row, comp);
    while i < |row|
      invariant i <= |row| && Progress(done + file[..i], comp, out, ps0 + ps) && RowPacked(row, comp, ps, at, i)
    {
      var len, diff := NextPacket(row, i);
      PackedLength(row, i, len, diff);
      var bytes;
      ghost var p;
      bytes, p := WritePacket(row, comp, i, len, diff);
      MoreProgress(done + file[..i], comp, out, ps0 + ps, p);
      OneMorePacked(row, comp, ps, at, i, len, p);
      Joins(done, file, i, len);
      Regrouped(ps0, ps, p);
      out, ps, at := out + bytes, ps + [p], at + [i + len];
      i := i + len;
    }
    assert file[..i] == file;
  }

  lemma Joins(done: seq<Pixel>, file: seq<Pixel>, i: nat, len: nat)
    requires i + len <= |file|
    ensures done + file[..i] + file[i..i + len] == done + file[..i + len]
  {}

  lemma Regrouped(a: seq<Packet>, b: seq<Packet>, p: Packet)
    ensures a + b + [p] == a + (b + [p])
  {}

  lemma NonePacked(row: seq<Pixel>, comp: nat)
    requires 1 <= comp <= 4 && AllSized(row, comp)
    ensures RowPacked(row, comp, [], [0], 0)
  {}

  // ---------- the image ----------

  // The row of the image that is written as the t-th.
  function RowAt(t: nat, y: nat, flip: bool): (j: nat)
    requires t < y
    ensures j < y
  {
    if flip then t else y - 1 - t
  }

  function Row(data: seq<Pixel>, x: nat, j: nat): (r: seq<Pixel>)
    requires (j + 1) * x <= |data|
    ensures |r| == x
  {
    RowBounds(x, j);
    data[j * x..j * x + x]
  }

  lemma RowBounds(x: nat, j: nat)
    ensures 0 <= j * x <= j * x + x == (j + 1) * x
  {}

  lemma RowInside(x: nat, y: nat, j: nat)
    requires j < y
    ensures (j + 1) * x <= x * y
  {
    MulMono(j + 1, y, x);
  }

  lemma RowSized(data: seq<Pixel>, x: nat, j: nat, comp: nat)
    requires (j + 1) * x <= |data| && AllSized(data, comp)
    ensures AllSized(Row(data, x, j), comp)
  {
    RowBounds(x, j);
  }

  function FileRow(data: seq<Pixel>, x: nat, y: nat, comp: nat, j: nat): (s: seq<Pixel>)
    requires j < y && |data| == x * y && 1 <= comp <= 4 && AllSized(data, comp)
  {
    RowInside(x, y, j);
    RowSized(data, x, j, comp);
    FilePixels(Row(data, x, j), comp)
  }

  // The pixels of the first t rows written, as they stand in the file.
  function FileRows(data: seq<Pixel>, x: nat, y: nat, comp: nat, flip: bool, t: nat): (s: seq<Pixel>)
    requires t <= y && |data| == x * y && 1 <= comp <= 4 && AllSized(data, comp)
  {
    if t == 0 then []
    else
      FileRows(data, x, y, comp, flip, t - 1) + FileRow(data, x, y, comp, RowAt(t - 1, y, flip))
  }

  function Le16(v: nat): seq<byte> { [v % 256, v / 256 % 256] }

  // No identification or palette, a run-length coded image type, the size, and the bits of a pixel.
  function Header(x: nat, y: nat, comp: nat): (h: seq<byte>)
    requires 1 <= comp <= 4
    ensures |h| == 18
  {
    var hasAlpha := comp == 2 || comp == 4;
    var colorbytes := if hasAlpha then comp - 1 else comp;
    var format := if colorbytes < 2 then 3 else 2;
    [0, 0, format + 8] + Le16(0) + Le16(0) + [0] + Le16(0) + Le16(0) + Le16(x) + Le16(y) + [comp * 8, if hasAlpha then 8 else 0]
  }

  // The packets are those of the first t rows, in the order of the file, none of which goes on in the next.
  ghost predicate RowsPacked(data: seq<Pixel>, x: nat, y: nat, comp: nat, flip: bool, t: nat, ps: seq<Packet>)
    requires t <= y && |data| == x * y && 1 <= comp <= 4 && AllSized(data, comp)
  {
    if t == 0 then ps == []
    else
      var j := RowAt(t - 1, y, flip);
      RowInside(x, y, j);
      RowSized(data, x, j, comp);
      exists k :: 0 <= k <= |ps| && IsPacked(Row(data, x, j), comp, ps[k..]) && RowsPacked(data, x, y, comp, flip, t - 1, ps[..k])
  }

  method WriteTga(data: seq<Pixel>, x: nat, y: nat, comp: nat, flip: bool) returns (out: seq<byte>, ghost ps: seq<Packet>)
    requires 1 <= comp <= 4 && |data| == x * y && AllSized(data, comp)
    ensures AllWellFormed(ps, comp) && out == Header(x, y, comp) + Written(ps, comp)
    ensures Expanded(ps) == FileRows(data, x, y, comp, flip, y)
    ensures RowsPacked(data, x, y, comp, flip, y, ps)
    ensures Load(out, 18, 0, false, [], |FileRows(data, x, y, comp, flip, y)|, comp) == FileRows(data, x, y, comp, flip, y)
  {
    hide Load, WellFormed, AllWellFormed, Written, Expanded, FilePixels, Header, Progress, Row, RowAt, IsPacked;
    ps := [];
    var body := [];
    StartProgress(comp);
    var t := 0;
    while t < y
      invariant t <= y && Progress(FileRows(data, x, y, comp, flip, t), comp, body, ps)
      invariant RowsPacked(data, x, y, comp, flip, t, ps)
    {
      var j := RowAt(t, y, flip);
      RowInside(x, y, j);
      RowSized(data, x, j, comp);
      ghost var now;
      body, now := WriteRow(Row(data, x, j), comp, body, FileRows(data, x, y, comp, flip, t), ps);
      assert (ps + now)[..|ps|] == ps && (ps + now)[|ps|..] == now;
      ps := ps + now;
      t := t + 1;
    }
    ProgressMeans(FileRows(data, x, y, comp, flip, y), comp, body, ps);
    out := Header(x, y, comp) + body;
    assert out[18..18 + |body|] == body;
    LoadWritten(out, 18, ps, [], comp);
  }

  lemma ProgressMeans(pixels: seq<Pixel>, comp: nat, out: seq<byte>, ps: seq<Packet>)
    requires Progress(pixels, comp, out, ps)
    ensures AllWellFormed(ps, comp) && out == Written(ps, comp) && pixels == Expanded(ps)
  {}

  lemma StartProgress(comp: nat)
    ensures Progress([], comp, [], [])
  {}
}

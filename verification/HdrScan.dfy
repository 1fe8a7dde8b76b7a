// Whole scanlines of Radiance HDR images: a header and the four components one after the other.
module HdrScan {
  import opened Words
  import opened ImageSource
  import opened HdrRle

  // The lines of the components from one on, each behind the one before.
  datatype Scan = Lines(lines: seq<seq<byte>>, end: nat) | Flat | BadScan | Endless

  function ReadLines(input: seq<byte>, pos: nat, width: nat, k: nat): Scan
    decreases k
  {
    if k == 0 then Lines([], pos)
    else match ReadLine(input, pos, width)
      case Corrupt => BadScan
      case Hangs => Endless
      case Line(bytes, p) =>
        match ReadLines(input, p, width, k - 1)
        case Lines(rest, end) => Lines([bytes] + rest, end)
        case other => other
  }

  function ReadScan(input: seq<byte>, pos: nat, width: nat): Scan {
    var p1 := Advance(input, pos, 1);
    var p2 := Advance(input, p1, 1);
    var p3 := Advance(input, p2, 1);
    var c1, c2, hi, lo := Get8(input, pos), Get8(input, p1), Get8(input, p2), Get8(input, p3);
    if c1 != 2 || c2 != 2 || hi >= 128 then Flat
    else if hi * 256 + lo != width then BadScan
    else ReadLines(input, Advance(input, p3, 1), width, 4)
  }

  // ---------- writing ----------

  function Joined(packets: seq<seq<Packet>>): seq<byte>
    requires forall c :: 0 <= c < |packets| ==> AllWellFormed(packets[c])
  {
    if packets == [] then [] else Written(packets[0]) + Joined(packets[1..])
  }

  lemma {:induction false} JoinedSnoc(packets: seq<seq<Packet>>, ps: seq<Packet>)
    requires AllWellFormed(ps) && forall c :: 0 <= c < |packets| ==> AllWellFormed(packets[c])
    ensures Joined(packets + [ps]) == Joined(packets) + Written(ps)
  {
    hide AllWellFormed, Written;
    if packets == [] {
      assert (packets + [ps])[1..] == [];
    } else {
      JoinedSnoc(packets[1..], ps);
      assert (packets + [ps])[1..] == packets[1..] + [ps];
    }
  }

  // The packets expand to the four component lines.
  ghost predicate Coded(packets: seq<seq<Packet>>, lines: seq<seq<byte>>) {
    |packets| <= |lines| && forall c :: 0 <= c < |packets| ==> AllWellFormed(packets[c]) && Expanded(packets[c]) == lines[c]
  }

  // scratch holds the four components of a line one after the other.
  method WriteScanline(scratch: seq<byte>, width: nat) returns (out: seq<byte>, ghost packets: seq<seq<Packet>>)
    requires 8 <= width < 32768 && |scratch| == 4 * width
    ensures |packets| == 4 && Coded(packets, Components(scratch, width))
    ensures forall c :: 0 <= c < 4 ==> IsChosen(Components(scratch, width)[c], packets[c])
    ensures out == [2, 2, width / 256, width % 256] + Joined(packets)
    ensures ReadScan(out, 0, width) == Lines(Components(scratch, width), |out|)
  {
    hide ReadScan, Components, Expanded, Written, Joined, AllWellFormed, IsChosen;
    out, packets := WriteComponents(scratch, width);
    assert out[0..|out|] == out;
    ScanRoundTrip(scratch, width, packets, out, 0);
  }

  method WriteComponents(scratch: seq<byte>, width: nat) returns (out: seq<byte>, ghost packets: seq<seq<Packet>>)
    requires 8 <= width < 32768 && |scratch| == 4 * width
    ensures |packets| == 4 && Coded(packets, Components(scratch, width))
    ensures forall c :: 0 <= c < 4 ==> IsChosen(Components(scratch, width)[c], packets[c])
    ensures out == [2, 2, width / 256, width % 256] + Joined(packets)
  {
    hide AllWellFormed, Expanded, Written, Joined, ReadLine, Coded, Component, Components, IsChosen;
    ghost var lines := Components(scratch, width);
    out, packets := [2, 2, width / 256, width % 256], [];
    ghost var head := out;
    NothingJoined(lines);
    for c := 0 to 4
      invariant |packets| == c && Coded(packets, lines) && CodedWell(packets)
      invariant forall k :: 0 <= k < c ==> IsChosen(lines[k], packets[k])
      invariant out == head + Joined(packets)
    {
      var bytes;
      ghost var ps;
      bytes, ps := WriteComponent(Component(scratch, width, c));
      CodedMore(packets, lines, ps);
      out := out + bytes;
      packets := packets + [ps];
    }
  }

  ghost predicate CodedWell(packets: seq<seq<Packet>>) {
    forall c :: 0 <= c < |packets| ==> AllWellFormed(packets[c])
  }

  lemma NothingJoined(lines: seq<seq<byte>>)
    ensures Joined([]) == [] && Coded([], lines)
  {}

  lemma CodedMore(packets: seq<seq<Packet>>, lines: seq<seq<byte>>, ps: seq<Packet>)
    requires Coded(packets, lines) && CodedWell(packets) && |packets| < |lines|
    requires AllWellFormed(ps) && Expanded(ps) == lines[|packets|]
    ensures Coded(packets + [ps], lines) && CodedWell(packets + [ps])
    ensures Joined(packets + [ps]) == Joined(packets) + Written(ps)
  {
    hide AllWellFormed, Expanded, Written, Joined;
    JoinedSnoc(packets, ps);
  }

  function Component(scratch: seq<byte>, width: nat, c: nat): seq<byte>
    requires |scratch| == 4 * width && c < 4
  {
    scratch[width * c..width * c + width]
  }

  function Components(scratch: seq<byte>, width: nat): (lines: seq<seq<byte>>)
    requires |scratch| == 4 * width
    ensures |lines| == 4 && forall c :: 0 <= c < 4 ==> lines[c] == Component(scratch, width, c)
  {
    seq(4, c requires 0 <= c < 4 => Component(scratch, width, c))
  }

  // ---------- the round trip ----------

  lemma CodedParts(packets: seq<seq<Packet>>, lines: seq<seq<byte>>)
    requires Coded(packets, lines) && packets != []
    ensures AllWellFormed(packets[0]) && Expanded(packets[0]) == lines[0] && Coded(packets[1..], lines[1..])
    ensures forall c :: 0 <= c < |packets[1..]| ==> AllWellFormed(packets[1..][c])
    ensures forall c :: 0 <= c < |packets| ==> AllWellFormed(packets[c])
  {
    hide AllWellFormed, Expanded;
  }

  lemma {:induction false} ReadJoined(input: seq<byte>, pos: nat, width: nat, packets: seq<seq<Packet>>, lines: seq<seq<byte>>)
    requires |packets| == |lines| && CodedWell(packets) && Coded(packets, lines) && StandsAt(Joined(packets), input, pos)
    requires forall c :: 0 <= c < |lines| ==> |lines[c]| == width
    ensures ReadLines(input, pos, width, |lines|) == Lines(lines, pos + |Joined(packets)|)
    decreases |packets|
  {
    hide AllWellFormed, Expanded, Written, ReadLine, StandsAt, Coded;
    if packets != [] {
      CodedParts(packets, lines);
      StandsBoth(Written(packets[0]), Joined(packets[1..]), input, pos);
      ReadWritten(input, pos, packets[0]);
      ReadJoined(input, pos + |Written(packets[0])|, width, packets[1..], lines[1..]);
      assert lines == [lines[0]] + lines[1..];
    }
  }

  // A written scanline reads back as its four components, wherever it stands.
  lemma ScanRoundTrip(scratch: seq<byte>, width: nat, packets: seq<seq<Packet>>, input: seq<byte>, pos: nat)
    requires 8 <= width < 32768 && |scratch| == 4 * width
    requires |packets| == 4 && Coded(packets, Components(scratch, width))
    requires StandsAt([2, 2, width / 256, width % 256] + Joined(packets), input, pos)
    ensures ReadScan(input, pos, width) == Lines(Components(scratch, width), pos + 4 + |Joined(packets)|)
  {
    hide Joined, ReadLines, AllWellFormed, Expanded;
    var head: seq<byte> := [2, 2, width / 256, width % 256];
    StandsBoth(head, Joined(packets), input, pos);
    BytesAt(head, input, pos);
    ReadJoined(input, pos + 4, width, packets, Components(scratch, width));
    assert head[0] == 2 && head[1] == 2 && head[2] == width / 256 && head[3] == width % 256;
  }

  // ---------- the reader ----------

  // Component k of the pixels read so far is as listed, and no other component has changed.
  ghost predicate Column(scanline: seq<byte>, before: seq<byte>, k: nat, bytes: seq<byte>) {
    && |scanline| == |before| && 4 * |bytes| <= |scanline| && k < 4
    && (forall i :: 0 <= i < |bytes| ==> scanline[i * 4 + k] == bytes[i])
    && (forall x :: 0 <= x < |scanline| && x % 4 != k ==> scanline[x] == before[x])
  }

  lemma ColumnMore(scanline: seq<byte>, before: seq<byte>, k: nat, bytes: seq<byte>, v: byte)
    requires Column(scanline, before, k, bytes) && 4 * |bytes| + 4 <= |scanline|
    ensures Column(scanline[|bytes| * 4 + k := v], before, k, bytes + [v])
  {}

  // Stores count bytes of component k from pixel i on: one value, or the next bytes of the input.
  method Store(s: Source, run: bool, value: byte, count: nat, scanline: array<byte>, i0: nat, k: nat, ghost before: seq<byte>, ghost bytes: seq<byte>)
    requires Column(scanline[..], before, k, bytes) && 4 * (|bytes| + count) <= scanline.Length && i0 == |bytes|
    modifies s, scanline
    ensures Column(scanline[..], before, k, bytes + if run then Repeat(count, value) else Taken(s.bytes, old(s.pos), count))
    ensures s.pos == if run then old(s.pos) else Advance(s.bytes, old(s.pos), count)
    ensures count == 0 ==> scanline[..] == old(scanline[..])
  {
    hide Column;
    ghost var now := bytes;
    ghost var more := if run then Repeat(count, value) else Taken(s.bytes, s.pos, count);
    ghost var start := s.pos;
    ColumnShape(scanline[..], before, k, bytes);
    assert bytes + more[..0] == bytes;
    var z, i := 0, i0;
    while z < count
      invariant z <= count && i == |bytes| + z && k < 4
      invariant now == bytes + more[..z] && Column(scanline[..], before, k, now)
      invariant s.pos == if run then start else Advance(s.bytes, start, z)
      invariant z == 0 ==> scanline[..] == old(scanline[..])
    {
      var v := value;
      if !run { v := s.Get(); }
      ghost var was := scanline[..];
      ColumnMore(was, before, k, now, v);
      scanline[i * 4 + k] := v;
      assert scanline[..] == was[|now| * 4 + k := v];
      assert bytes + more[..z + 1] == now + [v];
      now := now + [v];
      z, i := z + 1, i + 1;
    }
    assert more[..count] == more;
  }

  lemma ColumnShape(scanline: seq<byte>, before: seq<byte>, k: nat, bytes: seq<byte>)
    requires Column(scanline, before, k, bytes)
    ensures k < 4 && |scanline| == |before|
  {}

  datatype Status = Done | Stopped(why: Scan)

  // Reads component k of a scanline.
  method ReadComponent(s: Source, width: nat, scanline: array<byte>, k: nat) returns (r: Status)
    requires k < 4 && scanline.Length == 4 * width
    modifies s, scanline
    ensures match ReadLine(s.bytes, old(s.pos), width)
      case Line(bytes, end) => r == Done && s.pos == end && Column(scanline[..], old(scanline[..]), k, bytes)
      case Corrupt => r == Stopped(BadScan)
      case Hangs => r == Stopped(Endless)
    ensures r == Stopped(Endless) <==> exists ps :: RunsDry(s.bytes, old(s.pos), width, ps)
  {
    hide Column, ReadLine, Repeat, Taken, RunsDry, Fills, Overruns;
    LineIff(s.bytes, s.pos, width);
    ghost var before, whole, bytes := scanline[..], ReadLine(s.bytes, s.pos, width), [];
    NoColumn(before, k);
    PrependNone(whole);
    var i := 0;
    while width - i > 0
      invariant i == |bytes| <= width && Column(scanline[..], before, k, bytes)
      invariant whole == Prepend(bytes, ReadLine(s.bytes, s.pos, width - i))
      decreases |s.bytes| - s.pos
    {
      if s.pos >= |s.bytes| {
        NothingMore(s.bytes, s.pos, width - i, bytes);
        return Stopped(Endless);
      }
      var ok;
      ghost var more;
      ok, i, more := ReadPackets(s, width, scanline, i, k, before, bytes);
      if !ok { return Stopped(BadScan); }
      bytes := bytes + more;
    }
    ReadLineEnd(s.bytes, s.pos, bytes);
    r := Done;
  }

  // One round of the reading loop. At the end of the input it changes nothing, so that the loop never
  // ends from there.
  method ReadPackets(s: Source, width: nat, scanline: array<byte>, i0: nat, k: nat, ghost before: seq<byte>, ghost bytes: seq<byte>)
    returns (ok: bool, i: nat, ghost more: seq<byte>)
    requires scanline.Length == 4 * width && i0 == |bytes| < width && Column(scanline[..], before, k, bytes)
    modifies s, scanline
    ensures ok ==> i == i0 + |more| <= width && Column(scanline[..], before, k, bytes + more)
    ensures old(s.pos) < |s.bytes| ==> old(s.pos) < s.pos
    ensures old(s.pos) < |s.bytes| ==>
      Prepend(bytes, ReadLine(s.bytes, old(s.pos), width - i0)) ==
      if ok then Prepend(bytes + more, ReadLine(s.bytes, s.pos, width - i)) else Corrupt
    ensures old(s.pos) >= |s.bytes| ==> ok && i == i0 && s.pos == old(s.pos) && scanline[..] == old(scanline[..])
  {
    hide Column, Prepend, ReadLine;
    var nleft := width - i0;
    ReadLineStep(s.bytes, s.pos, nleft, bytes);
    ColumnShape(scanline[..], before, k, bytes);
    i, more := i0, [];
    var count := s.Get();
    var run := count > 128;
    var value := 0;
    if run {
      value := s.Get();
      count := count - 128;
    }
    if count > nleft { return false, i, more; }
    more := if run then Repeat(count, value) else Taken(s.bytes, s.pos, count);
    Store(s, run, value, count, scanline, i, k, before, bytes);
    i := i + count;
    ok := true;
  }

  lemma NothingMore(input: seq<byte>, pos: nat, nleft: nat, done: seq<byte>)
    requires nleft > 0 && pos >= |input|
    ensures Prepend(done, ReadLine(input, pos, nleft)) == Hangs
  {}

  lemma NoColumn(before: seq<byte>, k: nat)
    requires k < 4
    ensures Column(before, before, k, [])
  {}

  lemma PrependNone(o: Outcome)
    ensures Prepend([], o) == o
  {}

  lemma ReadLineEnd(input: seq<byte>, pos: nat, bytes: seq<byte>)
    ensures Prepend(bytes, ReadLine(input, pos, 0)) == Line(bytes, pos)
  {}

  lemma ReadLineStep(input: seq<byte>, pos: nat, nleft: nat, done: seq<byte>)
    requires nleft > 0
    ensures pos < |input| ==>
      var run := input[pos] > 128;
      var count := if run then input[pos] - 128 else input[pos];
      var p := Advance(input, pos, if run then 2 else 1);
      if count > nleft then Prepend(done, ReadLine(input, pos, nleft)) == Corrupt
      else
        var more := if run then Repeat(count, Get8(input, pos + 1)) else Taken(input, p, count);
        Prepend(done, ReadLine(input, pos, nleft))
          == Prepend(done + more, ReadLine(input, if run then p else Advance(input, p, count), nleft - count))
  {
    if pos < |input| {
      var run := input[pos] > 128;
      var count := if run then input[pos] - 128 else input[pos];
      var p := Advance(input, pos, if run then 2 else 1);
      if count <= nleft {
        var more := if run then Repeat(count, Get8(input, pos + 1)) else Taken(input, p, count);
        var o := ReadLine(input, if run then p else Advance(input, p, count), nleft - count);
        assert o.Line? ==> done + (more + o.bytes) == (done + more) + o.bytes;
      }
    }
  }

  // The first components of all pixels are those of these lines.
  ghost predicate Pixels(scanline: seq<byte>, lines: seq<seq<byte>>, width: nat) {
    && |scanline| == 4 * width && |lines| <= 4
    && forall c :: 0 <= c < |lines| ==> |lines[c]| == width && forall i :: 0 <= i < width ==> scanline[i * 4 + c] == lines[c][i]
  }

  lemma PixelsMore(scanline: seq<byte>, before: seq<byte>, lines: seq<seq<byte>>, width: nat, bytes: seq<byte>)
    requires Pixels(before, lines, width) && |lines| < 4 && |bytes| == width && Column(scanline, before, |lines|, bytes)
    ensures Pixels(scanline, lines + [bytes], width)
  {
    var now := lines + [bytes];
    forall c | 0 <= c < |now| ensures |now[c]| == width && forall i :: 0 <= i < width ==> scanline[i * 4 + c] == now[c][i] {
      if c < |lines| {
        forall i | 0 <= i < width ensures scanline[i * 4 + c] == now[c][i] {
          assert (i * 4 + c) % 4 != |lines|;
        }
      }
    }
  }

  function More(lines: seq<seq<byte>>, s: Scan): Scan {
    if s.Lines? then Lines(lines + s.lines, s.end) else s
  }

  lemma MoreStep(input: seq<byte>, pos: nat, width: nat, k: nat, lines: seq<seq<byte>>)
    requires k > 0
    ensures match ReadLine(input, pos, width)
      case Corrupt => More(lines, ReadLines(input, pos, width, k)) == BadScan
      case Hangs => More(lines, ReadLines(input, pos, width, k)) == Endless
      case Line(bytes, p) =>
        More(lines, ReadLines(input, pos, width, k)) == More(lines + [bytes], ReadLines(input, p, width, k - 1))
  {
    hide ReadLine;
    match ReadLine(input, pos, width) {
      case Corrupt =>
      case Hangs =>
      case Line(bytes, p) =>
        var r := ReadLines(input, p, width, k - 1);
        assert r.Lines? ==> lines + ([bytes] + r.lines) == lines + [bytes] + r.lines;
    }
  }

  lemma MoreEnds(input: seq<byte>, pos: nat, width: nat, lines: seq<seq<byte>>)
    ensures More([], ReadLines(input, pos, width, 4)) == ReadLines(input, pos, width, 4)
    ensures More(lines, ReadLines(input, pos, width, 0)) == Lines(lines, pos)
  {
    assert lines + [] == lines;
    var r := ReadLines(input, pos, width, 4);
    assert r.Lines? ==> [] + r.lines == r.lines;
  }

  lemma {:induction false} LineLength(input: seq<byte>, pos: nat, nleft: nat)
    ensures ReadLine(input, pos, nleft).Line? ==> |ReadLine(input, pos, nleft).bytes| == nleft
    decreases |input| - pos
  {
    if nleft > 0 && pos < |input| {
      var count := input[pos];
      if count > 128 && count - 128 <= nleft {
        LineLength(input, Advance(input, pos, 2), nleft - (count - 128));
      } else if count <= 128 && count <= nleft {
        LineLength(input, Advance(input, pos, 1 + count), nleft - count);
      }
    }
  }

  // Reads a scanline of four-component pixels, the components of each pixel side by side.
  method ReadScanline(s: Source, width: nat, scanline: array<byte>) returns (r: Status)
    requires scanline.Length == 4 * width
    modifies s, scanline
    ensures match ReadScan(s.bytes, old(s.pos), width)
      case Lines(lines, end) => r == Done && s.pos == end && |lines| == 4 && Pixels(scanline[..], lines, width)
      case why => r == Stopped(why)
  {
    hide ReadLine, ReadLines, Pixels, Column, Get8, Advance;
    var c1 := s.Get();
    var c2 := s.Get();
    var len: nat := s.Get();
    if c1 != 2 || c2 != 2 || len >= 128 { return Stopped(Flat); }
    var lo: nat := s.Get();
    if len * 256 + lo != width { return Stopped(BadScan); }
    ghost var whole, lines: seq<seq<byte>> := ReadLines(s.bytes, s.pos, width, 4), [];
    MoreEnds(s.bytes, s.pos, width, []);
    NoPixels(scanline[..], width);
    for k := 0 to 4
      invariant |lines| == k && Pixels(scanline[..], lines, width)
      invariant whole == More(lines, ReadLines(s.bytes, s.pos, width, 4 - k))
    {
      MoreStep(s.bytes, s.pos, width, 4 - k, lines);
      LineLength(s.bytes, s.pos, width);
      ghost var before, o := scanline[..], ReadLine(s.bytes, s.pos, width);
      r := ReadComponent(s, width, scanline, k);
      if r != Done { return; }
      PixelsMore(scanline[..], before, lines, width, o.bytes);
      lines := lines + [o.bytes];
    }
    MoreEnds(s.bytes, s.pos, width, lines);
    r := Done;
  }

  lemma NoPixels(scanline: seq<byte>, width: nat)
    requires |scanline| == 4 * width
    ensures Pixels(scanline, [], width)
  {}

  // ---------- when reading never ends ----------

  // Packets that fill one line after the other.
  ghost predicate LinesAt(input: seq<byte>, pos: nat, width: nat, lines: seq<seq<Packet>>)
    decreases |lines|
  {
    lines != [] ==> Fills(input, pos, width, lines[0]) && LinesAt(input, PacketsEnd(input, pos, lines[0]), width, lines[1..])
  }

  ghost function LinesEnd(input: seq<byte>, pos: nat, lines: seq<seq<Packet>>): nat
    decreases |lines|
  {
    if lines == [] then pos else LinesEnd(input, PacketsEnd(input, pos, lines[0]), lines[1..])
  }

  // Behind fewer than k full lines the input ends before the next line is full.
  ghost predicate LinesRunDry(input: seq<byte>, pos: nat, width: nat, k: nat, lines: seq<seq<Packet>>, ps: seq<Packet>) {
    |lines| < k && LinesAt(input, pos, width, lines) && RunsDry(input, LinesEnd(input, pos, lines), width, ps)
  }

  lemma LineBefore(input: seq<byte>, pos: nat, width: nat, k: nat, line: seq<Packet>, lines: seq<seq<Packet>>, ps: seq<Packet>)
    requires Fills(input, pos, width, line)
    ensures LinesRunDry(input, pos, width, k + 1, [line] + lines, ps) <==>
      LinesRunDry(input, PacketsEnd(input, pos, line), width, k, lines, ps)
  {
    hide Fills, RunsDry, PacketsEnd;
    assert ([line] + lines)[1..] == lines;
  }

  lemma NoLineBefore(input: seq<byte>, pos: nat, width: nat, k: nat, ps: seq<Packet>)
    ensures LinesRunDry(input, pos, width, k, [], ps) <==> k > 0 && RunsDry(input, pos, width, ps)
  {}

  lemma {:induction false} LinesOf(input: seq<byte>, pos: nat, width: nat, k: nat)
    returns (lines: seq<seq<Packet>>, ps: seq<Packet>)
    requires ReadLines(input, pos, width, k) == Endless
    ensures LinesRunDry(input, pos, width, k, lines, ps)
    decreases k
  {
    hide ReadLine, LinesRunDry, RunsDry, Fills, Overruns, PacketsEnd, Expanded;
    lines := [];
    ps := PacketsOf(input, pos, width);
    NoLineBefore(input, pos, width, k, ps);
    if ReadLine(input, pos, width).Line? {
      var more, last := LinesOf(input, PacketsEnd(input, pos, ps), width, k - 1);
      LineBefore(input, pos, width, k - 1, ps, more, last);
      lines, ps := [ps] + more, last;
    }
  }

  lemma {:induction false} LinesHang(input: seq<byte>, pos: nat, width: nat, k: nat, lines: seq<seq<Packet>>, ps: seq<Packet>)
    requires LinesRunDry(input, pos, width, k, lines, ps)
    ensures ReadLines(input, pos, width, k) == Endless
    decreases |lines|
  {
    hide ReadLine, RunsDry, Fills, PacketsEnd, Expanded;
    if lines == [] {
      DryHangs(input, pos, width, ps);
    } else {
      FilledIsRead(input, pos, width, lines[0]);
      assert lines == [lines[0]] + lines[1..];
      LineBefore(input, pos, width, k - 1, lines[0], lines[1..], ps);
      LinesHang(input, PacketsEnd(input, pos, lines[0]), width, k - 1, lines[1..], ps);
    }
  }

  // The four bytes that announce a coded scanline of this width.
  ghost predicate HeaderAt(input: seq<byte>, pos: nat, width: nat) {
    && Get8(input, pos) == 2 && Get8(input, pos + 1) == 2
    && Get8(input, pos + 2) < 128 && Get8(input, pos + 2) as nat * 256 + Get8(input, pos + 3) == width
  }

  // Reading a scanline goes on forever exactly if it is announced, and its packets reach the end of the
  // input before one of the four components is full.
  lemma ScanIff(input: seq<byte>, pos: nat, width: nat)
    ensures ReadScan(input, pos, width) == Endless <==>
      HeaderAt(input, pos, width) && exists lines, ps :: LinesRunDry(input, Advance(input, pos, 4), width, 4, lines, ps)
  {
    hide ReadLines, LinesRunDry;
    var p := Advance(input, pos, 4);
    assert ReadScan(input, pos, width) == Endless <==> HeaderAt(input, pos, width) && ReadLines(input, p, width, 4) == Endless;
    if ReadLines(input, p, width, 4) == Endless {
      var lines, ps := LinesOf(input, p, width, 4);
    }
    if lines, ps :| LinesRunDry(input, p, width, 4, lines, ps) { LinesHang(input, p, width, 4, lines, ps); }
  }

  // A scanline that is written reads back as it was.
  method WriteThenRead(scratch: seq<byte>, width: nat) returns (r: Status, scanline: array<byte>)
    requires 8 <= width < 32768 && |scratch| == 4 * width
    ensures r == Done && Pixels(scanline[..], Components(scratch, width), width)
  {
    hide ReadScan, Pixels, Coded, Components;
    var out;
    ghost var packets;
    out, packets := WriteScanline(scratch, width);
    scanline := new byte[4 * width](i => 0);
    var s := new Source(out, 0);
    r := ReadScanline(s, width, scanline);
  }
}

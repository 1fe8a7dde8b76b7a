// Run-length coding of the scanlines of Radiance HDR images.
module HdrRle {
  import opened Words
  import opened ImageSource

  datatype Packet = Run(n: nat, value: byte) | Dump(data: seq<byte>)

  predicate WellFormed(p: Packet) {
    match p
    case Run(n, _) => 1 <= n <= 127
    case Dump(data) => 1 <= |data| <= 128
  }

  function PacketBytes(p: Packet): seq<byte>
    requires WellFormed(p)
  {
    match p
    case Run(n, v) => [n + 128, v]
    case Dump(data) => [|data|] + data
  }

  function Repeat(n: nat, v: byte): (s: seq<byte>)
    ensures |s| == n && forall i :: 0 <= i < n ==> s[i] == v
  {
    seq(n, i => v)
  }

  function PacketData(p: Packet): seq<byte> {
    match p
    case Run(n, v) => Repeat(n, v)
    case Dump(data) => data
  }

  predicate AllWellFormed(ps: seq<Packet>) { forall i :: 0 <= i < |ps| ==> WellFormed(ps[i]) }

  function Written(ps: seq<Packet>): seq<byte>
    requires AllWellFormed(ps)
  {
    if ps == [] then [] else PacketBytes(ps[0]) + Written(ps[1..])
  }

  function Expanded(ps: seq<Packet>): seq<byte> {
    if ps == [] then [] else PacketData(ps[0]) + Expanded(ps[1..])
  }

  lemma {:induction false} Snoc(ps: seq<Packet>, p: Packet)
    requires AllWellFormed(ps) && WellFormed(p)
    ensures AllWellFormed(ps + [p])
    ensures Written(ps + [p]) == Written(ps) + PacketBytes(p) && Expanded(ps + [p]) == Expanded(ps) + PacketData(p)
  {
    hide PacketBytes, PacketData, WellFormed;
    if ps == [] {
      assert (ps + [p])[1..] == [];
    } else {
      Snoc(ps[1..], p);
      assert (ps + [p])[1..] == ps[1..] + [p];
    }
  }

  // ---------- writing ----------

  predicate RunAt(comp: seq<byte>, r: nat) {
    r + 2 < |comp| && comp[r] == comp[r + 1] == comp[r + 2]
  }

  // The first run of three from x on, or the end.
  method FindRun(comp: seq<byte>, x: nat) returns (r: nat)
    requires x < |comp|
    ensures x <= r <= |comp| && (forall k :: x <= k < r ==> !RunAt(comp, k))
    ensures r == |comp| || RunAt(comp, r)
  {
    r := x;
    while r + 2 < |comp|
      invariant x <= r <= |comp| && forall k :: x <= k < r ==> !RunAt(comp, k)
    {
      if comp[r] == comp[r + 1] && comp[r] == comp[r + 2] { break; }
      r := r + 1;
    }
    if r + 2 >= |comp| { r := |comp|; }
  }

  // The packets ps have been written, for the first x bytes of the line.
  ghost predicate Progress(comp: seq<byte>, x: nat, out: seq<byte>, ps: seq<Packet>) {
    x <= |comp| && AllWellFormed(ps) && out == Written(ps) && comp[..x] == Expanded(ps)
  }

  lemma MoreProgress(comp: seq<byte>, x: nat, out: seq<byte>, ps: seq<Packet>, p: Packet, len: nat)
    requires Progress(comp, x, out, ps) && WellFormed(p) && x + len <= |comp| && PacketData(p) == comp[x..x + len]
    ensures Progress(comp, x + len, out + PacketBytes(p), ps + [p])
  {
    Snoc(ps, p);
    assert comp[..x + len] == comp[..x] + comp[x..x + len];
  }

  // ---------- which packets are written ----------

  // The packet for the bytes from a to b. A run begins where three bytes are equal, or goes on with the byte
  // of the run before it, and takes all equal bytes up to 127; a dump takes the bytes before the next run,
  // up to 128.
  ghost predicate ChosenAt(comp: seq<byte>, afterRun: bool, a: nat, b: nat, p: Packet) {
    && a < b <= |comp| && PacketData(p) == comp[a..b] &&
    match p
    case Run(_, v) =>
      && (b - a == 127 || b == |comp| || comp[b] != v)
      && (RunAt(comp, a) || (afterRun && a > 0 && comp[a - 1] == v))
    case Dump(_) =>
      && (forall m :: a <= m < b ==> !RunAt(comp, m))
      && (b - a == 128 || b == |comp| || RunAt(comp, b))
      && (afterRun && a > 0 ==> comp[a - 1] != comp[a])
  }

  // These packets are the ones for the first x bytes of the line.
  ghost predicate Chosen(comp: seq<byte>, x: nat, ps: seq<Packet>, at: seq<nat>) {
    && |at| == |ps| + 1 && at[0] == 0 && at[|ps|] == x
    && forall k :: 0 <= k < |ps| ==> ChosenAt(comp, k > 0 && ps[k - 1].Run?, at[k], at[k + 1], ps[k])
  }

  ghost predicate IsChosen(comp: seq<byte>, ps: seq<Packet>) {
    exists at :: Chosen(comp, |comp|, ps, at)
  }

  ghost predicate AfterRun(ps: seq<Packet>) { ps != [] && ps[|ps| - 1].Run? }

  // If the last packet was a run, it is over.
  ghost predicate RunOver(comp: seq<byte>, x: nat, ps: seq<Packet>) {
    AfterRun(ps) && 0 < x < |comp| ==> comp[x - 1] != comp[x]
  }

  lemma OneMoreChosen(comp: seq<byte>, x: nat, ps: seq<Packet>, at: seq<nat>, b: nat, p: Packet)
    requires Chosen(comp, x, ps, at) && ChosenAt(comp, AfterRun(ps), x, b, p)
    ensures Chosen(comp, b, ps + [p], at + [b])
  {
    hide ChosenAt;
    var more, ats := ps + [p], at + [b];
    forall k | 0 <= k < |more| ensures ChosenAt(comp, k > 0 && more[k - 1].Run?, ats[k], ats[k + 1], more[k]) {
      if k < |ps| {
        assert more[k] == ps[k] && ats[k] == at[k] && ats[k + 1] == at[k + 1];
        if k > 0 { assert more[k - 1] == ps[k - 1]; }
      }
    }
  }

  // Dumps the bytes up to r.
  method WriteDumps(comp: seq<byte>, x0: nat, r: nat, out0: seq<byte>, ghost ps0: seq<Packet>, ghost at0: seq<nat>)
    returns (out: seq<byte>, ghost ps: seq<Packet>, ghost at: seq<nat>)
    requires x0 <= r <= |comp| && Progress(comp, x0, out0, ps0) && Chosen(comp, x0, ps0, at0) && RunOver(comp, x0, ps0)
    requires (forall k :: x0 <= k < r ==> !RunAt(comp, k)) && (r == |comp| || RunAt(comp, r))
    ensures Progress(comp, r, out, ps) && Chosen(comp, r, ps, at) && RunOver(comp, r, ps)
  {
    hide Progress, Chosen, RunAt;
    var x := x0;
    out, ps, at := out0, ps0, at0;
    while x < r
      invariant x0 <= x <= r && Progress(comp, x, out, ps) && Chosen(comp, x, ps, at) && RunOver(comp, x, ps)
    {
      var len := r - x;
      if len > 128 { len := 128; }
      ghost var p := Dump(comp[x..x + len]);
      MoreProgress(comp, x, out, ps, p, len);
      OneMoreChosen(comp, x, ps, at, x + len, p);
      out := out + ([len] + comp[x..x + len]);
      ps, at := ps + [p], at + [x + len];
      x := x + len;
    }
  }

  lemma RunChosen(comp: seq<byte>, x0: nat, x: nat, r: nat, len: nat, afterRun: bool)
    requires x0 <= x < r <= |comp| && len == (if r - x > 127 then 127 else r - x) && (x == x0 || afterRun)
    requires forall k :: x0 <= k < r ==> comp[k] == comp[x0]
    requires RunAt(comp, x0) && (r == |comp| || comp[r] != comp[x0])
    ensures PacketData(Run(len, comp[x])) == comp[x..x + len] && ChosenAt(comp, afterRun, x, x + len, Run(len, comp[x]))
  {
    hide RunAt;
  }

  // Writes the bytes up to r, all equal, as runs.
  method WriteRuns(comp: seq<byte>, x0: nat, r: nat, out0: seq<byte>, ghost ps0: seq<Packet>, ghost at0: seq<nat>)
    returns (out: seq<byte>, ghost ps: seq<Packet>, ghost at: seq<nat>)
    requires x0 < r <= |comp| && Progress(comp, x0, out0, ps0) && Chosen(comp, x0, ps0, at0)
    requires forall k :: x0 <= k < r ==> comp[k] == comp[x0]
    requires RunAt(comp, x0) && (r == |comp| || comp[r] != comp[x0])
    ensures Progress(comp, r, out, ps) && Chosen(comp, r, ps, at) && RunOver(comp, r, ps)
  {
    hide Progress, Chosen, RunAt, ChosenAt;
    var x := x0;
    out, ps, at := out0, ps0, at0;
    while x < r
      invariant x0 <= x <= r && Progress(comp, x, out, ps) && Chosen(comp, x, ps, at)
      invariant x == x0 || AfterRun(ps)
    {
      var len := r - x;
      if len > 127 { len := 127; }
      ghost var p := Run(len, comp[x]);
      RunChosen(comp, x0, x, r, len, AfterRun(ps));
      MoreProgress(comp, x, out, ps, p, len);
      OneMoreChosen(comp, x, ps, at, x + len, p);
      out := out + [len + 128, comp[x]];
      ps, at := ps + [p], at + [x + len];
      x := x + len;
    }
  }

  // Writes the line of one component as packets that expand to it, and that read back as the line.
  method WriteComponent(comp: seq<byte>) returns (out: seq<byte>, ghost ps: seq<Packet>)
    ensures AllWellFormed(ps) && out == Written(ps) && Expanded(ps) == comp
    ensures IsChosen(comp, ps)
    ensures ReadLine(out, 0, |comp|) == Line(comp, |out|)
  {
    hide Written, Expanded, ReadLine, Chosen, RunOver;
    out, ps := [], [];
    ghost var at: seq<nat> := [0];
    Nothing(comp);
    var x := 0;
    while x < |comp|
      invariant x <= |comp| && Progress(comp, x, out, ps) && Chosen(comp, x, ps, at) && RunOver(comp, x, ps)
    {
      var r := FindRun(comp, x);
      out, ps, at := WriteDumps(comp, x, r, out, ps, at);
      x := r;
      if r + 2 < |comp| {
        while r < |comp| && comp[r] == comp[x]
          invariant x <= r <= |comp| && (r == x ==> r < |comp|) && forall k :: x <= k < r ==> comp[k] == comp[x]
        {
          r := r + 1;
        }
        out, ps, at := WriteRuns(comp, x, r, out, ps, at);
        x := r;
      }
    }
    assert comp[..x] == comp;
    assert out[0..|out|] == out;
    ReadWritten(out, 0, ps);
  }

  lemma Nothing(comp: seq<byte>)
    ensures Progress(comp, 0, [], []) && Chosen(comp, 0, [], [0]) && RunOver(comp, 0, [])
  {}

  // ---------- reading ----------

  // How reading a line ends. Behind the end of the input every byte reads as zero, so that a reader
  // that expects a count there goes on forever.
  datatype Outcome = Line(bytes: seq<byte>, pos: nat) | Corrupt | Hangs

  function Prepend(bytes: seq<byte>, o: Outcome): Outcome {
    if o.Line? then Line(bytes + o.bytes, o.pos) else o
  }

  function ReadLine(input: seq<byte>, pos: nat, nleft: nat): Outcome
    decreases |input| - pos
  {
    if nleft == 0 then Line([], pos)
    else if pos >= |input| then Hangs
    else
      var count := input[pos];
      if count > 128 then
        if count - 128 > nleft then Corrupt
        else Prepend(Repeat(count - 128, Get8(input, pos + 1)), ReadLine(input, Advance(input, pos, 2), nleft - (count - 128)))
      else
        if count > nleft then Corrupt
        else Prepend(Taken(input, pos + 1, count), ReadLine(input, Advance(input, pos, 1 + count), nleft - count))
  }

  // A well-formed packet at pos is read as its data.
  lemma ReadPacket(input: seq<byte>, pos: nat, p: Packet, nleft: nat)
    requires WellFormed(p) && |PacketData(p)| <= nleft
    requires StandsAt(PacketBytes(p), input, pos)
    ensures ReadLine(input, pos, nleft)
      == Prepend(PacketData(p), ReadLine(input, pos + |PacketBytes(p)|, nleft - |PacketData(p)|))
  {
    BytesAt(PacketBytes(p), input, pos);
    match p {
      case Run(n, v) => ReadRun(input, pos, n, v, nleft);
      case Dump(data) =>
        forall i | 0 <= i < |data| ensures Get8(input, pos + (1 + i)) == data[i] {
          assert PacketBytes(p)[1 + i] == data[i];
        }
        ReadDump(input, pos, data, nleft);
    }
  }

  lemma ReadRun(input: seq<byte>, pos: nat, n: nat, v: byte, nleft: nat)
    requires 1 <= n <= 127 && n <= nleft && pos + 2 <= |input| && Get8(input, pos) == n + 128 && Get8(input, pos + 1) == v
    ensures ReadLine(input, pos, nleft) == Prepend(Repeat(n, v), ReadLine(input, pos + 2, nleft - n))
  {}

  lemma ReadDump(input: seq<byte>, pos: nat, data: seq<byte>, nleft: nat)
    requires 1 <= |data| <= 128 && |data| <= nleft && pos + 1 + |data| <= |input| && Get8(input, pos) == |data|
    requires forall i :: 0 <= i < |data| ==> Get8(input, pos + (1 + i)) == data[i]
    ensures ReadLine(input, pos, nleft) == Prepend(data, ReadLine(input, pos + 1 + |data|, nleft - |data|))
  {
    var t := Taken(input, pos + 1, |data|);
    assert forall i :: 0 <= i < |data| ==> t[i] == Get8(input, pos + (1 + i));
    assert t == data;
  }

  // Packets read back as what they expand to, wherever they stand.
  lemma {:induction false} ReadWritten(input: seq<byte>, pos: nat, ps: seq<Packet>)
    requires AllWellFormed(ps) && StandsAt(Written(ps), input, pos)
    ensures ReadLine(input, pos, |Expanded(ps)|) == Line(Expanded(ps), pos + |Written(ps)|)
    decreases |ps|
  {
    hide *;
    Unfold(ps);
    if ps != [] {
      var p, more := ps[0], ps[1..];
      StandsBoth(PacketBytes(p), Written(more), input, pos);
      ReadWritten(input, pos + |PacketBytes(p)|, more);
      ReadPacket(input, pos, p, |Expanded(ps)|);
      PrependLine(PacketData(p), Expanded(more), pos + |Written(ps)|);
    } else {
      ReadNone(input, pos);
    }
  }

  lemma Unfold(ps: seq<Packet>)
    requires AllWellFormed(ps)
    ensures ps == [] ==> Written(ps) == [] && Expanded(ps) == []
    ensures ps != [] ==> WellFormed(ps[0]) && AllWellFormed(ps[1..])
    ensures ps != [] ==> Written(ps) == PacketBytes(ps[0]) + Written(ps[1..])
    ensures ps != [] ==> Expanded(ps) == PacketData(ps[0]) + Expanded(ps[1..])
  {}

  lemma PrependLine(a: seq<byte>, b: seq<byte>, pos: nat)
    ensures Prepend(a, Line(b, pos)) == Line(a + b, pos)
  {}

  lemma ReadNone(input: seq<byte>, pos: nat)
    ensures ReadLine(input, pos, 0) == Line([], pos)
  {}

  // ---------- what ends the reading of a line ----------

  // The packet the reader sees at pos. A dump may be empty, and bytes behind the end of the input are zero.
  ghost predicate PacketAt(input: seq<byte>, pos: nat, p: Packet) {
    pos < |input| &&
    match p
    case Run(n, v) => 1 <= n <= 127 && input[pos] == n + 128 && v == Get8(input, pos + 1)
    case Dump(data) => |data| <= 128 && input[pos] == |data| && data == Taken(input, pos + 1, |data|)
  }

  ghost function PacketEnd(input: seq<byte>, pos: nat, p: Packet): nat {
    Advance(input, pos, 1 + if p.Run? then 1 else |p.data|)
  }

  // Packets stand back to back from pos on.
  ghost predicate PacketsAt(input: seq<byte>, pos: nat, ps: seq<Packet>)
    decreases |ps|
  {
    ps != [] ==> PacketAt(input, pos, ps[0]) && PacketsAt(input, PacketEnd(input, pos, ps[0]), ps[1..])
  }

  ghost function PacketsEnd(input: seq<byte>, pos: nat, ps: seq<Packet>): nat
    decreases |ps|
  {
    if ps == [] then pos else PacketsEnd(input, PacketEnd(input, pos, ps[0]), ps[1..])
  }

  // These packets reach the end of the input before the line is full.
  ghost predicate RunsDry(input: seq<byte>, pos: nat, width: nat, ps: seq<Packet>) {
    PacketsAt(input, pos, ps) && PacketsEnd(input, pos, ps) >= |input| && |Expanded(ps)| < width
  }

  // These packets fill the line, the last of them with at least one byte.
  ghost predicate Fills(input: seq<byte>, pos: nat, width: nat, ps: seq<Packet>) {
    && PacketsAt(input, pos, ps) && |Expanded(ps)| == width
    && (ps != [] ==> PacketData(ps[|ps| - 1]) != [])
  }

  // The last of these packets has more bytes than are missing in the line.
  ghost predicate Overruns(input: seq<byte>, pos: nat, width: nat, ps: seq<Packet>) {
    && PacketsAt(input, pos, ps) && ps != []
    && |Expanded(ps)| - |PacketData(ps[|ps| - 1])| < width < |Expanded(ps)|
  }

  // The packet at pos, if the input goes on there, and how the line goes on behind it.
  lemma NextPacket(input: seq<byte>, pos: nat, nleft: nat) returns (p: Packet)
    requires pos < |input| && nleft > 0
    ensures PacketAt(input, pos, p) && pos < PacketEnd(input, pos, p)
    ensures |PacketData(p)| > nleft ==> ReadLine(input, pos, nleft) == Corrupt
    ensures |PacketData(p)| <= nleft ==>
      ReadLine(input, pos, nleft) == Prepend(PacketData(p), ReadLine(input, PacketEnd(input, pos, p), nleft - |PacketData(p)|))
  {
    var count := input[pos];
    p := if count > 128 then Run(count - 128, Get8(input, pos + 1)) else Dump(Taken(input, pos + 1, count));
  }

  lemma PacketUnique(input: seq<byte>, pos: nat, p: Packet, q: Packet)
    requires PacketAt(input, pos, p) && PacketAt(input, pos, q)
    ensures p == q
  {}

  // One packet in front of others.
  lemma PacketBefore(input: seq<byte>, pos: nat, p: Packet, ps: seq<Packet>)
    ensures ([p] + ps)[0] == p && ([p] + ps)[1..] == ps
    ensures PacketsAt(input, pos, [p] + ps) <==> PacketAt(input, pos, p) && PacketsAt(input, PacketEnd(input, pos, p), ps)
    ensures PacketsEnd(input, pos, [p] + ps) == PacketsEnd(input, PacketEnd(input, pos, p), ps)
    ensures Expanded([p] + ps) == PacketData(p) + Expanded(ps)
  {
    hide PacketAt, PacketEnd, PacketData;
    assert ([p] + ps)[1..] == ps;
  }

  // How a line ends shows in the packets that stand there.
  lemma {:induction false} PacketsOf(input: seq<byte>, pos: nat, width: nat) returns (ps: seq<Packet>)
    ensures match ReadLine(input, pos, width)
      case Line(bytes, end) => Fills(input, pos, width, ps) && bytes == Expanded(ps) && end == PacketsEnd(input, pos, ps)
      case Corrupt => Overruns(input, pos, width, ps)
      case Hangs => RunsDry(input, pos, width, ps)
    decreases |input| - pos
  {
    hide ReadLine, PacketAt, PacketEnd, PacketsAt, PacketsEnd, Expanded, PacketData;
    ps := [];
    NoPackets(input, pos, width);
    if width > 0 && pos < |input| {
      var p := NextPacket(input, pos, width);
      if |PacketData(p)| <= width {
        var more := PacketsOf(input, PacketEnd(input, pos, p), width - |PacketData(p)|);
        PacketBefore(input, pos, p, more);
        ps := [p] + more;
        if more != [] {
          assert ps[|ps| - 1] == more[|more| - 1];
        } else {
          NoPackets(input, PacketEnd(input, pos, p), width - |PacketData(p)|);
        }
      } else {
        PacketBefore(input, pos, p, []);
        NoPackets(input, PacketEnd(input, pos, p), 0);
        ps := [p] + [];
      }
    }
  }

  lemma NoPackets(input: seq<byte>, pos: nat, width: nat)
    ensures PacketsAt(input, pos, []) && PacketsEnd(input, pos, []) == pos && Expanded([]) == []
    ensures width == 0 ==> ReadLine(input, pos, width) == Line([], pos)
    ensures width > 0 && pos >= |input| ==> ReadLine(input, pos, width) == Hangs
  {}

  // Packets that reach the end of the input before the line is full make the reader go on forever.
  lemma {:induction false} DryHangs(input: seq<byte>, pos: nat, width: nat, ps: seq<Packet>)
    requires RunsDry(input, pos, width, ps)
    ensures ReadLine(input, pos, width) == Hangs
    decreases |ps|
  {
    hide ReadLine, PacketAt, PacketEnd, PacketsAt, PacketsEnd, Expanded, PacketData;
    NoPackets(input, pos, width);
    if ps != [] {
      var p, more := ps[0], ps[1..];
      assert ps == [p] + more;
      PacketBefore(input, pos, p, more);
      AtIsInside(input, pos, p);
      var q := NextPacket(input, pos, width);
      PacketUnique(input, pos, p, q);
      DryHangs(input, PacketEnd(input, pos, p), width - |PacketData(p)|, more);
    }
  }

  lemma AtIsInside(input: seq<byte>, pos: nat, p: Packet)
    requires PacketAt(input, pos, p)
    ensures pos < |input|
  {}

  // Packets that fill the line are what the reader reads.
  lemma {:induction false} FilledIsRead(input: seq<byte>, pos: nat, width: nat, ps: seq<Packet>)
    requires Fills(input, pos, width, ps)
    ensures ReadLine(input, pos, width) == Line(Expanded(ps), PacketsEnd(input, pos, ps))
    decreases |ps|
  {
    hide ReadLine, PacketAt, PacketEnd, PacketsAt, PacketsEnd, Expanded, PacketData;
    NoPackets(input, pos, width);
    if ps != [] {
      var p, more := ps[0], ps[1..];
      assert ps == [p] + more;
      PacketBefore(input, pos, p, more);
      AtIsInside(input, pos, p);
      LastCounts(ps);
      var q := NextPacket(input, pos, width);
      PacketUnique(input, pos, p, q);
      if more != [] { assert more[|more| - 1] == ps[|ps| - 1]; }
      FilledIsRead(input, PacketEnd(input, pos, p), width - |PacketData(p)|, more);
      PrependLine(PacketData(p), Expanded(more), PacketsEnd(input, pos, ps));
    }
  }

  lemma {:induction false} LastCounts(ps: seq<Packet>)
    requires ps != []
    ensures |Expanded(ps)| >= |PacketData(ps[|ps| - 1])|
    decreases |ps|
  {
    if |ps| > 1 { LastCounts(ps[1..]); }
  }

  // A packet with more bytes than are missing is refused.
  lemma {:induction false} OverrunIsCorrupt(input: seq<byte>, pos: nat, width: nat, ps: seq<Packet>)
    requires Overruns(input, pos, width, ps)
    ensures ReadLine(input, pos, width) == Corrupt
    decreases |ps|
  {
    hide ReadLine, PacketAt, PacketEnd, PacketsAt, PacketsEnd, Expanded, PacketData;
    var p, more := ps[0], ps[1..];
    assert ps == [p] + more;
    PacketBefore(input, pos, p, more);
    NoPackets(input, pos, width);
    AtIsInside(input, pos, p);
    LastCounts(ps);
    var q := NextPacket(input, pos, width);
    PacketUnique(input, pos, p, q);
    if more != [] {
      assert more[|more| - 1] == ps[|ps| - 1];
      LastCounts(more);
      OverrunIsCorrupt(input, PacketEnd(input, pos, p), width - |PacketData(p)|, more);
    }
  }

  // Reading a line goes on forever exactly if packets that expand to fewer bytes reach the end of the
  // input, gives bytes exactly if packets stand there that expand to as many, and fails exactly if the
  // last of some packets has more bytes than are missing.
  lemma LineIff(input: seq<byte>, pos: nat, width: nat)
    ensures ReadLine(input, pos, width) == Hangs <==> exists ps :: RunsDry(input, pos, width, ps)
    ensures ReadLine(input, pos, width).Line? <==> exists ps :: Fills(input, pos, width, ps)
    ensures ReadLine(input, pos, width) == Corrupt <==> exists ps :: Overruns(input, pos, width, ps)
  {
    hide ReadLine, RunsDry, Fills, Overruns;
    var ps := PacketsOf(input, pos, width);
    if qs :| RunsDry(input, pos, width, qs) { DryHangs(input, pos, width, qs); }
    if qs :| Fills(input, pos, width, qs) { FilledIsRead(input, pos, width, qs); }
    if qs :| Overruns(input, pos, width, qs) { OverrunIsCorrupt(input, pos, width, qs); }
  }
}

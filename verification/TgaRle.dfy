// Run-length packets of TGA images. A pixel is the sequence of its bytes.
module TgaRle {
  import opened Words
  import opened Sequences
  import opened ImageSource

  type Pixel = seq<byte>

  // Pixels of comp bytes, as they stand in the file.
  datatype Packet = Run(n: nat, px: Pixel) | Raw(pxs: seq<Pixel>)

  predicate AllSized(pxs: seq<Pixel>, comp: nat) { forall i :: 0 <= i < |pxs| ==> |pxs[i]| == comp }

  predicate WellFormed(p: Packet, comp: nat) {
    match p
    case Run(n, px) => 1 <= n <= 128 && |px| == comp
    case Raw(pxs) => 1 <= |pxs| <= 128 && AllSized(pxs, comp)
  }

  function PacketBytes(p: Packet, comp: nat): seq<byte>
    requires WellFormed(p, comp)
  {
    match p
    case Run(n, px) => [n + 127] + px
    case Raw(pxs) => [|pxs| - 1] + Concat(pxs)
  }

  function Repeat(n: nat, px: Pixel): (s: seq<Pixel>)
    ensures |s| == n && forall i :: 0 <= i < n ==> s[i] == px
  {
    seq(n, i => px)
  }

  function PacketData(p: Packet): seq<Pixel> {
    match p
    case Run(n, px) => Repeat(n, px)
    case Raw(pxs) => pxs
  }

  predicate AllWellFormed(ps: seq<Packet>, comp: nat) { forall i :: 0 <= i < |ps| ==> WellFormed(ps[i], comp) }

  function Written(ps: seq<Packet>, comp: nat): seq<byte>
    requires AllWellFormed(ps, comp)
  {
    if ps == [] then [] else PacketBytes(ps[0], comp) + Written(ps[1..], comp)
  }

  function Expanded(ps: seq<Packet>): seq<Pixel> {
    if ps == [] then [] else PacketData(ps[0]) + Expanded(ps[1..])
  }

  lemma {:induction false} Snoc(ps: seq<Packet>, p: Packet, comp: nat)
    requires AllWellFormed(ps, comp) && WellFormed(p, comp)
    ensures AllWellFormed(ps + [p], comp)
    ensures Written(ps + [p], comp) == Written(ps, comp) + PacketBytes(p, comp) && Expanded(ps + [p]) == Expanded(ps) + PacketData(p)
  {
    hide PacketBytes, PacketData, WellFormed;
    if ps == [] {
      assert (ps + [p])[1..] == [];
    } else {
      Snoc(ps[1..], p, comp);
      assert (ps + [p])[1..] == ps[1..] + [p];
    }
  }

  // ---------- reading ----------

  // The next n pixels: count of them are left of a packet that repeats the pixel px or has one for each.
  function Load(input: seq<byte>, pos: nat, count: nat, repeating: bool, px: Pixel, n: nat, comp: nat): (s: seq<Pixel>)
    ensures |s| == n
    decreases n
  {
    if n == 0 then []
    else if count == 0 then
      var cmd := Get8(input, pos);
      var p := Advance(input, pos, 1);
      var now := Taken(input, p, comp);
      [now] + Load(input, Advance(input, p, comp), cmd % 128, cmd >= 128, now, n - 1, comp)
    else if !repeating then
      var now := Taken(input, pos, comp);
      [now] + Load(input, Advance(input, pos, comp), count - 1, false, now, n - 1, comp)
    else
      [px] + Load(input, pos, count - 1, true, px, n - 1, comp)
  }

  lemma {:induction false} LoadRepeats(input: seq<byte>, pos: nat, count: nat, px: Pixel, n: nat, comp: nat)
    requires count <= n
    ensures Load(input, pos, count, true, px, n, comp) == Repeat(count, px) + Load(input, pos, 0, true, px, n - count, comp)
    decreases count
  {
    if count > 0 {
      LoadRepeats(input, pos, count - 1, px, n - 1, comp);
      assert Repeat(count, px) == [px] + Repeat(count - 1, px);
    }
  }

  // With no pixel of a packet left, the last pixel does not matter.
  lemma LoadFresh(input: seq<byte>, pos: nat, a: bool, x: Pixel, b: bool, y: Pixel, n: nat, comp: nat)
    ensures Load(input, pos, 0, a, x, n, comp) == Load(input, pos, 0, b, y, n, comp)
  {}

  lemma TakenAt(bytes: seq<byte>, input: seq<byte>, pos: nat)
    requires StandsAt(bytes, input, pos)
    ensures Taken(input, pos, |bytes|) == bytes && Advance(input, pos, |bytes|) == pos + |bytes|
  {
    BytesAt(bytes, input, pos);
  }

  lemma LoadOne(input: seq<byte>, pos: nat, count: nat, now: Pixel, px: Pixel, n: nat, comp: nat)
    requires 0 < count && 0 < n && |now| == comp && StandsAt(now, input, pos)
    ensures Load(input, pos, count, false, px, n, comp)
      == [now] + Load(input, pos + comp, count - 1, false, now, n - 1, comp)
  {
    TakenAt(now, input, pos);
  }

  lemma {:induction false} LoadEach(input: seq<byte>, pos: nat, pxs: seq<Pixel>, px: Pixel, n: nat, comp: nat)
    requires |pxs| <= n && AllSized(pxs, comp) && StandsAt(Concat(pxs), input, pos)
    ensures Load(input, pos, |pxs|, false, px, n, comp)
      == pxs + Load(input, pos + |Concat(pxs)|, 0, false, px, n - |pxs|, comp)
    decreases |pxs|
  {
    hide StandsAt, Load;
    if pxs != [] {
      var rest := pxs[1..];
      StandsBoth(pxs[0], Concat(rest), input, pos);
      LoadOne(input, pos, |pxs|, pxs[0], px, n, comp);
      LoadEach(input, pos + comp, rest, pxs[0], n - 1, comp);
      LoadFresh(input, pos + |Concat(pxs)|, false, px, false, pxs[0], n - |pxs|, comp);
    }
  }

  // A command byte and the pixel behind it.
  lemma LoadCommand(input: seq<byte>, pos: nat, cmd: byte, now: Pixel, rep: bool, px: Pixel, n: nat, comp: nat)
    requires StandsAt([cmd], input, pos) && StandsAt(now, input, pos + 1) && |now| == comp && n > 0
    ensures Load(input, pos, 0, rep, px, n, comp)
      == [now] + Load(input, pos + 1 + comp, cmd % 128, cmd >= 128, now, n - 1, comp)
  {
    BytesAt([cmd], input, pos);
    TakenAt(now, input, pos + 1);
    assert input[pos] == [cmd][0];
  }

  lemma LoadRunPacket(input: seq<byte>, pos: nat, k: nat, v: Pixel, rep: bool, px: Pixel, n: nat, comp: nat)
    requires 1 <= k <= 128 && |v| == comp && k <= n && StandsAt([k + 127] + v, input, pos)
    ensures Load(input, pos, 0, rep, px, n, comp) == Repeat(k, v) + Load(input, pos + 1 + comp, 0, rep, px, n - k, comp)
  {
    hide StandsAt, Load;
    StandsBoth([k + 127], v, input, pos);
    LoadCommand(input, pos, k + 127, v, rep, px, n, comp);
    LoadRepeats(input, pos + 1 + comp, k - 1, v, n - 1, comp);
    LoadFresh(input, pos + 1 + comp, true, v, rep, px, n - k, comp);
    assert Repeat(k, v) == [v] + Repeat(k - 1, v);
  }

  lemma LoadRawPacket(input: seq<byte>, pos: nat, pxs: seq<Pixel>, rep: bool, px: Pixel, n: nat, comp: nat)
    requires 1 <= |pxs| <= 128 && AllSized(pxs, comp) && |pxs| <= n && StandsAt([|pxs| - 1] + Concat(pxs), input, pos)
    ensures Load(input, pos, 0, rep, px, n, comp)
      == pxs + Load(input, pos + 1 + |Concat(pxs)|, 0, rep, px, n - |pxs|, comp)
  {
    hide StandsAt, Load;
    var rest := pxs[1..];
    StandsBoth([|pxs| - 1], Concat(pxs), input, pos);
    StandsBoth(pxs[0], Concat(rest), input, pos + 1);
    LoadCommand(input, pos, |pxs| - 1, pxs[0], rep, px, n, comp);
    LoadEach(input, pos + 1 + comp, rest, pxs[0], n - 1, comp);
    LoadFresh(input, pos + 1 + |Concat(pxs)|, false, pxs[0], rep, px, n - |pxs|, comp);
  }

  lemma LoadPacket(input: seq<byte>, pos: nat, p: Packet, rep: bool, px: Pixel, n: nat, comp: nat)
    requires WellFormed(p, comp) && |PacketData(p)| <= n && StandsAt(PacketBytes(p, comp), input, pos)
    ensures Load(input, pos, 0, rep, px, n, comp)
      == PacketData(p) + Load(input, pos + |PacketBytes(p, comp)|, 0, rep, px, n - |PacketData(p)|, comp)
  {
    hide StandsAt, Load;
    match p {
      case Run(k, v) => LoadRunPacket(input, pos, k, v, rep, px, n, comp);
      case Raw(pxs) => LoadRawPacket(input, pos, pxs, rep, px, n, comp);
    }
  }

  // Packets load as the pixels they expand to.
  lemma {:induction false} LoadWritten(input: seq<byte>, pos: nat, ps: seq<Packet>, px: Pixel, comp: nat)
    requires AllWellFormed(ps, comp) && StandsAt(Written(ps, comp), input, pos)
    ensures Load(input, pos, 0, false, px, |Expanded(ps)|, comp) == Expanded(ps)
    decreases |ps|
  {
    hide WellFormed, PacketBytes, PacketData, StandsAt;
    if ps != [] {
      StandsBoth(PacketBytes(ps[0], comp), Written(ps[1..], comp), input, pos);
      LoadPacket(input, pos, ps[0], false, px, |Expanded(ps)|, comp);
      LoadWritten(input, pos + |PacketBytes(ps[0], comp)|, ps[1..], px, comp);
    }
  }
}

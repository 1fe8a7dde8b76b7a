// The zlib decoder: a bit buffer filled byte by byte, two sets of decoding tables, and an output
// buffer that may grow.
module Inflate {
  import opened Words
  import opened BitStream
  import opened BitTricks
  import opened CanonicalCode
  import opened HuffmanTables
  import opened Lookup
  import opened DeflateFormat
  import opened IdleRounds
  import opened Readable

  datatype Outcome = Failed | EndOfBlock | Continued

  // How decoding ends, if it ends.
  datatype Verdict = Accepted | Rejected | Hangs

  // The largest size a buffer of this size can grow to by doubling.
  function Reach(cap: nat): (r: nat)
    ensures r >= cap && (0 < cap ==> r > INT_MAX) && (cap <= UINT_MAX ==> r <= UINT_MAX)
    decreases UINT_MAX - cap
  {
    if cap == 0 || cap > UINT_MAX / 2 then cap else Reach(2 * cap)
  }

  // It is this size doubled as often as the result stays within 32 bits.
  lemma {:induction false} ReachDoubles(cap: nat) returns (k: nat)
    requires 0 < cap <= UINT_MAX
    ensures Reach(cap) == cap * Pow2(k) && 2 * Reach(cap) > UINT_MAX
    decreases UINT_MAX - cap
  {
    k := 0;
    if cap <= UINT_MAX / 2 {
      var m := ReachDoubles(2 * cap);
      k := m + 1;
      MulAssoc(cap, 2, Pow2(m));
    }
  }

  class ZBuf {
    const zbuffer: seq<byte>
    var pos: nat
    var numBits: nat
    var codeBuffer: nat

    var zoutStart: array<byte>
    var zout: nat
    const expandable: bool

    const zLength: ZHuffman
    const zDistance: ZHuffman

    // Bytes moved out of the input, the zero bytes read past its end included.
    ghost var fetched: nat

    // The position in the bit stream of the next unread bit.
    ghost function BitPos(): int
      reads `fetched, `numBits
    {
      8 * fetched - numBits
    }

    // The bit buffer holds the next numBits bits of the stream.
    ghost predicate BufferOk()
      reads `pos, `numBits, `codeBuffer, `fetched
    {
      && pos == Min(fetched, |zbuffer|)
      && numBits <= 32 && numBits <= 8 * fetched
      && codeBuffer == Window(zbuffer, BitPos(), numBits)
    }

    // The input is used up, and only zero bits follow.
    ghost predicate Dry()
      reads `pos, `numBits, `fetched
    {
      pos >= |zbuffer| && ZerosFrom(zbuffer, BitPos())
    }

    ghost predicate Separate()
      reads `zoutStart
    {
      && zLength.Shape() && zDistance.Shape()
      && zLength.repr !! zDistance.repr
      && zoutStart !in zLength.repr && zoutStart !in zDistance.repr
    }

    ghost predicate Valid()
      reads `pos, `numBits, `codeBuffer, `fetched, `zoutStart, `zout
    {
      && BufferOk() && Separate()
      && zout <= zoutStart.Length <= UINT_MAX
      && (expandable ==> zoutStart.Length > 0)
    }

    // How large the output may become.
    ghost function MaxOut(): (n: nat)
      reads `zoutStart
      ensures n >= zoutStart.Length
    {
      if expandable then Reach(zoutStart.Length) else zoutStart.Length
    }

    ghost function Output(): seq<byte>
      reads `zoutStart, `zout, zoutStart
      requires zout <= zoutStart.Length
    {
      zoutStart[..zout]
    }

    constructor (input: seq<byte>, capacity: nat, exp: bool)
      requires capacity <= UINT_MAX && (exp ==> capacity > 0)
      ensures Valid() && zbuffer == input && expandable == exp && zoutStart.Length == capacity
      ensures fetched == 0 && numBits == 0 && zout == 0
      ensures fresh(zoutStart) && fresh(zLength.repr) && fresh(zDistance.repr)
    {
      var zl := new ZHuffman();
      var zd := new ZHuffman();
      zLength, zDistance := zl, zd;
      zbuffer, expandable := input, exp;
      pos, numBits, codeBuffer, fetched := 0, 0, 0, 0;
      zoutStart := new byte[capacity](_ => 0);
      zout := 0;
    }

    method Zeof() returns (r: bool)
      ensures r <==> pos >= |zbuffer|
    {
      r := pos >= |zbuffer|;
    }

    method IsDry() returns (dry: bool)
      requires BufferOk()
      ensures dry ==> Dry()
      ensures 8 * |zbuffer| <= BitPos() ==> dry
    {
      hide Window;
      if 8 * |zbuffer| <= BitPos() { PastEndIsZero(zbuffer, BitPos(), numBits); }
      dry := pos >= |zbuffer| && codeBuffer == 0;
      if dry { ZeroTail(zbuffer, BitPos(), numBits); }
    }

    method Zget8() returns (b: byte)
      requires pos == Min(fetched, |zbuffer|)
      modifies `pos, `fetched
      ensures pos == Min(fetched, |zbuffer|) && fetched == old(fetched) + 1
      ensures b == Window(zbuffer, 8 * old(fetched), 8)
    {
      ByteWindow(zbuffer, fetched);
      var eof := Zeof();
      fetched := fetched + 1;
      if eof { return 0; }
      b := zbuffer[pos];
      pos := pos + 1;
    }

    method FillBits()
      requires BufferOk() && numBits <= 24
      modifies `pos, `numBits, `codeBuffer, `fetched
      ensures BufferOk() && BitPos() == old(BitPos()) && numBits == Filled(old(numBits)) > 24
      ensures fetched >= old(fetched)
    {
      hide Window, Pow2, Or, Shl, Filled;
      ghost var p := BitPos();
      while true
        invariant BufferOk() && BitPos() == p && numBits <= 24
        invariant Filled(numBits) == Filled(old(numBits)) && fetched >= old(fetched)
        decreases 24 - numBits
      {
        FilledStep(numBits);
        WindowBound(zbuffer, p, numBits);
        if codeBuffer >= Pow2(numBits) {
          assert false;  // the check for stray bits above numBits never fires
        }
        var b := Zget8();
        WindowSplit(zbuffer, p, numBits, 8);
        OrShifted(codeBuffer, b, numBits);
        ShlIsMul(b, numBits);
        codeBuffer := Or(codeBuffer, Shl(b, numBits));
        numBits := numBits + 8;
        if numBits > 24 { return; }
      }
    }

    lemma ShlIsMul(x: nat, n: nat)
      ensures Shl(x, n) == Pow2(n) * x
    {}

    // The next n bits, first bit least significant.
    method Zreceive(n: nat) returns (k: nat)
      requires BufferOk() && n <= 24
      modifies `pos, `numBits, `codeBuffer, `fetched
      ensures BufferOk() && BitPos() == old(BitPos()) + n
      ensures k == Window(zbuffer, old(BitPos()), n)
      ensures numBits == Received(old(numBits), n) && numBits <= 32 - n && fetched >= old(fetched)
    {
      hide Window, Pow2;
      if numBits < n { FillBits(); }
      WindowMaskShift(zbuffer, BitPos(), n, numBits);
      k := codeBuffer % Pow2(n);
      codeBuffer := codeBuffer / Pow2(n);
      numBits := numBits - n;
    }

    // The code is past the fast table; find its length by the limits.
    method DecodeSlowly(z: ZHuffman, ghost lens: seq<nat>) returns (r: int)
      requires BufferOk() && numBits >= 16 && z.Decodes(lens) && NoShortCode(lens, zbuffer, BitPos())
      modifies `numBits, `codeBuffer
      ensures BufferOk()
      ensures r >= 0 ==> SymbolAt(lens, zbuffer, old(BitPos()), r) && BitPos() == old(BitPos()) + lens[r]
      ensures r < 0 ==> BitPos() == old(BitPos()) && forall i: nat :: !SymbolAt(lens, zbuffer, old(BitPos()), i)
    {
      hide Window, Pow2, Limit, Peek, SymbolAt, FirstCode, FirstSymbol, Slot, BitReverse, NoShortCode, Acceptable;
      ghost var p := BitPos();
      LowSixteen(codeBuffer, p, numBits);
      var k := BitReverse(Low(codeBuffer, 16), 16);
      PeekBound(zbuffer, p, 16);
      assert Pow2(16) == 0x1_0000 by { Pow2Values(); }
      var s := FAST_BITS + 1;
      while k >= z.maxcode[s]
        invariant 10 <= s <= 16
        invariant s == 10 || Limit(lens, s - 1) <= k
        decreases 16 - s
      {
        assert s < 16 ==> CodeRow(lens, s, z.firstcode[s], z.firstsymbol[s], z.maxcode[s]);
        s := s + 1;
      }
      if s >= 16 {
        forall i: nat ensures !SymbolAt(lens, zbuffer, p, i) { SlowMiss(lens, zbuffer, p, i); }
        return -1;
      }
      assert CodeRow(lens, s, z.firstcode[s], z.firstsymbol[s], z.maxcode[s]);
      ghost var i := SlowHit(lens, zbuffer, p, s);
      SymbolHasCode(lens, zbuffer, p, i);
      SlotsDistinct(lens, i, i);
      var b := High(k, 16 - s) - z.firstcode[s] + z.firstsymbol[s];
      assert b < NSYMS && z.size[b] == s;  // neither check below fires
      if b >= NSYMS { return -1; }
      if z.size[b] != s { return -1; }
      WindowMaskShift(zbuffer, p, s, numBits);
      codeBuffer := codeBuffer / Pow2(s);
      numBits := numBits - s;
      r := z.value[b];
    }

    lemma SymbolHasCode(lens: seq<nat>, input: seq<byte>, p: nat, i: nat)
      requires SymbolAt(lens, input, p, i)
      ensures i < |lens| && lens[i] > 0
    {}

    lemma LowSixteen(v: nat, p: nat, n: nat)
      requires v == Window(zbuffer, p, n) && n >= 16
      ensures Low(v, 16) < Pow2(16) && BitReverse(Low(v, 16), 16) == Peek(zbuffer, p, 16)
      ensures Low(v, 9) < 512 && Low(v, 9) == Window(zbuffer, p, 9)
    {
      hide Window, BitReverse, Peek, Rev;
      WindowMaskShift(zbuffer, p, 16, n);
      WindowMaskShift(zbuffer, p, 9, n);
      WindowBound(zbuffer, p, 16);
      WindowBound(zbuffer, p, 9);
      Pow2Values();
      BitReverseIsRev(Low(v, 16), 16);
      RevWindow(zbuffer, p, 16);
    }

    // The symbol whose code comes next; -1 when there is none, or when fewer than 16 bits are
    // buffered and the input is used up.
    method HuffmanDecode(z: ZHuffman, ghost lens: seq<nat>) returns (r: int)
      requires BufferOk() && z.Decodes(lens)
      modifies `pos, `numBits, `codeBuffer, `fetched
      ensures BufferOk()
      ensures r >= 0 ==> SymbolAt(lens, zbuffer, old(BitPos()), r) && BitPos() == old(BitPos()) + lens[r]
      ensures r >= 0 ==> CodeLeft(zbuffer, old(BitPos()), old(numBits), lens[r]) == Left(numBits)
      ensures r < 0 ==> BitPos() == old(BitPos())
      ensures r < 0 ==>
        || !Primable(zbuffer, old(BitPos()), old(numBits))
        || forall i: nat :: !SymbolAt(lens, zbuffer, old(BitPos()), i)
      ensures fetched >= old(fetched)
    {
      hide Window, Pow2, Limit, Peek, SymbolAt, Acceptable, FirstCode, FirstSymbol, Slot, FastEntry;
      ghost var p := BitPos();
      if numBits < 16 {
        var eof := Zeof();
        if eof { return -1; }
        FillBits();
      }
      LowSixteen(codeBuffer, p, numBits);
      var b := z.fast[Low(codeBuffer, 9)];
      assert FastEntry(lens, |lens|, Low(codeBuffer, 9), b);
      if b != 0 {
        var s := b / 512;
        FastHit(lens, zbuffer, p, b);
        WindowMaskShift(zbuffer, p, s, numBits);
        codeBuffer := codeBuffer / Pow2(s);
        numBits := numBits - s;
        return b % 512;
      }
      forall i: nat | SymbolAt(lens, zbuffer, p, i) ensures i < |lens| && lens[i] > FAST_BITS {
        FastMiss(lens, zbuffer, p, i);
        SymbolHasCode(lens, zbuffer, p, i);
      }
      r := DecodeSlowly(z, lens);
    }

    // Makes room for n more bytes by doubling the capacity.
    method Zexpand(n: nat) returns (ok: bool)
      requires Valid()
      modifies `zoutStart
      ensures Valid() && MaxOut() == old(MaxOut())
      ensures zoutStart == old(zoutStart) || (expandable && fresh(zoutStart))
      ensures Output() == old(Output())
      ensures ok ==> zout + n <= zoutStart.Length
      ensures zoutStart.Length == old(zoutStart.Length) || zoutStart.Length < 2 * (zout + n)
      ensures ok <==> expandable && zout + n <= old(MaxOut())
    {
      if !expandable { return false; }
      var cur, limit := zout, zoutStart.Length;
      if UINT_MAX - cur < n { return false; }
      while cur + n > limit
        invariant zoutStart.Length <= limit <= UINT_MAX && Reach(limit) == Reach(zoutStart.Length)
        invariant limit == zoutStart.Length || limit < 2 * (cur + n)
        decreases cur + n - limit
      {
        if limit > UINT_MAX / 2 { return false; }
        limit := 2 * limit;
      }
      var q := new byte[limit](_ => 0);
      forall i | 0 <= i < zoutStart.Length { q[i] := zoutStart[i]; }
      zoutStart := q;
      ok := true;
    }

    // Appends a byte, after making room if there is none.
    method PutLiteral(b: byte) returns (ok: bool)
      requires Valid()
      modifies `zoutStart, `zout, zoutStart
      ensures Valid() && MaxOut() == old(MaxOut())
      ensures zoutStart == old(zoutStart) || (expandable && fresh(zoutStart))
      ensures ok ==> Output() == old(Output()) + [b]
      ensures ok <==> old(zout) + 1 <= old(MaxOut())
    {
      hide Reach;
      if zout >= zoutStart.Length {
        ok := Zexpand(1);
        if !ok { return; }
      }
      zoutStart[zout] := b;
      zout := zout + 1;
      ok := true;
    }

    // Appends len bytes, each equal to the byte dist earlier.
    method CopyBack(len: nat, dist: nat)
      requires Valid() && zout + len <= zoutStart.Length && dist <= zout
      modifies `zout, zoutStart
      ensures Valid()
      ensures zout == old(zout) + len && zoutStart[..old(zout)] == old(Output())
      ensures forall k :: old(zout) <= k < zout ==> zoutStart[k] == zoutStart[k - dist]
    {
      var start, stop := zout, zout + len;
      if dist == 1 {
        var v := zoutStart[zout - 1];
        while zout < stop
          invariant start <= zout <= stop && Valid()
          invariant zoutStart[..start] == old(Output())
          invariant forall k :: start - 1 <= k < zout ==> zoutStart[k] == v
        {
          zoutStart[zout] := v;
          zout := zout + 1;
        }
      } else {
        var p := zout - dist;
        while zout < stop
          invariant start <= zout <= stop && p == zout - dist && Valid()
          invariant zoutStart[..start] == old(Output())
          invariant forall k :: start <= k < zout ==> zoutStart[k] == zoutStart[k - dist]
        {
          zoutStart[zout] := zoutStart[p];
          zout, p := zout + 1, p + 1;
        }
      }
    }

    lemma SymbolInRange(lens: seq<nat>, p: nat, i: nat)
      requires SymbolAt(lens, zbuffer, p, i)
      ensures i < |lens| && CodeLength(lens, i) == lens[i]
    {}

    // A distance symbol and its extra bits.
    method ReadDistance(ghost dl: seq<nat>) returns (d: int, dx: nat)
      requires BufferOk() && zDistance.Decodes(dl) && |dl| <= 32
      modifies `pos, `numBits, `codeBuffer, `fetched
      ensures BufferOk() && fetched >= old(fetched)
      ensures d >= 0 ==> SymbolAt(dl, zbuffer, old(BitPos()), d) && d < |dl|
      ensures d >= 0 ==> dx == Window(zbuffer, old(BitPos()) + CodeLength(dl, d), DistExtra(d))
      ensures d >= 0 ==> BitPos() == old(BitPos()) + CodeLength(dl, d) + DistExtra(d)
      ensures d >= 0 ==> CodeLeft(zbuffer, old(BitPos()), old(numBits), CodeLength(dl, d)).Left?
      ensures d >= 0 ==> numBits == Received(CodeLeft(zbuffer, old(BitPos()), old(numBits), CodeLength(dl, d)).n, DistExtra(d))
      ensures d < 0 ==>
        || !Primable(zbuffer, old(BitPos()), old(numBits))
        || forall i: nat :: !SymbolAt(dl, zbuffer, old(BitPos()), i)
    {
      hide SymbolAt, Window, Acceptable, DistExtra, CodeLeft, Received, CodeLength;
      ghost var p2 := BitPos();
      dx := 0;
      d := HuffmanDecode(zDistance, dl);
      if d < 0 { return; }
      SymbolInRange(dl, p2, d);
      EmptyWindow(zbuffer, BitPos());
      NoneReceived(numBits);
      if DistExtra(d) != 0 {
        dx := Zreceive(DistExtra(d));
      }
    }

    // The copy token at p can be read to its end, with b bits buffered after its length symbol 257 + z.
    ghost predicate CanFinish(ll: seq<nat>, dl: seq<nat>, p: nat, z: nat, b: nat, t: Token) {
      && t.Copy? && t.lsym == z && TokenAt(ll, dl, zbuffer, p, t)
      && TailLeft(dl, zbuffer, p + CodeLength(ll, 257 + z), b, z, t.dsym).Left?
    }

    // The fields of a copy token after its length symbol 257 + z. If a token with this length symbol can
    // be read, it is the one read.
    method ReadCopy(z: nat, ghost ll: seq<nat>, ghost dl: seq<nat>, ghost p: nat, ghost hint: Token)
      returns (ok: bool, len: nat, dist: nat, ghost t: Token)
      requires BufferOk() && zDistance.Decodes(dl) && |dl| <= 32
      requires z < 31 && SymbolAt(ll, zbuffer, p, 257 + z) && BitPos() == p + CodeLength(ll, 257 + z)
      modifies `pos, `numBits, `codeBuffer, `fetched
      ensures BufferOk() && fetched >= old(fetched)
      ensures ok ==> TokenAt(ll, dl, zbuffer, p, t) && BitPos() == TokenEnd(ll, dl, p, t)
      ensures ok ==> t.Copy? && t.lsym == z && len == TokenLength(t) && dist == Distance(t)
      ensures ok ==> TailLeft(dl, zbuffer, old(BitPos()), old(numBits), z, t.dsym) == Left(numBits)
      ensures CanFinish(ll, dl, p, z, old(numBits), hint) ==> ok
    {
      hide SymbolAt, Window, Acceptable, TokenAt, TokenEnd, LengthBase, LengthExtra, DistBase, DistExtra, Received, CodeLength, ZHuffman.Decodes;
      hide CodeLeft, Primable, ZBuf.CanFinish;
      t := Literal(0);
      ghost var p1, b1 := BitPos(), numBits;
      len, dist := LengthBase(z), 0;
      var lx := 0;
      EmptyWindow(zbuffer, p1);
      NoneReceived(numBits);
      if LengthExtra(z) != 0 {
        lx := Zreceive(LengthExtra(z));
        len := len + lx;
      }
      ghost var can, ds := CanFinish(ll, dl, p, z, b1, hint), if hint.Copy? then hint.dsym else 0;
      if can { HintTail(ll, dl, p, z, hint, b1); }
      assert BitPos() == p + CodeLength(ll, 257 + z) + LengthExtra(z);
      assert can ==> Primable(zbuffer, BitPos(), numBits) && SymbolAt(dl, zbuffer, BitPos(), ds);
      var d, dx := ReadDistance(dl);
      if d < 0 { return false, len, dist, t; }
      dist := DistBase(d) + dx;
      t := Copy(z, lx, d, dx);
      CopyAt(ll, dl, p, z, lx, d, dx);
      ok := true;
    }

    // A token that can be read shows its distance symbol after its length bits, with the bits it needs.
    lemma HintTail(ll: seq<nat>, dl: seq<nat>, p: nat, z: nat, hint: Token, b1: nat)
      requires CanFinish(ll, dl, p, z, b1, hint)
      ensures hint.Copy?
      ensures SymbolAt(dl, zbuffer, p + CodeLength(ll, 257 + z) + LengthExtra(z), hint.dsym)
      ensures Primable(zbuffer, p + CodeLength(ll, 257 + z) + LengthExtra(z), Received(b1, LengthExtra(z)))
    {
      hide SymbolAt, Window, CodeLength, LengthExtra, DistExtra, Received;
    }

    lemma CopyAt(ll: seq<nat>, dl: seq<nat>, p: nat, z: nat, lx: nat, d: nat, dx: nat)
      requires z < 31 && d < 32
      requires SymbolAt(ll, zbuffer, p, 257 + z)
      requires var p1 := p + CodeLength(ll, 257 + z);
               var p2 := p1 + LengthExtra(z);
               && Window(zbuffer, p1, LengthExtra(z)) == lx
               && SymbolAt(dl, zbuffer, p2, d)
               && Window(zbuffer, p2 + CodeLength(dl, d), DistExtra(d)) == dx
      ensures TokenAt(ll, dl, zbuffer, p, Copy(z, lx, d, dx))
      ensures TokenEnd(ll, dl, p, Copy(z, lx, d, dx))
           == p + CodeLength(ll, 257 + z) + LengthExtra(z) + CodeLength(dl, d) + DistExtra(d)
    {
      hide Window, LengthExtra, DistExtra, SymbolAt, CodeLength;
    }

    lemma CopyIsStep(before: seq<byte>, t: Token, after: seq<byte>)
      requires t.Copy? && Distance(t) <= |before|
      requires |after| == |before| + TokenLength(t) && after[..|before|] == before
      requires forall k :: |before| <= k < |after| ==> after[k] == after[k - Distance(t)]
      ensures StepTo(before, t, after)
    {}

    // Performs a copy if it is within reach, after making room if there is too little.
    method PerformCopy(len: nat, dist: nat, ghost t: Token) returns (ok: bool)
      requires Valid() && t.Copy? && len == TokenLength(t) && dist == Distance(t)
      modifies `zoutStart, `zout, zoutStart
      ensures Valid() && (zoutStart == old(zoutStart) || (expandable && fresh(zoutStart))) && MaxOut() == old(MaxOut())
      ensures ok ==> StepTo(old(Output()), t, Output())
      ensures ok <==> dist <= old(zout) && old(zout) + len <= old(MaxOut())
    {
      hide TokenLength, Distance, StepTo, Reach;
      ghost var out := Output();
      if zout < dist { return false; }
      if zout + len > zoutStart.Length {
        ok := Zexpand(len);
        if !ok { return; }
      }
      CopyBack(len, dist);
      CopyIsStep(out, t, Output());
      ok := true;
    }

    // Reads and performs a copy. If a token with this length symbol can be read and performed, it is.
    method ParseCopy(z: nat, ghost ll: seq<nat>, ghost dl: seq<nat>, ghost p: nat, ghost hint: Token)
      returns (ok: bool, ghost t: Token)
      requires Valid() && zDistance.Decodes(dl) && |dl| <= 32 && ValidLengths(ll)
      requires z < 31 && SymbolAt(ll, zbuffer, p, 257 + z) && BitPos() == p + CodeLength(ll, 257 + z)
      modifies `pos, `numBits, `codeBuffer, `fetched, `zoutStart, `zout, zoutStart
      ensures Valid() && (zoutStart == old(zoutStart) || (expandable && fresh(zoutStart))) && MaxOut() == old(MaxOut())
      ensures fetched >= old(fetched)
      ensures ok ==> TokenAt(ll, dl, zbuffer, p, t) && BitPos() == TokenEnd(ll, dl, p, t) && t.Copy? && t.lsym == z
      ensures ok ==> TailLeft(dl, zbuffer, old(BitPos()), old(numBits), z, t.dsym) == Left(numBits)
      ensures ok ==> Distance(t) <= old(zout) && old(zout) + TokenLength(t) <= old(MaxOut())
      ensures ok ==> StepTo(old(Output()), t, Output())
      ensures CanFinish(ll, dl, p, z, old(numBits), hint) ==>
        (ok <==> Distance(hint) <= old(zout) && old(zout) + TokenLength(hint) <= old(MaxOut()))
    {
      hide SymbolAt, Window, ValidLengths, Acceptable, TokenAt, TokenEnd, TokenLength, Distance, StepTo, TailLeft, CodeLength, Reach;
      hide ZHuffman.Decodes;
      zDistance.DecodesShape(dl);
      var len, dist;
      ok, len, dist, t := ReadCopy(z, ll, dl, p, hint);
      if !ok { return; }
      if CanFinish(ll, dl, p, z, old(numBits), hint) { TokenUnique(ll, dl, zbuffer, p, t, hint); }
      ok := PerformCopy(len, dist, t);
    }

    // The literal/length symbol of the next token or of the end of the block.
    method ReadHead(ghost ll: seq<nat>) returns (z: int)
      requires Valid() && zLength.Decodes(ll)
      modifies `pos, `numBits, `codeBuffer, `fetched
      ensures Valid() && fetched >= old(fetched)
      ensures z >= 0 ==> SymbolAt(ll, zbuffer, old(BitPos()), z) && z < |ll| <= 288
      ensures z >= 0 ==> BitPos() == old(BitPos()) + CodeLength(ll, z)
      ensures z >= 0 ==> CodeLeft(zbuffer, old(BitPos()), old(numBits), CodeLength(ll, z)) == Left(numBits)
      ensures z < 0 ==>
        || !Primable(zbuffer, old(BitPos()), old(numBits))
        || forall i: nat :: !SymbolAt(ll, zbuffer, old(BitPos()), i)
    {
      hide SymbolAt, Window, Acceptable, Pow2, CodeLeft, Primable, CodeLength;
      ghost var p := BitPos();
      z := HuffmanDecode(zLength, ll);
      if z < 0 { return; }
      SymbolInRange(ll, p, z);
    }

    // One round of the decoding loop: the next token, if there is one that can be read and performed, or
    // the end of the block, if that can be read.
    method ParseToken(ghost ll: seq<nat>, ghost dl: seq<nat>, ghost hint: Token) returns (r: Outcome, ghost t: Token)
      requires Valid() && zLength.Decodes(ll) && zDistance.Decodes(dl) && |dl| <= 32
      modifies `pos, `numBits, `codeBuffer, `fetched, `zoutStart, `zout, zoutStart
      ensures Valid() && (zoutStart == old(zoutStart) || (expandable && fresh(zoutStart))) && MaxOut() == old(MaxOut())
      ensures fetched >= old(fetched)
      ensures r == Continued ==> CanRead(ll, dl, zbuffer, old(BitPos()), old(numBits), old(zout), old(MaxOut()), t)
      ensures r == Continued ==> BitPos() == TokenEnd(ll, dl, old(BitPos()), t) && StepTo(old(Output()), t, Output())
      ensures r == Continued ==> TokenLeft(ll, dl, zbuffer, old(BitPos()), old(numBits), t) == Left(numBits)
      ensures r == EndOfBlock ==> SymbolAt(ll, zbuffer, old(BitPos()), END_OF_BLOCK)
      ensures r == EndOfBlock ==> BitPos() == old(BitPos()) + CodeLength(ll, END_OF_BLOCK) && Output() == old(Output())
      ensures r == EndOfBlock ==> CodeLeft(zbuffer, old(BitPos()), old(numBits), CodeLength(ll, END_OF_BLOCK)) == Left(numBits)
      ensures CanRead(ll, dl, zbuffer, old(BitPos()), old(numBits), old(zout), old(MaxOut()), hint) ==> r == Continued && t == hint
      ensures SymbolAt(ll, zbuffer, old(BitPos()), END_OF_BLOCK) && Primable(zbuffer, old(BitPos()), old(numBits)) ==> r == EndOfBlock
    {
      hide *;
      ValidParts();
      zLength.DecodesShape(ll);
      zDistance.DecodesShape(dl);
      t := Literal(0);
      ghost var p, out, b, n, limit := BitPos(), Output(), numBits, zout, MaxOut();
      ghost var can := CanRead(ll, dl, zbuffer, p, b, n, limit, hint);
      ghost var end := SymbolAt(ll, zbuffer, p, END_OF_BLOCK) && Primable(zbuffer, p, b);
      if can { HintHead(ll, dl, p, b, n, limit, hint); }
      var z := ReadHead(ll);
      if z < 0 { return Failed, t; }
      if can { SymbolUnique(ll, zbuffer, p, z, HeadSymbol(hint)); }
      if end { SymbolUnique(ll, zbuffer, p, z, END_OF_BLOCK); }
      if z < 256 {
        t := Literal(z);
        LiteralAt(ll, dl, p, b, z);
        LiteralIsStep(out, z);
        if can { HintLiteral(ll, dl, p, b, n, limit, hint); }
        var ok := PutLiteral(z);
        r := if ok then Continued else Failed;
        if ok { LiteralRead(ll, dl, p, b, n, limit, z); }
      } else if z == 256 {
        r := EndOfBlock;
      } else {
        var ok;
        ghost var b1 := numBits;
        if can { HintCopy(ll, dl, p, b, n, limit, hint, z - 257, b1); }
        ok, t := ParseCopy(z - 257, ll, dl, p, hint);
        r := if ok then Continued else Failed;
        if ok { CopyRead(ll, dl, p, b, n, limit, t, z - 257, b1, numBits); }
        if ok && can { TokenUnique(ll, dl, zbuffer, p, t, hint); }
      }
    }

    lemma ValidParts()
      requires Valid()
      ensures BufferOk() && BitPos() >= 0 && zout <= zoutStart.Length && END_OF_BLOCK == 256 && numBits <= BUFFER_BITS
    {}

    // A token that can be read shows its head symbol, with the bits it needs.
    lemma HintHead(ll: seq<nat>, dl: seq<nat>, p: nat, b: nat, n: nat, limit: nat, hint: Token)
      requires CanRead(ll, dl, zbuffer, p, b, n, limit, hint)
      ensures SymbolAt(ll, zbuffer, p, HeadSymbol(hint)) && Primable(zbuffer, p, b) && TokenAt(ll, dl, zbuffer, p, hint)
      ensures HeadSymbol(hint) != END_OF_BLOCK
    {
      hide SymbolAt, Window, TailLeft;
    }

    lemma HintLiteral(ll: seq<nat>, dl: seq<nat>, p: nat, b: nat, n: nat, limit: nat, hint: Token)
      requires CanRead(ll, dl, zbuffer, p, b, n, limit, hint)
      ensures HeadSymbol(hint) < 256 ==> hint == Literal(HeadSymbol(hint)) && n + 1 <= limit
    {
      hide SymbolAt, Window, TailLeft, CodeLeft;
    }

    lemma HintCopy(ll: seq<nat>, dl: seq<nat>, p: nat, b: nat, n: nat, limit: nat, hint: Token, z: nat, b1: nat)
      requires CanRead(ll, dl, zbuffer, p, b, n, limit, hint) && HeadSymbol(hint) == 257 + z
      requires CodeLeft(zbuffer, p, b, CodeLength(ll, 257 + z)) == Left(b1)
      ensures hint.Copy? && hint.lsym == z && Distance(hint) <= n && n + TokenLength(hint) <= limit
      ensures CanFinish(ll, dl, p, z, b1, hint)
    {
      hide SymbolAt, Window, TailLeft, CodeLeft, CodeLength;
    }

    lemma LiteralAt(ll: seq<nat>, dl: seq<nat>, p: nat, b: nat, z: nat)
      requires SymbolAt(ll, zbuffer, p, z) && z < 256
      ensures TokenAt(ll, dl, zbuffer, p, Literal(z)) && TokenEnd(ll, dl, p, Literal(z)) == p + CodeLength(ll, z)
      ensures TokenLeft(ll, dl, zbuffer, p, b, Literal(z)) == CodeLeft(zbuffer, p, b, CodeLength(ll, z))
    {}

    lemma LiteralRead(ll: seq<nat>, dl: seq<nat>, p: nat, b: nat, n: nat, limit: nat, z: nat)
      requires SymbolAt(ll, zbuffer, p, z) && z < 256 && CodeLeft(zbuffer, p, b, CodeLength(ll, z)).Left? && n + 1 <= limit
      ensures CanRead(ll, dl, zbuffer, p, b, n, limit, Literal(z))
    {}

    lemma CopyRead(ll: seq<nat>, dl: seq<nat>, p: nat, b: nat, n: nat, limit: nat, t: Token, z: nat, b1: nat, b2: nat)
      requires TokenAt(ll, dl, zbuffer, p, t) && t.Copy? && t.lsym == z && Distance(t) <= n && n + TokenLength(t) <= limit
      requires CodeLeft(zbuffer, p, b, CodeLength(ll, 257 + z)) == Left(b1)
      requires TailLeft(dl, zbuffer, p + CodeLength(ll, 257 + z), b1, z, t.dsym) == Left(b2)
      ensures CanRead(ll, dl, zbuffer, p, b, n, limit, t) && TokenLeft(ll, dl, zbuffer, p, b, t) == Left(b2)
    {
      hide TokenAt, TailLeft, CodeLeft, CodeLength;
    }

    lemma LiteralIsStep(before: seq<byte>, b: byte)
      ensures StepTo(before, Literal(b), before + [b])
    {}

    // ---------- the decoding loop ----------

    // Decoding will go on forever: only zero bits follow, they stand for a copy of length 0, and the
    // buffered bits of the rounds to come never run out.
    ghost predicate Stuck(ll: seq<nat>, dl: seq<nat>)
      reads `numBits, `fetched, `zout
    {
      ZerosFrom(zbuffer, BitPos()) && EndlessCodes(ll, dl, zout, numBits)
    }

    // The rounds since the output last grew: each began with only zero bits to come, read the same copy
    // of length 0, and began with another number of buffered bits.
    ghost predicate Trailing(ll: seq<nat>, dl: seq<nat>, seen: seq<nat>, t: Token)
      reads `pos, `numBits, `fetched, `zout
    {
      seen != [] ==> Dry() && IdleToken(ll, dl, zout, t) && Trail(PaceOf(ll, dl, t), seen, numBits)
    }

    // The state is closer to the end of the loop than one with n bytes of output, at position q, with k
    // idle rounds.
    ghost predicate Closer(n: nat, q: int, k: nat, seen: seq<nat>)
      reads `numBits, `fetched, `zout
    {
      || n < zout
      || (n == zout && q < BitPos() && (q < 8 * |zbuffer| || k < |seen|))
    }

    // One round, and the idle rounds up to it. It must not begin with buffered bits that an idle round
    // has begun with. Stuck rounds go on.
    method TrackToken(ghost ll: seq<nat>, ghost dl: seq<nat>, ghost hint: Token, dry: bool, seen: seq<nat>, ghost idle: Token)
      returns (r: Outcome, ghost t: Token, seen': seq<nat>)
      requires Valid() && zLength.Decodes(ll) && zDistance.Decodes(dl) && |dl| <= 32
      requires (dry ==> Dry()) && (8 * |zbuffer| <= BitPos() ==> dry)
      requires Trailing(ll, dl, seen, idle) && !(dry && numBits in seen)
      modifies `pos, `numBits, `codeBuffer, `fetched, `zoutStart, `zout, zoutStart
      ensures Valid() && (zoutStart == old(zoutStart) || (expandable && fresh(zoutStart))) && MaxOut() == old(MaxOut())
      ensures r == Continued ==> CanRead(ll, dl, zbuffer, old(BitPos()), old(numBits), old(zout), old(MaxOut()), t)
      ensures r == Continued ==> BitPos() == TokenEnd(ll, dl, old(BitPos()), t) && StepTo(old(Output()), t, Output())
      ensures r == Continued ==> TokenLeft(ll, dl, zbuffer, old(BitPos()), old(numBits), t) == Left(numBits)
      ensures r == EndOfBlock ==> SymbolAt(ll, zbuffer, old(BitPos()), END_OF_BLOCK)
      ensures r == EndOfBlock ==> BitPos() == old(BitPos()) + CodeLength(ll, END_OF_BLOCK) && Output() == old(Output())
      ensures r == EndOfBlock ==> CodeLeft(zbuffer, old(BitPos()), old(numBits), CodeLength(ll, END_OF_BLOCK)) == Left(numBits)
      ensures CanRead(ll, dl, zbuffer, old(BitPos()), old(numBits), old(zout), old(MaxOut()), hint) ==> r == Continued && t == hint
      ensures SymbolAt(ll, zbuffer, old(BitPos()), END_OF_BLOCK) && Primable(zbuffer, old(BitPos()), old(numBits)) ==> r == EndOfBlock
      ensures old(Stuck(ll, dl)) ==> r == Continued && Stuck(ll, dl)
      ensures r == Continued ==> Trailing(ll, dl, seen', t) && Closer(old(zout), old(BitPos()), |seen|, seen')
    {
      hide SymbolAt, Window, Acceptable, TokenAt, TokenEnd, TokenLength, Distance, CanRead, CodeLeft, Primable, Pow2, ZHuffman.Decodes, Reach;
      hide ZBuf.Dry, ZerosFrom, ZBuf.Stuck, ZBuf.Trailing, IdleToken, PaceOf, Trail, Round, Endless, EndlessCodes, CodeLength;
      ghost var p, stuck, limit := BitPos(), Stuck(ll, dl), MaxOut();
      var b, n := numBits, zout;
      ghost var guess := hint;
      ghost var next := hint;
      if stuck { next := StuckHint(ll, dl); }
      if stuck && !CanRead(ll, dl, zbuffer, p, b, n, limit, hint) { guess := next; }
      TrailParts(ll, dl, seen, idle);
      if dry { DryParts(); }
      zLength.DecodesShape(ll);
      zDistance.DecodesShape(dl);
      r, t := ParseToken(ll, dl, guess);
      seen' := [];
      if r != Continued { return; }
      CanReadParts(ll, dl, p, b, n, limit, t);
      TokenMoves(ll, dl, zbuffer, p, t);
      if stuck { StillStuck(ll, dl, p, b, n, next, t); }
      if dry && zout == n {
        ZerosLater(zbuffer, p, BitPos());
        DryAgain();
        ReadIsIdle(ll, dl, zbuffer, p, b, n, t);
        TrailMore(ll, dl, seen, idle, t, b);
        seen' := seen + [b];
      } else {
        NoTrail(ll, dl, t);
      }
    }

    lemma CanReadParts(ll: seq<nat>, dl: seq<nat>, p: nat, b: nat, n: nat, limit: nat, t: Token)
      requires CanRead(ll, dl, zbuffer, p, b, n, limit, t)
      ensures TokenAt(ll, dl, zbuffer, p, t) && TokenLeft(ll, dl, zbuffer, p, b, t).Left? && (t.Copy? ==> Distance(t) <= n)
    {}

    // The next token of a stuck block, which can be read.
    lemma StuckHint(ll: seq<nat>, dl: seq<nat>) returns (t: Token)
      requires Valid() && Stuck(ll, dl)
      ensures ZerosFrom(zbuffer, BitPos()) && IdleToken(ll, dl, zout, t) && Endless(PaceOf(ll, dl, t), numBits)
      ensures CanRead(ll, dl, zbuffer, BitPos(), numBits, zout, MaxOut(), t)
    {
      hide PaceOf, Endless, ZerosFrom, Distance, Round, ZeroSymbol, TokenAt, TokenLeft, Reach;
      t :| IdleToken(ll, dl, zout, t) && Endless(PaceOf(ll, dl, t), numBits);
      EndlessNext(PaceOf(ll, dl, t), numBits);
      IdleIsRead(ll, dl, zbuffer, BitPos(), numBits, zout, t);
    }

    lemma StillStuck(ll: seq<nat>, dl: seq<nat>, p: nat, b: nat, n: nat, next: Token, t: Token)
      requires ValidLengths(ll) && ValidLengths(dl) && BufferOk() && ZerosFrom(zbuffer, p) && p <= BitPos()
      requires IdleToken(ll, dl, n, next) && Endless(PaceOf(ll, dl, next), b)
      requires TokenAt(ll, dl, zbuffer, p, t) && TokenLeft(ll, dl, zbuffer, p, b, t) == Left(numBits)
      requires zout == n + TokenLength(t)
      ensures Stuck(ll, dl)
    {
      hide PaceOf, Endless, ZerosFrom, Round, IdleToken, TokenAt, TokenLeft, TokenLength, ValidLengths;
      EndlessNext(PaceOf(ll, dl, next), b);
      IdleIsRead(ll, dl, zbuffer, p, b, n, next);
      TokenUnique(ll, dl, zbuffer, p, t, next);
      ZerosLater(zbuffer, p, BitPos());
    }

    // What has been decoded, from position p, b buffered bits and output `out` on.
    ghost predicate Decoded(ll: seq<nat>, dl: seq<nat>, p: nat, b: nat, out: seq<byte>, limit: nat, toks: seq<Token>)
      reads `numBits, `fetched, `zoutStart, `zout, zoutStart
      requires zout <= zoutStart.Length
    {
      && AllRead(ll, dl, zbuffer, p, b, |out|, limit, toks)
      && BitPos() == TokensEnd(ll, dl, p, toks) && TokensLeft(ll, dl, zbuffer, p, b, toks) == Left(numBits)
      && zout == |out| + Produced(toks) && Expands(out, toks, Output())
    }

    // A plan is a list of tokens that can be read up to the end of the block, or to where decoding gets stuck.
    ghost predicate Plans(ll: seq<nat>, dl: seq<nat>, p: nat, b: nat, n: nat, limit: nat, plan: seq<Token>, ends: bool, sticks: bool) {
      && (ends ==> Ends(ll, dl, zbuffer, p, b, n, limit, plan))
      && (sticks ==> Sticks(ll, dl, zbuffer, p, b, n, limit, plan))
    }

    ghost predicate OnPlan(ll: seq<nat>, dl: seq<nat>, toks: seq<Token>, plan: seq<Token>, ends: bool, sticks: bool)
      reads `numBits, `fetched, `zout
    {
      && (ends ==> toks <= plan)
      && (sticks ==> toks <= plan || Stuck(ll, dl))
    }

    // One more round of the loop.
    method NextRound(ghost ll: seq<nat>, ghost dl: seq<nat>, ghost p: nat, ghost b: nat, ghost out: seq<byte>, ghost limit: nat,
                     ghost toks: seq<Token>, ghost plan: seq<Token>, ghost ends: bool, ghost sticks: bool,
                     dry: bool, seen: seq<nat>, ghost idle: Token)
      returns (r: Outcome, ghost t: Token, seen': seq<nat>)
      requires Valid() && zLength.Decodes(ll) && zDistance.Decodes(dl) && |dl| <= 32
      requires Decoded(ll, dl, p, b, out, limit, toks) && limit == MaxOut()
      requires Plans(ll, dl, p, b, |out|, limit, plan, ends, sticks) && OnPlan(ll, dl, toks, plan, ends, sticks)
      requires (dry ==> Dry()) && (8 * |zbuffer| <= BitPos() ==> dry)
      requires Trailing(ll, dl, seen, idle) && !(dry && numBits in seen)
      modifies `pos, `numBits, `codeBuffer, `fetched, `zoutStart, `zout, zoutStart
      ensures Valid() && (zoutStart == old(zoutStart) || (expandable && fresh(zoutStart))) && limit == MaxOut()
      ensures r == Continued ==> Decoded(ll, dl, p, b, out, limit, toks + [t]) && OnPlan(ll, dl, toks + [t], plan, ends, sticks)
      ensures r == Continued ==> Trailing(ll, dl, seen', t) && Closer(old(zout), old(BitPos()), |seen|, seen')
      ensures r == EndOfBlock ==> Ends(ll, dl, zbuffer, p, b, |out|, limit, toks) && Output() == old(Output())
      ensures r == EndOfBlock ==> BitPos() == TokensEnd(ll, dl, p, toks) + CodeLength(ll, END_OF_BLOCK)
      ensures r == EndOfBlock ==> numBits == EndLeft(ll, dl, zbuffer, p, b, toks)
      ensures ends ==> r != Failed
      ensures sticks ==> r == Continued
    {
      hide SymbolAt, Acceptable, TokenAt, TokenEnd, TokenLength, Distance, StepTo, Expands, TokensAt, TokensEnd, TokenLeft, TokensLeft, CanRead;
      hide ZBuf.Dry, ZBuf.Stuck, ZBuf.Trailing, ZBuf.Closer, AllRead, Produced, Reachable, CodeLength, Reach, Primable, ZHuffman.Decodes;
      hide ZBuf.Plans, ZBuf.OnPlan;
      ghost var before := Output();
      ghost var on, hint := NextOf(ll, dl, p, b, out, limit, toks, plan, ends, sticks);
      r, t, seen' := TrackToken(ll, dl, hint, dry, seen, idle);
      if r == Continued {
        OneMoreRead(ll, dl, zbuffer, p, b, |out|, limit, toks, t);
        MoreTokens(toks, t, out, before, Output());
        StaysOnPlan(ll, dl, toks, plan, ends, sticks, t);
      }
    }

    lemma StaysOnPlan(ll: seq<nat>, dl: seq<nat>, toks: seq<Token>, plan: seq<Token>, ends: bool, sticks: bool, t: Token)
      requires ends ==> toks + [t] <= plan
      requires sticks ==> toks + [t] <= plan || Stuck(ll, dl)
      ensures OnPlan(ll, dl, toks + [t], plan, ends, sticks)
    {
      hide ZBuf.Stuck;
    }

    // The next token of a plan can be read. Where the plan is carried out the block ends, or decoding is stuck.
    lemma NextOf(ll: seq<nat>, dl: seq<nat>, p: nat, b: nat, out: seq<byte>, limit: nat, toks: seq<Token>, plan: seq<Token>,
                 ends: bool, sticks: bool)
      returns (on: bool, hint: Token)
      requires zout <= zoutStart.Length && Decoded(ll, dl, p, b, out, limit, toks)
      requires Plans(ll, dl, p, b, |out|, limit, plan, ends, sticks) && OnPlan(ll, dl, toks, plan, ends, sticks)
      ensures on ==> CanRead(ll, dl, zbuffer, BitPos(), numBits, zout, limit, hint) && toks + [hint] <= plan
      ensures ends && !on ==> SymbolAt(ll, zbuffer, BitPos(), END_OF_BLOCK) && Primable(zbuffer, BitPos(), numBits)
      ensures sticks && !on ==> Stuck(ll, dl)
    {
      hide AllRead, CanRead, TokensEnd, TokensLeft, Produced, EndlessCodes, SymbolAt, Primable, ZerosFrom, Expands;
      hint := Literal(0);
      on := (ends || sticks) && toks <= plan && |toks| < |plan|;
      if on {
        hint := plan[|toks|];
        assert plan[..|toks|] == toks;
        ReadAt(ll, dl, zbuffer, p, b, |out|, limit, plan, |toks|);
      } else if (ends || sticks) && toks <= plan {
        assert toks == plan;
      }
    }

    lemma MoreTokens(toks: seq<Token>, t: Token, out: seq<byte>, before: seq<byte>, after: seq<byte>)
      requires Expands(out, toks, before) && StepTo(before, t, after)
      ensures Expands(out, toks + [t], after) && |after| == |before| + TokenLength(t)
    {
      hide *;
      ExpandsMore(out, toks, t, before, after);
    }

    // Decodes tokens up to the end of the block. The loop ends unless decoding gets stuck; then the
    // rounds come back to a number of buffered bits they have begun with before. It succeeds exactly if
    // there are tokens that can be read up to the end of the block, and goes on forever exactly if there
    // are tokens behind which it gets stuck.
    method ParseHuffmanBlock(ghost ll: seq<nat>, ghost dl: seq<nat>) returns (r: Verdict, ghost toks: seq<Token>)
      requires Valid() && zLength.Decodes(ll) && zDistance.Decodes(dl) && |dl| <= 32
      modifies `pos, `numBits, `codeBuffer, `fetched, `zoutStart, `zout, zoutStart
      ensures Valid() && (zoutStart == old(zoutStart) || (expandable && fresh(zoutStart))) && MaxOut() == old(MaxOut())
      ensures r == Accepted ==> Ends(ll, dl, zbuffer, old(BitPos()), old(numBits), old(zout), old(MaxOut()), toks)
      ensures r == Accepted ==> BitPos() == TokensEnd(ll, dl, old(BitPos()), toks) + CodeLength(ll, END_OF_BLOCK)
      ensures r == Accepted ==> numBits == EndLeft(ll, dl, zbuffer, old(BitPos()), old(numBits), toks)
      ensures r == Accepted ==> Expands(old(Output()), toks, Output())
      ensures r == Hangs ==> Sticks(ll, dl, zbuffer, old(BitPos()), old(numBits), old(zout), old(MaxOut()), toks)
      ensures r == Hangs ==> Expands(old(Output()), toks, Output())
      ensures (exists ts :: Ends(ll, dl, zbuffer, old(BitPos()), old(numBits), old(zout), old(MaxOut()), ts)) ==> r == Accepted
      ensures (exists ts :: Sticks(ll, dl, zbuffer, old(BitPos()), old(numBits), old(zout), old(MaxOut()), ts)) ==> r == Hangs
    {
      hide SymbolAt, Acceptable, Expands, AllRead, TokensAt, TokensEnd, TokensLeft, Reachable, Produced, Ends, Sticks, EndLeft, Reach;
      hide ZBuf.Dry, ZBuf.Stuck, ZBuf.Trailing, CodeLength, ZHuffman.Decodes, ZBuf.Plans, ZBuf.OnPlan, ZBuf.Decoded;
      hide Window, ZBuf.MaxOut, ZHuffman.Shape, ValidLengths;
      zLength.DecodesShape(ll);
      zDistance.DecodesShape(dl);
      ghost var p, b, out, limit := BitPos(), numBits, Output(), MaxOut();
      ghost var plan, ends, sticks := ChoosePlan(ll, dl, p, b, |out|, limit);
      toks := [];
      NoTokens(ll, dl, p, b, out, limit, plan, ends, sticks);
      var seen: seq<nat> := [];
      ghost var t := Literal(0);
      NoTrail(ll, dl, t);
      while true
        invariant Valid() && (zoutStart == old(zoutStart) || (expandable && fresh(zoutStart))) && limit == MaxOut()
        invariant Decoded(ll, dl, p, b, out, limit, toks) && OnPlan(ll, dl, toks, plan, ends, sticks)
        invariant Trailing(ll, dl, seen, t) && |seen| <= BUFFER_BITS + 1
        decreases UINT_MAX - zout, Max(0, 8 * |zbuffer| - BitPos()), BUFFER_BITS + 1 - |seen|
      {
        var dry := IsDry();
        if dry && numBits in seen {
          Revisited(ll, dl, seen, t);
          SticksHere(ll, dl, p, b, out, limit, toks, plan, ends, sticks);
          return Hangs, toks;
        }
        var r';
        DecodedParts(ll, dl, p, b, out, limit, toks);
        r', t, seen := NextRound(ll, dl, p, b, out, limit, toks, plan, ends, sticks, dry, seen, t);
        if r' == Failed { return Rejected, toks; }
        if r' == EndOfBlock { return Accepted, toks; }
        TrailParts(ll, dl, seen, t);
        toks := toks + [t];
      }
    }

    lemma DecodedParts(ll: seq<nat>, dl: seq<nat>, p: nat, b: nat, out: seq<byte>, limit: nat, toks: seq<Token>)
      requires zout <= zoutStart.Length && Decoded(ll, dl, p, b, out, limit, toks)
      ensures Expands(out, toks, Output())
    {
      hide AllRead, TokensEnd, TokensLeft, Produced, Expands;
    }

    // Tokens up to the end of the block, or to where decoding gets stuck, if there are such tokens.
    lemma ChoosePlan(ll: seq<nat>, dl: seq<nat>, p: nat, b: nat, n: nat, limit: nat)
      returns (plan: seq<Token>, ends: bool, sticks: bool)
      requires ValidLengths(ll) && ValidLengths(dl)
      ensures ends <==> exists ts :: Ends(ll, dl, zbuffer, p, b, n, limit, ts)
      ensures sticks <==> exists ts :: Sticks(ll, dl, zbuffer, p, b, n, limit, ts)
      ensures Plans(ll, dl, p, b, n, limit, plan, ends, sticks) && !(ends && sticks)
    {
      hide AllRead, TokensEnd, TokensLeft, EndlessCodes, SymbolAt, ZerosFrom, ValidLengths, Produced;
      plan, ends, sticks := [], false, false;
      if ts :| Ends(ll, dl, zbuffer, p, b, n, limit, ts) {
        plan, ends := ts, true;
        forall us: seq<Token> ensures !Sticks(ll, dl, zbuffer, p, b, n, limit, us) {
          EndsNowhereStuck(ll, dl, zbuffer, p, b, n, limit, ts, us);
        }
      } else if us :| Sticks(ll, dl, zbuffer, p, b, n, limit, us) {
        plan, sticks := us, true;
      }
    }

    lemma SticksHere(ll: seq<nat>, dl: seq<nat>, p: nat, b: nat, out: seq<byte>, limit: nat, toks: seq<Token>, plan: seq<Token>,
                     ends: bool, sticks: bool)
      requires zout <= zoutStart.Length && Decoded(ll, dl, p, b, out, limit, toks) && Stuck(ll, dl)
      requires ValidLengths(ll) && ValidLengths(dl) && Plans(ll, dl, p, b, |out|, limit, plan, ends, sticks)
      ensures Sticks(ll, dl, zbuffer, p, b, |out|, limit, toks) && Expands(out, toks, Output()) && !ends
    {
      hide AllRead, TokensEnd, TokensLeft, EndlessCodes, ZerosFrom, Produced, Expands, ValidLengths, SymbolAt;
      if ends { EndsNowhereStuck(ll, dl, zbuffer, p, b, |out|, limit, plan, toks); }
    }

    lemma TrailParts(ll: seq<nat>, dl: seq<nat>, seen: seq<nat>, t: Token)
      requires BufferOk() && Trailing(ll, dl, seen, t)
      ensures seen != [] ==> Dry() && IdleToken(ll, dl, zout, t) && Trail(PaceOf(ll, dl, t), seen, numBits)
      ensures |seen| <= BUFFER_BITS + 1
    {
      hide IdleToken, PaceOf, Trail, ZBuf.Dry;
      if seen != [] { ShortTrail(PaceOf(ll, dl, t), seen, numBits); }
    }

    lemma DryParts()
      requires BufferOk() && Dry()
      ensures fetched >= |zbuffer| && ZerosFrom(zbuffer, BitPos()) && BitPos() + numBits >= 8 * |zbuffer|
    {}

    lemma DryAgain()
      requires BufferOk() && fetched >= |zbuffer| && ZerosFrom(zbuffer, BitPos())
      ensures Dry()
    {}

    lemma Revisited(ll: seq<nat>, dl: seq<nat>, seen: seq<nat>, t: Token)
      requires BufferOk() && Trailing(ll, dl, seen, t) && numBits in seen
      ensures Stuck(ll, dl)
    {
      hide IdleToken, PaceOf, Endless, Trail, ZBuf.Dry, ZerosFrom;
      DryParts();
      BackAgain(PaceOf(ll, dl, t), seen, numBits);
    }

    lemma TrailMore(ll: seq<nat>, dl: seq<nat>, seen: seq<nat>, idle: Token, t: Token, b: nat)
      requires BufferOk() && Dry() && IdleToken(ll, dl, zout, t) && Round(PaceOf(ll, dl, t), b) == Left(numBits)
      requires ValidLengths(ll) && ValidLengths(dl) && b !in seen && b <= BUFFER_BITS
      requires seen != [] ==> IdleToken(ll, dl, zout, idle) && Trail(PaceOf(ll, dl, idle), seen, b)
      ensures Trailing(ll, dl, seen + [b], t)
    {
      hide IdleToken, PaceOf, Round, ZBuf.Dry;
      if seen != [] {
        IdleUnique(ll, dl, zout, idle, t);
      }
      LongerTrail(PaceOf(ll, dl, t), seen, b, numBits);
    }

    lemma NoTrail(ll: seq<nat>, dl: seq<nat>, t: Token)
      requires BufferOk()
      ensures Trailing(ll, dl, [], t)
    {}

    lemma NoTokens(ll: seq<nat>, dl: seq<nat>, p: nat, b: nat, out: seq<byte>, limit: nat, plan: seq<Token>, ends: bool, sticks: bool)
      requires Valid() && p == BitPos() && b == numBits && out == Output() && limit == MaxOut()
      ensures Decoded(ll, dl, p, b, out, limit, []) && OnPlan(ll, dl, [], plan, ends, sticks)
    {
      hide Reach, ZBuf.Stuck;
      NoneRead(ll, dl, zbuffer, p, b, |out|, limit);
    }
  }
}

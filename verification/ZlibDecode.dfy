// Block and stream parsing on top of the decoder's buffers.
module ZlibDecode {
  import opened Words
  import opened BitStream
  import opened CanonicalCode
  import opened HuffmanTables
  import opened DeflateFormat
  import opened ZlibFormat
  import opened FixedCodes
  import opened DynamicHeader
  import opened IdleRounds
  import opened Readable
  import opened ReadableStream
  import opened Inflate

  // ---------- stored blocks ----------

  // Byte i of the two's-complement-free header: the four bytes after the alignment point.
  ghost predicate HeaderBytes(input: seq<byte>, q: nat, k: nat, header: seq<int>) {
    |header| == 4 && k <= 4 && forall i :: 0 <= i < k ==> header[i] == Window(input, 8 * (q + i), 8)
  }

  // Drops the bits up to the next byte boundary.
  method AlignToByte(a: ZBuf)
    requires a.BufferOk() && a.numBits <= 31
    modifies a`pos, a`numBits, a`codeBuffer, a`fetched
    ensures a.BufferOk() && a.numBits % 8 == 0 && a.numBits <= 24
    ensures a.BitPos() == 8 * ByteAfter(old(a.BitPos()))
  {
    hide Window, ByteAfter, Pow2;
    ghost var p, n := a.BitPos(), a.numBits;
    var r := a.numBits % 8;
    assert (n - r) % 8 == 0 && n - r <= 24;
    if r != 0 {
      var _ := a.Zreceive(r);
    }
    AlignedAt(p, a.fetched, a.numBits);
  }

  // Empties the bit buffer into the block header.
  method DrainBits(a: ZBuf, ghost q: nat) returns (header: seq<int>, k: nat)
    requires a.BufferOk() && a.numBits % 8 == 0 && a.numBits <= 24 && a.BitPos() == 8 * q
    modifies a`numBits, a`codeBuffer
    ensures a.BufferOk() && a.numBits == 0
    ensures a.fetched == q + k && HeaderBytes(a.zbuffer, q, k, header)
  {
    hide Window, Pow2;
    assert Pow2(8) == 256 by { Pow2Values(); }
    header, k := [0, 0, 0, 0], 0;
    while a.numBits > 0
      invariant a.BufferOk() && a.numBits % 8 == 0
      invariant a.BitPos() == 8 * (q + k) && 8 * k + a.numBits <= 24
      invariant HeaderBytes(a.zbuffer, q, k, header)
      decreases a.numBits
    {
      WindowMaskShift(a.zbuffer, a.BitPos(), 8, a.numBits);
      header := header[k := a.codeBuffer % 256];
      k := k + 1;
      a.codeBuffer := a.codeBuffer / 256;
      a.numBits := a.numBits - 8;
    }
  }

  method ReadStoredHeader(a: ZBuf) returns (header: seq<int>)
    requires a.BufferOk() && a.numBits <= 31
    modifies a`pos, a`numBits, a`codeBuffer, a`fetched
    ensures a.BufferOk() && a.numBits == 0 && a.fetched == ByteAfter(old(a.BitPos())) + 4
    ensures HeaderBytes(a.zbuffer, ByteAfter(old(a.BitPos())), 4, header)
  {
    hide Window, ByteAfter;
    ghost var q := ByteAfter(a.BitPos());
    AlignToByte(a);
    var k;
    header, k := DrainBits(a, q);
    while k < 4
      invariant k <= 4 && a.BufferOk() && a.numBits == 0 && a.fetched == q + k
      invariant HeaderBytes(a.zbuffer, q, k, header)
      modifies a`pos, a`fetched
    {
      var b := a.Zget8();
      EmptyWindow(a.zbuffer, a.BitPos());
      EmptyWindow(a.zbuffer, a.BitPos() - 8);
      header := header[k := b];
      k := k + 1;
    }
  }

  lemma AlignedAt(p: nat, fetched: nat, n: nat)
    requires p <= 8 * fetched - n < p + 8 && n % 8 == 0
    ensures 8 * fetched - n == 8 * ByteAfter(p)
  {}

  // The four bytes from q on.
  ghost predicate FourBytes(input: seq<byte>, q: nat, header: seq<int>) {
    |header| == 4 && forall i :: 0 <= i < 4 ==> header[i] == if q + i < |input| then input[q + i] else 0
  }

  // The header read byte by byte is the stored block header of the stream.
  lemma HeaderIs(input: seq<byte>, q: nat, header: seq<int>)
    requires HeaderBytes(input, q, 4, header)
    ensures FourBytes(input, q, header)
  {
    hide Window;
    forall i | 0 <= i < 4 ensures header[i] == if q + i < |input| then input[q + i] else 0 {
      ByteWindow(input, q + i);
    }
  }

  method CopyStored(a: ZBuf, len: nat)
    requires a.Valid() && a.numBits == 0 && a.pos + len <= |a.zbuffer| && a.zout + len <= a.zoutStart.Length
    requires len > 0 ==> a.fetched == a.pos
    modifies a`pos, a`fetched, a`codeBuffer, a`zout, a.zoutStart
    ensures a.Valid() && a.numBits == 0 && a.fetched == old(a.fetched) + len
    ensures a.Output() == old(a.Output()) + a.zbuffer[old(a.pos)..old(a.pos) + len]
  {
    hide Window;
    forall i | 0 <= i < len { a.zoutStart[a.zout + i] := a.zbuffer[a.pos + i]; }
    a.pos := a.pos + len;
    a.fetched := a.fetched + len;
    a.zout := a.zout + len;
    EmptyWindow(a.zbuffer, a.BitPos());
    EmptyWindow(a.zbuffer, old(a.BitPos()));
    assert a.zoutStart[..old(a.zout)] == old(a.Output());
  }

  lemma StoredSays(input: seq<byte>, p: nat, header: seq<int>, data: seq<byte>)
    requires FourBytes(input, ByteAfter(p), header) && StoredAt(input, p, data)
    ensures LittleEndian(header[0], header[1]) == |data| && LittleEndian(header[2], header[3]) == 0xFFFF - |data|
    ensures ByteAfter(p) + 4 + |data| <= |input|
  {
    hide ByteAfter;
  }

  lemma StoredIsThere(input: seq<byte>, p: nat, header: seq<int>)
    requires FourBytes(input, ByteAfter(p), header) && 0 <= LittleEndian(header[0], header[1])
    requires LittleEndian(header[2], header[3]) == 0xFFFF - LittleEndian(header[0], header[1])
    requires ByteAfter(p) + 4 + LittleEndian(header[0], header[1]) <= |input|
    ensures StoredAt(input, p, input[ByteAfter(p) + 4..ByteAfter(p) + 4 + LittleEndian(header[0], header[1])])
  {
    hide ByteAfter;
  }

  // A stored block stands at p, and there is room for it.
  ghost predicate StoredFits(input: seq<byte>, p: nat, n: nat, limit: nat, data: seq<byte>) {
    StoredAt(input, p, data) && n + |data| <= limit
  }

  // A stored block: fails unless the length checks out and the bytes are there and fit.
  method ParseUncompressedBlock(a: ZBuf) returns (ok: bool, ghost data: seq<byte>)
    requires a.Valid() && a.numBits <= 31
    modifies a`pos, a`numBits, a`codeBuffer, a`fetched, a`zoutStart, a`zout, a.zoutStart
    ensures a.Valid() && (a.zoutStart == old(a.zoutStart) || (a.expandable && fresh(a.zoutStart))) && a.MaxOut() == old(a.MaxOut())
    ensures ok ==> StoredFits(a.zbuffer, old(a.BitPos()), old(a.zout), old(a.MaxOut()), data)
    ensures ok ==> a.BitPos() == 8 * (ByteAfter(old(a.BitPos())) + 4 + |data|)
    ensures ok ==> a.Output() == old(a.Output()) + data && a.numBits == 0
    ensures (exists d :: StoredFits(a.zbuffer, old(a.BitPos()), old(a.zout), old(a.MaxOut()), d)) ==> ok
  {
    hide Window, HeaderBytes, ByteAfter, Reach, StoredAt;
    data := [];
    ghost var q := ByteAfter(a.BitPos());
    var header := ReadStoredHeader(a);
    HeaderIs(a.zbuffer, q, header);
    var len, nlen := LittleEndian(header[0], header[1]), LittleEndian(header[2], header[3]);
    ghost var p, n, limit := old(a.BitPos()), a.zout, a.MaxOut();
    forall d | StoredFits(a.zbuffer, p, n, limit, d)
      ensures nlen == 0xFFFF - len && q + 4 + len <= |a.zbuffer| && n + len <= limit
    {
      StoredSays(a.zbuffer, p, header, d);
    }
    if nlen != 0xFFFF - len { return false, data; }
    if a.pos + len > |a.zbuffer| { return false, data; }
    if a.zout + len > a.zoutStart.Length {
      ok := a.Zexpand(len);
      if !ok { return; }
    }
    CopyStored(a, len);
    StoredIsThere(a.zbuffer, p, header);
    data := a.zbuffer[q + 4..q + 4 + len];
    ok := true;
  }

  // ---------- blocks ----------

  method BuildFixed(a: ZBuf) returns (ok: bool)
    requires a.Separate()
    modifies a.zLength.repr, a.zDistance.repr
    ensures ok && a.zLength.Decodes(FixedLengths()) && a.zDistance.Decodes(FixedDistances())
  {
    hide Kraft, Pow2, Acceptable;
    FixedAcceptable();
    DistancesAcceptable();
    AcceptableIffKraft(FixedLengths());
    AcceptableIffKraft(FixedDistances());
    ok := a.zLength.Build(FixedLengths());
    ok := a.zDistance.Build(FixedDistances());
  }

  // A block with the fixed codes, behind whose tokens decoding never gets stuck.
  method ParseFixed(a: ZBuf) returns (ok: bool, ghost toks: seq<Token>)
    requires a.Valid()
    modifies a`pos, a`numBits, a`codeBuffer, a`fetched, a`zoutStart, a`zout, a.zoutStart
    modifies a.zLength.repr, a.zDistance.repr
    ensures a.Valid() && (a.zoutStart == old(a.zoutStart) || (a.expandable && fresh(a.zoutStart))) && a.MaxOut() == old(a.MaxOut())
    ensures ok ==> BodyReadable(a.zbuffer, old(a.BitPos()), old(a.numBits), old(a.zout), old(a.MaxOut()), Fixed(toks))
    ensures ok ==> a.BitPos() == BodyEnd(old(a.BitPos()), Fixed(toks))
    ensures ok ==> a.numBits == BodyLeft(a.zbuffer, old(a.BitPos()), old(a.numBits), Fixed(toks))
    ensures ok ==> Expands(old(a.Output()), toks, a.Output())
    ensures (exists ts :: BodyReadable(a.zbuffer, old(a.BitPos()), old(a.numBits), old(a.zout), old(a.MaxOut()), Fixed(ts))) ==> ok
  {
    hide TokensEnd, Ends, EndLeft, Sticks, Expands, FixedLengths, FixedDistances, ValidLengths, Window, Reach, CodeLength;
    hide ZHuffman.Decodes;
    toks := [];
    FixedIs32();
    ok := BuildFixed(a);
    if !ok { return; }
    var r;
    ghost var p, b, n, limit := a.BitPos(), a.numBits, a.zout, a.MaxOut();
    r, toks := a.ParseHuffmanBlock(FixedLengths(), FixedDistances());
    if r == Hangs { FixedNeverSticks(a.zbuffer, p, b, n, limit, toks); }
    ok := r == Accepted;
  }

  lemma FixedNeverSticks(input: seq<byte>, p: nat, b: nat, n: nat, limit: nat, ts: seq<Token>)
    ensures !Sticks(FixedLengths(), FixedDistances(), input, p, b, n, limit, ts)
  {
    hide TokensAt, Reachable, TokensEnd, TokensLeft, ZerosFrom, EndlessCodes, Produced, FixedLengths, FixedDistances;
    if Sticks(FixedLengths(), FixedDistances(), input, p, b, n, limit, ts) {
      FixedNeverEndless(n + Produced(ts), TokensLeft(FixedLengths(), FixedDistances(), input, p, b, ts).n);
    }
  }

  // In the fixed code a row of zero bits is the end of the block.
  lemma FixedNeverEndless(n: nat, b: nat)
    ensures !EndlessCodes(FixedLengths(), FixedDistances(), n, b)
  {
    hide FixedLengths, FixedDistances, Distance, Endless, PaceOf;
  }

  lemma FixedIs32()
    ensures |FixedDistances()| == 32
  {}

  // A block with a header of its own. It is accepted exactly if such a block can be read, and decoding
  // goes on forever exactly if it gets stuck behind the header and some tokens.
  method ParseDynamic(a: ZBuf) returns (r: Verdict, ghost b: Block)
    requires a.Valid()
    modifies a`pos, a`numBits, a`codeBuffer, a`fetched, a`zoutStart, a`zout, a.zoutStart
    modifies a.zLength.repr, a.zDistance.repr
    ensures a.Valid() && (a.zoutStart == old(a.zoutStart) || (a.expandable && fresh(a.zoutStart))) && a.MaxOut() == old(a.MaxOut())
    ensures b.Dynamic?
    ensures r == Accepted ==> BodyReadable(a.zbuffer, old(a.BitPos()), old(a.numBits), old(a.zout), old(a.MaxOut()), b)
    ensures r == Accepted ==> a.BitPos() == BodyEnd(old(a.BitPos()), b)
    ensures r == Accepted ==> a.numBits == BodyLeft(a.zbuffer, old(a.BitPos()), old(a.numBits), b)
    ensures r == Accepted ==> Expands(old(a.Output()), b.toks, a.Output())
    ensures r == Hangs ==> BodySticks(a.zbuffer, old(a.BitPos()), old(a.numBits), old(a.zout), old(a.MaxOut()), b)
    ensures (exists c ::
        TypedReadable(a.zbuffer, old(a.BitPos()), old(a.numBits), old(a.zout), old(a.MaxOut()), 2, c)) ==> r == Accepted
    ensures (exists c :: BodySticks(a.zbuffer, old(a.BitPos()), old(a.numBits), old(a.zout), old(a.MaxOut()), c)) ==> r == Hangs
  {
    hide TokensAt, TokensEnd, SymbolAt, Expands, HeaderAt, HeaderEnd, HeaderLiterals, HeaderDistances, HeaderReadable, HeaderCodable;
    hide ValidLengths, Window, ZHuffman.Decodes, HeaderLeft, BodyReadable, BodySticks, BodyEnd, BodyLeft, Ends, EndLeft, Sticks, Reach;
    ghost var p, k, n, limit := a.BitPos(), a.numBits, a.zout, a.MaxOut();
    ghost var ends, sticks, c := ChooseDynamic(a.zbuffer, p, k, n, limit);
    ghost var h, toks;
    var ok;
    ok, h := ComputeHuffmanCodes(a);
    b := Dynamic(h, []);
    if !ok { return Rejected, b; }
    if ends || sticks { SameHeader(a.zbuffer, p, k, n, limit, c, ends, sticks, h, a.numBits); }
    a.zLength.DecodesShape(HeaderLiterals(h));
    a.zDistance.DecodesShape(HeaderDistances(h));
    r, toks := a.ParseHuffmanBlock(HeaderLiterals(h), HeaderDistances(h));
    b := Dynamic(h, toks);
    if r == Accepted { DynamicIs(a.zbuffer, p, k, n, limit, h, toks); }
    if r == Hangs { DynamicSticks(a.zbuffer, p, k, n, limit, h, toks); }
  }

  // A dynamic block that can be read, or in which decoding gets stuck, if there is one at p.
  lemma ChooseDynamic(input: seq<byte>, p: nat, k: nat, n: nat, limit: nat) returns (ends: bool, sticks: bool, c: Block)
    ensures ends <==> exists c :: TypedReadable(input, p, k, n, limit, 2, c)
    ensures sticks <==> exists c :: BodySticks(input, p, k, n, limit, c)
    ensures ends ==> BodyReadable(input, p, k, n, limit, c)
    ensures sticks ==> BodySticks(input, p, k, n, limit, c)
    ensures ends || sticks ==> c.Dynamic?
    ensures ends || sticks ==> exists g :: HeaderReadable(input, p, k, g)
  {
    hide BodyReadable, BodySticks, HeaderReadable;
    ends, sticks, c := false, false, Stored([]);
    if b :| TypedReadable(input, p, k, n, limit, 2, b) {
      ends, c := true, b;
      forall d: Block ensures !BodySticks(input, p, k, n, limit, d) { NotStuckBehind(input, p, k, n, limit, b, d); }
      DynamicHasHeader(input, p, k, n, limit, b);
    } else if d :| BodySticks(input, p, k, n, limit, d) {
      sticks, c := true, d;
      SticksInDynamic(input, p, k, n, limit, d);
      DynamicHasHeader(input, p, k, n, limit, d);
    }
  }

  lemma SticksInDynamic(input: seq<byte>, p: nat, k: nat, n: nat, limit: nat, b: Block)
    requires BodySticks(input, p, k, n, limit, b)
    ensures b.Dynamic?
  {}

  lemma DynamicHasHeader(input: seq<byte>, p: nat, k: nat, n: nat, limit: nat, b: Block)
    requires b.Dynamic? && (BodyReadable(input, p, k, n, limit, b) || BodySticks(input, p, k, n, limit, b))
    ensures HeaderReadable(input, p, k, b.header)
  {
    hide HeaderReadable, Ends, Sticks;
  }

  // The header read is that of such a block.
  lemma SameHeader(input: seq<byte>, p: nat, k: nat, n: nat, limit: nat, c: Block, ends: bool, sticks: bool, h: Header, m: nat)
    requires HeaderReadable(input, p, k, h) && HeaderLeft(input, p, k, h) == Left(m) && c.Dynamic? && (ends || sticks)
    requires ends ==> BodyReadable(input, p, k, n, limit, c)
    requires sticks ==> BodySticks(input, p, k, n, limit, c)
    ensures ends ==> Ends(HeaderLiterals(h), HeaderDistances(h), input, HeaderEnd(p, h), m, n, limit, c.toks)
    ensures sticks ==> Sticks(HeaderLiterals(h), HeaderDistances(h), input, HeaderEnd(p, h), m, n, limit, c.toks)
  {
    hide HeaderAt, HeaderLeft, HeaderLiterals, HeaderDistances, HeaderEnd, Ends, Sticks, Codable;
    HeaderUnique(input, p, h, c.header);
  }

  lemma DynamicIs(input: seq<byte>, p: nat, k: nat, n: nat, limit: nat, h: Header, toks: seq<Token>)
    requires HeaderReadable(input, p, k, h)
    requires Ends(HeaderLiterals(h), HeaderDistances(h), input, HeaderEnd(p, h), HeaderLeft(input, p, k, h).n, n, limit, toks)
    ensures BodyReadable(input, p, k, n, limit, Dynamic(h, toks))
    ensures BodyEnd(p, Dynamic(h, toks)) ==
      TokensEnd(HeaderLiterals(h), HeaderDistances(h), HeaderEnd(p, h), toks) + CodeLength(HeaderLiterals(h), END_OF_BLOCK)
    ensures BodyLeft(input, p, k, Dynamic(h, toks)) ==
      EndLeft(HeaderLiterals(h), HeaderDistances(h), input, HeaderEnd(p, h), HeaderLeft(input, p, k, h).n, toks)
  {
    hide HeaderAt, HeaderEnd, HeaderCodable, HeaderLiterals, HeaderDistances, HeaderLeft, TokensEnd, CodeLength, Ends, EndLeft;
  }

  lemma DynamicSticks(input: seq<byte>, p: nat, k: nat, n: nat, limit: nat, h: Header, toks: seq<Token>)
    requires HeaderReadable(input, p, k, h)
    requires Sticks(HeaderLiterals(h), HeaderDistances(h), input, HeaderEnd(p, h), HeaderLeft(input, p, k, h).n, n, limit, toks)
    ensures BodySticks(input, p, k, n, limit, Dynamic(h, toks))
  {
    hide HeaderReadable, HeaderEnd, HeaderLiterals, HeaderDistances, HeaderLeft, Sticks;
  }

  // The body of a block of the given type.
  method ParseBody(a: ZBuf, kind: nat) returns (r: Verdict, ghost b: Block)
    requires a.Valid() && a.numBits <= 31 && kind <= 3
    modifies a`pos, a`numBits, a`codeBuffer, a`fetched, a`zoutStart, a`zout, a.zoutStart
    modifies a.zLength.repr, a.zDistance.repr
    ensures a.Valid() && (a.zoutStart == old(a.zoutStart) || (a.expandable && fresh(a.zoutStart))) && a.MaxOut() == old(a.MaxOut())
    ensures r == Accepted ==>
      BlockType(b) == kind && BodyReadable(a.zbuffer, old(a.BitPos()), old(a.numBits), old(a.zout), old(a.MaxOut()), b)
    ensures r == Accepted ==> a.BitPos() == BodyEnd(old(a.BitPos()), b)
    ensures r == Accepted ==> a.numBits == BodyLeft(a.zbuffer, old(a.BitPos()), old(a.numBits), b)
    ensures r == Accepted ==> BlockExpands(old(a.Output()), b, a.Output())
    ensures r == Hangs ==> kind == 2 && BodySticks(a.zbuffer, old(a.BitPos()), old(a.numBits), old(a.zout), old(a.MaxOut()), b)
    ensures (exists c ::
        TypedReadable(a.zbuffer, old(a.BitPos()), old(a.numBits), old(a.zout), old(a.MaxOut()), kind, c)) ==> r == Accepted
    ensures (exists c ::
        BodySticks(a.zbuffer, old(a.BitPos()), old(a.numBits), old(a.zout), old(a.MaxOut()), c)) ==> kind != 2 || r == Hangs
  {
    hide Expands, Ends, EndLeft, Sticks, HeaderReadable, HeaderEnd, HeaderLiterals, HeaderDistances, HeaderLeft, BodySticks;
    hide FixedLengths, FixedDistances, StoredAt, ByteAfter, ValidLengths, Window, CompressedEnd, Reach;
    b := Stored([]);
    if kind == 0 {
      var ok;
      ghost var data;
      ghost var p, n, limit := a.BitPos(), a.zout, a.MaxOut();
      forall d | StoredAt(a.zbuffer, p, d) && n + |d| <= limit ensures StoredFits(a.zbuffer, p, n, limit, d) {}
      ok, data := ParseUncompressedBlock(a);
      b := Stored(data);
      r := if ok then Accepted else Rejected;
    } else if kind == 3 {
      r := Rejected;
    } else if kind == 1 {
      var ok;
      ghost var toks;
      ok, toks := ParseFixed(a);
      b := Fixed(toks);
      r := if ok then Accepted else Rejected;
    } else {
      r, b := ParseDynamic(a);
    }
  }

  // ---------- streams ----------

  lemma TwoBits(input: seq<byte>, p: nat)
    ensures Window(input, p, 2) <= 3 && Window(input, p, 1) <= 1
  {
    WindowBound(input, p, 2);
    WindowBound(input, p, 1);
    Pow2Values();
  }

  // Past the end of the input there is no block: zero bits announce a stored one, which has to be there.
  lemma NoBlockPastEnd(input: seq<byte>, p: nat, final: bool, b: Block)
    requires BlockAt(input, p, final, b)
    ensures p < 8 * |input|
    ensures p < BodyEnd(p + 3, b)
  {
    hide Window, CompressedAt, HeaderAt;
    if 8 * |input| <= p {
      PastEndIsZero(input, p + 1, 2);
      assert false;
    }
    EndsAfter(p + 3, b);
  }

  // What can be read at p is of the kind its bits announce.
  lemma OfThisKind(input: seq<byte>, p: nat, k: nat, n: nat, limit: nat, kind: nat)
    requires kind == Window(input, p + 1, 2)
    ensures forall f, c :: BlockReadable(input, p, k, n, limit, f, c) ==> TypedReadable(input, p + 3, AfterType(k), n, limit, kind, c)
    ensures forall c :: BlockSticks(input, p, k, n, limit, c) ==> kind == 2 && BodySticks(input, p + 3, AfterType(k), n, limit, c)
  {
    hide BodyReadable, BodySticks, Window, AfterType;
  }

  lemma ThisBlock(input: seq<byte>, p: nat, k: nat, n: nat, limit: nat, final: nat, b: Block)
    requires final == Window(input, p, 1) <= 1
    requires BlockType(b) == Window(input, p + 1, 2) && BodyReadable(input, p + 3, AfterType(k), n, limit, b)
    ensures BlockReadable(input, p, k, n, limit, final == 1, b)
  {
    hide BodyReadable, Window, AfterType;
  }

  lemma ThisSticks(input: seq<byte>, p: nat, k: nat, n: nat, limit: nat, b: Block)
    requires Window(input, p + 1, 2) == 2 && BodySticks(input, p + 3, AfterType(k), n, limit, b)
    ensures BlockSticks(input, p, k, n, limit, b)
  {
    hide BodySticks, Window, AfterType;
  }

  // One block with its three header bits: it is accepted exactly if one can be read, and decoding goes
  // on forever exactly if it gets stuck in it.
  method ParseBlock(a: ZBuf) returns (r: Verdict, final: nat, ghost b: Block)
    requires a.Valid()
    modifies a`pos, a`numBits, a`codeBuffer, a`fetched, a`zoutStart, a`zout, a.zoutStart
    modifies a.zLength.repr, a.zDistance.repr
    ensures a.Valid() && (a.zoutStart == old(a.zoutStart) || (a.expandable && fresh(a.zoutStart))) && a.MaxOut() == old(a.MaxOut())
    ensures r == Accepted ==>
      final <= 1 && BlockReadable(a.zbuffer, old(a.BitPos()), old(a.numBits), old(a.zout), old(a.MaxOut()), final == 1, b)
    ensures r == Accepted ==> a.BitPos() == BodyEnd(old(a.BitPos()) + 3, b)
    ensures r == Accepted ==> a.numBits == BlockLeft(a.zbuffer, old(a.BitPos()), old(a.numBits), b)
    ensures r == Accepted ==> BlockExpands(old(a.Output()), b, a.Output())
    ensures r == Hangs ==> BlockSticks(a.zbuffer, old(a.BitPos()), old(a.numBits), old(a.zout), old(a.MaxOut()), b)
    ensures (exists f, c ::
        BlockReadable(a.zbuffer, old(a.BitPos()), old(a.numBits), old(a.zout), old(a.MaxOut()), f, c)) ==> r == Accepted
    ensures (exists c :: BlockSticks(a.zbuffer, old(a.BitPos()), old(a.numBits), old(a.zout), old(a.MaxOut()), c)) ==> r == Hangs
  {
    hide Window, BodyReadable, BodySticks, BodyEnd, BodyLeft, BlockExpands, Received, Reach, BlockReadable, BlockSticks, TypedReadable;
    ghost var p, k, n, limit := a.BitPos(), a.numBits, a.zout, a.MaxOut();
    TwoBits(a.zbuffer, p);
    TwoBits(a.zbuffer, p + 1);
    final := a.Zreceive(1);
    var kind := a.Zreceive(2);
    OfThisKind(a.zbuffer, p, k, n, limit, kind);
    r, b := ParseBody(a, kind);
    if r == Accepted { ThisBlock(a.zbuffer, p, k, n, limit, final, b); }
    if r == Hangs { ThisSticks(a.zbuffer, p, k, n, limit, b); }
  }

  method ParseZlibHeader(a: ZBuf) returns (ok: bool)
    requires a.Valid() && a.fetched == 0 && a.numBits == 0
    modifies a`pos, a`fetched
    ensures a.pos == Min(a.fetched, |a.zbuffer|) && a.fetched == 2
    ensures ok <==> ZlibHeader(a.zbuffer)
  {
    ByteWindow(a.zbuffer, 0);
    ByteWindow(a.zbuffer, 1);
    hide Window;
    var cmf: int := a.Zget8();
    var flg: int := a.Zget8();
    var eof := a.Zeof();
    if eof { return false; }
    if LittleEndian(flg, cmf) % 31 != 0 { return false; }
    if flg / 32 % 2 != 0 { return false; }
    if cmf % 16 != 8 { return false; }
    ok := true;
  }

  // These blocks have been decoded.
  ghost predicate BlocksDone(a: ZBuf, limit: nat, bs: seq<Block>)
    reads a`numBits, a`fetched, a`zoutStart, a`zout, a.zoutStart
    requires a.zout <= a.zoutStart.Length
  {
    && BlocksReadable(a.zbuffer, 16, limit, bs) && a.BitPos() == BlocksEnd(16, bs)
    && a.numBits == BlocksLeft(a.zbuffer, 16, bs) && a.zout == BlocksProduced(bs)
    && BlocksExpand([], bs, a.Output())
  }

  // The plan is a stream that can be read, or the blocks before one in which decoding gets stuck.
  ghost predicate Plans(input: seq<byte>, limit: nat, plan: seq<Block>, last: Block, ends: bool, sticks: bool) {
    && (ends ==> StreamReadable(input, limit, plan))
    && (sticks ==> StreamSticks(input, limit, plan, last))
    && !(ends && sticks)
  }

  // Blocks at the start of the plan.
  ghost predicate OnPlan(plan: seq<Block>, ends: bool, sticks: bool, bs: seq<Block>) {
    && (ends ==> bs <= plan && |bs| < |plan|)
    && (sticks ==> bs <= plan)
  }

  // One more block of a stream.
  method NextBlock(a: ZBuf, ghost limit: nat, ghost plan: seq<Block>, ghost last: Block, ghost ends: bool, ghost sticks: bool,
                   ghost bs: seq<Block>)
    returns (r: Verdict, final: nat, ghost b: Block)
    requires a.Valid() && BlocksDone(a, limit, bs) && limit == a.MaxOut() && ZlibHeader(a.zbuffer)
    requires Plans(a.zbuffer, limit, plan, last, ends, sticks) && OnPlan(plan, ends, sticks, bs)
    modifies a`pos, a`numBits, a`codeBuffer, a`fetched, a`zoutStart, a`zout, a.zoutStart
    modifies a.zLength.repr, a.zDistance.repr
    ensures a.Valid() && (a.zoutStart == old(a.zoutStart) || (a.expandable && fresh(a.zoutStart))) && limit == a.MaxOut()
    ensures r == Accepted && final != 0 ==> StreamReadable(a.zbuffer, limit, bs + [b]) && BlocksExpand([], bs + [b], a.Output())
    ensures r == Accepted && final == 0 ==> BlocksDone(a, limit, bs + [b]) && OnPlan(plan, ends, sticks, bs + [b])
    ensures r == Accepted && final == 0 ==> old(a.BitPos()) < 8 * |a.zbuffer| && old(a.BitPos()) < a.BitPos()
    ensures r == Hangs ==> StreamSticks(a.zbuffer, limit, bs, b)
    ensures ends ==> r == Accepted
    ensures sticks ==> r == Hangs || (r == Accepted && final == 0)
  {
    hide *;
    DoneParts(a, limit, bs);
    ghost var before := a.zoutStart[..a.zout];
    ghost var on := PlannedBlock(a.zbuffer, limit, plan, last, ends, sticks, bs);
    r, final, b := ParseBlock(a);
    if r == Accepted {
      BlockDone(a, limit, bs, before, final == 1, b);
      StaysOnPlan(a.zbuffer, limit, plan, last, ends, sticks, bs, final == 1, b);
    } else if r == Hangs {
      SticksNow(a.zbuffer, limit, bs, b);
    }
  }

  lemma DoneParts(a: ZBuf, limit: nat, bs: seq<Block>)
    requires a.Valid() && BlocksDone(a, limit, bs)
    ensures BlocksReadable(a.zbuffer, 16, limit, bs) && a.BitPos() == BlocksEnd(16, bs)
    ensures a.numBits == BlocksLeft(a.zbuffer, 16, bs) && a.zout == BlocksProduced(bs)
    ensures a.zout <= a.zoutStart.Length && a.Output() == a.zoutStart[..a.zout] && BlocksExpand([], bs, a.Output())
  {
    hide BlocksReadable, BlocksEnd, BlocksLeft, BlocksProduced, BlocksExpand;
  }

  // Block b has just been decoded behind blocks bs.
  lemma BlockDone(a: ZBuf, limit: nat, bs: seq<Block>, before: seq<byte>, final: bool, b: Block)
    requires a.Valid() && BlocksReadable(a.zbuffer, 16, limit, bs) && ZlibHeader(a.zbuffer)
    requires BlockReadable(a.zbuffer, BlocksEnd(16, bs), BlocksLeft(a.zbuffer, 16, bs), BlocksProduced(bs), limit, final, b)
    requires a.BitPos() == BodyEnd(BlocksEnd(16, bs) + 3, b)
    requires a.numBits == BlockLeft(a.zbuffer, BlocksEnd(16, bs), BlocksLeft(a.zbuffer, 16, bs), b)
    requires BlocksExpand([], bs, before) && |before| == BlocksProduced(bs) && BlockExpands(before, b, a.Output())
    ensures final ==> StreamReadable(a.zbuffer, limit, bs + [b]) && BlocksExpand([], bs + [b], a.Output())
    ensures !final ==> BlocksDone(a, limit, bs + [b])
    ensures BlocksEnd(16, bs) < 8 * |a.zbuffer| && BlocksEnd(16, bs) < a.BitPos()
  {
    hide BlockReadable, BlockLeft, BodyEnd, BlockExpands, BlockProduced, BlocksReadable, BlocksEnd, BlocksLeft, BlocksExpand, BlocksProduced;
    hide StreamReadable, ZlibHeader, BlockAt, Window;
    var p, k, n := BlocksEnd(16, bs), BlocksLeft(a.zbuffer, 16, bs), BlocksProduced(bs);
    BlockIsThere(a.zbuffer, p, k, n, limit, final, b);
    NoBlockPastEnd(a.zbuffer, p, final, b);
    BlocksExpandMore([], bs, b, before, a.Output());
    OneMoreBlock(a.zbuffer, limit, bs, final, b);
  }

  lemma SticksNow(input: seq<byte>, limit: nat, bs: seq<Block>, b: Block)
    requires BlocksReadable(input, 16, limit, bs) && ZlibHeader(input)
    requires BlockSticks(input, BlocksEnd(16, bs), BlocksLeft(input, 16, bs), BlocksProduced(bs), limit, b)
    ensures StreamSticks(input, limit, bs, b)
  {
    hide BlocksReadable, BlocksEnd, BlocksLeft, BlocksProduced, BlockSticks, ZlibHeader;
  }

  // One more block that can be read, the last of the stream or not.
  lemma OneMoreBlock(input: seq<byte>, limit: nat, bs: seq<Block>, final: bool, b: Block)
    requires BlocksReadable(input, 16, limit, bs) && ZlibHeader(input)
    requires BlockReadable(input, BlocksEnd(16, bs), BlocksLeft(input, 16, bs), BlocksProduced(bs), limit, final, b)
    ensures final ==> StreamReadable(input, limit, bs + [b])
    ensures !final ==> BlocksReadable(input, 16, limit, bs + [b])
    ensures BlocksEnd(16, bs + [b]) == BodyEnd(BlocksEnd(16, bs) + 3, b)
    ensures BlocksLeft(input, 16, bs + [b]) == BlockLeft(input, BlocksEnd(16, bs), BlocksLeft(input, 16, bs), b)
    ensures BlocksProduced(bs + [b]) == BlocksProduced(bs) + BlockProduced(b)
  {
    hide BlockReadable, BodyEnd, BlockLeft, BlockProduced, ZlibHeader;
    assert (bs + [b])[..|bs + [b]| - 1] == bs;
  }

  // Block k of the plan can be read behind those before it.
  lemma PlannedAt(input: seq<byte>, limit: nat, plan: seq<Block>, last: Block, ends: bool, sticks: bool, k: nat)
    requires Plans(input, limit, plan, last, ends, sticks) && (ends || sticks) && k < |plan|
    ensures NextReadable(input, 16, limit, plan[..k], ends && k == |plan| - 1, plan[k])
  {
    hide NextReadable, BlocksReadable, ZlibHeader, BlockSticks, StreamReadable;
    if ends { StreamReadableAt(input, limit, plan, k); } else { ReadablePrefix(input, limit, plan, k); }
  }

  lemma PrefixIs(bs: seq<Block>, plan: seq<Block>)
    requires bs <= plan
    ensures bs == plan[..|bs|]
    ensures |bs| < |plan| ==> plan[..|bs| + 1] == bs + [plan[|bs|]] && bs + [plan[|bs|]] <= plan
    ensures |bs| == |plan| ==> bs == plan
  {}

  // The next block of the plan, when some of its blocks have been decoded.
  lemma PlannedBlock(input: seq<byte>, limit: nat, plan: seq<Block>, last: Block, ends: bool, sticks: bool, bs: seq<Block>)
    returns (on: bool)
    requires Plans(input, limit, plan, last, ends, sticks) && OnPlan(plan, ends, sticks, bs)
    ensures on ==> (ends || sticks) && |bs| < |plan|
    ensures on ==> BlockReadable(input, BlocksEnd(16, bs), BlocksLeft(input, 16, bs), BlocksProduced(bs), limit,
                                 ends && |bs| == |plan| - 1, plan[|bs|])
    ensures ends ==> on
    ensures sticks && !on ==> BlockSticks(input, BlocksEnd(16, bs), BlocksLeft(input, 16, bs), BlocksProduced(bs), limit, last)
  {
    hide *;
    PlanParts(input, limit, plan, last, ends, sticks, bs);
    on := (ends || sticks) && |bs| < |plan|;
    if ends || sticks { PrefixIs(bs, plan); }
    if on {
      PlannedAt(input, limit, plan, last, ends, sticks, |bs|);
      NextIs(input, limit, bs, ends && |bs| == |plan| - 1, plan[|bs|]);
    }
  }

  lemma PlanParts(input: seq<byte>, limit: nat, plan: seq<Block>, last: Block, ends: bool, sticks: bool, bs: seq<Block>)
    requires Plans(input, limit, plan, last, ends, sticks) && OnPlan(plan, ends, sticks, bs)
    ensures ends || sticks ==> bs <= plan
    ensures ends ==> !sticks && |bs| < |plan|
    ensures sticks ==> BlockSticks(input, BlocksEnd(16, plan), BlocksLeft(input, 16, plan), BlocksProduced(plan), limit, last)
  {
    hide BlocksReadable, BlocksEnd, BlocksLeft, BlocksProduced, BlockSticks, ZlibHeader, StreamReadable;
  }

  lemma NextIs(input: seq<byte>, limit: nat, bs: seq<Block>, final: bool, b: Block)
    requires NextReadable(input, 16, limit, bs, final, b)
    ensures BlockReadable(input, BlocksEnd(16, bs), BlocksLeft(input, 16, bs), BlocksProduced(bs), limit, final, b)
  {
    hide BlockReadable, BlocksEnd, BlocksLeft, BlocksProduced;
  }

  // A block that has been read is the next one of the plan.
  lemma StaysOnPlan(input: seq<byte>, limit: nat, plan: seq<Block>, last: Block, ends: bool, sticks: bool, bs: seq<Block>, final: bool, b: Block)
    requires Plans(input, limit, plan, last, ends, sticks) && OnPlan(plan, ends, sticks, bs)
    requires BlockReadable(input, BlocksEnd(16, bs), BlocksLeft(input, 16, bs), BlocksProduced(bs), limit, final, b)
    ensures !final ==> OnPlan(plan, ends, sticks, bs + [b])
    ensures sticks ==> !final
  {
    hide *;
    PlanParts(input, limit, plan, last, ends, sticks, bs);
    var on := PlannedBlock(input, limit, plan, last, ends, sticks, bs);
    var q, k, n := BlocksEnd(16, bs), BlocksLeft(input, 16, bs), BlocksProduced(bs);
    if on {
      BlockIsThere(input, q, k, n, limit, final, b);
      BlockIsThere(input, q, k, n, limit, ends && |bs| == |plan| - 1, plan[|bs|]);
      OneBlockAt(input, q, final, b, ends && |bs| == |plan| - 1, plan[|bs|]);
      PrefixIs(bs, plan);
    } else if sticks {
      NotStuckHere(input, q, k, n, limit, final, b, last);
    }
    if !final { PlanIs(plan, ends, sticks, bs + [b]); }
  }

  lemma PlanIs(plan: seq<Block>, ends: bool, sticks: bool, bs: seq<Block>)
    requires ends ==> bs <= plan && |bs| < |plan|
    requires sticks ==> bs <= plan
    ensures OnPlan(plan, ends, sticks, bs)
  {}

  // Decodes blocks up to the last one.
  method ParseBlocks(a: ZBuf) returns (r: Verdict, ghost bs: seq<Block>, ghost b: Block)
    requires a.Valid() && a.BitPos() == 16 && a.numBits == 0 && a.zout == 0 && ZlibHeader(a.zbuffer)
    modifies a`pos, a`numBits, a`codeBuffer, a`fetched, a`zoutStart, a`zout, a.zoutStart
    modifies a.zLength.repr, a.zDistance.repr
    ensures a.Valid()
    ensures r == Accepted ==> StreamReadable(a.zbuffer, old(a.MaxOut()), bs) && BlocksExpand([], bs, a.Output())
    ensures r == Hangs ==> StreamSticks(a.zbuffer, old(a.MaxOut()), bs, b)
    ensures (exists cs :: StreamReadable(a.zbuffer, old(a.MaxOut()), cs)) ==> r == Accepted
    ensures (exists cs, c :: StreamSticks(a.zbuffer, old(a.MaxOut()), cs, c)) ==> r == Hangs
  {
    hide BlocksReadable, BlocksEnd, BlocksLeft, BlocksExpand, BlocksProduced, StreamReadable, StreamSticks, ZlibHeader, Plans, OnPlan, Reach;
    bs := [];
    ghost var limit := a.MaxOut();
    ghost var plan, last, ends, sticks := ChooseStream(a.zbuffer, limit);
    NoBlockRead(a.zbuffer, limit);
    assert a.Output() == [];
    while true
      invariant a.Valid() && (a.zoutStart == old(a.zoutStart) || (a.expandable && fresh(a.zoutStart))) && limit == a.MaxOut()
      invariant BlocksDone(a, limit, bs) && OnPlan(plan, ends, sticks, bs)
      decreases Max(0, 8 * |a.zbuffer| - a.BitPos())
    {
      var final;
      r, final, b := NextBlock(a, limit, plan, last, ends, sticks, bs);
      if r != Accepted { return; }
      bs := bs + [b];
      if final != 0 { return; }
    }
  }

  lemma NoBlockRead(input: seq<byte>, limit: nat)
    ensures BlocksReadable(input, 16, limit, []) && BlocksEnd(16, []) == 16 && BlocksExpand([], [], [])
    ensures BlocksProduced([]) == 0 && BlocksLeft(input, 16, []) == 0
  {}

  // A stream that can be read, or one in which decoding gets stuck, if the input holds one.
  lemma ChooseStream(input: seq<byte>, limit: nat) returns (plan: seq<Block>, last: Block, ends: bool, sticks: bool)
    ensures ends <==> exists cs :: StreamReadable(input, limit, cs)
    ensures sticks <==> exists cs, c :: StreamSticks(input, limit, cs, c)
    ensures Plans(input, limit, plan, last, ends, sticks) && OnPlan(plan, ends, sticks, [])
  {
    hide StreamSticks, BlocksReadable, NextReadable, ZlibHeader;
    plan, last, ends, sticks := [], Stored([]), false, false;
    if cs :| StreamReadable(input, limit, cs) {
      plan, ends := cs, true;
      forall ds, d ensures !StreamSticks(input, limit, ds, d) { NowhereStuck(input, limit, cs, ds, d); }
    } else if cs, c :| StreamSticks(input, limit, cs, c) {
      plan, last, sticks := cs, c, true;
    }
  }

  // Decodes a whole zlib stream.
  method ParseZlib(a: ZBuf) returns (r: Verdict, ghost bs: seq<Block>, ghost b: Block)
    requires a.Valid() && a.fetched == 0 && a.numBits == 0 && a.zout == 0
    modifies a`pos, a`numBits, a`codeBuffer, a`fetched, a`zoutStart, a`zout, a.zoutStart
    modifies a.zLength.repr, a.zDistance.repr
    ensures a.Valid()
    ensures r == Accepted ==> StreamReadable(a.zbuffer, old(a.MaxOut()), bs) && BlocksExpand([], bs, a.Output())
    ensures r == Hangs ==> StreamSticks(a.zbuffer, old(a.MaxOut()), bs, b)
    ensures (exists cs :: StreamReadable(a.zbuffer, old(a.MaxOut()), cs)) ==> r == Accepted
    ensures (exists cs, c :: StreamSticks(a.zbuffer, old(a.MaxOut()), cs, c)) ==> r == Hangs
  {
    hide Window, StreamReadable, StreamSticks, BlocksExpand, ZlibHeader, Reach;
    ghost var limit := a.MaxOut();
    bs, b := [], Stored([]);
    EmptyWindow(a.zbuffer, 0);
    EmptyWindow(a.zbuffer, 16);
    var ok := ParseZlibHeader(a);
    if !ok {
      NoHeader(a.zbuffer, a.MaxOut());
      return Rejected, bs, b;
    }
    a.numBits, a.codeBuffer := 0, 0;
    assert a.MaxOut() == limit;
    r, bs, b := ParseBlocks(a);
  }

  lemma NoHeader(input: seq<byte>, limit: nat)
    requires !ZlibHeader(input)
    ensures !exists cs :: StreamReadable(input, limit, cs)
    ensures !exists cs, c :: StreamSticks(input, limit, cs, c)
  {}

  // Decoding into a buffer of the given capacity, which may grow if `expandable` is set. It succeeds
  // exactly if the input is a stream that can be read, and then the output is its meaning; it goes on
  // forever exactly if there are blocks and tokens behind which decoding gets stuck.
  method DoZlib(input: seq<byte>, capacity: nat, expandable: bool)
    returns (r: Verdict, output: seq<byte>, ghost bs: seq<Block>, ghost b: Block)
    requires capacity <= UINT_MAX && (expandable ==> capacity > 0)
    ensures r == Accepted <==> exists cs :: StreamReadable(input, Room(capacity, expandable), cs)
    ensures r == Accepted ==> StreamReadable(input, Room(capacity, expandable), bs) && Inflates(input, bs, output)
    ensures r == Hangs <==> exists cs, c :: StreamSticks(input, Room(capacity, expandable), cs, c)
    ensures r == Hangs ==> StreamSticks(input, Room(capacity, expandable), bs, b)
  {
    hide StreamReadable, StreamSticks, BlocksExpand, Reach;
    var a := new ZBuf(input, capacity, expandable);
    assert a.MaxOut() == Room(capacity, expandable);
    r, bs, b := ParseZlib(a);
    if r == Accepted { ReadableInflates(input, Room(capacity, expandable), bs, a.Output()); }
    output := a.zoutStart[..a.zout];
  }

  // How large the output may become.
  ghost function Room(capacity: nat, expandable: bool): nat {
    if expandable then Reach(capacity) else capacity
  }

  lemma ReadableInflates(input: seq<byte>, limit: nat, bs: seq<Block>, output: seq<byte>)
    requires StreamReadable(input, limit, bs) && BlocksExpand([], bs, output)
    ensures Inflates(input, bs, output)
  {
    hide StreamAt, BlocksReadable, NextReadable, ZlibHeader, BlocksExpand;
    StreamIsThere(input, limit, bs);
  }
}

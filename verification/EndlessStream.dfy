// A zlib stream on which decoding goes on forever.
module EndlessStream {
  import opened Words
  import opened BitStream
  import opened CanonicalCode
  import opened DeflateFormat
  import opened ZlibFormat
  import opened FixedCodes
  import opened DynamicHeader
  import opened IdleRounds
  import opened Readable
  import opened ReadableStream
  import opened Inflate
  import opened ZlibDecode

  // A stored block of nine zero bytes, and the header of a dynamic block: its only literal/length code,
  // of 7 bits, is that of symbol 286, and its only distance code, of 15 bits, is that of symbol 6.
  const FRONT: seq<byte> := [0x78, 0x01, 0, 9, 0, 0xF6, 0xFF, 0, 0, 0, 0, 0, 0, 0, 0, 0]
  const BACK: seq<byte> := [0xFD, 0xE6, 0x71, 1, 2, 0, 0, 0, 0x80, 0xFB, 0xF7, 0x1F, 0x3C, 0x41, 6, 0, 0, 0]

  function Input(): (s: seq<byte>)
    ensures |s| == 34
  {
    FRONT + BACK
  }

  // ---------- bits ----------

  // Bytes f and f + 1 as one number.
  function Pair(input: seq<byte>, f: nat): nat
    requires f + 1 < |input|
  {
    var lo: nat, hi: nat := input[f], input[f + 1];
    256 * hi + lo
  }

  // n bits from bit i of byte f on, as far as the end of the next byte.
  lemma Field(input: seq<byte>, f: nat, i: nat, n: nat)
    requires f + 1 < |input| && i < 8 && i + n <= 16
    ensures Window(input, 8 * f + i, n) == Pair(input, f) / Pow2(i) % Pow2(n)
  {
    hide *;
    PairWindow(input, f);
    WindowMaskShift(input, 8 * f, i, 16);
    WindowMaskShift(input, 8 * f + i, n, 16 - i);
  }

  lemma PairWindow(input: seq<byte>, f: nat)
    requires f + 1 < |input|
    ensures Window(input, 8 * f, 16) == Pair(input, f)
  {
    hide Window, Pow2;
    ByteWindow(input, f);
    ByteWindow(input, f + 1);
    WindowSplit(input, 8 * f, 8, 8);
    assert Pow2(8) == 256 by { Pow2Values(); }
  }

  // The field as it stands in the two bytes, with q above and s below it.
  lemma FieldIs(input: seq<byte>, f: nat, i: nat, n: nat, q: nat, r: nat, s: nat)
    requires f + 1 < |input| && i < 8 && i + n <= 16 && r < Pow2(n) && s < Pow2(i)
    requires Pair(input, f) == (q * Pow2(n) + r) * Pow2(i) + s
    ensures Window(input, 8 * f + i, n) == r
  {
    hide Window, Pow2;
    Field(input, f, i, n);
    DivModUnique(Pair(input, f), Pow2(i), q * Pow2(n) + r, s);
    DivModUnique(q * Pow2(n) + r, Pow2(n), q, r);
  }

  // ---------- codes with a single symbol ----------

  function Only(n: nat, at: nat, len: nat): (s: seq<nat>)
    ensures |s| == n && forall i :: 0 <= i < n ==> s[i] == if i == at then len else 0
  {
    seq(n, i => if i == at then len else 0)
  }

  lemma {:induction false} OnlyCount(n: nat, at: nat, len: nat, s: nat, k: nat)
    requires s > 0 && k <= n
    ensures CountUpto(Only(n, at, len), s, k) == if s == len && at < k then 1 else 0
    decreases k
  {
    if k > 0 { OnlyCount(n, at, len, s, k - 1); }
  }

  lemma {:induction false} OnlyKraft(n: nat, at: nat, len: nat, k: nat)
    requires 0 < len <= 15 && k <= n <= 288
    ensures Kraft(Only(n, at, len), k) == if at < k then Pow2(15 - len) else 0
    decreases k
  {
    hide Pow2;
    if k > 0 { OnlyKraft(n, at, len, k - 1); }
  }

  lemma OnlyCodable(n: nat, at: nat, len: nat)
    requires 0 < len <= 15 && at < n <= 288
    ensures Codable(Only(n, at, len)) && ZeroSymbol(Only(n, at, len), at)
  {
    hide Pow2, CountUpto, Kraft;
    OnlyKraft(n, at, len, n);
    Pow2Mono(15 - len, 15);
    OnlyCount(n, at, len, len, at);
    forall r | 1 <= r < len ensures Count(Only(n, at, len), r) == 0 { OnlyCount(n, at, len, r, n); }
    NoShortCodes(Only(n, at, len), len, len);
  }

  // ---------- the header ----------

  const SIZES: seq<nat> := [0, 0, 0, 0, 0, 0, 0, 2, 0, 0, 0, 0, 0, 0, 0, 7, 0, 7, 2]

  function Ops(): seq<LengthOp> {
    [LengthOp(18, 127), LengthOp(18, 127), LengthOp(17, 7), LengthOp(7, 0), LengthOp(17, 4), LengthOp(15, 0)]
  }

  function TheHeader(): Header { Header(288, 7, 19, SIZES, Ops()) }

  lemma Fields()
    ensures Window(Input(), 129, 2) == 2 && Window(Input(), 131, 5) == 31
    ensures Window(Input(), 136, 5) == 6 && Window(Input(), 141, 4) == 15
  {
    hide Window, Pow2;
    Pow2Values();
    FieldIs(Input(), 16, 1, 2, 7391, 2, 1);
    FieldIs(Input(), 16, 3, 5, 230, 31, 5);
    FieldIs(Input(), 17, 0, 5, 911, 6, 0);
    FieldIs(Input(), 17, 5, 4, 56, 15, 6);
  }

  lemma Sizes()
    ensures CodeLengthsAt(Input(), 145, 19, SIZES)
  {
    hide Window, Input, SizeOk;
    Sizes0();
    Sizes1();
    Sizes2();
    forall i | 0 <= i < 19 ensures SizeOk(i) {}
    SizesRead();
  }

  ghost predicate SizeOk(i: nat) {
    i < 19 ==> LENGTH_ORDER[i] < 19 && SIZES[LENGTH_ORDER[i]] == Window(Input(), 145 + 3 * i, 3)
  }

  lemma SizesRead()
    requires forall i :: 0 <= i < 19 ==> SizeOk(i)
    ensures CodeLengthsAt(Input(), 145, 19, SIZES)
  {
    hide Window, Input, SizeOk;
    forall i | 0 <= i < 19 ensures SIZES[LENGTH_ORDER[i]] == Window(Input(), 145 + 3 * i, 3) { SizeAt(i); }
  }

  lemma SizeAt(i: nat)
    requires i < 19 && SizeOk(i)
    ensures LENGTH_ORDER[i] < 19 && SIZES[LENGTH_ORDER[i]] == Window(Input(), 145 + 3 * i, 3)
  {}

  // Size i stands at bit b of byte f, with q above and s below it.
  lemma SizeField(i: nat, f: nat, b: nat, q: nat, r: nat, s: nat)
    requires i < 19 && 8 * f + b == 145 + 3 * i && b < 8 && f < 25
    requires r == SIZES[LENGTH_ORDER[i]] && r < Pow2(3) && s < Pow2(b)
    requires Pair(Input(), f) == (q * Pow2(3) + r) * Pow2(b) + s
    ensures SizeOk(i)
  {
    hide Window, Pow2, Input;
    FieldIs(Input(), f, b, 3, q, r, s);
  }

  lemma Sizes0()
    ensures SizeOk(0) && SizeOk(1) && SizeOk(2) && SizeOk(3) && SizeOk(4) && SizeOk(5) && SizeOk(6) && SizeOk(7)
  {
    hide Window, Pow2, SizeOk;
    Pow2Values();
    SizeField(0, 18, 1, 23, 0, 1);
    SizeField(1, 18, 4, 2, 7, 1);
    SizeField(2, 18, 7, 0, 2, 113);
    SizeField(3, 19, 2, 16, 0, 1);
    SizeField(4, 19, 5, 2, 0, 1);
    SizeField(5, 20, 0, 0, 2, 0);
    SizeField(6, 20, 3, 0, 0, 2);
    SizeField(7, 20, 6, 0, 0, 2);
  }

  lemma Sizes1()
    ensures SizeOk(8) && SizeOk(9) && SizeOk(10) && SizeOk(11) && SizeOk(12) && SizeOk(13) && SizeOk(14) && SizeOk(15)
  {
    hide Window, Pow2, SizeOk;
    Pow2Values();
    SizeField(8, 21, 1, 0, 0, 0);
    SizeField(9, 21, 4, 0, 0, 0);
    SizeField(10, 21, 7, 0, 0, 0);
    SizeField(11, 22, 2, 0, 0, 0);
    SizeField(12, 22, 5, 0, 0, 0);
    SizeField(13, 23, 0, 4096, 0, 0);
    SizeField(14, 23, 3, 512, 0, 0);
    SizeField(15, 23, 6, 64, 0, 0);
  }

  lemma Sizes2()
    ensures SizeOk(16) && SizeOk(17) && SizeOk(18)
  {
    hide Window, Pow2, SizeOk;
    Pow2Values();
    SizeField(16, 24, 1, 4024, 0, 0);
    SizeField(17, 24, 4, 503, 0, 0);
    SizeField(18, 24, 7, 62, 7, 0);
  }

  // How many of the first k sizes are s.
  ghost function SizesUpto(s: nat, k: nat): nat {
    if s == 2 then (if k > 18 then 2 else if k > 7 then 1 else 0)
    else if s == 7 then (if k > 17 then 2 else if k > 15 then 1 else 0)
    else 0
  }

  lemma {:induction false} SizesCount(s: nat, k: nat)
    requires s > 0 && k <= 19
    ensures CountUpto(SIZES, s, k) == SizesUpto(s, k)
    decreases k
  {
    if k > 0 { SizesCount(s, k - 1); }
  }

  lemma SizeCodes()
    ensures Code(SIZES, 7) == 0 && Code(SIZES, 18) == 1 && Code(SIZES, 15) == 64 && Code(SIZES, 17) == 65
  {
    hide CountUpto;
    forall s, k | 0 < s && 0 <= k <= 19 ensures CountUpto(SIZES, s, k) == SizesUpto(s, k) {
      SizesCount(s, k);
    }
    assert FirstCode(SIZES, 3) == 4;
    assert FirstCode(SIZES, 5) == 16;
    assert FirstCode(SIZES, 7) == 64;
  }

  lemma SizesCodable()
    ensures Codable(SIZES)
  {
    hide Pow2, Kraft;
    Pow2Values();
    SizesKraft(19);
  }

  lemma {:induction false} SizesKraft(k: nat)
    requires k <= 19
    ensures Kraft(SIZES, k) ==
      if k > 18 then 0x4200 else if k > 17 then 0x2200 else if k > 15 then 0x2100 else if k > 7 then 0x2000 else 0
    decreases k
  {
    hide Pow2;
    Pow2Values();
    if k > 0 { SizesKraft(k - 1); }
  }

  // The code of symbol sym is c, and stands at p, where it reads w as a field.
  lemma SymbolIs(p: nat, sym: nat, c: nat, w: nat)
    requires sym < 19 && SIZES[sym] > 0 && Code(SIZES, sym) == c < Pow2(SIZES[sym]) && Rev(c, SIZES[sym]) == w
    requires Window(Input(), p, SIZES[sym]) == w
    ensures SymbolAt(SIZES, Input(), p, sym)
  {
    hide Window, Peek, Code, Rev, Pow2, Input;
    CodeInWindow(Input(), p, c, SIZES[sym]);
  }

  lemma Op0()
    ensures OpAt(SIZES, Input(), 202, LengthOp(18, 127))
  {
    hide Window, Pow2, Code, Peek;
    Pow2Values();
    SizeCodes();
    FieldIs(Input(), 25, 2, 2, 3967, 2, 3);
    FieldIs(Input(), 25, 4, 7, 30, 127, 11);
    SymbolIs(202, 18, 1, 2);
  }

  lemma Op1()
    ensures OpAt(SIZES, Input(), 211, LengthOp(18, 127))
  {
    hide Window, Pow2, Code, Peek;
    Pow2Values();
    SizeCodes();
    FieldIs(Input(), 26, 3, 2, 255, 2, 7);
    FieldIs(Input(), 26, 5, 7, 1, 127, 23);
    SymbolIs(211, 18, 1, 2);
  }

  lemma Op2()
    ensures OpAt(SIZES, Input(), 220, LengthOp(17, 7))
  {
    hide Window, Pow2, Code, Peek;
    Pow2Values();
    SizeCodes();
    FieldIs(Input(), 27, 4, 7, 7, 65, 15);
    FieldIs(Input(), 28, 3, 3, 260, 7, 4);
    SymbolIs(220, 17, 65, 65);
  }

  lemma Op3()
    ensures OpAt(SIZES, Input(), 230, LengthOp(7, 0))
  {
    hide Window, Pow2, Code, Peek;
    Pow2Values();
    SizeCodes();
    FieldIs(Input(), 28, 6, 2, 65, 0, 60);
    SymbolIs(230, 7, 0, 0);
    EmptyWindow(Input(), 232);
  }

  lemma Op4()
    ensures OpAt(SIZES, Input(), 232, LengthOp(17, 4))
  {
    hide Window, Pow2, Code, Peek;
    Pow2Values();
    SizeCodes();
    FieldIs(Input(), 29, 0, 7, 12, 65, 0);
    FieldIs(Input(), 29, 7, 3, 1, 4, 65);
    SymbolIs(232, 17, 65, 65);
  }

  lemma Op5()
    ensures OpAt(SIZES, Input(), 242, LengthOp(15, 0))
  {
    hide Window, Pow2, Code, Peek;
    Pow2Values();
    SizeCodes();
    FieldIs(Input(), 30, 2, 7, 0, 1, 2);
    SymbolIs(242, 15, 64, 1);
    EmptyWindow(Input(), 249);
  }

  // One operation more, by its position, its length and the bits it leaves.
  lemma OneMore(ops: seq<LengthOp>, op: LengthOp, p: nat, b: nat, before: seq<nat>, after: seq<nat>, p': nat, b': nat)
    requires OpsAt(SIZES, Input(), 202, ops) && OpsEnd(SIZES, 202, ops) == p && LengthsOf(ops) == before
    requires OpsLeft(SIZES, Input(), 202, 14, ops) == Left(b) && OpAt(SIZES, Input(), p, op) && op.sym != 16
    requires after == before + Repeated(if op.sym < 16 then op.sym else 0, OpCount(op))
    requires OpEnd(SIZES, p, op) == p' && OpLeft(SIZES, Input(), p, b, op) == Left(b')
    ensures OpsAt(SIZES, Input(), 202, ops + [op]) && OpsEnd(SIZES, 202, ops + [op]) == p'
    ensures LengthsOf(ops + [op]) == after && OpsLeft(SIZES, Input(), 202, 14, ops + [op]) == Left(b')
  {
    hide OpsAt, OpsEnd, LengthsOf, OpsLeft, OpAt, OpEnd, OpLeft, Input;
    MoreOps(SIZES, Input(), 202, 14, ops, op);
  }

  lemma FirstOps()
    ensures OpsAt(SIZES, Input(), 202, Ops()[..3]) && OpsEnd(SIZES, 202, Ops()[..3]) == 230
    ensures LengthsOf(Ops()[..3]) == Repeated(0, 286) && OpsLeft(SIZES, Input(), 202, 14, Ops()[..3]) == Left(18)
  {
    hide OpsAt, OpsEnd, LengthsOf, OpsLeft, OpAt, Input;
    NoOps(SIZES, Input(), 202, 14);
    assert Ops()[..0] == [];
    Op0();
    Op1();
    Op2();
    OneMore(Ops()[..0], LengthOp(18, 127), 202, 14, [], Repeated(0, 138), 211, 21);
    assert Ops()[..1] == Ops()[..0] + [LengthOp(18, 127)];
    OneMore(Ops()[..1], LengthOp(18, 127), 211, 21, Repeated(0, 138), Repeated(0, 276), 220, 12);
    assert Ops()[..2] == Ops()[..1] + [LengthOp(18, 127)];
    OneMore(Ops()[..2], LengthOp(17, 7), 220, 12, Repeated(0, 276), Repeated(0, 286), 230, 18);
    assert Ops()[..3] == Ops()[..2] + [LengthOp(17, 7)];
  }

  lemma AllOps()
    ensures OpsAt(SIZES, Input(), 202, Ops()) && OpsEnd(SIZES, 202, Ops()) == 249
    ensures LengthsOf(Ops()) == Only(288, 286, 7) + Only(7, 6, 15) && OpsLeft(SIZES, Input(), 202, 14, Ops()) == Left(23)
  {
    hide OpsAt, OpsEnd, LengthsOf, OpsLeft, OpAt, Input;
    FirstOps();
    Op3();
    Op4();
    Op5();
    var lens := Only(288, 286, 7) + Only(7, 6, 15);
    OneMore(Ops()[..3], LengthOp(7, 0), 230, 18, Repeated(0, 286), lens[..287], 232, 16);
    assert Ops()[..4] == Ops()[..3] + [LengthOp(7, 0)];
    OneMore(Ops()[..4], LengthOp(17, 4), 232, 16, lens[..287], lens[..294], 242, 6);
    assert Ops()[..5] == Ops()[..4] + [LengthOp(17, 4)];
    OneMore(Ops()[..5], LengthOp(15, 0), 242, 6, lens[..294], lens, 249, 23);
    assert Ops() == Ops()[..5] + [LengthOp(15, 0)];
  }

  lemma BitsLeft()
    ensures Received(Received(0, 1), 2) == 29 && Received(Received(Received(29, 5), 5), 4) == 15
    ensures SizesLeft(15, 19) == 14 && CountsLeft(29, 19) == 14 && AfterType(0) == 29
  {
    assert SizesLeft(15, 5) == 0;
    assert SizesLeft(15, 10) == 17;
    assert SizesLeft(15, 15) == 2;
  }

  lemma HeaderIsThere()
    ensures HeaderReadable(Input(), 131, 29, TheHeader()) && HeaderEnd(131, TheHeader()) == 249
    ensures HeaderLiterals(TheHeader()) == Only(288, 286, 7) && HeaderDistances(TheHeader()) == Only(7, 6, 15)
    ensures HeaderLeft(Input(), 131, 29, TheHeader()) == Left(23)
  {
    hide Window, OpsAt, OpsEnd, LengthsOf, OpsLeft, CodeLengthsAt, Codable, CountsLeft, ZeroSymbol, Only, Input;
    Fields();
    Sizes();
    AllOps();
    BitsLeft();
    SizesCodable();
    OnlyCodable(288, 286, 7);
    OnlyCodable(7, 6, 15);
    Cut(Only(288, 286, 7), Only(7, 6, 15));
  }

  lemma Cut(a: seq<nat>, b: seq<nat>)
    ensures (a + b)[..|a|] == a && (a + b)[|a|..] == b
  {}

  lemma Tail()
    ensures ZerosFrom(Input(), 249)
  {
    forall k: nat | k >= 249 ensures Bit(Input(), k) == 0 {
      if k / 8 < |Input()| { assert Input()[k / 8] == 0; }
    }
  }

  lemma PaceKeeps()
    ensures Round(Pace(7, 15, 2), 23) == Left(23)
  {}

  // From 23 buffered bits, a length code of 7 bits, a distance code of 15, and two extra bits lead back
  // to 23 buffered bits.
  lemma CodesAreEndless(n: nat)
    requires n >= 9
    ensures EndlessCodes(Only(288, 286, 7), Only(7, 6, 15), n, 23)
  {
    hide ZeroSymbol, Codable, Endless, Only, Round;
    OnlyCodable(288, 286, 7);
    OnlyCodable(7, 6, 15);
    var t := Copy(29, 0, 6, 0);
    assert PaceOf(Only(288, 286, 7), Only(7, 6, 15), t) == Pace(7, 15, 2);
    PaceKeeps();
    SameAgain(Pace(7, 15, 2), 23);
    assert IdleToken(Only(288, 286, 7), Only(7, 6, 15), n, t);
  }

  function NineZeros(): (s: seq<byte>)
    ensures |s| == 9
  {
    FRONT[7..]
  }

  lemma FirstBlock()
    ensures ZlibHeader(Input()) && BlockAt(Input(), 16, false, Stored(NineZeros()))
    ensures BodyEnd(19, Stored(NineZeros())) == 128
  {
    hide Window, Pow2;
    Pow2Values();
    FieldIs(Input(), 2, 0, 1, 1152, 0, 0);
    FieldIs(Input(), 2, 1, 2, 288, 0, 0);
  }

  lemma FirstBlockIsRead(limit: nat)
    requires limit >= 9
    ensures BlocksReadable(Input(), 16, limit, [Stored(NineZeros())]) && BlocksEnd(16, [Stored(NineZeros())]) == 128
    ensures BlocksLeft(Input(), 16, [Stored(NineZeros())]) == 0 && BlocksProduced([Stored(NineZeros())]) == 9
  {
    hide Window, StoredAt, BodyEnd, Input, NineZeros, AfterType;
    FirstBlock();
    assert [Stored(NineZeros())][..0] == [];
  }

  lemma SecondBlockSticks(limit: nat)
    requires limit >= 9
    ensures BlockSticks(Input(), 128, 0, 9, limit, Dynamic(TheHeader(), []))
  {
    hide HeaderReadable, HeaderEnd, HeaderLiterals, HeaderDistances, HeaderLeft, EndlessCodes, ZerosFrom, Window, Input, AfterType;
    Fields();
    HeaderIsThere();
    Tail();
    BitsLeft();
    CodesAreEndless(9);
    NoneRead(HeaderLiterals(TheHeader()), HeaderDistances(TheHeader()), Input(), 249, 23, 9, limit);
  }

  // Decoding this stream never ends: the buffer never runs out, and there is always one more copy of
  // length 0 to be made.
  lemma InputIsStuck(limit: nat)
    requires limit >= 9
    ensures StreamSticks(Input(), limit, [Stored(NineZeros())], Dynamic(TheHeader(), []))
  {
    hide BlockAt, BodyEnd, ZlibHeader, BlocksReadable, BlocksEnd, BlocksLeft, BlocksProduced, BlockSticks, Input, NineZeros;
    FirstBlock();
    FirstBlockIsRead(limit);
    SecondBlockSticks(limit);
  }

  method NeverEnds(capacity: nat, expandable: bool) returns (r: Verdict)
    requires 9 <= capacity <= UINT_MAX
    ensures r == Hangs
  {
    hide StreamSticks, StreamReadable, Reach;
    InputIsStuck(Room(capacity, expandable));
    var output;
    ghost var bs, b;
    r, output, bs, b := DoZlib(Input(), capacity, expandable);
  }
}

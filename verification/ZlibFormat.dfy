// The blocks of a DEFLATE stream (section 3.2 of RFC 1951) and its zlib header (section 2.2 of
// RFC 1950), as relations between bytes and their meaning.
module ZlibFormat {
  import opened Words
  import opened BitStream
  import opened CanonicalCode
  import opened DeflateFormat

  // The fixed code lengths of section 3.2.6 of RFC 1951.
  function FixedLiteralLength(i: nat): nat {
    if i <= 143 then 8 else if i <= 255 then 9 else if i <= 279 then 7 else 8
  }

  function FixedLengths(): (s: seq<nat>)
    ensures |s| == 288 && forall i :: 0 <= i < 288 ==> s[i] == FixedLiteralLength(i)
  {
    seq(288, i requires 0 <= i => FixedLiteralLength(i))
  }

  // 8 bits for the symbols up to 143 and from 280 on, 9 for those between 144 and 255, 7 for the others.
  lemma FixedLengthsAre()
    ensures forall i :: 0 <= i < 288 ==>
      && (FixedLengths()[i] == 9 <==> 144 <= i < 256)
      && (FixedLengths()[i] == 7 <==> 256 <= i < 280)
      && (FixedLengths()[i] == 8 <==> i < 144 || 280 <= i)
  {}

  function FixedDistances(): (s: seq<nat>)
    ensures |s| == 32 && forall i :: 0 <= i < 32 ==> s[i] == 5
  {
    seq(32, _ => 5)
  }

  // ---------- dynamic code lengths ----------

  const LENGTH_ORDER: seq<nat> := [16, 17, 18, 0, 8, 7, 9, 6, 10, 5, 11, 4, 12, 3, 13, 2, 14, 1, 15]

  // The repeat symbols, the zero, and then the lengths from the middle outwards, 8, 7, 9, 6 and so on.
  lemma LengthOrderIs()
    ensures |LENGTH_ORDER| == 19
    ensures forall i :: 0 <= i < 3 ==> LENGTH_ORDER[i] == 16 + i
    ensures LENGTH_ORDER[3] == 0
    ensures forall m :: 0 <= m < 8 ==> LENGTH_ORDER[4 + 2 * m] == 8 + m
    ensures forall m :: 0 <= m < 7 ==> LENGTH_ORDER[5 + 2 * m] == 7 - m
  {}

  // One symbol of the code length alphabet with its extra bits.
  datatype LengthOp = LengthOp(sym: nat, extra: nat)

  function OpExtra(sym: nat): (n: nat)
    ensures n <= 7
  {
    if sym == 16 then 2 else if sym == 17 then 3 else if sym == 18 then 7 else 0
  }

  ghost function OpCount(op: LengthOp): nat {
    if op.sym < 16 then 1 else if op.sym == 18 then op.extra + 11 else op.extra + 3
  }

  ghost function OpFill(op: LengthOp, before: seq<nat>): nat {
    if op.sym < 16 then op.sym else if op.sym == 16 && before != [] then before[|before| - 1] else 0
  }

  ghost function Repeated(x: nat, n: nat): (s: seq<nat>)
    ensures |s| == n && forall i :: 0 <= i < n ==> s[i] == x
  {
    seq(n, _ => x)
  }

  // The code lengths a list of operations spells out.
  ghost function LengthsOf(ops: seq<LengthOp>): seq<nat> {
    if ops == [] then []
    else
      var before := LengthsOf(ops[..|ops| - 1]);
      before + Repeated(OpFill(ops[|ops| - 1], before), OpCount(ops[|ops| - 1]))
  }

  // What an operation says of the lengths from n to n': symbols below 16 are lengths; 16 repeats the length
  // before three times or more, 17 and 18 stand for zeros.
  ghost predicate OpSays(op: LengthOp, lens: seq<nat>, n: nat, n': nat) {
    && n <= n' <= |lens|
    && (op.sym < 16 ==> n' == n + 1 && lens[n] == op.sym)
    && (op.sym == 16 ==> n > 0 && n' == n + 3 + op.extra && forall k :: n <= k < n' ==> lens[k] == lens[k - 1])
    && (op.sym == 17 ==> n' == n + 3 + op.extra && forall k :: n <= k < n' ==> lens[k] == 0)
    && (op.sym == 18 ==> n' == n + 11 + op.extra && forall k :: n <= k < n' ==> lens[k] == 0)
  }

  // The operations spell out these lengths, each from where the one before ended.
  ghost predicate Spells(ops: seq<LengthOp>, lens: seq<nat>, at: seq<nat>) {
    && |at| == |ops| + 1 && at[0] == 0 && at[|ops|] == |lens|
    && forall k :: 0 <= k < |ops| ==> OpSays(ops[k], lens, at[k], at[k + 1])
  }

  lemma OpSaysMore(op: LengthOp, lens: seq<nat>, more: seq<nat>, n: nat, n': nat)
    requires OpSays(op, lens, n, n')
    ensures OpSays(op, lens + more, n, n')
  {}

  lemma NextSays(op: LengthOp, before: seq<nat>)
    requires op.sym < 19 && (op.sym == 16 ==> before != [])
    ensures var after := before + Repeated(OpFill(op, before), OpCount(op));
      OpSays(op, after, |before|, |after|)
  {}

  // The lengths of a list of operations are those it spells out.
  lemma {:induction false} LengthsAreSpelled(cl: seq<nat>, input: seq<byte>, p: nat, ops: seq<LengthOp>) returns (at: seq<nat>)
    requires OpsAt(cl, input, p, ops)
    ensures Spells(ops, LengthsOf(ops), at)
    decreases |ops|
  {
    hide OpSays, OpFill, OpCount, Window, SymbolAt;
    if ops == [] {
      at := [0];
    } else {
      var init, op := ops[..|ops| - 1], ops[|ops| - 1];
      var before, after := LengthsOf(init), LengthsOf(ops);
      var front := LengthsAreSpelled(cl, input, p, init);
      at := front + [|after|];
      NextSays(op, before);
      forall k | 0 <= k < |ops| ensures OpSays(ops[k], after, at[k], at[k + 1]) {
        if k < |init| {
          assert OpSays(init[k], before, front[k], front[k + 1]);
          OpSaysMore(init[k], before, Repeated(OpFill(op, before), OpCount(op)), front[k], front[k + 1]);
        }
      }
    }
  }

  // Only one list of lengths is spelled out.
  lemma {:induction false} SpelledAlike(ops: seq<LengthOp>, lens: seq<nat>, at: seq<nat>, lens': seq<nat>, at': seq<nat>, k: nat)
    requires Spells(ops, lens, at) && Spells(ops, lens', at') && k <= |ops| && forall i :: 0 <= i < |ops| ==> ops[i].sym < 19
    ensures at[k] == at'[k] <= |lens| && at[k] <= |lens'| && lens[..at[k]] == lens'[..at[k]]
    decreases k
  {
    if k > 0 {
      SpelledAlike(ops, lens, at, lens', at', k - 1);
      assert OpSays(ops[k - 1], lens, at[k - 1], at[k]) && OpSays(ops[k - 1], lens', at'[k - 1], at'[k]);
      SameFrom(ops[k - 1], lens, lens', at[k - 1], at[k], at[k]);
    }
  }

  lemma {:induction false} SameFrom(op: LengthOp, lens: seq<nat>, lens': seq<nat>, n: nat, n': nat, m: nat)
    requires op.sym < 19 && OpSays(op, lens, n, n') && OpSays(op, lens', n, n') && n <= m <= n'
    requires lens[..n] == lens'[..n]
    ensures lens[..m] == lens'[..m]
    decreases m
  {
    if m > n {
      SameFrom(op, lens, lens', n, n', m - 1);
      assert m >= 2 ==> lens[m - 2] == lens[..m - 1][m - 2] && lens'[m - 2] == lens'[..m - 1][m - 2];
      assert lens[..m] == lens[..m - 1] + [lens[m - 1]] && lens'[..m] == lens'[..m - 1] + [lens'[m - 1]];
    }
  }

  ghost function OpEnd(cl: seq<nat>, p: nat, op: LengthOp): nat {
    p + CodeLength(cl, op.sym) + OpExtra(op.sym)
  }

  ghost predicate OpAt(cl: seq<nat>, input: seq<byte>, p: nat, op: LengthOp) {
    && op.sym < 19 && SymbolAt(cl, input, p, op.sym)
    && Window(input, p + CodeLength(cl, op.sym), OpExtra(op.sym)) == op.extra
  }

  ghost function OpsEnd(cl: seq<nat>, p: nat, ops: seq<LengthOp>): nat {
    if ops == [] then p else OpEnd(cl, OpsEnd(cl, p, ops[..|ops| - 1]), ops[|ops| - 1])
  }

  ghost predicate OpsAt(cl: seq<nat>, input: seq<byte>, p: nat, ops: seq<LengthOp>) {
    ops != [] ==>
      && OpsAt(cl, input, p, ops[..|ops| - 1])
      && OpAt(cl, input, OpsEnd(cl, p, ops[..|ops| - 1]), ops[|ops| - 1])
      && (ops[|ops| - 1].sym == 16 ==> LengthsOf(ops[..|ops| - 1]) != [])
  }

  datatype Header = Header(hlit: nat, hdist: nat, hclen: nat, cl: seq<nat>, ops: seq<LengthOp>)

  // The code lengths of the code length alphabet, stored in a peculiar order.
  ghost predicate CodeLengthsAt(input: seq<byte>, p: nat, n: nat, cl: seq<nat>) {
    |cl| == 19 && n <= 19 &&
    forall i :: 0 <= i < 19 ==> cl[LENGTH_ORDER[i]] == if i < n then Window(input, p + 3 * i, 3) else 0
  }

  ghost predicate HeaderAt(input: seq<byte>, p: nat, h: Header) {
    && h.hlit == Window(input, p, 5) + 257
    && h.hdist == Window(input, p + 5, 5) + 1
    && h.hclen == Window(input, p + 10, 4) + 4
    && CodeLengthsAt(input, p + 14, h.hclen, h.cl)
    && OpsAt(h.cl, input, p + 14 + 3 * h.hclen, h.ops)
    && |LengthsOf(h.ops)| == h.hlit + h.hdist
  }

  ghost function HeaderEnd(p: nat, h: Header): nat {
    OpsEnd(h.cl, p + 14 + 3 * h.hclen, h.ops)
  }

  ghost function HeaderLiterals(h: Header): seq<nat> {
    if h.hlit <= |LengthsOf(h.ops)| then LengthsOf(h.ops)[..h.hlit] else []
  }

  ghost function HeaderDistances(h: Header): seq<nat> {
    if h.hlit <= |LengthsOf(h.ops)| then LengthsOf(h.ops)[h.hlit..] else []
  }

  // Codes of these lengths exist.
  ghost predicate Codable(lens: seq<nat>) {
    ValidLengths(lens) && Kraft(lens, |lens|) <= Pow2(15)
  }

  // All three codes of the header exist.
  ghost predicate HeaderCodable(h: Header) {
    Codable(h.cl) && Codable(HeaderLiterals(h)) && Codable(HeaderDistances(h))
  }

  // ---------- blocks ----------

  datatype Block =
    | Stored(data: seq<byte>)
    | Fixed(toks: seq<Token>)
    | Dynamic(header: Header, toks: seq<Token>)

  ghost function BlockType(b: Block): nat {
    match b
    case Stored(_) => 0
    case Fixed(_) => 1
    case Dynamic(_, _) => 2
  }

  // The first whole byte at or after bit p.
  ghost function ByteAfter(p: nat): nat { (p + 7) / 8 }

  lemma ByteAfterIs(p: nat)
    ensures p <= 8 * ByteAfter(p) < p + 8
  {}

  function LittleEndian(lo: int, hi: int): int { hi * 256 + lo }

  ghost predicate StoredAt(input: seq<byte>, p: nat, data: seq<byte>) {
    var q := ByteAfter(p);
    && q + 4 + |data| <= |input|
    && LittleEndian(input[q], input[q + 1]) == |data|
    && LittleEndian(input[q + 2], input[q + 3]) == 0xFFFF - |data|
    && input[q + 4..q + 4 + |data|] == data
  }

  ghost predicate CompressedAt(ll: seq<nat>, dl: seq<nat>, input: seq<byte>, p: nat, toks: seq<Token>) {
    && TokensAt(ll, dl, input, p, toks)
    && SymbolAt(ll, input, TokensEnd(ll, dl, p, toks), END_OF_BLOCK)
  }

  ghost function CompressedEnd(ll: seq<nat>, dl: seq<nat>, p: nat, toks: seq<Token>): nat {
    TokensEnd(ll, dl, p, toks) + CodeLength(ll, END_OF_BLOCK)
  }

  ghost predicate BodyAt(input: seq<byte>, p: nat, b: Block) {
    match b
    case Stored(data) => StoredAt(input, p, data)
    case Fixed(toks) => CompressedAt(FixedLengths(), FixedDistances(), input, p, toks)
    case Dynamic(h, toks) =>
      && HeaderAt(input, p, h) && HeaderCodable(h)
      && CompressedAt(HeaderLiterals(h), HeaderDistances(h), input, HeaderEnd(p, h), toks)
  }

  ghost function BodyEnd(p: nat, b: Block): nat {
    match b
    case Stored(data) => 8 * (ByteAfter(p) + 4 + |data|)
    case Fixed(toks) => CompressedEnd(FixedLengths(), FixedDistances(), p, toks)
    case Dynamic(h, toks) => CompressedEnd(HeaderLiterals(h), HeaderDistances(h), HeaderEnd(p, h), toks)
  }

  ghost predicate BlockAt(input: seq<byte>, p: nat, final: bool, b: Block) {
    && Window(input, p, 1) == (if final then 1 else 0)
    && Window(input, p + 1, 2) == BlockType(b)
    && BodyAt(input, p + 3, b)
  }

  ghost function BlocksEnd(p: nat, bs: seq<Block>): nat {
    if bs == [] then p else BodyEnd(BlocksEnd(p, bs[..|bs| - 1]) + 3, bs[|bs| - 1])
  }

  // Blocks that are not the last of their stream.
  ghost predicate BlocksAt(input: seq<byte>, p: nat, bs: seq<Block>) {
    bs != [] ==>
      && BlocksAt(input, p, bs[..|bs| - 1])
      && BlockAt(input, BlocksEnd(p, bs[..|bs| - 1]), false, bs[|bs| - 1])
  }

  ghost predicate StreamAt(input: seq<byte>, p: nat, bs: seq<Block>) {
    && bs != []
    && BlocksAt(input, p, bs[..|bs| - 1])
    && BlockAt(input, BlocksEnd(p, bs[..|bs| - 1]), true, bs[|bs| - 1])
  }

  ghost function BlockProduced(b: Block): nat {
    if b.Stored? then |b.data| else Produced(b.toks)
  }

  ghost predicate BlockExpands(before: seq<byte>, b: Block, after: seq<byte>) {
    if b.Stored? then after == before + b.data else Expands(before, b.toks, after)
  }

  ghost predicate BlocksExpand(before: seq<byte>, bs: seq<Block>, after: seq<byte>) {
    if bs == [] then after == before
    else
      var b := bs[|bs| - 1];
      && BlockProduced(b) <= |after|
      && var mid := after[..|after| - BlockProduced(b)];
         BlockExpands(mid, b, after) && BlocksExpand(before, bs[..|bs| - 1], mid)
  }

  ghost predicate ZlibHeader(input: seq<byte>) {
    && |input| > 2
    && input[0] % 16 == 8
    && input[1] / 32 % 2 == 0
    && LittleEndian(input[1], input[0]) % 31 == 0
  }

  // The first four bits say compression method 8, bit 13 that there is no preset dictionary, and the two
  // bytes as a number, most significant byte first, are a multiple of 31.
  lemma ZlibHeaderIs(input: seq<byte>)
    requires |input| > 2
    ensures var cmf: nat, flg: nat := input[0], input[1];
      var v := 256 * cmf + flg;
      ZlibHeader(input) <==> Window(input, 0, 4) == 8 && Bit(input, 13) == 0 && 31 * (v / 31) == v
  {
    hide Window;
    var cmf: nat, flg: nat := input[0], input[1];
    ByteWindow(input, 0);
    WindowMaskShift(input, 0, 4, 8);
    Pow2Values();
    assert Bit(input, 13) == flg / 32 % 2;
  }

  // The meaning of a zlib stream: its blocks, and what they expand to.
  ghost predicate Inflates(input: seq<byte>, bs: seq<Block>, output: seq<byte>) {
    ZlibHeader(input) && StreamAt(input, 16, bs) && BlocksExpand([], bs, output)
  }

  // ---------- lemmas ----------

  lemma NoBlocks(input: seq<byte>, p: nat)
    ensures BlocksAt(input, p, []) && BlocksEnd(p, []) == p && BlocksExpand([], [], [])
  {}

  lemma {:induction false} OpsForward(cl: seq<nat>, p: nat, ops: seq<LengthOp>)
    ensures p <= OpsEnd(cl, p, ops)
    decreases |ops|
  {
    if ops != [] { OpsForward(cl, p, ops[..|ops| - 1]); }
  }

  lemma EndsAfter(p: nat, b: Block)
    ensures p <= BodyEnd(p, b)
  {
    match b
    case Stored(_) =>
    case Fixed(toks) => TokensForward(FixedLengths(), FixedDistances(), p, toks);
    case Dynamic(h, toks) =>
      OpsForward(h.cl, p + 14 + 3 * h.hclen, h.ops);
      TokensForward(HeaderLiterals(h), HeaderDistances(h), HeaderEnd(p, h), toks);
  }

  lemma BlocksMore(input: seq<byte>, p: nat, bs: seq<Block>, b: Block)
    requires BlocksAt(input, p, bs) && BlockAt(input, BlocksEnd(p, bs), false, b)
    ensures BlocksAt(input, p, bs + [b])
    ensures BlocksEnd(p, bs + [b]) == BodyEnd(BlocksEnd(p, bs) + 3, b)
  {
    hide BlockAt, BodyEnd;
    assert (bs + [b])[..|bs + [b]| - 1] == bs;
  }

  lemma StreamMore(input: seq<byte>, p: nat, bs: seq<Block>, b: Block)
    requires BlocksAt(input, p, bs) && BlockAt(input, BlocksEnd(p, bs), true, b)
    ensures StreamAt(input, p, bs + [b])
    ensures BlocksEnd(p, bs + [b]) == BodyEnd(BlocksEnd(p, bs) + 3, b)
  {
    hide BlockAt, BodyEnd;
    assert (bs + [b])[..|bs + [b]| - 1] == bs;
  }

  lemma BlockLength(before: seq<byte>, b: Block, after: seq<byte>)
    requires BlockExpands(before, b, after)
    ensures |after| == |before| + BlockProduced(b) && after[..|before|] == before
  {
    if !b.Stored? {
      ExpandsLength(before, b.toks, after);
      ExpandsKeeps(before, b.toks, after);
    }
  }

  lemma BlocksExpandMore(out: seq<byte>, bs: seq<Block>, b: Block, before: seq<byte>, after: seq<byte>)
    requires BlocksExpand(out, bs, before) && BlockExpands(before, b, after)
    ensures BlocksExpand(out, bs + [b], after)
    ensures |after| == |before| + BlockProduced(b)
  {
    hide BlockExpands, BlockProduced;
    BlockLength(before, b, after);
    assert (bs + [b])[..|bs + [b]| - 1] == bs && (bs + [b])[|bs + [b]| - 1] == b;
    assert after[..|after| - BlockProduced(b)] == before;
  }
}

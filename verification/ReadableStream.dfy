// What the decoder can read of a zlib stream: which blocks, with how many bits left in the buffer behind
// each of them, and where decoding gets stuck.
module ReadableStream {
  import opened Words
  import opened BitStream
  import opened CanonicalCode
  import opened DeflateFormat
  import opened ZlibFormat
  import opened IdleRounds
  import opened Readable
  import opened DynamicHeader

  // The bits left after the three bits in front of a block.
  ghost function AfterType(k: nat): nat {
    Received(Received(k, 1), 2)
  }

  // The body of block b stands at p, can be read with k buffered bits, and finds room behind n bytes of
  // output of at most limit.
  ghost predicate BodyReadable(input: seq<byte>, p: nat, k: nat, n: nat, limit: nat, b: Block) {
    match b
    case Stored(data) => StoredAt(input, p, data) && n + |data| <= limit
    case Fixed(toks) => Ends(FixedLengths(), FixedDistances(), input, p, k, n, limit, toks)
    case Dynamic(h, toks) =>
      && HeaderReadable(input, p, k, h)
      && Ends(HeaderLiterals(h), HeaderDistances(h), input, HeaderEnd(p, h), HeaderLeft(input, p, k, h).n, n, limit, toks)
  }

  ghost predicate TypedReadable(input: seq<byte>, p: nat, k: nat, n: nat, limit: nat, kind: nat, b: Block) {
    BlockType(b) == kind && BodyReadable(input, p, k, n, limit, b)
  }

  // The bits left behind it: none behind a stored block.
  ghost function BodyLeft(input: seq<byte>, p: nat, k: nat, b: Block): nat {
    match b
    case Stored(_) => 0
    case Fixed(toks) => EndLeft(FixedLengths(), FixedDistances(), input, p, k, toks)
    case Dynamic(h, toks) =>
      match HeaderLeft(input, p, k, h)
      case Out => 0
      case Left(m) => EndLeft(HeaderLiterals(h), HeaderDistances(h), input, HeaderEnd(p, h), m, toks)
  }

  // The header and the tokens of b can be read, and behind them decoding gets stuck.
  ghost predicate BodySticks(input: seq<byte>, p: nat, k: nat, n: nat, limit: nat, b: Block) {
    && b.Dynamic? && HeaderReadable(input, p, k, b.header)
    && Sticks(HeaderLiterals(b.header), HeaderDistances(b.header), input, HeaderEnd(p, b.header),
              HeaderLeft(input, p, k, b.header).n, n, limit, b.toks)
  }

  ghost predicate BlockReadable(input: seq<byte>, p: nat, k: nat, n: nat, limit: nat, final: bool, b: Block) {
    && Window(input, p, 1) == (if final then 1 else 0)
    && Window(input, p + 1, 2) == BlockType(b)
    && BodyReadable(input, p + 3, AfterType(k), n, limit, b)
  }

  ghost predicate BlockSticks(input: seq<byte>, p: nat, k: nat, n: nat, limit: nat, b: Block) {
    Window(input, p + 1, 2) == 2 && BodySticks(input, p + 3, AfterType(k), n, limit, b)
  }

  ghost function BlockLeft(input: seq<byte>, p: nat, k: nat, b: Block): nat {
    BodyLeft(input, p + 3, AfterType(k), b)
  }

  ghost function BlocksProduced(bs: seq<Block>): nat {
    if bs == [] then 0 else BlocksProduced(bs[..|bs| - 1]) + BlockProduced(bs[|bs| - 1])
  }

  // The bits left behind blocks that begin at p with an empty buffer.
  ghost function BlocksLeft(input: seq<byte>, p: nat, bs: seq<Block>): nat {
    if bs == [] then 0
    else BlockLeft(input, BlocksEnd(p, bs[..|bs| - 1]), BlocksLeft(input, p, bs[..|bs| - 1]), bs[|bs| - 1])
  }

  // Block b can be read behind these blocks.
  ghost predicate NextReadable(input: seq<byte>, p: nat, limit: nat, bs: seq<Block>, final: bool, b: Block) {
    BlockReadable(input, BlocksEnd(p, bs), BlocksLeft(input, p, bs), BlocksProduced(bs), limit, final, b)
  }

  ghost predicate BlocksReadable(input: seq<byte>, p: nat, limit: nat, bs: seq<Block>) {
    bs != [] ==>
      && BlocksReadable(input, p, limit, bs[..|bs| - 1])
      && NextReadable(input, p, limit, bs[..|bs| - 1], false, bs[|bs| - 1])
  }

  // The whole stream can be read, into an output of at most limit bytes.
  ghost predicate StreamReadable(input: seq<byte>, limit: nat, bs: seq<Block>) {
    && ZlibHeader(input) && bs != []
    && BlocksReadable(input, 16, limit, bs[..|bs| - 1])
    && NextReadable(input, 16, limit, bs[..|bs| - 1], true, bs[|bs| - 1])
  }

  // These blocks can be read, and in block b behind them decoding gets stuck.
  ghost predicate StreamSticks(input: seq<byte>, limit: nat, bs: seq<Block>, b: Block) {
    && ZlibHeader(input) && BlocksReadable(input, 16, limit, bs)
    && BlockSticks(input, BlocksEnd(16, bs), BlocksLeft(input, 16, bs), BlocksProduced(bs), limit, b)
  }

  // ---------- what can be read is there ----------

  lemma BodyIsThere(input: seq<byte>, p: nat, k: nat, n: nat, limit: nat, b: Block)
    requires BodyReadable(input, p, k, n, limit, b)
    ensures BodyAt(input, p, b)
  {
    hide StoredAt, TokensAt, TokensEnd, SymbolAt, HeaderAt, HeaderCodable, HeaderEnd, HeaderLiterals, HeaderDistances;
    hide FixedLengths, FixedDistances, TokensLeft, HeaderLeft, Produced, Reachable, Primable;
  }

  lemma BlockIsThere(input: seq<byte>, p: nat, k: nat, n: nat, limit: nat, final: bool, b: Block)
    requires BlockReadable(input, p, k, n, limit, final, b)
    ensures BlockAt(input, p, final, b)
  {
    hide BodyReadable, BodyAt, Window, AfterType;
    BodyIsThere(input, p + 3, AfterType(k), n, limit, b);
  }

  lemma {:induction false} BlocksAreThere(input: seq<byte>, p: nat, limit: nat, bs: seq<Block>)
    requires BlocksReadable(input, p, limit, bs)
    ensures BlocksAt(input, p, bs)
    decreases |bs|
  {
    hide BlockReadable, BlockAt, BodyEnd, BlockLeft;
    if bs != [] {
      var init := bs[..|bs| - 1];
      BlocksAreThere(input, p, limit, init);
      BlockIsThere(input, BlocksEnd(p, init), BlocksLeft(input, p, init), BlocksProduced(init), limit, false, bs[|bs| - 1]);
    }
  }

  lemma StreamIsThere(input: seq<byte>, limit: nat, bs: seq<Block>)
    requires StreamReadable(input, limit, bs)
    ensures StreamAt(input, 16, bs)
  {
    hide BlockReadable, BlockAt, BodyEnd, BlocksReadable, BlocksAt, BlocksEnd, ZlibHeader;
    var init := bs[..|bs| - 1];
    BlocksAreThere(input, 16, limit, init);
    BlockIsThere(input, BlocksEnd(16, init), BlocksLeft(input, 16, init), BlocksProduced(init), limit, true, bs[|bs| - 1]);
  }

  // ---------- one reading only ----------

  lemma FixedValid()
    ensures ValidLengths(FixedLengths()) && ValidLengths(FixedDistances())
  {}

  lemma CodableIsValid(h: Header)
    requires HeaderCodable(h)
    ensures Codable(h.cl) && ValidLengths(HeaderLiterals(h)) && ValidLengths(HeaderDistances(h))
  {
    hide Kraft, Pow2, ValidLengths, HeaderLiterals, HeaderDistances;
  }

  lemma StoredUnique(input: seq<byte>, p: nat, data: seq<byte>, other: seq<byte>)
    requires StoredAt(input, p, data) && StoredAt(input, p, other)
    ensures data == other
  {}

  lemma BodyUnique(input: seq<byte>, p: nat, b: Block, c: Block)
    requires BodyAt(input, p, b) && BodyAt(input, p, c) && BlockType(b) == BlockType(c)
    ensures b == c
  {
    hide StoredAt, TokensAt, TokensEnd, SymbolAt, HeaderAt, HeaderEnd, HeaderLiterals, HeaderDistances, HeaderCodable, Codable;
    hide FixedLengths, FixedDistances, ValidLengths;
    match b
    case Stored(data) => StoredUnique(input, p, data, c.data);
    case Fixed(toks) =>
      FixedValid();
      BlockUnique(FixedLengths(), FixedDistances(), input, p, toks, c.toks);
    case Dynamic(h, toks) =>
      CodableIsValid(h);
      HeaderUnique(input, p, h, c.header);
      BlockUnique(HeaderLiterals(h), HeaderDistances(h), input, HeaderEnd(p, h), toks, c.toks);
  }

  // At most one block stands at a position.
  lemma OneBlockAt(input: seq<byte>, p: nat, final: bool, b: Block, final': bool, c: Block)
    requires BlockAt(input, p, final, b) && BlockAt(input, p, final', c)
    ensures final == final' && b == c
  {
    hide BodyAt, Window;
    BodyUnique(input, p + 3, b, c);
  }

  // A dynamic block that can be read does not get stuck.
  lemma NotStuckBehind(input: seq<byte>, p: nat, k: nat, n: nat, limit: nat, b: Block, c: Block)
    requires BodyReadable(input, p, k, n, limit, b) && b.Dynamic?
    ensures !BodySticks(input, p, k, n, limit, c)
  {
    hide Ends, Sticks, HeaderAt, HeaderEnd, HeaderLiterals, HeaderDistances, HeaderLeft, HeaderCodable, Codable, ValidLengths;
    if BodySticks(input, p, k, n, limit, c) {
      var h := b.header;
      CodableIsValid(h);
      HeaderUnique(input, p, h, c.header);
      EndsNowhereStuck(HeaderLiterals(h), HeaderDistances(h), input, HeaderEnd(p, h), HeaderLeft(input, p, k, h).n, n, limit,
                       b.toks, c.toks);
    }
  }

  lemma NotStuckHere(input: seq<byte>, p: nat, k: nat, n: nat, limit: nat, final: bool, b: Block, c: Block)
    requires BlockReadable(input, p, k, n, limit, final, b)
    ensures !BlockSticks(input, p, k, n, limit, c)
  {
    hide BodyReadable, BodySticks, AfterType, Window;
    if BlockSticks(input, p, k, n, limit, c) { NotStuckBehind(input, p + 3, AfterType(k), n, limit, b, c); }
  }

  lemma {:induction false} BlocksPrefix(input: seq<byte>, p: nat, bs: seq<Block>, k: nat)
    requires BlocksAt(input, p, bs) && k < |bs|
    ensures BlockAt(input, BlocksEnd(p, bs[..k]), false, bs[k])
    decreases |bs|
  {
    hide BlockAt, BodyEnd;
    var init := bs[..|bs| - 1];
    if k < |bs| - 1 {
      BlocksPrefix(input, p, init, k);
      assert init[..k] == bs[..k];
    } else {
      assert bs[..k] == init;
    }
  }

  lemma StreamPrefix(input: seq<byte>, p: nat, bs: seq<Block>, k: nat)
    requires StreamAt(input, p, bs) && k < |bs|
    ensures BlockAt(input, BlocksEnd(p, bs[..k]), k == |bs| - 1, bs[k])
  {
    hide BlockAt, BodyEnd;
    var init := bs[..|bs| - 1];
    if k < |bs| - 1 {
      BlocksPrefix(input, p, init, k);
      assert init[..k] == bs[..k];
    }
  }

  lemma {:induction false} SameBlocks(input: seq<byte>, p: nat, bs: seq<Block>, cs: seq<Block>, k: nat)
    requires StreamAt(input, p, bs) && StreamAt(input, p, cs) && k <= |bs| && k <= |cs|
    ensures bs[..k] == cs[..k] && (k > 0 ==> (k == |bs| <==> k == |cs|))
    decreases k
  {
    hide StreamAt, BlockAt, BlocksEnd;
    if k > 0 {
      SameBlocks(input, p, bs, cs, k - 1);
      StreamPrefix(input, p, bs, k - 1);
      StreamPrefix(input, p, cs, k - 1);
      OneBlockAt(input, BlocksEnd(p, bs[..k - 1]), k == |bs|, bs[k - 1], k == |cs|, cs[k - 1]);
      assert bs[..k] == bs[..k - 1] + [bs[k - 1]] && cs[..k] == cs[..k - 1] + [cs[k - 1]];
    }
  }

  lemma {:induction false} ReadablePrefix(input: seq<byte>, limit: nat, bs: seq<Block>, k: nat)
    requires BlocksReadable(input, 16, limit, bs) && k < |bs|
    ensures NextReadable(input, 16, limit, bs[..k], false, bs[k])
    decreases |bs|
  {
    hide NextReadable;
    var init := bs[..|bs| - 1];
    if k < |bs| - 1 {
      ReadablePrefix(input, limit, init, k);
      assert init[..k] == bs[..k];
    } else {
      assert bs[..k] == init;
    }
  }

  lemma StreamReadableAt(input: seq<byte>, limit: nat, bs: seq<Block>, k: nat)
    requires StreamReadable(input, limit, bs) && k < |bs|
    ensures NextReadable(input, 16, limit, bs[..k], k == |bs| - 1, bs[k])
  {
    hide NextReadable, BlocksReadable, ZlibHeader;
    var init := bs[..|bs| - 1];
    if k < |bs| - 1 {
      ReadablePrefix(input, limit, init, k);
      assert init[..k] == bs[..k];
    }
  }

  // Blocks that stand at the start of a stream and are not its last are its first blocks.
  lemma {:induction false} FirstBlocks(input: seq<byte>, p: nat, bs: seq<Block>, cs: seq<Block>)
    requires StreamAt(input, p, bs) && BlocksAt(input, p, cs)
    ensures |cs| < |bs| && cs == bs[..|cs|]
    decreases |cs|
  {
    hide BlockAt, BodyEnd;
    if cs != [] {
      var init, k := cs[..|cs| - 1], |cs| - 1;
      FirstBlocks(input, p, bs, init);
      StreamPrefix(input, p, bs, k);
      OneBlockAt(input, BlocksEnd(p, init), k == |bs| - 1, bs[k], false, cs[k]);
      assert bs[..k + 1] == bs[..k] + [bs[k]] && cs == init + [cs[k]];
    }
  }

  // Decoding does not get stuck anywhere in a stream that can be read.
  lemma NowhereStuck(input: seq<byte>, limit: nat, bs: seq<Block>, cs: seq<Block>, c: Block)
    requires StreamReadable(input, limit, bs)
    ensures !StreamSticks(input, limit, cs, c)
  {
    hide BlockSticks, BlockReadable, BlocksReadable, BlocksEnd, BlocksLeft, BlocksProduced, StreamAt, BlocksAt, ZlibHeader, StreamReadable;
    if StreamSticks(input, limit, cs, c) {
      StreamIsThere(input, limit, bs);
      BlocksAreThere(input, 16, limit, cs);
      FirstBlocks(input, 16, bs, cs);
      StreamReadableAt(input, limit, bs, |cs|);
      NotStuckHere(input, BlocksEnd(16, cs), BlocksLeft(input, 16, cs), BlocksProduced(cs), limit, |cs| == |bs| - 1, bs[|cs|], c);
    }
  }

  // A stream consists of its blocks in one way only.
  lemma StreamUnique(input: seq<byte>, p: nat, bs: seq<Block>, cs: seq<Block>)
    requires StreamAt(input, p, bs) && StreamAt(input, p, cs)
    ensures bs == cs
  {
    hide BlocksAt, BlockAt, BlocksEnd;
    var k := Min(|bs|, |cs|);
    SameBlocks(input, p, bs, cs, k);
    assert bs[..|bs|] == bs && cs[..|cs|] == cs;
  }

  // ---------- two bytes behind the blocks are enough ----------

  lemma TokensFit(ll: seq<nat>, dl: seq<nat>, input: seq<byte>, p: nat, k: nat, limit: nat, toks: seq<Token>, before: seq<byte>, after: seq<byte>)
    requires CompressedAt(ll, dl, input, p, toks) && TokensEnd(ll, dl, p, toks) + 16 <= 8 * |input|
    requires Expands(before, toks, after) && |after| <= limit
    ensures Ends(ll, dl, input, p, k, |before|, limit, toks)
  {
    hide *;
    TwoBytesForTokens(ll, dl, input, p, k, toks);
    ExpandsLength(before, toks, after);
    TokensEndHere(ll, dl, input, p, k, |before|, limit, toks);
  }

  lemma TokensEndHere(ll: seq<nat>, dl: seq<nat>, input: seq<byte>, p: nat, k: nat, n: nat, limit: nat, toks: seq<Token>)
    requires CompressedAt(ll, dl, input, p, toks) && TokensEnd(ll, dl, p, toks) + 16 <= 8 * |input|
    requires TokensLeft(ll, dl, input, p, k, toks).Left? && Reachable(n, toks) && n + Produced(toks) <= limit
    ensures Ends(ll, dl, input, p, k, n, limit, toks)
  {
    hide TokensAt, TokensEnd, TokensLeft, SymbolAt, Reachable, Produced;
  }

  lemma BodyFits(input: seq<byte>, p: nat, k: nat, limit: nat, b: Block, before: seq<byte>, after: seq<byte>)
    requires BodyAt(input, p, b) && BodyEnd(p, b) + 16 <= 8 * |input|
    requires BlockExpands(before, b, after) && |after| <= limit
    ensures BodyReadable(input, p, k, |before|, limit, b)
  {
    hide StoredAt, CompressedAt, TokensEnd, HeaderAt, HeaderLiterals, HeaderDistances, HeaderCodable, OpsEnd, OpsLeft, CountsLeft;
    hide FixedLengths, FixedDistances, Ends, Expands, CodeLength;
    match b
    case Stored(_) =>
    case Fixed(toks) => TokensFit(FixedLengths(), FixedDistances(), input, p, k, limit, toks, before, after);
    case Dynamic(h, toks) =>
      var ll, dl := HeaderLiterals(h), HeaderDistances(h);
      TokensForward(ll, dl, HeaderEnd(p, h), toks);
      TwoBytesForOps(h.cl, input, p + 14 + 3 * h.hclen, CountsLeft(k, h.hclen), h.ops);
      TokensFit(ll, dl, input, HeaderEnd(p, h), HeaderLeft(input, p, k, h).n, limit, toks, before, after);
  }

  lemma BlockFits(input: seq<byte>, p: nat, k: nat, limit: nat, final: bool, b: Block, before: seq<byte>, after: seq<byte>)
    requires BlockAt(input, p, final, b) && BodyEnd(p + 3, b) + 16 <= 8 * |input|
    requires BlockExpands(before, b, after) && |after| <= limit
    ensures BlockReadable(input, p, k, |before|, limit, final, b) && p <= BodyEnd(p + 3, b)
    ensures |after| == |before| + BlockProduced(b)
  {
    hide BodyAt, BodyEnd, BodyReadable, BlockExpands, BlockProduced, Window, AfterType;
    BodyFits(input, p + 3, AfterType(k), limit, b, before, after);
    EndsAfter(p + 3, b);
    BlockLength(before, b, after);
  }

  lemma {:induction false} BlocksFit(input: seq<byte>, p: nat, limit: nat, bs: seq<Block>, output: seq<byte>)
    requires BlocksAt(input, p, bs) && BlocksExpand([], bs, output) && |output| <= limit
    requires BlocksEnd(p, bs) + 16 <= 8 * |input|
    ensures BlocksReadable(input, p, limit, bs) && BlocksProduced(bs) == |output|
    decreases |bs|
  {
    hide BlockAt, BodyEnd, BlockReadable, BlockExpands, BlockProduced, BlockLeft;
    if bs != [] {
      var init, b := bs[..|bs| - 1], bs[|bs| - 1];
      var mid := output[..|output| - BlockProduced(b)];
      BlockFits(input, BlocksEnd(p, init), BlocksLeft(input, p, init), limit, false, b, mid, output);
      BlocksFit(input, p, limit, init, mid);
    }
  }

  // Every zlib stream that is followed by two bytes, as it is by its checksum, can be read if there is
  // room for its output.
  lemma ChecksumIsEnough(input: seq<byte>, limit: nat, bs: seq<Block>, output: seq<byte>)
    requires Inflates(input, bs, output) && |output| <= limit
    requires BlocksEnd(16, bs) + 16 <= 8 * |input|
    ensures StreamReadable(input, limit, bs)
  {
    hide BlockAt, BodyEnd, BlockReadable, BlockExpands, BlockProduced, BlockLeft, ZlibHeader, BlocksAt, BlocksReadable;
    var init, b := bs[..|bs| - 1], bs[|bs| - 1];
    var mid := output[..|output| - BlockProduced(b)];
    BlockFits(input, BlocksEnd(16, init), BlocksLeft(input, 16, init), limit, true, b, mid, output);
    BlocksFit(input, 16, limit, init, mid);
  }
}

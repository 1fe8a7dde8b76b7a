// What the decoder can read of a compressed block. A token does not only have to stand in the input:
// each of its codes needs 16 buffered bits, or input left to fill the buffer from.
module Readable {
  import opened Words
  import opened BitStream
  import opened CanonicalCode
  import opened DeflateFormat
  import opened IdleRounds

  // A code at position p can be looked up with b buffered bits.
  predicate Primable(input: seq<byte>, p: nat, b: nat) {
    b >= 16 || p + b < 8 * |input|
  }

  // The bits left in the buffer after a code of n bits.
  function CodeLeft(input: seq<byte>, p: nat, b: nat, n: nat): Left {
    if Primable(input, p, b) then Left(AfterCode(b, n)) else Out
  }

  // After the length symbol of a copy: its extra bits, the distance symbol, and the extra bits of that.
  ghost function TailLeft(dl: seq<nat>, input: seq<byte>, p: nat, b: nat, ls: nat, ds: nat): Left {
    match CodeLeft(input, p + LengthExtra(ls), Received(b, LengthExtra(ls)), CodeLength(dl, ds))
    case Out => Out
    case Left(n) => Left(Received(n, DistExtra(ds)))
  }

  // The bits left after token t, which begins at p with b buffered bits.
  ghost function TokenLeft(ll: seq<nat>, dl: seq<nat>, input: seq<byte>, p: nat, b: nat, t: Token): Left {
    match t
    case Literal(x) => CodeLeft(input, p, b, CodeLength(ll, x))
    case Copy(ls, _, ds, _) =>
      match CodeLeft(input, p, b, CodeLength(ll, 257 + ls))
      case Out => Out
      case Left(n) => TailLeft(dl, input, p + CodeLength(ll, 257 + ls), n, ls, ds)
  }

  ghost function TokensLeft(ll: seq<nat>, dl: seq<nat>, input: seq<byte>, p: nat, b: nat, ts: seq<Token>): Left {
    if ts == [] then Left(b)
    else match TokensLeft(ll, dl, input, p, b, ts[..|ts| - 1])
      case Out => Out
      case Left(n) => TokenLeft(ll, dl, input, TokensEnd(ll, dl, p, ts[..|ts| - 1]), n, ts[|ts| - 1])
  }

  // Token t stands at p, can be read, and finds room behind n bytes of output of at most limit.
  ghost predicate CanRead(ll: seq<nat>, dl: seq<nat>, input: seq<byte>, p: nat, b: nat, n: nat, limit: nat, t: Token) {
    && TokenAt(ll, dl, input, p, t) && TokenLeft(ll, dl, input, p, b, t).Left?
    && (t.Copy? ==> Distance(t) <= n) && n + TokenLength(t) <= limit
  }

  ghost predicate AllRead(ll: seq<nat>, dl: seq<nat>, input: seq<byte>, p: nat, b: nat, n: nat, limit: nat, ts: seq<Token>) {
    && TokensAt(ll, dl, input, p, ts) && TokensLeft(ll, dl, input, p, b, ts).Left?
    && Reachable(n, ts) && n + Produced(ts) <= limit
  }

  // These tokens can be read, and behind them the end of the block.
  ghost predicate Ends(ll: seq<nat>, dl: seq<nat>, input: seq<byte>, p: nat, b: nat, n: nat, limit: nat, ts: seq<Token>) {
    && AllRead(ll, dl, input, p, b, n, limit, ts)
    && SymbolAt(ll, input, TokensEnd(ll, dl, p, ts), END_OF_BLOCK)
    && Primable(input, TokensEnd(ll, dl, p, ts), TokensLeft(ll, dl, input, p, b, ts).n)
  }

  // The bits left behind the end of the block.
  ghost function EndLeft(ll: seq<nat>, dl: seq<nat>, input: seq<byte>, p: nat, b: nat, ts: seq<Token>): nat {
    match TokensLeft(ll, dl, input, p, b, ts)
    case Out => 0
    case Left(n) => AfterCode(n, CodeLength(ll, END_OF_BLOCK))
  }

  // ---------- rounds without end ----------

  // The symbol that a row of zero bits stands for.
  ghost predicate ZeroSymbol(lens: seq<nat>, i: nat) {
    i < |lens| && lens[i] > 0 && Code(lens, i) == 0
  }

  // A copy of length 0 that is read from zero bits: one of the two length symbols that the standard
  // does not use, and a distance within n bytes of output.
  ghost predicate IdleToken(ll: seq<nat>, dl: seq<nat>, n: nat, t: Token) {
    && t.Copy? && 29 <= t.lsym < 31 && t.dsym < 32 && t.lextra == 0 && t.dextra == 0
    && ZeroSymbol(ll, 257 + t.lsym) && ZeroSymbol(dl, t.dsym)
    && Distance(t) <= n
  }

  ghost function PaceOf(ll: seq<nat>, dl: seq<nat>, t: Token): Pace {
    match t
    case Literal(_) => Pace(0, 0, 0)
    case Copy(ls, _, ds, _) => Pace(CodeLength(ll, 257 + ls), CodeLength(dl, ds), DistExtra(ds))
  }

  // A row of zero bits stands for a copy of length 0, and decoding it with b buffered bits never ends.
  ghost predicate EndlessCodes(ll: seq<nat>, dl: seq<nat>, n: nat, b: nat) {
    exists t: Token :: IdleToken(ll, dl, n, t) && Endless(PaceOf(ll, dl, t), b)
  }

  // These tokens can be read, and behind them decoding gets stuck: only zero bits follow, and they stand
  // for a copy of length 0 again and again.
  ghost predicate Sticks(ll: seq<nat>, dl: seq<nat>, input: seq<byte>, p: nat, b: nat, n: nat, limit: nat, ts: seq<Token>) {
    && AllRead(ll, dl, input, p, b, n, limit, ts)
    && ZerosFrom(input, TokensEnd(ll, dl, p, ts))
    && EndlessCodes(ll, dl, n + Produced(ts), TokensLeft(ll, dl, input, p, b, ts).n)
  }

  lemma DrySymbol(lens: seq<nat>, input: seq<byte>, p: nat, i: nat)
    requires ZerosFrom(input, p)
    ensures SymbolAt(lens, input, p, i) <==> ZeroSymbol(lens, i)
  {
    hide Window, Peek, ZerosFrom, Code;
    if i < |lens| { ZeroWindow(input, p, lens[i]); }
  }

  lemma ZeroSymbolUnique(lens: seq<nat>, i: nat, j: nat)
    requires ValidLengths(lens) && ZeroSymbol(lens, i) && ZeroSymbol(lens, j)
    ensures i == j
  {
    hide ZeroSymbol, SymbolAt, ValidLengths, Bit;
    assert ZerosFrom([], 0) by { NoBitsSet(); }
    DrySymbol(lens, [], 0, i);
    DrySymbol(lens, [], 0, j);
    SymbolUnique(lens, [], 0, i, j);
  }

  lemma NoBitsSet()
    ensures ZerosFrom([], 0)
  {}

  lemma IdleUnique(ll: seq<nat>, dl: seq<nat>, n: nat, t: Token, u: Token)
    requires ValidLengths(ll) && ValidLengths(dl) && IdleToken(ll, dl, n, t) && IdleToken(ll, dl, n, u)
    ensures t == u
  {
    hide ZeroSymbol, ValidLengths;
    ZeroSymbolUnique(ll, 257 + t.lsym, 257 + u.lsym);
    ZeroSymbolUnique(dl, t.dsym, u.dsym);
  }

  // Decoding can be endless only if a row of zero bits stands for one of the two unused length symbols
  // and for a distance symbol with two extra bits or more.
  lemma EndlessNeeds(ll: seq<nat>, dl: seq<nat>, n: nat, b: nat) returns (ds: nat)
    requires ValidLengths(ll) && ValidLengths(dl) && b <= BUFFER_BITS && EndlessCodes(ll, dl, n, b)
    ensures ZeroSymbol(ll, 286) || ZeroSymbol(ll, 287)
    ensures ZeroSymbol(dl, ds) && DistExtra(ds) >= 2
  {
    hide Code, Distance, Endless, DistExtra;
    var t :| IdleToken(ll, dl, n, t) && Endless(PaceOf(ll, dl, t), b);
    ds := t.dsym;
    if DistExtra(ds) <= 1 { RunsOut(PaceOf(ll, dl, t), b); }
  }

  // An idle token stands in a row of zero bits, and reading it takes what its pace says.
  lemma IdleIsRead(ll: seq<nat>, dl: seq<nat>, input: seq<byte>, p: nat, b: nat, n: nat, t: Token)
    requires ZerosFrom(input, p) && IdleToken(ll, dl, n, t) && Round(PaceOf(ll, dl, t), b).Left?
    ensures TokenAt(ll, dl, input, p, t) && TokenLeft(ll, dl, input, p, b, t) == Round(PaceOf(ll, dl, t), b)
    ensures TokenLength(t) == 0
  {
    hide ZerosFrom, ZeroSymbol, CodeLength, DistExtra, LengthExtra, TokenLength, Received, Distance, TokenAt;
    IdleStands(ll, dl, input, n, p, t);
    IdleLength(t);
    NoneReceived(b - CodeLength(ll, 257 + t.lsym));
  }

  lemma IdleLength(t: Token)
    requires t.Copy? && 29 <= t.lsym < 31 && t.lextra == 0
    ensures TokenLength(t) == 0 && LengthExtra(t.lsym) == 0
  {}

  lemma IdleStands(ll: seq<nat>, dl: seq<nat>, input: seq<byte>, n: nat, p: nat, t: Token)
    requires ZerosFrom(input, p) && IdleToken(ll, dl, n, t)
    ensures TokenAt(ll, dl, input, p, t)
  {
    hide Window, SymbolAt, ZeroSymbol, ZerosFrom, CodeLength, DistExtra, Distance;
    var p1 := p + CodeLength(ll, 257 + t.lsym);
    var p3 := p1 + CodeLength(dl, t.dsym);
    ZerosLater(input, p, p1);
    ZerosLater(input, p, p3);
    DrySymbol(ll, input, p, 257 + t.lsym);
    DrySymbol(dl, input, p1, t.dsym);
    ZeroWindow(input, p1, 0);
    ZeroWindow(input, p3, DistExtra(t.dsym));
  }

  lemma ZeroLength(t: Token)
    requires WellFormed(t) && TokenLength(t) == 0
    ensures t.Copy? && 29 <= t.lsym < 31 && t.lextra == 0 && LengthExtra(t.lsym) == 0
  {}

  // With the input used up, a copy of length 0 read from zero bits is an idle token.
  lemma ReadIsIdle(ll: seq<nat>, dl: seq<nat>, input: seq<byte>, p: nat, b: nat, n: nat, t: Token)
    requires ValidLengths(ll) && ValidLengths(dl) && ZerosFrom(input, p) && p + b >= 8 * |input|
    requires TokenAt(ll, dl, input, p, t) && TokenLength(t) == 0 && (t.Copy? ==> Distance(t) <= n)
    requires TokenLeft(ll, dl, input, p, b, t).Left?
    ensures IdleToken(ll, dl, n, t) && Round(PaceOf(ll, dl, t), b) == TokenLeft(ll, dl, input, p, b, t)
  {
    ZeroLength(t);
    ReadIsZero(ll, dl, input, p, t);
    IdlePace(ll, dl, input, p, b, t);
  }

  lemma ReadIsZero(ll: seq<nat>, dl: seq<nat>, input: seq<byte>, p: nat, t: Token)
    requires ZerosFrom(input, p) && TokenAt(ll, dl, input, p, t) && t.Copy? && LengthExtra(t.lsym) == 0
    ensures ZeroSymbol(ll, 257 + t.lsym) && ZeroSymbol(dl, t.dsym) && t.dextra == 0
  {
    hide Window, SymbolAt, ZeroSymbol, CodeLength, ZerosFrom, DistExtra;
    var p1 := p + CodeLength(ll, 257 + t.lsym);
    var p3 := p1 + CodeLength(dl, t.dsym);
    ZerosLater(input, p, p1);
    ZerosLater(input, p, p3);
    DrySymbol(ll, input, p, 257 + t.lsym);
    DrySymbol(dl, input, p1, t.dsym);
    ZeroWindow(input, p3, DistExtra(t.dsym));
  }

  lemma IdlePace(ll: seq<nat>, dl: seq<nat>, input: seq<byte>, p: nat, b: nat, t: Token)
    requires ValidLengths(ll) && ValidLengths(dl) && p + b >= 8 * |input| && t.Copy? && LengthExtra(t.lsym) == 0
    requires TokenLeft(ll, dl, input, p, b, t).Left?
    ensures Round(PaceOf(ll, dl, t), b) == TokenLeft(ll, dl, input, p, b, t)
  {
    hide Filled, DistExtra;
    ShortCode(ll, 257 + t.lsym);
    ShortCode(dl, t.dsym);
  }

  lemma ShortCode(lens: seq<nat>, i: nat)
    requires ValidLengths(lens)
    ensures CodeLength(lens, i) <= 15
  {}

  // ---------- one token after another ----------

  lemma TokenMoves(ll: seq<nat>, dl: seq<nat>, input: seq<byte>, p: nat, t: Token)
    requires TokenAt(ll, dl, input, p, t)
    ensures p < TokenEnd(ll, dl, p, t)
  {
    hide Window, Peek, Code;
  }

  lemma NoneRead(ll: seq<nat>, dl: seq<nat>, input: seq<byte>, p: nat, b: nat, n: nat, limit: nat)
    requires n <= limit
    ensures AllRead(ll, dl, input, p, b, n, limit, []) && TokensLeft(ll, dl, input, p, b, []) == Left(b)
    ensures TokensEnd(ll, dl, p, []) == p && Produced([]) == 0
  {}

  lemma LeftMore(ll: seq<nat>, dl: seq<nat>, input: seq<byte>, p: nat, b: nat, ts: seq<Token>, t: Token)
    requires TokensLeft(ll, dl, input, p, b, ts).Left?
    ensures TokensLeft(ll, dl, input, p, b, ts + [t]) ==
      TokenLeft(ll, dl, input, TokensEnd(ll, dl, p, ts), TokensLeft(ll, dl, input, p, b, ts).n, t)
  {
    hide TokenLeft, TokensEnd;
    Extend(ts, t);
  }

  lemma ReachableMore(n: nat, ts: seq<Token>, t: Token)
    requires Reachable(n, ts) && (t.Copy? ==> Distance(t) <= n + Produced(ts))
    ensures Reachable(n, ts + [t])
  {
    hide Distance, TokenLength;
    Extend(ts, t);
  }

  lemma OneMoreRead(ll: seq<nat>, dl: seq<nat>, input: seq<byte>, p: nat, b: nat, n: nat, limit: nat, ts: seq<Token>, t: Token)
    requires AllRead(ll, dl, input, p, b, n, limit, ts)
    requires CanRead(ll, dl, input, TokensEnd(ll, dl, p, ts), TokensLeft(ll, dl, input, p, b, ts).n, n + Produced(ts), limit, t)
    ensures AllRead(ll, dl, input, p, b, n, limit, ts + [t]) && Produced(ts + [t]) == Produced(ts) + TokenLength(t)
    ensures TokensEnd(ll, dl, p, ts + [t]) == TokenEnd(ll, dl, TokensEnd(ll, dl, p, ts), t)
    ensures TokensLeft(ll, dl, input, p, b, ts + [t]) ==
      TokenLeft(ll, dl, input, TokensEnd(ll, dl, p, ts), TokensLeft(ll, dl, input, p, b, ts).n, t)
  {
    hide TokenAt, TokenEnd, TokenLength, Distance, TokensAt, TokensEnd, TokenLeft, TokensLeft, Reachable, Produced;
    TokensAtMore(ll, dl, input, p, ts, t);
    LeftMore(ll, dl, input, p, b, ts, t);
    ReachableMore(n, ts, t);
    ProducedMore(ts, t);
  }

  lemma {:induction false} LeftPrefix(ll: seq<nat>, dl: seq<nat>, input: seq<byte>, p: nat, b: nat, ts: seq<Token>, k: nat)
    requires TokensLeft(ll, dl, input, p, b, ts).Left? && k < |ts|
    ensures TokensLeft(ll, dl, input, p, b, ts[..k]).Left?
    ensures TokenLeft(ll, dl, input, TokensEnd(ll, dl, p, ts[..k]), TokensLeft(ll, dl, input, p, b, ts[..k]).n, ts[k]).Left?
    decreases |ts|
  {
    hide TokenLeft, TokensEnd;
    var init := ts[..|ts| - 1];
    if k < |ts| - 1 {
      LeftPrefix(ll, dl, input, p, b, init, k);
      assert init[..k] == ts[..k];
    } else {
      assert ts[..k] == init;
    }
  }

  // Token k of tokens that can be read can be read when those before it have been.
  lemma ReadAt(ll: seq<nat>, dl: seq<nat>, input: seq<byte>, p: nat, b: nat, n: nat, limit: nat, ts: seq<Token>, k: nat)
    requires AllRead(ll, dl, input, p, b, n, limit, ts) && k < |ts|
    ensures TokensLeft(ll, dl, input, p, b, ts[..k]).Left?
    ensures CanRead(ll, dl, input, TokensEnd(ll, dl, p, ts[..k]), TokensLeft(ll, dl, input, p, b, ts[..k]).n,
                    n + Produced(ts[..k]), limit, ts[k])
    ensures TokensEnd(ll, dl, p, ts[..k]) <= TokensEnd(ll, dl, p, ts)
  {
    hide TokenAt, TokenLength, Distance, TokensAt, TokensEnd, TokenLeft, TokensLeft, Reachable, Produced;
    TokensPrefix(ll, dl, input, p, ts, k);
    ReachablePrefix(n, ts, k);
    LeftPrefix(ll, dl, input, p, b, ts, k);
  }

  // ---------- two bytes more are enough ----------

  lemma TwoBytesForToken(ll: seq<nat>, dl: seq<nat>, input: seq<byte>, p: nat, b: nat, t: Token)
    requires TokenEnd(ll, dl, p, t) + 16 <= 8 * |input|
    ensures TokenLeft(ll, dl, input, p, b, t).Left?
  {
    hide LengthExtra, DistExtra, CodeLength, Received, AfterCode;
  }

  lemma {:induction false} TwoBytesForTokens(ll: seq<nat>, dl: seq<nat>, input: seq<byte>, p: nat, b: nat, ts: seq<Token>)
    requires TokensEnd(ll, dl, p, ts) + 16 <= 8 * |input|
    ensures TokensLeft(ll, dl, input, p, b, ts).Left?
    decreases |ts|
  {
    hide TokenLeft;
    if ts != [] {
      var init := ts[..|ts| - 1];
      var q := TokensEnd(ll, dl, p, init);
      assert q <= TokenEnd(ll, dl, q, ts[|ts| - 1]);
      TwoBytesForTokens(ll, dl, input, p, b, init);
      TwoBytesForToken(ll, dl, input, q, TokensLeft(ll, dl, input, p, b, init).n, ts[|ts| - 1]);
    }
  }

  // ---------- one reading only ----------

  lemma {:induction false} SameStart(ll: seq<nat>, dl: seq<nat>, input: seq<byte>, p: nat, ts: seq<Token>, us: seq<Token>, k: nat)
    requires ValidLengths(ll) && ValidLengths(dl) && k <= |ts| && k <= |us|
    requires TokensAt(ll, dl, input, p, ts) && TokensAt(ll, dl, input, p, us)
    ensures ts[..k] == us[..k]
    decreases k
  {
    hide TokenAt, TokensAt, TokensEnd, ValidLengths;
    if k > 0 {
      SameStart(ll, dl, input, p, ts, us, k - 1);
      TokensPrefix(ll, dl, input, p, ts, k - 1);
      TokensPrefix(ll, dl, input, p, us, k - 1);
      TokenUnique(ll, dl, input, TokensEnd(ll, dl, p, ts[..k - 1]), ts[k - 1], us[k - 1]);
      assert ts[..k] == ts[..k - 1] + [ts[k - 1]] && us[..k] == us[..k - 1] + [us[k - 1]];
    }
  }

  // Tokens up to the end of a block are not followed by another token.
  lemma EndIsNoToken(ll: seq<nat>, dl: seq<nat>, input: seq<byte>, p: nat, t: Token)
    requires ValidLengths(ll) && TokenAt(ll, dl, input, p, t)
    ensures !SymbolAt(ll, input, p, END_OF_BLOCK)
  {
    hide SymbolAt, Window, ValidLengths;
    if SymbolAt(ll, input, p, END_OF_BLOCK) { SymbolUnique(ll, input, p, END_OF_BLOCK, HeadSymbol(t)); }
  }

  lemma EndNotBefore(ll: seq<nat>, dl: seq<nat>, input: seq<byte>, p: nat, ts: seq<Token>, us: seq<Token>)
    requires ValidLengths(ll) && ValidLengths(dl) && TokensAt(ll, dl, input, p, ts) && TokensAt(ll, dl, input, p, us)
    requires SymbolAt(ll, input, TokensEnd(ll, dl, p, ts), END_OF_BLOCK)
    ensures |us| <= |ts|
  {
    hide TokenAt, TokensAt, TokensEnd, SymbolAt, ValidLengths;
    if |us| > |ts| {
      SameStart(ll, dl, input, p, ts, us, |ts|);
      assert ts[..|ts|] == ts;
      TokensPrefix(ll, dl, input, p, us, |ts|);
      EndIsNoToken(ll, dl, input, TokensEnd(ll, dl, p, ts), us[|ts|]);
    }
  }

  lemma BlockUnique(ll: seq<nat>, dl: seq<nat>, input: seq<byte>, p: nat, ts: seq<Token>, us: seq<Token>)
    requires ValidLengths(ll) && ValidLengths(dl) && TokensAt(ll, dl, input, p, ts) && TokensAt(ll, dl, input, p, us)
    requires SymbolAt(ll, input, TokensEnd(ll, dl, p, ts), END_OF_BLOCK)
    requires SymbolAt(ll, input, TokensEnd(ll, dl, p, us), END_OF_BLOCK)
    ensures ts == us
  {
    hide TokensAt, TokensEnd, SymbolAt, ValidLengths;
    EndNotBefore(ll, dl, input, p, ts, us);
    EndNotBefore(ll, dl, input, p, us, ts);
    SameStart(ll, dl, input, p, ts, us, |ts|);
    assert ts[..|ts|] == ts && us[..|us|] == us;
  }

  // A block with an end that can be reached does not get stuck before.
  lemma EndsNowhereStuck(ll: seq<nat>, dl: seq<nat>, input: seq<byte>, p: nat, b: nat, n: nat, limit: nat, ts: seq<Token>, us: seq<Token>)
    requires ValidLengths(ll) && ValidLengths(dl)
    requires Ends(ll, dl, input, p, b, n, limit, ts)
    ensures !Sticks(ll, dl, input, p, b, n, limit, us)
  {
    hide TokensAt, TokensEnd, SymbolAt, ValidLengths, ZeroSymbol, ZerosFrom, Reachable, Produced, TokensLeft, Distance, Endless;
    if Sticks(ll, dl, input, p, b, n, limit, us) {
      EndNotBefore(ll, dl, input, p, ts, us);
      SameStart(ll, dl, input, p, ts, us, |us|);
      assert us[..|us|] == us;
      EndsLater(ll, dl, p, ts, |us|);
      ZerosLater(input, TokensEnd(ll, dl, p, us), TokensEnd(ll, dl, p, ts));
      DrySymbol(ll, input, TokensEnd(ll, dl, p, ts), END_OF_BLOCK);
      var t :| IdleToken(ll, dl, n + Produced(us), t) && Endless(PaceOf(ll, dl, t), TokensLeft(ll, dl, input, p, b, us).n);
      ZeroSymbolUnique(ll, END_OF_BLOCK, 257 + t.lsym);
    }
  }

  lemma {:induction false} EndsLater(ll: seq<nat>, dl: seq<nat>, p: nat, ts: seq<Token>, k: nat)
    requires k <= |ts|
    ensures TokensEnd(ll, dl, p, ts[..k]) <= TokensEnd(ll, dl, p, ts)
    decreases |ts|
  {
    if k == |ts| {
      assert ts[..k] == ts;
    } else {
      EndsLater(ll, dl, p, ts[..|ts| - 1], k);
      assert ts[..|ts| - 1][..k] == ts[..k];
    }
  }
}

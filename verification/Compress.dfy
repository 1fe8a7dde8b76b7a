// The zlib compressor: LZ77 matching through hash chains with one-byte lookahead, the fixed Huffman
// codes, and stored blocks when those turn out shorter.
module Compress {
  import opened Words
  import opened BitStream
  import opened CanonicalCode
  import opened DeflateFormat
  import opened ZlibFormat
  import opened BitWriter
  import opened Adler

  const ZHASH := 16384

  const LENGTHC: seq<nat> := [
    3, 4, 5, 6, 7, 8, 9, 10, 11, 13, 15, 17, 19, 23, 27, 31,
    35, 43, 51, 59, 67, 83, 99, 115, 131, 163, 195, 227, 258, 259]

  const LENGTHEB: seq<nat> := [
    0, 0, 0, 0, 0, 0, 0, 0, 1, 1, 1, 1, 2, 2, 2, 2,
    3, 3, 3, 3, 4, 4, 4, 4, 5, 5, 5, 5, 0]

  const DISTC: seq<nat> := [
    1, 2, 3, 4, 5, 7, 9, 13, 17, 25, 33, 49, 65, 97, 129, 193,
    257, 385, 513, 769, 1025, 1537, 2049, 3073, 4097, 6145, 8193, 12289, 16385, 24577, 32768]

  const DISTEB: seq<nat> := [
    0, 0, 0, 0, 1, 1, 2, 2, 3, 3, 4, 4, 5, 5, 6, 6,
    7, 7, 8, 8, 9, 9, 10, 10, 11, 11, 12, 12, 13, 13]

  function LengthCode(j: nat): nat
    requires j < 30
  {
    LENGTHC[j]
  }

  function DistCode(j: nat): nat
    requires j < 31
  {
    DISTC[j]
  }

  // The compressor's tables are those of the format, and each range fits its extra bits.
  lemma LengthTables(j: nat)
    requires j < 29
    ensures LengthCode(j) == LengthBase(j) && LENGTHEB[j] == LengthExtra(j)
    ensures LengthCode(j + 1) <= LengthCode(j) + Pow2(LENGTHEB[j])
    ensures LengthCode(0) == 3 && LengthCode(29) == 259
  {
    Pow2Values();
  }

  lemma DistTables(j: nat)
    requires j < 30
    ensures DistCode(j) == DistBase(j) && DISTEB[j] == DistExtra(j)
    ensures DistCode(j + 1) <= DistCode(j) + Pow2(DISTEB[j])
    ensures DistCode(0) == 1 && DistCode(30) == 32768
  {
    Pow2Values();
  }

  // ---------- matching ----------

  ghost predicate Matches(data: seq<byte>, a: nat, b: nat, n: nat) {
    a < b && b + n <= |data| && forall k :: b <= k < b + n ==> data[k] == data[k - (b - a)]
  }

  // The length of the longest common run at a and b within the next `limit` bytes.
  ghost function CommonRun(data: seq<byte>, a: nat, b: nat, limit: nat): (n: nat)
    requires a < b && b + limit <= |data|
    ensures n <= limit && Matches(data, a, b, n)
    ensures n < limit ==> data[a + n] != data[b + n]
    decreases limit
  {
    if limit == 0 || data[a] != data[b] then 0 else 1 + CommonRun(data, a + 1, b + 1, limit - 1)
  }

  // How long a match for position i at position `loc` may be used for.
  ghost function MatchLength(data: seq<byte>, loc: nat, i: nat): nat
    requires loc < i <= |data|
  {
    CommonRun(data, loc, i, Min(|data| - i, 258))
  }

  // It is the longest match up to 258 bytes: the bytes repeat, and it ends only where they no longer do.
  lemma MatchLengthIs(data: seq<byte>, loc: nat, i: nat)
    requires loc < i <= |data|
    ensures var n := MatchLength(data, loc, i);
      && n <= 258 && i + n <= |data|
      && data[loc..loc + n] == data[i..i + n]
      && (n < 258 && i + n < |data| ==> data[loc + n] != data[i + n])
  {
    var n := MatchLength(data, loc, i);
    var before, now := data[loc..loc + n], data[i..i + n];
    forall k | 0 <= k < n ensures before[k] == now[k] {
      assert data[i + k] == data[i + k - (i - loc)];
    }
  }

  method CountMatch(data: seq<byte>, a: nat, b: nat) returns (n: nat)
    requires a < b <= |data|
    ensures n == MatchLength(data, a, b)
  {
    var limit := |data| - b;
    n := 0;
    while n < limit && n < 258
      invariant n <= Min(limit, 258)
      invariant MatchLength(data, a, b) == n + CommonRun(data, a + n, b + n, Min(limit, 258) - n)
    {
      if data[a + n] != data[b + n] { break; }
      n := n + 1;
    }
  }

  ghost predicate Candidates(hlist: seq<nat>, i: nat) {
    forall j :: 0 <= j < |hlist| ==> hlist[j] < i
  }

  // The chosen match is a longest one among the first n candidates inside the window.
  ghost predicate BestOf(data: seq<byte>, i: nat, hlist: seq<nat>, n: nat, best: nat, bestloc: int)
    requires i <= |data| && Candidates(hlist, i) && n <= |hlist|
  {
    && best >= 3 && bestloc >= -1
    && (bestloc < 0 ==> best == 3)
    && (bestloc >= 0 ==> i - bestloc <= 32767 && LastAt(data, i, hlist, n, best, bestloc))
    && forall j :: 0 <= j < n && i - hlist[j] <= 32767 ==>
         MatchLength(data, hlist[j], i) <= best && (bestloc < 0 ==> MatchLength(data, hlist[j], i) < 3)
  }

  // Of the first n candidates inside the window, bestloc is the last one with a match of this length.
  ghost predicate LastAt(data: seq<byte>, i: nat, hlist: seq<nat>, n: nat, best: nat, bestloc: nat)
    requires i <= |data| && Candidates(hlist, i) && n <= |hlist|
  {
    exists m :: 0 <= m < n && hlist[m] == bestloc && MatchLength(data, hlist[m], i) == best &&
      forall j :: m < j < n && i - hlist[j] <= 32767 ==> MatchLength(data, hlist[j], i) != best
  }

  // The last of the longest matches for position i within the window, or -1.
  method BestMatch(data: seq<byte>, i: nat, hlist: seq<nat>) returns (best: nat, bestloc: int)
    requires i <= |data| && Candidates(hlist, i)
    ensures BestOf(data, i, hlist, |hlist|, best, bestloc)
  {
    hide MatchLength;
    best, bestloc := 3, -1;
    for j := 0 to |hlist|
      invariant BestOf(data, i, hlist, j, best, bestloc)
    {
      if hlist[j] > i - 32768 {
        var d := CountMatch(data, hlist[j], i);
        if d >= best { best, bestloc := d, hlist[j]; }
      }
    }
  }

  // Is there a longer match one byte further on?
  method NextIsBetter(data: seq<byte>, i: nat, hlist: seq<nat>, best: nat) returns (better: bool)
    requires i + 1 <= |data| && Candidates(hlist, i + 1)
    ensures better <==> BetterNext(data, i, hlist, best)
  {
    for j := 0 to |hlist|
      invariant forall k :: 0 <= k < j && i + 1 - hlist[k] <= 32767 ==> MatchLength(data, hlist[k], i + 1) <= best
    {
      if hlist[j] > i - 32767 {
        var e := CountMatch(data, hlist[j], i + 1);
        if e > best { return true; }
      }
    }
    better := false;
  }

  // The positions under one hash with position i added, the older half dropped if there are too many.
  function Filed(hlist: seq<nat>, quality: nat, i: nat): seq<nat> {
    (if |hlist| == 2 * quality then hlist[quality..] else hlist) + [i]
  }

  // Matches from all positions less than 2^15 bytes back are considered.
  lemma WindowReaches(data: seq<byte>, i: nat, hlist: seq<nat>, best: nat, bestloc: int, j: nat)
    requires i <= |data| && Candidates(hlist, i) && BestOf(data, i, hlist, |hlist|, best, bestloc)
    requires j < |hlist| && i - hlist[j] < 0x8000
    ensures MatchLength(data, hlist[j], i) <= best && (MatchLength(data, hlist[j], i) >= 3 ==> bestloc >= 0)
  {
    hide MatchLength;
  }

  lemma NextWindowReaches(data: seq<byte>, i: nat, hlist: seq<nat>, best: nat, j: nat)
    requires i + 1 <= |data| && Candidates(hlist, i + 1) && j < |hlist| && i + 1 - hlist[j] < 0x8000
    requires MatchLength(data, hlist[j], i + 1) > best
    ensures BetterNext(data, i, hlist, best)
  {
    hide MatchLength;
  }

  // Files position i under its hash, after halving a list that has become too long.
  method Remember(table: array<seq<nat>>, h: nat, quality: nat, i: nat)
    requires table.Length == ZHASH && h < ZHASH && quality > 0
    requires forall m :: 0 <= m < ZHASH ==> Candidates(table[m], i)
    modifies table
    ensures forall m :: 0 <= m < ZHASH ==> Candidates(table[m], i + 1)
    ensures forall m :: 0 <= m < ZHASH && m != h ==> table[m] == old(table[m])
    ensures table[h] == (if |old(table[h])| == 2 * quality then old(table[h])[quality..] else old(table[h])) + [i]
    ensures table[..] == old(table[..])[h := Filed(old(table[h]), quality, i)]
  {
    if |table[h]| == 2 * quality {
      table[h] := table[h][quality..];
    }
    table[h] := table[h] + [i];
  }

  // ---------- emitting tokens ----------

  lemma SymbolAgree(lens: seq<nat>, a: seq<byte>, b: seq<byte>, n: nat, p: nat, i: nat)
    requires Agree(a, b, n) && SymbolAt(lens, a, p, i) && p + CodeLength(lens, i) <= n
    ensures SymbolAt(lens, b, p, i)
  {
    hide Peek, Agree, Code;
    PeekAgree(a, b, n, p, lens[i]);
  }

  method LengthSlot(best: nat) returns (j: nat)
    requires 3 <= best <= 258
    ensures j < 29 && LengthCode(j) <= best < LengthCode(j + 1) && (best == 258 ==> j == 28)
  {
    hide LengthCode;
    LengthTables(28);
    TopClass();
    j := 0;
    while best > LengthCode(j + 1) - 1
      invariant j < 29 && LengthCode(j) <= best
      decreases 29 - j
    {
      j := j + 1;
    }
  }

  lemma TopClass()
    ensures forall j :: 0 < j < 29 ==> LengthCode(j) <= 258
  {}

  method DistSlot(d: nat) returns (j: nat)
    requires 1 <= d <= 32767
    ensures j < 30 && DistCode(j) <= d < DistCode(j + 1)
  {
    hide DistCode;
    DistTables(29);
    j := 0;
    while d > DistCode(j + 1) - 1
      invariant j < 30 && DistCode(j) <= d
      decreases 30 - j
    {
      j := j + 1;
    }
  }

  method EmitLength(w: ZWriter, best: nat) returns (j: nat, x: nat)
    requires w.Valid() && 3 <= best <= 258
    modifies w
    ensures w.Valid() && old(w.cap) <= w.cap && old(w.out) <= w.out && Agree(old(w.Bytes()), w.Bytes(), old(w.BitLength()))
    ensures j < 29 && LengthBase(j) + x == best && (best == 258 ==> j == 28)
    ensures SymbolAt(FixedLengths(), w.Bytes(), old(w.BitLength()), 257 + j)
    ensures w.BitLength() == old(w.BitLength()) + CodeLength(FixedLengths(), 257 + j) + LengthExtra(j)
    ensures Window(w.Bytes(), old(w.BitLength()) + CodeLength(FixedLengths(), 257 + j), LengthExtra(j)) == x
  {
    hide Pow2, Agree, SymbolAt, Window, LengthBase, LengthExtra, LengthCode, FixedLengths, ZWriter.Bytes;
    j := LengthSlot(best);
    LengthTables(j);
    ghost var n0, w0 := w.BitLength(), w.Bytes();
    FixedIs288();
    w.Huff(j + 257);
    ghost var n1, w1 := w.BitLength(), w.Bytes();
    x := best - LengthCode(j);
    if LENGTHEB[j] != 0 {
      w.Add(x, LENGTHEB[j]);
      AgreeTrans(w0, w1, w.Bytes(), n0, n1);
      SymbolAgree(FixedLengths(), w1, w.Bytes(), n1, n0, 257 + j);
    } else {
      OneValue(x);
      EmptyWindow(w.Bytes(), n1);
    }
  }

  lemma OneValue(x: nat)
    requires x < Pow2(0)
    ensures x == 0
  {}

  lemma FixedIs288()
    ensures |FixedLengths()| == 288 && |FixedDistances()| == 32
    ensures forall i :: 0 <= i < 32 ==> CodeLength(FixedDistances(), i) == 5
  {}

  method EmitDistance(w: ZWriter, d: nat) returns (j: nat, x: nat)
    requires w.Valid() && 1 <= d <= 32767
    modifies w
    ensures w.Valid() && old(w.cap) <= w.cap && old(w.out) <= w.out && Agree(old(w.Bytes()), w.Bytes(), old(w.BitLength()))
    ensures j < 30 && DistBase(j) + x == d
    ensures SymbolAt(FixedDistances(), w.Bytes(), old(w.BitLength()), j)
    ensures w.BitLength() == old(w.BitLength()) + CodeLength(FixedDistances(), j) + DistExtra(j)
    ensures Window(w.Bytes(), old(w.BitLength()) + CodeLength(FixedDistances(), j), DistExtra(j)) == x
  {
    hide Pow2, Agree, SymbolAt, Window, DistBase, DistExtra, DistCode, FixedDistances, ZWriter.Bytes;
    j := DistSlot(d);
    DistTables(j);
    ghost var n0, w0 := w.BitLength(), w.Bytes();
    FixedIs288();
    w.HuffDistance(j);
    ghost var n1, w1 := w.BitLength(), w.Bytes();
    x := d - DistCode(j);
    if DISTEB[j] != 0 {
      w.Add(x, DISTEB[j]);
      AgreeTrans(w0, w1, w.Bytes(), n0, n1);
      SymbolAgree(FixedDistances(), w1, w.Bytes(), n1, n0, j);
    } else {
      OneValue(x);
      EmptyWindow(w.Bytes(), n1);
    }
  }

  // Writes a copy of `best` bytes from `d` bytes back.
  method EmitCopy(w: ZWriter, best: nat, d: nat) returns (ghost t: Token)
    requires w.Valid() && 3 <= best <= 258 && 1 <= d <= 32767
    modifies w
    ensures w.Valid() && old(w.cap) <= w.cap && old(w.out) <= w.out && Agree(old(w.Bytes()), w.Bytes(), old(w.BitLength()))
    ensures TokenAt(FixedLengths(), FixedDistances(), w.Bytes(), old(w.BitLength()), t)
    ensures w.BitLength() == TokenEnd(FixedLengths(), FixedDistances(), old(w.BitLength()), t)
    ensures t.Copy? && TokenLength(t) == best && Distance(t) == d && t.lsym < 29 && t.dsym < 30 && (best == 258 ==> t.lsym == 28)
  {
    hide Pow2, Agree, SymbolAt, Window, DistBase, DistExtra, LengthBase, LengthExtra, FixedLengths, FixedDistances, ZWriter.Bytes;
    ghost var n0, w0 := w.BitLength(), w.Bytes();
    var j, x := EmitLength(w, best);
    ghost var n1, w1 := w.BitLength(), w.Bytes();
    var k, y := EmitDistance(w, d);
    ghost var w2 := w.Bytes();
    AgreeTrans(w0, w1, w2, n0, n1);
    SymbolAgree(FixedLengths(), w1, w2, n1, n0, 257 + j);
    WindowAgree(w1, w2, n1, n0 + CodeLength(FixedLengths(), 257 + j), LengthExtra(j));
    t := Copy(j, x, k, y);
  }

  method EmitLiteral(w: ZWriter, b: byte)
    requires w.Valid()
    modifies w
    ensures w.Valid() && old(w.cap) <= w.cap && old(w.out) <= w.out && Agree(old(w.Bytes()), w.Bytes(), old(w.BitLength()))
    ensures TokenAt(FixedLengths(), FixedDistances(), w.Bytes(), old(w.BitLength()), Literal(b))
    ensures w.BitLength() == TokenEnd(FixedLengths(), FixedDistances(), old(w.BitLength()), Literal(b))
  {
    hide Pow2, Agree, SymbolAt, FixedLengths, FixedDistances, ZWriter.Bytes;
    FixedIs288();
    w.Huff(b);
  }

  // ---------- the main loop ----------

  // The bits up to position n of w are a zlib header, the header of a final block with fixed codes,
  // and tokens for the first i bytes of data.
  ghost predicate Progress(w: seq<byte>, n: nat, toks: seq<Token>, data: seq<byte>, i: nat) {
    && i <= |data| && 19 <= n
    && Window(w, 0, 8) == 0x78 && Window(w, 8, 8) == 0x5e
    && Window(w, 16, 1) == 1 && Window(w, 17, 2) == 1
    && TokensAt(FixedLengths(), FixedDistances(), w, 19, toks)
    && TokensEnd(FixedLengths(), FixedDistances(), 19, toks) == n
    && Expands([], toks, data[..i]) && Standard(toks) && |toks| <= i
  }

  lemma ProgressAgree(w: seq<byte>, v: seq<byte>, n: nat, toks: seq<Token>, data: seq<byte>, i: nat)
    requires Progress(w, n, toks, data, i) && Agree(w, v, n)
    ensures Progress(v, n, toks, data, i)
  {
    hide Window, TokensAt, TokensEnd, Expands, FixedLengths, FixedDistances, Agree;
    WindowAgree(w, v, n, 0, 8);
    WindowAgree(w, v, n, 8, 8);
    WindowAgree(w, v, n, 16, 1);
    WindowAgree(w, v, n, 17, 2);
    TokensAgree(FixedLengths(), FixedDistances(), w, v, n, 19, toks);
  }

  // One more token.
  lemma ProgressMore(w: seq<byte>, v: seq<byte>, n: nat, toks: seq<Token>, t: Token, data: seq<byte>, i: nat)
    requires Progress(w, n, toks, data, i) && Agree(w, v, n)
    requires TokenAt(FixedLengths(), FixedDistances(), v, n, t) && (t.Copy? ==> Distance(t) > 0)
    requires i + TokenLength(t) <= |data| && TokenLength(t) > 0 && StepTo(data[..i], t, data[..i + TokenLength(t)])
    ensures Progress(v, TokenEnd(FixedLengths(), FixedDistances(), n, t), toks + [t], data, i + TokenLength(t))
  {
    hide Window, TokensAt, TokensEnd, TokenAt, TokenEnd, Expands, FixedLengths, FixedDistances, Agree, TokenLength, Distance, StepTo;
    ProgressAgree(w, v, n, toks, data, i);
    TokensAtMore(FixedLengths(), FixedDistances(), v, 19, toks, t);
    TokenForward(FixedLengths(), FixedDistances(), n, t);
    ExpandsMore([], toks, t, data[..i], data[..i + TokenLength(t)]);
  }

  lemma TokenForward(ll: seq<nat>, dl: seq<nat>, p: nat, t: Token)
    ensures p <= TokenEnd(ll, dl, p, t)
  {}

  lemma CopyStep(data: seq<byte>, i: nat, loc: nat, t: Token)
    requires loc < i && Matches(data, loc, i, TokenLength(t)) && t.Copy? && Distance(t) == i - loc
    ensures StepTo(data[..i], t, data[..i + TokenLength(t)])
  {
    hide TokenLength, Distance;
  }

  lemma LiteralStep(data: seq<byte>, i: nat)
    requires i < |data|
    ensures StepTo(data[..i], Literal(data[i]), data[..i + 1])
  {}

  // The copy token for a match of n bytes at distance d; length 258 has a symbol of its own.
  ghost predicate IsCopy(t: Token, n: nat, d: nat) {
    t.Copy? && TokenLength(t) == n && Distance(t) == d && t.lsym < 29 && t.dsym < 30 && (n == 258 ==> t.lsym == 28)
  }

  method PutCopy(w: ZWriter, data: seq<byte>, i: nat, loc: nat, best: nat, ghost toks: seq<Token>) returns (ghost t: Token)
    requires w.Valid() && Progress(w.Bytes(), w.BitLength(), toks, data, i)
    requires loc < i && i - loc <= 32767 && 3 <= best && i < |data| && best == MatchLength(data, loc, i)
    modifies w
    ensures w.Valid() && old(w.cap) <= w.cap && old(w.out) <= w.out
    ensures i + best <= |data| && Progress(w.Bytes(), w.BitLength(), toks + [t], data, i + best)
    ensures IsCopy(t, best, i - loc)
  {
    hide Window, TokensAt, TokensEnd, TokenAt, TokenEnd, Expands, FixedLengths, FixedDistances, Agree, TokenLength, Distance, StepTo, Progress, Pow2, ZWriter.Bytes;
    ghost var w0, n0 := w.Bytes(), w.BitLength();
    var d := i - loc;
    t := EmitCopy(w, best, d);
    CopyStep(data, i, loc, t);
    ProgressMore(w0, w.Bytes(), n0, toks, t, data, i);
  }

  method PutLiteral(w: ZWriter, data: seq<byte>, i: nat, ghost toks: seq<Token>)
    requires w.Valid() && i < |data| && Progress(w.Bytes(), w.BitLength(), toks, data, i)
    modifies w
    ensures w.Valid() && old(w.cap) <= w.cap && old(w.out) <= w.out
    ensures Progress(w.Bytes(), w.BitLength(), toks + [Literal(data[i])], data, i + 1)
  {
    hide Window, TokensAt, TokensEnd, TokenAt, TokenEnd, Expands, FixedLengths, FixedDistances, Agree, Distance, StepTo, Progress, Pow2, ZWriter.Bytes;
    ghost var w0, n0 := w.Bytes(), w.BitLength();
    EmitLiteral(w, data[i]);
    LiteralStep(data, i);
    ProgressMore(w0, w.Bytes(), n0, toks, Literal(data[i]), data, i);
  }

  function HashAt(hash: (byte, byte, byte) -> nat, data: seq<byte>, i: nat): (h: nat)
    requires i + 2 < |data|
    ensures h < ZHASH
  {
    hash(data[i], data[i + 1], data[i + 2]) % 16384
  }

  // The list is selected by three bytes, one after the other.
  lemma HashOfThree(hash: (byte, byte, byte) -> nat, data: seq<byte>, i: nat, x: byte, y: byte, z: byte)
    requires i + 2 < |data| && data[i..i + 3] == [x, y, z]
    ensures HashAt(hash, data, i) == hash(x, y, z) % 0x4000
  {
    assert data[i..i + 3][0] == x && data[i..i + 3][1] == y && data[i..i + 3][2] == z;
  }

  // Some candidate gives position i + 1 a match longer than best.
  ghost predicate BetterNext(data: seq<byte>, i: nat, hlist: seq<nat>, best: nat)
    requires i + 1 <= |data| && Candidates(hlist, i + 1)
  {
    exists j :: 0 <= j < |hlist| && i + 1 - hlist[j] <= 32767 && MatchLength(data, hlist[j], i + 1) > best
  }

  // The table after position i has been filed under its hash.
  ghost function Refiled(hash: (byte, byte, byte) -> nat, data: seq<byte>, quality: nat, table: seq<seq<nat>>, i: nat): (t: seq<seq<nat>>)
    requires |table| == ZHASH
    ensures |t| == ZHASH
  {
    if i + 3 < |data| then table[HashAt(hash, data, i) := Filed(table[HashAt(hash, data, i)], quality, i)] else table
  }

  // The table when tokens have been written that start at these positions.
  ghost function TableAfter(hash: (byte, byte, byte) -> nat, data: seq<byte>, quality: nat, starts: seq<nat>): (t: seq<seq<nat>>)
    ensures |t| == ZHASH
  {
    if starts == [] then seq(ZHASH, _ => [])
    else Refiled(hash, data, quality, TableAfter(hash, data, quality, starts[..|starts| - 1]), starts[|starts| - 1])
  }

  // The token for position i: a copy of the last longest match under its hash, unless there is none of 3
  // bytes or the next position has a longer one under its own; otherwise, and for the last three bytes,
  // the byte itself.
  ghost predicate Chooses(hash: (byte, byte, byte) -> nat, data: seq<byte>, before: seq<seq<nat>>, after: seq<seq<nat>>, i: nat, t: Token)
    requires i < |data| && |before| == |after| == ZHASH
  {
    if i + 3 >= |data| then t == Literal(data[i])
    else
      var hlist, next := before[HashAt(hash, data, i)], after[HashAt(hash, data, i + 1)];
      && Candidates(hlist, i) && Candidates(next, i + 1)
      && exists best: nat, loc: int :: BestOf(data, i, hlist, |hlist|, best, loc) &&
           if loc >= 0 && !BetterNext(data, i, next, best) then IsCopy(t, best, i - loc) else t == Literal(data[i])
  }

  // The tokens lazy matching chooses for the data up to position i, and where they start.
  ghost predicate LazyUpto(hash: (byte, byte, byte) -> nat, data: seq<byte>, quality: nat, starts: seq<nat>, toks: seq<Token>, i: nat) {
    && |starts| == |toks| && (if starts == [] then i == 0 else starts[0] == 0)
    && (forall k :: 0 <= k < |starts| ==>
          starts[k] < |data| && starts[k] + TokenLength(toks[k]) == if k + 1 < |starts| then starts[k + 1] else i)
    && (forall k :: 0 <= k < |starts| ==>
          Chooses(hash, data, TableAfter(hash, data, quality, starts[..k]), TableAfter(hash, data, quality, starts[..k + 1]),
                  starts[k], toks[k]))
  }

  lemma LazyMore(hash: (byte, byte, byte) -> nat, data: seq<byte>, quality: nat, starts: seq<nat>, toks: seq<Token>, i: nat, t: Token)
    requires LazyUpto(hash, data, quality, starts, toks, i) && i < |data|
    requires var before := TableAfter(hash, data, quality, starts);
      Chooses(hash, data, before, Refiled(hash, data, quality, before, i), i, t)
    ensures LazyUpto(hash, data, quality, starts + [i], toks + [t], i + TokenLength(t))
    ensures TableAfter(hash, data, quality, starts + [i]) == Refiled(hash, data, quality, TableAfter(hash, data, quality, starts), i)
  {
    hide Chooses, Refiled, TokenLength, TableAfter;
    var more := starts + [i];
    assert more[..|starts|] == starts && more[..|more|] == more;
    forall k | 0 <= k < |more|
      ensures more[k] < |data|
      ensures more[k] + TokenLength((toks + [t])[k]) == if k + 1 < |more| then more[k + 1] else i + TokenLength(t)
    {
      if k < |starts| {
        assert starts[k] + TokenLength(toks[k]) == if k + 1 < |starts| then starts[k + 1] else i;
        assert more[k] == starts[k] && (toks + [t])[k] == toks[k];
        assert more[k + 1] == if k + 1 < |starts| then starts[k + 1] else i;
      } else {
        assert more[k] == i && (toks + [t])[k] == t;
      }
    }
    TableMore(hash, data, quality, starts, i);
    forall k | 0 <= k < |more|
      ensures Chooses(hash, data, TableAfter(hash, data, quality, more[..k]), TableAfter(hash, data, quality, more[..k + 1]),
                      more[k], (toks + [t])[k])
    {
      if k < |starts| { assert more[..k] == starts[..k] && more[..k + 1] == starts[..k + 1]; }
    }
  }

  lemma TableMore(hash: (byte, byte, byte) -> nat, data: seq<byte>, quality: nat, starts: seq<nat>, i: nat)
    ensures TableAfter(hash, data, quality, starts + [i]) == Refiled(hash, data, quality, TableAfter(hash, data, quality, starts), i)
  {
    hide Refiled;
    assert (starts + [i])[..|starts|] == starts;
  }

  // Picks a match for position i, or -1 when there is none or the next position has a longer one.
  method ChooseMatch(hash: (byte, byte, byte) -> nat, data: seq<byte>, i: nat, table: array<seq<nat>>, quality: nat)
    returns (best: nat, bestloc: int, ghost found: int)
    requires i + 3 < |data| && table.Length == ZHASH && quality > 0
    requires forall m :: 0 <= m < ZHASH ==> Candidates(table[m], i)
    modifies table
    ensures forall m :: 0 <= m < ZHASH ==> Candidates(table[m], i + 1)
    ensures table[..] == Refiled(hash, data, quality, old(table[..]), i)
    ensures BestOf(data, i, old(table[HashAt(hash, data, i)]), |old(table[HashAt(hash, data, i)])|, best, found)
    ensures bestloc == if found >= 0 && !BetterNext(data, i, table[HashAt(hash, data, i + 1)], best) then found else -1
  {
    hide CommonRun;
    var h := HashAt(hash, data, i);
    best, bestloc := BestMatch(data, i, table[h]);
    found := bestloc;
    Remember(table, h, quality, i);
    if bestloc >= 0 {
      var next := HashAt(hash, data, i + 1);
      var better := NextIsBetter(data, i, table[next], best);
      if better { bestloc := -1; }
    }
  }

  // The token for the next position, and the position behind it.
  method NextToken(hash: (byte, byte, byte) -> nat, w: ZWriter, data: seq<byte>, i: nat, table: array<seq<nat>>, quality: nat,
                   ghost starts: seq<nat>, ghost toks: seq<Token>)
    returns (next: nat, ghost t: Token)
    requires w.Valid() && i + 3 < |data| && table.Length == ZHASH && quality > 0
    requires Progress(w.Bytes(), w.BitLength(), toks, data, i) && LazyUpto(hash, data, quality, starts, toks, i)
    requires table[..] == TableAfter(hash, data, quality, starts) && forall m :: 0 <= m < ZHASH ==> Candidates(table[m], i)
    modifies w, table
    ensures w.Valid() && old(w.cap) <= w.cap && old(w.out) <= w.out && i < next <= |data|
    ensures Progress(w.Bytes(), w.BitLength(), toks + [t], data, next) && LazyUpto(hash, data, quality, starts + [i], toks + [t], next)
    ensures table[..] == TableAfter(hash, data, quality, starts + [i]) && forall m :: 0 <= m < ZHASH ==> Candidates(table[m], next)
  {
    hide Progress, ZWriter.Bytes, MatchLength, CommonRun, Pow2, LazyUpto, TableAfter, BestOf, BetterNext, IsCopy;
    ghost var before, h := table[..], HashAt(hash, data, i);
    var best, bestloc;
    ghost var found;
    best, bestloc, found := ChooseMatch(hash, data, i, table, quality);
    FoundParts(data, i, before[h], best, found);
    if bestloc >= 0 {
      t := PutCopy(w, data, i, bestloc, best, toks);
      next := i + best;
      CopyLength(t, best, i - bestloc);
    } else {
      t := Literal(data[i]);
      PutLiteral(w, data, i, toks);
      next := i + 1;
    }
    assert Chooses(hash, data, before, table[..], i, t);
    LazyMore(hash, data, quality, starts, toks, i, t);
  }

  lemma FoundParts(data: seq<byte>, i: nat, hlist: seq<nat>, best: nat, found: int)
    requires i <= |data| && Candidates(hlist, i) && BestOf(data, i, hlist, |hlist|, best, found)
    ensures best >= 3 && (found >= 0 ==> found < i && i - found <= 32767 && best == MatchLength(data, found, i))
  {
    hide MatchLength;
  }

  lemma CopyLength(t: Token, n: nat, d: nat)
    requires IsCopy(t, n, d)
    ensures TokenLength(t) == n
  {}

  lemma LazyLiteral(hash: (byte, byte, byte) -> nat, data: seq<byte>, quality: nat, starts: seq<nat>, toks: seq<Token>, i: nat)
    requires LazyUpto(hash, data, quality, starts, toks, i) && i < |data| <= i + 3
    ensures LazyUpto(hash, data, quality, starts + [i], toks + [Literal(data[i])], i + 1)
  {
    hide LazyUpto, TableAfter;
    LazyMore(hash, data, quality, starts, toks, i, Literal(data[i]));
  }

  lemma LazyNone(hash: (byte, byte, byte) -> nat, data: seq<byte>, quality: nat)
    ensures LazyUpto(hash, data, quality, [], [], 0) && TableAfter(hash, data, quality, []) == seq(ZHASH, _ => [])
  {}

  // Tokens for the whole of the data: those of lazy matching.
  method EmitTokens(hash: (byte, byte, byte) -> nat, w: ZWriter, data: seq<byte>, quality: nat)
    returns (ghost toks: seq<Token>, ghost starts: seq<nat>)
    requires w.Valid() && Progress(w.Bytes(), w.BitLength(), [], data, 0) && quality > 0
    modifies w
    ensures w.Valid() && Progress(w.Bytes(), w.BitLength(), toks, data, |data|)
    ensures LazyUpto(hash, data, quality, starts, toks, |data|)
    ensures old(w.cap) <= w.cap && old(w.out) <= w.out
  {
    hide Progress, ZWriter.Bytes, MatchLength, CommonRun, Pow2, LazyUpto, TableAfter;
    var table := new seq<nat>[ZHASH](_ => []);
    toks, starts := [], [];
    LazyNone(hash, data, quality);
    assert table[..] == seq(ZHASH, _ => []);
    var i := 0;
    while i + 3 < |data|
      invariant i <= |data| && w.Valid() && Progress(w.Bytes(), w.BitLength(), toks, data, i)
      invariant LazyUpto(hash, data, quality, starts, toks, i) && table[..] == TableAfter(hash, data, quality, starts)
      invariant forall m :: 0 <= m < ZHASH ==> Candidates(table[m], i)
      invariant old(w.cap) <= w.cap && old(w.out) <= w.out
    {
      var next;
      ghost var t;
      next, t := NextToken(hash, w, data, i, table, quality, starts, toks);
      starts, toks := starts + [i], toks + [t];
      i := next;
    }
    while i < |data|
      invariant i <= |data| <= i + 3 && w.Valid() && Progress(w.Bytes(), w.BitLength(), toks, data, i)
      invariant LazyUpto(hash, data, quality, starts, toks, i)
      invariant old(w.cap) <= w.cap && old(w.out) <= w.out
    {
      PutLiteral(w, data, i, toks);
      LazyLiteral(hash, data, quality, starts, toks, i);
      starts, toks := starts + [i], toks + [Literal(data[i])];
      i := i + 1;
    }
  }

  // ---------- the stored fallback ----------

  function StoredBlocks(n: nat): nat { (n + 32766) / 32767 }

  // Copies a chunk without growing the buffer, which is already large enough.
  method CopyChunk(w: ZWriter, chunk: seq<byte>)
    requires |w.out| + |chunk| <= w.cap
    modifies w`out
    ensures w.out == old(w.out) + chunk
  {
    w.out := w.out + chunk;
  }

  // One stored block: a header byte, the length and its complement, and the chunk.
  method StoreBlock(w: ZWriter, final: bool, chunk: seq<byte>)
    requires |chunk| <= 32767 && |w.out| + 5 + |chunk| <= w.cap
    modifies w`out, w`cap
    ensures w.out == old(w.out) + ([if final then 1 else 0] + StoredHeader(|chunk|) + chunk)
    ensures |w.out| <= w.cap && old(w.cap) <= w.cap
  {
    var blocklen := |chunk|;
    w.Push(if final then 1 else 0);
    w.Push(blocklen % 256);
    w.Push(blocklen / 256);
    w.Push(255 - blocklen % 256);
    w.Push(255 - blocklen / 256);
    CopyChunk(w, chunk);
  }

  ghost function StoredHeader(n: nat): (s: seq<byte>)
    requires n <= 32767
    ensures |s| == 4
  {
    [n % 256, n / 256, 255 - n % 256, 255 - n / 256]
  }

  lemma HeaderBits(input: seq<byte>, f: nat, final: bool)
    requires f < |input| && input[f] == (if final then 1 else 0)
    ensures Window(input, 8 * f, 1) == (if final then 1 else 0) && Window(input, 8 * f + 1, 2) == 0
  {
    hide Window, Pow2;
    ByteWindow(input, f);
    var b: nat := input[f];
    assert Pow2(1) == 2 && Pow2(2) == 4 by { Pow2Values(); }
    WindowMaskShift(input, 8 * f, 1, 8);
    WindowMaskShift(input, 8 * f + 1, 2, 7);
  }

  lemma BlockStored(before: seq<byte>, final: bool, chunk: seq<byte>, w: seq<byte>)
    requires |chunk| <= 32767
    requires w == before + ([if final then 1 else 0] + StoredHeader(|chunk|) + chunk)
    ensures BlockAt(w, 8 * |before|, final, Stored(chunk))
    ensures BodyEnd(8 * |before| + 3, Stored(chunk)) == 8 * |w|
  {
    hide Window, ZlibFormat.StoredAt;
    var head, q := [if final then 1 else 0], |before| + 1;
    assert w[|before|] == head[0];
    HeaderBits(w, |before|, final);
    assert ByteAfter(8 * |before| + 3) == q;
    assert w == (before + head) + StoredHeader(|chunk|) + chunk;
    HeaderStored(before + head, chunk, w, 8 * |before| + 3);
  }

  lemma HeaderStored(front: seq<byte>, chunk: seq<byte>, w: seq<byte>, p: nat)
    requires |chunk| <= 32767 && w == front + StoredHeader(|chunk|) + chunk && ByteAfter(p) == |front|
    ensures StoredAt(w, p, chunk)
  {
    hide ByteAfter;
    var q, h := |front|, StoredHeader(|chunk|);
    assert w[q] == h[0] && w[q + 1] == h[1] && w[q + 2] == h[2] && w[q + 3] == h[3];
    assert w[q + 4..q + 4 + |chunk|] == chunk;
  }

  // Blocks that say the same with anything appended.
  lemma {:induction false} BlocksAppend(a: seq<byte>, more: seq<byte>, p: nat, bs: seq<Block>)
    requires BlocksAt(a, p, bs) && BlocksEnd(p, bs) <= 8 * |a| && forall b :: b in bs ==> b.Stored?
    ensures BlocksAt(a + more, p, bs)
    decreases |bs|
  {
    hide Window, BlockAt, BodyEnd;
    if bs != [] {
      var init, b := bs[..|bs| - 1], bs[|bs| - 1];
      EndsAfter(BlocksEnd(p, init) + 3, b);
      BlocksAppend(a, more, p, init);
      BlockAppend(a, more, BlocksEnd(p, init), false, b);
    }
  }

  lemma BlockAppend(a: seq<byte>, more: seq<byte>, p: nat, final: bool, b: Block)
    requires BlockAt(a, p, final, b) && b.Stored? && p + 3 <= 8 * |a|
    ensures BlockAt(a + more, p, final, b)
  {
    hide Window, Agree;
    AppendAgrees(a, more);
    WindowAgree(a, a + more, 8 * |a|, p, 1);
    WindowAgree(a, a + more, 8 * |a|, p + 1, 2);
    var q := ByteAfter(p + 3);
    assert (a + more)[q + 4..q + 4 + |b.data|] == a[q + 4..q + 4 + |b.data|];
  }

  ghost predicate AllStored(bs: seq<Block>) {
    forall b :: b in bs ==> b.Stored?
  }

  lemma StreamAppend(a: seq<byte>, more: seq<byte>, bs: seq<Block>)
    requires StreamAt(a, 16, bs) && AllStored(bs)
    ensures StreamAt(a + more, 16, bs)
  {
    hide BlocksAt, BodyEnd, BlocksEnd;
    var init, b := bs[..|bs| - 1], bs[|bs| - 1];
    StoredInside(a, BlocksEnd(16, init), b);
    BlockAppend(a, more, BlocksEnd(16, init), true, b);
    BlocksAppend(a, more, 16, init);
  }

  lemma StoredInside(input: seq<byte>, p: nat, b: Block)
    requires BlockAt(input, p, true, b) && b.Stored?
    ensures p + 3 <= 8 * |input|
  {
    hide Window;
  }

  // What the stored blocks written so far say.
  ghost predicate StoredSoFar(out: seq<byte>, bs: seq<Block>, data: seq<byte>, j: nat) {
    && j <= |data| && AllStored(bs)
    && |out| == 2 + 5 * |bs| + j
    && out[..2] == [0x78, 0x5e]
    && BlocksExpand([], bs, data[..j])
  }

  // One more stored block, the last one or not.
  lemma StoredMore(out: seq<byte>, out': seq<byte>, bs: seq<Block>, chunk: seq<byte>, final: bool)
    requires AllStored(bs) && BlocksAt(out, 16, bs) && BlocksEnd(16, bs) == 8 * |out|
    requires |chunk| <= 32767 && out' == out + ([if final then 1 else 0] + StoredHeader(|chunk|) + chunk)
    ensures final ==> StreamAt(out', 16, bs + [Stored(chunk)])
    ensures !final ==> BlocksAt(out', 16, bs + [Stored(chunk)])
    ensures BlocksEnd(16, bs + [Stored(chunk)]) == 8 * |out'|
  {
    hide BlocksAt, BlocksEnd, BlockAt, BodyEnd, StreamAt, StoredHeader;
    var b := Stored(chunk);
    BlockStored(out, final, chunk, out');
    BlocksAppend(out, [if final then 1 else 0] + StoredHeader(|chunk|) + chunk, 16, bs);
    if final { StreamMore(out', 16, bs, b); } else { BlocksMore(out', 16, bs, b); }
  }

  lemma StoredDataMore(out: seq<byte>, out': seq<byte>, bs: seq<Block>, data: seq<byte>, j: nat, len: nat)
    requires StoredSoFar(out, bs, data, j) && j + len <= |data|
    requires |out'| == |out| + 5 + len && out <= out'
    ensures StoredSoFar(out', bs + [Stored(data[j..j + len])], data, j + len)
  {
    hide BlocksExpand;
    var b := Stored(data[j..j + len]);
    assert data[..j] + b.data == data[..j + len];
    BlocksExpandMore([], bs, b, data[..j], data[..j + len]);
    assert out'[..2] == out[..2];
  }

  // Replaces the compressed form by stored blocks; the buffer does not have to grow for the chunks.
  method StoreBlocks(w: ZWriter, data: seq<byte>) returns (ghost bs: seq<Block>)
    requires w.out == [0x78, 0x5e] && 2 + |data| + 5 * StoredBlocks(|data|) <= w.cap
    modifies w`out, w`cap
    ensures StoredSoFar(w.out, bs, data, |data|) && |bs| <= StoredBlocks(|data|)
    ensures data != [] ==> StreamAt(w.out, 16, bs) && BlocksEnd(16, bs) == 8 * |w.out|
    ensures data == [] ==> w.out == old(w.out)
  {
    hide BlocksAt, BlocksEnd, BlocksExpand, StreamAt, StoredHeader;
    bs := [];
    NoBlocks(w.out, 16);
    assert data[..0] == [];
    var j := 0;
    while j < |data|
      invariant StoredSoFar(w.out, bs, data, j) && |bs| <= StoredBlocks(|data|)
      invariant j < |data| ==> j == 32767 * |bs|
      invariant j < |data| || data == [] ==> BlocksAt(w.out, 16, bs) && BlocksEnd(16, bs) == 8 * |w.out|
      invariant j == |data| && data != [] ==> StreamAt(w.out, 16, bs) && BlocksEnd(16, bs) == 8 * |w.out|
      invariant 2 + |data| + 5 * StoredBlocks(|data|) <= w.cap
      invariant data == [] ==> w.out == old(w.out)
    {
      var blocklen := |data| - j;
      if blocklen > 32767 { blocklen := 32767; }
      ghost var before := w.out;
      assert |bs| + 1 <= StoredBlocks(|data|);
      StoreBlock(w, |data| - j == blocklen, data[j..j + blocklen]);
      StoredMore(before, w.out, bs, data[j..j + blocklen], |data| - j == blocklen);
      StoredDataMore(before, w.out, bs, data, j, blocklen);
      bs := bs + [Stored(data[j..j + blocklen])];
      j := j + blocklen;
    }
    assert data[..|data|] == data;
  }

  // ---------- the whole compressor ----------

  method Start(w: ZWriter, ghost data: seq<byte>)
    requires w.Valid() && w.out == [] && w.bitcount == 0
    modifies w
    ensures w.Valid() && |w.out| == 2 && w.out == [0x78, 0x5e] && w.cap >= 2
    ensures Progress(w.Bytes(), w.BitLength(), [], data, 0)
  {
    hide Window, Pow2, Agree, LittleBytes;
    w.Push(0x78);
    w.Push(0x5e);
    ghost var w0 := w.Bytes();
    assert Pow2(1) == 2 && Pow2(2) == 4 by { Pow2Values(); }
    ByteWindow(w0, 0);
    ByteWindow(w0, 1);
    w.Add(1, 1);
    ghost var w1 := w.Bytes();
    w.Add(1, 2);
    ghost var w2 := w.Bytes();
    AgreeTrans(w0, w1, w2, 16, 17);
    WindowAgree(w0, w2, 16, 0, 8);
    WindowAgree(w0, w2, 16, 8, 8);
    WindowAgree(w1, w2, 17, 16, 1);
    NoTokensYet(w2);
    assert data[..0] == [];
  }

  lemma NoTokensYet(w: seq<byte>)
    ensures TokensAt(FixedLengths(), FixedDistances(), w, 19, []) && TokensEnd(FixedLengths(), FixedDistances(), 19, []) == 19
    ensures Expands([], [], [])
  {}

  // Fills the last byte with zero bits.
  method PadToByte(w: ZWriter)
    requires w.Valid()
    modifies w
    ensures w.Valid() && w.bitcount == 0 && old(w.BitLength()) <= 8 * |w.out| < old(w.BitLength()) + 8
    ensures Agree(old(w.Bytes()), w.Bytes(), old(w.BitLength())) && old(w.cap) <= w.cap && old(w.out) <= w.out
  {
    hide Agree, Window, ZWriter.Bytes, Pow2;
    ghost var w0, n0 := w.Bytes(), w.BitLength();
    w.AgreeRefl(w0, n0);
    while w.bitcount != 0
      invariant w.Valid() && n0 <= w.BitLength() && Agree(w0, w.Bytes(), n0)
      invariant w.BitLength() < n0 + if w.bitcount == 0 then 8 else w.bitcount + 1
      invariant old(w.cap) <= w.cap && old(w.out) <= w.out
      decreases if w.bitcount == 0 then 0 else 8 - w.bitcount
    {
      ghost var w1, n1 := w.Bytes(), w.BitLength();
      ZeroFits();
      w.Add(0, 1);
      AgreeTrans(w0, w1, w.Bytes(), n0, n1);
    }
  }

  lemma ZeroFits()
    ensures 0 < Pow2(1)
  {}

  // Header bits, tokens, end of block and padding.
  method CompressFixed(hash: (byte, byte, byte) -> nat, w: ZWriter, data: seq<byte>, quality: nat)
    returns (ghost toks: seq<Token>, ghost starts: seq<nat>)
    requires w.Valid() && w.out == [] && w.bitcount == 0 && quality > 0
    modifies w
    ensures w.Valid() && w.bitcount == 0 && |w.out| >= 2 && w.out[..2] == [0x78, 0x5e]
    ensures FixedStream(w.out, toks, data) && LazyUpto(hash, data, quality, starts, toks, |data|)
    ensures data == [] ==> |w.out| > 2
  {
    hide Agree, Window, ZWriter.Bytes, Pow2, Progress, SymbolAt, FixedLengths, LazyUpto;
    Start(w, data);
    toks, starts := EmitTokens(hash, w, data, quality);
    ghost var n1, w1 := w.BitLength(), w.Bytes();
    ProgressBits(w1, n1, toks, data);
    FixedIs288();
    w.Huff(END_OF_BLOCK);
    ghost var n2, w2 := w.BitLength(), w.Bytes();
    PadToByte(w);
    ghost var w3 := w.Bytes();
    AgreeTrans(w1, w2, w3, n1, n2);
    SymbolAgree(FixedLengths(), w2, w3, n2, n1, END_OF_BLOCK);
    ProgressAgree(w1, w3, n1, toks, data, |data|);
    Aligned(w);
    SymbolAgree(FixedLengths(), w3, w.out, 8 * |w.out|, n1, END_OF_BLOCK);
    AgreeLess(w3, w.out, n1, 8 * |w.out|);
    ProgressAgree(w3, w.out, n1, toks, data, |data|);
  }

  // The bytes of a header and one final block with these tokens and the fixed codes.
  ghost function FixedBytes(toks: seq<Token>): nat {
    ByteAfter(TokensEnd(FixedLengths(), FixedDistances(), 19, toks) + CodeLength(FixedLengths(), END_OF_BLOCK))
  }

  // The bytes are a header and one final block with fixed codes; its last code ends within them.
  ghost predicate FixedStream(out: seq<byte>, toks: seq<Token>, data: seq<byte>) {
    var n := TokensEnd(FixedLengths(), FixedDistances(), 19, toks);
    && Progress(out, n, toks, data, |data|)
    && SymbolAt(FixedLengths(), out, n, END_OF_BLOCK)
    && |out| == FixedBytes(toks)
  }

  lemma ProgressBits(w: seq<byte>, n: nat, toks: seq<Token>, data: seq<byte>)
    requires Progress(w, n, toks, data, |data|)
    ensures n == TokensEnd(FixedLengths(), FixedDistances(), 19, toks) && n >= 19
  {}

  lemma Aligned(w: ZWriter)
    requires w.Valid() && w.bitcount == 0
    ensures Agree(w.Bytes(), w.out, 8 * |w.out|)
  {
    AppendAgrees(w.out, LittleBytes(w.bitbuf, 4));
  }

  // The stream is the final block the decoder needs, with the checksum behind it.
  lemma FixedIsStream(out: seq<byte>, trailer: seq<byte>, toks: seq<Token>, data: seq<byte>)
    requires FixedStream(out, toks, data) && |trailer| == 4
    ensures StreamAt(out + trailer, 16, [Fixed(toks)])
    ensures BlocksEnd(16, [Fixed(toks)]) <= 8 * |out| && |out| == ByteAfter(BlocksEnd(16, [Fixed(toks)]))
    ensures BlocksExpand([], [Fixed(toks)], data)
  {
    hide Window, TokensAt, TokensEnd, SymbolAt, Expands, FixedLengths, FixedDistances, Reachable, Agree;
    var input, n := out + trailer, TokensEnd(FixedLengths(), FixedDistances(), 19, toks);
    AppendAgrees(out, trailer);
    AgreeLess(out, input, n, 8 * |out|);
    ProgressAgree(out, input, n, toks, data, |data|);
    SymbolAgree(FixedLengths(), out, input, 8 * |out|, n, END_OF_BLOCK);
    assert data[..|data|] == data;
    ExpandsLength([], toks, data);
    OneBlock(input, Fixed(toks));
  }

  lemma OneBlock(input: seq<byte>, b: Block)
    ensures [b][..0] == [] && BlocksAt(input, 16, []) && BlocksEnd(16, []) == 16
  {}

  ghost predicate StandardBlocks(bs: seq<Block>) {
    forall b :: b in bs ==> b.Stored? || Standard(b.toks)
  }

  // The compressor's promise: a zlib stream of stored or fixed-code blocks that says `data`, and from the
  // first whole byte behind it the checksum. The empty string is the exception: it gets no block at all.
  ghost predicate Encodes(out: seq<byte>, bs: seq<Block>, data: seq<byte>) {
    && |out| >= 4 && Trailer(data, out[|out| - 4..])
    && (data == [] ==> out == [0x78, 0x5e, 0, 0, 0, 1])
    && (data != [] ==>
      && Inflates(out, bs, data) && StandardBlocks(bs)
      && ByteAfter(BlocksEnd(16, bs)) + 4 == |out|)
  }

  // Compresses with the tokens of lazy matching, unless stored blocks are shorter.
  method ZlibCompress(hash: (byte, byte, byte) -> nat, data: seq<byte>, quality: int)
    returns (out: seq<byte>, ghost bs: seq<Block>, ghost toks: seq<Token>, ghost starts: seq<nat>)
    ensures Encodes(out, bs, data)
    ensures LazyUpto(hash, data, if quality < 5 then 5 else quality, starts, toks, |data|)
    ensures if FixedBytes(toks) <= |data| + 2 + (|data| + 32766) / 32767 * 5 then bs == [Fixed(toks)] else AllStored(bs)
    ensures |out| <= |data| + 6 + (|data| + 32766) / 32767 * 5
    ensures data != [] ==> exists blocks: seq<Block> :: Inflates(out, blocks, data)
    ensures data == [] ==> out == [0x78, 0x5e, 0, 0, 0, 1]
  {
    hide Progress, StreamAt, BlocksExpand, Trailer, Window, LazyUpto, FixedBytes;
    var q := if quality < 5 then 5 else quality;
    var w := new ZWriter();
    toks, starts := CompressFixed(hash, w, data, q);
    bs := [Fixed(toks)];
    ghost var stored := false;
    if |w.out| > |data| + 2 + StoredBlocks(|data|) * 5 {
      w.out := w.out[..2];
      bs := StoreBlocks(w, data);
      stored := true;
    }
    var trailer := Adler32(data);
    TrailerLength(data, trailer);
    out := w.out + trailer;
    if stored {
      StoredEncodes(w.out, trailer, bs, data);
    } else {
      FixedEncodes(w.out, trailer, toks, data);
    }
  }

  lemma FixedEncodes(out: seq<byte>, trailer: seq<byte>, toks: seq<Token>, data: seq<byte>)
    requires FixedStream(out, toks, data) && |out| >= 2 && out[..2] == [0x78, 0x5e] && Trailer(data, trailer)
    requires data != []
    ensures Encodes(out + trailer, [Fixed(toks)], data)
  {
    hide StreamAt, BlocksExpand, Trailer, Window, SymbolAt, TokensEnd, TokensAt, Expands;
    TrailerLength(data, trailer);
    FixedIsStream(out, trailer, toks, data);
    assert (out + trailer)[|out|..] == trailer;
    HeaderOk(out + trailer, out);
  }

  lemma TrailerLength(data: seq<byte>, trailer: seq<byte>)
    requires Trailer(data, trailer)
    ensures |trailer| == 4
    ensures data == [] ==> trailer == [0, 0, 0, 1]
  {}

  lemma HeaderOk(input: seq<byte>, out: seq<byte>)
    requires |input| > 2 && |out| >= 2 && out <= input && out[..2] == [0x78, 0x5e]
    ensures ZlibHeader(input)
  {
    assert input[0] == out[..2][0] && input[1] == out[..2][1];
  }

  lemma StoredEncodes(out: seq<byte>, trailer: seq<byte>, bs: seq<Block>, data: seq<byte>)
    requires StoredSoFar(out, bs, data, |data|) && Trailer(data, trailer)
    requires if data == [] then |out| == 2 else StreamAt(out, 16, bs) && BlocksEnd(16, bs) == 8 * |out|
    ensures Encodes(out + trailer, bs, data)
  {
    hide StreamAt, BlocksExpand, Trailer, BlocksEnd;
    TrailerLength(data, trailer);
    assert (out + trailer)[|out|..] == trailer;
    assert data[..|data|] == data;
    if data == [] {
      assert out == [0x78, 0x5e];
    } else {
      StreamAppend(out, trailer, bs);
      HeaderOk(out + trailer, out);
    }
  }
}

// What the symbols of a compressed block mean (sections 3.2.3 to 3.2.6 of RFC 1951): a block is a
// list of tokens, each a literal byte or a copy of earlier output, closed by symbol 256.
module DeflateFormat {
  import opened Words
  import opened BitStream
  import opened CanonicalCode

  const LENGTH_BASE: seq<nat> := [
    3, 4, 5, 6, 7, 8, 9, 10, 11, 13, 15, 17, 19, 23, 27, 31,
    35, 43, 51, 59, 67, 83, 99, 115, 131, 163, 195, 227, 258, 0, 0]

  const LENGTH_EXTRA: seq<nat> := [
    0, 0, 0, 0, 0, 0, 0, 0, 1, 1, 1, 1, 2, 2, 2, 2,
    3, 3, 3, 3, 4, 4, 4, 4, 5, 5, 5, 5, 0, 0, 0]

  const DIST_BASE: seq<nat> := [
    1, 2, 3, 4, 5, 7, 9, 13, 17, 25, 33, 49, 65, 97, 129, 193,
    257, 385, 513, 769, 1025, 1537, 2049, 3073, 4097, 6145, 8193, 12289, 16385, 24577, 0, 0]

  const DIST_EXTRA: seq<nat> := [
    0, 0, 0, 0, 1, 1, 2, 2, 3, 3, 4, 4, 5, 5, 6, 6,
    7, 7, 8, 8, 9, 9, 10, 10, 11, 11, 12, 12, 13, 13, 0, 0]

  const END_OF_BLOCK := 256

  function LengthBase(z: nat): nat { if z < |LENGTH_BASE| then LENGTH_BASE[z] else 0 }

  function LengthExtra(z: nat): (n: nat)
    ensures n <= 5
  {
    if z < |LENGTH_EXTRA| then LENGTH_EXTRA[z] else 0
  }

  function DistBase(z: nat): nat { if z < |DIST_BASE| then DIST_BASE[z] else 0 }

  function DistExtra(z: nat): (n: nat)
    ensures n <= 13
  {
    if z < |DIST_EXTRA| then DIST_EXTRA[z] else 0
  }

  // A copy keeps the symbols and extra bits that encode it, so that its encoding is determined.
  datatype Token =
    | Literal(b: nat)
    | Copy(lsym: nat, lextra: nat, dsym: nat, dextra: nat)

  ghost predicate WellFormed(t: Token) {
    match t
    case Literal(b) => b < 256
    case Copy(ls, _, ds, _) => ls < 31 && ds < 32
  }

  ghost function TokenLength(t: Token): nat {
    match t
    case Literal(_) => 1
    case Copy(ls, lx, _, _) => LengthBase(ls) + lx
  }

  ghost function Distance(t: Token): nat
    requires t.Copy?
  {
    DistBase(t.dsym) + t.dextra
  }

  lemma LengthClass(z: nat)
    requires 8 <= z < 28
    ensures LengthExtra(z) == z / 4 - 1 && LengthBase(z) == 3 + (4 + z % 4) * Pow2(z / 4 - 1)
  {
    hide Pow2;
    Pow2Values();
    if z < 12 { assert z / 4 == 2; }
    else if z < 16 { assert z / 4 == 3; }
    else if z < 20 { assert z / 4 == 4; }
    else if z < 24 { assert z / 4 == 5; }
    else { assert z / 4 == 6; }
  }

  // The length classes: one for each length from 3 to 10, then four of each size, and one for 258. The
  // two symbols behind them stand for length 0.
  lemma LengthClasses()
    ensures forall z :: 0 <= z < 8 ==> LengthBase(z) == 3 + z && LengthExtra(z) == 0
    ensures forall z :: 8 <= z < 28 ==> LengthExtra(z) == z / 4 - 1 && LengthBase(z) == 3 + (4 + z % 4) * Pow2(z / 4 - 1)
    ensures LengthBase(28) == 258 && LengthExtra(28) == 0
    ensures forall z :: 29 <= z < 31 ==> LengthBase(z) == 0 && LengthExtra(z) == 0
  {
    hide Pow2;
    forall z | 8 <= z < 28
      ensures LengthExtra(z) == z / 4 - 1 && LengthBase(z) == 3 + (4 + z % 4) * Pow2(z / 4 - 1)
    {
      LengthClass(z);
    }
  }

  lemma DistanceClass(z: nat)
    requires 4 <= z < 30
    ensures DistExtra(z) == z / 2 - 1 && DistBase(z) == 1 + (2 + z % 2) * Pow2(z / 2 - 1)
  {
    hide Pow2;
    Pow2Values();
    if z < 10 { EarlyDistance(z); } else if z < 20 { MiddleDistance(z); } else { LateDistance(z); }
  }

  lemma EarlyDistance(z: nat)
    requires 4 <= z < 10
    ensures DistExtra(z) == z / 2 - 1 && DistBase(z) == 1 + (2 + z % 2) * Pow2(z / 2 - 1)
  {
    hide Pow2;
    Pow2Values();
    assert z / 2 == if z < 6 then 2 else if z < 8 then 3 else 4;
  }

  lemma MiddleDistance(z: nat)
    requires 10 <= z < 20
    ensures DistExtra(z) == z / 2 - 1 && DistBase(z) == 1 + (2 + z % 2) * Pow2(z / 2 - 1)
  {
    hide Pow2;
    Pow2Values();
    assert z / 2 == if z < 12 then 5 else if z < 14 then 6 else if z < 16 then 7 else if z < 18 then 8 else 9;
  }

  lemma LateDistance(z: nat)
    requires 20 <= z < 30
    ensures DistExtra(z) == z / 2 - 1 && DistBase(z) == 1 + (2 + z % 2) * Pow2(z / 2 - 1)
  {
    hide Pow2;
    Pow2Values();
    assert z / 2 == if z < 22 then 10 else if z < 24 then 11 else if z < 26 then 12 else if z < 28 then 13 else 14;
  }

  // The distance classes: one for each distance from 1 to 4, then two of each size. The two symbols behind
  // them stand for distance 0.
  lemma DistanceClasses()
    ensures forall z :: 0 <= z < 4 ==> DistBase(z) == 1 + z && DistExtra(z) == 0
    ensures forall z :: 4 <= z < 30 ==> DistExtra(z) == z / 2 - 1 && DistBase(z) == 1 + (2 + z % 2) * Pow2(z / 2 - 1)
    ensures forall z :: 30 <= z < 32 ==> DistBase(z) == 0 && DistExtra(z) == 0
  {
    hide Pow2;
    forall z | 4 <= z < 30
      ensures DistExtra(z) == z / 2 - 1 && DistBase(z) == 1 + (2 + z % 2) * Pow2(z / 2 - 1)
    {
      DistanceClass(z);
    }
  }

  // ---------- tokens in a bit stream ----------

  ghost function CodeLength(lens: seq<nat>, i: nat): nat {
    if i < |lens| then lens[i] else 0
  }

  ghost function TokenEnd(ll: seq<nat>, dl: seq<nat>, p: nat, t: Token): nat {
    match t
    case Literal(b) => p + CodeLength(ll, b)
    case Copy(ls, _, ds, _) =>
      p + CodeLength(ll, 257 + ls) + LengthExtra(ls) + CodeLength(dl, ds) + DistExtra(ds)
  }

  // Token t is encoded at position p with literal/length code ll and distance code dl.
  ghost predicate TokenAt(ll: seq<nat>, dl: seq<nat>, input: seq<byte>, p: nat, t: Token) {
    WellFormed(t) &&
    match t
    case Literal(b) => SymbolAt(ll, input, p, b)
    case Copy(ls, lx, ds, dx) =>
      var p1 := p + CodeLength(ll, 257 + ls);
      var p2 := p1 + LengthExtra(ls);
      var p3 := p2 + CodeLength(dl, ds);
      && SymbolAt(ll, input, p, 257 + ls)
      && Window(input, p1, LengthExtra(ls)) == lx
      && SymbolAt(dl, input, p2, ds)
      && Window(input, p3, DistExtra(ds)) == dx
  }

  ghost function TokensEnd(ll: seq<nat>, dl: seq<nat>, p: nat, ts: seq<Token>): nat {
    if ts == [] then p
    else TokenEnd(ll, dl, TokensEnd(ll, dl, p, ts[..|ts| - 1]), ts[|ts| - 1])
  }

  ghost predicate TokensAt(ll: seq<nat>, dl: seq<nat>, input: seq<byte>, p: nat, ts: seq<Token>) {
    ts != [] ==>
      && TokensAt(ll, dl, input, p, ts[..|ts| - 1])
      && TokenAt(ll, dl, input, TokensEnd(ll, dl, p, ts[..|ts| - 1]), ts[|ts| - 1])
  }

  // ---------- what tokens produce ----------

  // Appending what t stands for turns `before` into `after`.
  ghost predicate StepTo(before: seq<byte>, t: Token, after: seq<byte>) {
    && |after| == |before| + TokenLength(t)
    && after[..|before|] == before
    && match t
       case Literal(b) => after[|before|] == b
       case Copy(_, _, _, _) =>
         && Distance(t) <= |before|
         && forall k :: |before| <= k < |after| ==> after[k] == after[k - Distance(t)]
  }

  ghost predicate Expands(before: seq<byte>, ts: seq<Token>, after: seq<byte>) {
    if ts == [] then after == before
    else
      var t := ts[|ts| - 1];
      && TokenLength(t) <= |after|
      && var mid := after[..|after| - TokenLength(t)];
         StepTo(mid, t, after) && Expands(before, ts[..|ts| - 1], mid)
  }

  ghost function Produced(ts: seq<Token>): nat {
    if ts == [] then 0 else Produced(ts[..|ts| - 1]) + TokenLength(ts[|ts| - 1])
  }

  // No copy reaches back before the start of the output, of which n bytes exist already.
  ghost predicate Reachable(n: nat, ts: seq<Token>) {
    ts != [] ==>
      && Reachable(n, ts[..|ts| - 1])
      && (ts[|ts| - 1].Copy? ==> Distance(ts[|ts| - 1]) <= n + Produced(ts[..|ts| - 1]))
  }

  // Every copy has a real distance, as the standard demands; symbols 30 and 31 have none.
  ghost predicate Standard(ts: seq<Token>) {
    forall i :: 0 <= i < |ts| && ts[i].Copy? ==> Distance(ts[i]) > 0
  }

  // ---------- lemmas ----------

  lemma TokenUnique(ll: seq<nat>, dl: seq<nat>, input: seq<byte>, p: nat, t: Token, u: Token)
    requires ValidLengths(ll) && ValidLengths(dl)
    requires TokenAt(ll, dl, input, p, t) && TokenAt(ll, dl, input, p, u)
    ensures t == u
  {
    hide SymbolAt, Window, ValidLengths, LengthExtra, DistExtra, CodeLength;
    SymbolUnique(ll, input, p, HeadSymbol(t), HeadSymbol(u));
    if t.Copy? && u.Copy? {
      var p2 := p + CodeLength(ll, 257 + t.lsym) + LengthExtra(t.lsym);
      SymbolUnique(dl, input, p2, t.dsym, u.dsym);
    }
  }

  // The literal/length symbol a token begins with.
  ghost function HeadSymbol(t: Token): nat {
    match t
    case Literal(b) => b
    case Copy(ls, _, _, _) => 257 + ls
  }

  lemma {:induction false} TokensPrefix(ll: seq<nat>, dl: seq<nat>, input: seq<byte>, p: nat, ts: seq<Token>, k: nat)
    requires TokensAt(ll, dl, input, p, ts) && k < |ts|
    ensures TokenAt(ll, dl, input, TokensEnd(ll, dl, p, ts[..k]), ts[k])
    ensures TokensEnd(ll, dl, p, ts[..k + 1]) == TokenEnd(ll, dl, TokensEnd(ll, dl, p, ts[..k]), ts[k])
    ensures TokensEnd(ll, dl, p, ts[..k + 1]) <= TokensEnd(ll, dl, p, ts)
    decreases |ts|
  {
    var init := ts[..|ts| - 1];
    if k < |ts| - 1 {
      TokensPrefix(ll, dl, input, p, init, k);
      assert init[..k] == ts[..k] && init[..k + 1] == ts[..k + 1];
    } else {
      assert ts[..k + 1] == ts && ts[..k] == init;
    }
  }

  lemma {:induction false} ReachablePrefix(n: nat, ts: seq<Token>, k: nat)
    requires Reachable(n, ts) && k < |ts|
    ensures ts[k].Copy? ==> Distance(ts[k]) <= n + Produced(ts[..k])
    ensures Produced(ts[..k + 1]) == Produced(ts[..k]) + TokenLength(ts[k])
    ensures Produced(ts[..k + 1]) <= Produced(ts)
    decreases |ts|
  {
    var init := ts[..|ts| - 1];
    if k < |ts| - 1 {
      ReachablePrefix(n, init, k);
      assert init[..k] == ts[..k] && init[..k + 1] == ts[..k + 1];
    } else {
      assert ts[..k + 1] == ts && ts[..k] == init;
    }
  }

  lemma {:induction false} TokensForward(ll: seq<nat>, dl: seq<nat>, p: nat, ts: seq<Token>)
    ensures p <= TokensEnd(ll, dl, p, ts)
    decreases |ts|
  {
    if ts != [] { TokensForward(ll, dl, p, ts[..|ts| - 1]); }
  }

  lemma Extend(ts: seq<Token>, t: Token)
    ensures (ts + [t])[..|ts + [t]| - 1] == ts
  {}

  lemma TokensAtMore(ll: seq<nat>, dl: seq<nat>, input: seq<byte>, p: nat, ts: seq<Token>, t: Token)
    requires TokensAt(ll, dl, input, p, ts) && TokenAt(ll, dl, input, TokensEnd(ll, dl, p, ts), t)
    ensures TokensAt(ll, dl, input, p, ts + [t])
    ensures TokensEnd(ll, dl, p, ts + [t]) == TokenEnd(ll, dl, TokensEnd(ll, dl, p, ts), t)
  {
    hide TokenAt, TokenEnd;
    Extend(ts, t);
  }

  lemma ExpandsMore(out: seq<byte>, ts: seq<Token>, t: Token, before: seq<byte>, after: seq<byte>)
    requires Expands(out, ts, before) && StepTo(before, t, after)
    ensures Expands(out, ts + [t], after)
    ensures |after| == |before| + TokenLength(t)
  {
    hide TokenLength, Distance;
    Extend(ts, t);
    assert after[..|after| - TokenLength(t)] == before;
  }

  lemma ProducedMore(ts: seq<Token>, t: Token)
    ensures Produced(ts + [t]) == Produced(ts) + TokenLength(t)
  {
    hide TokenLength;
    Extend(ts, t);
  }

  lemma {:induction false} ExpandsLength(before: seq<byte>, ts: seq<Token>, after: seq<byte>)
    requires Expands(before, ts, after)
    ensures |after| == |before| + Produced(ts)
    ensures Reachable(|before|, ts)
    decreases |ts|
  {
    if ts != [] {
      var t := ts[|ts| - 1];
      ExpandsLength(before, ts[..|ts| - 1], after[..|after| - TokenLength(t)]);
    }
  }

  lemma {:induction false} ExpandsKeeps(before: seq<byte>, ts: seq<Token>, after: seq<byte>)
    requires Expands(before, ts, after)
    ensures |before| <= |after| && after[..|before|] == before
    decreases |ts|
  {
    hide LengthBase, DistBase;
    if ts != [] {
      var t := ts[|ts| - 1];
      var mid := after[..|after| - TokenLength(t)];
      ExpandsKeeps(before, ts[..|ts| - 1], mid);
      assert after[..|before|] == mid[..|before|];
    }
  }

  lemma {:induction false} CopyDetermined(before: seq<byte>, t: Token, a: seq<byte>, b: seq<byte>, k: nat)
    requires StepTo(before, t, a) && StepTo(before, t, b)
    requires t.Copy? ==> Distance(t) > 0
    requires k < |a|
    ensures |a| == |b| && a[k] == b[k]
    decreases k
  {
    if k < |before| {
      assert a[k] == a[..|before|][k] && b[k] == b[..|before|][k];
    } else if t.Copy? {
      CopyDetermined(before, t, a, b, k - Distance(t));
    }
  }

  // Tokens that keep to the standard have one meaning only.
  lemma {:induction false} ExpandsDetermined(before: seq<byte>, ts: seq<Token>, a: seq<byte>, b: seq<byte>)
    requires Standard(ts) && Expands(before, ts, a) && Expands(before, ts, b)
    ensures a == b
    decreases |ts|
  {
    hide LengthBase, DistBase;
    if ts != [] {
      var t, init := ts[|ts| - 1], ts[..|ts| - 1];
      var n := TokenLength(t);
      ExpandsDetermined(before, init, a[..|a| - n], b[..|b| - n]);
      ExpandsLength(before, ts, a);
      ExpandsLength(before, ts, b);
      forall k | 0 <= k < |a| ensures a[k] == b[k] {
        CopyDetermined(a[..|a| - n], t, a, b, k);
      }
    }
  }

  // Only the bits up to the end of the tokens matter.
  lemma TokenAgree(ll: seq<nat>, dl: seq<nat>, a: seq<byte>, b: seq<byte>, n: nat, p: nat, t: Token)
    requires Agree(a, b, n) && TokenAt(ll, dl, a, p, t) && TokenEnd(ll, dl, p, t) <= n
    ensures TokenAt(ll, dl, b, p, t)
  {
    hide Window, Peek, Agree, Code;
    match t
    case Literal(s) => PeekAgree(a, b, n, p, ll[s]);
    case Copy(ls, lx, ds, dx) =>
      var p1 := p + CodeLength(ll, 257 + ls);
      var p2 := p1 + LengthExtra(ls);
      var p3 := p2 + CodeLength(dl, ds);
      PeekAgree(a, b, n, p, ll[257 + ls]);
      WindowAgree(a, b, n, p1, LengthExtra(ls));
      PeekAgree(a, b, n, p2, dl[ds]);
      WindowAgree(a, b, n, p3, DistExtra(ds));
  }

  lemma {:induction false} TokensAgree(ll: seq<nat>, dl: seq<nat>, a: seq<byte>, b: seq<byte>, n: nat, p: nat, ts: seq<Token>)
    requires Agree(a, b, n) && TokensAt(ll, dl, a, p, ts) && TokensEnd(ll, dl, p, ts) <= n
    ensures TokensAt(ll, dl, b, p, ts)
    decreases |ts|
  {
    if ts != [] {
      var init := ts[..|ts| - 1];
      TokensAgree(ll, dl, a, b, n, p, init);
      TokenAgree(ll, dl, a, b, n, TokensEnd(ll, dl, p, init), ts[|ts| - 1]);
    }
  }
}

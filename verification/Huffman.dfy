// Canonical Huffman codes as section 3.2.2 of RFC 1951 defines them from a list of code lengths.
module CanonicalCode {
  import opened Words
  import opened BitStream

  ghost predicate ValidLengths(lens: seq<nat>) {
    |lens| <= 288 && forall i :: 0 <= i < |lens| ==> lens[i] <= 15
  }

  // How many of the first n symbols have length s.
  ghost function CountUpto(lens: seq<nat>, s: nat, n: nat): (c: nat)
    requires n <= |lens|
    ensures c <= n
  {
    if n == 0 then 0 else CountUpto(lens, s, n - 1) + (if lens[n - 1] == s then 1 else 0)
  }

  // The number of codes of length s; length 0 means "no code".
  ghost function Count(lens: seq<nat>, s: nat): nat {
    if s == 0 then 0 else CountUpto(lens, s, |lens|)
  }

  ghost function FirstCode(lens: seq<nat>, s: nat): nat {
    if s == 0 then 0 else 2 * (FirstCode(lens, s - 1) + Count(lens, s - 1))
  }

  // The number of symbols with a code shorter than s.
  ghost function FirstSymbol(lens: seq<nat>, s: nat): nat {
    if s == 0 then 0 else FirstSymbol(lens, s - 1) + Count(lens, s - 1)
  }

  ghost function EndCode(lens: seq<nat>, s: nat): nat {
    FirstCode(lens, s) + Count(lens, s)
  }

  // The code of symbol i, to be read most significant bit first.
  ghost function Code(lens: seq<nat>, i: nat): nat
    requires i < |lens|
  {
    FirstCode(lens, lens[i]) + CountUpto(lens, lens[i], i)
  }

  // Where the canonical numbering puts symbol i among all symbols that have a code.
  ghost function Slot(lens: seq<nat>, i: nat): nat
    requires i < |lens|
  {
    FirstSymbol(lens, lens[i]) + CountUpto(lens, lens[i], i)
  }

  // No length is over-subscribed.
  ghost predicate Acceptable(lens: seq<nat>) {
    forall s :: 1 <= s <= 15 && Count(lens, s) > 0 ==> EndCode(lens, s) <= Pow2(s)
  }

  // Kraft's sum over the first n symbols, in units of 2^-15.
  ghost function Kraft(lens: seq<nat>, n: nat): nat
    requires ValidLengths(lens) && n <= |lens|
  {
    if n == 0 then 0
    else Kraft(lens, n - 1) + (if lens[n - 1] == 0 then 0 else Pow2(15 - lens[n - 1]))
  }

  // Codes of length s, padded to 16 bits, end here.
  ghost function Limit(lens: seq<nat>, s: nat): nat
    requires s <= 16
  {
    EndCode(lens, s) * Pow2(16 - s)
  }

  ghost function Start(lens: seq<nat>, s: nat): nat
    requires s <= 16
  {
    FirstCode(lens, s) * Pow2(16 - s)
  }

  // ---------- counting ----------

  lemma {:induction false} CountMono(lens: seq<nat>, s: nat, m: nat, n: nat)
    requires m <= n <= |lens|
    ensures CountUpto(lens, s, m) <= CountUpto(lens, s, n)
    decreases n
  {
    if m < n { CountMono(lens, s, m, n - 1); }
  }

  lemma RankBelowCount(lens: seq<nat>, i: nat)
    requires i < |lens| && lens[i] > 0
    ensures CountUpto(lens, lens[i], i) < Count(lens, lens[i])
  {
    CountMono(lens, lens[i], i + 1, |lens|);
  }

  lemma RankInjective(lens: seq<nat>, i: nat, j: nat)
    requires i < j < |lens| && lens[i] == lens[j]
    ensures CountUpto(lens, lens[i], i) < CountUpto(lens, lens[j], j)
  {
    CountMono(lens, lens[i], i + 1, j);
  }

  // The symbol of length s with r earlier symbols of that length.
  lemma {:induction false} SymbolOfRank(lens: seq<nat>, s: nat, r: nat, n: nat) returns (i: nat)
    requires n <= |lens| && r < CountUpto(lens, s, n)
    ensures i < n && lens[i] == s && CountUpto(lens, s, i) == r
  {
    if lens[n - 1] == s && CountUpto(lens, s, n - 1) == r {
      i := n - 1;
    } else {
      i := SymbolOfRank(lens, s, r, n - 1);
    }
  }

  lemma {:induction false} SlotsBound(lens: seq<nat>, s: nat, n: nat)
    requires n <= |lens|
    ensures CountsBelow(lens, s, n) <= n
    decreases n
  {
    if n == 0 { CountsBelowZero(lens, s); } else {
      SlotsBound(lens, s, n - 1);
      CountsBelowStep(lens, s, n - 1);
    }
  }

  ghost function CountsBelow(lens: seq<nat>, s: nat, n: nat): nat
    requires n <= |lens|
  {
    if s <= 1 then 0 else CountsBelow(lens, s - 1, n) + CountUpto(lens, s - 1, n)
  }

  lemma {:induction false} CountsBelowZero(lens: seq<nat>, s: nat)
    ensures CountsBelow(lens, s, 0) == 0
  {
    if s > 1 { CountsBelowZero(lens, s - 1); }
  }

  lemma {:induction false} CountsBelowStep(lens: seq<nat>, s: nat, n: nat)
    requires n < |lens|
    ensures CountsBelow(lens, s, n + 1) == CountsBelow(lens, s, n) + (if 0 < lens[n] < s then 1 else 0)
  {
    if s > 1 { CountsBelowStep(lens, s - 1, n); }
  }

  lemma {:induction false} FirstSymbolIsCount(lens: seq<nat>, s: nat)
    ensures FirstSymbol(lens, s) == CountsBelow(lens, s, |lens|)
  {
    if s > 1 { FirstSymbolIsCount(lens, s - 1); } else if s == 1 { assert FirstSymbol(lens, 0) == 0; }
  }

  lemma FirstSymbolBound(lens: seq<nat>, s: nat)
    ensures FirstSymbol(lens, s) + Count(lens, s) <= |lens|
  {
    FirstSymbolIsCount(lens, s + 1);
    SlotsBound(lens, s + 1, |lens|);
  }

  lemma {:induction false} FirstSymbolMono(lens: seq<nat>, s: nat, t: nat)
    requires s < t
    ensures FirstSymbol(lens, s) + Count(lens, s) <= FirstSymbol(lens, t)
    decreases t
  {
    if s < t - 1 { FirstSymbolMono(lens, s, t - 1); }
  }

  // Distinct symbols get distinct table slots, all below the number of symbols.
  lemma SlotsDistinct(lens: seq<nat>, i: nat, j: nat)
    requires i < |lens| && j < |lens| && lens[i] > 0 && lens[j] > 0
    ensures Slot(lens, i) < |lens|
    ensures Slot(lens, i) == Slot(lens, j) ==> i == j
  {
    RankBelowCount(lens, i);
    RankBelowCount(lens, j);
    FirstSymbolBound(lens, lens[i]);
    if lens[i] < lens[j] {
      FirstSymbolMono(lens, lens[i], lens[j]);
    } else if lens[j] < lens[i] {
      FirstSymbolMono(lens, lens[j], lens[i]);
    } else if i < j {
      RankInjective(lens, i, j);
    } else if j < i {
      RankInjective(lens, j, i);
    }
  }

  // ---------- the code space ----------

  lemma LimitIsNextStart(lens: seq<nat>, s: nat)
    requires s < 16
    ensures Start(lens, s + 1) == Limit(lens, s)
  {
    var x, y := EndCode(lens, s), Pow2(15 - s);
    assert FirstCode(lens, s + 1) == 2 * x;
    assert Pow2(16 - s) == 2 * y;
    assert (2 * x) * y == x * (2 * y);
  }

  lemma StartBelowLimit(lens: seq<nat>, s: nat)
    requires s <= 16
    ensures Start(lens, s) <= Limit(lens, s)
    ensures Limit(lens, s) == Start(lens, s) + Count(lens, s) * Pow2(16 - s)
  {
    hide FirstCode, Count, Pow2;
    var a, b, d := FirstCode(lens, s), Count(lens, s), Pow2(16 - s);
    Distribute(a, b, d);
    MulMono(a, a + b, d);
  }

  lemma {:induction false} LimitMono(lens: seq<nat>, s: nat, t: nat)
    requires s <= t <= 16
    ensures Limit(lens, s) <= Limit(lens, t)
    ensures s < t ==> Limit(lens, s) <= Start(lens, t)
    decreases t
  {
    if s < t {
      LimitMono(lens, s, t - 1);
      LimitIsNextStart(lens, t - 1);
      StartBelowLimit(lens, t);
    }
  }

  lemma {:induction false} EndCodeFits(lens: seq<nat>, s: nat)
    requires Acceptable(lens) && s <= 15
    ensures EndCode(lens, s) <= Pow2(s)
  {
    if s > 0 { EndCodeFits(lens, s - 1); }
  }

  lemma LimitFits(lens: seq<nat>, s: nat)
    requires Acceptable(lens) && s <= 15
    ensures Limit(lens, s) <= 0x1_0000
  {
    EndCodeFits(lens, s);
    MulMono(EndCode(lens, s), Pow2(s), Pow2(16 - s));
    Pow2Add(s, 16 - s);
    Pow2Values();
  }

  // The 16-bit words that begin with the code of symbol i.
  ghost predicate Covers(lens: seq<nat>, i: nat, k: nat)
    requires i < |lens| && ValidLengths(lens)
  {
    lens[i] > 0 && k / Pow2(16 - lens[i]) == Code(lens, i)
  }

  lemma DivBounds(k: nat, d: nat, q: nat)
    requires d > 0
    ensures k / d == q <==> q * d <= k < (q + 1) * d
  {
    assert (q + 1) * d == q * d + d;
    if q * d <= k < (q + 1) * d { DivModUnique(k, d, q, k - q * d); }
  }

  lemma QuotientWithin(k: nat, d: nat, lo: nat, hi: nat)
    requires d > 0 && lo * d <= k < hi * d
    ensures lo <= k / d < hi
  {
    var q := k / d;
    DivBounds(k, d, q);
    if q < lo { MulMono(q + 1, lo, d); }
    if q >= hi { MulMono(hi, q, d); }
  }

  lemma CoversInterval(lens: seq<nat>, i: nat, k: nat)
    requires ValidLengths(lens) && i < |lens| && lens[i] > 0
    ensures Covers(lens, i, k) <==>
      Code(lens, i) * Pow2(16 - lens[i]) <= k < (Code(lens, i) + 1) * Pow2(16 - lens[i])
    ensures Covers(lens, i, k) ==> Start(lens, lens[i]) <= k < Limit(lens, lens[i])
  {
    var s := lens[i];
    DivBounds(k, Pow2(16 - s), Code(lens, i));
    RankBelowCount(lens, i);
    MulMono(FirstCode(lens, s), Code(lens, i), Pow2(16 - s));
    MulMono(Code(lens, i) + 1, EndCode(lens, s), Pow2(16 - s));
  }

  // Prefix-freeness: no word begins with the codes of two symbols.
  lemma CoversUnique(lens: seq<nat>, i: nat, j: nat, k: nat)
    requires ValidLengths(lens) && i < |lens| && j < |lens|
    requires Covers(lens, i, k) && Covers(lens, j, k)
    ensures i == j
  {
    CoversInterval(lens, i, k);
    CoversInterval(lens, j, k);
    if lens[i] < lens[j] {
      LimitMono(lens, lens[i], lens[j]);
    } else if lens[j] < lens[i] {
      LimitMono(lens, lens[j], lens[i]);
    } else if i < j {
      RankInjective(lens, i, j);
    } else if j < i {
      RankInjective(lens, j, i);
    }
  }

  // A word that falls between the start and the limit of length s begins with a code of length s.
  lemma CoveringSymbol(lens: seq<nat>, s: nat, k: nat) returns (i: nat)
    requires ValidLengths(lens) && 1 <= s <= 15
    requires Start(lens, s) <= k < Limit(lens, s)
    ensures i < |lens| && lens[i] == s && Covers(lens, i, k)
    ensures FirstCode(lens, s) <= k / Pow2(16 - s)
    ensures Slot(lens, i) == k / Pow2(16 - s) - FirstCode(lens, s) + FirstSymbol(lens, s)
  {
    var d := Pow2(16 - s);
    var q := k / d;
    QuotientWithin(k, d, FirstCode(lens, s), EndCode(lens, s));
    i := SymbolOfRank(lens, s, q - FirstCode(lens, s), |lens|);
  }

  lemma {:induction false} LengthOfWord(lens: seq<nat>, s: nat, k: nat) returns (t: nat)
    requires s <= 15 && k < Limit(lens, s)
    ensures 1 <= t <= s && Start(lens, t) <= k < Limit(lens, t)
  {
    assert Limit(lens, 0) == 0;
    if k < Limit(lens, s - 1) {
      t := LengthOfWord(lens, s - 1, k);
    } else {
      LimitIsNextStart(lens, s - 1);
      t := s;
    }
  }

  // The codes fill the words from 0 up to Limit(lens, 15) without a gap, and nothing above.
  lemma CodesFillInterval(lens: seq<nat>, k: nat)
    requires ValidLengths(lens)
    ensures k < Limit(lens, 15) <==> exists i :: 0 <= i < |lens| && Covers(lens, i, k)
  {
    if k < Limit(lens, 15) {
      var s := LengthOfWord(lens, 15, k);
      var i := CoveringSymbol(lens, s, k);
    } else if i :| 0 <= i < |lens| && Covers(lens, i, k) {
      CoversInterval(lens, i, k);
      LimitMono(lens, lens[i], 15);
    }
  }

  // Neither of two codes is a prefix of the other.
  lemma PrefixFree(lens: seq<nat>, i: nat, j: nat)
    requires ValidLengths(lens) && i < |lens| && j < |lens| && i != j
    requires 0 < lens[i] <= lens[j]
    ensures Code(lens, j) / Pow2(lens[j] - lens[i]) != Code(lens, i)
  {
    var s, t := lens[i], lens[j];
    var c, d := Code(lens, j), Pow2(16 - t);
    var k := c * d;
    DivModUnique(k, d, c, 0);
    DivPow2Div(k, 16 - t, t - s);
    if c / Pow2(t - s) == Code(lens, i) {
      CoversUnique(lens, i, j, k);
    }
  }

  // ---------- Kraft's inequality ----------

  ghost function LimitUpto(lens: seq<nat>, s: nat, n: nat): nat
    requires s <= 15 && n <= |lens|
  {
    if s == 0 then 0 else LimitUpto(lens, s - 1, n) + Shl(CountUpto(lens, s, n), 16 - s)
  }

  lemma {:induction false} LimitIsSum(lens: seq<nat>, s: nat)
    requires s <= 15
    ensures Limit(lens, s) == LimitUpto(lens, s, |lens|)
  {
    if s > 0 {
      LimitIsSum(lens, s - 1);
      LimitIsNextStart(lens, s - 1);
      StartBelowLimit(lens, s);
    } else {
      assert EndCode(lens, 0) == 0;
    }
  }

  lemma {:induction false} LimitUptoZero(lens: seq<nat>, s: nat)
    requires s <= 15
    ensures LimitUpto(lens, s, 0) == 0
  {
    if s > 0 { LimitUptoZero(lens, s - 1); }
  }

  lemma {:induction false} LimitUptoStep(lens: seq<nat>, s: nat, n: nat)
    requires s <= 15 && n < |lens| && lens[n] <= 15
    ensures LimitUpto(lens, s, n + 1) == LimitUpto(lens, s, n) + (if 0 < lens[n] <= s then Pow2(16 - lens[n]) else 0)
  {
    if s > 0 {
      LimitUptoStep(lens, s - 1, n);
      Distribute(CountUpto(lens, s, n), 1, Pow2(16 - s));
    }
  }

  lemma {:induction false} KraftIsLimit(lens: seq<nat>, n: nat)
    requires ValidLengths(lens) && n <= |lens|
    ensures LimitUpto(lens, 15, n) == 2 * Kraft(lens, n)
    decreases n
  {
    if n == 0 { LimitUptoZero(lens, 15); } else {
      KraftIsLimit(lens, n - 1);
      LimitUptoStep(lens, 15, n - 1);
    }
  }

  // A list of code lengths is accepted exactly when Kraft's inequality holds.
  lemma AcceptableIffKraft(lens: seq<nat>)
    requires ValidLengths(lens)
    ensures Acceptable(lens) <==> Kraft(lens, |lens|) <= Pow2(15)
  {
    hide Limit, LimitUpto, Kraft, Pow2, EndCode, Count;
    LimitIsSum(lens, 15);
    KraftIsLimit(lens, |lens|);
    Pow2Values();
    if Acceptable(lens) {
      LimitFits(lens, 15);
    } else {
      var s :| 1 <= s <= 15 && Count(lens, s) > 0 && EndCode(lens, s) > Pow2(s);
      LimitMono(lens, s, 15);
      LimitOverflows(lens, s);
    }
  }

  lemma LimitOverflows(lens: seq<nat>, s: nat)
    requires s <= 15 && EndCode(lens, s) > Pow2(s)
    ensures Limit(lens, s) > 0x1_0000
  {
    hide EndCode, Pow2;
    MulMono(Pow2(s) + 1, EndCode(lens, s), Pow2(16 - s));
    Distribute(Pow2(s), 1, Pow2(16 - s));
    Pow2Add(s, 16 - s);
    Pow2Values();
  }

  // ---------- codes in a bit stream ----------

  // The code of symbol i is next in the stream.
  ghost predicate SymbolAt(lens: seq<nat>, input: seq<byte>, p: nat, i: nat) {
    i < |lens| && lens[i] > 0 && Peek(input, p, lens[i]) == Code(lens, i)
  }

  lemma SymbolAtIffCovers(lens: seq<nat>, input: seq<byte>, p: nat, i: nat)
    requires ValidLengths(lens) && i < |lens|
    ensures SymbolAt(lens, input, p, i) <==> Covers(lens, i, Peek(input, p, 16))
  {
    if lens[i] > 0 { PeekPrefix(input, p, lens[i], 16); }
  }

  lemma SymbolUnique(lens: seq<nat>, input: seq<byte>, p: nat, i: nat, j: nat)
    requires ValidLengths(lens) && SymbolAt(lens, input, p, i) && SymbolAt(lens, input, p, j)
    ensures i == j
  {
    SymbolAtIffCovers(lens, input, p, i);
    SymbolAtIffCovers(lens, input, p, j);
    CoversUnique(lens, i, j, Peek(input, p, 16));
  }
}

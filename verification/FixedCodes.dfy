// The fixed codes of section 3.2.6 of RFC 1951, computed from their lengths.
module FixedCodes {
  import opened Words
  import opened CanonicalCode
  import opened ZlibFormat

  // How many of the first n literal/length symbols have length s.
  ghost function FixedUpto(s: nat, n: nat): nat {
    if s == 7 then Max(0, Min(n, 280) - 256)
    else if s == 8 then Min(n, 144) + Max(0, n - 280)
    else if s == 9 then Max(0, Min(n, 256) - 144)
    else 0
  }

  lemma {:induction false} FixedCounts(s: nat, n: nat)
    requires n <= 288
    ensures CountUpto(FixedLengths(), s, n) == FixedUpto(s, n)
    decreases n
  {
    if n > 0 { FixedCounts(s, n - 1); }
  }

  lemma {:induction false} DistanceCounts(s: nat, n: nat)
    requires n <= 32
    ensures CountUpto(FixedDistances(), s, n) == if s == 5 then n else 0
    decreases n
  {
    if n > 0 { DistanceCounts(s, n - 1); }
  }

  lemma {:induction false} NoShortCodes(lens: seq<nat>, s: nat, t: nat)
    requires s <= t && forall r :: 1 <= r < t ==> Count(lens, r) == 0
    ensures FirstCode(lens, s) == 0
  {
    if s > 0 { NoShortCodes(lens, s - 1, t); }
  }

  lemma FixedFirstCodes()
    ensures FirstCode(FixedLengths(), 7) == 0
    ensures FirstCode(FixedLengths(), 8) == 0x30
    ensures FirstCode(FixedLengths(), 9) == 0x190
    ensures forall s :: 1 <= s <= 15 ==> Count(FixedLengths(), s) == FixedUpto(s, 288)
  {
    hide CountUpto;
    var lens := FixedLengths();
    forall s | 1 <= s <= 15 ensures Count(lens, s) == FixedUpto(s, 288) { FixedCounts(s, 288); }
    NoShortCodes(lens, 7, 7);
  }

  lemma FixedAcceptable()
    ensures ValidLengths(FixedLengths()) && Acceptable(FixedLengths())
  {
    FixedFirstCodes();
    Pow2Values();
    hide Pow2, Count, FirstCode;
  }

  lemma DistanceFirstCode()
    ensures FirstCode(FixedDistances(), 5) == 0
    ensures forall s :: 1 <= s <= 15 ==> Count(FixedDistances(), s) == if s == 5 then 32 else 0
  {
    hide CountUpto;
    var lens := FixedDistances();
    forall s | 1 <= s <= 15 ensures Count(lens, s) == if s == 5 then 32 else 0 { DistanceCounts(s, 32); }
    NoShortCodes(lens, 5, 5);
  }

  lemma DistancesAcceptable()
    ensures ValidLengths(FixedDistances()) && Acceptable(FixedDistances())
  {
    DistanceFirstCode();
    Pow2Values();
    hide Pow2, Count, FirstCode;
  }

  // The codes a compressor may write down without building a table.
  function FixedCode(i: nat): nat {
    if i <= 143 then 0x30 + i
    else if i <= 255 then 0x190 + i - 144
    else if i <= 279 then i - 256
    else 0xC0 + i - 280
  }

  lemma FixedCodeIsCanonical(i: nat)
    requires i < 288
    ensures Code(FixedLengths(), i) == FixedCode(i)
    ensures FixedCode(i) < Pow2(FixedLiteralLength(i))
  {
    FixedFirstCodes();
    FixedCounts(FixedLengths()[i], i);
    Pow2Values();
    hide CountUpto, FirstCode, Count, Pow2;
  }

  lemma DistanceCodeIsCanonical(i: nat)
    requires i < 32
    ensures Code(FixedDistances(), i) == i
  {
    DistanceFirstCode();
    DistanceCounts(5, i);
    hide CountUpto, FirstCode, Count;
  }
}

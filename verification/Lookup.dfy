// Resolving the next code of a bit stream through the decoding tables.
module Lookup {
  import opened Words
  import opened BitStream
  import opened CanonicalCode
  import opened HuffmanTables

  lemma FastIndexMatches(lens: seq<nat>, input: seq<byte>, p: nat, i: nat)
    requires ValidLengths(lens) && Acceptable(lens) && i < |lens| && 0 < lens[i] <= FAST_BITS
    ensures FastMatch(lens, i, Window(input, p, 9)) <==> SymbolAt(lens, input, p, i)
  {
    hide Window, Peek, Rev, Code, Pow2;
    WindowMaskShift(input, p, lens[i], 9);
    CodeFits(lens, i);
    CodeInWindow(input, p, Code(lens, i), lens[i]);
  }

  // A non-zero fast entry names the next symbol and the length of its code.
  lemma FastHit(lens: seq<nat>, input: seq<byte>, p: nat, v: nat)
    requires ValidLengths(lens) && Acceptable(lens)
    requires FastEntry(lens, |lens|, Window(input, p, 9), v) && v != 0
    ensures SymbolAt(lens, input, p, v % 512) && v / 512 == lens[v % 512] <= FAST_BITS
  {
    FastIndexMatches(lens, input, p, v % 512);
  }

  // A zero fast entry rules out every short code.
  lemma FastMiss(lens: seq<nat>, input: seq<byte>, p: nat, i: nat)
    requires ValidLengths(lens) && Acceptable(lens)
    requires FastEntry(lens, |lens|, Window(input, p, 9), 0)
    requires SymbolAt(lens, input, p, i)
    ensures lens[i] > FAST_BITS
  {
    if lens[i] <= FAST_BITS { FastIndexMatches(lens, input, p, i); }
  }

  ghost predicate NoShortCode(lens: seq<nat>, input: seq<byte>, p: nat) {
    forall i: nat :: SymbolAt(lens, input, p, i) ==> lens[i] > FAST_BITS
  }

  lemma AboveShortCodes(lens: seq<nat>, input: seq<byte>, p: nat)
    requires ValidLengths(lens) && NoShortCode(lens, input, p)
    ensures Limit(lens, 9) <= Peek(input, p, 16)
  {
    hide Limit, Peek;
    var k := Peek(input, p, 16);
    if k < Limit(lens, 9) {
      var s := LengthOfWord(lens, 9, k);
      var i := CoveringSymbol(lens, s, k);
      SymbolAtIffCovers(lens, input, p, i);
    }
  }

  // The first length whose limit exceeds the next 16 bits is the length of the next code.
  lemma SlowHit(lens: seq<nat>, input: seq<byte>, p: nat, s: nat) returns (i: nat)
    requires ValidLengths(lens) && Acceptable(lens) && NoShortCode(lens, input, p)
    requires 10 <= s <= 15 && Peek(input, p, 16) < Limit(lens, s)
    requires s == 10 || Limit(lens, s - 1) <= Peek(input, p, 16)
    ensures SymbolAt(lens, input, p, i) && lens[i] == s
    ensures FirstCode(lens, s) <= High(Peek(input, p, 16), 16 - s)
    ensures Slot(lens, i) == High(Peek(input, p, 16), 16 - s) - FirstCode(lens, s) + FirstSymbol(lens, s)
  {
    hide Limit, Peek, Start, FirstCode, FirstSymbol, Slot;
    AboveShortCodes(lens, input, p);
    LimitIsNextStart(lens, s - 1);
    i := CoveringSymbol(lens, s, Peek(input, p, 16));
    SymbolAtIffCovers(lens, input, p, i);
  }

  lemma SlowMiss(lens: seq<nat>, input: seq<byte>, p: nat, i: nat)
    requires ValidLengths(lens) && Limit(lens, 15) <= Peek(input, p, 16)
    ensures !SymbolAt(lens, input, p, i)
  {
    if SymbolAt(lens, input, p, i) {
      SymbolAtIffCovers(lens, input, p, i);
      CodesFillInterval(lens, Peek(input, p, 16));
    }
  }
}

// The decoding tables of one Huffman code: a 9-bit lookup table for short codes and, for every
// length, the data that resolves longer ones.
module HuffmanTables {
  import opened Words
  import opened BitStream
  import opened CanonicalCode
  import opened BitTricks

  const FAST_BITS := 9
  const FAST_SIZE := 512
  const NSYMS := 288

  // The 9-bit index j, taken from the low end of the bit buffer, begins with the code of symbol i.
  ghost predicate FastMatch(lens: seq<nat>, i: nat, j: nat) {
    i < |lens| && 0 < lens[i] <= FAST_BITS && Low(j, lens[i]) == Rev(Code(lens, i), lens[i])
  }

  // Table entry v is right for index j when only the first n symbols have been entered.
  ghost predicate FastEntry(lens: seq<nat>, n: nat, j: nat, v: nat) {
    && (v != 0 ==> v % 512 < n && FastMatch(lens, v % 512, j) && v == 512 * lens[v % 512] + v % 512)
    && (v == 0 ==> forall i: nat :: i < n ==> !FastMatch(lens, i, j))
  }

  // The per-length data of the canonical code.
  ghost predicate CodeRow(lens: seq<nat>, s: nat, firstcode: nat, firstsymbol: nat, maxcode: nat)
    requires s <= 16
  {
    firstcode == FirstCode(lens, s) && firstsymbol == FirstSymbol(lens, s) && maxcode == Limit(lens, s)
  }

  lemma FirstRow(lens: seq<nat>)
    ensures FirstCode(lens, 1) == 0 && FirstSymbol(lens, 1) == 0 && Count(lens, 0) == 0
  {
    assert FirstCode(lens, 0) == 0 && FirstSymbol(lens, 0) == 0;
  }

  // One row from the code reached and the number of codes of its length: shifting by 16 - s lines
  // the end of length s up with 16-bit words, and doubling it starts length s + 1.
  lemma NextRow(lens: seq<nat>, s: nat, code: nat, k: nat, size: nat)
    requires |lens| <= 288 && 1 <= s <= 15
    requires code == FirstCode(lens, s) <= Pow2(s) && k == FirstSymbol(lens, s) && size == Count(lens, s)
    ensures CodeRow(lens, s, code % 0x1_0000, k % 0x1_0000, Shl(code + size, 16 - s))
    ensures EndCode(lens, s) == code + size
    ensures FirstCode(lens, s + 1) == 2 * (code + size) && FirstSymbol(lens, s + 1) == k + size
    ensures size == 0 || code + size <= Pow2(s) ==> 2 * (code + size) <= Pow2(s + 1)
  {
    assert code % 0x1_0000 == code && k % 0x1_0000 == k by {
      hide *;
      Pow2Mono(s, 15);
      Pow2Values();
      FirstSymbolBound(lens, s);
    }
  }

  // A symbol without a short code changes no entry of the fast table.
  lemma FastSkip(lens: seq<nat>, i: nat, j: nat, v: nat)
    requires i < |lens| && !FastMatch(lens, i, j) && FastEntry(lens, i, j, v)
    ensures FastEntry(lens, i + 1, j, v)
  {}

  lemma CodeFits(lens: seq<nat>, i: nat)
    requires ValidLengths(lens) && Acceptable(lens) && i < |lens| && lens[i] > 0
    ensures Code(lens, i) < Pow2(lens[i])
  {
    RankBelowCount(lens, i);
    EndCodeFits(lens, lens[i]);
  }

  lemma CountFromZero(lens: seq<nat>)
    ensures forall s :: CountUpto(lens, s, 0) == 0
  {}

  lemma CountNext(lens: seq<nat>, i: nat)
    requires i < |lens|
    ensures forall s :: CountUpto(lens, s, i + 1) == CountUpto(lens, s, i) + (if lens[i] == s then 1 else 0)
  {}

  // Entering symbol i at one more index of its residue class.
  lemma FastEntered(lens: seq<nat>, i: nat, j: nat, v: nat)
    requires ValidLengths(lens) && i < |lens| && FastMatch(lens, i, j) && v == 512 * lens[i] + i
    ensures FastEntry(lens, i + 1, j, v)
  {
    DivModUnique(v, 512, lens[i], i);
  }

  lemma MatchIffResidue(lens: seq<nat>, i: nat, j: nat)
    requires i < |lens| && 0 < lens[i] <= FAST_BITS
    ensures FastMatch(lens, i, j) <==> Low(j, lens[i]) == Rev(Code(lens, i), lens[i])
  {}

  lemma NextIndex(j: nat, s: nat, r: nat)
    requires Low(j, s) == r
    ensures Low(j + Pow2(s), s) == r
  {
    var d := Pow2(s);
    assert j + d == (j / d + 1) * d + r;
    DivModUnique(j + d, d, j / d + 1, r);
  }

  lemma ResidueGap(j: nat, k: nat, s: nat, r: nat)
    requires Low(j, s) == r && Low(k, s) == r && j < k
    ensures j + Pow2(s) <= k
  {
    var d := Pow2(s);
    assert k - j == (k / d - j / d) * d;
    MulMono(1, k / d - j / d, d);
  }

  class ZHuffman {
    const fast: array<nat>
    const firstcode: array<nat>
    const maxcode: array<nat>
    const firstsymbol: array<nat>
    const size: array<nat>
    const value: array<nat>

    ghost const repr: set<object>

    constructor ()
      ensures Shape() && fresh(repr)
    {
      var f, fc, mc, fs, sz, vl :=
        new nat[FAST_SIZE](_ => 0), new nat[16](_ => 0), new nat[17](_ => 0), new nat[16](_ => 0),
        new nat[NSYMS](_ => 0), new nat[NSYMS](_ => 0);
      fast, firstcode, maxcode, firstsymbol, size, value := f, fc, mc, fs, sz, vl;
      repr := {f, fc, mc, fs, sz, vl};
    }

    ghost predicate Shape() {
      && fast.Length == FAST_SIZE && firstcode.Length == 16 && maxcode.Length == 17
      && firstsymbol.Length == 16 && size.Length == NSYMS && value.Length == NSYMS
      && repr == {fast, firstcode, maxcode, firstsymbol, size, value}
      && fast !in {firstcode, maxcode, firstsymbol, size, value}
      && firstcode !in {maxcode, firstsymbol, size, value}
      && maxcode !in {firstsymbol, size, value}
      && firstsymbol !in {size, value}
      && size != value
    }

    ghost predicate FastTable(lens: seq<nat>, n: nat)
      reads fast
    {
      fast.Length == FAST_SIZE && forall j :: 0 <= j < FAST_SIZE ==> FastEntry(lens, n, j, fast[j])
    }

    // The code of each of the first n symbols can be looked up by its slot.
    ghost predicate SlotTable(lens: seq<nat>, n: nat)
      reads size, value
    {
      && size.Length == value.Length == NSYMS && n <= |lens| <= NSYMS
      && forall i :: 0 <= i < n && lens[i] > 0 ==>
           Slot(lens, i) < NSYMS && size[Slot(lens, i)] == lens[i] && value[Slot(lens, i)] == i
    }

    ghost predicate CodeTable(lens: seq<nat>, n: nat)
      reads firstcode, firstsymbol, maxcode
    {
      && firstcode.Length == 16 && firstsymbol.Length == 16 && maxcode.Length == 17 && n <= 16
      && forall s :: 1 <= s < n ==> CodeRow(lens, s, firstcode[s], firstsymbol[s], maxcode[s])
    }

    // The tables decode the canonical code of the given lengths.
    ghost predicate Decodes(lens: seq<nat>)
      reads fast, firstcode, maxcode, firstsymbol, size, value
    {
      && Shape() && ValidLengths(lens) && Acceptable(lens)
      && CodeTable(lens, 16) && maxcode[16] == 0x1_0000
      && SlotTable(lens, |lens|)
      && FastTable(lens, |lens|)
    }

    lemma DecodesShape(lens: seq<nat>)
      requires Decodes(lens)
      ensures Shape() && ValidLengths(lens)
    {}

    method CountSizes(sizelist: seq<nat>) returns (sizes: array<nat>)
      requires ValidLengths(sizelist)
      ensures fresh(sizes) && sizes.Length == 17
      ensures forall s :: 0 <= s <= 15 ==> sizes[s] == Count(sizelist, s)
    {
      sizes := new nat[17](_ => 0);
      for i := 0 to |sizelist|
        invariant forall s :: 0 <= s <= 15 ==> sizes[s] == CountUpto(sizelist, s, i)
      {
        sizes[sizelist[i]] := sizes[sizelist[i]] + 1;
      }
      sizes[0] := 0;
    }

    method CheckSizes(ghost lens: seq<nat>, sizes: array<nat>) returns (ok: bool)
      requires sizes.Length == 17 && forall s :: 0 <= s <= 15 ==> sizes[s] == Count(lens, s)
      ensures Acceptable(lens) ==> ok
    {
      for i := 1 to 16 {
        if sizes[i] > Pow2(i) { return false; }
      }
      ok := true;
    }

    // One pass of the loop over code lengths; `code` and `k` run ahead to length i + 1.
    method SetRow(ghost lens: seq<nat>, i: nat, size: nat, code: nat, k: nat)
      returns (ok: bool, code': nat, k': nat)
      requires Shape() && |lens| <= 288 && 1 <= i <= 15 && size == Count(lens, i)
      requires code == FirstCode(lens, i) <= Pow2(i) && k == FirstSymbol(lens, i)
      requires CodeTable(lens, i)
      modifies firstcode, firstsymbol, maxcode
      ensures ok <==> (size > 0 ==> EndCode(lens, i) <= Pow2(i))
      ensures ok ==> code' == FirstCode(lens, i + 1) <= Pow2(i + 1) && k' == FirstSymbol(lens, i + 1)
      ensures ok ==> CodeTable(lens, i + 1)
    {
      hide Limit, Pow2, FirstCode, FirstSymbol, Count, CodeRow, EndCode;
      NextRow(lens, i, code, k, size);
      firstcode[i] := code % 0x1_0000;
      firstsymbol[i] := k % 0x1_0000;
      code' := code + size;
      if size > 0 {
        if code' - 1 >= Pow2(i) { return false, code', k; }
      }
      maxcode[i] := Shl(code', 16 - i);
      return true, 2 * code', k + size;
    }

    method SetCodes(ghost lens: seq<nat>, sizes: seq<nat>) returns (ok: bool, nextCode: seq<nat>)
      requires Shape() && ValidLengths(lens)
      requires |sizes| == 17 && forall s :: 0 <= s <= 15 ==> sizes[s] == Count(lens, s)
      modifies firstcode, firstsymbol, maxcode
      ensures ok <==> Acceptable(lens)
      ensures ok ==> CodeTable(lens, 16) && maxcode[16] == 0x1_0000
      ensures ok ==> |nextCode| == 16 && forall s :: 1 <= s <= 15 ==> nextCode[s] == FirstCode(lens, s)
    {
      hide Limit, Pow2, FirstCode, FirstSymbol, Count, CodeRow, EndCode;
      nextCode := seq(16, _ => 0);
      var code, k := 0, 0;
      var i := 1;
      FirstRow(lens);
      while i < 16
        invariant 1 <= i <= 16
        invariant code == FirstCode(lens, i) <= Pow2(i) && k == FirstSymbol(lens, i)
        invariant forall s :: 1 <= s < i && Count(lens, s) > 0 ==> EndCode(lens, s) <= Pow2(s)
        invariant CodeTable(lens, i)
        invariant |nextCode| == 16 && forall s :: 1 <= s < i ==> nextCode[s] == FirstCode(lens, s)
      {
        nextCode := nextCode[i := code];
        ok, code, k := SetRow(lens, i, sizes[i], code, k);
        if !ok { return; }
        i := i + 1;
      }
      maxcode[16] := 0x1_0000;
      ok := true;
    }

    // Writes v at index j and every later index that agrees with it in the low s bits.
    method FillFast(ghost lens: seq<nat>, ghost i: nat, first: nat, s: nat, v: nat)
      requires Shape() && ValidLengths(lens) && i < |lens| && s == lens[i] && 0 < s <= FAST_BITS
      requires first == Rev(Code(lens, i), s) && v == 512 * s + i
      requires FastTable(lens, i)
      modifies fast
      ensures FastTable(lens, i + 1)
    {
      hide Code, Rev, Pow2, CountUpto, Low, FastMatch, FastEntry;
      var j := first;
      RevBound(Code(lens, i), s);
      LowSmall(first, s);
      forall m: nat | m < first ensures !FastMatch(lens, i, m) {
        LowSmall(m, s);
        MatchIffResidue(lens, i, m);
      }
      while j < FAST_SIZE
        invariant Low(j, s) == first
        invariant forall m :: 0 <= m < FAST_SIZE ==>
          FastEntry(lens, if m < j && FastMatch(lens, i, m) then i + 1 else i, m, fast[m])
        decreases FAST_SIZE - j
      {
        fast[j] := v;
        MatchIffResidue(lens, i, j);
        FastEntered(lens, i, j, v);
        NextIndex(j, s, first);
        forall m | j < m < j + Pow2(s) ensures !FastMatch(lens, i, m) {
          MatchIffResidue(lens, i, m);
          if Low(m, s) == first { ResidueGap(j, m, s, first); }
        }
        j := j + Pow2(s);
      }
      forall m | 0 <= m < FAST_SIZE ensures FastEntry(lens, i + 1, m, fast[m]) {
        assert FastEntry(lens, if FastMatch(lens, i, m) then i + 1 else i, m, fast[m]);
        if !FastMatch(lens, i, m) { FastSkip(lens, i, m, fast[m]); }
      }
    }

    method EnterSlot(sizelist: seq<nat>, i: nat, s: nat, c: nat)
      requires Shape() && ValidLengths(sizelist) && i < |sizelist| && s == sizelist[i] > 0 && c == Slot(sizelist, i)
      requires SlotTable(sizelist, i)
      modifies size, value
      ensures SlotTable(sizelist, i + 1)
    {
      SlotsDistinct(sizelist, i, i);
      size[c] := s;
      value[c] := i;
      forall m: nat | m < i && sizelist[m] > 0 ensures Slot(sizelist, m) != c {
        SlotsDistinct(sizelist, m, i);
      }
    }

    method FillEntries(sizelist: seq<nat>, firstCodes: seq<nat>)
      requires Shape() && ValidLengths(sizelist) && Acceptable(sizelist)
      requires |firstCodes| == 16 && forall s :: 1 <= s <= 15 ==> firstCodes[s] == FirstCode(sizelist, s)
      requires CodeTable(sizelist, 16)
      requires FastTable(sizelist, 0)
      modifies fast, size, value
      ensures SlotTable(sizelist, |sizelist|)
      ensures FastTable(sizelist, |sizelist|)
    {
      hide Limit, FirstCode, FirstSymbol, Pow2, Acceptable, Rev, BitReverse, Count, CountUpto;
      CountFromZero(sizelist);
      var nextCode := firstCodes;
      var i := 0;
      while i < |sizelist|
        invariant i <= |sizelist|
        invariant |nextCode| == 16 && forall s :: 1 <= s <= 15 ==> nextCode[s] == FirstCode(sizelist, s) + CountUpto(sizelist, s, i)
        invariant SlotTable(sizelist, i)
        invariant FastTable(sizelist, i)
      {
        var s := sizelist[i];
        if s != 0 {
          assert CodeRow(sizelist, s, firstcode[s], firstsymbol[s], maxcode[s]);
          var c := nextCode[s] - firstcode[s] + firstsymbol[s];
          var fastv := (512 * s + i) % 0x1_0000;
          EnterSlot(sizelist, i, s, c);
          if s <= FAST_BITS {
            CodeFits(sizelist, i);
            BitReverseIsRev(nextCode[s], s);
            var j := BitReverse(nextCode[s], s);
            FillFast(sizelist, i, j, s, fastv);
          } else {
            SkipAll(sizelist, i);
          }
          CountNext(sizelist, i);
          nextCode := nextCode[s := nextCode[s] + 1];
        } else {
          CountNext(sizelist, i);
          SkipAll(sizelist, i);
        }
        i := i + 1;
      }
    }

    lemma SkipAll(lens: seq<nat>, i: nat)
      requires i < |lens| && !(0 < lens[i] <= FAST_BITS) && FastTable(lens, i)
      ensures FastTable(lens, i + 1)
    {
      forall j | 0 <= j < FAST_SIZE ensures FastEntry(lens, i + 1, j, fast[j]) {
        FastSkip(lens, i, j, fast[j]);
      }
    }

    // Builds the tables; fails exactly on an over-subscribed list of lengths.
    method Build(sizelist: seq<nat>) returns (ok: bool)
      requires Shape() && ValidLengths(sizelist)
      modifies repr
      ensures ok <==> Kraft(sizelist, |sizelist|) <= Pow2(15)
      ensures ok ==> Decodes(sizelist)
    {
      AcceptableIffKraft(sizelist);
      forall j | 0 <= j < FAST_SIZE { fast[j] := 0; }
      var sizes := CountSizes(sizelist);
      ok := CheckSizes(sizelist, sizes);
      if !ok { return; }
      var nextCode;
      ok, nextCode := SetCodes(sizelist, sizes[..]);
      if ok {
        FillEntries(sizelist, nextCode);
      }
    }
  }

}

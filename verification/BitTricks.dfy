// Bit reversal by swapping neighbouring groups of 1, 2, 4 and 8 bits under masks.
module BitTricks {
  import opened Words
  import opened BitStream

  function And(a: nat, b: nat): nat
    decreases a
  {
    if a == 0 then 0 else (a % 2) * (b % 2) + 2 * And(a / 2, b / 2)
  }

  function Or(a: nat, b: nat): nat
    decreases a
  {
    if a == 0 then b else Max(a % 2, b % 2) + 2 * Or(a / 2, b / 2)
  }

  // Exchanges the bits of n selected by hi with the bits g places lower selected by lo.
  function Swap(n: nat, g: nat, hi: nat, lo: nat): nat {
    Or(High(And(n, hi), g), Shl(And(n, lo), g))
  }

  function BitReverse16(n: nat): nat {
    var n1 := Swap(n, 1, 0xAAAA, 0x5555);
    var n2 := Swap(n1, 2, 0xCCCC, 0x3333);
    var n3 := Swap(n2, 4, 0xF0F0, 0x0F0F);
    Swap(n3, 8, 0xFF00, 0x00FF)
  }

  // Reverses the low `bits` bits of v, whose higher bits up to 16 are clear.
  function BitReverse(v: nat, bits: nat): nat
    requires bits <= 16
  {
    High(BitReverse16(v), 16 - bits)
  }

  // lo in the low w bits, hi above it.
  ghost function Cat(lo: nat, w: nat, hi: nat): nat {
    lo + Shl(hi, w)
  }

  // c digits of w bits, each of them reversed in place.
  ghost function Digits(n: nat, w: nat, c: nat): nat
    decreases c
  {
    if c == 0 then 0 else Cat(Rev(n, w), w, Digits(High(n, w), w, c - 1))
  }

  // The masks that select the lower and the upper w bits of each of c groups of 2 * w bits.
  ghost function LoMask(w: nat, c: nat): nat {
    if c == 0 then 0 else Cat(Cat(Pow2(w) - 1, w, 0), 2 * w, LoMask(w, c - 1))
  }

  ghost function HiMask(w: nat, c: nat): nat {
    if c == 0 then 0 else Cat(Cat(0, w, Pow2(w) - 1), 2 * w, HiMask(w, c - 1))
  }

  // ---------- concatenation ----------

  lemma CatHalf(a: nat, w: nat, x: nat)
    requires w > 0
    ensures Cat(a, w, x) % 2 == a % 2 && Cat(a, w, x) / 2 == Cat(a / 2, w - 1, x)
  {
    var y := Shl(x, w - 1);
    assert Shl(x, w) == 2 * y;
  }

  lemma CatDouble(b: nat, r: nat, w: nat, x: nat)
    requires w > 0
    ensures b + 2 * Cat(r, w - 1, x) == Cat(b + 2 * r, w, x)
  {}

  // Of no bits there is only the number zero.
  lemma CatZero(a: nat, x: nat)
    ensures Cat(a, 0, x) == a + x && (a < Pow2(0) ==> a == 0)
  {}

  lemma BothZero()
    ensures And(0, 0) == 0 && Or(0, 0) == 0
  {}

  lemma CatParts(a: nat, w: nat, x: nat)
    requires a < Pow2(w)
    ensures Low(Cat(a, w, x), w) == a && High(Cat(a, w, x), w) == x
  {
    DivModUnique(Cat(a, w, x), Pow2(w), x, a);
  }

  lemma ShlShl(x: nat, v: nat, w: nat)
    ensures Shl(Shl(x, v), w) == Shl(x, v + w)
  {
    Pow2Add(v, w);
    hide Pow2;
    MulAssoc(x, Pow2(v), Pow2(w));
  }

  lemma ShlCat(a: nat, v: nat, x: nat, w: nat)
    ensures Shl(Cat(a, v, x), w) == Shl(a, w) + Shl(x, v + w)
  {
    ShlShl(x, v, w);
    hide Pow2;
    Distribute(a, Shl(x, v), Pow2(w));
  }

  lemma CatAssoc(a: nat, v: nat, b: nat, w: nat, x: nat)
    ensures Cat(a, v, Cat(b, w, x)) == Cat(Cat(a, v, b), v + w, x)
  {
    ShlCat(b, w, x, v);
  }

  lemma CatBound(a: nat, v: nat, b: nat, w: nat)
    requires a < Pow2(v) && b < Pow2(w)
    ensures Cat(a, v, b) < Pow2(v + w)
  {
    Pow2Add(v, w);
    hide Pow2;
    MulMono(b, Pow2(w) - 1, Pow2(v));
    Distribute(Pow2(w) - 1, 1, Pow2(v));
  }

  lemma HighHigh(n: nat, v: nat, w: nat)
    ensures High(High(n, v), w) == High(n, v + w)
  {
    DivPow2Div(n, v, w);
  }

  lemma HighHalf(n: nat, v: nat)
    requires v > 0
    ensures High(n, v) == High(n / 2, v - 1)
  {
    DivPow2Div(n, 1, v - 1);
    assert Pow2(1) == 2;
  }

  // ---------- parity ----------

  lemma LowHalf(e: nat, m: nat)
    ensures Low(e, m + 1) == 2 * Low(e / 2, m) + e % 2
  {
    HalveMod(e, m + 1);
  }

  lemma LowNone(e: nat)
    ensures Low(e, 0) == 0
  {}

  lemma Parity(r: nat, z: nat)
    requires r < 2
    ensures (r + 2 * z) % 2 == r && (r + 2 * z) / 2 == z
  {}

  lemma OnesHalf(k: nat)
    ensures (Pow2(k + 1) - 1) / 2 == Pow2(k) - 1 && (Pow2(k + 1) - 1) % 2 == 1
  {}

  lemma PowHalf(k: nat)
    ensures Pow2(k + 1) / 2 == Pow2(k) && Pow2(k + 1) % 2 == 0
  {}

  // ---------- masks ----------

  lemma AndStep(a: nat, b: nat)
    ensures And(a, b) == (a % 2) * (b % 2) + 2 * And(a / 2, b / 2)
  {}

  lemma OrStep(a: nat, b: nat)
    ensures Or(a, b) == Max(a % 2, b % 2) + 2 * Or(a / 2, b / 2)
  {
    if a == 0 { assert Or(a / 2, b / 2) == b / 2; }
  }

  lemma {:induction false} AndZero(a: nat)
    ensures And(a, 0) == 0
  {
    if a > 0 { AndZero(a / 2); }
  }

  lemma {:induction false} OrZero(a: nat)
    ensures Or(a, 0) == a
  {
    if a > 0 { OrZero(a / 2); }
  }

  lemma {:induction false} AndAllOnes(a: nat, w: nat)
    requires a < Pow2(w)
    ensures And(a, Pow2(w) - 1) == a
    decreases w
  {
    if w > 0 && a > 0 {
      AndAllOnes(a / 2, w - 1);
      assert (Pow2(w) - 1) / 2 == Pow2(w - 1) - 1;
    }
  }

  lemma HalfBound(a: nat, w: nat)
    requires w > 0 && a < Pow2(w)
    ensures a / 2 < Pow2(w - 1)
  {}

  lemma {:induction false} AndBound(a: nat, b: nat, w: nat)
    requires a < Pow2(w)
    ensures And(a, b) < Pow2(w)
    decreases w
  {
    if w > 0 && a > 0 { AndBound(a / 2, b / 2, w - 1); }
  }

  lemma {:induction false} AndCat(a: nat, b: nat, w: nat, x: nat, y: nat)
    requires a < Pow2(w) && b < Pow2(w)
    ensures And(Cat(a, w, x), Cat(b, w, y)) == Cat(And(a, b), w, And(x, y))
    decreases w
  {
    hide *;
    if w == 0 {
      BothZero();
      CatZero(a, x);
      CatZero(b, y);
      CatZero(And(a, b), And(x, y));
    } else {
      HalfBound(a, w);
      HalfBound(b, w);
      AndCat(a / 2, b / 2, w - 1, x, y);
      AndStep(Cat(a, w, x), Cat(b, w, y));
      AndStep(a, b);
      CatHalf(a, w, x);
      CatHalf(b, w, y);
      CatDouble((a % 2) * (b % 2), And(a / 2, b / 2), w, And(x, y));
    }
  }

  lemma MaxIsNat(x: nat, y: nat)
    ensures Max(x, y) >= 0
  {}

  lemma {:induction false} OrCat(a: nat, b: nat, w: nat, x: nat, y: nat)
    requires a < Pow2(w) && b < Pow2(w)
    ensures Or(Cat(a, w, x), Cat(b, w, y)) == Cat(Or(a, b), w, Or(x, y))
    decreases w
  {
    hide *;
    if w == 0 {
      BothZero();
      CatZero(a, x);
      CatZero(b, y);
      CatZero(Or(a, b), Or(x, y));
    } else {
      MaxIsNat(a % 2, b % 2);
      HalfBound(a, w);
      HalfBound(b, w);
      OrCat(a / 2, b / 2, w - 1, x, y);
      OrStep(Cat(a, w, x), Cat(b, w, y));
      OrStep(a, b);
      CatHalf(a, w, x);
      CatHalf(b, w, y);
      CatDouble(Max(a % 2, b % 2), Or(a / 2, b / 2), w, Or(x, y));
    }
  }

  // ---------- one round of swaps ----------

  // Reversing v + w bits reverses both parts and exchanges them.
  lemma {:induction false} RevSplit(n: nat, v: nat, w: nat)
    ensures Rev(n, v + w) == Cat(Rev(High(n, v), w), w, Rev(n, v))
    decreases v
  {
    if v == 0 {
      assert High(n, 0) == n && Rev(n, 0) == 0 && Shl(0, w) == 0;
    } else {
      RevSplit(n / 2, v - 1, w);
      HighHalf(n, v);
      var b, r := n % 2, Rev(n / 2, v - 1);
      Pow2Add(v - 1, w);
      MulAssoc(b, Pow2(v - 1), Pow2(w));
      Distribute(b * Pow2(v - 1), r, Pow2(w));
    }
  }

  lemma MaskStep(w: nat, c: nat)
    ensures HiMask(w, c + 1) == Cat(Cat(0, w, Pow2(w) - 1), 2 * w, HiMask(w, c))
    ensures LoMask(w, c + 1) == Cat(Cat(Pow2(w) - 1, w, 0), 2 * w, LoMask(w, c))
  {}

  lemma DigitStep(n: nat, w: nat, c: nat)
    ensures Digits(n, w, c + 1) == Cat(Rev(n, w), w, Digits(High(n, w), w, c))
  {}

  lemma TwoDigits(n: nat, w: nat, c: nat)
    ensures Digits(n, w, c + 2) == Cat(Cat(Rev(n, w), w, Rev(High(n, w), w)), w + w, Digits(High(n, w + w), w, c))
  {
    hide *;
    var m := High(n, w);
    DigitStep(n, w, c + 1);
    DigitStep(m, w, c);
    HighHigh(n, w, w);
    CatAssoc(Rev(n, w), w, Rev(m, w), w, Digits(High(m, w), w, c));
  }

  lemma ShiftDown(w: nat, r: nat, y: nat)
    requires r < Pow2(w) && Low(y, w) == 0
    ensures Low(Cat(Cat(0, w, r), w + w, y), w) == 0
    ensures High(Cat(Cat(0, w, r), w + w, y), w) == Cat(Cat(r, w, 0), w + w, High(y, w))
  {
    hide Shl, Low, High, Pow2;
    var q := High(y, w);
    ShiftedDown(y, w);
    CatAssoc(0, w, r, w, y);
    CatParts(0, w, Cat(r, w, y));
    ShlShl(q, w, w);
    ShlOfZero(w);
  }

  lemma ShiftedDown(y: nat, w: nat)
    requires Low(y, w) == 0
    ensures y == Shl(High(y, w), w)
  {}

  lemma ShiftUp(w: nat, r: nat, z: nat)
    ensures Shl(Cat(Cat(r, w, 0), w + w, z), w) == Cat(Cat(0, w, r), w + w, Shl(z, w))
  {
    hide Shl;
    ShlOfZero(w);
    ShlCat(r, w + w, z, w);
    ShlShl(z, w, w + w);
  }

  lemma ShlOfZero(w: nat)
    ensures Shl(0, w) == 0
  {}

  lemma PairBounds(r0: nat, r1: nat, w: nat)
    requires r0 < Pow2(w) && r1 < Pow2(w)
    ensures Cat(r0, w, r1) < Pow2(w + w)
    ensures Cat(0, w, Pow2(w) - 1) < Pow2(w + w) && Cat(Pow2(w) - 1, w, 0) < Pow2(w + w)
    ensures Cat(r1, w, 0) < Pow2(w + w) && Cat(0, w, r0) < Pow2(w + w)
  {
    hide *;
    CatBound(r0, w, r1, w);
    CatBound(0, w, Pow2(w) - 1, w);
    CatBound(Pow2(w) - 1, w, 0, w);
    CatBound(r1, w, 0, w);
    CatBound(0, w, r0, w);
  }

  lemma SwapParts(w: nat, r0: nat, r1: nat, x: nat, hi: nat, lo: nat)
    requires r0 < Pow2(w) && r1 < Pow2(w) && Low(And(x, hi), w) == 0
    ensures var n := Cat(Cat(r0, w, r1), w + w, x);
            var h, l := Cat(Cat(0, w, Pow2(w) - 1), w + w, hi), Cat(Cat(Pow2(w) - 1, w, 0), w + w, lo);
            && Swap(n, w, h, l) == Cat(Cat(r1, w, r0), w + w, Swap(x, w, hi, lo))
            && Low(And(n, h), w) == 0
  {
    hide Pow2, Cat, Low, High, Shl, And, Or;
    var ones := Pow2(w) - 1;
    var y, z := And(x, hi), And(x, lo);
    PairBounds(r0, r1, w);
    AndCat(Cat(r0, w, r1), Cat(0, w, ones), w + w, x, hi);
    AndCat(Cat(r0, w, r1), Cat(ones, w, 0), w + w, x, lo);
    AndCat(r0, 0, w, r1, ones);
    AndCat(r0, ones, w, r1, 0);
    AndZero(r0);
    AndZero(r1);
    AndAllOnes(r0, w);
    AndAllOnes(r1, w);
    ShiftDown(w, r1, y);
    ShiftUp(w, r0, z);
    OrCat(Cat(r1, w, 0), Cat(0, w, r0), w + w, High(y, w), Shl(z, w));
    OrCat(r1, 0, w, 0, r0);
    OrZero(r1);
    assert Or(0, r0) == r0 by { OrFromZero(r0); }
  }

  // Or-ing in bits above the low w is addition.
  lemma OrShifted(a: nat, x: nat, w: nat)
    requires a < Pow2(w)
    ensures Or(a, Shl(x, w)) == a + Shl(x, w)
  {
    OrCat(a, 0, w, 0, x);
    OrZero(a);
    OrFromZero(x);
    ShlOfZero(w);
  }

  lemma OrFromZero(a: nat)
    ensures Or(0, a) == a
  {}

  // Exchanging the two digits in every group of 2 * w bits reverses the whole groups.
  lemma {:induction false} SwapDigits(n: nat, w: nat, c: nat)
    ensures Swap(Digits(n, w, c + c), w, HiMask(w, c), LoMask(w, c)) == Digits(n, w + w, c)
    ensures Low(And(Digits(n, w, c + c), HiMask(w, c)), w) == 0
    decreases c
  {
    if c == 0 {
      assert Digits(n, w, 0) == 0 && Digits(n, w + w, 0) == 0;
      LowSmall(0, w);
      DivModUnique(0, Pow2(w), 0, 0);
    } else {
      hide *;
      var m := High(n, w + w);
      SwapDigits(m, w, c - 1);
      TwoDigits(n, w, c - 1 + (c - 1));
      DigitStep(n, w + w, c - 1);
      MaskStep(w, c - 1);
      RevBound(n, w);
      RevBound(High(n, w), w);
      RevSplit(n, w, w);
      SwapParts(w, Rev(n, w), Rev(High(n, w), w), Digits(m, w, c - 1 + (c - 1)), HiMask(w, c - 1), LoMask(w, c - 1));
    }
  }

  // ---------- the whole reversal ----------

  lemma {:induction false} OneBitDigits(n: nat, c: nat)
    requires n < Pow2(c)
    ensures Digits(n, 1, c) == n
    decreases c
  {
    if c > 0 {
      OneBit(n);
      OneBitDigits(n / 2, c - 1);
    }
  }

  lemma OneBit(n: nat)
    ensures Rev(n, 1) == n % 2 && High(n, 1) == n / 2 && Pow2(1) == 2
  {
    assert Pow2(0) == 1 && Rev(n / 2, 0) == 0;
  }

  // Four exchanges reverse all sixteen bits.
  lemma BitReverse16IsRev(n: nat)
    requires n < 0x1_0000
    ensures BitReverse16(n) == Rev(n, 16)
  {
    hide Swap, Digits, HiMask, LoMask, Rev, Pow2;
    MaskValues();
    Pow2Values();
    OneBitDigits(n, 16);
    SwapDigits(n, 1, 8);
    SwapDigits(n, 2, 4);
    SwapDigits(n, 4, 2);
    SwapDigits(n, 8, 1);
    OneDigit(n);
  }

  lemma OneDigit(n: nat)
    ensures Digits(n, 16, 1) == Rev(n, 16)
  {
    hide Rev, Pow2;
    assert Digits(High(n, 16), 16, 0) == 0;
  }

  lemma MaskValues()
    ensures HiMask(1, 8) == 0xAAAA && LoMask(1, 8) == 0x5555
    ensures HiMask(2, 4) == 0xCCCC && LoMask(2, 4) == 0x3333
    ensures HiMask(4, 2) == 0xF0F0 && LoMask(4, 2) == 0x0F0F
    ensures HiMask(8, 1) == 0xFF00 && LoMask(8, 1) == 0x00FF
  {
    hide *;
    Pow2Values();
    MaskNext(1, 0, 2, 0, 0); MaskNext(1, 1, 2, 0x2, 0x1);
    MaskNext(1, 2, 2, 0xA, 0x5); MaskNext(1, 3, 2, 0x2A, 0x15);
    MaskNext(1, 4, 2, 0xAA, 0x55); MaskNext(1, 5, 2, 0x2AA, 0x155);
    MaskNext(1, 6, 2, 0xAAA, 0x555); MaskNext(1, 7, 2, 0x2AAA, 0x1555);
    MaskNext(2, 0, 4, 0, 0); MaskNext(2, 1, 4, 0xC, 0x3);
    MaskNext(2, 2, 4, 0xCC, 0x33); MaskNext(2, 3, 4, 0xCCC, 0x333);
    MaskNext(4, 0, 16, 0, 0); MaskNext(4, 1, 16, 0xF0, 0x0F);
    MaskNext(8, 0, 256, 0, 0);
  }

  lemma MaskNext(w: nat, c: nat, p: nat, hi: nat, lo: nat)
    requires p == Pow2(w) && (c == 0 ==> hi == 0 && lo == 0)
    requires c > 0 ==> hi == HiMask(w, c) && lo == LoMask(w, c)
    ensures HiMask(w, c + 1) == (p - 1) * p + hi * (p * p)
    ensures LoMask(w, c + 1) == (p - 1) + lo * (p * p)
  {
    hide Pow2, HiMask, LoMask;
    Pow2Add(w, w);
    MaskStep(w, c);
    NoMask(w);
  }

  lemma NoMask(w: nat)
    ensures HiMask(w, 0) == 0 && LoMask(w, 0) == 0
  {}

  // The table builder and the slow decoding path get the reversal of their code.
  lemma BitReverseIsRev(v: nat, bits: nat)
    requires bits <= 16 && v < Pow2(bits)
    ensures BitReverse(v, bits) == Rev(v, bits)
  {
    hide Rev, Pow2, BitReverse16, Cat;
    Pow2Mono(bits, 16);
    Pow2Values();
    BitReverse16IsRev(v);
    RevSplit(v, bits, 16 - bits);
    DivModUnique(v, Pow2(bits), 0, v);
    RevZero(16 - bits);
    CatParts(0, 16 - bits, Rev(v, bits));
  }

  lemma {:induction false} RevZero(w: nat)
    ensures Rev(0, w) == 0
  {
    if w > 0 { RevZero(w - 1); }
  }
}

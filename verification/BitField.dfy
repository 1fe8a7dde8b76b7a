// Bit fields of byte buffers, most significant bit first.
module BitField {
  import opened Words
  import opened BitStream
  import opened BitTricks

  // Bit i of the buffer; bits behind its end are zero.
  function MsbBit(b: seq<byte>, i: nat): (r: nat)
    ensures r < 2
  {
    if i / 8 < |b| then BitOf(b[i / 8], 7 - i % 8) else 0
  }

  // The len bits from pos on as a number.
  function Field(b: seq<byte>, pos: nat, len: nat): nat {
    if len == 0 then 0 else 2 * Field(b, pos, len - 1) + MsbBit(b, pos + len - 1)
  }

  lemma {:induction false} FieldBound(b: seq<byte>, pos: nat, len: nat)
    ensures Field(b, pos, len) < Pow2(len)
  {
    if len > 0 { FieldBound(b, pos, len - 1); }
  }

  lemma {:induction false} FieldSplit(b: seq<byte>, pos: nat, m: nat, n: nat)
    ensures Field(b, pos, m + n) == Shl(Field(b, pos, m), n) + Field(b, pos + m, n)
  {
    hide Shl, MsbBit;
    ShlStep(Field(b, pos, m), n);
    if n > 0 { FieldSplit(b, pos, m, n - 1); }
  }

  lemma ShlStep(x: nat, n: nat)
    ensures Shl(x, n) == if n == 0 then x else 2 * Shl(x, n - 1)
  {}

  // ---------- single bits ----------

  lemma BitHalf(v: nat, i: nat)
    ensures BitOf(v, i + 1) == BitOf(v / 2, i)
  {
    DivPow2Div(v, 1, i);
    assert Pow2(1) == 2;
  }

  lemma {:induction false} OrBit(a: nat, b: nat, q: nat)
    ensures BitOf(Or(a, b), q) == Max(BitOf(a, q), BitOf(b, q))
    decreases q
  {
    hide *;
    OrStep(a, b);
    MaxOfBits(a % 2, b % 2);
    Parity(Max(a % 2, b % 2), Or(a / 2, b / 2));
    if q > 0 {
      OrBit(a / 2, b / 2, q - 1);
      BitHalf(Or(a, b), q - 1);
      BitHalf(a, q - 1);
      BitHalf(b, q - 1);
    } else {
      BitZero(Or(a, b));
      BitZero(a);
      BitZero(b);
    }
  }

  lemma BitZero(v: nat)
    ensures BitOf(v, 0) == v % 2
  {}

  lemma MaxOfBits(x: nat, y: nat)
    requires x < 2 && y < 2
    ensures 0 <= Max(x, y) < 2
  {}

  lemma ProductOfBits(x: nat, y: nat)
    requires x < 2 && y < 2
    ensures 0 <= x * y < 2
  {}

  lemma {:induction false} AndBit(a: nat, b: nat, q: nat)
    ensures BitOf(And(a, b), q) == BitOf(a, q) * BitOf(b, q)
    decreases q
  {
    hide *;
    AndStep(a, b);
    ProductOfBits(a % 2, b % 2);
    Parity((a % 2) * (b % 2), And(a / 2, b / 2));
    if q > 0 {
      AndBit(a / 2, b / 2, q - 1);
      BitHalf(And(a, b), q - 1);
      BitHalf(a, q - 1);
      BitHalf(b, q - 1);
    } else {
      BitZero(And(a, b));
      BitZero(a);
      BitZero(b);
    }
  }

  lemma {:induction false} PowBit(k: nat, q: nat)
    ensures BitOf(Pow2(k), q) == if q == k then 1 else 0
    decreases q
  {
    if q > 0 {
      BitHalf(Pow2(k), q - 1);
      if k > 0 { PowBit(k - 1, q - 1); } else { PowBit(0, q - 1); ZeroBit(q - 1); }
    }
  }

  // The complement of an n-bit word.
  lemma {:induction false} ComplementBit(x: nat, n: nat, q: nat)
    requires x < Pow2(n) && q < n
    ensures BitOf(Pow2(n) - 1 - x, q) == 1 - BitOf(x, q)
    decreases q
  {
    hide *;
    var c := Pow2(n) - 1 - x;
    PowHalf(n - 1);
    ComplementHalf(x, Pow2(n - 1));
    if q > 0 {
      ComplementBit(x / 2, n - 1, q - 1);
      BitHalf(c, q - 1);
      BitHalf(x, q - 1);
    } else {
      BitZero(c);
      BitZero(x);
    }
  }

  lemma ComplementHalf(x: nat, p: nat)
    requires x < 2 * p
    ensures x / 2 < p && (2 * p - 1 - x) / 2 == p - 1 - x / 2 && (2 * p - 1 - x) % 2 == 1 - x % 2
  {}

  lemma {:induction false} AndPow(d: nat, k: nat)
    ensures And(d, Pow2(k)) != 0 <==> BitOf(d, k) == 1
    decreases k
  {
    hide *;
    AndStep(d, Pow2(k));
    if k == 0 {
      AndZero(d / 2);
      BitZero(d);
      Pow2Values();
    } else {
      AndPow(d / 2, k - 1);
      BitHalf(d, k - 1);
      PowHalf(k - 1);
    }
  }

  // Setting or clearing bit p of a byte.
  function WithBit(b: byte, p: nat, on: bool): (r: byte)
    requires p < 8
  {
    ByteFits(b, p);
    if on then Or(b, Pow2(p)) else And(b, UINT_MAX - Pow2(p))
  }

  lemma ByteFits(b: byte, p: nat)
    requires p < 8
    ensures Pow2(p) <= UINT_MAX
    ensures Or(b, Pow2(p)) < 256 && And(b, UINT_MAX - Pow2(p)) < 256
  {
    Pow2Values();
    Pow2Mono(p, 7);
    AndBound(b, UINT_MAX - Pow2(p), 8);
    OrBound(b, Pow2(p), 8);
  }

  lemma {:induction false} OrBound(a: nat, b: nat, w: nat)
    requires a < Pow2(w) && b < Pow2(w)
    ensures Or(a, b) < Pow2(w)
    decreases w
  {
    if w > 0 {
      OrStep(a, b);
      OrBound(a / 2, b / 2, w - 1);
    } else {
      OrZero(a);
    }
  }

  lemma WithBitIs(b: byte, p: nat, on: bool, q: nat)
    requires p < 8 && q < 8
    ensures BitOf(WithBit(b, p, on), q) == if q == p then (if on then 1 else 0) else BitOf(b, q)
  {
    hide BitOf, Or, And, Pow2;
    PowBit(p, q);
    if on {
      OrBit(b, Pow2(p), q);
    } else {
      Pow2Values();
      ByteFits(b, p);
      ComplementBit(Pow2(p), 32, q);
      AndBit(b, UINT_MAX - Pow2(p), q);
    }
  }

  // ---------- reading and writing fields ----------

  method GetBitU(buff: array<byte>, pos: nat, len: int) returns (bits: nat)
    requires len > 0 ==> pos + len <= 8 * buff.Length
    ensures bits == if len <= 0 then 0 else Low(Field(buff[..], pos, len), 32)
    ensures 0 <= len <= 32 ==> bits == Field(buff[..], pos, len) < Pow2(len)
  {
    hide BitOf, Low, Shl, Pow2;
    bits := 0;
    var i := pos;
    LowSmall(0, 32);
    while i < pos + len
      invariant pos <= i && (len > 0 ==> i <= pos + len) && (len <= 0 ==> i == pos)
      invariant bits == Low(Field(buff[..], pos, i - pos), 32)
    {
      ghost var f := Field(buff[..], pos, i - pos);
      LowStep(f, MsbBit(buff[..], i));
      bits := Low(Shl(bits, 1) + BitOf(buff[i / 8], 7 - i % 8), 32);
      i := i + 1;
    }
    if 0 <= len <= 32 {
      FieldBound(buff[..], pos, len);
      Pow2Mono(len, 32);
      LowSmall(Field(buff[..], pos, len), 32);
    }
  }

  lemma LowStep(f: nat, b: nat)
    requires b < 2
    ensures Low(Shl(Low(f, 32), 1) + b, 32) == Low(2 * f + b, 32)
  {
    hide Pow2;
    Pow2Values();
    DropWraps(f / 0x1_0000_0000, f % 0x1_0000_0000, b);
  }

  lemma DropWraps(q: nat, r: nat, b: nat)
    ensures (2 * (0x1_0000_0000 * q + r) + b) % 0x1_0000_0000 == (2 * r + b) % 0x1_0000_0000
  {
    var d := (2 * r + b) / 0x1_0000_0000;
    assert 2 * (0x1_0000_0000 * q + r) + b == (2 * q + d) * 0x1_0000_0000 + (2 * r + b) % 0x1_0000_0000;
  }

  // The bits of data, most significant first, in the len bits from pos on, and the others as they were.
  ghost predicate FieldSet(now: seq<byte>, was: seq<byte>, pos: nat, len: nat, done: nat, data: nat) {
    && |now| == |was| && done <= len
    && forall j :: 0 <= j < 8 * |now| ==>
      MsbBit(now, j) == if pos <= j < pos + done then BitOf(data, len - 1 - (j - pos)) else MsbBit(was, j)
  }

  method SetBitU(buff: array<byte>, pos: nat, len: int, data: nat)
    requires 0 < len <= 32 ==> pos + len <= 8 * buff.Length
    modifies buff
    ensures 0 < len <= 32 ==> FieldSet(buff[..], old(buff[..]), pos, len, len, data)
    ensures len <= 0 || len > 32 ==> buff[..] == old(buff[..])
  {
    hide BitOf, MsbBit, WithBit;
    if len <= 0 || 32 < len { return; }
    ghost var was := buff[..];
    var mask := Pow2(len - 1);
    var i := pos;
    while i < pos + len
      invariant pos <= i <= pos + len && FieldSet(buff[..], was, pos, len, i - pos, data)
      invariant i < pos + len ==> mask == Pow2(len - 1 - (i - pos))
    {
      ghost var mid := buff[..];
      AndPow(data, len - 1 - (i - pos));
      OneBitOf(data, len - 1 - (i - pos));
      var on := And(data, mask) != 0;
      buff[i / 8] := WithBit(buff[i / 8], 7 - i % 8, on);
      OneBitSet(buff[..], mid, i, on);
      mask := High(mask, 1);
      HalfPow(len - 1 - (i - pos));
      i := i + 1;
    }
  }

  lemma OneBitOf(v: nat, i: nat)
    ensures 0 <= BitOf(v, i) <= 1
  {}

  lemma HalfPow(k: nat)
    ensures k > 0 ==> High(Pow2(k), 1) == Pow2(k - 1)
  {
    assert Pow2(1) == 2;
  }

  lemma OneBitSet(now: seq<byte>, was: seq<byte>, i: nat, on: bool)
    requires i / 8 < |was| && now == was[i / 8 := WithBit(was[i / 8], 7 - i % 8, on)]
    ensures forall j: nat :: j < 8 * |now| ==> MsbBit(now, j) == if j == i then (if on then 1 else 0) else MsbBit(was, j)
  {
    hide WithBit;
    forall j: nat | j < 8 * |now| ensures MsbBit(now, j) == if j == i then (if on then 1 else 0) else MsbBit(was, j) {
      if j / 8 == i / 8 { WithBitIs(was[i / 8], 7 - i % 8, on, 7 - j % 8); }
    }
  }

  // ---------- round trips ----------

  // A field that has been set holds the low bits of the data.
  lemma {:induction false} FieldHolds(now: seq<byte>, was: seq<byte>, pos: nat, len: nat, data: nat, m: nat)
    requires FieldSet(now, was, pos, len, len, data) && pos + len <= 8 * |now| && m <= len
    ensures Field(now, pos, m) == Low(High(data, len - m), m)
    decreases m
  {
    hide MsbBit;
    if m == 0 {
      assert High(data, len) % 1 == 0;
    } else {
      FieldHolds(now, was, pos, len, data, m - 1);
      var e := High(data, len - m);
      DivPow2Div(data, len - m, 1);
      assert Pow2(1) == 2;
      LowHalf(e, m - 1);
      assert MsbBit(now, pos + m - 1) == BitOf(data, len - m);
    }
  }

  // Reading back what was written gives the low len bits of it.
  method SetThenGetU(buff: array<byte>, pos: nat, len: int, data: nat) returns (bits: nat)
    requires 1 <= len <= 32 && pos + len <= 8 * buff.Length
    modifies buff
    ensures bits == Low(data, len) && FieldSet(buff[..], old(buff[..]), pos, len, len, data)
  {
    hide Low, Field, FieldSet;
    SetBitU(buff, pos, len, data);
    FieldHolds(buff[..], old(buff[..]), pos, len, data, len);
    HighNone(data);
    bits := GetBitU(buff, pos, len);
  }

  lemma HighNone(v: nat)
    ensures High(v, 0) == v
  {}

  // A 32-bit word as a signed number, and the other way round.
  function ToInt32(v: nat): int { if v < 0x8000_0000 then v else v - 0x1_0000_0000 }

  function ToUInt32(v: int): nat { v % 0x1_0000_0000 }

  // All ones shifted left by len.
  function HighOnes(len: nat): (m: nat)
    requires len < 32
    ensures m == UINT_MAX + 1 - Pow2(len)
  {
    Pow2Values();
    Pow2Mono(len, 32);
    UINT_MAX + 1 - Pow2(len)
  }

  method GetBits(buff: array<byte>, pos: nat, len: int) returns (v: int)
    requires len > 0 ==> pos + len <= 8 * buff.Length
    ensures 1 <= len <= 32 ==> v == SignExtended(Field(buff[..], pos, len), len)
    ensures len <= 0 ==> v == 0
    ensures len > 32 ==> v == ToInt32(Low(Field(buff[..], pos, len), 32))
  {
    var bits := GetBitU(buff, pos, len);
    if len <= 0 || 32 <= len || And(bits, Pow2(len - 1)) == 0 {
      v := ToInt32(bits);
    } else {
      v := ToInt32(Or(bits, HighOnes(len)));
    }
    if 1 <= len <= 32 { ExtendSign(bits, len); }
  }

  // The value of a len-bit number in two's complement.
  function SignExtended(bits: nat, len: nat): int
    requires len > 0
  {
    if bits < Pow2(len - 1) then bits else bits - Pow2(len)
  }

  lemma ExtendSign(bits: nat, len: nat)
    requires 1 <= len <= 32 && bits < Pow2(len)
    ensures SignExtended(bits, len) ==
      if len == 32 || And(bits, Pow2(len - 1)) == 0 then ToInt32(bits) else ToInt32(Or(bits, HighOnes(len)))
  {
    Pow2Values();
    Pow2Mono(len, 32);
    AndPow(bits, len - 1);
    TopBit(bits, len);
    if len < 32 {
      Pow2Mono(len, 31);
      if bits >= Pow2(len - 1) { OrAbove(bits, len); }
    }
  }

  lemma TopBit(bits: nat, len: nat)
    requires len > 0 && bits < Pow2(len)
    ensures BitOf(bits, len - 1) == 1 <==> bits >= Pow2(len - 1)
  {
    var p := Pow2(len - 1);
    if bits >= p {
      DivModUnique(bits, p, 1, bits - p);
    } else {
      DivModUnique(bits, p, 0, bits);
    }
  }

  lemma OrAbove(bits: nat, len: nat)
    requires len < 32 && bits < Pow2(len)
    ensures Or(bits, HighOnes(len)) == bits + HighOnes(len)
  {
    Pow2Values();
    Pow2Mono(len, 32);
    var x := Pow2(32 - len) - 1;
    Pow2Add(len, 32 - len);
    assert Shl(x, len) == HighOnes(len) by {
      assert Pow2(len) * (Pow2(32 - len) - 1) == Pow2(len) * Pow2(32 - len) - Pow2(len);
    }
    OrShifted(bits, x, len);
  }

  // Writes the low len - 1 bits of data, and its sign.
  method SetBits(buff: array<byte>, pos: nat, len: int, data: int)
    requires 1 <= len <= 32 && pos + len <= 8 * buff.Length && -0x8000_0000 <= data < 0x8000_0000
    modifies buff
    ensures FieldSet(buff[..], old(buff[..]), pos, len, len, SignedWord(data, len))
  {
    SetBitU(buff, pos, len, SignedWord(data, len));
  }

  // The word of data with bit len - 1 set to its sign.
  function SignedWord(data: int, len: nat): nat
    requires 1 <= len <= 32
  {
    if data < 0 then Or(ToUInt32(data), Pow2(len - 1)) else And(ToUInt32(data), WithoutOne(len - 1))
  }

  // All ones but bit k.
  function WithoutOne(k: nat): (m: nat)
    requires k < 32
    ensures m == UINT_MAX - Pow2(k)
  {
    Pow2Values();
    Pow2Mono(k, 32);
    UINT_MAX - Pow2(k)
  }

  lemma LowOfCat(a: nat, k: nat, h: nat)
    requires a < Pow2(k)
    ensures Low(Cat(a, k, h), k + 1) == a + Pow2(k) * (h % 2)
  {
    hide Pow2;
    PowStep(k);
    HalfAbove(a, Pow2(k), h);
  }

  lemma PowStep(k: nat)
    ensures Pow2(k + 1) == 2 * Pow2(k)
  {}

  lemma HalfAbove(a: nat, p: nat, h: nat)
    requires a < p
    ensures (a + h * p) % (2 * p) == a + p * (h % 2)
  {
    hide *;
    var q, r := h / 2, h % 2;
    Distribute(2 * q, r, p);
    MulAssoc(q, 2, p);
    Commute(q, 2);
    Commute(r, p);
    OneBit(r, p);
    DivModUnique(a + h * p, 2 * p, q, a + r * p);
  }

  lemma OneBit(r: nat, p: nat)
    requires r < 2
    ensures r * p == if r == 0 then 0 else p
  {}

  lemma SplitAt(u: nat, k: nat)
    ensures u == Cat(Low(u, k), k, High(u, k)) && Low(u, k) < Pow2(k)
  {
    hide Pow2;
    Recompose(u, Pow2(k));
  }

  lemma Recompose(u: nat, p: nat)
    requires p > 0
    ensures u == u % p + u / p * p && 0 <= u % p < p
  {}

  // Setting bit k, or clearing it, leaves the bits below alone.
  lemma SetTop(u: nat, k: nat)
    ensures Low(Or(u, Pow2(k)), k + 1) == Low(u, k) + Pow2(k)
  {
    hide *;
    SplitAt(u, k);
    PowIsCat(k);
    OrCat(Low(u, k), 0, k, High(u, k), 1);
    OrZero(Low(u, k));
    OrOne(High(u, k));
    LowOfCat(Low(u, k), k, Or(High(u, k), 1));
  }

  lemma PowIsCat(k: nat)
    ensures Pow2(k) == Cat(0, k, 1)
  {}

  lemma OrOne(h: nat)
    ensures Or(h, 1) % 2 == 1
  {
    OrStep(h, 1);
  }

  lemma ClearTop(u: nat, k: nat)
    requires k < 32
    ensures Low(And(u, WithoutOne(k)), k + 1) == Low(u, k)
  {
    hide *;
    SplitAt(u, k);
    MaskIs(k);
    var h := Pow2(32 - k) - 2;
    AndCat(Low(u, k), Pow2(k) - 1, k, High(u, k), h);
    AndAllOnes(Low(u, k), k);
    AndStep(High(u, k), h);
    PowHalf(31 - k);
    Parity(0, And(High(u, k) / 2, h / 2));
    LowOfCat(Low(u, k), k, And(High(u, k), h));
  }

  lemma MaskIs(k: nat)
    requires k < 32
    ensures Pow2(32 - k) >= 2 && WithoutOne(k) == Cat(Pow2(k) - 1, k, Pow2(32 - k) - 2)
  {
    Pow2Values();
    Pow2Add(32 - k, k);
    Distribute(Pow2(32 - k) - 2, 2, Pow2(k));
  }

  // What reading back a signed field gives.
  lemma SignedFieldIs(data: int, len: nat)
    requires 1 <= len <= 32
    ensures SignExtended(Low(SignedWord(data, len), len), len)
      == if data < 0 then Low(ToUInt32(data), len - 1) - Pow2(len - 1) else Low(ToUInt32(data), len - 1)
  {
    var u, k := ToUInt32(data), len - 1;
    SplitAt(u, k);
    if data < 0 { SetTop(u, k); } else { ClearTop(u, k); }
  }

  lemma LowOfWord(v: int, k: nat)
    requires k < 32
    ensures Low(ToUInt32(v), k) == v % Pow2(k)
  {
    Pow2Values();
    Pow2Add(32 - k, k);
    ModMod(v, Pow2(32 - k), Pow2(k));
  }

  lemma ModMod(v: int, c: nat, p: nat)
    requires c > 0 && p > 0
    ensures c * p > 0 && v % (c * p) % p == v % p
  {
    MulMono(1, c, p);
    var m := c * p;
    var q, u := v / m, v % m;
    MulAssoc(q, c, p);
    Distribute(q * c, u / p, p);
    assert u == u / p * p + u % p;
    DivModUnique(v, p, q * c + u / p, u % p);
  }

  // The range of len-bit numbers in two's complement.
  predicate FitsSigned(v: int, len: nat)
    requires len > 0
  {
    0 - Pow2(len - 1) <= v < Pow2(len - 1)
  }

  // A signed value survives a field of len bits exactly when it is in the range of len-bit numbers.
  lemma SignedSurvives(v: int, len: nat)
    requires 1 <= len <= 32
    ensures SignExtended(Low(SignedWord(v, len), len), len) == v <==> FitsSigned(v, len)
  {
    var p := Pow2(len - 1);
    SignedFieldIs(v, len);
    LowOfWord(v, len - 1);
    if 0 <= v < p { DivModUnique(v, p, 0, v); }
    if 0 - p <= v < 0 { DivModUnique(v, p, -1, v + p); }
  }

  method SetThenGetS(buff: array<byte>, pos: nat, len: int, data: int) returns (v: int)
    requires 1 <= len <= 32 && pos + len <= 8 * buff.Length && -0x8000_0000 <= data < 0x8000_0000
    modifies buff
    ensures v == data <==> FitsSigned(data, len)
  {
    hide *;
    SetBits(buff, pos, len, data);
    FieldHolds(buff[..], old(buff[..]), pos, len, SignedWord(data, len), len);
    HighNone(SignedWord(data, len));
    SignedSurvives(data, len);
    v := GetBits(buff, pos, len);
  }
}

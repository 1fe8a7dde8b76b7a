// The bit sequence of a DEFLATE stream: bytes are read least significant bit first
// (section 3.1.1 of RFC 1951), and bits past the end of the input read as zero.
module BitStream {
  import opened Words

  function BitOf(v: nat, i: nat): (b: nat)
    ensures b <= 1
  {
    v / Pow2(i) % 2
  }

  lemma ZeroBit(q: nat)
    ensures BitOf(0, q) == 0
  {
    DivModUnique(0, Pow2(q), 0, 0);
  }

  // Bit number k of the stream.
  function Bit(input: seq<byte>, k: nat): (b: nat)
    ensures b <= 1
  {
    if k / 8 < |input| then BitOf(input[k / 8], k % 8) else 0
  }

  // The n bits at position p as a number, first bit least significant: the order of extra bits.
  ghost function Window(input: seq<byte>, p: nat, n: nat): nat
    decreases n
  {
    if n == 0 then 0 else Bit(input, p) + 2 * Window(input, p + 1, n - 1)
  }

  // The n bits at position p as a number, first bit most significant: the order of Huffman codes.
  ghost function Peek(input: seq<byte>, p: nat, n: nat): nat
  {
    if n == 0 then 0 else 2 * Peek(input, p, n - 1) + Bit(input, p + n - 1)
  }

  // The low n bits of v in reverse order.
  function Rev(v: nat, n: nat): nat
    decreases n
  {
    if n == 0 then 0 else (v % 2) * Pow2(n - 1) + Rev(v / 2, n - 1)
  }

  // The first n bits of both streams are the same.
  ghost predicate Agree(a: seq<byte>, b: seq<byte>, n: nat) {
    forall k: nat :: k < n ==> Bit(a, k) == Bit(b, k)
  }

  lemma AgreeLess(a: seq<byte>, b: seq<byte>, m: nat, n: nat)
    requires Agree(a, b, n) && m <= n
    ensures Agree(a, b, m)
  {}

  lemma AgreeTrans(a: seq<byte>, b: seq<byte>, c: seq<byte>, m: nat, n: nat)
    requires Agree(a, b, m) && Agree(b, c, n) && m <= n
    ensures Agree(a, c, m)
  {
    hide Bit;
  }

  // ---------- windows ----------

  lemma EmptyWindow(input: seq<byte>, p: nat)
    ensures Window(input, p, 0) == 0
  {}

  lemma {:induction false} WindowBound(input: seq<byte>, p: nat, n: nat)
    ensures Window(input, p, n) < Pow2(n)
    decreases n
  {
    if n > 0 { WindowBound(input, p + 1, n - 1); }
  }

  lemma {:induction false} WindowSplit(input: seq<byte>, p: nat, m: nat, n: nat)
    ensures Window(input, p, m + n) == Window(input, p, m) + Pow2(m) * Window(input, p + m, n)
    decreases m
  {
    hide *;
    WindowStep(input, p, m + n);
    WindowStep(input, p, m);
    TimesPow(Window(input, p + m, n), m);
    Commute(Window(input, p + m, n), Pow2(m));
    if m > 0 {
      Commute(Window(input, p + m, n), Pow2(m - 1));
      WindowSplit(input, p + 1, m - 1, n);
    }
  }

  lemma Commute(x: int, y: int)
    ensures x * y == y * x
  {}

  // Masking keeps the first m bits, shifting drops them.
  lemma WindowMaskShift(input: seq<byte>, p: nat, m: nat, n: nat)
    requires m <= n
    ensures Window(input, p, n) % Pow2(m) == Window(input, p, m)
    ensures Window(input, p, n) / Pow2(m) == Window(input, p + m, n - m)
  {
    hide Window, Pow2;
    WindowSplit(input, p, m, n - m);
    WindowBound(input, p, m);
    DivModUnique(Window(input, p, n), Pow2(m), Window(input, p + m, n - m), Window(input, p, m));
  }

  lemma {:induction false} WindowAgree(a: seq<byte>, b: seq<byte>, n: nat, p: nat, m: nat)
    requires Agree(a, b, n) && p + m <= n
    ensures Window(a, p, m) == Window(b, p, m)
    decreases m
  {
    if m > 0 { WindowAgree(a, b, n, p + 1, m - 1); }
  }

  lemma {:induction false} PeekAgree(a: seq<byte>, b: seq<byte>, n: nat, p: nat, m: nat)
    requires Agree(a, b, n) && p + m <= n
    ensures Peek(a, p, m) == Peek(b, p, m)
    decreases m
  {
    if m > 0 { PeekAgree(a, b, n, p, m - 1); }
  }

  lemma {:induction false} PastEndIsZero(input: seq<byte>, p: nat, n: nat)
    requires 8 * |input| <= p
    ensures Window(input, p, n) == 0
    decreases n
  {
    if n > 0 { PastEndIsZero(input, p + 1, n - 1); }
  }

  // Nothing but zero bits from p on.
  ghost predicate ZerosFrom(input: seq<byte>, p: int) {
    forall k: nat :: k >= p ==> Bit(input, k) == 0
  }

  lemma ZerosLater(input: seq<byte>, p: int, q: int)
    requires ZerosFrom(input, p) && p <= q
    ensures ZerosFrom(input, q)
  {}

  lemma {:induction false} ZeroWindow(input: seq<byte>, p: nat, n: nat)
    requires ZerosFrom(input, p)
    ensures Window(input, p, n) == 0 && Peek(input, p, n) == 0
    decreases n
  {
    if n > 0 {
      ZeroWindow(input, p, n - 1);
      assert ZerosFrom(input, p + 1);
      ZeroWindow(input, p + 1, n - 1);
    }
  }

  lemma {:induction false} WindowZero(input: seq<byte>, p: nat, n: nat, k: nat)
    requires Window(input, p, n) == 0 && k < n
    ensures Bit(input, p + k) == 0
    decreases n
  {
    if k > 0 { WindowZero(input, p + 1, n - 1, k - 1); }
  }

  // If the window is zero and reaches the end of the input, only zero bits follow.
  lemma ZeroTail(input: seq<byte>, p: nat, n: nat)
    requires Window(input, p, n) == 0 && 8 * |input| <= p + n
    ensures ZerosFrom(input, p)
  {
    hide Window;
    forall k: nat | k >= p ensures Bit(input, k) == 0 {
      if k < p + n { WindowZero(input, p, n, k - p); }
    }
  }

  lemma BitAt(input: seq<byte>, f: nat, i: nat)
    requires i < 8
    ensures Bit(input, 8 * f + i) == if f < |input| then BitOf(input[f], i) else 0
  {
    assert (8 * f + i) / 8 == f;
  }

  lemma NextBit(v: nat, i: nat, n: nat)
    ensures v / Pow2(i) % Pow2(n + 1) == BitOf(v, i) + 2 * (v / Pow2(i + 1) % Pow2(n))
  {
    DivPow2Div(v, i, 1);
    assert Pow2(1) == 2;
    HalveMod(v / Pow2(i), n + 1);
  }

  // Bits i to i + n - 1 of byte f.
  lemma {:induction false} BitsOfByte(input: seq<byte>, f: nat, i: nat, n: nat)
    requires f < |input| && i + n <= 8
    ensures Window(input, 8 * f + i, n) == input[f] / Pow2(i) % Pow2(n)
    decreases n
  {
    hide *;
    WindowStep(input, 8 * f + i, n);
    if n > 0 {
      BitsOfByte(input, f, i + 1, n - 1);
      BitAt(input, f, i);
      NextBit(input[f], i, n - 1);
    } else {
      ModOne(input[f] / Pow2(i));
    }
  }

  lemma WindowStep(input: seq<byte>, p: nat, n: nat)
    ensures Window(input, p, n) == if n == 0 then 0 else Bit(input, p) + 2 * Window(input, p + 1, n - 1)
  {}

  lemma ModOne(v: int)
    ensures v % Pow2(0) == 0
  {}

  lemma HalveMod(w: nat, n: nat)
    requires n > 0
    ensures w % Pow2(n) == w % 2 + 2 * (w / 2 % Pow2(n - 1))
  {
    var q, r := w / 2 / Pow2(n - 1), w / 2 % Pow2(n - 1);
    assert w == 2 * (q * Pow2(n - 1) + r) + w % 2;
    assert 2 * (q * Pow2(n - 1)) == q * Pow2(n);
    DivModUnique(w, Pow2(n), q, 2 * r + w % 2);
  }

  lemma WholeByte(v: nat)
    requires v < 256
    ensures v / Pow2(0) % Pow2(8) == v
  {
    assert Pow2(8) == 256 by { Pow2Values(); }
    DivModUnique(v, 256, 0, v);
  }

  // Eight bits from a byte boundary are the byte itself, or zero past the end.
  lemma ByteWindow(input: seq<byte>, f: nat)
    ensures Window(input, 8 * f, 8) == if f < |input| then input[f] else 0
  {
    hide *;
    if f < |input| {
      BitsOfByte(input, f, 0, 8);
      var v: nat := input[f];
      assert v / Pow2(0) % Pow2(8) == v by { WholeByte(v); }
    } else {
      PastEndIsZero(input, 8 * f, 8);
    }
  }

  // ---------- most significant bit first ----------

  lemma {:induction false} PeekBound(input: seq<byte>, p: nat, n: nat)
    ensures Peek(input, p, n) < Pow2(n)
  {
    if n > 0 { PeekBound(input, p, n - 1); }
  }

  lemma {:induction false} PeekSplit(input: seq<byte>, p: nat, m: nat, n: nat)
    ensures Peek(input, p, m + n) == Peek(input, p, m) * Pow2(n) + Peek(input, p + m, n)
  {
    hide *;
    PeekStep(input, p, m + n);
    PeekStep(input, p + m, n);
    TimesPow(Peek(input, p, m), n);
    if n > 0 { PeekSplit(input, p, m, n - 1); }
  }

  lemma PeekStep(input: seq<byte>, p: nat, n: nat)
    ensures Peek(input, p, n) == if n == 0 then 0 else 2 * Peek(input, p, n - 1) + Bit(input, p + n - 1)
  {}

  lemma TimesPow(x: nat, n: nat)
    ensures x * Pow2(n) == if n == 0 then x else 2 * (x * Pow2(n - 1))
  {
    if n > 0 { DoubleRight(x, Pow2(n - 1)); }
  }

  lemma DoubleRight(x: int, y: int)
    ensures x * (2 * y) == 2 * (x * y)
  {}

  lemma PeekPrefix(input: seq<byte>, p: nat, m: nat, n: nat)
    requires m <= n
    ensures Peek(input, p, n) / Pow2(n - m) == Peek(input, p, m)
  {
    PeekSplit(input, p, m, n - m);
    PeekBound(input, p + m, n - m);
    DivModUnique(Peek(input, p, n), Pow2(n - m), Peek(input, p, m), Peek(input, p + m, n - m));
  }

  // ---------- bit reversal ----------

  lemma {:induction false} RevBound(v: nat, n: nat)
    ensures Rev(v, n) < Pow2(n)
    decreases n
  {
    if n > 0 { RevBound(v / 2, n - 1); }
  }

  // Reversing the window turns stream order into code order.
  lemma {:induction false} RevWindow(input: seq<byte>, p: nat, n: nat)
    ensures Rev(Window(input, p, n), n) == Peek(input, p, n)
    decreases n
  {
    hide *;
    WindowStep(input, p, n);
    RevStep(Window(input, p, n), n);
    PeekStep(input, p, n);
    if n > 0 {
      RevWindow(input, p + 1, n - 1);
      PeekSplit(input, p, 1, n - 1);
      PeekStep(input, p, 1);
      PeekStep(input, p, 0);
    }
  }

  lemma RevStep(v: nat, n: nat)
    ensures Rev(v, n) == if n == 0 then 0 else (v % 2) * Pow2(n - 1) + Rev(v / 2, n - 1)
  {}

  lemma {:induction false} RevTop(b: nat, x: nat, n: nat)
    requires b <= 1 && x < Pow2(n)
    ensures Rev(b * Pow2(n) + x, n + 1) == 2 * Rev(x, n) + b
    decreases n
  {
    var v := b * Pow2(n) + x;
    if n == 0 {
      assert Rev(v, 1) == (v % 2) * Pow2(0) + Rev(v / 2, 0);
    } else {
      assert v % 2 == x % 2 && v / 2 == b * Pow2(n - 1) + x / 2;
      RevTop(b, x / 2, n - 1);
      assert (v % 2) * Pow2(n) == 2 * ((x % 2) * Pow2(n - 1));
    }
  }

  lemma {:induction false} RevRev(v: nat, n: nat)
    requires v < Pow2(n)
    ensures Rev(Rev(v, n), n) == v
    decreases n
  {
    if n > 0 {
      RevRev(v / 2, n - 1);
      RevBound(v / 2, n - 1);
      RevTop(v % 2, Rev(v / 2, n - 1), n - 1);
    }
  }

  // A code is next in the stream exactly when its reversal is the next window.
  lemma CodeInWindow(input: seq<byte>, p: nat, c: nat, n: nat)
    requires c < Pow2(n)
    ensures Peek(input, p, n) == c <==> Window(input, p, n) == Rev(c, n)
  {
    RevWindow(input, p, n);
    WindowBound(input, p, n);
    RevRev(Window(input, p, n), n);
    RevRev(c, n);
  }
}

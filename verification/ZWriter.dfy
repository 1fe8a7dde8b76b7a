// The compressor's output: a growing byte buffer and up to seven bits not yet written.
module BitWriter {
  import opened Words
  import opened BitStream
  import opened BitTricks
  import opened CanonicalCode
  import opened ZlibFormat
  import opened FixedCodes

  // The n low bytes of v, least significant first.
  ghost function LittleBytes(v: nat, n: nat): (s: seq<byte>)
    ensures |s| == n
    decreases n
  {
    if n == 0 then [] else [v % 256] + LittleBytes(v / 256, n - 1)
  }

  lemma {:induction false} LittleBytesGrow(v: nat, n: nat)
    requires v < Pow2(8 * n)
    ensures LittleBytes(v, n + 1) == LittleBytes(v, n) + [0]
    decreases n
  {
    if n == 0 {
      assert Pow2(0) == 1;
      assert LittleBytes(0, 0) == [] && LittleBytes(0, 1) == [0];
    } else {
      EightBits(v, n);
      LittleBytesGrow(v / 256, n - 1);
    }
  }

  lemma EightBits(v: nat, n: nat)
    requires n > 0 && v < Pow2(8 * n)
    ensures v / 256 < Pow2(8 * (n - 1))
  {
    Pow2Add(8, 8 * (n - 1));
    assert Pow2(8) == 256 by { Pow2Values(); }
    hide Pow2;
  }

  // The bytes of a number, read back as one window.
  lemma {:induction false} LittleBytesWindow(out: seq<byte>, v: nat, n: nat)
    requires v < Pow2(8 * n)
    ensures Window(out + LittleBytes(v, n), 8 * |out|, 8 * n) == v
    decreases n
  {
    hide Window, Pow2;
    var w := out + LittleBytes(v, n);
    if n == 0 {
      assert v == 0 && Window(w, 8 * |out|, 0) == 0 by { WindowBelow(w, 8 * |out|, v); }
    } else {
      EightBits(v, n);
      var out' := out + [v % 256];
      assert LittleBytes(v, n) == [v % 256] + LittleBytes(v / 256, n - 1);
      LittleBytesWindow(out', v / 256, n - 1);
      assert w == out' + LittleBytes(v / 256, n - 1);
      WindowSplit(w, 8 * |out|, 8, 8 * (n - 1));
      ByteWindow(w, |out|);
      assert Pow2(8) == 256 by { Pow2Values(); }
    }
  }

  lemma WindowBelow(w: seq<byte>, p: nat, v: nat)
    requires v < Pow2(0)
    ensures v == 0 && Window(w, p, 0) == 0
  {}

  // Appending bytes changes no bit before them.
  lemma AppendAgrees(a: seq<byte>, b: seq<byte>)
    ensures Agree(a, a + b, 8 * |a|)
  {
    hide BitOf;
    forall k: nat | k < 8 * |a| ensures Bit(a, k) == Bit(a + b, k) {
      assert k / 8 < |a|;
    }
  }

  // Appending zero bytes changes no bit at all.
  lemma ZeroByteAgrees(a: seq<byte>, n: nat)
    ensures Agree(a, a + [0], n)
  {
    hide Pow2;
    forall k: nat | k < n ensures Bit(a, k) == Bit(a + [0], k) {
      if k / 8 == |a| { ZeroBit(k % 8); }
    }
  }

  // Equal windows hold equal bits.
  lemma {:induction false} SameWindow(a: seq<byte>, b: seq<byte>, p: nat, n: nat, k: nat)
    requires Window(a, p, n) == Window(b, p, n) && p <= k < p + n
    ensures Bit(a, k) == Bit(b, k)
    decreases n
  {
    hide *;
    WindowStep(a, p, n);
    WindowStep(b, p, n);
    if p < k { SameWindow(a, b, p + 1, n - 1, k); }
  }

  class ZWriter {
    var out: seq<byte>
    var cap: nat
    var bitbuf: nat
    var bitcount: nat

    constructor ()
      ensures Valid() && out == [] && bitcount == 0
    {
      out, cap, bitbuf, bitcount := [], 0, 0, 0;
    }

    ghost predicate Ok()
      reads this
    {
      |out| <= cap && bitcount <= 24 && bitbuf < Pow2(bitcount)
    }

    ghost predicate Valid()
      reads this
    {
      Ok() && bitcount <= 7
    }

    // Everything written so far, the unfinished byte included.
    ghost function Bytes(): seq<byte>
      reads this
    {
      out + LittleBytes(bitbuf, 4)
    }

    ghost function BitLength(): nat
      reads this
    {
      8 * |out| + bitcount
    }

    method Push(b: byte)
      requires |out| <= cap
      modifies `out, `cap
      ensures out == old(out) + [b] && |out| <= cap && old(cap) <= cap
    {
      if cap == 0 {
        cap := 2;
      } else if |out| + 1 >= cap {
        cap := 2 * cap + 1;
      }
      out := out + [b];
    }

    lemma SmallBuffer()
      requires Ok()
      ensures bitbuf < Pow2(32)
    {
      Pow2Mono(bitcount, 32);
    }

    lemma ByteOut()
      requires Ok() && bitcount >= 8
      ensures bitbuf / 256 < Pow2(bitcount - 8)
      ensures out + [bitbuf % 256] + LittleBytes(bitbuf / 256, 4) == Bytes() + [0]
    {
      hide Pow2;
      assert Pow2(8) == 256 by { Pow2Values(); }
      Pow2Add(8, bitcount - 8);
      SmallBuffer();
      EightBits(bitbuf, 4);
      LittleBytesGrow(bitbuf / 256, 3);
      assert LittleBytes(bitbuf, 4) == [bitbuf % 256] + LittleBytes(bitbuf / 256, 3);
    }

    // Moves whole bytes from the bit buffer to the output.
    method Flush()
      requires Ok()
      modifies this
      ensures Valid() && BitLength() == old(BitLength()) && old(cap) <= cap
      ensures Agree(old(Bytes()), Bytes(), BitLength())
      ensures old(out) <= out
    {
      hide Pow2, LittleBytes, Agree;
      ghost var w, n := Bytes(), BitLength();
      AgreeRefl(w, n);
      while bitcount >= 8
        invariant Ok() && BitLength() == n && Agree(w, Bytes(), n) && old(cap) <= cap
        invariant old(out) <= out
        decreases bitcount
      {
        ghost var before := Bytes();
        ByteOut();
        ZeroByteAgrees(before, n);
        Push(bitbuf % 256);
        bitbuf := bitbuf / 256;
        bitcount := bitcount - 8;
        AgreeTrans(w, before, Bytes(), n, n);
      }
    }

    lemma AgreeRefl(a: seq<byte>, n: nat)
      ensures Agree(a, a, n)
    {}

    lemma BufferWindow()
      requires Ok()
      ensures Window(Bytes(), 8 * |out|, 32) == bitbuf
    {
      SmallBuffer();
      LittleBytesWindow(out, bitbuf, 4);
    }

    // Appends the low n bits of code, least significant first.
    method Add(code: nat, n: nat)
      requires Valid() && n <= 13 && code < Pow2(n)
      modifies this
      ensures Valid() && BitLength() == old(BitLength()) + n && old(cap) <= cap
      ensures Agree(old(Bytes()), Bytes(), old(BitLength()))
      ensures Window(Bytes(), old(BitLength()), n) == code
      ensures old(out) <= out
    {
      hide Pow2, Window, Agree, Or, Shl, LittleBytes;
      ghost var w0, n0, v0, k := Bytes(), BitLength(), bitbuf, bitcount;
      BufferWindow();
      OrShifted(bitbuf, code, bitcount);
      AddedBits(bitbuf, bitcount, code, n);
      bitbuf := Or(bitbuf, Shl(code, bitcount));
      bitcount := bitcount + n;
      BufferWindow();
      ghost var w1 := Bytes();
      Appended(w0, w1, out, v0, bitbuf, k, code, n);
      Flush();
      AgreeLess(w1, Bytes(), n0, BitLength());
      AgreeTrans(w0, w1, Bytes(), n0, n0);
      WindowAgree(w1, Bytes(), BitLength(), n0, n);
    }

    lemma AddedBits(v: nat, k: nat, code: nat, n: nat)
      requires v < Pow2(k) && code < Pow2(n)
      ensures v + Shl(code, k) < Pow2(k + n)
      ensures (v + Shl(code, k)) % Pow2(k) == v && (v + Shl(code, k)) / Pow2(k) == code
    {
      CatBound(v, k, code, n);
      DivModUnique(v + Shl(code, k), Pow2(k), code, v);
    }

    lemma Appended(w0: seq<byte>, w1: seq<byte>, out: seq<byte>, v0: nat, v1: nat, k: nat, code: nat, n: nat)
      requires out <= w0 && out <= w1 && k + n <= 32
      requires Window(w0, 8 * |out|, 32) == v0 && Window(w1, 8 * |out|, 32) == v1
      requires v0 < Pow2(k) && v1 % Pow2(k) == v0 && v1 / Pow2(k) == code < Pow2(n)
      ensures Agree(w0, w1, 8 * |out| + k)
      ensures Window(w1, 8 * |out| + k, n) == code
    {
      hide Pow2, Window, Bit;
      var p := 8 * |out|;
      WindowMaskShift(w0, p, k, 32);
      WindowMaskShift(w1, p, k, 32);
      DivModUnique(v0, Pow2(k), 0, v0);
      assert w0 == out + w0[|out|..] && w1 == out + w1[|out|..];
      AppendAgrees(out, w0[|out|..]);
      AppendAgrees(out, w1[|out|..]);
      forall b: nat | b < p + k ensures Bit(w0, b) == Bit(w1, b) {
        if b >= p {
          SameWindow(w0, w1, p, k, b);
        } else {
          assert Bit(out, b) == Bit(w0, b) && Bit(out, b) == Bit(w1, b);
        }
      }
      WindowMaskShift(w1, p + k, n, 32 - k);
      DivModUnique(code, Pow2(n), 0, code);
    }

    // The bits of a code in stream order.
    static method BitRev(code: nat, codebits: nat) returns (res: nat)
      ensures res == Rev(code, codebits)
    {
      hide Rev, Pow2, Shl;
      res := 0;
      var c, n := code, codebits;
      ShlOfZero(codebits);
      while n > 0
        invariant Rev(code, codebits) == Shl(res, n) + Rev(c, n)
        decreases n
      {
        RevNext(res, c, n);
        res := 2 * res + c % 2;
        c := c / 2;
        n := n - 1;
      }
      RevOfNone(res, c);
    }

    static lemma RevOfNone(x: nat, c: nat)
      ensures Shl(x, 0) == x && Rev(c, 0) == 0
    {}

    static lemma RevNext(res: nat, c: nat, n: nat)
      requires n > 0
      ensures Shl(res, n) + Rev(c, n) == Shl(2 * res + c % 2, n - 1) + Rev(c / 2, n - 1)
    {
      Distribute(2 * res, c % 2, Pow2(n - 1));
      MulAssoc(res, 2, Pow2(n - 1));
    }

    // Appends a Huffman code, most significant bit first.
    method HuffA(code: nat, codebits: nat)
      requires Valid() && codebits <= 13 && code < Pow2(codebits)
      modifies this
      ensures Valid() && BitLength() == old(BitLength()) + codebits && old(cap) <= cap
      ensures Agree(old(Bytes()), Bytes(), old(BitLength()))
      ensures Peek(Bytes(), old(BitLength()), codebits) == code
      ensures old(out) <= out
    {
      hide Pow2, Window, Agree, Rev, Peek;
      var r := BitRev(code, codebits);
      RevBound(code, codebits);
      Add(r, codebits);
      CodeInWindow(Bytes(), old(BitLength()), code, codebits);
    }

    // Appends the fixed code of literal/length symbol n.
    method Huff(n: nat)
      requires Valid() && n < 288
      modifies this
      ensures Valid() && BitLength() == old(BitLength()) + FixedLengths()[n] && old(cap) <= cap
      ensures Agree(old(Bytes()), Bytes(), old(BitLength()))
      ensures SymbolAt(FixedLengths(), Bytes(), old(BitLength()), n)
      ensures old(out) <= out
    {
      hide Pow2, Agree, Peek, Code;
      FixedCodeIsCanonical(n);
      if n <= 143 {
        HuffA(0x30 + n, 8);
      } else if n <= 255 {
        HuffA(0x190 + n - 144, 9);
      } else if n <= 279 {
        HuffA(0 + n - 256, 7);
      } else {
        HuffA(0xC0 + n - 280, 8);
      }
    }

    // Appends the fixed code of distance symbol n.
    method HuffDistance(n: nat)
      requires Valid() && n < 32
      modifies this
      ensures Valid() && BitLength() == old(BitLength()) + 5 && old(cap) <= cap
      ensures Agree(old(Bytes()), Bytes(), old(BitLength()))
      ensures SymbolAt(FixedDistances(), Bytes(), old(BitLength()), n)
      ensures old(out) <= out
    {
      hide Pow2, Agree, Peek, Code;
      DistanceCodeIsCanonical(n);
      assert Pow2(5) == 32 by { Pow2Values(); }
      HuffA(n, 5);
    }
  }
}

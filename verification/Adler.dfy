// The Adler-32 checksum (section 8.2 of RFC 1950) and the blocked loop that computes it.
module Adler {
  import opened Words

  const ADLER_BASE := 65521
  const BLOCK := 5552

  // One plus the sum of the first n bytes.
  ghost function SumA(data: seq<byte>, n: nat): nat
    requires n <= |data|
  {
    if n == 0 then 1 else (SumA(data, n - 1) + data[n - 1]) % ADLER_BASE
  }

  // The sum of the running values of the first sum.
  ghost function SumB(data: seq<byte>, n: nat): nat
    requires n <= |data|
  {
    if n == 0 then 0 else (SumB(data, n - 1) + SumA(data, n)) % ADLER_BASE
  }

  // The sum of the first k bytes.
  ghost function ByteSum(data: seq<byte>, k: nat): nat
    requires k <= |data|
  {
    if k == 0 then 0 else ByteSum(data, k - 1) + data[k - 1]
  }

  // The sum of the first k bytes, byte i counted n - i times.
  ghost function WeightedSum(data: seq<byte>, n: nat, k: nat): nat
    requires k <= |data| && k <= n
  {
    if k == 0 then 0 else WeightedSum(data, n, k - 1) + (n - (k - 1)) * data[k - 1]
  }

  lemma {:induction false} OneWeightMore(data: seq<byte>, n: nat, k: nat)
    requires k <= |data| && k <= n
    ensures WeightedSum(data, n + 1, k) == WeightedSum(data, n, k) + ByteSum(data, k)
  {
    if k > 0 {
      OneWeightMore(data, n, k - 1);
      Distribute(n - (k - 1), 1, data[k - 1]);
    }
  }

  // The running values are the sums over all bytes, reduced once.
  lemma {:induction false} SumsReducedOnce(data: seq<byte>, n: nat)
    requires n <= |data|
    ensures SumA(data, n) == (1 + ByteSum(data, n)) % 65521
    ensures SumB(data, n) == (n + WeightedSum(data, n, n)) % 65521
  {
    if n > 0 {
      SumsReducedOnce(data, n - 1);
      OneWeightMore(data, n - 1, n - 1);
      ModAdd(1 + ByteSum(data, n - 1), SumA(data, n - 1), data[n - 1]);
      ModAdd(n - 1 + WeightedSum(data, n - 1, n - 1), SumB(data, n - 1), SumA(data, n));
      ModAdd(1 + ByteSum(data, n), SumA(data, n), n - 1 + WeightedSum(data, n - 1, n - 1));
    }
  }

  // The checksum, its second sum first, each most significant byte first.
  ghost predicate Trailer(data: seq<byte>, bytes: seq<byte>) {
    |bytes| == 4 &&
    var b0: nat, b1: nat, b2: nat, b3: nat := bytes[0], bytes[1], bytes[2], bytes[3];
    && 256 * b0 + b1 == (|data| + WeightedSum(data, |data|, |data|)) % 65521
    && 256 * b2 + b3 == (1 + ByteSum(data, |data|)) % 65521
  }

  lemma SumsBound(data: seq<byte>, n: nat)
    requires n <= |data|
    ensures SumA(data, n) < ADLER_BASE && SumB(data, n) < ADLER_BASE
  {}

  lemma ModAdd(x: nat, y: nat, z: nat)
    requires x % ADLER_BASE == y
    ensures (x + z) % ADLER_BASE == (y + z) % ADLER_BASE
  {}

  // Deferring the reduction for up to 5552 bytes cannot overflow 32 bits.
  lemma DeferredBound(i: nat)
    requires i <= BLOCK
    ensures 65520 + 255 * i <= UINT_MAX
    ensures 65520 * (i + 1) + 255 * (i * (i + 1) / 2) <= UINT_MAX
  {
    assert i * (i + 1) <= BLOCK * (BLOCK + 1) by {
      MulMono(i, BLOCK, i + 1);
      MulMono(i + 1, BLOCK + 1, BLOCK);
    }
  }

  lemma NextDeferred(i: nat, s1: nat, s2: nat)
    requires s1 <= 65520 + 255 * (i + 1)
    requires s2 <= 65520 * (i + 1) + 255 * (i * (i + 1) / 2)
    ensures s2 + s1 <= 65520 * (i + 2) + 255 * ((i + 1) * (i + 2) / 2)
  {
    assert (i + 1) * (i + 2) == i * (i + 1) + 2 * (i + 1);
  }

  // The sums over data[..j + n], from the reduced sums over data[..j].
  method AddBlock(data: seq<byte>, j: nat, n: nat, a: nat, b: nat) returns (s1: nat, s2: nat)
    requires j + n <= |data| && n <= BLOCK && a == SumA(data, j) && b == SumB(data, j)
    ensures s1 % ADLER_BASE == SumA(data, j + n) && s2 % ADLER_BASE == SumB(data, j + n)
    ensures s1 <= UINT_MAX && s2 <= UINT_MAX
  {
    hide SumA, SumB;
    s1, s2 := a, b;
    SumsBound(data, j);
    DeferredBound(0);
    for i := 0 to n
      invariant s1 % ADLER_BASE == SumA(data, j + i) && s2 % ADLER_BASE == SumB(data, j + i)
      invariant s1 <= 65520 + 255 * i && s2 <= 65520 * (i + 1) + 255 * (i * (i + 1) / 2)
      invariant s1 <= UINT_MAX && s2 <= UINT_MAX
    {
      DeferredBound(i + 1);
      SumStep(data, j + i, s1, s2);
      s1 := s1 + data[j + i];
      NextDeferred(i, s1, s2);
      s2 := s2 + s1;
    }
  }

  lemma SumStep(data: seq<byte>, n: nat, s1: nat, s2: nat)
    requires n < |data| && s1 % ADLER_BASE == SumA(data, n) && s2 % ADLER_BASE == SumB(data, n)
    ensures (s1 + data[n]) % ADLER_BASE == SumA(data, n + 1)
    ensures (s2 + (s1 + data[n])) % ADLER_BASE == SumB(data, n + 1)
  {
    var t := s1 + data[n];
    ModAdd(s1, SumA(data, n), data[n]);
    ModAdd(s2, SumB(data, n), t);
    ModAdd(t, SumA(data, n + 1), SumB(data, n));
  }

  // The first block takes the odd bytes, every later one is full.
  method Adler32(data: seq<byte>) returns (trailer: seq<byte>)
    ensures Trailer(data, trailer)
    ensures |trailer| == 4
    ensures trailer[0] as int * 256 + trailer[1] as int == (|data| + WeightedSum(data, |data|, |data|)) % 65521
    ensures trailer[2] as int * 256 + trailer[3] as int == (1 + ByteSum(data, |data|)) % 65521
  {
    hide SumA, SumB, ByteSum, WeightedSum;
    var s1, s2 := 1, 0;
    var blocklen := |data| % BLOCK;
    var j := 0;
    SumStart(data);
    while j < |data|
      invariant j <= |data| && s1 == SumA(data, j) && s2 == SumB(data, j)
      invariant blocklen <= BLOCK && (j + blocklen <= |data| || j == |data|)
      invariant blocklen == BLOCK || j == 0
      invariant (|data| - j - blocklen) % BLOCK == 0
      decreases |data| - j, BLOCK - blocklen
    {
      s1, s2 := AddBlock(data, j, blocklen, s1, s2);
      s1, s2 := s1 % ADLER_BASE, s2 % ADLER_BASE;
      j := j + blocklen;
      blocklen := BLOCK;
    }
    SumsBound(data, |data|);
    SumsReducedOnce(data, |data|);
    trailer := [s2 / 256, s2 % 256, s1 / 256, s1 % 256];
  }

  lemma SumStart(data: seq<byte>)
    ensures SumA(data, 0) == 1 && SumB(data, 0) == 0
  {}
}

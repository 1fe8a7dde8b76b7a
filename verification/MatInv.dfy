// Solving linear systems and inverting matrices by LU decomposition.
module MatInv {
  import opened Words
  import opened Linear
  import opened LuSpec
  import opened LuDecomp

  // ---------- the factors and a vector ----------

  // Row m of the upper factor times x.
  ghost function UpperTimes(f: seq<real>, n: nat, m: nat, x: seq<real>): real {
    Sum((c: nat) => Upper(f, n, m, c) * Get(x, c), n)
  }

  // Multiplying by the product of the factors is multiplying by one after the other.
  lemma FactorsInTurn(f: seq<real>, n: nat, i: nat, x: seq<real>)
    requires i < n
    ensures Sum((c: nat) => LuEntry(f, n, i, c) * Get(x, c), n)
         == Sum((m: nat) => Lower(f, n, i, m) * UpperTimes(f, n, m, x), n)
  {
    hide Lower, Upper, LuEntry, Get;
    var g := (m: nat, c: nat) => Lower(f, n, i, m) * (Upper(f, n, m, c) * Get(x, c));
    var rows := (m: nat) => Lower(f, n, i, m) * UpperTimes(f, n, m, x);
    var cols := (c: nat) => LuEntry(f, n, i, c) * Get(x, c);
    forall m | 0 <= m < n ensures rows(m) == Sum((c: nat) => g(m, c), n) {
      SumScale(Lower(f, n, i, m), (c: nat) => Upper(f, n, m, c) * Get(x, c), (c: nat) => g(m, c), n);
    }
    forall c | 0 <= c < n ensures cols(c) == Sum((m: nat) => g(m, c), n) {
      LuEntryIsProduct(f, n, i, c);
      var h := (m: nat) => Lower(f, n, i, m) * Upper(f, n, m, c);
      SumEq((m: nat) => Lower(f, n, i, m) * Upper(f, n, m, c), h, n);
      SumScale(Get(x, c), h, (m: nat) => g(m, c), n);
    }
    SumSwap(g, rows, cols, n, n);
    SumEq(rows, (m: nat) => Lower(f, n, i, m) * UpperTimes(f, n, m, x), n);
    SumEq(cols, (c: nat) => LuEntry(f, n, i, c) * Get(x, c), n);
  }

  // ---------- a zero pivot ----------

  // Back substitution for the column j of a matrix whose first j pivots are not zero: a vector with a
  // one at j, zeros behind it, and no image under rows k to j of the upper factor.
  lemma {:induction false} KernelVector(f: seq<real>, n: nat, j: nat, k: nat) returns (y: seq<real>)
    requires k <= j < n && At(f, n, j, j) == 0.0 && forall c: nat :: c < j ==> At(f, n, c, c) != 0.0
    ensures |y| == n && y[j] == 1.0 && (forall c :: j < c < n ==> y[c] == 0.0)
    ensures forall m: nat :: k <= m < n ==> UpperTimes(f, n, m, y) == 0.0
    decreases j - k
  {
    hide At;
    if k == j {
      y := seq(n, i => if i == j then 1.0 else 0.0);
      forall m: nat | j <= m < n ensures UpperTimes(f, n, m, y) == 0.0 {
        SumZero((c: nat) => Upper(f, n, m, c) * Get(y, c), n);
      }
    } else {
      var z := KernelVector(f, n, j, k + 1);
      var s := UpperTimes(f, n, k, z);
      var d := At(f, n, k, k);
      y := z[k := z[k] - s / d];
      forall m: nat | k <= m < n ensures UpperTimes(f, n, m, y) == 0.0 {
        UpperUpdated(f, n, m, z, k, z[k] - s / d);
        if m == k {
          assert d * (s / d) == s;
        }
      }
    }
  }

  // Changing entry k of a vector.
  lemma UpperUpdated(f: seq<real>, n: nat, m: nat, z: seq<real>, k: nat, v: real)
    requires |z| == n && k < n
    ensures UpperTimes(f, n, m, z[k := v]) == UpperTimes(f, n, m, z) + Upper(f, n, m, k) * (v - z[k])
  {
    hide At, Upper;
    var y := z[k := v];
    var old_ := (c: nat) => Upper(f, n, m, c) * Get(z, c);
    var diff := (c: nat) => if c == k then Upper(f, n, m, k) * (v - z[k]) else 0.0;
    var new_ := (c: nat) => Upper(f, n, m, c) * Get(y, c);
    forall c: nat | c < n ensures new_(c) == old_(c) + diff(c) {
      if c == k {
        var u := Upper(f, n, m, k);
        assert u * v == u * z[k] + u * (v - z[k]);
      }
    }
    SumAdd(old_, diff, new_, n);
    SumOne(diff, k, n);
    SumEq(old_, (c: nat) => Upper(f, n, m, c) * Get(z, c), n);
    SumEq(new_, (c: nat) => Upper(f, n, m, c) * Get(y, c), n);
  }

  // If no row from j down has a non-zero entry in column j, the matrix has a kernel.
  lemma ZeroPivotSingular(a: seq<real>, f: seq<real>, f1: seq<real>, f2: seq<real>, n: nat, p: seq<nat>, j: nat)
    requires j < n && Factored(a, f, n, p, j) && UpperDone(f, f1, n, j, j) && LowerDone(f1, f2, n, j, n)
    requires forall i: nat :: j <= i < n ==> At(f2, n, i, j) == 0.0
    ensures Singular(a, n)
  {
    hide At, LuEntry, Get, InKernel;
    forall i: nat, c: nat | i < n && c <= j ensures LuEntry(f2, n, i, c) == At(a, n, p[i], c) {
      KeptColumn(a, f, f1, f2, n, p, j, i, c);
    }
    var y := KernelVector(f2, n, j, 0);
    forall r: nat | r < n ensures RowTimes(a, n, r, y) == 0.0 {
      assert r in p;
      var i :| 0 <= i < n && p[i] == r;
      KernelRow(a, f2, n, p, j, i, y);
    }
    KernelMeansSingular(a, n, y, j);
  }

  lemma KernelMeansSingular(a: seq<real>, n: nat, y: seq<real>, j: nat)
    requires |y| == n && j < n && y[j] != 0.0 && forall i: nat :: i < n ==> RowTimes(a, n, i, y) == 0.0
    ensures Singular(a, n)
  {
    assert InKernel(a, n, y);
  }

  lemma KeptColumn(a: seq<real>, f: seq<real>, f1: seq<real>, f2: seq<real>, n: nat, p: seq<nat>, j: nat, i: nat, c: nat)
    requires j < n && Factored(a, f, n, p, j) && UpperDone(f, f1, n, j, j) && LowerDone(f1, f2, n, j, n)
    requires forall i: nat :: j <= i < n ==> At(f2, n, i, j) == 0.0
    requires i < n && c <= j
    ensures LuEntry(f2, n, i, c) == At(a, n, p[i], c)
  {
    hide At, Half;
    if c < j {
      HalfEq(f2, f, n, i, i, c, Min(i, c));
      assert LuEntry(f2, n, i, c) == LuEntry(f, n, i, c);
    } else {
      NewColumn(f, f1, f2, n, j, i);
    }
  }

  lemma KernelRow(a: seq<real>, f: seq<real>, n: nat, p: seq<nat>, j: nat, i: nat, y: seq<real>)
    requires |p| == n && i < n && j < n && |y| == n
    requires forall c: nat :: c <= j ==> LuEntry(f, n, i, c) == At(a, n, p[i], c)
    requires forall c :: j < c < n ==> y[c] == 0.0
    requires forall m: nat :: m < n ==> UpperTimes(f, n, m, y) == 0.0
    ensures RowTimes(a, n, p[i], y) == 0.0
  {
    hide At, LuEntry, Lower, UpperTimes;
    FactorsInTurn(f, n, i, y);
    SumZero((m: nat) => Lower(f, n, i, m) * UpperTimes(f, n, m, y), n);
    SumEq((c: nat) => At(a, n, p[i], c) * Get(y, c), (c: nat) => LuEntry(f, n, i, c) * Get(y, c), n);
  }

  ghost predicate Invertible(a: seq<real>, n: nat) {
    exists b: seq<real> :: Inverse(a, b, n) && Inverse(b, a, n)
  }

  lemma ZeroRowNotInvertible(a: seq<real>, n: nat, i: nat)
    requires i < n && ZeroRow(a, n, i)
    ensures !Invertible(a, n)
  {
    hide At;
    if Invertible(a, n) {
      var b: seq<real> :| Inverse(a, b, n) && Inverse(b, a, n);
      assert Times(a, b, n, i, i) == Delta(i, i);
      SumZero((k: nat) => At(a, n, i, k) * At(b, n, k, i), n);
    }
  }

  lemma SingularNotInvertible(a: seq<real>, n: nat)
    requires Singular(a, n)
    ensures !Invertible(a, n)
  {
    hide Inverse, Singular;
    if Invertible(a, n) {
      var b: seq<real> :| Inverse(a, b, n) && Inverse(b, a, n);
      SingularHasNoInverse(a, b, n);
    }
  }

  // ---------- the decomposition ----------

  ghost predicate ValidIndex(indx: seq<nat>, n: nat, k: nat) {
    |indx| == n && k <= n && forall m :: 0 <= m < k ==> m <= indx[m] < n
  }

  // Plus or minus one by the number of real exchanges among the first k.
  ghost function Parity(indx: seq<nat>, k: nat): real
    requires k <= |indx|
  {
    if k == 0 then 1.0 else if indx[k - 1] == k - 1 then Parity(indx, k - 1) else -Parity(indx, k - 1)
  }

  lemma {:induction false} ParityAgrees(a: seq<nat>, b: seq<nat>, k: nat)
    requires k <= |a| && k <= |b| && a[..k] == b[..k]
    ensures Parity(a, k) == Parity(b, k)
  {
    if k > 0 {
      assert a[..k][k - 1] == b[..k][k - 1];
      assert a[..k - 1] == a[..k][..k - 1] && b[..k - 1] == b[..k][..k - 1];
      ParityAgrees(a, b, k - 1);
    }
  }

  method Ludcmp(A: array<real>, n: nat, indx: array<nat>) returns (ok: bool, d: real)
    requires A.Length == n * n && indx.Length == n
    modifies A, indx
    ensures ok ==> ValidIndex(indx[..], n, n) && Factored(old(A[..]), A[..], n, RowOrder(indx[..], n, n), n)
    ensures ok ==> d == Parity(indx[..], n)
    ensures !ok ==> !Invertible(old(A[..]), n)
  {
    hide At, LuEntry, Half, Parity, RowOrder, Invertible, Factored, UpperDone, LowerDone, RowsSwapped, ColumnScaled;
    d := 1.0;
    ghost var a := A[..];
    var vv;
    ghost var zero;
    ok, vv, zero := RowScales(A, n);
    if !ok {
      ZeroRowNotInvertible(a, n, zero);
      return;
    }
    StartOrder(a, n, indx[..]);
    for j := 0 to n
      invariant ValidIndex(indx[..], n, j)
      invariant Factored(a, A[..], n, RowOrder(indx[..], n, j), j)
      invariant d == Parity(indx[..], j)
      invariant forall i :: 0 <= i < n ==> vv[i] > 0.0
      invariant ok
    {
      ghost var f, before := A[..], indx[..];
      var imax;
      ghost var f1, f2, f3;
      ok, imax, f1, f2, f3 := Column(A, n, j, vv);
      if j != imax { d := -d; }
      indx[j] := imax;
      if !ok {
        ZeroPivotSingular(a, f, f1, f2, n, RowOrder(before, n, j), j);
        SingularNotInvertible(a, n);
        return;
      }
      assert indx[..] == before[j := imax];
      NextOrder(before, imax, n, j);
      ColumnDone(a, f, f1, f2, f3, A[..], n, RowOrder(before, n, j), j, imax);
    }
  }

  lemma StartOrder(a: seq<real>, n: nat, indx: seq<nat>)
    requires |a| == n * n && |indx| == n
    ensures Factored(a, a, n, RowOrder(indx, n, 0), 0)
    ensures Parity(indx, 0) == 1.0
  {
    hide At, LuEntry;
    RowOrderPermutes(indx, n, 0);
  }

  lemma NextOrder(before: seq<nat>, imax: nat, n: nat, j: nat)
    requires ValidIndex(before, n, j) && j < n && j <= imax < n
    ensures ValidIndex(before[j := imax], n, j + 1)
    ensures RowOrder(before[j := imax], n, j + 1) == Exchange(RowOrder(before, n, j), j, imax)
    ensures Parity(before[j := imax], j + 1) == if imax == j then Parity(before, j) else -Parity(before, j)
  {
    var after := before[j := imax];
    assert before[..j] == after[..j];
    RowOrderAgrees(before, after, n, j);
    ParityAgrees(before, after, j);
  }

  // ---------- substitution ----------

  // The sign is positive exactly if an even number of rows has been exchanged.
  lemma {:induction false} ParityCounts(indx: seq<nat>, k: nat)
    requires k <= |indx|
    ensures Parity(indx, k) == if |set m: nat | m < k && indx[m] != m| % 2 == 0 then 1.0 else -1.0
    decreases k
  {
    var all := set m: nat | m < k && indx[m] != m;
    if k > 0 {
      ParityCounts(indx, k - 1);
      var front := set m: nat | m < k - 1 && indx[m] != m;
      assert all == if indx[k - 1] == k - 1 then front else front + {k - 1};
    } else {
      assert all == {};
    }
  }

  // The part of row k left of the diagonal, times y.
  ghost function LeftPart(f: seq<real>, n: nat, k: nat, y: seq<real>): real {
    Sum((m: nat) => At(f, n, k, m) * Get(y, m), k)
  }

  lemma LeftPartEq(f: seq<real>, n: nat, k: nat, y: seq<real>, z: seq<real>)
    requires forall m: nat :: m < k ==> Get(y, m) == Get(z, m)
    ensures LeftPart(f, n, k, y) == LeftPart(f, n, k, z)
  {
    hide At, Get;
    SumEq((m: nat) => At(f, n, k, m) * Get(y, m), (m: nat) => At(f, n, k, m) * Get(z, m), k);
  }

  // Row i of the lower factor times y.
  ghost function LowerTimes(f: seq<real>, n: nat, i: nat, y: seq<real>): real {
    Sum((m: nat) => Lower(f, n, i, m) * Get(y, m), n)
  }

  // A row of the lower factor has a one on the diagonal.
  lemma LowerRow(f: seq<real>, n: nat, k: nat, y: seq<real>)
    requires k < n && |y| == n
    ensures LowerTimes(f, n, k, y) == LeftPart(f, n, k, y) + y[k]
  {
    hide At;
    var g := (m: nat) => Lower(f, n, k, m) * Get(y, m);
    SumTail(g, k + 1, n);
    SumEq(g, (m: nat) => At(f, n, k, m) * Get(y, m), k);
    SumEq(g, (m: nat) => Lower(f, n, k, m) * Get(y, m), n);
    assert Sum(g, k + 1) == Sum(g, k) + g(k);
  }

  // The first i rows are solved, the other entries of b are only put in order.
  ghost predicate ForwardDone(f: seq<real>, n: nat, p: seq<nat>, b: seq<real>, y: seq<real>, i: nat) {
    && |y| == n && |b| == n && |p| == n && i <= n && (forall k :: 0 <= k < n ==> p[k] < n)
    && (forall k: nat :: k < i ==> LeftPart(f, n, k, y) + y[k] == b[p[k]])
    && (forall k: nat :: i <= k < n ==> y[k] == b[p[k]])
  }

  // Everything before the first non-zero entry is zero.
  ghost predicate LeadingZeros(y: seq<real>, i: nat, ii: int) {
    && i <= |y| && ii < i
    && forall k :: 0 <= k < (if ii < 0 then i else ii) ==> y[k] == 0.0
  }

  // b[off..off+n] as a vector, and nothing else changed.
  ghost predicate OnlySegment(before: seq<real>, after: seq<real>, off: nat, n: nat) {
    && off + n <= |before| && |after| == |before|
    && after[..off] == before[..off] && after[off + n..] == before[off + n..]
  }

  lemma StillSegment(before: seq<real>, after: seq<real>, off: nat, n: nat, k: nat, v: real)
    requires OnlySegment(before, after, off, n) && k < n
    ensures OnlySegment(before, after[off + k := v], off, n)
    ensures after[off + k := v][off..off + n] == after[off..off + n][k := v]
  {
    var later := after[off + k := v];
    assert later[..off] == after[..off];
    assert later[off + n..] == after[off + n..];
  }

  method SetEntry(b: array<real>, off: nat, ghost n: nat, k: nat, v: real)
    requires k < n && off + n <= b.Length
    modifies b
    ensures OnlySegment(old(b[..]), b[..], off, n)
    ensures b[off..off + n] == old(b[off..off + n])[k := v]
  {
    ghost var before := b[..];
    StillSegment(before, before, off, n, k, v);
    b[off + k] := v;
    assert b[..] == before[off + k := v];
    assert b[off..off + n] == b[..][off..off + n];
  }

  lemma SegmentTrans(x: seq<real>, y: seq<real>, z: seq<real>, off: nat, n: nat)
    requires OnlySegment(x, y, off, n) && OnlySegment(y, z, off, n)
    ensures OnlySegment(x, z, off, n)
  {}

  lemma ForwardStep(f: seq<real>, n: nat, p: seq<nat>, b: seq<real>, y: seq<real>, z: seq<real>, i: nat, ip: nat)
    requires ForwardDone(f, n, p, b, y, i) && i <= ip < n
    requires z == y[ip := y[i]][i := y[ip] - LeftPart(f, n, i, y)]
    ensures ForwardDone(f, n, Exchange(p, i, ip), b, z, i + 1)
  {
    hide At;
    forall k: nat | k <= i ensures LeftPart(f, n, k, z) == LeftPart(f, n, k, y) {
      LeftPartEq(f, n, k, y, z);
    }
  }

  // s less the products of row i with the entries from ii on; the skipped ones are zero.
  method SubtractLeft(A: array<real>, n: nat, i: nat, b: array<real>, off: nat, ii: int, s0: real) returns (s: real)
    requires A.Length == n * n && i < n && off + n <= b.Length
    requires LeadingZeros(b[off..off + n], i, ii)
    ensures s == s0 - LeftPart(A[..], n, i, b[off..off + n])
  {
    hide At;
    s := s0;
    ghost var f, y := A[..], b[off..off + n];
    ghost var g := (m: nat) => At(f, n, i, m) * Get(y, m);
    SumEq(g, (m: nat) => At(f, n, i, m) * Get(y, m), i);
    if ii >= 0 {
      SumZero(g, ii);
      for j := ii to i
        invariant s == s0 - Sum(g, j)
      {
        var x := Load(A, n, i, j);
        s := s - x * b[off + j];
      }
    } else {
      SumZero(g, i);
    }
  }

  // One row: fetches the right-hand side of the pivot row and takes off what is known already.
  method ForwardRow(A: array<real>, n: nat, i: nat, ip: nat, b: array<real>, off: nat, ii: int) returns (next: int)
    requires A.Length == n * n && off + n <= b.Length && A != b && i <= ip < n
    requires LeadingZeros(b[off..off + n], i, ii)
    modifies b
    ensures OnlySegment(old(b[..]), b[..], off, n)
    ensures var y := old(b[off..off + n]);
            b[off..off + n] == y[ip := y[i]][i := y[ip] - LeftPart(A[..], n, i, y)]
    ensures LeadingZeros(b[off..off + n], i + 1, next)
  {
    hide At, LeftPart, OnlySegment;
    ghost var y, v1 := b[off..off + n], b[..];
    var s := b[off + ip];
    SetEntry(b, off, n, ip, b[off + i]);
    ghost var v2 := b[..];
    SwapKeepsLeft(A[..], n, i, y, b[off..off + n], ip);
    var t := SubtractLeft(A, n, i, b, off, ii, s);
    if ii < 0 { NothingLeft(A[..], n, i, b[off..off + n]); }
    next := if ii < 0 && s != 0.0 then i else ii;
    SetEntry(b, off, n, i, t);
    SegmentTrans(v1, v2, b[..], off, n);
  }

  lemma NothingLeft(f: seq<real>, n: nat, i: nat, y: seq<real>)
    requires LeadingZeros(y, i, -1)
    ensures LeftPart(f, n, i, y) == 0.0
  {
    hide At;
    SumZero((m: nat) => At(f, n, i, m) * Get(y, m), i);
  }

  // Rows before i of the segment at off are solved for the lower factor, in row order.
  ghost predicate Forwarded(f: seq<real>, n: nat, order: seq<nat>, b0: seq<real>, before: seq<real>, now: seq<real>,
                            off: nat, i: nat, ii: int) {
    && ValidIndex(order, n, n) && i <= n && off + n <= |now| && OnlySegment(before, now, off, n)
    && ForwardDone(f, n, RowOrder(order, n, i), b0, now[off..off + n], i)
    && LeadingZeros(now[off..off + n], i, ii)
  }

  method ForwardAt(A: array<real>, n: nat, i: nat, ip: nat, b: array<real>, off: nat, ii: int,
                   ghost order: seq<nat>, ghost b0: seq<real>, ghost before: seq<real>) returns (next: int)
    requires A.Length == n * n && A != b && i < n && |order| == n && ip == order[i]
    requires Forwarded(A[..], n, order, b0, before, b[..], off, i, ii)
    modifies b
    ensures Forwarded(A[..], n, order, b0, before, b[..], off, i + 1, next)
  {
    hide At, RowOrder, LeftPart, OnlySegment, ForwardDone, LeadingZeros, Exchange;
    ghost var y, v1 := b[off..off + n], b[..];
    next := ForwardRow(A, n, i, ip, b, off, ii);
    SegmentTrans(before, v1, b[..], off, n);
    OrderStep(order, n, i);
    ForwardStep(A[..], n, RowOrder(order, n, i), b0, y, b[off..off + n], i, ip);
  }

  // Puts b in row order and solves for the lower factor in one pass.
  method Forward(A: array<real>, n: nat, indx: array<nat>, b: array<real>, off: nat)
    requires A.Length == n * n && indx.Length == n && off + n <= b.Length && A != b
    requires ValidIndex(indx[..], n, n)
    modifies b
    ensures OnlySegment(old(b[..]), b[..], off, n)
    ensures ForwardDone(A[..], n, RowOrder(indx[..], n, n), old(b[off..off + n]), b[off..off + n], n)
  {
    hide RowOrder, OnlySegment, ForwardDone, LeadingZeros;
    ghost var f, order, before, b0 := A[..], indx[..], b[..], b[off..off + n];
    var ii := -1;
    StartForward(f, n, order, b0, before, off);
    for i := 0 to n
      invariant A[..] == f && indx[..] == order && Forwarded(f, n, order, b0, before, b[..], off, i, ii)
    {
      ii := ForwardAt(A, n, i, indx[i], b, off, ii, order, b0, before);
    }
  }

  lemma OrderStep(indx: seq<nat>, n: nat, i: nat)
    requires ValidIndex(indx, n, n) && i < n
    ensures RowOrder(indx, n, i + 1) == Exchange(RowOrder(indx, n, i), i, indx[i])
  {}

  lemma StartForward(f: seq<real>, n: nat, indx: seq<nat>, b0: seq<real>, before: seq<real>, off: nat)
    requires ValidIndex(indx, n, n) && |b0| == n && off + n <= |before|
    ensures ForwardDone(f, n, RowOrder(indx, n, 0), b0, b0, 0)
    ensures OnlySegment(before, before, off, n)
    ensures LeadingZeros(b0, 0, -1)
  {}

  lemma SwapKeepsLeft(f: seq<real>, n: nat, i: nat, y: seq<real>, z: seq<real>, ip: nat)
    requires |y| == n && i <= ip < n && z == y[ip := y[i]]
    ensures LeftPart(f, n, i, z) == LeftPart(f, n, i, y)
    ensures forall ii :: LeadingZeros(y, i, ii) ==> LeadingZeros(z, i, ii)
  {
    LeftPartEq(f, n, i, y, z);
  }

  // Rows from i on are solved for the upper factor, the others still hold y.
  ghost predicate BackwardDone(f: seq<real>, n: nat, y: seq<real>, x: seq<real>, i: nat) {
    && |x| == n && |y| == n && i <= n
    && (forall k: nat :: i <= k < n ==> UpperTimes(f, n, k, x) == y[k])
    && (forall k: nat :: k < i ==> x[k] == y[k])
  }

  // The part of row k right of the diagonal, times x.
  ghost function RightPart(f: seq<real>, n: nat, k: nat, x: seq<real>): real {
    Sum((c: nat) => if c <= k then 0.0 else At(f, n, k, c) * Get(x, c), n)
  }

  lemma UpperRow(f: seq<real>, n: nat, k: nat, x: seq<real>)
    requires k < n && |x| == n
    ensures UpperTimes(f, n, k, x) == At(f, n, k, k) * x[k] + RightPart(f, n, k, x)
  {
    hide At;
    var diag := (c: nat) => if c == k then At(f, n, k, k) * x[k] else 0.0;
    var right := (c: nat) => if c <= k then 0.0 else At(f, n, k, c) * Get(x, c);
    var all := (c: nat) => Upper(f, n, k, c) * Get(x, c);
    SumAdd(diag, right, all, n);
    SumOne(diag, k, n);
    SumEq(all, (c: nat) => Upper(f, n, k, c) * Get(x, c), n);
    SumEq(right, (c: nat) => if c <= k then 0.0 else At(f, n, k, c) * Get(x, c), n);
  }

  lemma BackwardStep(f: seq<real>, n: nat, y: seq<real>, x: seq<real>, i: nat)
    requires BackwardDone(f, n, y, x, i + 1) && i < n && At(f, n, i, i) != 0.0
    ensures BackwardDone(f, n, y, x[i := (x[i] - RightPart(f, n, i, x)) / At(f, n, i, i)], i)
  {
    hide At, UpperTimes, RightPart;
    var d, v := At(f, n, i, i), (x[i] - RightPart(f, n, i, x)) / At(f, n, i, i);
    var z := x[i := v];
    forall k: nat | i <= k < n ensures UpperTimes(f, n, k, z) == y[k] {
      UpperUpdated(f, n, k, x, i, v);
      if k == i {
        UpperRow(f, n, i, x);
        assert d * ((x[i] - RightPart(f, n, i, x)) / d) == x[i] - RightPart(f, n, i, x);
        assert d * (v - x[i]) == d * v - d * x[i];
      }
    }
  }

  method SubtractRight(A: array<real>, n: nat, i: nat, b: array<real>, off: nat) returns (s: real)
    requires A.Length == n * n && i < n && off + n <= b.Length
    ensures s == b[off + i] - RightPart(A[..], n, i, b[off..off + n])
  {
    hide At;
    s := b[off + i];
    ghost var f, x := A[..], b[off..off + n];
    ghost var g := (c: nat) => if c <= i then 0.0 else At(f, n, i, c) * Get(x, c);
    SumZero(g, i + 1);
    for j := i + 1 to n
      invariant s == x[i] - Sum(g, j)
    {
      var v := Load(A, n, i, j);
      s := s - v * b[off + j];
    }
    SumEq(g, (c: nat) => if c <= i then 0.0 else At(f, n, i, c) * Get(x, c), n);
  }

  // Solves for the upper factor from the last row up.
  method Backward(A: array<real>, n: nat, b: array<real>, off: nat)
    requires A.Length == n * n && off + n <= b.Length && A != b
    requires forall c: nat :: c < n ==> At(A[..], n, c, c) != 0.0
    modifies b
    ensures OnlySegment(old(b[..]), b[..], off, n)
    ensures BackwardDone(A[..], n, old(b[off..off + n]), b[off..off + n], 0)
  {
    hide At, UpperTimes, RightPart, OnlySegment;
    ghost var f, before, y := A[..], b[..], b[off..off + n];
    NothingChanged(before, off, n);
    var i: nat := n;
    while i > 0
      invariant i <= n && OnlySegment(before, b[..], off, n) && A[..] == f
      invariant BackwardDone(f, n, y, b[off..off + n], i)
    {
      i := i - 1;
      ghost var x, v1 := b[off..off + n], b[..];
      var s := SubtractRight(A, n, i, b, off);
      var pivot := Load(A, n, i, i);
      SetEntry(b, off, n, i, s / pivot);
      SegmentTrans(before, v1, b[..], off, n);
      BackwardStep(f, n, y, x, i);
    }
  }

  lemma NothingChanged(before: seq<real>, off: nat, n: nat)
    requires off + n <= |before|
    ensures OnlySegment(before, before, off, n)
  {}

  // Solving for both factors solves the original system.
  lemma BothFactors(a: seq<real>, f: seq<real>, n: nat, p: seq<nat>, b: seq<real>, y: seq<real>, x: seq<real>, r: nat)
    requires Factored(a, f, n, p, n) && ForwardDone(f, n, p, b, y, n) && BackwardDone(f, n, y, x, 0) && r < n
    ensures RowTimes(a, n, r, x) == b[r]
  {
    hide At, LuEntry, Lower, UpperTimes, LeftPart, Get;
    assert r in p;
    var i: nat :| i < n && p[i] == r;
    FactorsInTurn(f, n, i, x);
    GetEntry(y, n);
    SumEq((m: nat) => Lower(f, n, i, m) * UpperTimes(f, n, m, x), (m: nat) => Lower(f, n, i, m) * Get(y, m), n);
    LowerRow(f, n, i, y);
    SumEq((c: nat) => At(a, n, r, c) * Get(x, c), (c: nat) => LuEntry(f, n, i, c) * Get(x, c), n);
  }

  lemma GetEntry(y: seq<real>, n: nat)
    requires |y| == n
    ensures forall m: nat :: m < n ==> Get(y, m) == y[m]
  {}

  // a * x = b
  ghost predicate Solves(a: seq<real>, n: nat, x: seq<real>, b: seq<real>) {
    |x| == n && |b| == n && forall r: nat :: r < n ==> RowTimes(a, n, r, x) == b[r]
  }

  // Solves a * x = b in place, for the matrix a whose factors and exchanges are given.
  method Lubksb(A: array<real>, n: nat, indx: array<nat>, b: array<real>, off: nat, ghost a: seq<real>)
    requires A.Length == n * n && indx.Length == n && off + n <= b.Length && A != b
    requires ValidIndex(indx[..], n, n) && Factored(a, A[..], n, RowOrder(indx[..], n, n), n)
    modifies b
    ensures OnlySegment(old(b[..]), b[..], off, n)
    ensures Solves(a, n, b[off..off + n], old(b[off..off + n]))
  {
    hide At, LuEntry, RowOrder, ForwardDone, BackwardDone, OnlySegment, Exchange;
    ghost var f, p, v0, b0 := A[..], RowOrder(indx[..], n, n), b[..], b[off..off + n];
    Forward(A, n, indx, b, off);
    ghost var v1, y := b[..], b[off..off + n];
    Backward(A, n, b, off);
    SegmentTrans(v0, v1, b[..], off, n);
    forall r: nat | r < n ensures RowTimes(a, n, r, b[off..off + n]) == b0[r] {
      BothFactors(a, f, n, p, b0, y, b[off..off + n], r);
    }
  }

  // ---------- no kernel ----------

  lemma {:induction false} LowerInjective(f: seq<real>, n: nat, y: seq<real>, k: nat)
    requires |y| == n && k <= n
    requires forall i: nat :: i < n ==> LowerTimes(f, n, i, y) == 0.0
    ensures forall i :: 0 <= i < k ==> y[i] == 0.0
  {
    if k > 0 {
      LowerInjective(f, n, y, k - 1);
      LowerRow(f, n, k - 1, y);
      SumZero((m: nat) => At(f, n, k - 1, m) * Get(y, m), k - 1);
    }
  }

  lemma {:induction false} UpperInjective(f: seq<real>, n: nat, x: seq<real>, k: nat)
    requires |x| == n && k <= n && forall c: nat :: c < n ==> At(f, n, c, c) != 0.0
    requires forall i: nat :: i < n ==> UpperTimes(f, n, i, x) == 0.0
    ensures forall i :: k <= i < n ==> x[i] == 0.0
    decreases n - k
  {
    hide At, UpperTimes;
    if k < n {
      UpperInjective(f, n, x, k + 1);
      UpperRow(f, n, k, x);
      SumZero((c: nat) => if c <= k then 0.0 else At(f, n, k, c) * Get(x, c), n);
      assert At(f, n, k, k) * x[k] == 0.0;
    }
  }

  // A matrix with a complete decomposition has no kernel.
  lemma FactoredNotSingular(a: seq<real>, f: seq<real>, n: nat, p: seq<nat>)
    requires Factored(a, f, n, p, n)
    ensures !Singular(a, n)
  {
    if Singular(a, n) {
      var x: seq<real> :| InKernel(a, n, x) && exists i :: 0 <= i < n && x[i] != 0.0;
      KernelIsZero(a, f, n, p, x);
    }
  }

  lemma KernelIsZero(a: seq<real>, f: seq<real>, n: nat, p: seq<nat>, x: seq<real>)
    requires Factored(a, f, n, p, n) && InKernel(a, n, x)
    ensures forall i :: 0 <= i < n ==> x[i] == 0.0
  {
    hide At, LuEntry, Lower, UpperTimes, Get;
    var y := seq(n, (m: nat) => UpperTimes(f, n, m, x));
    GetEntry(y, n);
    forall i: nat | i < n ensures LowerTimes(f, n, i, y) == 0.0 {
      FactorsInTurn(f, n, i, x);
      SumEq((m: nat) => Lower(f, n, i, m) * UpperTimes(f, n, m, x), (m: nat) => Lower(f, n, i, m) * Get(y, m), n);
      SumEq((c: nat) => At(a, n, p[i], c) * Get(x, c), (c: nat) => LuEntry(f, n, i, c) * Get(x, c), n);
      assert RowTimes(a, n, p[i], x) == 0.0;
    }
    LowerInjective(f, n, y, n);
    forall m: nat | m < n ensures UpperTimes(f, n, m, x) == 0.0 {
      assert y[m] == 0.0;
    }
    UpperInjective(f, n, x, 0);
  }

  // ---------- the inverse ----------

  // Column c of x, as a segment of the stored matrix, is solved for the unit vector c.
  ghost predicate ColumnSolved(a: seq<real>, x: seq<real>, n: nat, c: nat) {
    && c * n + n <= |x|
    && forall r: nat :: r < n ==> RowTimes(a, n, r, x[c * n..c * n + n]) == Delta(r, c)
  }

  lemma SolvedColumnsInvert(a: seq<real>, x: seq<real>, n: nat)
    requires forall c: nat :: c < n ==> ColumnSolved(a, x, n, c)
    ensures Inverse(a, x, n)
  {
    hide Delta;
    forall r: nat, c: nat | r < n && c < n ensures Times(a, x, n, r, c) == Delta(r, c) {
      assert ColumnSolved(a, x, n, c);
      var col := x[c * n..c * n + n];
      forall k: nat | k < n ensures Get(col, k) == At(x, n, k, c) {
        assert col[k] == x[Index(k, c, n)];
      }
      SumEq((k: nat) => At(a, n, r, k) * At(x, n, k, c), (k: nat) => At(a, n, r, k) * Get(col, k), n);
    }
  }

  lemma SliceOfPrefix(x: seq<real>, m: nat, i: nat, k: nat)
    requires i <= k <= m <= |x|
    ensures x[i..k] == x[..m][i..k]
  {}

  // Segments of different columns do not overlap.
  lemma KeepsSolved(a: seq<real>, x: seq<real>, z: seq<real>, n: nat, c: nat, j: nat)
    requires OnlySegment(x, z, j * n, n) && c < j && ColumnSolved(a, x, n, c)
    ensures ColumnSolved(a, z, n, c)
  {
    hide RowTimes;
    MulMono(c + 1, j, n);
    assert (c + 1) * n == c * n + n;
    SliceOfPrefix(x, j * n, c * n, c * n + n);
    SliceOfPrefix(z, j * n, c * n, c * n + n);
  }

  ghost predicate IsUnit(col: seq<real>, n: nat, j: nat) {
    |col| == n && forall r :: 0 <= r < n ==> col[r] == Delta(r, j)
  }

  ghost predicate ZeroUpto(col: seq<real>, i: nat) {
    i <= |col| && forall r :: 0 <= r < i ==> col[r] == 0.0
  }

  lemma ColumnFits(n: nat, j: nat)
    requires j < n
    ensures j * n + n <= n * n
  {
    MulMono(j + 1, n, n);
    Distribute(j, 1, n);
  }

  // Makes the segment at off the unit vector j.
  method UnitColumn(A: array<real>, n: nat, j: nat, off: nat)
    requires off + n <= A.Length && j < n
    modifies A
    ensures OnlySegment(old(A[..]), A[..], off, n) && IsUnit(A[off..off + n], n, j)
  {
    hide OnlySegment;
    ghost var before := A[..];
    NothingChanged(before, off, n);
    for i := 0 to n
      invariant OnlySegment(before, A[..], off, n)
      invariant ZeroUpto(A[off..off + n], i)
    {
      ghost var v := A[..];
      SetEntry(A, off, n, i, 0.0);
      SegmentTrans(before, v, A[..], off, n);
    }
    ghost var v := A[..];
    SetEntry(A, off, n, j, 1.0);
    SegmentTrans(before, v, A[..], off, n);
  }

  // Replaces a by its inverse; fails, and leaves a alone, exactly when there is none.
  method Matinv(A: array<real>, n: nat) returns (ok: bool)
    requires A.Length == n * n
    modifies A
    ensures ok <==> Invertible(old(A[..]), n)
    ensures ok ==> Inverse(A[..], old(A[..]), n) && Inverse(old(A[..]), A[..], n)
    ensures !ok ==> A[..] == old(A[..])
  {
    hide Factored, RowOrder, Invertible, Inverse, ColumnSolved, OnlySegment, Singular, Parity, Delta, RowTimes;
    ghost var a := A[..];
    var indx := new nat[n](_ => 0);
    var B := new real[A.Length](i requires 0 <= i < A.Length reads A => A[i]);
    assert B[..] == a;
    var sign;
    ok, sign := Ludcmp(B, n, indx);
    if !ok { return; }
    FactoredNotSingular(a, B[..], n, RowOrder(indx[..], n, n));
    SolveColumns(A, B, n, indx, a);
    SolvedColumnsInvert(a, A[..], n);
    RightInverseIsLeft(a, A[..], n);
    BothWays(a, A[..], n);
  }

  lemma BothWays(a: seq<real>, b: seq<real>, n: nat)
    requires Inverse(a, b, n) && Inverse(b, a, n)
    ensures Invertible(a, n)
  {
    hide Inverse;
  }

  method SolveColumns(A: array<real>, B: array<real>, n: nat, indx: array<nat>, ghost a: seq<real>)
    requires A.Length == n * n && B.Length == n * n && A != B && indx.Length == n
    requires ValidIndex(indx[..], n, n) && Factored(a, B[..], n, RowOrder(indx[..], n, n), n)
    modifies A
    ensures forall c: nat :: c < n ==> ColumnSolved(a, A[..], n, c)
  {
    hide Factored, RowOrder, ValidIndex, OnlySegment, ColumnSolved, Delta, RowTimes, Solves, IsUnit;
    for j := 0 to n
      invariant forall c: nat :: c < j ==> ColumnSolved(a, A[..], n, c)
    {
      ghost var x := A[..];
      ColumnFits(n, j);
      UnitColumn(A, n, j, j * n);
      ghost var u, e := A[..], A[j * n..j * n + n];
      Lubksb(B, n, indx, A, j * n, a);
      SegmentTrans(x, u, A[..], j * n, n);
      forall c: nat | c < j ensures ColumnSolved(a, A[..], n, c) {
        KeepsSolved(a, x, A[..], n, c, j);
      }
      ThisSolved(a, A[..], A[j * n..j * n + n], e, n, j);
    }
  }

  lemma ThisSolved(a: seq<real>, x: seq<real>, col: seq<real>, e: seq<real>, n: nat, j: nat)
    requires j * n + n <= |x| && col == x[j * n..j * n + n]
    requires Solves(a, n, col, e) && IsUnit(e, n, j)
    ensures ColumnSolved(a, x, n, j)
  {}
}

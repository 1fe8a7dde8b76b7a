// Crout's in-place LU decomposition with scaled partial pivoting.
module LuDecomp {
  import opened Linear
  import opened LuSpec

  function Fabs(x: real): real { if x < 0.0 then -x else x }

  // The size of an entry relative to its row.
  function Scaled(v: real, s: real): real { v * Fabs(s) }

  // A[i+j*n]
  method Load(A: array<real>, n: nat, i: nat, j: nat) returns (v: real)
    requires A.Length == n * n && i < n && j < n
    ensures v == At(A[..], n, i, j)
  {
    IndexBound(i, j, n);
    v := A[i + j * n];
  }

  // A[i+j*n] = v
  method Store(A: array<real>, n: nat, i: nat, j: nat, v: real)
    requires A.Length == n * n && i < n && j < n
    modifies A
    ensures Updated(old(A[..]), A[..], n, i, j, v)
  {
    UpdateAt(A[..], n, i, j, v);
    ghost var f := A[..];
    A[i + j * n] := v;
    assert A[..] == f[Index(i, j, n) := v];
  }

  ghost predicate ZeroRow(a: seq<real>, n: nat, i: nat) {
    forall c: nat :: c < n ==> At(a, n, i, c) == 0.0
  }

  // v scales row i so that its largest entries are of size 1.
  ghost predicate RowScale(a: seq<real>, n: nat, i: nat, v: real) {
    && v > 0.0
    && (forall c: nat :: c < n ==> Scaled(v, At(a, n, i, c)) <= 1.0)
    && (exists c: nat :: c < n && Scaled(v, At(a, n, i, c)) == 1.0)
  }

  lemma ScaleIs(a: seq<real>, n: nat, i: nat, big: real, c: nat)
    requires big > 0.0 && c < n && Fabs(At(a, n, i, c)) == big
    requires forall c: nat :: c < n ==> Fabs(At(a, n, i, c)) <= big
    ensures RowScale(a, n, i, 1.0 / big)
  {
    hide At;
    forall c: nat | c < n ensures Scaled(1.0 / big, At(a, n, i, c)) <= 1.0 {
      Shrinks(Fabs(At(a, n, i, c)), big);
    }
    Shrinks(big, big);
    assert Scaled(1.0 / big, At(a, n, i, c)) == 1.0;
  }

  lemma Shrinks(x: real, big: real)
    requires big > 0.0 && x <= big
    ensures 1.0 / big > 0.0 && (1.0 / big) * x <= 1.0 && (x == big ==> (1.0 / big) * x == 1.0)
  {}

  // The scale of each row; fails on a row of zeros.
  method RowScales(A: array<real>, n: nat) returns (ok: bool, vv: array<real>, ghost zero: nat)
    requires A.Length == n * n
    ensures fresh(vv) && vv.Length == n
    ensures ok ==> forall i :: 0 <= i < n ==> RowScale(A[..], n, i, vv[i])
    ensures !ok ==> zero < n && ZeroRow(A[..], n, zero)
  {
    hide At, RowScale;
    vv := new real[n](_ => 0.0);
    zero := 0;
    for i := 0 to n
      invariant forall k :: 0 <= k < i ==> RowScale(A[..], n, k, vv[k])
    {
      var big := 0.0;
      ghost var at: nat := 0;
      for j := 0 to n
        invariant big >= 0.0 && (big > 0.0 ==> at < n && Fabs(At(A[..], n, i, at)) == big)
        invariant forall c: nat :: c < j ==> Fabs(At(A[..], n, i, c)) <= big
        modifies {}
      {
        var v := Load(A, n, i, j);
        var tmp := Fabs(v);
        if tmp > big { big, at := tmp, j; }
      }
      if big > 0.0 {
        ScaleIs(A[..], n, i, big, at);
        vv[i] := 1.0 / big;
      } else {
        return false, vv, i;
      }
    }
    ok := true;
  }

  // Entry (i, j) less the first `terms` products of its row and column.
  method Reduce(A: array<real>, n: nat, i: nat, j: nat, terms: nat) returns (s: real)
    requires A.Length == n * n && i < n && j < n && terms <= n
    ensures s == At(A[..], n, i, j) - Half(A[..], n, i, j, terms)
  {
    hide At;
    s := Load(A, n, i, j);
    ghost var g := A[..];
    ghost var f := (m: nat) => At(g, n, i, m) * At(g, n, m, j);
    for k := 0 to terms
      invariant s == At(g, n, i, j) - Sum(f, k)
    {
      var x := Load(A, n, i, k);
      var y := Load(A, n, k, j);
      s := s - x * y;
    }
    SumEq(f, (m: nat) => At(g, n, i, m) * At(g, n, m, j), terms);
  }

  lemma UpperStep(f: seq<real>, g: seq<real>, h: seq<real>, n: nat, j: nat, i: nat)
    requires UpperDone(f, g, n, j, i) && i < j < n
    requires |h| == |g| && Updated(g, h, n, i, j, At(g, n, i, j) - Half(g, n, i, j, i))
    ensures UpperDone(f, h, n, j, i + 1)
  {
    hide At, Half;
    forall r: nat | r <= i ensures Half(h, n, r, j, r) == Half(g, n, r, j, r) {
      HalfEq(h, g, n, r, r, j, r);
    }
  }

  // Rows above the diagonal of column j.
  method UpperPass(A: array<real>, n: nat, j: nat)
    requires A.Length == n * n && j < n
    modifies A
    ensures UpperDone(old(A[..]), A[..], n, j, j)
  {
    hide At, Half;
    ghost var f := A[..];
    for i := 0 to j
      invariant UpperDone(f, A[..], n, j, i)
    {
      ghost var g := A[..];
      var s := Reduce(A, n, i, j, i);
      Store(A, n, i, j, s);
      UpperStep(f, g, A[..], n, j, i);
    }
  }

  lemma LowerStep(f: seq<real>, g: seq<real>, h: seq<real>, n: nat, j: nat, i: nat)
    requires LowerDone(f, g, n, j, i) && j <= i < n
    requires |h| == |g| && Updated(g, h, n, i, j, At(g, n, i, j) - Half(g, n, i, j, j))
    ensures LowerDone(f, h, n, j, i + 1)
  {
    hide At, Half;
    forall r: nat | j <= r <= i ensures Half(h, n, r, j, j) == Half(g, n, r, j, j) {
      HalfEq(h, g, n, r, r, j, j);
    }
  }

  ghost predicate LargestScaled(g: seq<real>, n: nat, j: nat, k: nat, vv: seq<real>, big: real) {
    |vv| == n && forall i: nat :: j <= i < k && i < n ==> Scaled(vv[i], At(g, n, i, j)) <= big
  }

  // Rows from the diagonal down, and the last row with the largest scaled entry among them.
  method LowerPass(A: array<real>, n: nat, j: nat, vv: array<real>) returns (imax: nat)
    requires A.Length == n * n && j < n && vv.Length == n && vv != A
    requires forall i :: 0 <= i < n ==> vv[i] > 0.0
    modifies A
    ensures LowerDone(old(A[..]), A[..], n, j, n)
    ensures j <= imax < n
    ensures LargestScaled(A[..], n, j, n, vv[..], Scaled(vv[imax], At(A[..], n, imax, j)))
    ensures forall i: nat :: imax < i < n ==> Scaled(vv[i], At(A[..], n, i, j)) < Scaled(vv[imax], At(A[..], n, imax, j))
  {
    hide At, Half, Scaled;
    ghost var f := A[..];
    var big := 0.0;
    imax := j;
    for i := j to n
      invariant LowerDone(f, A[..], n, j, i)
      invariant j <= imax < n && (i > j ==> imax < i && big == Scaled(vv[imax], At(A[..], n, imax, j)))
      invariant i == j ==> big == 0.0
      invariant LargestScaled(A[..], n, j, i, vv[..], big)
      invariant forall k: nat :: imax < k < i ==> Scaled(vv[k], At(A[..], n, k, j)) < big
    {
      ghost var g := A[..];
      var s := Reduce(A, n, i, j, j);
      Store(A, n, i, j, s);
      LowerStep(f, g, A[..], n, j, i);
      var tmp := Scaled(vv[i], s);
      ScaledNotNegative(vv[i], s);
      if tmp >= big { big, imax := tmp, i; }
    }
  }

  lemma ScaledNotNegative(v: real, s: real)
    requires v > 0.0
    ensures Scaled(v, s) >= 0.0
  {}

  method SwapRows(A: array<real>, n: nat, r: nat, s: nat)
    requires A.Length == n * n && r < n && s < n
    modifies A
    ensures RowsSwapped(old(A[..]), A[..], n, s, r)
  {
    hide At;
    ghost var f := A[..];
    for k := 0 to n
      invariant forall i: nat, c: nat :: i < n && c < n ==>
        At(A[..], n, i, c) == At(f, n, if c < k then Swapped(s, r, i) else i, c)
    {
      var tmp := Load(A, n, r, k);
      var other := Load(A, n, s, k);
      Store(A, n, r, k, other);
      Store(A, n, s, k, tmp);
    }
  }

  // Divides the part of column j below the diagonal by the pivot.
  method ScaleColumn(A: array<real>, n: nat, j: nat)
    requires A.Length == n * n && j < n && At(A[..], n, j, j) != 0.0
    modifies A
    ensures ColumnScaled(old(A[..]), A[..], n, j)
  {
    hide At;
    ghost var f := A[..];
    var pivot := Load(A, n, j, j);
    var tmp := 1.0 / pivot;
    for i := j + 1 to n
      invariant forall r: nat, c: nat :: r < n && c < n ==>
        At(A[..], n, r, c) == if c == j && j < r < i then At(f, n, r, j) / pivot else At(f, n, r, c)
    {
      var v := Load(A, n, i, j);
      Reciprocal(v, pivot);
      Store(A, n, i, j, v * tmp);
    }
  }

  lemma Reciprocal(v: real, d: real)
    requires d != 0.0
    ensures v * (1.0 / d) == v / d
  {}

  // One pass over column j: returns the chosen pivot row, or fails if its entry is zero.
  method Column(A: array<real>, n: nat, j: nat, vv: array<real>)
    returns (ok: bool, imax: nat, ghost f1: seq<real>, ghost f2: seq<real>, ghost f3: seq<real>)
    requires A.Length == n * n && j < n && vv.Length == n && vv != A
    requires forall i :: 0 <= i < n ==> vv[i] > 0.0
    modifies A, vv
    ensures forall i :: 0 <= i < n ==> vv[i] > 0.0
    ensures j <= imax < n && UpperDone(old(A[..]), f1, n, j, j) && LowerDone(f1, f2, n, j, n)
    ensures RowsSwapped(f2, f3, n, j, imax)
    ensures LargestScaled(f2, n, j, n, old(vv[..]), Scaled(old(vv[imax]), At(f2, n, imax, j)))
    ensures vv[..] == old(vv[..])[imax := old(vv[j])]
    ensures ok ==> At(f3, n, j, j) != 0.0 && ColumnScaled(f3, A[..], n, j)
    ensures !ok ==> forall i: nat :: j <= i < n ==> At(f2, n, i, j) == 0.0
  {
    hide At, Half;
    UpperPass(A, n, j);
    f1 := A[..];
    imax := LowerPass(A, n, j, vv);
    f2 := A[..];
    ghost var weights := vv[..];
    if j != imax {
      SwapRows(A, n, imax, j);
      vv[imax] := vv[j];
    }
    f3 := A[..];
    SwapNothing(f2, n, j);
    var pivot := Load(A, n, j, j);
    if pivot == 0.0 {
      AllZero(f2, n, j, imax, weights);
      return false, imax, f1, f2, f3;
    }
    if j != n - 1 {
      ScaleColumn(A, n, j);
    }
    ok := true;
  }

  lemma SwapNothing(f: seq<real>, n: nat, j: nat)
    ensures RowsSwapped(f, f, n, j, j)
  {
    hide At;
  }

  // If the largest scaled entry is zero, all are.
  lemma AllZero(g: seq<real>, n: nat, j: nat, imax: nat, vv: seq<real>)
    requires |vv| == n && j <= imax < n && At(g, n, imax, j) == 0.0
    requires forall i :: 0 <= i < n ==> vv[i] > 0.0
    requires LargestScaled(g, n, j, n, vv, Scaled(vv[imax], At(g, n, imax, j)))
    ensures forall i: nat :: j <= i < n ==> At(g, n, i, j) == 0.0
  {
    hide At;
    forall i: nat | j <= i < n ensures At(g, n, i, j) == 0.0 {
      assert Scaled(vv[imax], At(g, n, imax, j)) == 0.0;
      NoProduct(vv[i], Fabs(At(g, n, i, j)));
    }
  }

  lemma NoProduct(v: real, s: real)
    requires v > 0.0 && s >= 0.0 && v * s <= 0.0
    ensures s == 0.0
  {}
}

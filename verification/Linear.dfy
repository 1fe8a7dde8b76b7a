// Finite sums and square matrices over the reals, stored column by column in one sequence.
module Linear {
  import opened Words

  ghost function Sum(f: nat -> real, n: nat): real {
    if n == 0 then 0.0 else Sum(f, n - 1) + f(n - 1)
  }

  lemma {:induction false} SumEq(f: nat -> real, g: nat -> real, n: nat)
    requires forall k :: 0 <= k < n ==> f(k) == g(k)
    ensures Sum(f, n) == Sum(g, n)
  {
    if n > 0 { SumEq(f, g, n - 1); }
  }

  lemma {:induction false} SumZero(f: nat -> real, n: nat)
    requires forall k :: 0 <= k < n ==> f(k) == 0.0
    ensures Sum(f, n) == 0.0
  {
    if n > 0 { SumZero(f, n - 1); }
  }

  lemma {:induction false} SumAdd(f: nat -> real, g: nat -> real, h: nat -> real, n: nat)
    requires forall k :: 0 <= k < n ==> h(k) == f(k) + g(k)
    ensures Sum(h, n) == Sum(f, n) + Sum(g, n)
  {
    if n > 0 { SumAdd(f, g, h, n - 1); }
  }

  lemma {:induction false} SumScale(c: real, f: nat -> real, g: nat -> real, n: nat)
    requires forall k :: 0 <= k < n ==> g(k) == c * f(k)
    ensures Sum(g, n) == c * Sum(f, n)
  {
    if n > 0 {
      SumScale(c, f, g, n - 1);
      assert c * (Sum(f, n - 1) + f(n - 1)) == c * Sum(f, n - 1) + c * f(n - 1);
    }
  }

  lemma {:induction false} SumTail(f: nat -> real, m: nat, n: nat)
    requires m <= n && forall k :: m <= k < n ==> f(k) == 0.0
    ensures Sum(f, n) == Sum(f, m)
    decreases n
  {
    if m < n { SumTail(f, m, n - 1); }
  }

  // Only the term at k is not zero.
  lemma SumOne(f: nat -> real, k: nat, n: nat)
    requires k < n && forall m :: 0 <= m < n && m != k ==> f(m) == 0.0
    ensures Sum(f, n) == f(k)
  {
    SumTail(f, k + 1, n);
    SumZero(f, k);
  }

  // The order of two summations does not matter.
  lemma {:induction false} SumSwap(g: (nat, nat) -> real, rows: nat -> real, cols: nat -> real, p: nat, q: nat)
    requires forall m :: 0 <= m < q ==> rows(m) == Sum((c: nat) => g(m, c), p)
    requires forall c :: 0 <= c < p ==> cols(c) == Sum((m: nat) => g(m, c), q)
    ensures Sum(rows, q) == Sum(cols, p)
    decreases p
  {
    if p == 0 {
      SumZero(rows, q);
    } else {
      var rows' := (m: nat) => Sum((c: nat) => g(m, c), p - 1);
      SumSwap(g, rows', cols, p - 1, q);
      var last := (m: nat) => g(m, p - 1);
      forall m | 0 <= m < q ensures rows(m) == rows'(m) + last(m) {
        var r := (c: nat) => g(m, c);
        assert Sum(r, p) == Sum(r, p - 1) + r(p - 1);
      }
      SumAdd(rows', last, rows, q);
      SumEq(last, (m: nat) => g(m, p - 1), q);
    }
  }

  // ---------- matrices ----------

  // Row i of column j.
  function Index(i: nat, j: nat, n: nat): nat { i + j * n }

  lemma IndexBound(i: nat, j: nat, n: nat)
    requires i < n && j < n
    ensures Index(i, j, n) < n * n
  {
    MulMono(j, n - 1, n);
  }

  lemma IndexInjective(i: nat, j: nat, i': nat, j': nat, n: nat)
    requires i < n && i' < n && Index(i, j, n) == Index(i', j', n)
    ensures i == i' && j == j'
  {
    DivModUnique(Index(i, j, n), n, j, i);
    DivModUnique(Index(i', j', n), n, j', i');
  }

  ghost function At(a: seq<real>, n: nat, i: nat, j: nat): real {
    if Index(i, j, n) < |a| then a[Index(i, j, n)] else 0.0
  }

  ghost function Get(x: seq<real>, i: nat): real {
    if i < |x| then x[i] else 0.0
  }

  // The matrix differs from f in the single entry (i, j), which is v.
  ghost predicate Updated(f: seq<real>, g: seq<real>, n: nat, i: nat, j: nat, v: real) {
    forall r: nat, c: nat :: r < n && c < n ==> At(g, n, r, c) == if r == i && c == j then v else At(f, n, r, c)
  }

  lemma UpdateAt(f: seq<real>, n: nat, i: nat, j: nat, v: real)
    requires |f| == n * n && i < n && j < n
    ensures Index(i, j, n) < |f|
    ensures Updated(f, f[Index(i, j, n) := v], n, i, j, v)
  {
    hide Index;
    IndexBound(i, j, n);
    forall r: nat, c: nat | r < n && c < n
      ensures At(f[Index(i, j, n) := v], n, r, c) == if r == i && c == j then v else At(f, n, r, c)
    {
      if Index(r, c, n) == Index(i, j, n) { IndexInjective(r, c, i, j, n); }
    }
  }

  ghost function Times(a: seq<real>, b: seq<real>, n: nat, i: nat, j: nat): real {
    Sum((k: nat) => At(a, n, i, k) * At(b, n, k, j), n)
  }

  // Entry i of the product of matrix a and vector x.
  ghost function RowTimes(a: seq<real>, n: nat, i: nat, x: seq<real>): real {
    Sum((c: nat) => At(a, n, i, c) * Get(x, c), n)
  }

  ghost function Delta(i: nat, j: nat): real { if i == j then 1.0 else 0.0 }

  // a * b is the identity.
  ghost predicate Inverse(a: seq<real>, b: seq<real>, n: nat) {
    forall i: nat, j: nat :: i < n && j < n ==> Times(a, b, n, i, j) == Delta(i, j)
  }

  ghost predicate InKernel(a: seq<real>, n: nat, x: seq<real>) {
    |x| == n && forall i: nat :: i < n ==> RowTimes(a, n, i, x) == 0.0
  }

  // Some non-zero vector is mapped to zero.
  ghost predicate Singular(a: seq<real>, n: nat) {
    exists x: seq<real> :: InKernel(a, n, x) && exists i :: 0 <= i < n && x[i] != 0.0
  }

  // ---------- inverses ----------

  lemma DeltaRow(a: seq<real>, n: nat, i: nat, j: nat)
    requires i < n
    ensures Sum((k: nat) => Delta(i, k) * At(a, n, k, j), n) == At(a, n, i, j)
  {
    hide At;
    SumOne((k: nat) => Delta(i, k) * At(a, n, k, j), i, n);
  }

  lemma DeltaColumn(a: seq<real>, n: nat, i: nat, j: nat)
    requires j < n
    ensures Sum((k: nat) => At(a, n, i, k) * Delta(k, j), n) == At(a, n, i, j)
  {
    hide At;
    SumOne((k: nat) => At(a, n, i, k) * Delta(k, j), j, n);
  }

  // Column j of b * a, less the unit vector.
  ghost function Defect(b: seq<real>, a: seq<real>, n: nat, j: nat): (x: seq<real>)
    ensures |x| == n
  {
    seq(n, (m: nat) => Times(b, a, n, m, j) - Delta(m, j))
  }

  // a * (b * a) = (a * b) * a = a, entry by entry.
  lemma Associate(a: seq<real>, b: seq<real>, n: nat, i: nat, j: nat)
    requires Inverse(a, b, n) && i < n && j < n
    ensures Sum((m: nat) => At(a, n, i, m) * Times(b, a, n, m, j), n) == At(a, n, i, j)
  {
    hide At, Delta;
    var g := (m: nat, k: nat) => At(a, n, i, m) * (At(b, n, m, k) * At(a, n, k, j));
    var rows := (m: nat) => At(a, n, i, m) * Times(b, a, n, m, j);
    var cols := (k: nat) => Delta(i, k) * At(a, n, k, j);
    forall m | 0 <= m < n ensures rows(m) == Sum((k: nat) => g(m, k), n) {
      SumScale(At(a, n, i, m), (k: nat) => At(b, n, m, k) * At(a, n, k, j), (k: nat) => g(m, k), n);
    }
    forall k | 0 <= k < n ensures cols(k) == Sum((m: nat) => g(m, k), n) {
      var f := (m: nat) => At(a, n, i, m) * At(b, n, m, k);
      SumScale(At(a, n, k, j), f, (m: nat) => g(m, k), n);
      assert Times(a, b, n, i, k) == Sum(f, n) by {
        SumEq((m: nat) => At(a, n, i, m) * At(b, n, m, k), f, n);
      }
    }
    SumSwap(g, rows, cols, n, n);
    SumEq(rows, (m: nat) => At(a, n, i, m) * Times(b, a, n, m, j), n);
    SumEq(cols, (k: nat) => Delta(i, k) * At(a, n, k, j), n);
    DeltaRow(a, n, i, j);
  }

  lemma DefectInKernel(a: seq<real>, b: seq<real>, n: nat, j: nat)
    requires Inverse(a, b, n) && j < n
    ensures InKernel(a, n, Defect(b, a, n, j))
  {
    hide At, Inverse, Delta, Times;
    var x := Defect(b, a, n, j);
    forall i: nat | i < n ensures RowTimes(a, n, i, x) == 0.0 {
      var whole := (m: nat) => At(a, n, i, m) * Times(b, a, n, m, j);
      var unit := (m: nat) => At(a, n, i, m) * Delta(m, j);
      var minus := (m: nat) => -1.0 * unit(m);
      var row := (m: nat) => At(a, n, i, m) * Get(x, m);
      Associate(a, b, n, i, j);
      DeltaColumn(a, n, i, j);
      SumEq(whole, (m: nat) => At(a, n, i, m) * Times(b, a, n, m, j), n);
      SumEq(unit, (m: nat) => At(a, n, i, m) * Delta(m, j), n);
      SumScale(-1.0, unit, minus, n);
      forall m | 0 <= m < n ensures row(m) == whole(m) + minus(m) {
        var s, t, u := At(a, n, i, m), Times(b, a, n, m, j), Delta(m, j);
        assert s * (t - u) == s * t + -1.0 * (s * u);
      }
      SumAdd(whole, minus, row, n);
      SumEq(row, (c: nat) => At(a, n, i, c) * Get(x, c), n);
    }
  }

  // For a matrix without a kernel, a right inverse is a left inverse.
  lemma RightInverseIsLeft(a: seq<real>, b: seq<real>, n: nat)
    requires Inverse(a, b, n) && !Singular(a, n)
    ensures Inverse(b, a, n)
  {
    hide Times, Delta, InKernel;
    forall i: nat, j: nat | i < n && j < n ensures Times(b, a, n, i, j) == Delta(i, j) {
      var x := Defect(b, a, n, j);
      DefectInKernel(a, b, n, j);
      assert x[i] == Times(b, a, n, i, j) - Delta(i, j);
    }
  }

  // A singular matrix has no left inverse.
  lemma SingularHasNoInverse(a: seq<real>, b: seq<real>, n: nat)
    requires Singular(a, n)
    ensures !Inverse(b, a, n)
  {
    if Inverse(b, a, n) {
      var x: seq<real> :| InKernel(a, n, x) && exists i :: 0 <= i < n && x[i] != 0.0;
      var i: nat :| i < n && x[i] != 0.0;
      LeftInverseRecovers(a, b, n, x, i);
      assert false;
    }
  }

  lemma LeftInverseRecovers(a: seq<real>, b: seq<real>, n: nat, x: seq<real>, i: nat)
    requires Inverse(b, a, n) && InKernel(a, n, x) && i < n
    ensures x[i] == 0.0
  {
    hide At, Delta, Inverse;
    InverseUndoes(a, b, n, x, i);
    SumZero((c: nat) => At(b, n, i, c) * Get(Applied(a, n, x), c), n);
  }

  // The matrix times a vector.
  ghost function Applied(a: seq<real>, n: nat, x: seq<real>): (y: seq<real>)
    ensures |y| == n && forall i :: 0 <= i < n ==> y[i] == RowTimes(a, n, i, x)
  {
    seq(n, i requires 0 <= i < n => RowTimes(a, n, i, x))
  }

  // An inverse from the left undoes the matrix, on every vector.
  lemma InverseUndoes(a: seq<real>, b: seq<real>, n: nat, x: seq<real>, i: nat)
    requires Inverse(b, a, n) && |x| == n && i < n
    ensures RowTimes(b, n, i, Applied(a, n, x)) == x[i]
  {
    hide *;
    var g := (k: nat, c: nat) => At(b, n, i, k) * (At(a, n, k, c) * Get(x, c));
    var rows := (k: nat) => At(b, n, i, k) * RowTimes(a, n, k, x);
    var cols := (c: nat) => Delta(i, c) * Get(x, c);
    forall k | 0 <= k < n ensures rows(k) == Sum((c: nat) => g(k, c), n) { RowOfSums(a, b, n, x, i, k, g); }
    forall c | 0 <= c < n ensures cols(c) == Sum((k: nat) => g(k, c), n) { ColumnOfSums(a, b, n, x, i, c, g); }
    SumSwap(g, rows, cols, n, n);
    AppliedRow(a, b, n, x, i, rows);
    DeltaPick(x, i, n, cols);
  }

  lemma RowOfSums(a: seq<real>, b: seq<real>, n: nat, x: seq<real>, i: nat, k: nat, g: (nat, nat) -> real)
    requires forall c: nat :: g(k, c) == At(b, n, i, k) * (At(a, n, k, c) * Get(x, c))
    ensures At(b, n, i, k) * RowTimes(a, n, k, x) == Sum((c: nat) => g(k, c), n)
  {
    hide At, Get;
    SumScale(At(b, n, i, k), (c: nat) => At(a, n, k, c) * Get(x, c), (c: nat) => g(k, c), n);
  }

  lemma ColumnOfSums(a: seq<real>, b: seq<real>, n: nat, x: seq<real>, i: nat, c: nat, g: (nat, nat) -> real)
    requires Inverse(b, a, n) && i < n && c < n
    requires forall k: nat :: g(k, c) == At(b, n, i, k) * (At(a, n, k, c) * Get(x, c))
    ensures Delta(i, c) * Get(x, c) == Sum((k: nat) => g(k, c), n)
  {
    hide At, Get, Delta;
    var f := (k: nat) => At(b, n, i, k) * At(a, n, k, c);
    SumScale(Get(x, c), f, (k: nat) => g(k, c), n);
    assert Times(b, a, n, i, c) == Sum(f, n) by {
      SumEq((k: nat) => At(b, n, i, k) * At(a, n, k, c), f, n);
    }
  }

  lemma AppliedRow(a: seq<real>, b: seq<real>, n: nat, x: seq<real>, i: nat, rows: nat -> real)
    requires forall k: nat :: rows(k) == At(b, n, i, k) * RowTimes(a, n, k, x)
    ensures RowTimes(b, n, i, Applied(a, n, x)) == Sum(rows, n)
  {
    hide At;
    SumEq((c: nat) => At(b, n, i, c) * Get(Applied(a, n, x), c), rows, n);
  }

  lemma DeltaPick(x: seq<real>, i: nat, n: nat, cols: nat -> real)
    requires |x| == n && i < n && forall c: nat :: c < n ==> cols(c) == Delta(i, c) * Get(x, c)
    ensures Sum(cols, n) == x[i]
  {
    SumOne(cols, i, n);
  }
}

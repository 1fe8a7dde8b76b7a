// What an in-place LU decomposition with row exchanges means: the unit lower factor below the
// diagonal and the upper factor on and above it, in one matrix.
module LuSpec {
  import opened Words
  import opened Linear

  ghost function Lower(f: seq<real>, n: nat, i: nat, m: nat): real {
    if m < i then At(f, n, i, m) else if m == i then 1.0 else 0.0
  }

  ghost function Upper(f: seq<real>, n: nat, m: nat, c: nat): real {
    if m <= c then At(f, n, m, c) else 0.0
  }

  // The first k terms of the product of row i and column c, taken straight from the stored matrix.
  ghost function Half(f: seq<real>, n: nat, i: nat, c: nat, k: nat): real {
    Sum((m: nat) => At(f, n, i, m) * At(f, n, m, c), k)
  }

  // Entry (i, c) of the product of the two factors.
  ghost function LuEntry(f: seq<real>, n: nat, i: nat, c: nat): real {
    if i <= c then Half(f, n, i, c, i) + At(f, n, i, c)
    else Half(f, n, i, c, c) + At(f, n, i, c) * At(f, n, c, c)
  }

  lemma LuEntryIsProduct(f: seq<real>, n: nat, i: nat, c: nat)
    requires i < n && c < n
    ensures LuEntry(f, n, i, c) == Sum((m: nat) => Lower(f, n, i, m) * Upper(f, n, m, c), n)
  {
    hide At;
    var k := Min(i, c);
    var g := (m: nat) => Lower(f, n, i, m) * Upper(f, n, m, c);
    SumTail(g, k + 1, n);
    SumEq(g, (m: nat) => At(f, n, i, m) * At(f, n, m, c), k);
    assert Sum(g, k + 1) == Sum(g, k) + g(k);
    SumEq(g, (m: nat) => Lower(f, n, i, m) * Upper(f, n, m, c), n);
  }

  // ---------- row exchanges ----------

  ghost predicate IsPermutation(p: seq<nat>, n: nat) {
    && |p| == n
    && (forall i :: 0 <= i < n ==> p[i] < n)
    && (forall i, j :: 0 <= i < n && 0 <= j < n && p[i] == p[j] ==> i == j)
    && (forall r: nat :: r < n ==> r in p)
  }

  ghost function Exchange(p: seq<nat>, i: nat, j: nat): (q: seq<nat>)
    requires i < |p| && j < |p|
    ensures |q| == |p|
  {
    p[i := p[j]][j := p[i]]
  }

  ghost function Swapped(i: nat, j: nat, k: nat): nat {
    if k == i then j else if k == j then i else k
  }

  lemma ExchangeAt(p: seq<nat>, i: nat, j: nat, k: nat)
    requires i < |p| && j < |p| && k < |p|
    ensures Exchange(p, i, j)[k] == p[Swapped(i, j, k)]
  {}

  lemma ExchangePermutes(p: seq<nat>, n: nat, i: nat, j: nat)
    requires IsPermutation(p, n) && i < n && j < n
    ensures IsPermutation(Exchange(p, i, j), n)
  {
    var q := Exchange(p, i, j);
    forall r: nat | r < n ensures r in q {
      assert r in p;
      var k :| 0 <= k < n && p[k] == r;
      assert q[Swapped(i, j, k)] == r;
    }
  }

  // The row order after the first k recorded exchanges.
  ghost function RowOrder(indx: seq<nat>, n: nat, k: nat): (p: seq<nat>)
    requires k <= |indx| && k <= n && forall m :: 0 <= m < k ==> m <= indx[m] < n
    ensures |p| == n
  {
    if k == 0 then seq(n, i requires 0 <= i => i) else Exchange(RowOrder(indx, n, k - 1), k - 1, indx[k - 1])
  }

  lemma {:induction false} RowOrderPermutes(indx: seq<nat>, n: nat, k: nat)
    requires k <= |indx| && k <= n && forall m :: 0 <= m < k ==> m <= indx[m] < n
    ensures IsPermutation(RowOrder(indx, n, k), n)
  {
    if k == 0 {
      var p := RowOrder(indx, n, 0);
      forall r: nat | r < n ensures r in p { assert p[r] == r; }
    } else {
      RowOrderPermutes(indx, n, k - 1);
      ExchangePermutes(RowOrder(indx, n, k - 1), n, k - 1, indx[k - 1]);
    }
  }

  lemma {:induction false} RowOrderAgrees(a: seq<nat>, b: seq<nat>, n: nat, k: nat)
    requires k <= |a| && k <= |b| && k <= n && a[..k] == b[..k]
    requires forall m :: 0 <= m < k ==> m <= a[m] < n
    ensures forall m :: 0 <= m < k ==> m <= b[m] < n
    ensures RowOrder(a, n, k) == RowOrder(b, n, k)
  {
    assert forall m :: 0 <= m < k ==> a[..k][m] == b[..k][m];
    if k > 0 {
      assert a[..k - 1] == a[..k][..k - 1] && b[..k - 1] == b[..k][..k - 1];
      RowOrderAgrees(a, b, n, k - 1);
    }
  }

  // Later exchanges leave earlier rows alone.
  lemma {:induction false} RowOrderSettled(indx: seq<nat>, n: nat, j: nat, k: nat, i: nat)
    requires i < j <= k <= |indx| && k <= n && forall m :: 0 <= m < k ==> m <= indx[m] < n
    ensures RowOrder(indx, n, k)[i] == RowOrder(indx, n, j)[i]
    decreases k
  {
    if j < k { RowOrderSettled(indx, n, j, k - 1, i); }
  }

  // ---------- a decomposition, complete or under way ----------

  // Columns before j are factored, the others hold the matrix a with its rows in the order p.
  ghost predicate Factored(a: seq<real>, f: seq<real>, n: nat, p: seq<nat>, j: nat) {
    && |a| == n * n && |f| == n * n && j <= n && IsPermutation(p, n)
    && (forall i: nat, c: nat :: i < n && c < j ==> LuEntry(f, n, i, c) == At(a, n, p[i], c))
    && (forall i: nat, c: nat :: i < n && j <= c < n ==> At(f, n, i, c) == At(a, n, p[i], c))
    && (forall c: nat :: c < j ==> At(f, n, c, c) != 0.0)
  }

  // Rows i < k of column j hold the upper factor.
  ghost predicate UpperDone(f: seq<real>, g: seq<real>, n: nat, j: nat, k: nat) {
    && |g| == |f|
    && (forall i: nat, c: nat :: i < n && c < n && c != j ==> At(g, n, i, c) == At(f, n, i, c))
    && (forall i: nat :: i < k && i < n ==> At(g, n, i, j) == At(f, n, i, j) - Half(g, n, i, j, i))
    && (forall i: nat :: k <= i < n ==> At(g, n, i, j) == At(f, n, i, j))
  }

  // Rows j to k - 1 of column j hold the lower factor before it is scaled.
  ghost predicate LowerDone(f: seq<real>, g: seq<real>, n: nat, j: nat, k: nat) {
    && |g| == |f|
    && (forall i: nat, c: nat :: i < n && c < n && (c != j || i < j || k <= i) ==> At(g, n, i, c) == At(f, n, i, c))
    && (forall i: nat :: j <= i < k && i < n ==> At(g, n, i, j) == At(f, n, i, j) - Half(g, n, i, j, j))
  }

  ghost predicate RowsSwapped(f: seq<real>, g: seq<real>, n: nat, r: nat, s: nat) {
    && |g| == |f|
    && forall i: nat, c: nat :: i < n && c < n ==> At(g, n, i, c) == At(f, n, Swapped(r, s, i), c)
  }

  ghost predicate ColumnScaled(f: seq<real>, g: seq<real>, n: nat, j: nat) {
    && |g| == |f|
    && forall i: nat, c: nat :: i < n && c < n ==>
         At(g, n, i, c) == if c == j && i > j && At(f, n, j, j) != 0.0 then At(f, n, i, j) / At(f, n, j, j) else At(f, n, i, c)
  }

  // Half only looks at part of the matrix.
  lemma HalfEq(f: seq<real>, g: seq<real>, n: nat, i: nat, i': nat, c: nat, k: nat)
    requires forall m: nat :: m < k ==> At(f, n, i, m) == At(g, n, i', m) && At(f, n, m, c) == At(g, n, m, c)
    ensures Half(f, n, i, c, k) == Half(g, n, i', c, k)
  {
    hide At;
    SumEq((m: nat) => At(f, n, i, m) * At(f, n, m, c), (m: nat) => At(g, n, i', m) * At(g, n, m, c), k);
  }

  // The passes over column j, in the order they are made.
  ghost predicate ColumnPasses(f: seq<real>, f1: seq<real>, f2: seq<real>, f3: seq<real>, f4: seq<real>, n: nat, j: nat, r: nat) {
    && j <= r < n
    && UpperDone(f, f1, n, j, j) && LowerDone(f1, f2, n, j, n)
    && RowsSwapped(f2, f3, n, j, r) && ColumnScaled(f3, f4, n, j)
  }

  // Column j before the rows are exchanged is already factored, up to the scaling of its lower part.
  lemma NewColumn(f: seq<real>, f1: seq<real>, f2: seq<real>, n: nat, j: nat, i: nat)
    requires i < n && j < n && UpperDone(f, f1, n, j, j) && LowerDone(f1, f2, n, j, n)
    ensures Half(f2, n, i, j, Min(i, j)) + At(f2, n, i, j) == At(f, n, i, j)
  {
    hide At, Half;
    if i < j {
      HalfEq(f1, f2, n, i, i, j, i);
    }
  }

  lemma OldColumn(f: seq<real>, f1: seq<real>, f2: seq<real>, f3: seq<real>, f4: seq<real>, n: nat, j: nat, r: nat, i: nat, c: nat)
    requires ColumnPasses(f, f1, f2, f3, f4, n, j, r) && i < n && c < j
    ensures LuEntry(f4, n, i, c) == LuEntry(f, n, Swapped(j, r, i), c)
  {
    hide At, Half;
    var s := Swapped(j, r, i);
    var k := Min(i, c);
    assert forall m: nat :: m < n && m != j ==> At(f4, n, i, m) == At(f, n, s, m);
    forall m: nat | m < k
      ensures At(f4, n, i, m) == At(f, n, s, m) && At(f4, n, m, c) == At(f, n, m, c)
    {
      assert Swapped(j, r, m) == m;
    }
    HalfEq(f4, f, n, i, s, c, k);
    assert Swapped(j, r, c) == c;
  }

  lemma ThisColumn(f: seq<real>, f1: seq<real>, f2: seq<real>, f3: seq<real>, f4: seq<real>, n: nat, j: nat, r: nat, i: nat)
    requires ColumnPasses(f, f1, f2, f3, f4, n, j, r) && i < n && At(f3, n, j, j) != 0.0
    ensures LuEntry(f4, n, i, j) == At(f, n, Swapped(j, r, i), j)
  {
    hide At, Half;
    var s := Swapped(j, r, i);
    var k := Min(i, j);
    NewColumn(f, f1, f2, n, j, s);
    forall m: nat | m < k
      ensures At(f4, n, i, m) == At(f2, n, s, m) && At(f4, n, m, j) == At(f2, n, m, j)
    {
      assert Swapped(j, r, m) == m;
    }
    HalfEq(f4, f2, n, i, s, j, k);
    assert Min(s, j) == k;
    assert At(f4, n, j, j) == At(f3, n, j, j);
  }

  // One column of the decomposition.
  lemma ColumnDone(a: seq<real>, f: seq<real>, f1: seq<real>, f2: seq<real>, f3: seq<real>, f4: seq<real>,
                   n: nat, p: seq<nat>, j: nat, r: nat)
    requires j < n && Factored(a, f, n, p, j) && ColumnPasses(f, f1, f2, f3, f4, n, j, r)
    requires At(f3, n, j, j) != 0.0
    ensures Factored(a, f4, n, Exchange(p, j, r), j + 1)
  {
    hide At, LuEntry;
    var q := Exchange(p, j, r);
    ExchangePermutes(p, n, j, r);
    forall i: nat, c: nat | i < n && c < j + 1 ensures LuEntry(f4, n, i, c) == At(a, n, q[i], c) {
      ExchangeAt(p, j, r, i);
      if c < j {
        OldColumn(f, f1, f2, f3, f4, n, j, r, i, c);
      } else {
        ThisColumn(f, f1, f2, f3, f4, n, j, r, i);
      }
    }
    forall i: nat, c: nat | i < n && j + 1 <= c < n ensures At(f4, n, i, c) == At(a, n, q[i], c) {
      ExchangeAt(p, j, r, i);
    }
    forall c: nat | c < j + 1 ensures At(f4, n, c, c) != 0.0 {
      if c < j { assert Swapped(j, r, c) == c; }
    }
  }
}

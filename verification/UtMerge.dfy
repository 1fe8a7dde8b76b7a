// Bottom-up merge sort as a function on sequences, and why it is a stable sort.
module UtMerge {
  import opened Words
  import opened Sequences

  function Merge<T>(p: seq<T>, q: seq<T>, cmp: (T, T) -> int): (r: seq<T>)
    ensures |r| == |p| + |q|
    decreases |p| + |q|
  {
    if p == [] then q
    else if q == [] then p
    else if cmp(p[0], q[0]) <= 0 then [p[0]] + Merge(p[1..], q, cmp)
    else [q[0]] + Merge(p, q[1..], cmp)
  }

  // One pass: neighbouring runs of m elements are merged.
  function Pass<T>(s: seq<T>, m: nat, cmp: (T, T) -> int): (r: seq<T>)
    requires m > 0
    ensures |r| == |s|
    decreases |s|
  {
    if s == [] then []
    else
      var mid, hi := Min(m, |s|), Min(2 * m, |s|);
      Merge(s[..mid], s[mid..hi], cmp) + Pass(s[hi..], m, cmp)
  }

  // Passes over runs of doubling length until a pass merges no more than two runs.
  function MergeSort<T>(s: seq<T>, m: nat, cmp: (T, T) -> int): (r: seq<T>)
    requires m > 0
    ensures |r| == |s|
    decreases |s| - m
  {
    if |s| <= 2 * m then Pass(s, m, cmp) else MergeSort(Pass(s, m, cmp), 2 * m, cmp)
  }

  // ---------- permutation ----------

  lemma HeadCounts<T>(s: seq<T>)
    requires s != []
    ensures multiset(s) == multiset{s[0]} + multiset(s[1..])
  {
    assert s == [s[0]] + s[1..];
  }

  lemma CutCounts<T>(s: seq<T>, a: nat, b: nat)
    requires a <= b <= |s|
    ensures multiset(s) == multiset(s[..a]) + multiset(s[a..b]) + multiset(s[b..])
  {
    assert s == s[..a] + s[a..b] + s[b..];
  }

  lemma {:induction false} MergePermutes<T>(p: seq<T>, q: seq<T>, cmp: (T, T) -> int)
    ensures multiset(Merge(p, q, cmp)) == multiset(p) + multiset(q)
    decreases |p| + |q|
  {
    if p != [] && q != [] {
      if cmp(p[0], q[0]) <= 0 {
        MergePermutes(p[1..], q, cmp);
        HeadCounts(p);
      } else {
        MergePermutes(p, q[1..], cmp);
        HeadCounts(q);
      }
    }
  }

  lemma {:induction false} PassPermutes<T>(s: seq<T>, m: nat, cmp: (T, T) -> int)
    requires m > 0
    ensures multiset(Pass(s, m, cmp)) == multiset(s)
    decreases |s|
  {
    if s != [] {
      var mid, hi := Min(m, |s|), Min(2 * m, |s|);
      MergePermutes(s[..mid], s[mid..hi], cmp);
      PassPermutes(s[hi..], m, cmp);
      CutCounts(s, mid, hi);
    }
  }

  lemma {:induction false} MergeSortPermutes<T>(s: seq<T>, m: nat, cmp: (T, T) -> int)
    requires m > 0
    ensures multiset(MergeSort(s, m, cmp)) == multiset(s)
    decreases |s| - m
  {
    PassPermutes(s, m, cmp);
    if |s| > 2 * m { MergeSortPermutes(Pass(s, m, cmp), 2 * m, cmp); }
  }

  // ---------- order ----------

  // On these elements the comparison is total and transitive.
  ghost predicate Preorder<T>(cmp: (T, T) -> int, dom: set<T>) {
    && (forall a, b :: a in dom && b in dom ==> cmp(a, b) <= 0 || cmp(b, a) <= 0)
    && (forall a, b, c :: a in dom && b in dom && c in dom && cmp(a, b) <= 0 && cmp(b, c) <= 0 ==> cmp(a, c) <= 0)
  }

  // a goes before b: it is smaller, or equal and earlier in the original order.
  ghost predicate Lt<T>(a: T, b: T, cmp: (T, T) -> int, idx: T -> int) {
    cmp(a, b) <= 0 && (cmp(b, a) <= 0 ==> idx(a) < idx(b))
  }

  ghost predicate Ordered<T>(s: seq<T>, cmp: (T, T) -> int, idx: T -> int) {
    forall i, j :: 0 <= i < j < |s| ==> Lt(s[i], s[j], cmp, idx)
  }

  ghost predicate Before<T>(s: seq<T>, t: seq<T>, idx: T -> int) {
    forall x, y :: x in s && y in t ==> idx(x) < idx(y)
  }

  ghost predicate Inside<T>(s: seq<T>, dom: set<T>) {
    forall x :: x in s ==> x in dom
  }

  lemma LtTransitive<T>(a: T, b: T, c: T, cmp: (T, T) -> int, idx: T -> int, dom: set<T>)
    requires Preorder(cmp, dom) && a in dom && b in dom && c in dom && Lt(a, b, cmp, idx) && Lt(b, c, cmp, idx)
    ensures Lt(a, c, cmp, idx)
  {}

  lemma MergeElement<T>(p: seq<T>, q: seq<T>, cmp: (T, T) -> int, x: T)
    ensures x in Merge(p, q, cmp) <==> x in p || x in q
  {
    MergePermutes(p, q, cmp);
    assert x in Merge(p, q, cmp) <==> x in multiset(Merge(p, q, cmp));
    assert x in p <==> x in multiset(p);
    assert x in q <==> x in multiset(q);
  }

  lemma OrderedCons<T>(h: T, s: seq<T>, cmp: (T, T) -> int, idx: T -> int)
    requires Ordered(s, cmp, idx) && forall x :: x in s ==> Lt(h, x, cmp, idx)
    ensures Ordered([h] + s, cmp, idx)
  {
    hide Lt;
    var t := [h] + s;
    forall i, j | 0 <= i < j < |t| ensures Lt(t[i], t[j], cmp, idx) {
      assert t[j] == s[j - 1];
      if i > 0 { assert t[i] == s[i - 1]; }
    }
  }

  lemma FirstIsLeast<T>(s: seq<T>, x: T, cmp: (T, T) -> int, idx: T -> int)
    requires Ordered(s, cmp, idx) && s != []
    ensures x in s ==> x == s[0] || x in s[1..]
    ensures x in s[1..] ==> Lt(s[0], x, cmp, idx)
  {
    hide Lt;
    if x in s {
      var i :| 0 <= i < |s| && s[i] == x;
      assert i > 0 ==> s[1..][i - 1] == x;
    }
    if x in s[1..] {
      var i :| 0 <= i < |s[1..]| && s[1..][i] == x;
      assert s[i + 1] == x;
    }
  }

  // A head that goes before the first element of t goes before all of t.
  lemma GoesFirst<T>(h: T, t: seq<T>, x: T, cmp: (T, T) -> int, idx: T -> int, dom: set<T>)
    requires Preorder(cmp, dom) && h in dom && Inside(t, dom) && Ordered(t, cmp, idx) && x in t
    requires Lt(h, t[0], cmp, idx)
    ensures Lt(h, x, cmp, idx)
  {
    FirstIsLeast(t, x, cmp, idx);
    if x in t[1..] { LtTransitive(h, t[0], x, cmp, idx, dom); }
  }

  // Merging two runs of which the first comes from earlier positions.
  lemma {:induction false} MergeOrdered<T>(p: seq<T>, q: seq<T>, cmp: (T, T) -> int, idx: T -> int, dom: set<T>)
    requires Preorder(cmp, dom) && Inside(p, dom) && Inside(q, dom)
    requires Ordered(p, cmp, idx) && Ordered(q, cmp, idx) && Before(p, q, idx)
    ensures Ordered(Merge(p, q, cmp), cmp, idx)
    decreases |p| + |q|
  {
    if p != [] && q != [] {
      if cmp(p[0], q[0]) <= 0 {
        MergeOrdered(p[1..], q, cmp, idx, dom);
        assert Lt(p[0], q[0], cmp, idx);
        var rest := Merge(p[1..], q, cmp);
        forall x | x in rest ensures Lt(p[0], x, cmp, idx) {
          MergeElement(p[1..], q, cmp, x);
          if x in p[1..] { FirstIsLeast(p, x, cmp, idx); } else { GoesFirst(p[0], q, x, cmp, idx, dom); }
        }
        OrderedCons(p[0], rest, cmp, idx);
      } else {
        MergeOrdered(p, q[1..], cmp, idx, dom);
        assert Lt(q[0], p[0], cmp, idx);
        var rest := Merge(p, q[1..], cmp);
        forall x | x in rest ensures Lt(q[0], x, cmp, idx) {
          MergeElement(p, q[1..], cmp, x);
          if x in q[1..] { FirstIsLeast(q, x, cmp, idx); } else { GoesFirst(q[0], p, x, cmp, idx, dom); }
        }
        OrderedCons(q[0], rest, cmp, idx);
      }
    }
  }

  // s consists of ordered runs of m elements (the last may be shorter), each from earlier positions than the next.
  ghost predicate Runs<T>(s: seq<T>, m: nat, cmp: (T, T) -> int, idx: T -> int)
    requires m > 0
    decreases |s|
  {
    if |s| <= m then Ordered(s, cmp, idx)
    else Ordered(s[..m], cmp, idx) && Before(s[..m], s[m..], idx) && Runs(s[m..], m, cmp, idx)
  }

  lemma PassElement<T>(s: seq<T>, m: nat, cmp: (T, T) -> int, x: T)
    requires m > 0
    ensures x in Pass(s, m, cmp) <==> x in s
  {
    PassPermutes(s, m, cmp);
    assert x in Pass(s, m, cmp) <==> x in multiset(Pass(s, m, cmp));
    assert x in s <==> x in multiset(s);
  }

  lemma MergedBefore<T>(p: seq<T>, q: seq<T>, r: seq<T>, m: nat, cmp: (T, T) -> int, idx: T -> int)
    requires m > 0 && Before(p, r, idx) && Before(q, r, idx)
    ensures Before(Merge(p, q, cmp), Pass(r, m, cmp), idx)
  {
    forall x, y | x in Merge(p, q, cmp) && y in Pass(r, m, cmp) ensures idx(x) < idx(y) {
      MergeElement(p, q, cmp, x);
      PassElement(r, m, cmp, y);
    }
  }

  lemma BeforeSuffix<T>(p: seq<T>, s: seq<T>, k: nat, idx: T -> int)
    requires k <= |s| && Before(p, s, idx)
    ensures Before(p, s[k..], idx) && Before(p, s[..k], idx)
  {}

  lemma ShortRuns<T>(s: seq<T>, m: nat, cmp: (T, T) -> int, idx: T -> int)
    requires 0 < m && |s| <= 2 * m && Runs(s, m, cmp, idx)
    ensures var mid := Min(m, |s|); Ordered(s[..mid], cmp, idx) && Ordered(s[mid..], cmp, idx) && Before(s[..mid], s[mid..], idx)
  {}

  // A pass doubles the length of the runs.
  lemma {:induction false} PassRuns<T>(s: seq<T>, m: nat, cmp: (T, T) -> int, idx: T -> int, dom: set<T>)
    requires m > 0 && Preorder(cmp, dom) && Inside(s, dom) && Runs(s, m, cmp, idx)
    ensures Runs(Pass(s, m, cmp), 2 * m, cmp, idx)
    decreases |s|
  {
    hide Preorder, Ordered, Before;
    var mid, hi := Min(m, |s|), Min(2 * m, |s|);
    var p, q, r := s[..mid], s[mid..hi], s[hi..];
    var merged := Merge(p, q, cmp);
    if s != [] {
      if |s| <= 2 * m {
        assert r == [] && q == s[mid..];
        ShortRuns(s, m, cmp, idx);
        MergeOrdered(p, q, cmp, idx, dom);
        assert Pass(s, m, cmp) == merged;
      } else {
        var t := s[m..];
        assert t[..m] == q && t[m..] == r;
        BeforeSuffix(p, t, m, idx);
        MergeOrdered(p, q, cmp, idx, dom);
        PassRuns(r, m, cmp, idx, dom);
        MergedBefore(p, q, r, m, cmp, idx);
        var all := Pass(s, m, cmp);
        assert all[..2 * m] == merged && all[2 * m..] == Pass(r, m, cmp);
      }
    }
  }

  lemma {:induction false} MergeSortOrdered<T>(s: seq<T>, m: nat, cmp: (T, T) -> int, idx: T -> int, dom: set<T>)
    requires m > 0 && Preorder(cmp, dom) && Inside(s, dom) && Runs(s, m, cmp, idx)
    ensures Ordered(MergeSort(s, m, cmp), cmp, idx)
    decreases |s| - m
  {
    hide Preorder, Lt;
    PassRuns(s, m, cmp, idx, dom);
    if |s| > 2 * m {
      forall x | x in Pass(s, m, cmp) ensures x in dom { PassElement(s, m, cmp, x); }
      MergeSortOrdered(Pass(s, m, cmp), 2 * m, cmp, idx, dom);
    }
  }

  // ---------- the stable sort ----------

  // r has the elements of s in ascending order, equal ones in the order they have in s.
  ghost predicate StablySorted<T>(s: seq<T>, r: seq<T>, cmp: (T, T) -> int) {
    && multiset(r) == multiset(s)
    && (forall i, j :: 0 <= i < j < |r| ==> cmp(r[i], r[j]) <= 0)
    && (forall i, j, k, l :: 0 <= i < j < |r| && 0 <= k < |s| && 0 <= l < |s| && s[k] == r[i] && s[l] == r[j] && cmp(r[j], r[i]) <= 0 ==> k < l)
  }

  ghost function IndexOf<T>(s: seq<T>, x: T): int {
    if x in s then (var k :| 0 <= k < |s| && s[k] == x; k) else -1
  }

  lemma {:induction false} Singletons<T>(s: seq<T>, from: nat, cmp: (T, T) -> int, idx: T -> int)
    requires from <= |s| && forall i :: 0 <= i < |s| ==> idx(s[i]) == i
    ensures Runs(s[from..], 1, cmp, idx)
    decreases |s| - from
  {
    var t := s[from..];
    if |t| > 1 {
      Singletons(s, from + 1, cmp, idx);
      assert t[1..] == s[from + 1..];
      forall x, y | x in t[..1] && y in t[1..] ensures idx(x) < idx(y) {
        var j :| 0 <= j < |t[1..]| && t[1..][j] == y;
        assert x == s[from] && y == s[from + 1 + j];
      }
    }
  }

  lemma SortIsStable<T>(s: seq<T>, cmp: (T, T) -> int)
    requires Distinct(s) && Preorder(cmp, set x | x in s)
    ensures StablySorted(s, MergeSort(s, 1, cmp), cmp)
  {
    var idx := (x: T) => IndexOf(s, x);
    var r := MergeSort(s, 1, cmp);
    assert s[0..] == s;
    Singletons(s, 0, cmp, idx);
    MergeSortOrdered(s, 1, cmp, idx, set x | x in s);
    MergeSortPermutes(s, 1, cmp);
    forall i, j | 0 <= i < j < |r| ensures cmp(r[i], r[j]) <= 0 && (cmp(r[j], r[i]) <= 0 ==> idx(r[i]) < idx(r[j])) {
      assert Lt(r[i], r[j], cmp, idx);
    }
  }

  // ---------- sorting along ----------

  ghost function Image<T, U>(s: seq<T>, f: T -> U): (r: seq<U>)
    ensures |r| == |s| && forall i :: 0 <= i < |s| ==> r[i] == f(s[i])
  {
    seq(|s|, i requires 0 <= i < |s| => f(s[i]))
  }

  // Comparing these elements is comparing their images.
  ghost predicate Respects<T, U>(f: T -> U, cmp: (T, T) -> int, cmpImage: (U, U) -> int, dom: set<T>) {
    forall a, b :: a in dom && b in dom ==> cmpImage(f(a), f(b)) == cmp(a, b)
  }

  lemma ImageCut<T, U>(s: seq<T>, f: T -> U, a: nat, b: nat)
    requires a <= b <= |s|
    ensures Image(s, f)[a..b] == Image(s[a..b], f)
  {}

  lemma ImageRest<T, U>(s: seq<T>, f: T -> U)
    requires s != []
    ensures Image(s, f) != [] && Image(s, f)[0] == f(s[0]) && Image(s, f)[1..] == Image(s[1..], f)
  {}

  lemma ImageJoin<T, U>(s: seq<T>, t: seq<T>, f: T -> U)
    ensures Image(s + t, f) == Image(s, f) + Image(t, f)
  {}

  lemma ImageFirst<T, U>(x: T, s: seq<T>, f: T -> U)
    ensures Image([x] + s, f) == [f(x)] + Image(s, f)
  {}

  lemma MergeFirst<T>(p: seq<T>, q: seq<T>, cmp: (T, T) -> int)
    requires p != [] && q != []
    ensures Merge(p, q, cmp) == if cmp(p[0], q[0]) <= 0 then [p[0]] + Merge(p[1..], q, cmp) else [q[0]] + Merge(p, q[1..], cmp)
  {}

  lemma MergeNone<T>(p: seq<T>, q: seq<T>, cmp: (T, T) -> int)
    ensures p == [] ==> Merge(p, q, cmp) == q
    ensures q == [] ==> Merge(p, q, cmp) == p
  {}

  lemma {:induction false} MergeImage<T, U>(p: seq<T>, q: seq<T>, f: T -> U, cmp: (T, T) -> int, cmpImage: (U, U) -> int, dom: set<T>)
    requires Respects(f, cmp, cmpImage, dom) && Inside(p, dom) && Inside(q, dom)
    ensures Image(Merge(p, q, cmp), f) == Merge(Image(p, f), Image(q, f), cmpImage)
    decreases |p| + |q|
  {
    hide Merge, Image;
    if p != [] && q != [] {
      ImageRest(p, f);
      ImageRest(q, f);
      MergeFirst(p, q, cmp);
      MergeFirst(Image(p, f), Image(q, f), cmpImage);
      if cmp(p[0], q[0]) <= 0 {
        MergeImage(p[1..], q, f, cmp, cmpImage, dom);
        ImageFirst(p[0], Merge(p[1..], q, cmp), f);
      } else {
        MergeImage(p, q[1..], f, cmp, cmpImage, dom);
        ImageFirst(q[0], Merge(p, q[1..], cmp), f);
      }
    } else {
      MergeNone(p, q, cmp);
      MergeNone(Image(p, f), Image(q, f), cmpImage);
    }
  }

  lemma {:induction false} PassImage<T, U>(s: seq<T>, m: nat, f: T -> U, cmp: (T, T) -> int, cmpImage: (U, U) -> int, dom: set<T>)
    requires m > 0 && Respects(f, cmp, cmpImage, dom) && Inside(s, dom)
    ensures Image(Pass(s, m, cmp), f) == Pass(Image(s, f), m, cmpImage)
    decreases |s|
  {
    hide Merge, Respects, Image;
    if s != [] {
      var mid, hi := Min(m, |s|), Min(2 * m, |s|);
      var t := Image(s, f);
      MergeImage(s[..mid], s[mid..hi], f, cmp, cmpImage, dom);
      PassImage(s[hi..], m, f, cmp, cmpImage, dom);
      ImageCut(s, f, 0, mid);
      ImageCut(s, f, mid, hi);
      ImageCut(s, f, hi, |s|);
      assert t[..mid] == t[0..mid] && s[..mid] == s[0..mid] && t[hi..] == t[hi..|s|] && s[hi..] == s[hi..|s|];
      assert Pass(t, m, cmpImage) == Merge(t[..mid], t[mid..hi], cmpImage) + Pass(t[hi..], m, cmpImage);
      ImageJoin(Merge(s[..mid], s[mid..hi], cmp), Pass(s[hi..], m, cmp), f);
    }
  }

  // Sorting commutes with taking images.
  lemma {:induction false} SortImage<T, U>(s: seq<T>, m: nat, f: T -> U, cmp: (T, T) -> int, cmpImage: (U, U) -> int, dom: set<T>)
    requires m > 0 && Respects(f, cmp, cmpImage, dom) && Inside(s, dom)
    ensures Image(MergeSort(s, m, cmp), f) == MergeSort(Image(s, f), m, cmpImage)
    decreases |s| - m
  {
    hide Pass, Respects;
    PassImage(s, m, f, cmp, cmpImage, dom);
    if |s| > 2 * m {
      forall x | x in Pass(s, m, cmp) ensures x in dom { PassElement(s, m, cmp, x); }
      SortImage(Pass(s, m, cmp), 2 * m, f, cmp, cmpImage, dom);
    }
  }

  lemma SortElement<T>(s: seq<T>, cmp: (T, T) -> int, x: T)
    ensures x in MergeSort(s, 1, cmp) <==> x in s
  {
    MergeSortPermutes(s, 1, cmp);
    assert x in MergeSort(s, 1, cmp) <==> x in multiset(MergeSort(s, 1, cmp));
    assert x in s <==> x in multiset(s);
  }
}

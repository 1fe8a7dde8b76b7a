// Sorting the application order in place, by relinking its items.
module UtSort {
  import opened Words
  import opened Sequences
  import opened UtItems
  import opened UtTables
  import opened UtMerge

  // The items from position a to b still lead to their successors in s.
  ghost predicate Onward(s: seq<UtItem>, a: int, b: int)
    reads s`next
  {
    forall i {:trigger s[i].next} :: 0 <= a <= i < b && i < |s| ==> s[i].next == ItemAt(s, i + 1)
  }

  // The items emitted so far, linked from list to tail; the link behind the tail is not set yet.
  ghost predicate Emitted(out: seq<UtItem>, list: UtItem?, tail: UtItem?)
    reads out`next, out`prev
  {
    && list == ItemAt(out, 0) && tail == ItemAt(out, |out| - 1) && Distinct(out)
    && (forall i {:trigger out[i].prev} :: 0 <= i < |out| ==> out[i].prev == ItemAt(out, i - 1))
    && (forall i {:trigger out[i].next} :: 0 <= i < |out| - 1 ==> out[i].next == ItemAt(out, i + 1))
  }

  method Emit(e: UtItem, list: UtItem?, tail: UtItem?, ghost out: seq<UtItem>) returns (first: UtItem, last: UtItem)
    requires Emitted(out, list, tail) && e !in out
    modifies e`prev, out`next
    ensures Emitted(out + [e], first, last)
  {
    if tail != null {
      tail.next := e;
      first := list;
    } else {
      first := e;
    }
    e.prev := tail;
    last := e;
    ghost var all := out + [e];
    forall i | 0 <= i < |all| ensures all[i].prev == ItemAt(all, i - 1) {
      if i > 0 { assert all[i - 1] == out[i - 1]; }
    }
    forall i | 0 <= i < |all| - 1 ensures all[i].next == ItemAt(all, i + 1) {
      if i < |out| - 1 { assert all[i + 1] == out[i + 1]; }
    }
  }

  // Steps over up to insize items.
  method Advance(p: UtItem, insize: nat, ghost s: seq<UtItem>, ghost c: nat) returns (q: UtItem?, psize: nat)
    requires insize > 0 && c < |s| && p == s[c] && Onward(s, c, |s|)
    ensures psize == Min(insize, |s| - c) && q == ItemAt(s, c + psize)
  {
    q, psize := p, 0;
    var i := 0;
    while i < insize
      invariant i <= insize && psize == i && c + psize < |s| && q == s[c + psize]
    {
      psize := psize + 1;
      q := q.next;
      if q == null {
        break;
      }
      i := i + 1;
    }
  }

  lemma TakeP(s: seq<UtItem>, a: nat, mid: nat, b: nat, hi: nat, cmp: (UtItem, UtItem) -> int)
    requires a < mid <= b <= hi <= |s| && (b == hi || cmp(s[a], s[b]) <= 0)
    ensures Merge(s[a..mid], s[b..hi], cmp) == [s[a]] + Merge(s[a + 1..mid], s[b..hi], cmp)
  {
    assert s[a..mid] == [s[a]] + s[a + 1..mid];
    assert s[a..mid][1..] == s[a + 1..mid];
  }

  lemma TakeQ(s: seq<UtItem>, a: nat, mid: nat, b: nat, hi: nat, cmp: (UtItem, UtItem) -> int)
    requires a <= mid <= b < hi <= |s| && (a == mid || cmp(s[a], s[b]) > 0)
    ensures Merge(s[a..mid], s[b..hi], cmp) == [s[b]] + Merge(s[a..mid], s[b + 1..hi], cmp)
  {
    assert s[b..hi] == [s[b]] + s[b + 1..hi];
    assert s[b..hi][1..] == s[b + 1..hi];
  }

  // The two cursors of a merge: p with psize items left in its run, q with qsize at most.
  ghost predicate Cursors(p: UtItem?, psize: nat, q: UtItem?, qsize: nat, s: seq<UtItem>, a: nat, mid: nat, b: nat, hi: nat) {
    && a <= mid <= b <= hi <= |s|
    && p == ItemAt(s, a) && psize == mid - a && q == ItemAt(s, b) && qsize >= hi - b
    && (qsize == hi - b || hi == |s|)
  }

  // What a comparison function may look at: an item, and the key that is stored in it.
  datatype Entry = Entry(key: Key, item: UtItem)

  ghost predicate Compares(cmpfcn: (Entry, Entry) -> int, cmp: (UtItem, UtItem) -> int, s: seq<UtItem>)
    reads s`key
  {
    forall i, j :: 0 <= i < |s| && 0 <= j < |s| ==> cmpfcn(Entry(s[i].key, s[i]), Entry(s[j].key, s[j])) == cmp(s[i], s[j])
  }

  // The item to emit next, and the cursors behind it.
  method TakeNext(p: UtItem?, psize: nat, q: UtItem?, qsize: nat, cmpfcn: (Entry, Entry) -> int, ghost cmp: (UtItem, UtItem) -> int,
                  ghost s: seq<UtItem>, ghost a: nat, ghost mid: nat, ghost b: nat, ghost hi: nat)
    returns (e: UtItem, p1: UtItem?, psize1: nat, q1: UtItem?, qsize1: nat, ghost a1: nat, ghost b1: nat)
    requires Cursors(p, psize, q, qsize, s, a, mid, b, hi) && Onward(s, a, mid) && Onward(s, b, |s|)
    requires psize != 0 || (qsize != 0 && q != null)
    requires Compares(cmpfcn, cmp, s)
    ensures Cursors(p1, psize1, q1, qsize1, s, a1, mid, b1, hi)
    ensures (a < mid && e == s[a] && a1 == a + 1 && b1 == b) || (b < hi && e == s[b] && a1 == a && b1 == b + 1)
    ensures Merge(s[a..mid], s[b..hi], cmp) == [e] + Merge(s[a1..mid], s[b1..hi], cmp)
  {
    p1, psize1, q1, qsize1, a1, b1 := p, psize, q, qsize, a, b;
    if psize == 0 {
      e := q;
      q1, qsize1, b1 := q.next, qsize - 1, b + 1;
      TakeQ(s, a, mid, b, hi, cmp);
    } else if qsize == 0 || q == null {
      e := p;
      p1, psize1, a1 := p.next, psize - 1, a + 1;
      TakeP(s, a, mid, b, hi, cmp);
    } else if cmpfcn(Entry(p.key, p), Entry(q.key, q)) <= 0 {
      e := p;
      p1, psize1, a1 := p.next, psize - 1, a + 1;
      TakeP(s, a, mid, b, hi, cmp);
    } else {
      e := q;
      q1, qsize1, b1 := q.next, qsize - 1, b + 1;
      TakeQ(s, a, mid, b, hi, cmp);
    }
  }

  ghost predicate NotIn(out: seq<UtItem>, s: seq<UtItem>, a: nat, b: nat) {
    forall i :: a <= i < b && i < |s| ==> s[i] !in out
  }

  ghost predicate AllIn(out: seq<UtItem>, s: seq<UtItem>) {
    forall i :: 0 <= i < |out| ==> out[i] in s
  }

  // Merges the run of psize items at p with the run of up to insize items at q onto the emitted list.
  method MergeRuns(p0: UtItem?, psize0: nat, q0: UtItem?, insize: nat, cmpfcn: (Entry, Entry) -> int, list0: UtItem?, tail0: UtItem?,
                   ghost cmp: (UtItem, UtItem) -> int, ghost s: seq<UtItem>, ghost c: nat, ghost out: seq<UtItem>)
    returns (q: UtItem?, list: UtItem?, tail: UtItem?, ghost now: seq<UtItem>)
    requires Distinct(s) && Onward(s, c, |s|) && c + psize0 <= |s| && p0 == ItemAt(s, c) && q0 == ItemAt(s, c + psize0)
    requires Emitted(out, list0, tail0) && NotIn(out, s, c, |s|) && AllIn(out, s) && Compares(cmpfcn, cmp, s)
    modifies s`next, s`prev
    ensures var mid, hi := c + psize0, Min(c + psize0 + insize, |s|);
      && now == out + Merge(s[c..mid], s[mid..hi], cmp)
      && q == ItemAt(s, hi) && Onward(s, hi, |s|)
      && Emitted(now, list, tail) && NotIn(now, s, hi, |s|) && AllIn(now, s)
  {
    hide Merge, Emitted, Distinct, NotIn, Cursors, Onward, Compares, InMerge, AllIn;
    ghost var mid: nat, hi: nat := c + psize0, Min(c + psize0 + insize, |s|);
    ghost var a: nat, b: nat := c, mid;
    ghost var goal := out + Merge(s[c..mid], s[mid..hi], cmp);
    var p, psize: nat, qsize: nat := p0, psize0, insize;
    q, list, tail, now := q0, list0, tail0, out;
    StartMerge(p, psize, q, qsize, s, c, list, tail, out, cmp, goal);
    while psize != 0 || (qsize != 0 && q != null)
      invariant InMerge(p, psize, q, qsize, s, a, mid, b, hi, list, tail, now, cmp, goal)
      decreases mid - a + hi - b
    {
      InReach(p, psize, q, qsize, s, a, mid, b, hi, list, tail, now, cmp, goal);
      p, psize, q, qsize, list, tail, a, b, now := MergeOne(p, psize, q, qsize, list, tail, cmpfcn, cmp, s, a, mid, b, hi, now, goal);
    }
    EndMerge(p, psize, q, qsize, s, a, mid, b, hi, list, tail, now, cmp, goal);
  }

  // Between two runs, with the items before a and those from mid to b emitted.
  ghost predicate InMerge(p: UtItem?, psize: nat, q: UtItem?, qsize: nat, s: seq<UtItem>, a: nat, mid: nat, b: nat, hi: nat,
                          list: UtItem?, tail: UtItem?, now: seq<UtItem>, cmp: (UtItem, UtItem) -> int, goal: seq<UtItem>)
    reads s`next, now`next, now`prev
  {
    && a <= mid <= b <= hi <= |s| && Cursors(p, psize, q, qsize, s, a, mid, b, hi)
    && Onward(s, a, mid) && Onward(s, b, |s|)
    && Emitted(now, list, tail) && NotIn(now, s, a, mid) && NotIn(now, s, b, |s|) && AllIn(now, s)
    && now + Merge(s[a..mid], s[b..hi], cmp) == goal
  }

  // Emits the next item of the merge.
  method MergeOne(p0: UtItem?, psize0: nat, q0: UtItem?, qsize0: nat, list0: UtItem?, tail0: UtItem?, cmpfcn: (Entry, Entry) -> int,
                  ghost cmp: (UtItem, UtItem) -> int, ghost s: seq<UtItem>, ghost a0: nat, ghost mid: nat, ghost b0: nat, ghost hi: nat, ghost out: seq<UtItem>, ghost goal: seq<UtItem>)
    returns (p: UtItem?, psize: nat, q: UtItem?, qsize: nat, list: UtItem?, tail: UtItem?, ghost a: nat, ghost b: nat, ghost now: seq<UtItem>)
    requires Distinct(s) && InMerge(p0, psize0, q0, qsize0, s, a0, mid, b0, hi, list0, tail0, out, cmp, goal)
    requires (psize0 != 0 || (qsize0 != 0 && q0 != null)) && Compares(cmpfcn, cmp, s)
    modifies s`next, s`prev
    ensures InMerge(p, psize, q, qsize, s, a, mid, b, hi, list, tail, now, cmp, goal) && a + b == a0 + b0 + 1
  {
    hide Merge, Emitted, Distinct, NotIn, Cursors, Onward, Compares;
    var e;
    e, p, psize, q, qsize, a, b := TakeNext(p0, psize0, q0, qsize0, cmpfcn, cmp, s, a0, mid, b0, hi);
    StillLeft(out, s, a0, a, mid, b0, b, e);
    list, tail := EmitNext(e, list0, tail0, out, s, a, mid, b);
    Assoc(out, [e], Merge(s[a..mid], s[b..hi], cmp));
    now := out + [e];
  }

  // Emitting an item leaves the links of those still to come alone.
  method EmitNext(e: UtItem, list: UtItem?, tail: UtItem?, ghost out: seq<UtItem>, ghost s: seq<UtItem>, ghost a: nat, ghost mid: nat, ghost b: nat)
    returns (first: UtItem, last: UtItem)
    requires Emitted(out, list, tail) && e !in out
    requires Onward(s, a, mid) && Onward(s, b, |s|) && NotIn(out + [e], s, a, mid) && NotIn(out + [e], s, b, |s|)
    modifies e`prev, out`next
    ensures Emitted(out + [e], first, last) && Onward(s, a, mid) && Onward(s, b, |s|)
  {
    hide Emitted;
    first, last := Emit(e, list, tail, out);
    forall i | 0 <= i < |s| && (a <= i < mid || b <= i) ensures s[i] !in out {
      assert s[i] !in out + [e];
    }
  }

  lemma StartMerge(p: UtItem?, psize: nat, q: UtItem?, qsize: nat, s: seq<UtItem>, c: nat, list: UtItem?, tail: UtItem?,
                   out: seq<UtItem>, cmp: (UtItem, UtItem) -> int, goal: seq<UtItem>)
    requires c + psize <= |s| && p == ItemAt(s, c) && q == ItemAt(s, c + psize)
    requires Onward(s, c, |s|) && NotIn(out, s, c, |s|) && Emitted(out, list, tail) && AllIn(out, s)
    requires goal == out + Merge(s[c..c + psize], s[c + psize..Min(c + psize + qsize, |s|)], cmp)
    ensures InMerge(p, psize, q, qsize, s, c, c + psize, c + psize, Min(c + psize + qsize, |s|), list, tail, out, cmp, goal)
  {
    hide Merge, Emitted, AllIn;
  }

  // The merge goes on exactly while one of the runs has items left.
  lemma InReach(p: UtItem?, psize: nat, q: UtItem?, qsize: nat, s: seq<UtItem>, a: nat, mid: nat, b: nat, hi: nat,
                list: UtItem?, tail: UtItem?, now: seq<UtItem>, cmp: (UtItem, UtItem) -> int, goal: seq<UtItem>)
    requires InMerge(p, psize, q, qsize, s, a, mid, b, hi, list, tail, now, cmp, goal)
    ensures a <= mid <= b <= hi <= |s|
    ensures psize != 0 || (qsize != 0 && q != null) <==> a < mid || b < hi
    ensures q == ItemAt(s, b)
  {
    hide Merge, Emitted, AllIn, NotIn, Onward;
  }

  lemma EndMerge(p: UtItem?, psize: nat, q: UtItem?, qsize: nat, s: seq<UtItem>, a: nat, mid: nat, b: nat, hi: nat,
                 list: UtItem?, tail: UtItem?, now: seq<UtItem>, cmp: (UtItem, UtItem) -> int, goal: seq<UtItem>)
    requires InMerge(p, psize, q, qsize, s, a, mid, b, hi, list, tail, now, cmp, goal)
    requires psize == 0 && (qsize == 0 || q == null)
    ensures now == goal && q == ItemAt(s, hi) && Onward(s, hi, |s|)
    ensures Emitted(now, list, tail) && NotIn(now, s, hi, |s|) && AllIn(now, s)
  {
    hide Merge, Emitted, AllIn, NotIn, Onward;
    InReach(p, psize, q, qsize, s, a, mid, b, hi, list, tail, now, cmp, goal);
    NothingLeft(s[a..mid], s[b..hi], cmp);
  }

  // The items taken last are of the list, not emitted before, and no longer to come.
  lemma StillLeft(now: seq<UtItem>, s: seq<UtItem>, a0: nat, a: nat, mid: nat, b0: nat, b: nat, e: UtItem)
    requires Distinct(s) && a0 <= mid <= b0 <= |s|
    requires (a0 < mid && e == s[a0] && a == a0 + 1 && b == b0) || (b0 < |s| && e == s[b0] && a == a0 && b == b0 + 1)
    requires NotIn(now, s, a0, mid) && NotIn(now, s, b0, |s|) && AllIn(now, s)
    requires Onward(s, a0, mid) && Onward(s, b0, |s|)
    ensures Onward(s, a, mid) && Onward(s, b, |s|)
    ensures e !in now && e in s
    ensures NotIn(now + [e], s, a, mid) && NotIn(now + [e], s, b, |s|) && AllIn(now + [e], s)
  {}

  lemma NothingLeft(p: seq<UtItem>, q: seq<UtItem>, cmp: (UtItem, UtItem) -> int)
    requires p == [] && q == []
    ensures Merge(p, q, cmp) == []
  {}

  // ---------- a pass ----------

  // Where the round that starts at position c splits and ends.
  function MidOf(n: nat, c: nat, m: nat): nat
    requires c <= n
  {
    c + Min(m, n - c)
  }

  function EndOf(n: nat, c: nat, m: nat): nat
    requires c <= n
  {
    Min(MidOf(n, c, m) + m, n)
  }

  lemma RoundEnds(n: nat, c: nat, m: nat)
    requires c < n && m > 0
    ensures c < MidOf(n, c, m) <= EndOf(n, c, m) <= n
    ensures EndOf(n, c, m) == c + Min(2 * m, n - c)
  {}

  lemma PassStep(s: seq<UtItem>, c: nat, m: nat, cmp: (UtItem, UtItem) -> int)
    requires c < |s| && m > 0
    ensures c < MidOf(|s|, c, m) <= EndOf(|s|, c, m) <= |s|
    ensures Pass(s[c..], m, cmp) ==
      Merge(s[c..MidOf(|s|, c, m)], s[MidOf(|s|, c, m)..EndOf(|s|, c, m)], cmp) + Pass(s[EndOf(|s|, c, m)..], m, cmp)
  {
    hide Merge, MidOf, EndOf;
    RoundEnds(|s|, c, m);
    var mid, hi, t := MidOf(|s|, c, m), EndOf(|s|, c, m), s[c..];
    assert mid - c == Min(m, |t|) && hi - c == Min(2 * m, |t|) by { MidSize(|s|, c, m); }
    assert t[..mid - c] == s[c..mid];
    assert t[mid - c..hi - c] == s[mid..hi];
    assert t[hi - c..] == s[hi..];
  }

  lemma MidSize(n: nat, c: nat, m: nat)
    requires c <= n
    ensures MidOf(n, c, m) - c == Min(m, n - c)
  {}

  // k rounds have been made when position c is reached.
  ghost predicate Rounds(k: nat, c: nat, n: nat, m: nat) {
    && (k == 0 <==> c == 0)
    && (k == 1 ==> c == n <= 2 * m || c == 2 * m < n)
    && (k > 1 ==> n > 2 * m)
  }

  lemma NoRound(n: nat, m: nat)
    ensures Rounds(0, 0, n, m)
  {}

  lemma NextRound(k: nat, c: nat, n: nat, m: nat)
    requires m > 0 && c < n && Rounds(k, c, n, m)
    ensures Rounds(k + 1, EndOf(n, c, m), n, m)
  {}

  lemma LastRound(k: nat, c: nat, n: nat, m: nat)
    requires c == n > 0 && Rounds(k, c, n, m)
    ensures k <= 1 <==> n <= 2 * m
  {}

  // The items before position c have been emitted in the order of the pass; those from c on are still linked.
  ghost predicate InPass(s: seq<UtItem>, c: nat, p: UtItem?, first: UtItem?, last: UtItem?, out: seq<UtItem>, m: nat, cmp: (UtItem, UtItem) -> int)
    reads s`next, out`next, out`prev
  {
    && m > 0 && c <= |s| && p == ItemAt(s, c) && Onward(s, c, |s|)
    && Emitted(out, first, last) && NotIn(out, s, c, |s|) && AllIn(out, s)
    && out + Pass(s[c..], m, cmp) == Pass(s, m, cmp)
  }

  // One round of a pass: merges two runs.
  method Round(p: UtItem, insize: nat, cmpfcn: (Entry, Entry) -> int, list: UtItem?, tail: UtItem?,
               ghost cmp: (UtItem, UtItem) -> int, ghost s: seq<UtItem>, ghost c: nat, ghost out: seq<UtItem>)
    returns (q: UtItem?, first: UtItem?, last: UtItem?, ghost now: seq<UtItem>)
    requires Distinct(s) && InPass(s, c, p, list, tail, out, insize, cmp) && Compares(cmpfcn, cmp, s)
    modifies s`next, s`prev
    ensures InPass(s, EndOf(|s|, c, insize), q, first, last, now, insize, cmp)
  {
    hide Merge, Pass, Emitted, Onward, NotIn, Distinct, Compares;
    var psize;
    q, psize := Advance(p, insize, s, c);
    RoundEnds(|s|, c, insize);
    q, first, last, now := MergeRuns(p, psize, q, insize, cmpfcn, list, tail, cmp, s, c, out);
    PassGoesOn(out, s, c, insize, cmp, now);
  }

  lemma StartPass(s: seq<UtItem>, m: nat, cmp: (UtItem, UtItem) -> int)
    requires s != [] && m > 0 && Onward(s, 0, |s|)
    ensures InPass(s, 0, s[0], null, null, [], m, cmp)
  {
    hide Pass, Onward;
    assert s[0..] == s;
  }

  lemma EndPass(s: seq<UtItem>, c: nat, first: UtItem?, last: UtItem?, out: seq<UtItem>, m: nat, cmp: (UtItem, UtItem) -> int)
    requires s != [] && InPass(s, c, null, first, last, out, m, cmp)
    ensures c == |s| && out == Pass(s, m, cmp) && out != [] && AllIn(out, s) && Distinct(out) && Emitted(out, first, last)
    ensures first == out[0] && last == out[|out| - 1]
  {
    hide Merge, Onward, NotIn;
    PassDone(s, c, m, cmp);
  }

  // Merges neighbouring runs of insize items, and links the result in both directions.
  method MergePass(head: UtItem, insize: nat, cmpfcn: (Entry, Entry) -> int, ghost cmp: (UtItem, UtItem) -> int, ghost s: seq<UtItem>)
    returns (list: UtItem, tail: UtItem, nmerges: nat)
    requires s != [] && insize > 0 && Distinct(s) && head == s[0] && Onward(s, 0, |s|) && Compares(cmpfcn, cmp, s)
    modifies s`next, s`prev
    ensures var r := Pass(s, insize, cmp); Distinct(r) && Listed(r) && list == r[0] && tail == r[|r| - 1]
    ensures nmerges <= 1 <==> |s| <= 2 * insize
  {
    hide Pass, Emitted, Onward, NotIn, Distinct, Listed, Rounds, Compares;
    var p: UtItem?, first: UtItem?, last: UtItem? := head, null, null;
    nmerges := 0;
    ghost var c: nat, out: seq<UtItem> := 0, [];
    NoRound(|s|, insize);
    StartPass(s, insize, cmp);
    while p != null
      invariant InPass(s, c, p, first, last, out, insize, cmp) && Rounds(nmerges, c, |s|, insize)
      decreases |s| - c
    {
      nmerges := nmerges + 1;
      RoundEnds(|s|, c, insize);
      NextRound(nmerges - 1, c, |s|, insize);
      p, first, last, out := Round(p, insize, cmpfcn, first, last, cmp, s, c, out);
      c := EndOf(|s|, c, insize);
    }
    EndPass(s, c, first, last, out, insize, cmp);
    LastRound(nmerges, c, |s|, insize);
    list, tail := first, last;
    Finish(out, list, tail);
  }

  lemma PassGoesOn(was: seq<UtItem>, s: seq<UtItem>, c: nat, m: nat, cmp: (UtItem, UtItem) -> int, now: seq<UtItem>)
    requires c < |s| && m > 0 && was + Pass(s[c..], m, cmp) == Pass(s, m, cmp)
    requires now == was + Merge(s[c..MidOf(|s|, c, m)], s[MidOf(|s|, c, m)..EndOf(|s|, c, m)], cmp)
    ensures now + Pass(s[EndOf(|s|, c, m)..], m, cmp) == Pass(s, m, cmp)
  {
    hide *;
    PassStep(s, c, m, cmp);
    Assoc(was, Merge(s[c..MidOf(|s|, c, m)], s[MidOf(|s|, c, m)..EndOf(|s|, c, m)], cmp), Pass(s[EndOf(|s|, c, m)..], m, cmp));
  }

  lemma Assoc<T>(a: seq<T>, b: seq<T>, c: seq<T>)
    ensures (a + b) + c == a + (b + c)
  {}

  lemma PassDone(s: seq<UtItem>, c: nat, m: nat, cmp: (UtItem, UtItem) -> int)
    requires c == |s| && m > 0
    ensures Pass(s[c..], m, cmp) == []
  {}

  method Finish(ghost out: seq<UtItem>, list: UtItem, tail: UtItem)
    requires out != [] && Emitted(out, list, tail)
    modifies tail`next
    ensures Listed(out)
  {
    tail.next := null;
  }

  // ---------- the sort ----------

  lemma PassKeeps(s: seq<UtItem>, m: nat, cmp: (UtItem, UtItem) -> int)
    requires m > 0
    ensures Elems(Pass(s, m, cmp)) == Elems(s)
  {
    hide Pass;
    forall x | x in Pass(s, m, cmp) ensures x in s { PassElement(s, m, cmp, x); }
    forall x | x in s ensures x in Pass(s, m, cmp) { PassElement(s, m, cmp, x); }
  }

  // Sorts the items by passes over runs of doubling length, until a pass is a single merge.
  method SortList(head: UtItem, cmpfcn: (Entry, Entry) -> int, ghost cmp: (UtItem, UtItem) -> int, ghost items: seq<UtItem>)
    returns (list: UtItem, tail: UtItem)
    requires Compares(cmpfcn, cmp, items) && items != [] && Distinct(items) && Listed(items) && head == items[0]
    modifies items`next, items`prev
    ensures var r := MergeSort(items, 1, cmp); Elems(r) == Elems(items) && Distinct(r) && Listed(r) && list == r[0] && tail == r[|r| - 1]
  {
    hide Pass, Distinct, Listed, Elems, Onward, Compares;
    var insize, looping := 1, true;
    ghost var cur: seq<UtItem> := items;
    list, tail := head, head;
    while looping
      invariant insize > 0 && cur != [] && Distinct(cur) && Listed(cur) && list == cur[0] && Elems(cur) == Elems(items)
      invariant if looping then MergeSort(cur, insize, cmp) == MergeSort(items, 1, cmp)
        else cur == MergeSort(items, 1, cmp) && tail == cur[|cur| - 1]
      decreases looping, |cur| - insize
    {
      var nmerges;
      SameObjects(cur, items);
      ListedIsOnward(cur);
      ComparesSame(cmpfcn, cmp, cur, items);
      PassKeeps(cur, insize, cmp);
      list, tail, nmerges := MergePass(list, insize, cmpfcn, cmp, cur);
      cur := Pass(cur, insize, cmp);
      if nmerges <= 1 {
        looping := false;
      }
      insize := insize * 2;
    }
  }

  lemma SameObjects(s: seq<UtItem>, t: seq<UtItem>)
    requires Elems(s) == Elems(t)
    ensures forall i :: 0 <= i < |s| ==> s[i] in t
  {
    forall i | 0 <= i < |s| ensures s[i] in t { assert s[i] in Elems(s); }
  }

  lemma ComparesSame(cmpfcn: (Entry, Entry) -> int, cmp: (UtItem, UtItem) -> int, s: seq<UtItem>, t: seq<UtItem>)
    requires Compares(cmpfcn, cmp, t) && forall i :: 0 <= i < |s| ==> s[i] in t
    ensures Compares(cmpfcn, cmp, s)
  {}

  lemma ListedIsOnward(s: seq<UtItem>)
    requires Listed(s)
    ensures Onward(s, 0, |s|)
  {}

  lemma SortEmpty(cmp: (UtItem, UtItem) -> int)
    ensures MergeSort<UtItem>([], 1, cmp) == []
  {}

  // The comparison of items under the keys they have now; the sort does not change keys.
  ghost function Order(cmpfcn: (Entry, Entry) -> int, s: seq<UtItem>): (UtItem, UtItem) -> int
    reads s`key
  {
    var keys := map x | x in s :: x.key;
    (x: UtItem, y: UtItem) => if x in keys && y in keys then cmpfcn(Entry(keys[x], x), Entry(keys[y], y)) else 0
  }

  lemma OrderCompares(cmpfcn: (Entry, Entry) -> int, s: seq<UtItem>)
    ensures Compares(cmpfcn, Order(cmpfcn, s), s)
  {}

  // Leaves the items sorted by the comparison, equal ones in their old order; the buckets stay as they are.
  method Sort(t: UtHash, cmpfcn: (Entry, Entry) -> int)
    requires t.Valid()
    modifies t`head, t`tail, t`items, t.items`next, t.items`prev
    ensures t.Valid() && t.items == MergeSort(old(t.items), 1, old(Order(cmpfcn, t.items)))
    ensures Preorder(old(Order(cmpfcn, t.items)), old(Elems(t.items))) ==>
      StablySorted(old(t.items), t.items, old(Order(cmpfcn, t.items)))
    ensures Elems(t.items) == old(Elems(t.items)) && Compares(cmpfcn, old(Order(cmpfcn, t.items)), t.items)
  {
    hide UtHash.Buckets, Listed, Distinct, MergeSort, StablySorted, Preorder, Order, Compares;
    ghost var items, cmp := t.items, Order(cmpfcn, t.items);
    OrderCompares(cmpfcn, items);
    if Preorder(cmp, Elems(items)) { SortIsStable(items, cmp); }
    SortEmpty(cmp);
    if t.head != null { SortTable(t, cmpfcn, cmp); }
    SameObjects(t.items, items);
    ComparesSame(cmpfcn, cmp, t.items, items);
  }

  method SortTable(t: UtHash, cmpfcn: (Entry, Entry) -> int, ghost cmp: (UtItem, UtItem) -> int)
    requires t.Valid() && t.items != [] && Compares(cmpfcn, cmp, t.items)
    modifies t`head, t`tail, t`items, t.items`next, t.items`prev
    ensures t.Valid() && t.items == MergeSort(old(t.items), 1, cmp) && Elems(t.items) == old(Elems(t.items))
  {
    hide UtHash.Buckets, Listed, Distinct, MergeSort, Compares;
    ghost var items := t.items;
    var list, tail := SortList(t.head, cmpfcn, cmp, items);
    assert t.Buckets(Elems(items));
    t.head, t.tail := list, tail;
    t.items := MergeSort(items, 1, cmp);
  }
}

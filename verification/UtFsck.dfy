// The integrity check of the hash table, and why a valid table passes it.
module UtFsck {
  import opened UtItems
  import opened Sequences
  import opened UtExpand
  import opened UtTables

  function Total<T>(chains: seq<seq<T>>): nat {
    if chains == [] then 0 else Total(chains[..|chains| - 1]) + |chains[|chains| - 1]|
  }

  lemma {:induction false} TotalIsLength<T>(chains: seq<seq<T>>)
    ensures Total(chains) == |Concat(chains)|
  {
    if chains != [] {
      TotalIsLength(chains[..|chains| - 1]);
      ConcatLast(chains, |chains| - 1);
      assert chains[..|chains|] == chains;
    }
  }

  lemma {:induction false} ConcatDistinct(chains: seq<seq<UtItem>>, members: set<UtItem>, i: nat)
    requires Placed(chains, members) && i <= |chains|
    ensures Distinct(Concat(chains[..i]))
  {
    if i > 0 {
      ConcatDistinct(chains, members, i - 1);
      NotYetMoved(chains, members, i - 1);
    }
  }

  lemma {:induction false} DistinctCount(s: seq<UtItem>)
    requires Distinct(s)
    ensures |Elems(s)| == |s|
  {
    if s != [] {
      var t := s[..|s| - 1];
      DistinctCount(t);
      assert Elems(s) == Elems(t) + {s[|s| - 1]};
    }
  }

  // The chains together are as long as the list.
  lemma ChainsCountItems(chains: seq<seq<UtItem>>, items: seq<UtItem>)
    requires Distinct(items) && Placed(chains, Elems(items))
    ensures Total(chains) == |items|
  {
    hide Placed, Distinct, Concat;
    assert chains[..|chains|] == chains;
    TotalIsLength(chains);
    ConcatDistinct(chains, Elems(items), |chains|);
    AllMembers(chains, Elems(items));
    DistinctCount(Concat(chains));
    DistinctCount(items);
  }

  // ---------- the check ----------

  // What the check relies on: the forward links of each chain and of the list lead through these items.
  ghost predicate Followed(t: UtHash, chains: seq<seq<UtItem>>, items: seq<UtItem>)
    reads t, t.buckets, items, set b, i | 0 <= b < |chains| && 0 <= i < |chains[b]| :: chains[b][i]
  {
    && t.numBuckets == t.buckets.Length == |chains|
    && (forall b :: 0 <= b < |chains| ==> LeadsThrough(t.buckets[b], chains[b]))
    && t.head == ItemAt(items, 0) && forall i {:trigger items[i].next} :: 0 <= i < |items| ==> items[i].next == ItemAt(items, i + 1)
  }

  ghost predicate LeadsThrough(bucket: Bucket, chain: seq<UtItem>)
    reads chain`hhNext
  {
    bucket.head == ItemAt(chain, 0) &&
    forall i {:trigger chain[i].hhNext} :: 0 <= i < |chain| ==> chain[i].hhNext == ItemAt(chain, i + 1)
  }

  // The back links of a chain lead back.
  ghost predicate LeadsBack(chain: seq<UtItem>, k: nat)
    reads chain`hhPrev
  {
    forall i {:trigger chain[i].hhPrev} :: 0 <= i < |chain| && i < k ==> chain[i].hhPrev == ItemAt(chain, i - 1)
  }

  ghost predicate ListLeadsBack(items: seq<UtItem>, k: nat)
    reads items`prev
  {
    forall i {:trigger items[i].prev} :: 0 <= i < |items| && i < k ==> items[i].prev == ItemAt(items, i - 1)
  }

  // The back links of the first k chains lead back, and their buckets have the right counts.
  ghost predicate BucketsAgree(bs: seq<Bucket>, chains: seq<seq<UtItem>>, k: nat)
    reads set b, i | 0 <= b < |chains| && 0 <= i < |chains[b]| :: chains[b][i]
  {
    |bs| == |chains| && forall b :: 0 <= b < |chains| && b < k ==> LeadsBack(chains[b], |chains[b]|) && bs[b].count == |chains[b]|
  }

  ghost predicate Consistent(t: UtHash, chains: seq<seq<UtItem>>, items: seq<UtItem>)
    reads t, t.buckets, items, set b, i | 0 <= b < |chains| && 0 <= i < |chains[b]| :: chains[b][i]
  {
    && BucketsAgree(t.buckets[..], chains, |chains|) && Total(chains) == t.numItems
    && ListLeadsBack(items, |items|) && |items| == t.numItems
  }

  // Follows one chain: its length, and whether each back link leads to the item before.
  method WalkChain(bucket: Bucket, ghost chain: seq<UtItem>) returns (count: nat, ok: bool)
    requires LeadsThrough(bucket, chain)
    ensures count == |chain| && (ok <==> LeadsBack(chain, |chain|))
  {
    var thh, prev := bucket.head, null;
    count, ok := 0, true;
    while thh != null
      invariant count <= |chain| && thh == ItemAt(chain, count) && prev == ItemAt(chain, count - 1)
      invariant ok <==> LeadsBack(chain, count)
      decreases |chain| - count
    {
      if prev != thh.hhPrev { ok := false; }
      count := count + 1;
      prev := thh;
      thh := thh.hhNext;
    }
  }

  method WalkList(head: UtItem?, ghost items: seq<UtItem>) returns (count: nat, ok: bool)
    requires head == ItemAt(items, 0)
    requires forall i {:trigger items[i].next} :: 0 <= i < |items| ==> items[i].next == ItemAt(items, i + 1)
    ensures count == |items| && (ok <==> ListLeadsBack(items, |items|))
  {
    var thh, prev := head, null;
    count, ok := 0, true;
    while thh != null
      invariant count <= |items| && thh == ItemAt(items, count) && prev == ItemAt(items, count - 1)
      invariant ok <==> ListLeadsBack(items, count)
      decreases |items| - count
    {
      count := count + 1;
      if prev != thh.prev { ok := false; }
      prev := thh;
      thh := thh.next;
    }
  }

  method WalkBuckets(bs: array<Bucket>, ghost chains: seq<seq<UtItem>>) returns (count: nat, ok: bool)
    requires bs.Length == |chains| && forall b :: 0 <= b < |chains| ==> LeadsThrough(bs[b], chains[b])
    ensures count == Total(chains) && (ok <==> BucketsAgree(bs[..], chains, |chains|))
  {
    hide LeadsThrough, LeadsBack;
    var i := 0;
    count, ok := 0, true;
    while i < bs.Length
      invariant i <= bs.Length && count == Total(chains[..i])
      invariant ok <==> BucketsAgree(bs[..], chains, i)
    {
      var c, linked := WalkChain(bs[i], chains[i]);
      count := count + c;
      ok := ok && linked && bs[i].count == c;
      assert chains[..i + 1][..i] == chains[..i];
      i := i + 1;
    }
    assert chains[..i] == chains;
  }

  // Whatever the back links and counts of a table are: no complaint is raised exactly if all back links
  // lead back, and all counts are right.
  method Fsck(t: UtHash, ghost chains: seq<seq<UtItem>>, ghost items: seq<UtItem>) returns (ok: bool)
    requires t.head != null ==> Followed(t, chains, items)
    ensures ok <==> (t.head == null || Consistent(t, chains, items))
  {
    hide LeadsThrough, BucketsAgree, ListLeadsBack;
    ok := true;
    if t.head != null {
      var inBuckets, inOrder, chained, listed;
      inBuckets, chained := WalkBuckets(t.buckets, chains);
      inOrder, listed := WalkList(t.head, items);
      ok := chained && inBuckets == t.numItems && listed && inOrder == t.numItems;
    }
  }

  // A valid table passes the check.
  lemma ValidIsConsistent(t: UtHash)
    requires t.Valid() && t.head != null
    ensures Followed(t, t.chains, t.items) && Consistent(t, t.chains, t.items)
  {
    hide Placed, Distinct, Total;
    ChainsCountItems(t.chains, t.items);
  }
}

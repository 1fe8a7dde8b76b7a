// Items of a hash table: the links of the application order and of the bucket chains.
module UtItems {
  import opened Words
  import opened BitTricks
  import opened Sequences

  type Key = seq<byte>

  class UtItem {
    var prev: UtItem?
    var next: UtItem?
    var hhPrev: UtItem?
    var hhNext: UtItem?
    var key: Key
    var hashv: nat

    // An item that is in no table yet.
    constructor () {}
  }

  datatype Bucket = Bucket(head: UtItem?, count: nat, expandMult: nat)

  lemma {:induction false} AndAtMost(a: nat, b: nat)
    ensures And(a, b) <= b
  {
    if a > 0 { AndAtMost(a / 2, b / 2); }
  }

  // The bucket a hash value selects among n.
  function Bkt(hashv: nat, n: nat): (b: nat)
    requires n > 0
    ensures b < n
  {
    AndAtMost(hashv, n - 1);
    And(hashv, n - 1)
  }

  lemma {:induction false} AndMask(a: nat, k: nat)
    ensures And(a, Pow2(k) - 1) == Low(a, k)
    decreases k
  {
    hide *;
    if k == 0 {
      AndZero(a);
      LowNone(a);
      PowNone();
    } else {
      AndMask(a / 2, k - 1);
      AndStep(a, Pow2(k) - 1);
      OnesHalf(k - 1);
      LowHalf(a, k - 1);
    }
  }

  lemma PowNone()
    ensures Pow2(0) == 1
  {}

  // ---------- lists ----------

  ghost function ItemAt(s: seq<UtItem>, i: int): UtItem? {
    if 0 <= i < |s| then s[i] else null
  }

  ghost function Elems(s: seq<UtItem>): set<UtItem> {
    set x | x in s
  }

  // The items s linked in application order.
  ghost predicate Listed(s: seq<UtItem>)
    reads s`next, s`prev
  {
    forall i {:trigger s[i].next} {:trigger s[i].prev} :: 0 <= i < |s| ==> s[i].next == ItemAt(s, i + 1) && s[i].prev == ItemAt(s, i - 1)
  }

  // The items s linked as a bucket chain.
  ghost predicate Chained(s: seq<UtItem>)
    reads s`hhNext, s`hhPrev
  {
    forall i {:trigger s[i].hhNext} {:trigger s[i].hhPrev} :: 0 <= i < |s| ==> s[i].hhNext == ItemAt(s, i + 1) && s[i].hhPrev == ItemAt(s, i - 1)
  }

  // The chains hold exactly the members, each in the chain its hash value selects, once.
  ghost predicate Placed(chains: seq<seq<UtItem>>, members: set<UtItem>)
    reads members`hashv
  {
    && |chains| > 0
    && (forall b, i :: 0 <= b < |chains| && 0 <= i < |chains[b]| ==>
        chains[b][i] in members && Bkt(chains[b][i].hashv, |chains|) == b)
    && (forall x :: x in members ==> x in chains[Bkt(x.hashv, |chains|)])
    && (forall b :: 0 <= b < |chains| ==> Distinct(chains[b]))
  }

  ghost predicate ChainOf(bucket: Bucket, chain: seq<UtItem>)
    reads chain`hhNext, chain`hhPrev
  {
    Chained(chain) && bucket.head == ItemAt(chain, 0) && bucket.count == |chain|
  }

  // The buckets bs hold the members in these chains.
  ghost predicate Filled(bs: seq<Bucket>, chains: seq<seq<UtItem>>, members: set<UtItem>)
    reads members`hhNext, members`hhPrev, members`hashv
  {
    && |bs| == |chains|
    && Placed(chains, members)
    && (forall b :: 0 <= b < |bs| ==> ChainOf(bs[b], chains[b]))
  }

  lemma PlacedFront(chains: seq<seq<UtItem>>, members: set<UtItem>, x: UtItem, b: nat)
    requires Placed(chains, members) && x !in members && b == Bkt(x.hashv, |chains|)
    ensures Placed(chains[b := [x] + chains[b]], members + {x})
  {
    hide Bkt;
    var now := chains[b := [x] + chains[b]];
    assert Distinct(now[b]) by {
      assert forall i :: 1 <= i < |now[b]| ==> now[b][i] == chains[b][i - 1];
    }
    forall y | y in members + {x} ensures y in now[Bkt(y.hashv, |now|)] {
      if y == x { assert now[b][0] == x; }
    }
  }

  // Chains of different buckets share no item.
  lemma Apart(chains: seq<seq<UtItem>>, members: set<UtItem>, b: nat, c: nat)
    requires Placed(chains, members) && b < |chains| && c < |chains| && b != c
    ensures forall i, j :: 0 <= i < |chains[b]| && 0 <= j < |chains[c]| ==> chains[b][i] != chains[c][j]
  {
    hide Bkt;
  }

  // ---------- pushing to the front of a chain ----------

  lemma ChainLinks(bucket: Bucket, chain: seq<UtItem>)
    requires ChainOf(bucket, chain)
    ensures forall i {:trigger chain[i].hhNext} :: 0 <= i < |chain| ==> chain[i].hhNext == ItemAt(chain, i + 1)
    ensures forall i {:trigger chain[i].hhPrev} :: 1 <= i < |chain| ==> chain[i].hhPrev == ItemAt(chain, i - 1)
    ensures bucket.head == ItemAt(chain, 0) && bucket.count == |chain|
  {}

  lemma FrontChain(bucket: Bucket, chain: seq<UtItem>, x: UtItem, longer: seq<UtItem>)
    requires longer == [x] + chain
    requires x.hhNext == ItemAt(chain, 0) && x.hhPrev == null
    requires forall i {:trigger chain[i].hhNext} :: 0 <= i < |chain| ==> chain[i].hhNext == ItemAt(chain, i + 1)
    requires |chain| > 0 ==> chain[0].hhPrev == x
    requires forall i {:trigger chain[i].hhPrev} :: 1 <= i < |chain| ==> chain[i].hhPrev == ItemAt(chain, i - 1)
    requires bucket.head == x && bucket.count == |longer|
    ensures ChainOf(bucket, longer)
  {
    forall i | 0 <= i < |longer|
      ensures longer[i].hhNext == ItemAt(longer, i + 1) && longer[i].hhPrev == ItemAt(longer, i - 1)
    {
      assert i + 1 < |longer| ==> longer[i + 1] == chain[i];
      if i > 0 {
        assert longer[i] == chain[i - 1];
        assert i > 1 ==> longer[i - 1] == chain[i - 2];
      }
    }
  }

  // Links x in front of the chain of its bucket and counts it.
  method LinkFront(bs: array<Bucket>, b: nat, x: UtItem, ghost chains: seq<seq<UtItem>>, ghost members: set<UtItem>)
    requires Filled(bs[..], chains, members) && x !in members && bs.Length > 0 && b == Bkt(x.hashv, bs.Length)
    modifies bs, x`hhNext, x`hhPrev, members`hhPrev
    ensures Filled(bs[..], chains[b := [x] + chains[b]], members + {x})
    ensures bs[..] == old(bs[..])[b := Bucket(x, |chains[b]| + 1, old(bs[b].expandMult))] && old(bs[b].count) == |chains[b]|
  {
    hide Bkt, Placed, Chained, ChainOf;
    ghost var was, n := bs[..], bs.Length;
    ghost var chain, now := chains[b], chains[b := [x] + chains[b]];
    PlacedFront(chains, members, x, b);
    ChainInside(chains, members);
    forall c: nat | c < n && c != b
      ensures forall i, j :: 0 <= i < |chain| && 0 <= j < |chains[c]| ==> chain[i] != chains[c][j]
    {
      Apart(chains, members, b, c);
    }
    ChainLinks(was[b], chain);
    var head := bs[b].head;
    bs[b] := bs[b].(count := bs[b].count + 1);
    x.hhNext := head;
    x.hhPrev := null;
    if head != null {
      head.hhPrev := x;
    }
    bs[b] := bs[b].(head := x);
    ghost var af := bs[..];
    assert af == was[b := Bucket(x, |chain| + 1, was[b].expandMult)];
    FrontChain(af[b], chain, x, now[b]);
    forall c: nat | c < n ensures ChainOf(af[c], now[c]) {
      if c != b { assert ChainOf(was[c], chains[c]); }
    }
  }

  lemma ChainInside(chains: seq<seq<UtItem>>, members: set<UtItem>)
    requires Placed(chains, members)
    ensures forall b, i :: 0 <= b < |chains| && 0 <= i < |chains[b]| ==> chains[b][i] in members
    ensures forall b :: 0 <= b < |chains| ==> Distinct(chains[b])
  {
    hide Bkt;
  }

  // ---------- unlinking ----------

  ghost function Drop(s: seq<UtItem>, k: nat): seq<UtItem>
    requires k < |s|
  {
    s[..k] + s[k + 1..]
  }

  ghost function Position(s: seq<UtItem>, x: UtItem): (k: nat)
    requires x in s
    ensures k < |s| && s[k] == x
  {
    var k :| 0 <= k < |s| && s[k] == x; k
  }

  ghost function Without(s: seq<UtItem>, x: UtItem): seq<UtItem>
    requires x in s
  {
    Drop(s, Position(s, x))
  }

  lemma DropShape(s: seq<UtItem>, k: nat)
    requires k < |s|
    ensures |Drop(s, k)| == |s| - 1
    ensures forall i {:trigger ItemAt(Drop(s, k), i)} :: ItemAt(Drop(s, k), i) == ItemAt(s, if i < k then i else i + 1)
    ensures Distinct(s) ==> Distinct(Drop(s, k)) && Elems(Drop(s, k)) == Elems(s) - {s[k]}
  {
    var d := Drop(s, k);
    assert forall i :: 0 <= i < k ==> d[i] == s[i];
    assert forall i :: k <= i < |d| ==> d[i] == s[i + 1];
    if Distinct(s) {
      forall x | x in s && x != s[k] ensures x in d {
        var i :| 0 <= i < |s| && s[i] == x;
        assert d[if i < k then i else i - 1] == x;
      }
    }
  }

  lemma UnlinkedChain(chain: seq<UtItem>, k: nat, bucket: Bucket)
    requires k < |chain|
    requires forall i {:trigger chain[i].hhNext} {:trigger chain[i].hhPrev} :: 0 <= i < |chain| && i != k ==>
      && chain[i].hhNext == ItemAt(chain, if i == k - 1 then k + 1 else i + 1)
      && chain[i].hhPrev == ItemAt(chain, if i == k + 1 then k - 1 else i - 1)
    requires bucket.head == ItemAt(chain, if k == 0 then 1 else 0) && bucket.count == |chain| - 1
    ensures ChainOf(bucket, Drop(chain, k))
  {
    DropShape(chain, k);
    var d := Drop(chain, k);
    forall i | 0 <= i < |d| ensures d[i].hhNext == ItemAt(d, i + 1) && d[i].hhPrev == ItemAt(d, i - 1) {
      assert d[i] == ItemAt(d, i) == chain[if i < k then i else i + 1];
    }
  }

  lemma PlacedWithout(chains: seq<seq<UtItem>>, members: set<UtItem>, x: UtItem, b: nat, k: nat)
    requires Placed(chains, members) && b < |chains| && k < |chains[b]| && chains[b][k] == x
    ensures Placed(chains[b := Drop(chains[b], k)], members - {x})
  {
    hide Bkt;
    DropShape(chains[b], k);
    hide Drop;
    var now := chains[b := Drop(chains[b], k)];
    forall c, i | 0 <= c < |now| && 0 <= i < |now[c]|
      ensures now[c][i] in members - {x} && Bkt(now[c][i].hashv, |now|) == c
    {
      assert now[c][i] in now[c];
      if c == b { assert now[b][i] in Elems(now[b]); }
    }
    forall y | y in members - {x} ensures y in now[Bkt(y.hashv, |now|)] {
      if Bkt(y.hashv, |now|) == b { assert y in Elems(chains[b]); }
    }
  }

  // Takes x out of the chain of its bucket.
  method DelInBkt(bs: array<Bucket>, b: nat, x: UtItem, ghost chains: seq<seq<UtItem>>, ghost members: set<UtItem>)
    requires Filled(bs[..], chains, members) && x in members && bs.Length > 0 && b == Bkt(x.hashv, bs.Length)
    modifies bs, members`hhNext, members`hhPrev
    ensures x in chains[b] && Filled(bs[..], chains[b := Without(chains[b], x)], members - {x})
    ensures bs.Length == |chains| && forall c :: 0 <= c < bs.Length ==> bs[c].expandMult == old(bs[c].expandMult)
  {
    hide Bkt, Placed, Chained, ChainOf, Drop;
    ghost var was, n := bs[..], bs.Length;
    InItsChain(chains, members, x);
    ghost var chain, k := chains[b], Position(chains[b], x);
    ghost var now := chains[b := Drop(chain, k)];
    PlacedWithout(chains, members, x, b, k);
    ChainInside(chains, members);
    forall c: nat | c < n && c != b
      ensures forall i, j :: 0 <= i < |chain| && 0 <= j < |chains[c]| ==> chain[i] != chains[c][j]
    {
      Apart(chains, members, b, c);
    }
    AllLinks(was[b], chain);
    bs[b] := bs[b].(count := bs[b].count - 1);
    if bs[b].head == x {
      bs[b] := bs[b].(head := x.hhNext);
    }
    if x.hhPrev != null {
      x.hhPrev.hhNext := x.hhNext;
    }
    if x.hhNext != null {
      x.hhNext.hhPrev := x.hhPrev;
    }
    UnlinkedChain(chain, k, bs[b]);
    forall c: nat | c < n ensures ChainOf(bs[c], now[c]) {
      if c != b { assert ChainOf(was[c], chains[c]); }
    }
  }

  lemma InItsChain(chains: seq<seq<UtItem>>, members: set<UtItem>, x: UtItem)
    requires Placed(chains, members) && x in members
    ensures x in chains[Bkt(x.hashv, |chains|)]
  {}

  lemma AllLinks(bucket: Bucket, chain: seq<UtItem>)
    requires ChainOf(bucket, chain)
    ensures forall i {:trigger chain[i].hhNext} {:trigger chain[i].hhPrev} :: 0 <= i < |chain| ==> chain[i].hhNext == ItemAt(chain, i + 1) && chain[i].hhPrev == ItemAt(chain, i - 1)
    ensures bucket.head == ItemAt(chain, 0) && bucket.count == |chain|
  {}
}

// The hash table: find, add with bucket expansion, delete.
module UtTables {
  import opened Words
  import opened BitTricks
  import opened Sequences
  import opened UtItems
  import opened UtExpand

  const INITIAL_NUM_BUCKETS: nat := 32
  const INITIAL_NUM_BUCKETS_LOG2: nat := 5
  const BKT_CAPACITY_THRESH: nat := 10

  class UtHash {
    const hash: Key -> nat
    var head: UtItem?
    var tail: UtItem?
    var buckets: array<Bucket>
    var numBuckets: nat
    var log2NumBuckets: nat
    var numItems: nat
    var idealChainMaxlen: nat
    var nonidealItems: nat
    var ineffExpands: nat
    var noexpand: bool
    ghost var items: seq<UtItem>
    ghost var chains: seq<seq<UtItem>>

    constructor (hashFcn: Key -> nat)
      ensures Valid() && items == [] && hash == hashFcn && fresh(buckets)
    {
      hash := hashFcn;
      head, tail := null, null;
      buckets := new Bucket[0];
      numBuckets, log2NumBuckets, numItems := 0, 0, 0;
      idealChainMaxlen, nonidealItems, ineffExpands, noexpand := 0, 0, 0, false;
      items, chains := [], [];
    }

    ghost predicate Valid()
      reads this, buckets, items
    {
      && Order(items)
      && (items != [] ==> numItems == |items| && Buckets(Elems(items)))
    }

    // The application order from head to tail.
    ghost predicate Order(s: seq<UtItem>)
      reads `head, `tail, s`next, s`prev
    {
      && Distinct(s) && Listed(s) && head == ItemAt(s, 0)
      && (s != [] ==> tail == s[|s| - 1])
    }

    ghost predicate Buckets(members: set<UtItem>)
      reads `buckets, `numBuckets, `log2NumBuckets, `chains, buckets
      reads members`hhNext, members`hhPrev, members`hashv
    {
      numBuckets == buckets.Length == Pow2(log2NumBuckets) && Filled(buckets[..], chains, members)
    }

    // ---------- expansion ----------

    method ExpandBuckets(ghost members: set<UtItem>)
      requires Buckets(members)
      modifies `buckets, `numBuckets, `log2NumBuckets, `chains, `idealChainMaxlen, `nonidealItems, `ineffExpands, `noexpand
      modifies members`hhNext, members`hhPrev
      ensures Buckets(members) && fresh(buckets)
      ensures numBuckets == 2 * old(numBuckets) && log2NumBuckets == old(log2NumBuckets) + 1
      ensures AllMoved(chains, Concat(old(chains)))
      ensures idealChainMaxlen == CeilDiv(numItems, numBuckets)
      ensures numItems <= idealChainMaxlen * numBuckets < numItems + numBuckets
      ensures nonidealItems == Excess(chains, idealChainMaxlen) && Counted(buckets[..], chains, idealChainMaxlen)
      ensures ineffExpands == if nonidealItems > numItems / 2 then old(ineffExpands) + 1 else 0
      ensures noexpand <==> old(noexpand) || ineffExpands > 1
    {
      hide AllMoved, Counted, Excess, Filled, Bkt, Concat, Moved, CeilDiv, Pow2, Placed, IdealChain;
      Doubled(log2NumBuckets);
      idealChainMaxlen := IdealChain(numItems, numBuckets * 2, log2NumBuckets + 1);
      CeilDivIs(numItems, numBuckets * 2);
      var newBuckets, nonideal;
      ghost var now;
      ghost var done := Concat(chains);
      newBuckets, nonideal, now := MoveAll(members);
      assert forall x :: x in done ==> x in Elems(done);
      nonidealItems := nonideal;
      numBuckets := numBuckets * 2;
      log2NumBuckets := log2NumBuckets + 1;
      buckets, chains := newBuckets, now;
      assert AllMoved(now, done);
      NoteEffect();
      assert AllMoved(now, done);
    }

    method MoveAll(ghost members: set<UtItem>)
      returns (newBuckets: array<Bucket>, nonideal: nat, ghost now: seq<seq<UtItem>>)
      requires Buckets(members)
      modifies members`hhNext, members`hhPrev
      ensures fresh(newBuckets) && newBuckets.Length == numBuckets * 2 && Filled(newBuckets[..], now, members)
      ensures AllMoved(now, Concat(chains)) && Counted(newBuckets[..], now, idealChainMaxlen)
      ensures nonideal == Excess(now, idealChainMaxlen) && Elems(Concat(chains)) == members
    {
      hide AllMoved, Counted, Excess, Filled, Bkt, Concat, Moved, Placed, Pow2;
      FilledShape(buckets[..], chains, members);
      newBuckets := new Bucket[numBuckets * 2](i => Bucket(null, 0, 0));
      nonideal, now := Redistribute(buckets, newBuckets, idealChainMaxlen, chains, members);
      AllMembers(chains, members);
    }

    // Two ineffective expansions in a row inhibit any further one.
    method NoteEffect()
      modifies `ineffExpands, `noexpand
      ensures ineffExpands == if nonidealItems > numItems / 2 then old(ineffExpands) + 1 else 0
      ensures noexpand <==> old(noexpand) || ineffExpands > 1
    {
      HalfIsShift(numItems);
      ineffExpands := if nonidealItems > High(numItems, 1) then ineffExpands + 1 else 0;
      if ineffExpands > 1 {
        noexpand := true;
      }
    }

    // ---------- finding ----------

    static ghost predicate Matches(x: UtItem, key: Key, hashv: nat)
      reads x`key, x`hashv
    {
      x.hashv == hashv && x.key == key
    }

    // The first item of the chain from position k on with this key and hash value.
    static ghost function FirstMatch(chain: seq<UtItem>, k: nat, key: Key, hashv: nat): UtItem?
      reads chain`key, chain`hashv
      decreases |chain| - k
    {
      if k >= |chain| then null
      else if Matches(chain[k], key, hashv) then chain[k]
      else FirstMatch(chain, k + 1, key, hashv)
    }

    static method FindInBkt(bucket: Bucket, key: Key, hashv: nat, ghost chain: seq<UtItem>) returns (out: UtItem?)
      requires ChainOf(bucket, chain)
      ensures out != null ==> out in chain && Matches(out, key, hashv)
      ensures out == null ==> forall i :: 0 <= i < |chain| ==> !Matches(chain[i], key, hashv)
      ensures out == FirstMatch(chain, 0, key, hashv)
    {
      out := bucket.head;
      ghost var k := 0;
      while out != null
        invariant k <= |chain| && out == ItemAt(chain, k)
        invariant FirstMatch(chain, 0, key, hashv) == FirstMatch(chain, k, key, hashv)
        invariant forall i :: 0 <= i < k ==> !Matches(chain[i], key, hashv)
        decreases |chain| - k
      {
        if out.hashv == hashv && |out.key| == |key| {
          if out.key == key {
            return;
          }
        }
        out := out.hhNext;
        k := k + 1;
      }
    }

    // The item, and no other one of the list, has this key and hash value.
    static ghost predicate OnlyMatch(s: seq<UtItem>, x: UtItem, key: Key, hashv: nat)
      reads s`key, s`hashv
    {
      forall i :: 0 <= i < |s| ==> (Matches(s[i], key, hashv) <==> s[i] == x)
    }

    // An item with this key and hash value if the table has one, else null.
    method FindByHashValue(key: Key, hashv: nat) returns (out: UtItem?)
      requires Valid()
      ensures out != null ==> out in items && Matches(out, key, hashv)
      ensures out == null ==> forall x :: x in items ==> !Matches(x, key, hashv)
      ensures head != null ==> |chains| == numBuckets > 0 && out == FirstMatch(chains[Bkt(hashv, numBuckets)], 0, key, hashv)
    {
      out := null;
      if head != null {
        var bkt := Bkt(hashv, numBuckets);
        OneChain(buckets[..], chains, Elems(items), bkt);
        out := FindInBkt(buckets[bkt], key, hashv, chains[bkt]);
      }
    }

    // Under unique keys, the lookup of the finite map that the items make up.
    method Find(key: Key) returns (out: UtItem?)
      requires Valid()
      ensures out != null ==> out in items && Matches(out, key, hash(key))
      ensures out == null ==> forall x :: x in items ==> !Matches(x, key, hash(key))
      ensures Mapped(items, hash) ==> out == if key in MapOf(items) then MapOf(items)[key] else null
    {
      out := FindByHashValue(key, hash(key));
      if Mapped(items, hash) { MapLookup(items, hash, key, out); }
    }

    // ---------- adding ----------

    method MakeTable(add: UtItem)
      modifies `tail, `buckets, `numBuckets, `log2NumBuckets, `numItems, `chains
      modifies `idealChainMaxlen, `nonidealItems, `ineffExpands, `noexpand
      ensures Buckets({}) && fresh(buckets) && tail == add && numItems == 0
      ensures numBuckets == 32 && !noexpand && ineffExpands == 0
    {
      hide Filled, Pow2, Bkt;
      tail := add;
      numItems, idealChainMaxlen, nonidealItems, ineffExpands, noexpand := 0, 0, 0, 0, false;
      numBuckets := INITIAL_NUM_BUCKETS;
      log2NumBuckets := INITIAL_NUM_BUCKETS_LOG2;
      buckets := new Bucket[INITIAL_NUM_BUCKETS](i => Bucket(null, 0, 0));
      chains := NoChains(INITIAL_NUM_BUCKETS);
      ZeroBuckets(buckets[..]);
      Pow2Values();
    }

    // Puts x at the end of the application order.
    method AppendList(add: UtItem)
      requires Order(items) && items != [] && add !in items
      modifies `tail, add`next, add`prev, items`next
      ensures Order(items + [add])
    {
      add.next := null;
      add.prev := tail;
      tail.next := add;
      tail := add;
      ghost var all := items + [add];
      forall i | 0 <= i < |all| ensures all[i].next == ItemAt(all, i + 1) && all[i].prev == ItemAt(all, i - 1) {
        if i < |items| - 1 { assert all[i + 1] == items[i + 1]; }
      }
    }

    method AddToBkt(b: nat, add: UtItem, ghost members: set<UtItem>)
      requires Buckets(members) && add !in members && numBuckets > 0 && b == Bkt(add.hashv, numBuckets)
      modifies buckets, `buckets, `numBuckets, `log2NumBuckets, `chains, `idealChainMaxlen, `nonidealItems, `ineffExpands, `noexpand
      modifies add`hhNext, add`hhPrev, members`hhNext, members`hhPrev
      ensures Buckets(members + {add}) && (buckets == old(buckets) || fresh(buckets))
      ensures var c := old(buckets[b]);
        var due := c.count + 1 >= (c.expandMult + 1) * 10 && !old(noexpand);
        && numBuckets == (if due then 2 * old(numBuckets) else old(numBuckets))
        && (due ==> idealChainMaxlen == CeilDiv(numItems, numBuckets))
        && (!due ==> noexpand == old(noexpand) && idealChainMaxlen == old(idealChainMaxlen))
        && b < |old(chains)|
        && var pushed := old(chains)[b := [add] + old(chains)[b]];
        && (!due ==> chains == pushed)
        && (due ==> AllMoved(chains, Concat(pushed)))
    {
      hide Filled, Bkt, CeilDiv, Pow2, AllMoved, Concat, Counted, Excess;
      FilledShape(buckets[..], chains, members);
      LinkFront(buckets, b, add, chains, members);
      chains := chains[b := [add] + chains[b]];
      if buckets[b].count >= (buckets[b].expandMult + 1) * BKT_CAPACITY_THRESH && !noexpand {
        ExpandBuckets(members + {add});
      }
    }

    method AddToTable(hashv: nat, add: UtItem, ghost members: set<UtItem>)
      requires Buckets(members) && add !in members && add.hashv == hashv
      modifies buckets, `buckets, `numBuckets, `log2NumBuckets, `chains, `numItems
      modifies `idealChainMaxlen, `nonidealItems, `ineffExpands, `noexpand
      modifies add`hhNext, add`hhPrev, members`hhNext, members`hhPrev
      ensures Buckets(members + {add}) && (buckets == old(buckets) || fresh(buckets))
      ensures numItems == old(numItems) + 1
    {
      hide Filled, Bkt, Pow2, CeilDiv;
      numItems := numItems + 1;
      var bkt := Bkt(hashv, numBuckets);
      AddToBkt(bkt, add, members);
    }

    method AddToList(add: UtItem)
      requires Valid() && add !in items
      modifies `head, `tail, `buckets, `numBuckets, `log2NumBuckets, `numItems, `chains
      modifies `idealChainMaxlen, `nonidealItems, `ineffExpands, `noexpand
      modifies add`next, add`prev, items`next
      ensures Order(items + [add]) && numItems == |items| && Buckets(Elems(items))
      ensures buckets == old(buckets) || fresh(buckets)
    {
      hide Filled, Bkt, Pow2;
      if head == null {
        add.next := null;
        add.prev := null;
        MakeTable(add);
        head := add;
        assert items == [] && Elems(items) == {};
      } else {
        AppendList(add);
      }
    }

    // Adds an item under a key and its hash value, last in the application order.
    method AddByHashValue(key: Key, hashv: nat, add: UtItem)
      requires Valid() && add !in items
      modifies this, buckets, add, items`next, items`prev, items`hhNext, items`hhPrev
      ensures Valid() && items == old(items) + [add]
      ensures add.key == key && add.hashv == hashv
      ensures buckets == old(buckets) || fresh(buckets)
    {
      hide Filled, Bkt, Pow2, Chained, Listed, Distinct, Buckets;
      add.hashv := hashv;
      add.key := key;
      AddToList(add);
      AddToTable(hashv, add, Elems(items));
      assert Elems(items + [add]) == Elems(items) + {add};
      items := items + [add];
    }

    method Add(key: Key, add: UtItem)
      requires Valid() && add !in items
      modifies this, buckets, add, items`next, items`prev, items`hhNext, items`hhPrev
      ensures Valid() && items == old(items) + [add]
      ensures add.key == key && add.hashv == hash(key)
      ensures buckets == old(buckets) || fresh(buckets)
      ensures old(Mapped(items, hash) && key !in MapOf(items)) ==>
        Mapped(items, hash) && MapOf(items) == old(MapOf(items))[key := add]
    {
      hide Valid, MapOf, Mapped;
      ghost var was, m := items, MapOf(items);
      ghost var fits := Mapped(was, hash) && key !in m;
      AddByHashValue(key, hash(key), add);
      assert MapOf(was) == m && (fits ==> Mapped(was, hash));
      if fits { MapAdd(was, hash, key, add); }
    }

    // ---------- deleting ----------

    method UnlinkList(del: UtItem, ghost k: nat)
      requires Order(items) && |items| > 1 && k < |items| && items[k] == del
      modifies `head, `tail, items`next, items`prev
      ensures Order(Drop(items, k))
    {
      if del == tail {
        tail := del.prev;
      }
      if del.prev != null {
        del.prev.next := del.next;
      } else {
        head := del.next;
      }
      if del.next != null {
        del.next.prev := del.prev;
      }
      DropShape(items, k);
      UnlinkedList(items, k);
    }

    // Takes an item out of the table; taking out the only one frees the table.
    method DeleteItem(del: UtItem)
      requires Valid() && del in items
      modifies this, buckets, items`next, items`prev, items`hhNext, items`hhPrev
      ensures Valid() && items == Without(old(items), del) && buckets == old(buckets)
      ensures items == [] <==> head == null
    {
      hide Filled, Bkt, Pow2, Chained, Buckets, Drop, Listed, Distinct;
      ghost var left := Without(items, del);
      DropShape(items, Position(items, del));
      SoleItem(items, del);
      LeftInside(items, del);
      if del.prev == null && del.next == null {
        head := null;
        assert left == [];
        EmptyOrder(left);
      } else {
        UnlinkList(del, Position(items, del));
        assert Order(left);
        DelInTable(del);
        assert Order(left);
      }
      items := left;
    }

    method Delete(del: UtItem)
      requires Valid() && del in items
      modifies this, buckets, items`next, items`prev, items`hhNext, items`hhPrev
      ensures Valid() && items == Without(old(items), del) && buckets == old(buckets)
      ensures items == [] <==> head == null
      ensures old(Mapped(items, hash)) ==> Mapped(items, hash) && MapOf(items) == old(MapOf(items)) - {del.key}
    {
      hide Valid, MapOf, Mapped;
      ghost var was, m := items, MapOf(items);
      ghost var fits := Mapped(was, hash);
      DeleteItem(del);
      assert MapOf(was) == m && (fits ==> Mapped(was, hash));
      if fits { MapWithout(was, hash, del); }
    }

    // Adds an item in place of the one that has its key, if there is one. That may be the item itself.
    method Replace(key: Key, add: UtItem) returns (replaced: UtItem?)
      requires Valid() && (add in items ==> OnlyMatch(items, add, key, hash(key)))
      modifies this, buckets, add, items`next, items`prev, items`hhNext, items`hhPrev
      ensures Valid() && add.key == key && add.hashv == hash(key)
      ensures replaced != null ==> replaced in old(items) && items == Without(old(items), replaced) + [add]
      ensures replaced == null ==> items == old(items) + [add]
      ensures buckets == old(buckets) || fresh(buckets)
      ensures old(Mapped(items, hash)) ==> Mapped(items, hash) && MapOf(items) == old(MapOf(items))[key := add]
      ensures old(Mapped(items, hash)) ==> replaced == old(if key in MapOf(items) then MapOf(items)[key] else null)
    {
      hide Valid, MapOf, Mapped;
      replaced := Find(key);
      if replaced != null {
        DistinctItems();
        Gone(items, replaced);
        Delete(replaced);
      }
      Add(key, add);
    }

    lemma DistinctItems()
      requires Valid()
      ensures Distinct(items)
    {}

    static lemma Gone(s: seq<UtItem>, x: UtItem)
      requires Distinct(s) && x in s
      ensures x !in Without(s, x) && forall y :: y in Without(s, x) ==> y in s
    {}

    method DelInTable(del: UtItem)
      requires del in items && numItems > 0 && Buckets(Elems(items))
      modifies `chains, `numItems, buckets, items`hhNext, items`hhPrev
      ensures Buckets(Elems(items) - {del}) && numItems == old(numItems) - 1
    {
      hide Filled, Bkt, Pow2;
      ghost var members := Elems(items);
      FilledShape(buckets[..], chains, members);
      var bkt := Bkt(del.hashv, numBuckets);
      DelInBkt(buckets, bkt, del, chains, members);
      chains := chains[bkt := Without(chains[bkt], del)];
      numItems := numItems - 1;
    }
  }

  // ---------- the finite map ----------

  // Every item has the hash value of its key, and no two items have the same key.
  ghost predicate Mapped(s: seq<UtItem>, hash: Key -> nat)
    reads s`key, s`hashv
  {
    && (forall i :: 0 <= i < |s| ==> s[i].hashv == hash(s[i].key))
    && (forall i, j :: 0 <= i < j < |s| ==> s[i].key != s[j].key)
  }

  ghost function MapOf(s: seq<UtItem>): map<Key, UtItem>
    reads s`key
  {
    if s == [] then map[] else MapOf(s[..|s| - 1])[s[|s| - 1].key := s[|s| - 1]]
  }

  lemma {:induction false} MapHas(s: seq<UtItem>, hash: Key -> nat, key: Key)
    requires Mapped(s, hash)
    ensures key in MapOf(s) ==> MapOf(s)[key] in s && MapOf(s)[key].key == key
    ensures forall i :: 0 <= i < |s| && s[i].key == key ==> key in MapOf(s) && MapOf(s)[key] == s[i]
  {
    if s != [] { MapHas(s[..|s| - 1], hash, key); }
  }

  lemma MapLookup(s: seq<UtItem>, hash: Key -> nat, key: Key, out: UtItem?)
    requires Mapped(s, hash)
    requires out != null ==> out in s && UtHash.Matches(out, key, hash(key))
    requires out == null ==> forall x :: x in s ==> !UtHash.Matches(x, key, hash(key))
    ensures out == if key in MapOf(s) then MapOf(s)[key] else null
  {
    MapHas(s, hash, key);
  }

  lemma MapAdd(s: seq<UtItem>, hash: Key -> nat, key: Key, x: UtItem)
    requires Mapped(s, hash) && key !in MapOf(s) && x.key == key && x.hashv == hash(key)
    ensures Mapped(s + [x], hash) && MapOf(s + [x]) == MapOf(s)[key := x]
  {
    MapHas(s, hash, key);
    assert (s + [x])[..|s|] == s;
  }

  lemma MapWithout(s: seq<UtItem>, hash: Key -> nat, x: UtItem)
    requires Mapped(s, hash) && x in s
    ensures Mapped(Without(s, x), hash) && MapOf(Without(s, x)) == MapOf(s) - {x.key}
  {
    var d := Without(s, x);
    var k := Position(s, x);
    assert forall i :: 0 <= i < |d| ==> d[i] == s[if i < k then i else i + 1];
    forall key: Key
      ensures key in MapOf(d) <==> key in MapOf(s) - {x.key}
      ensures key in MapOf(d) ==> MapOf(d)[key] == MapOf(s)[key]
    {
      MapHas(d, hash, key);
      MapHas(s, hash, key);
      if key in MapOf(s) && key != x.key {
        var i :| 0 <= i < |s| && s[i] == MapOf(s)[key];
        assert d[if i < k then i else i - 1] == s[i];
      }
    }
  }

  lemma OneChain(bs: seq<Bucket>, chains: seq<seq<UtItem>>, members: set<UtItem>, b: nat)
    requires Filled(bs, chains, members) && b < |bs|
    ensures |bs| == |chains| && ChainOf(bs[b], chains[b])
    ensures forall x :: x in chains[b] ==> x in members
    ensures forall x :: x in members && Bkt(x.hashv, |bs|) == b ==> x in chains[b]
  {}

  lemma LeftInside(s: seq<UtItem>, x: UtItem)
    requires x in s
    ensures forall i :: 0 <= i < |Without(s, x)| ==> Without(s, x)[i] in s
  {}

  lemma SoleItem(s: seq<UtItem>, x: UtItem)
    requires Listed(s) && x in s
    ensures x.prev == null && x.next == null <==> |s| == 1
  {}

  lemma EmptyOrder(s: seq<UtItem>)
    requires s == []
    ensures Distinct(s) && Listed(s)
  {}

  lemma UnlinkedList(s: seq<UtItem>, k: nat)
    requires k < |s|
    requires forall i {:trigger s[i].next} {:trigger s[i].prev} :: 0 <= i < |s| && i != k ==>
      && s[i].next == ItemAt(s, if i == k - 1 then k + 1 else i + 1)
      && s[i].prev == ItemAt(s, if i == k + 1 then k - 1 else i - 1)
    ensures Listed(Drop(s, k))
  {
    DropShape(s, k);
    var d := Drop(s, k);
    forall i | 0 <= i < |d| ensures d[i].next == ItemAt(d, i + 1) && d[i].prev == ItemAt(d, i - 1) {
      assert d[i] == ItemAt(d, i) == s[if i < k then i else i + 1];
    }
  }

  // The ideal chain length over numBuckets = 2^lb buckets, by shift and mask.
  function IdealChain(numItems: nat, numBuckets: nat, lb: nat): (r: nat)
    requires numBuckets == Pow2(lb)
    ensures r == CeilDiv(numItems, numBuckets)
  {
    ShiftRoundsUp(numItems, lb);
    High(numItems, lb) + if And(numItems, numBuckets - 1) != 0 then 1 else 0
  }

  lemma HalfIsShift(n: nat)
    ensures High(n, 1) == n / 2
  {
    assert Pow2(1) == 2;
  }

  lemma Doubled(k: nat)
    ensures Pow2(k + 1) == 2 * Pow2(k)
  {}

  lemma FilledShape(bs: seq<Bucket>, chains: seq<seq<UtItem>>, members: set<UtItem>)
    requires Filled(bs, chains, members)
    ensures |bs| == |chains| > 0 && Placed(chains, members)
  {}
}

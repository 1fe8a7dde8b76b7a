// Whole runs of table operations against a list of entries in insertion order.
module UtRuns {
  import opened Sequences
  import opened UtItems
  import opened UtTables
  import opened UtMerge
  import opened UtSort

  datatype Op =
    | Put(key: Key, item: UtItem)
    | Remove(key: Key)
    | Look(key: Key)
    | SortBy(cmpfcn: (Entry, Entry) -> int)

  function Erase(es: seq<Entry>, key: Key): seq<Entry> {
    if es == [] then []
    else if es[0].key == key then es[1..]
    else [es[0]] + Erase(es[1..], key)
  }

  function Lookup(es: seq<Entry>, key: Key): UtItem? {
    if es == [] then null else if es[0].key == key then es[0].item else Lookup(es[1..], key)
  }

  // The entries after one operation: an entry that is put goes to the end, in place of one with its key;
  // sorting is stable, and puts them in the order of the comparison.
  function Step(es: seq<Entry>, op: Op): seq<Entry> {
    match op
    case Put(key, item) => Erase(es, key) + [Entry(key, item)]
    case Remove(key) => Erase(es, key)
    case Look(_) => es
    case SortBy(cmpfcn) => MergeSort(es, 1, cmpfcn)
  }

  function After(ops: seq<Op>): seq<Entry> {
    if ops == [] then [] else Step(After(ops[..|ops| - 1]), ops[|ops| - 1])
  }

  function Found(es: seq<Entry>, op: Op): UtItem? {
    match op
    case Put(key, _) => Lookup(es, key)
    case Remove(key) => Lookup(es, key)
    case Look(key) => Lookup(es, key)
    case SortBy(_) => null
  }

  // What each operation found under its key.
  function Answers(ops: seq<Op>): seq<UtItem?> {
    if ops == [] then []
    else Answers(ops[..|ops| - 1]) + [Found(After(ops[..|ops| - 1]), ops[|ops| - 1])]
  }

  // An item that is put is at that moment in no entry, or in the one it replaces.
  ghost predicate Fits(es: seq<Entry>, op: Op) {
    op.Put? ==> forall k :: 0 <= k < |es| && es[k].item == op.item ==> es[k].key == op.key
  }

  ghost predicate AllFit(ops: seq<Op>) {
    forall i :: 0 <= i < |ops| ==> Fits(After(ops[..i]), ops[i])
  }

  ghost predicate Shows(items: seq<UtItem>, es: seq<Entry>)
    reads items`key
  {
    |items| == |es| && forall i :: 0 <= i < |es| ==> items[i] == es[i].item && items[i].key == es[i].key
  }

  // Erasing takes out the first entry with the key, which is the one looked up.
  lemma {:induction false} EraseAt(es: seq<Entry>, key: Key) returns (k: nat)
    ensures k <= |es| && Lookup(es, key) == (if k < |es| then es[k].item else null)
    ensures k < |es| ==> es[k].key == key && Erase(es, key) == es[..k] + es[k + 1..]
    ensures k == |es| ==> Erase(es, key) == es
  {
    hide *;
    EraseStep(es, key);
    k := 0;
    if es != [] && es[0].key != key {
      var m := EraseAt(es[1..], key);
      k := m + 1;
      CutBehind(es, m);
    }
  }

  lemma EraseStep(es: seq<Entry>, key: Key)
    ensures es == [] ==> Lookup(es, key) == null && Erase(es, key) == es
    ensures es != [] && es[0].key == key ==> Lookup(es, key) == es[0].item && Erase(es, key) == es[..0] + es[1..]
    ensures es != [] && es[0].key != key ==>
      Lookup(es, key) == Lookup(es[1..], key) && Erase(es, key) == [es[0]] + Erase(es[1..], key)
  {}

  lemma CutBehind(es: seq<Entry>, m: nat)
    requires es != [] && m <= |es[1..]|
    ensures m < |es[1..]| ==> es[1..][m] == es[m + 1] && es[..m + 1] + es[m + 2..] == [es[0]] + (es[1..][..m] + es[1..][m + 1..])
    ensures es == [es[0]] + es[1..] && |es| == |es[1..]| + 1
  {}

  lemma SamePlace(items: seq<UtItem>, hash: Key -> nat, k: nat)
    requires Mapped(items, hash) && k < |items|
    ensures Position(items, items[k]) == k
  {}

  lemma ShowsWithout(items: seq<UtItem>, es: seq<Entry>, k: nat)
    requires Shows(items, es) && k < |es|
    ensures Shows(Drop(items, k), es[..k] + es[k + 1..])
  {
    var d, f := Drop(items, k), es[..k] + es[k + 1..];
    forall i | 0 <= i < |f| ensures d[i] == f[i].item && d[i].key == f[i].key {
      var m := if i < k then i else i + 1;
      assert d[i] == items[m] && f[i] == es[m];
    }
  }

  // The finite map of the items answers as the list of entries does, and items go where entries go.
  lemma LookupIs(items: seq<UtItem>, es: seq<Entry>, hash: Key -> nat, key: Key)
    requires Shows(items, es) && Mapped(items, hash)
    ensures Lookup(es, key) == if key in MapOf(items) then MapOf(items)[key] else null
    ensures Lookup(es, key) == null ==> Shows(items, Erase(es, key))
    ensures Lookup(es, key) != null ==> Lookup(es, key) in items && Shows(Without(items, Lookup(es, key)), Erase(es, key))
  {
    hide Shows, Lookup, Erase, MapOf, Mapped, Drop;
    MapHas(items, hash, key);
    var k := EraseAt(es, key);
    ShowsAt(items, es);
    if k < |es| {
      SamePlace(items, hash, k);
      ShowsWithout(items, es, k);
    } else if key in MapOf(items) {
      var i :| 0 <= i < |items| && items[i] == MapOf(items)[key];
      NotErased(es, key, i);
    }
  }

  lemma ShowsAt(items: seq<UtItem>, es: seq<Entry>)
    requires Shows(items, es)
    ensures |items| == |es| && forall i :: 0 <= i < |es| ==> items[i] == es[i].item && items[i].key == es[i].key
  {}

  lemma {:induction false} NotErased(es: seq<Entry>, key: Key, i: nat)
    requires i < |es| && es[i].key == key
    ensures Lookup(es, key) != null
  {
    if es[0].key != key { NotErased(es[1..], key, i - 1); }
  }

  // ---------- the list of entries ----------

  ghost predicate KeysOnce(es: seq<Entry>) {
    forall i, j :: 0 <= i < j < |es| ==> es[i].key != es[j].key
  }

  lemma ErasedKeys(es: seq<Entry>, key: Key)
    requires KeysOnce(es)
    ensures KeysOnce(Erase(es, key)) && forall i :: 0 <= i < |Erase(es, key)| ==> Erase(es, key)[i].key != key
  {
    hide Erase, Lookup;
    var k := EraseAt(es, key);
    forall i | 0 <= i < |Erase(es, key)| ensures Erase(es, key)[i].key != key {
      if k == |es| { if es[i].key == key { NotErased(es, key, i); } }
    }
  }

  lemma SortedKeys(es: seq<Entry>, cmpfcn: (Entry, Entry) -> int)
    requires KeysOnce(es)
    ensures KeysOnce(MergeSort(es, 1, cmpfcn))
  {
    hide MergeSort;
    var r := MergeSort(es, 1, cmpfcn);
    MergeSortPermutes(es, 1, cmpfcn);
    forall i, j | 0 <= i < j < |r| ensures r[i].key != r[j].key {
      SortElement(es, cmpfcn, r[i]);
      SortElement(es, cmpfcn, r[j]);
      if r[i] == r[j] {
        OccursTwice(r, i, j);
        OccursOnce(es, r[i]);
      }
    }
  }

  lemma OccursTwice(es: seq<Entry>, i: nat, j: nat)
    requires i < j < |es| && es[i] == es[j]
    ensures multiset(es)[es[i]] >= 2
  {
    assert es == es[..i] + [es[i]] + es[i + 1..j] + [es[j]] + es[j + 1..];
  }

  lemma {:induction false} OccursOnce(es: seq<Entry>, e: Entry)
    requires KeysOnce(es)
    ensures multiset(es)[e] <= 1
    decreases |es|
  {
    if es != [] {
      var rest := es[1..];
      OccursOnce(rest, e);
      assert es == [es[0]] + rest;
    }
  }

  // No operation leaves two entries with the same key.
  lemma {:induction false} OneEntryPerKey(ops: seq<Op>)
    ensures KeysOnce(After(ops))
    decreases |ops|
  {
    hide Erase, MergeSort;
    if ops != [] {
      var es, op := After(ops[..|ops| - 1]), ops[|ops| - 1];
      OneEntryPerKey(ops[..|ops| - 1]);
      match op {
        case Put(key, _) => ErasedKeys(es, key);
        case Remove(key) => ErasedKeys(es, key);
        case Look(_) =>
        case SortBy(cmpfcn) => SortedKeys(es, cmpfcn);
      }
    }
  }

  // Sorting leaves the entries in the order of a comparison that is total and transitive on them, and
  // those that compare equal in the order they had.
  lemma SortedAfter(ops: seq<Op>, cmpfcn: (Entry, Entry) -> int)
    requires Preorder(cmpfcn, set e | e in After(ops))
    ensures StablySorted(After(ops), After(ops + [SortBy(cmpfcn)]), cmpfcn)
  {
    hide Preorder, StablySorted;
    assert (ops + [SortBy(cmpfcn)])[..|ops|] == ops;
    OneEntryPerKey(ops);
    SortIsStable(After(ops), cmpfcn);
  }

  // ---------- runs ----------

  // The table after the operations: valid, with the entries they leave, in the order of insertion.
  ghost predicate Holds(t: UtHash, ops: seq<Op>)
    reads t, t.buckets, t.items
  {
    t.Valid() && Mapped(t.items, t.hash) && Shows(t.items, After(ops))
  }

  method Apply(t: UtHash, op: Op, ghost ops: seq<Op>) returns (found: UtItem?)
    requires Holds(t, ops) && Fits(After(ops), op)
    modifies t, t.buckets, t.items`next, t.items`prev, t.items`hhNext, t.items`hhPrev
    modifies if op.Put? then {op.item} else {}
    ensures Holds(t, ops + [op]) && found == Found(After(ops), op)
    ensures t.buckets == old(t.buckets) || fresh(t.buckets)
  {
    hide UtHash.Valid, Mapped, Shows, MapOf, Lookup, Erase, MergeSort;
    ShowsAt(t.items, After(ops));
    assert (ops + [op])[..|ops|] == ops;
    match op {
      case Put(key, item) =>
        LookupIs(t.items, After(ops), t.hash, key);
        ghost var kept := if Lookup(After(ops), key) != null then Without(t.items, Lookup(After(ops), key)) else t.items;
        assert Shows(kept, Erase(After(ops), key));
        if item in t.items { OneEntry(t.items, After(ops), t.hash, item); }
        found := t.Replace(key, item);
        assert Shows(kept, Erase(After(ops), key));
        ShowsMore(kept, Erase(After(ops), key), key, item);
      case Remove(key) =>
        LookupIs(t.items, After(ops), t.hash, key);
        found := t.Find(key);
        if found != null { t.Delete(found); }
      case Look(key) =>
        LookupIs(t.items, After(ops), t.hash, key);
        found := t.Find(key);
      case SortBy(cmpfcn) =>
        SortTableBy(t, cmpfcn, After(ops));
        found := null;
    }
  }

  // Sorts the table along with the entries it shows.
  method SortTableBy(t: UtHash, cmpfcn: (Entry, Entry) -> int, ghost es: seq<Entry>)
    requires t.Valid() && Mapped(t.items, t.hash) && Shows(t.items, es)
    modifies t`head, t`tail, t`items, t.items`next, t.items`prev
    ensures t.Valid() && Mapped(t.items, t.hash) && Shows(t.items, MergeSort(es, 1, cmpfcn))
  {
    hide UtHash.Valid, Mapped, Shows, MergeSort, Order, Preorder, StablySorted, Distinct, Elems;
    ghost var items, cmp := t.items, Order(cmpfcn, t.items);
    t.DistinctItems();
    ItemsSorted(items, es, cmpfcn);
    Sort(t, cmpfcn);
    t.DistinctItems();
    StillShown(items, t.items, es, cmpfcn);
    StillMapped(items, t.items, t.hash);
  }

  // Sorting the items is sorting their entries.
  lemma ItemsSorted(items: seq<UtItem>, es: seq<Entry>, cmpfcn: (Entry, Entry) -> int)
    requires Shows(items, es)
    ensures MergeSort(items, 1, Order(cmpfcn, items)) == Image(MergeSort(es, 1, cmpfcn), (e: Entry) => e.item)
  {
    hide MergeSort, Shows;
    ShowsAt(items, es);
    var f, cmp, dom := (e: Entry) => e.item, Order(cmpfcn, items), set e | e in es;
    forall a, b | a in dom && b in dom ensures cmp(f(a), f(b)) == cmpfcn(a, b) {
      var i :| 0 <= i < |es| && es[i] == a;
      var j :| 0 <= j < |es| && es[j] == b;
      assert items[i] == a.item && items[j] == b.item;
    }
    SortImage(es, 1, f, cmpfcn, cmp, dom);
    assert Image(es, f) == items;
  }

  lemma StillShown(was: seq<UtItem>, items: seq<UtItem>, es: seq<Entry>, cmpfcn: (Entry, Entry) -> int)
    requires Shows(was, es) && items == Image(MergeSort(es, 1, cmpfcn), (e: Entry) => e.item)
    ensures Shows(items, MergeSort(es, 1, cmpfcn))
  {
    hide MergeSort;
    var sorted := MergeSort(es, 1, cmpfcn);
    forall i | 0 <= i < |sorted| ensures items[i] == sorted[i].item && items[i].key == sorted[i].key {
      SortElement(es, cmpfcn, sorted[i]);
      var k :| 0 <= k < |es| && es[k] == sorted[i];
      assert was[k].key == es[k].key;
    }
  }

  lemma StillMapped(was: seq<UtItem>, items: seq<UtItem>, hash: Key -> nat)
    requires Mapped(was, hash) && Distinct(items) && Elems(items) == Elems(was)
    ensures Mapped(items, hash)
  {
    SameObjects(items, was);
  }

  // An item of the table is the only one under its key.
  lemma OneEntry(items: seq<UtItem>, es: seq<Entry>, hash: Key -> nat, x: UtItem)
    requires Shows(items, es) && Mapped(items, hash) && x in items
    ensures UtHash.OnlyMatch(items, x, x.key, hash(x.key))
  {}

  lemma ShowsMore(items: seq<UtItem>, es: seq<Entry>, key: Key, x: UtItem)
    requires Shows(items, es) && x.key == key
    ensures Shows(items + [x], es + [Entry(key, x)])
  {}

  ghost function PutItems(ops: seq<Op>): set<UtItem> {
    set i | 0 <= i < |ops| && ops[i].Put? :: ops[i].item
  }

  // Every entry was put by one of the operations.
  lemma {:induction false} EntriesWerePut(ops: seq<Op>)
    ensures forall i :: 0 <= i < |After(ops)| ==> After(ops)[i].item in PutItems(ops)
  {
    hide MergeSort, Erase, Lookup;
    if ops != [] {
      var front, op := ops[..|ops| - 1], ops[|ops| - 1];
      EntriesWerePut(front);
      if op.SortBy? {
        forall i | 0 <= i < |After(ops)| ensures After(ops)[i] in After(front) { SortElement(After(front), op.cmpfcn, After(ops)[i]); }
      } else {
        ghost var k := EraseAt(After(front), op.key);
      }
      forall i | 0 <= i < |After(front)| ensures After(front)[i].item in PutItems(ops) {
        var j :| 0 <= j < |front| && front[j].Put? && front[j].item == After(front)[i].item;
        assert ops[j].Put?;
      }
      if op.Put? { assert ops[|ops| - 1].item in PutItems(ops); }
    }
  }

  // The table has items of the operations alone.
  lemma ItemsWerePut(t: UtHash, ops: seq<Op>, i: nat)
    requires i <= |ops| && Holds(t, ops[..i])
    ensures forall k :: 0 <= k < |t.items| ==> t.items[k] in PutItems(ops)
  {
    hide UtHash.Valid, Mapped, After;
    EntriesWerePut(ops[..i]);
    forall k | 0 <= k < |t.items| ensures t.items[k] in PutItems(ops) {
      assert t.items[k] == After(ops[..i])[k].item;
      var j :| 0 <= j < i && ops[..i][j].Put? && ops[..i][j].item == t.items[k];
      assert ops[j].Put?;
    }
  }

  lemma Empty(t: UtHash)
    requires t.Valid() && t.items == []
    ensures Holds(t, []) && Answers([]) == []
  {}

  lemma OneMore(ops: seq<Op>, i: nat)
    requires i < |ops|
    ensures ops[..i + 1] == ops[..i] + [ops[i]]
    ensures Answers(ops[..i + 1]) == Answers(ops[..i]) + [Found(After(ops[..i]), ops[i])]
  {
    assert ops[..i + 1][..i] == ops[..i];
  }

  // Applies the operations to an empty table: what they find and what they leave is what the list of
  // entries says, whatever the hash function and the expansions.
  method Run(hash: Key -> nat, ops: seq<Op>) returns (t: UtHash, answers: seq<UtItem?>)
    requires AllFit(ops)
    modifies PutItems(ops)
    ensures fresh(t) && Holds(t, ops) && answers == Answers(ops)
  {
    hide Holds, Answers, After, Found, Fits;
    t := new UtHash(hash);
    Empty(t);
    answers := [];
    var i := 0;
    assert ops[..0] == [];
    while i < |ops|
      invariant i <= |ops| && fresh(t) && fresh(t.buckets) && Holds(t, ops[..i]) && answers == Answers(ops[..i])
    {
      ItemsWerePut(t, ops, i);
      OneMore(ops, i);
      var found := Apply(t, ops[i], ops[..i]);
      answers := answers + [found];
      i := i + 1;
    }
    assert ops[..i] == ops;
  }
}

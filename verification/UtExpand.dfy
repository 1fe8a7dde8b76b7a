// Redistribution of the items of a hash table over twice as many buckets.
module UtExpand {
  import opened Words
  import opened BitTricks
  import opened Sequences
  import opened UtItems

  // The chain of bucket j among n when the items of s are pushed to the front of their buckets in turn.
  ghost function Moved(s: seq<UtItem>, n: nat, j: nat): seq<UtItem>
    requires n > 0
    reads s`hashv
  {
    if s == [] then []
    else
      var x := s[|s| - 1];
      (if Bkt(x.hashv, n) == j then [x] else []) + Moved(s[..|s| - 1], n, j)
  }

  ghost predicate AllMoved(chains: seq<seq<UtItem>>, s: seq<UtItem>)
    reads s`hashv
  {
    |chains| > 0 && forall j: nat :: j < |chains| ==> chains[j] == Moved(s, |chains|, j)
  }

  // How many of c items in one bucket have a chain position beyond the ideal length.
  function Beyond(c: nat, ideal: nat): nat {
    if c > ideal then c - ideal else 0
  }

  lemma BeyondIs(c: nat, ideal: nat)
    ensures Beyond(c, ideal) + Min(c, ideal) == c
  {}

  // The number of items of all chains beyond the ideal length.
  function Excess<T>(chains: seq<seq<T>>, ideal: nat): nat {
    if chains == [] then 0 else Excess(chains[..|chains| - 1], ideal) + Beyond(|chains[|chains| - 1]|, ideal)
  }

  lemma {:induction false} ExcessFront<T>(chains: seq<seq<T>>, ideal: nat, b: nat, x: T)
    requires b < |chains|
    ensures Excess(chains[b := [x] + chains[b]], ideal)
      == Excess(chains, ideal) + if |chains[b]| + 1 > ideal then 1 else 0
  {
    var last := |chains| - 1;
    var now := chains[b := [x] + chains[b]];
    if b < last {
      ExcessFront(chains[..last], ideal, b, x);
      assert now[..last] == chains[..last][b := [x] + chains[b]];
    } else {
      assert now[..last] == chains[..last];
    }
  }

  // The expansion multiplier of a bucket that has received c items.
  function Mult(c: nat, ideal: nat): nat {
    if c == 0 then 0
    else
      var m := Mult(c - 1, ideal);
      if c > ideal && c > m * ideal then m + 1 else m
  }

  // The multiplier is zero on an ideal chain, and otherwise about the number of ideal lengths in the chain.
  lemma {:induction false} MultBounds(c: nat, ideal: nat)
    requires ideal > 0
    ensures c <= ideal ==> Mult(c, ideal) == 0
    ensures c > ideal ==> Mult(c, ideal) > 0
    ensures c > ideal ==> (Mult(c, ideal) - 1) * ideal < c
    ensures c > ideal ==> c <= Mult(c, ideal) * ideal + 1
  {
    if c > 0 {
      MultBounds(c - 1, ideal);
      var m := Mult(c - 1, ideal);
      if c > ideal && c > m * ideal { Distribute(m, 1, ideal); }
    }
  }

  lemma MovedMore(s: seq<UtItem>, x: UtItem, chains: seq<seq<UtItem>>, b: nat)
    requires AllMoved(chains, s) && b == Bkt(x.hashv, |chains|)
    ensures AllMoved(chains[b := [x] + chains[b]], s + [x])
  {
    assert (s + [x])[..|s|] == s;
  }

  // ---------- the moves ----------

  ghost predicate Counted(bs: seq<Bucket>, chains: seq<seq<UtItem>>, ideal: nat) {
    |bs| == |chains| && forall j :: 0 <= j < |bs| ==> bs[j].expandMult == Mult(|chains[j]|, ideal)
  }

  // The new buckets after the items of `done` have been moved.
  ghost predicate Redistributed(bs: seq<Bucket>, chains: seq<seq<UtItem>>, done: seq<UtItem>, ideal: nat, nonideal: nat)
    reads done`hhNext, done`hhPrev, done`hashv
  {
    && Filled(bs, chains, Elems(done))
    && AllMoved(chains, done)
    && Counted(bs, chains, ideal)
    && nonideal == Excess(chains, ideal)
  }

  // The links do not depend on the multipliers.
  lemma Remultiplied(bs: seq<Bucket>, chains: seq<seq<UtItem>>, members: set<UtItem>, b: nat, m: nat)
    requires Filled(bs, chains, members) && b < |bs|
    ensures Filled(bs[b := bs[b].(expandMult := m)], chains, members)
  {
    hide Placed, Chained;
    assert ChainOf(bs[b], chains[b]);
  }

  lemma CountedMore(was: seq<Bucket>, bs: seq<Bucket>, chains: seq<seq<UtItem>>, now: seq<seq<UtItem>>, b: nat, x: UtItem, ideal: nat)
    requires Counted(was, chains, ideal) && b < |was|
    requires now == chains[b := [x] + chains[b]]
    requires |bs| == |was| && (forall j :: 0 <= j < |bs| && j != b ==> bs[j] == was[j])
    requires bs[b].expandMult == if |now[b]| > ideal && |now[b]| > was[b].expandMult * ideal then was[b].expandMult + 1 else was[b].expandMult
    ensures Counted(bs, now, ideal)
  {}

  method MoveItem(x: UtItem, bs: array<Bucket>, ideal: nat, nonideal: nat,
                  ghost chains: seq<seq<UtItem>>, ghost done: seq<UtItem>)
    returns (more: nat, ghost now: seq<seq<UtItem>>)
    requires Redistributed(bs[..], chains, done, ideal, nonideal) && x !in done && bs.Length > 0
    modifies bs, x`hhNext, x`hhPrev, done`hhPrev
    ensures Redistributed(bs[..], now, done + [x], ideal, more)
  {
    hide Bkt, Filled, AllMoved, Counted, Excess, Mult, Moved;
    Sizes(bs[..], chains, done, ideal, nonideal);
    var b := Bkt(x.hashv, bs.Length);
    ghost var was := bs[..];
    now := chains[b := [x] + chains[b]];
    MovedMore(done, x, chains, b);
    ExcessFront(chains, ideal, b, x);
    assert Elems(done + [x]) == Elems(done) + {x};
    LinkFront(bs, b, x, chains, Elems(done));
    more := nonideal;
    if bs[b].count > ideal {
      more := more + 1;
      if bs[b].count > bs[b].expandMult * ideal {
        Remultiplied(bs[..], now, Elems(done + [x]), b, bs[b].expandMult + 1);
        ghost var linked := bs[..];
        bs[b] := bs[b].(expandMult := bs[b].expandMult + 1);
        assert bs[..] == linked[b := linked[b].(expandMult := linked[b].expandMult + 1)];
      }
    }
    CountedMore(was, bs[..], chains, now, b, x, ideal);
  }

  lemma Sizes(bs: seq<Bucket>, chains: seq<seq<UtItem>>, done: seq<UtItem>, ideal: nat, nonideal: nat)
    requires Redistributed(bs, chains, done, ideal, nonideal)
    ensures |bs| == |chains| > 0
  {}

  ghost predicate Forward(chain: seq<UtItem>, k: nat)
    reads chain`hhNext
  {
    forall i :: k <= i < |chain| ==> chain[i].hhNext == ItemAt(chain, i + 1)
  }

  lemma NotYetMet(done: seq<UtItem>, chain: seq<UtItem>, k: nat)
    requires Distinct(chain) && Disjoint(done, chain) && k < |chain|
    ensures chain[k] !in done + chain[..k] && chain[k] !in chain[k + 1..]
    ensures done + chain[..k] + [chain[k]] == done + chain[..k + 1]
  {}

  method MoveChain(head: UtItem?, bs: array<Bucket>, ideal: nat, nonideal: nat,
                   ghost chain: seq<UtItem>, ghost chains: seq<seq<UtItem>>, ghost done: seq<UtItem>)
    returns (more: nat, ghost now: seq<seq<UtItem>>)
    requires Redistributed(bs[..], chains, done, ideal, nonideal) && bs.Length > 0
    requires head == ItemAt(chain, 0) && Forward(chain, 0) && Distinct(chain) && Disjoint(done, chain)
    modifies bs, chain`hhNext, chain`hhPrev, done`hhPrev
    ensures Redistributed(bs[..], now, done + chain, ideal, more)
  {
    hide Redistributed, Distinct, Disjoint;
    var thh := head;
    ghost var k := 0;
    more, now := nonideal, chains;
    assert done + chain[..0] == done;
    while thh != null
      invariant k <= |chain| && thh == ItemAt(chain, k) && Forward(chain, k)
      invariant Redistributed(bs[..], now, done + chain[..k], ideal, more)
      decreases |chain| - k
    {
      var nxt := thh.hhNext;
      NotYetMet(done, chain, k);
      more, now := MoveItem(thh, bs, ideal, more, now, done + chain[..k]);
      assert forall i :: k < i < |chain| ==> chain[i] in chain[k + 1..];
      thh := nxt;
      k := k + 1;
    }
    assert done + chain[..k] == done + chain;
  }

  // ---------- where the items come from ----------

  lemma {:induction false} ConcatMember(chains: seq<seq<UtItem>>, members: set<UtItem>, i: nat, x: UtItem)
    requires Placed(chains, members) && i <= |chains|
    ensures x in Concat(chains[..i]) <==> x in members && Bkt(x.hashv, |chains|) < i
  {
    hide Bkt;
    if i > 0 {
      ConcatLast(chains, i - 1);
      ConcatMember(chains, members, i - 1, x);
    }
  }

  // Before bucket i is emptied, none of its items has been moved.
  lemma NotYetMoved(chains: seq<seq<UtItem>>, members: set<UtItem>, i: nat)
    requires Placed(chains, members) && i < |chains|
    ensures Disjoint(Concat(chains[..i]), chains[i]) && Distinct(chains[i])
    ensures Concat(chains[..i + 1]) == Concat(chains[..i]) + chains[i]
  {
    hide Bkt;
    var done := Concat(chains[..i]);
    forall k, j | 0 <= k < |done| && 0 <= j < |chains[i]| ensures done[k] != chains[i][j] {
      ConcatMember(chains, members, i, done[k]);
    }
    ConcatLast(chains, i);
  }

  lemma AllMembers(chains: seq<seq<UtItem>>, members: set<UtItem>)
    requires Placed(chains, members)
    ensures Elems(Concat(chains)) == members
  {
    hide Bkt;
    assert chains[..|chains|] == chains;
    forall x | x in Concat(chains) ensures x in members {
      ConcatMember(chains, members, |chains|, x);
    }
    forall x | x in members ensures x in Concat(chains) {
      ConcatMember(chains, members, |chains|, x);
    }
  }

  lemma {:induction false} NoExcess<T>(chains: seq<seq<T>>, ideal: nat)
    requires forall j :: 0 <= j < |chains| ==> chains[j] == []
    ensures Excess(chains, ideal) == 0
  {
    if chains != [] { NoExcess(chains[..|chains| - 1], ideal); }
  }

  ghost function NoChains(n: nat): (chains: seq<seq<UtItem>>)
    ensures |chains| == n && forall j :: 0 <= j < n ==> chains[j] == []
  {
    seq(n, i => [])
  }

  lemma ZeroBuckets(bs: seq<Bucket>)
    requires |bs| > 0 && forall j :: 0 <= j < |bs| ==> bs[j] == Bucket(null, 0, 0)
    ensures Filled(bs, NoChains(|bs|), {})
  {
    hide Bkt;
  }

  lemma NothingMoved(bs: seq<Bucket>, ideal: nat)
    requires |bs| > 0 && forall j :: 0 <= j < |bs| ==> bs[j] == Bucket(null, 0, 0)
    ensures Redistributed(bs, NoChains(|bs|), [], ideal, 0)
  {
    hide Filled;
    NoExcess(NoChains(|bs|), ideal);
    ZeroBuckets(bs);
    assert Elems([]) == {};
  }

  lemma ConcatNone<T>(chains: seq<seq<T>>)
    ensures Concat(chains[..0]) == []
  {}

  lemma ConcatInside(chains: seq<seq<UtItem>>, members: set<UtItem>, i: nat)
    requires Placed(chains, members) && i < |chains|
    ensures forall x :: x in Concat(chains[..i]) ==> x in members
    ensures forall x :: x in chains[i] ==> x in members
  {
    forall x | x in Concat(chains[..i]) ensures x in members {
      ConcatMember(chains, members, i, x);
    }
  }

  lemma ChainStarts(bs: seq<Bucket>, chains: seq<seq<UtItem>>, members: set<UtItem>)
    requires Filled(bs, chains, members)
    ensures |bs| == |chains| && forall c :: 0 <= c < |bs| ==> Forward(chains[c], 0) && bs[c].head == ItemAt(chains[c], 0)
  {
    hide Placed;
    forall c | 0 <= c < |bs| ensures Forward(chains[c], 0) && bs[c].head == ItemAt(chains[c], 0) {
      assert ChainOf(bs[c], chains[c]);
    }
  }

  // The chains behind bucket i hold no item of bucket i and none moved before.
  lemma LaterChains(chains: seq<seq<UtItem>>, members: set<UtItem>, i: nat)
    requires Placed(chains, members) && i < |chains|
    ensures forall c, k :: i < c < |chains| && 0 <= k < |chains[c]| ==>
      chains[c][k] !in chains[i] && chains[c][k] !in Concat(chains[..i])
  {
    hide Bkt;
    forall c, k | i < c < |chains| && 0 <= k < |chains[c]|
      ensures chains[c][k] !in chains[i] && chains[c][k] !in Concat(chains[..i])
    {
      ConcatMember(chains, members, i, chains[c][k]);
    }
  }

  // Moves the items of all chains of the old buckets to fresh ones.
  method Redistribute(from: array<Bucket>, bs: array<Bucket>, ideal: nat,
                      ghost chains: seq<seq<UtItem>>, ghost members: set<UtItem>)
    returns (nonideal: nat, ghost now: seq<seq<UtItem>>)
    requires from != bs && Filled(from[..], chains, members)
    requires bs.Length > 0 && forall j :: 0 <= j < bs.Length ==> bs[j] == Bucket(null, 0, 0)
    modifies bs, members`hhNext, members`hhPrev
    ensures Redistributed(bs[..], now, Concat(chains), ideal, nonideal)
  {
    hide Redistributed, Placed, Bkt, Moved, Chained, Concat;
    nonideal, now := 0, NoChains(bs.Length);
    NothingMoved(bs[..], ideal);
    ConcatNone(chains);
    ChainStarts(from[..], chains, members);
    var i := 0;
    while i < from.Length
      invariant i <= from.Length
      invariant Redistributed(bs[..], now, Concat(chains[..i]), ideal, nonideal)
      invariant forall c :: i <= c < from.Length ==> Forward(chains[c], 0) && from[c].head == ItemAt(chains[c], 0)
      modifies bs, members`hhNext, members`hhPrev
    {
      NotYetMoved(chains, members, i);
      ConcatInside(chains, members, i);
      LaterChains(chains, members, i);
      nonideal, now := MoveChain(from[i].head, bs, ideal, nonideal, chains[i], now, Concat(chains[..i]));
      i := i + 1;
    }
    assert chains[..i] == chains;
  }

  // ---------- what the redistribution means ----------

  lemma {:induction false} MovedConcat(s: seq<UtItem>, t: seq<UtItem>, n: nat, j: nat)
    requires n > 0
    ensures Moved(s + t, n, j) == Moved(t, n, j) + Moved(s, n, j)
  {
    hide Bkt;
    if t == [] {
      assert s + t == s;
    } else {
      assert (s + t)[..|s + t| - 1] == s + t[..|t| - 1];
      MovedConcat(s, t[..|t| - 1], n, j);
    }
  }

  lemma {:induction false} MovedNone(s: seq<UtItem>, n: nat, j: nat)
    requires n > 0 && forall i :: 0 <= i < |s| ==> Bkt(s[i].hashv, n) != j
    ensures Moved(s, n, j) == []
  {
    hide Bkt;
    if s != [] { MovedNone(s[..|s| - 1], n, j); }
  }

  lemma {:induction false} MovedChains(chains: seq<seq<UtItem>>, n: nat, j: nat, b: nat, i: nat)
    requires n > 0 && b < |chains| && i <= |chains|
    requires forall c, k :: 0 <= c < |chains| && 0 <= k < |chains[c]| && c != b ==> Bkt(chains[c][k].hashv, n) != j
    ensures Moved(Concat(chains[..i]), n, j) == if b < i then Moved(chains[b], n, j) else []
  {
    hide Bkt;
    if i > 0 {
      ConcatLast(chains, i - 1);
      MovedConcat(Concat(chains[..i - 1]), chains[i - 1], n, j);
      MovedChains(chains, n, j, b, i - 1);
      if i - 1 != b { MovedNone(chains[i - 1], n, j); }
    }
  }

  lemma LowLow(h: nat, k: nat)
    ensures Low(Low(h, k + 1), k) == Low(h, k)
  {
    var p := Pow2(k);
    var q, r := h / (2 * p), h % (2 * p);
    assert h == q * (2 * p) + r;
    assert q * (2 * p) == (2 * q) * p;
    DivModUnique(h, p, 2 * q + r / p, r % p) by {
      Distribute(2 * q, r / p, p);
    }
  }

  // Bucket j of the doubled table receives its items from old bucket j % 2^k alone: those whose hash
  // values now select j, in reversed order.
  lemma DoubledFrom(chains: seq<seq<UtItem>>, members: set<UtItem>, k: nat, j: nat)
    requires Placed(chains, members) && |chains| == Pow2(k) && j < Pow2(k + 1)
    ensures Low(j, k) < |chains|
    ensures Moved(Concat(chains), Pow2(k + 1), j) == Moved(chains[Low(j, k)], Pow2(k + 1), j)
  {
    hide Moved, Concat;
    var n, b := Pow2(k + 1), Low(j, k);
    forall c, i | 0 <= c < |chains| && 0 <= i < |chains[c]| && c != b ensures Bkt(chains[c][i].hashv, n) != j {
      var h := chains[c][i].hashv;
      AndMask(h, k);
      AndMask(h, k + 1);
      LowLow(h, k);
      assert Bkt(h, |chains|) == c;
    }
    MovedChains(chains, n, j, b, |chains|);
    assert chains[..|chains|] == chains;
  }

  function CeilDiv(a: nat, b: nat): nat
    requires b > 0
  {
    (a + b - 1) / b
  }

  // The quotient rounded up.
  lemma CeilDivIs(a: nat, b: nat)
    requires b > 0
    ensures a <= CeilDiv(a, b) * b < a + b
  {
    var q := CeilDiv(a, b);
    assert a + b - 1 == q * b + (a + b - 1) % b;
  }

  lemma CeilParts(n: nat, p: nat, q: nat, r: nat)
    requires n == q * p + r && r < p
    ensures CeilDiv(n, p) == q + if r != 0 then 1 else 0
  {
    if r == 0 {
      DivModUnique(n + p - 1, p, q, p - 1);
    } else {
      Distribute(q, 1, p);
      DivModUnique(n + p - 1, p, q + 1, r - 1);
    }
  }

  lemma DivMod(n: nat, p: nat)
    requires p > 0
    ensures n == n / p * p + n % p
  {}

  // The shift and mask of the code round up.
  lemma ShiftRoundsUp(n: nat, k: nat)
    ensures High(n, k) + (if And(n, Pow2(k) - 1) != 0 then 1 else 0) == CeilDiv(n, Pow2(k))
  {
    hide And, CeilDiv;
    AndMask(n, k);
    DivMod(n, Pow2(k));
    CeilParts(n, Pow2(k), High(n, k), Low(n, k));
  }
}

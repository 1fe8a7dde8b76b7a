// Intrusive circular queues: a head and its elements, doubly linked in a ring.
module Queue {
  import opened Sequences

  class QNode {
    var next: QNode
    var prev: QNode

    // A node in no queue yet.
    constructor ()
      ensures Ring([this])
    {
      next, prev := this, this;
    }
  }

  // The node at position i of the ring s, counting around from either end.
  ghost function Around(s: seq<QNode>, i: int): QNode
    requires -1 <= i <= |s| && s != []
  {
    if i == |s| then s[0] else if i == -1 then s[|s| - 1] else s[i]
  }

  // s is the ring of the head s[0] and the elements s[1..].
  ghost predicate Ring(s: seq<QNode>)
    reads s`next, s`prev
  {
    && s != [] && Distinct(s)
    && forall i {:trigger s[i].next} {:trigger s[i].prev} :: 0 <= i < |s| ==>
      s[i].next == Around(s, i + 1) && s[i].prev == Around(s, i - 1)
  }

  // Following a link and its opposite leads back.
  lemma MutuallyInverse(s: seq<QNode>, i: nat)
    requires Ring(s) && i < |s|
    ensures s[i].next in s && s[i].next.prev == s[i]
    ensures s[i].prev in s && s[i].prev.next == s[i]
  {
    var j := if i + 1 == |s| then 0 else i + 1;
    var k := if i == 0 then |s| - 1 else i - 1;
    assert s[j].prev == Around(s, j - 1) && s[k].next == Around(s, k + 1);
  }

  method Init(q: QNode)
    modifies q
    ensures Ring([q])
  {
    q.next := q;
    q.prev := q;
  }

  method Empty(q: QNode, ghost s: seq<QNode>) returns (empty: bool)
    requires Ring(s) && q == s[0]
    ensures empty <==> |s| == 1
  {
    empty := q == q.next;
  }

  // Visits the elements from the first to the last.
  method ForEach(h: QNode, ghost s: seq<QNode>) returns (visited: seq<QNode>)
    requires Ring(s) && h == s[0]
    ensures visited == s[1..]
  {
    visited := [];
    var q := h.next;
    while q != h
      invariant 1 <= |visited| + 1 <= |s| && q == Around(s, |visited| + 1) && visited == s[1..|visited| + 1]
      decreases |s| - |visited|
    {
      visited := visited + [q];
      q := q.next;
    }
  }

  method InsertHead(h: QNode, q: QNode, ghost s: seq<QNode>)
    requires Ring(s) && h == s[0] && q !in s
    modifies q, s`next, s`prev
    ensures Ring([h, q] + s[1..])
  {
    q.next := h.next;
    q.prev := h;
    q.next.prev := q;
    h.next := q;
  }

  method InsertTail(h: QNode, q: QNode, ghost s: seq<QNode>)
    requires Ring(s) && h == s[0] && q !in s
    modifies q, s`next, s`prev
    ensures Ring(s + [q])
  {
    q.next := h;
    q.prev := h.prev;
    q.prev.next := q;
    h.prev := q;
  }

  // Takes out any one node of a larger ring; its own links stay as they are.
  method Remove(q: QNode, ghost s: seq<QNode>, ghost k: nat)
    requires Ring(s) && k < |s| && q == s[k]
    modifies s`next, s`prev
    ensures |s| > 1 ==> Ring(s[..k] + s[k + 1..]) && q.next == old(q.next) && q.prev == old(q.prev)
    ensures |s| == 1 ==> Ring(s)
  {
    ghost var left := s[..k] + s[k + 1..];
    WithoutOne(s, k, left);
    q.prev.next := q.next;
    q.next.prev := q.prev;
    forall i {:trigger left[i].next} {:trigger left[i].prev} | 0 <= i < |left|
      ensures left[i].next == Around(left, i + 1) && left[i].prev == Around(left, i - 1)
    {
      var m := if i < k then i else i + 1;
      assert left[i] == s[m];
      assert old(s[m].next) == Around(s, m + 1) && old(s[m].prev) == Around(s, m - 1);
    }
  }

  // What is left of a ring without its node k.
  lemma WithoutOne(s: seq<QNode>, k: nat, left: seq<QNode>)
    requires Ring(s) && k < |s| && left == s[..k] + s[k + 1..]
    ensures Distinct(left) && |left| == |s| - 1
    ensures forall i :: 0 <= i < |left| ==> left[i] == s[if i < k then i else i + 1]
    ensures s[k].next == Around(s, k + 1) && s[k].prev == Around(s, k - 1)
  {
    hide Ring;
    RingParts(s, k);
  }

  lemma RingParts(s: seq<QNode>, k: nat)
    requires Ring(s) && k < |s|
    ensures Distinct(s) && s[k].next == Around(s, k + 1) && s[k].prev == Around(s, k - 1)
  {}

  // Appends the elements of n to those of h. The head n itself is left out.
  method Add(h: QNode, n: QNode, ghost s: seq<QNode>, ghost t: seq<QNode>)
    requires Ring(s) && Ring(t) && h == s[0] && n == t[0] && Disjoint(s, t)
    modifies s`next, s`prev, t`next, t`prev
    ensures Ring(s + t[1..])
  {
    h.prev.next := n.next;
    n.next.prev := h.prev;
    h.prev := n.prev;
    h.prev.next := h;
  }

  // Cuts the elements from q on off the queue of h, and puts them into that of n.
  method Split(h: QNode, q: QNode, n: QNode, ghost s: seq<QNode>, ghost k: nat)
    requires Ring(s) && h == s[0] && 1 <= k < |s| && q == s[k] && n !in s
    modifies n, s`next, s`prev
    ensures Ring(s[..k]) && Ring([n] + s[k..])
  {
    Parts(s, k, n);
    assert h.prev == s[|s| - 1] && q.prev == s[k - 1];
    n.prev := h.prev;
    n.prev.next := n;
    n.next := q;
    h.prev := q.prev;
    h.prev.next := h;
    q.prev := n;
  }

  lemma Parts(s: seq<QNode>, k: nat, n: QNode)
    requires Distinct(s) && 1 <= k < |s| && n !in s
    ensures Distinct(s[..k]) && Distinct([n] + s[k..])
  {}

  // Moves all elements of h to n, and leaves h empty.
  method Move(h: QNode, n: QNode, ghost s: seq<QNode>)
    requires Ring(s) && h == s[0] && n !in s
    modifies n, s`next, s`prev
    ensures Ring([h]) && Ring([n] + s[1..])
  {
    var empty := Empty(h, s);
    if empty {
      Init(n);
      assert [n] + s[1..] == [n] && s == [h];
    } else {
      var q := h.next;
      Split(h, q, n, s, 1);
      assert s[..1] == [h];
    }
  }

  lemma Halves(s: seq<QNode>, k: nat, n: QNode)
    requires Ring(s) && 1 <= k < |s| && n !in s
    ensures Disjoint(s[..k], [n] + s[k..])
  {}

  // Appending what was split off restores the queue.
  method SplitThenAdd(h: QNode, q: QNode, n: QNode, ghost s: seq<QNode>, ghost k: nat)
    requires Ring(s) && h == s[0] && 1 <= k < |s| && q == s[k] && n !in s
    modifies n, s`next, s`prev
    ensures Ring(s)
  {
    hide Ring;
    ghost var a, b := s[..k], [n] + s[k..];
    Halves(s, k, n);
    Split(h, q, n, s, k);
    Add(h, n, a, b);
    assert a + b[1..] == s;
  }

  lemma HeadOf(t: seq<QNode>)
    requires Ring(t) && |t| > 1
    ensures t[0].next == t[1]
  {}

  lemma NotInRest(s: seq<QNode>, t: seq<QNode>)
    requires Ring(s) && Ring(t) && Disjoint(s, t) && |t| > 1
    ensures s != [] && t[0] !in s + t[1..] && t[0].next == t[1] && t[1] == (s + t[1..])[|s|]
  {}

  // Splitting at the first appended element restores both queues.
  method AddThenSplit(h: QNode, n: QNode, ghost s: seq<QNode>, ghost t: seq<QNode>)
    requires Ring(s) && Ring(t) && h == s[0] && n == t[0] && Disjoint(s, t) && |t| > 1
    modifies s`next, s`prev, t
    ensures Ring(s) && Ring(t)
  {
    hide Ring, Disjoint;
    HeadOf(t);
    var q := n.next;
    NotInRest(s, t);
    ghost var all := s + t[1..];
    Add(h, n, s, t);
    Split(h, q, n, all, |s|);
    assert all[..|s|] == s && [n] + all[|s|..] == t;
  }
}

// Range search, and the result list it fills.
module KdRange {
  import opened KdGeometry
  import opened KdTrees
  import opened KdSearch

  class ResNode {
    const item: KdNode?
    const distSq: real
    var next: ResNode?

    constructor (n: KdNode?, d: real, after: ResNode?)
      ensures item == n && distSq == d && next == after
    {
      item, distSq, next := n, d, after;
    }
  }

  ghost function NodeAt(nodes: seq<ResNode>, i: nat): ResNode? {
    if i < |nodes| then nodes[i] else null
  }

  // A singly linked list behind a header node.
  class ResList {
    const head: ResNode
    ghost var nodes: seq<ResNode>

    constructor ()
      ensures Valid() && |nodes| == 1 && fresh(head) && nodes == [head]
    {
      var h := new ResNode(null, 0.0, null);
      head := h;
      nodes := [h];
    }

    ghost predicate Valid()
      reads this, nodes
    {
      && |nodes| > 0 && nodes[0] == head
      && (forall i :: 0 <= i < |nodes| ==> nodes[i].next == NodeAt(nodes, i + 1))
      && (forall i, j :: 0 <= i < j < |nodes| ==> nodes[i] != nodes[j])
      && (forall i :: 1 <= i < |nodes| ==> nodes[i].item != null)
    }

    // Where an entry of distance d goes: behind all smaller ones, or right behind the header.
    ghost predicate GoesBehind(k: nat, d: real)
      reads this
    {
      && k < |nodes|
      && (d < 0.0 ==> k == 0)
      && (d >= 0.0 ==> (forall i :: 1 <= i <= k ==> nodes[i].distSq < d) && (k + 1 < |nodes| ==> nodes[k + 1].distSq >= d))
    }

    // The entry behind which one of distance d goes.
    method FindPlace(d: real) returns (list: ResNode, ghost k: nat)
      requires Valid()
      ensures k < |nodes| && list == nodes[k] && GoesBehind(k, d)
    {
      list := head;
      k := 0;
      if d >= 0.0 {
        while list.next != null && list.next.distSq < d
          invariant k < |nodes| && list == nodes[k]
          invariant forall i :: 1 <= i <= k ==> nodes[i].distSq < d
          decreases |nodes| - k
        {
          assert list.next == NodeAt(nodes, k + 1);
          list := list.next;
          k := k + 1;
        }
      }
      assert list.next == NodeAt(nodes, k + 1);
    }

    method LinkBehind(list: ResNode, ghost k: nat, rnode: ResNode)
      requires Valid() && k < |nodes| && list == nodes[k] && rnode !in nodes
      requires rnode.item != null && rnode.next == list.next
      modifies this, list
      ensures Valid() && nodes == old(nodes)[..k + 1] + [rnode] + old(nodes)[k + 1..]
    {
      ghost var before := nodes;
      ghost var after := before[..k + 1] + [rnode] + before[k + 1..];
      Spliced(before, k, rnode, after);
      assert list.next == NodeAt(before, k + 1);
      list.next := rnode;
      nodes := after;
      assert forall i :: 0 <= i < |before| && i != k ==> before[i].next == NodeAt(before, i + 1);
      forall i | 0 <= i < |after| ensures after[i].next == NodeAt(after, i + 1) {}
    }

    static lemma Spliced(before: seq<ResNode>, k: nat, r: ResNode, after: seq<ResNode>)
      requires k < |before| && after == before[..k + 1] + [r] + before[k + 1..]
      ensures |after| == |before| + 1 && after[k + 1] == r
      ensures forall i :: 0 <= i <= k ==> after[i] == before[i]
      ensures forall i :: k + 1 < i < |after| ==> after[i] == before[i - 1]
      ensures forall i :: k < i < |before| ==> after[i + 1] == before[i]
    {}

    method Insert(item: KdNode, d: real) returns (ghost k: nat, ghost r: ResNode)
      requires Valid()
      modifies this, nodes
      ensures Valid() && fresh(r) && r.item == item && r.distSq == d
      ensures old(GoesBehind(k, d)) && nodes == old(nodes)[..k + 1] + [r] + old(nodes)[k + 1..]
    {
      var list;
      list, k := FindPlace(d);
      var rnode := new ResNode(item, d, list.next);
      LinkBehind(list, k, rnode);
      r := rnode;
    }
  }

  ghost predicate Sorted(nodes: seq<ResNode>) {
    forall i, j :: 1 <= i < j < |nodes| ==> nodes[i].distSq <= nodes[j].distSq
  }

  // The tree nodes in the list, with multiplicity.
  ghost function Items(nodes: seq<ResNode>): multiset<KdNode?> {
    multiset(seq(|nodes|, i requires 0 <= i < |nodes| => nodes[i].item))
  }

  lemma ItemsInsert(nodes: seq<ResNode>, k: nat, r: ResNode)
    requires k < |nodes|
    ensures Items(nodes[..k + 1] + [r] + nodes[k + 1..]) == Items(nodes) + multiset{r.item}
  {
    var f := (s: seq<ResNode>) => seq(|s|, i requires 0 <= i < |s| => s[i].item);
    var a, b := nodes[..k + 1], nodes[k + 1..];
    assert f(a + [r] + b) == f(a) + [r.item] + f(b);
    assert f(nodes) == f(a) + f(b) by { assert nodes == a + b; }
  }

  lemma SortedInsert(nodes: seq<ResNode>, k: nat, r: ResNode)
    requires Sorted(nodes) && k < |nodes|
    requires forall i :: 1 <= i <= k ==> nodes[i].distSq < r.distSq
    requires k + 1 < |nodes| ==> nodes[k + 1].distSq >= r.distSq
    ensures Sorted(nodes[..k + 1] + [r] + nodes[k + 1..])
  {}

  // ---------- which nodes a search visits ----------

  function Near(node: KdNode, pos: Point): KdNode?
    requires node.dir < |pos| && node.dir < |node.pos|
    reads node
  {
    if pos[node.dir] - node.pos[node.dir] <= 0.0 then node.left else node.right
  }

  function Far(node: KdNode, pos: Point): KdNode?
    requires node.dir < |pos| && node.dir < |node.pos|
    reads node
  {
    if pos[node.dir] - node.pos[node.dir] <= 0.0 then node.right else node.left
  }

  // The far side is visited only if the splitting plane is strictly closer than the range.
  predicate PlaneInReach(node: KdNode, pos: Point, range: real)
    requires node.dir < |pos| && node.dir < |node.pos|
  {
    -range < pos[node.dir] - node.pos[node.dir] < range
  }

  ghost predicate Visits(node: KdNode?, pos: Point, range: real, dim: nat, n: KdNode)
    requires ValidTree(node, dim) && |pos| == dim
    reads node, Nodes(node)
    decreases Nodes(node)
  {
    node != null &&
    (n == node || Visits(Near(node, pos), pos, range, dim, n)
     || (PlaneInReach(node, pos, range) && Visits(Far(node, pos), pos, range, dim, n)))
  }

  // The nodes a range search returns: those it visits that are within the closed range.
  ghost function Found(node: KdNode?, pos: Point, range: real, dim: nat): (s: set<KdNode>)
    requires ValidTree(node, dim) && |pos| == dim
    reads node, Nodes(node)
  {
    set n | n in Nodes(node) && |n.pos| == dim && DistSq(n.pos, pos) <= Sq(range) && Visits(node, pos, range, dim, n)
  }

  lemma {:induction false} VisitsInside(node: KdNode?, pos: Point, range: real, dim: nat, n: KdNode)
    requires ValidTree(node, dim) && |pos| == dim && Visits(node, pos, range, dim, n)
    ensures n in Nodes(node)
    decreases Nodes(node)
  {
    if n != node {
      if Visits(Near(node, pos), pos, range, dim, n) {
        VisitsInside(Near(node, pos), pos, range, dim, n);
      } else {
        VisitsInside(Far(node, pos), pos, range, dim, n);
      }
    }
  }

  // Every node strictly inside the range is visited.
  lemma {:induction false} StrictlyInsideIsVisited(node: KdNode?, pos: Point, range: real, dim: nat, n: KdNode)
    requires ValidTree(node, dim) && |pos| == dim && range >= 0.0
    requires n in Nodes(node) && |n.pos| == dim && DistSq(n.pos, pos) < Sq(range)
    ensures Visits(node, pos, range, dim, n)
    decreases Nodes(node)
  {
    if n != node {
      if n in Nodes(Near(node, pos)) {
        StrictlyInsideIsVisited(Near(node, pos), pos, range, dim, n);
      } else {
        PlaneIsCloser(node, pos, range, n);
        StrictlyInsideIsVisited(Far(node, pos), pos, range, dim, n);
      }
    }
  }

  // A node beyond the splitting plane is at least as far away as the plane.
  lemma PlaneIsCloser(node: KdNode, pos: Point, range: real, n: KdNode)
    requires node.Valid(|pos|) && n in Nodes(Far(node, pos)) && |n.pos| == |pos|
    requires range >= 0.0 && DistSq(n.pos, pos) < Sq(range)
    ensures PlaneInReach(node, pos, range)
  {
    var d := node.dir;
    CoordinateBelow(n.pos, pos, d, |pos|);
    SqLess(n.pos[d] - pos[d], range);
  }

  // ---------- which nodes of the range it misses ----------

  lemma TreeParts(node: KdNode, pos: Point, dim: nat)
    requires node.Valid(dim) && |pos| == dim
    ensures |node.pos| == dim && node.dir < dim
    ensures ValidTree(Near(node, pos), dim) && ValidTree(Far(node, pos), dim)
    ensures node.repr == {node} + Nodes(Near(node, pos)) + Nodes(Far(node, pos))
    ensures node !in Nodes(Near(node, pos)) && node !in Nodes(Far(node, pos))
    ensures Nodes(Near(node, pos)) !! Nodes(Far(node, pos))
  {
    assert node !in Nodes(node.left) && node !in Nodes(node.right);
  }

  // The node a has n on its right, and its own coordinate is exactly the upper end of the range: its
  // plane is at the range, which the strict comparison takes to be out of reach.
  ghost predicate Cuts(a: KdNode, pos: Point, range: real, n: KdNode)
    reads a, a.right
  {
    n in a.RightNodes() && a.dir < |pos| && a.dir < |a.pos| && a.pos[a.dir] == pos[a.dir] + range
  }

  ghost predicate CutOff(node: KdNode?, pos: Point, range: real, n: KdNode)
    reads node, Nodes(node), set a | a in Nodes(node) :: a.right
  {
    exists a :: a in Nodes(node) && Cuts(a, pos, range, n)
  }

  // What a node has on its right is in every subtree that holds the node.
  lemma {:induction false} RightInside(node: KdNode?, dim: nat, a: KdNode)
    requires ValidTree(node, dim) && a in Nodes(node)
    ensures a.RightNodes() <= Nodes(node)
    decreases Nodes(node)
  {
    if a != node {
      RightInside(if a in node.LeftNodes() then node.left else node.right, dim, a);
    }
  }

  lemma CutInside(node: KdNode?, pos: Point, range: real, dim: nat, n: KdNode)
    requires ValidTree(node, dim) && CutOff(node, pos, range, n)
    ensures n in Nodes(node)
  {
    var a :| a in Nodes(node) && Cuts(a, pos, range, n);
    RightInside(node, dim, a);
  }

  // The plane of a node is out of reach of a node of the range behind it exactly if it cuts it off.
  lemma CutHere(node: KdNode, pos: Point, range: real, n: KdNode)
    requires node.Valid(|pos|) && range >= 0.0
    requires n in node.repr && n != node && DistSq(n.pos, pos) <= Sq(range)
    ensures Cuts(node, pos, range, n) <==> n in Nodes(Far(node, pos)) && !PlaneInReach(node, pos, range)
  {
    var d := node.dir;
    CoordinateBelow(n.pos, pos, d, |pos|);
    SqAtMost(n.pos[d] - pos[d], range);
  }

  // Of the nodes in the closed range, the search reaches exactly those that are not cut off.
  lemma {:induction false} VisitedIffNotCutOff(node: KdNode?, pos: Point, range: real, dim: nat, n: KdNode)
    requires ValidTree(node, dim) && |pos| == dim && range >= 0.0
    requires n in Nodes(node) && |n.pos| == dim && DistSq(n.pos, pos) <= Sq(range)
    ensures Visits(node, pos, range, dim, n) <==> !CutOff(node, pos, range, n)
    decreases Nodes(node)
  {
    hide DistSq, Sq, KdNode.Valid, Cuts, PlaneInReach;
    TreeParts(node, pos, dim);
    if n == node {
      NotCutItself(node, pos, range, dim);
    } else {
      var near, far := Near(node, pos), Far(node, pos);
      CutHere(node, pos, range, n);
      if Visits(near, pos, range, dim, n) { VisitsInside(near, pos, range, dim, n); }
      if Visits(far, pos, range, dim, n) { VisitsInside(far, pos, range, dim, n); }
      if CutOff(near, pos, range, n) { CutInside(near, pos, range, dim, n); }
      if CutOff(far, pos, range, n) { CutInside(far, pos, range, dim, n); }
      CutOffParts(node, pos, range, dim, n);
      VisitedIffNotCutOff(if n in Nodes(near) then near else far, pos, range, dim, n);
    }
  }

  lemma CutOffParts(node: KdNode, pos: Point, range: real, dim: nat, n: KdNode)
    requires node.Valid(dim) && |pos| == dim
    ensures |node.pos| == dim && node.dir < dim
    ensures CutOff(node, pos, range, n) <==>
      Cuts(node, pos, range, n) || CutOff(Near(node, pos), pos, range, n) || CutOff(Far(node, pos), pos, range, n)
  {
    hide KdNode.Valid, Cuts;
    TreeParts(node, pos, dim);
    if CutOff(node, pos, range, n) {
      var a :| a in Nodes(node) && Cuts(a, pos, range, n);
      assert a == node || a in Nodes(Near(node, pos)) || a in Nodes(Far(node, pos));
    }
    if Cuts(node, pos, range, n) { assert node in Nodes(node); }
  }

  // The node at the top of a subtree is on the right of none of its nodes.
  lemma {:induction false} NotCutItself(node: KdNode, pos: Point, range: real, dim: nat)
    requires node.Valid(dim)
    ensures !CutOff(node, pos, range, node)
  {
    if CutOff(node, pos, range, node) {
      var a :| a in Nodes(node) && Cuts(a, pos, range, node);
      if a in node.LeftNodes() {
        RightInside(node.left, dim, a);
      } else if a in node.RightNodes() {
        RightInside(node.right, dim, a);
      }
    }
  }

  // If no stored coordinate is exactly the upper end of the range, nothing is cut off.
  ghost predicate NoneAtUpperEnd(node: KdNode?, pos: Point, range: real)
    reads node, Nodes(node)
  {
    forall a, d :: a in Nodes(node) && 0 <= d < |a.pos| && d < |pos| ==> a.pos[d] != pos[d] + range
  }

  // What range search returns of a whole tree: the nodes of the closed range that are not cut off, and
  // all nodes of the closed range if no stored coordinate is exactly the upper end of the range.
  lemma FoundExactly(root: KdNode?, pos: Point, range: real, dim: nat)
    requires ValidTree(root, dim) && |pos| == dim && range >= 0.0
    ensures forall n :: n in Found(root, pos, range, dim) <==>
      n in Nodes(root) && |n.pos| == dim && DistSq(n.pos, pos) <= Sq(range) && !CutOff(root, pos, range, n)
    ensures NoneAtUpperEnd(root, pos, range) ==> forall n :: n in Found(root, pos, range, dim) <==>
      n in Nodes(root) && |n.pos| == dim && DistSq(n.pos, pos) <= Sq(range)
  {
    hide KdNode.Valid, DistSq, Sq, Visits;
    forall n | n in Nodes(root) && |n.pos| == dim && DistSq(n.pos, pos) <= Sq(range)
      ensures Visits(root, pos, range, dim, n) <==> !CutOff(root, pos, range, n)
    {
      VisitedIffNotCutOff(root, pos, range, dim, n);
    }
  }

  // ---------- the search ----------

  // Whether a node is found, by the part of the tree it is in.
  lemma FoundIff(node: KdNode, pos: Point, range: real, dim: nat, n: KdNode)
    requires node.Valid(dim) && |pos| == dim
    ensures |node.pos| == dim && node.dir < dim
    ensures ValidTree(Near(node, pos), dim) && ValidTree(Far(node, pos), dim)
    ensures n in Found(node, pos, range, dim) <==>
      || (n == node && DistSq(node.pos, pos) <= Sq(range))
      || n in Found(Near(node, pos), pos, range, dim)
      || (PlaneInReach(node, pos, range) && n in Found(Far(node, pos), pos, range, dim))
  {
    TreeParts(node, pos, dim);
    hide Sq, DistSq, KdNode.Valid;
    var near, far := Near(node, pos), Far(node, pos);
    if n != node {
      if Visits(near, pos, range, dim, n) { VisitsInside(near, pos, range, dim, n); }
      if Visits(far, pos, range, dim, n) { VisitsInside(far, pos, range, dim, n); }
    }
  }

  // The found nodes of a subtree: the node itself if close enough, and those of the sides visited.
  lemma FoundSplit(node: KdNode, pos: Point, range: real, dim: nat)
    requires node.Valid(dim) && |pos| == dim
    ensures |node.pos| == dim && node.dir < dim
    ensures ValidTree(Near(node, pos), dim) && ValidTree(Far(node, pos), dim)
    ensures Found(node, pos, range, dim) ==
      (if DistSq(node.pos, pos) <= Sq(range) then {node} else {})
      + Found(Near(node, pos), pos, range, dim)
      + (if PlaneInReach(node, pos, range) then Found(Far(node, pos), pos, range, dim) else {})
    ensures node !in Found(Near(node, pos), pos, range, dim) && node !in Found(Far(node, pos), pos, range, dim)
    ensures Found(Near(node, pos), pos, range, dim) !! Found(Far(node, pos), pos, range, dim)
  {
    hide Found, KdNode.Valid, Sq, DistSq, PlaneInReach, Visits;
    TreeParts(node, pos, dim);
    FoundInside(Near(node, pos), pos, range, dim);
    FoundInside(Far(node, pos), pos, range, dim);
    var parts := (if DistSq(node.pos, pos) <= Sq(range) then {node} else {})
      + Found(Near(node, pos), pos, range, dim)
      + (if PlaneInReach(node, pos, range) then Found(Far(node, pos), pos, range, dim) else {});
    forall n: KdNode | n in Found(node, pos, range, dim) ensures n in parts {
      FoundIff(node, pos, range, dim, n);
    }
    forall n: KdNode | n in parts ensures n in Found(node, pos, range, dim) {
      FoundIff(node, pos, range, dim, n);
    }
  }

  lemma FoundInside(node: KdNode?, pos: Point, range: real, dim: nat)
    requires ValidTree(node, dim) && |pos| == dim
    ensures Found(node, pos, range, dim) <= Nodes(node)
  {}

  // The entry of an ordered search carries the squared distance of its node, any other one -1.
  ghost predicate Carries(r: ResNode, pos: Point, ordered: bool) {
    r.item != null && |r.item.pos| == |pos| && r.distSq == if ordered then DistSq(r.item.pos, pos) else -1.0
  }

  // The list has grown by exactly these nodes, each once, with their distances, and is still sorted if
  // it was.
  ghost predicate Grown(before: seq<ResNode>, after: seq<ResNode>, found: set<KdNode>, pos: Point, ordered: bool) {
    && Items(after) == Items(before) + multiset(found)
    && (ordered && Sorted(before) ==> Sorted(after))
    && forall i :: 0 <= i < |after| ==> after[i] in before || Carries(after[i], pos, ordered)
  }

  lemma GrownTwice(a: seq<ResNode>, b: seq<ResNode>, c: seq<ResNode>, x: set<KdNode>, y: set<KdNode>, pos: Point, ordered: bool)
    requires Grown(a, b, x, pos, ordered) && Grown(b, c, y, pos, ordered) && x !! y
    ensures Grown(a, c, x + y, pos, ordered)
  {
    hide Items, Sorted, Carries;
    assert multiset(x + y) == multiset(x) + multiset(y);
  }

  lemma GrownNot(a: seq<ResNode>, pos: Point, ordered: bool)
    ensures Grown(a, a, {}, pos, ordered)
  {}

  lemma GrownByOne(before: seq<ResNode>, k: nat, r: ResNode, node: KdNode, pos: Point, ordered: bool)
    requires k < |before| && r.item == node && Carries(r, pos, ordered)
    requires ordered ==> forall i :: 1 <= i <= k ==> before[i].distSq < r.distSq
    requires ordered && k + 1 < |before| ==> before[k + 1].distSq >= r.distSq
    ensures Grown(before, before[..k + 1] + [r] + before[k + 1..], {node}, pos, ordered)
  {
    hide Carries, Items, Sorted;
    ItemsInsert(before, k, r);
    if ordered && Sorted(before) { SortedInsert(before, k, r); }
    assert multiset({node}) == multiset{r.item};
  }

  // The entries behind the header, in list order, are nodes at no smaller distances.
  ghost predicate SortedByDistance(nodes: seq<ResNode>, pos: Point) {
    && (forall i :: 1 <= i < |nodes| ==> nodes[i].item != null && |nodes[i].item.pos| == |pos|)
    && forall i, j :: 1 <= i < j < |nodes| ==> DistSq(nodes[i].item.pos, pos) <= DistSq(nodes[j].item.pos, pos)
  }

  lemma GrownSorted(head: ResNode, nodes: seq<ResNode>, found: set<KdNode>, pos: Point)
    requires Grown([head], nodes, found, pos, true) && |nodes| > 0 && nodes[0] == head
    requires forall i, j :: 0 <= i < j < |nodes| ==> nodes[i] != nodes[j]
    ensures SortedByDistance(nodes, pos)
  {
    hide Items, DistSq;
    assert Sorted([head]);
    forall i | 1 <= i < |nodes| ensures Carries(nodes[i], pos, true) {
      assert nodes[0] != nodes[i];
    }
  }

  lemma NothingFound(pos: Point, range: real, dim: nat)
    requires |pos| == dim
    ensures Found(null, pos, range, dim) == {}
  {}

  lemma ChildrenSmaller(node: KdNode, pos: Point, dim: nat)
    requires node.Valid(dim) && |pos| == dim
    ensures |node.pos| == dim && node.dir < dim
    ensures |Nodes(Near(node, pos))| < |node.repr| && |Nodes(Far(node, pos))| < |node.repr|
  {
    hide KdNode.Valid;
    TreeParts(node, pos, dim);
    SmallerSet(Nodes(Near(node, pos)), node.repr, node);
    SmallerSet(Nodes(Far(node, pos)), node.repr, node);
  }

  lemma SmallerSet(a: set<KdNode>, b: set<KdNode>, x: KdNode)
    requires a <= b && x in b && x !in a
    ensures |a| < |b|
  {
    assert a <= b - {x};
    SubsetSize(a, b - {x});
  }

  lemma {:induction false} SubsetSize(a: set<KdNode>, b: set<KdNode>)
    requires a <= b
    ensures |a| <= |b|
  {
    assert b == a + (b - a);
  }

  // Appends the nodes in range below `node` and returns their number. Ordered entries carry their
  // squared distance, others -1.
  method FindNearest(node: KdNode?, pos: Point, range: real, list: ResList, ordered: bool, dim: nat, ghost found: set<KdNode>)
    returns (ret: nat)
    requires ValidTree(node, dim) && |pos| == dim && list.Valid() && found == Found(node, pos, range, dim)
    modifies list, list.nodes
    ensures list.Valid() && forall i :: 0 <= i < |list.nodes| ==> list.nodes[i] in old(list.nodes) || fresh(list.nodes[i])
    ensures Grown(old(list.nodes), list.nodes, found, pos, ordered)
    ensures ret == |found|
    decreases |Nodes(node)|, 2
  {
    hide Found, Grown, ResList.Valid, KdNode.Valid;
    if node == null {
      NothingFound(pos, range, dim);
      GrownNot(list.nodes, pos, ordered);
      ret := 0;
    } else {
      ret := FindBelow(node, pos, range, list, ordered, dim, found);
    }
  }

  // The node itself, then the side of its splitting plane that pos is on, then perhaps the other one.
  method FindBelow(node: KdNode, pos: Point, range: real, list: ResList, ordered: bool, dim: nat, ghost found: set<KdNode>)
    returns (ret: nat)
    requires node.Valid(dim) && |pos| == dim && list.Valid() && found == Found(node, pos, range, dim)
    modifies list, list.nodes
    ensures list.Valid() && forall i :: 0 <= i < |list.nodes| ==> list.nodes[i] in old(list.nodes) || fresh(list.nodes[i])
    ensures Grown(old(list.nodes), list.nodes, found, pos, ordered)
    ensures ret == |found|
    decreases |node.repr|, 1
  {
    hide Found, Grown, ResList.Valid, KdNode.Valid, Visits, Sq, DistSq, Items, PlaneInReach;
    ghost var mine, foundNear, foundFar := FoundParts(node, pos, range, dim);
    var distSq := DistanceSq(node, pos);
    var near, far, reach := Near(node, pos), Far(node, pos), PlaneInReach(node, pos, range);
    ghost var n0 := list.nodes;
    ret := AddNode(node, pos, distSq, range, list, ordered);
    ghost var n1 := list.nodes;
    assert ValidTree(near, dim) && Found(near, pos, range, dim) == foundNear;
    assert ValidTree(far, dim) && Found(far, pos, range, dim) == foundFar;
    var r := FindSides(near, far, reach, pos, range, list, ordered, dim, foundNear, foundFar, |node.repr|);
    GrownTwice(n0, n1, list.nodes, mine, if reach then foundNear + foundFar else foundNear, pos, ordered);
    ret := ret + r;
  }

  lemma FoundParts(node: KdNode, pos: Point, range: real, dim: nat)
    returns (mine: set<KdNode>, foundNear: set<KdNode>, foundFar: set<KdNode>)
    requires node.Valid(dim) && |pos| == dim
    ensures |node.pos| == dim && node.dir < dim
    ensures ValidTree(Near(node, pos), dim) && ValidTree(Far(node, pos), dim)
    ensures |Nodes(Near(node, pos))| < |node.repr| && |Nodes(Far(node, pos))| < |node.repr|
    ensures mine == if DistSq(node.pos, pos) <= Sq(range) then {node} else {}
    ensures foundNear == Found(Near(node, pos), pos, range, dim) && foundFar == Found(Far(node, pos), pos, range, dim)
    ensures foundNear !! foundFar
    ensures var sides := if PlaneInReach(node, pos, range) then foundNear + foundFar else foundNear;
            && mine !! sides && Found(node, pos, range, dim) == mine + sides
            && |mine + sides| == |mine| + |sides|
    ensures |mine| == if DistSq(node.pos, pos) <= Sq(range) then 1 else 0
  {
    hide Found, Visits, Sq, DistSq, Near, Far, PlaneInReach, KdNode.Valid;
    FoundSplit(node, pos, range, dim);
    ChildrenSmaller(node, pos, dim);
    mine := if DistSq(node.pos, pos) <= Sq(range) then {node} else {};
    foundNear, foundFar := Found(Near(node, pos), pos, range, dim), Found(Far(node, pos), pos, range, dim);
    ThreeParts(node, mine, foundNear, foundFar, PlaneInReach(node, pos, range), Found(node, pos, range, dim));
  }

  lemma ThreeParts(node: KdNode, mine: set<KdNode>, near: set<KdNode>, far: set<KdNode>, reach: bool, found: set<KdNode>)
    requires mine <= {node} && node !in near && node !in far && near !! far
    requires found == mine + near + (if reach then far else {})
    ensures var sides := if reach then near + far else near;
            mine !! sides && found == mine + sides && |mine + sides| == |mine| + |sides|
    ensures |mine| == if node in mine then 1 else 0
  {
    var sides := if reach then near + far else near;
    assert mine !! sides && found == mine + sides;
    DisjointSize(mine, sides);
    AtMostOne(node, mine);
  }

  lemma DisjointSize(a: set<KdNode>, b: set<KdNode>)
    requires a !! b
    ensures |a + b| == |a| + |b|
  {}

  lemma AtMostOne(node: KdNode, mine: set<KdNode>)
    requires mine <= {node}
    ensures |mine| == if node in mine then 1 else 0
  {
    if node in mine { assert mine == {node}; } else { assert mine == {}; }
  }

  // The near side, and the far side if the splitting plane is in reach.
  method FindSides(near: KdNode?, far: KdNode?, reach: bool, pos: Point, range: real, list: ResList, ordered: bool, dim: nat,
                   ghost foundNear: set<KdNode>, ghost foundFar: set<KdNode>, ghost size: nat)
    returns (ret: nat)
    requires ValidTree(near, dim) && ValidTree(far, dim) && |pos| == dim && list.Valid()
    requires foundNear == Found(near, pos, range, dim) && foundFar == Found(far, pos, range, dim) && foundNear !! foundFar
    requires |Nodes(near)| < size && |Nodes(far)| < size
    modifies list, list.nodes
    ensures list.Valid() && forall i :: 0 <= i < |list.nodes| ==> list.nodes[i] in old(list.nodes) || fresh(list.nodes[i])
    ensures Grown(old(list.nodes), list.nodes, if reach then foundNear + foundFar else foundNear, pos, ordered)
    ensures ret == if reach then |foundNear + foundFar| else |foundNear|
    decreases size, 0
  {
    hide Found, Grown, ResList.Valid, KdNode.Valid, Visits, ValidTree, Items;
    ghost var n0 := list.nodes;
    ret := FindNearest(near, pos, range, list, ordered, dim, foundNear);
    if reach {
      ghost var n1 := list.nodes;
      assert ValidTree(far, dim) && Found(far, pos, range, dim) == foundFar;
      DisjointSize(foundNear, foundFar);
      var r := FindNearest(far, pos, range, list, ordered, dim, foundFar);
      GrownTwice(n0, n1, list.nodes, foundNear, foundFar, pos, ordered);
      ret := ret + r;
    }
  }

  method AddNode(node: KdNode, pos: Point, distSq: real, range: real, list: ResList, ordered: bool) returns (added: nat)
    requires list.Valid() && |node.pos| == |pos| && distSq == DistSq(node.pos, pos)
    modifies list, list.nodes
    ensures list.Valid() && forall i :: 0 <= i < |list.nodes| ==> list.nodes[i] in old(list.nodes) || fresh(list.nodes[i])
    ensures Grown(old(list.nodes), list.nodes, if distSq <= Sq(range) then {node} else {}, pos, ordered)
    ensures added == if distSq <= Sq(range) then 1 else 0
  {
    hide Grown, DistSq, Sq, Items;
    if distSq <= Sq(range) {
      ghost var k, r;
      ghost var before := list.nodes;
      k, r := list.Insert(node, if ordered then distSq else -1.0);
      GrownByOne(before, k, r, node, pos, ordered);
      return 1;
    }
    GrownNot(list.nodes, pos, ordered);
    added := 0;
  }

  // The search of a whole tree into a new list. An ordered list is sorted by distance.
  method SearchTree(root: KdNode?, pos: Point, range: real, ordered: bool, dim: nat) returns (list: ResList, size: nat)
    requires ValidTree(root, dim) && |pos| == dim
    ensures fresh(list) && list.Valid() && size == |Found(root, pos, range, dim)|
    ensures Items(list.nodes) == multiset{list.head.item} + multiset(Found(root, pos, range, dim))
    ensures ordered ==> SortedByDistance(list.nodes, pos)
  {
    hide DistSq, Sq, KdNode.Valid, Visits, Grown, SortedByDistance;
    list := new ResList();
    assert Items(list.nodes) == multiset{list.head.item};
    ghost var found := Found(root, pos, range, dim);
    size := FindNearest(root, pos, range, list, ordered, dim, found);
    assert ValidTree(root, dim) && Found(root, pos, range, dim) == found;
    GrownItems([list.head], list.nodes, found, pos, ordered);
    if ordered { GrownSorted(list.head, list.nodes, found, pos); }
  }

  lemma GrownItems(before: seq<ResNode>, after: seq<ResNode>, found: set<KdNode>, pos: Point, ordered: bool)
    requires Grown(before, after, found, pos, ordered)
    ensures Items(after) == Items(before) + multiset(found)
  {}

  // All results of a range query over a tree: exactly the nodes of the closed range that are not cut
  // off, and so all of them unless some stored coordinate is exactly the upper end of the range.
  method KdNearestRange(kd: KdTree, pos: Point, range: real) returns (list: ResList, size: nat)
    requires kd.Valid() && |pos| == kd.dim
    ensures fresh(list) && list.Valid() && size == |Found(kd.root, pos, range, kd.dim)|
    ensures Items(list.nodes) == multiset{list.head.item} + multiset(Found(kd.root, pos, range, kd.dim))
    ensures range >= 0.0 ==> forall n :: n in Found(kd.root, pos, range, kd.dim) <==>
      n in Nodes(kd.root) && |n.pos| == |pos| && DistSq(n.pos, pos) <= Sq(range) && !CutOff(kd.root, pos, range, n)
    ensures range >= 0.0 && NoneAtUpperEnd(kd.root, pos, range) ==> forall n :: n in Found(kd.root, pos, range, kd.dim) <==>
      n in Nodes(kd.root) && |n.pos| == |pos| && DistSq(n.pos, pos) <= Sq(range)
    ensures range >= 0.0 ==> forall n :: n in Nodes(kd.root) && |n.pos| == |pos| && DistSq(n.pos, pos) < Sq(range) ==>
      n in Found(kd.root, pos, range, kd.dim)
  {
    hide DistSq, Sq, KdNode.Valid, Visits, Found, CutOff, NoneAtUpperEnd, Items;
    list, size := SearchTree(kd.root, pos, range, false, kd.dim);
    if range >= 0.0 {
      FoundExactly(kd.root, pos, range, kd.dim);
      StrictlyInsideFound(kd.root, pos, range, kd.dim);
    }
  }

  lemma StrictlyInsideFound(root: KdNode?, pos: Point, range: real, dim: nat)
    requires ValidTree(root, dim) && |pos| == dim && range >= 0.0
    ensures forall n :: n in Nodes(root) && |n.pos| == |pos| && DistSq(n.pos, pos) < Sq(range) ==> n in Found(root, pos, range, dim)
  {
    hide KdNode.Valid, DistSq, Sq, Visits;
    forall n | n in Nodes(root) && |n.pos| == |pos| && DistSq(n.pos, pos) < Sq(range)
      ensures n in Found(root, pos, range, dim)
    {
      StrictlyInsideIsVisited(root, pos, range, dim, n);
    }
  }

  method TwoAtOrigin() returns (kd: KdTree, ghost a: KdNode, ghost b: KdNode)
    ensures fresh(kd) && kd.Valid() && kd.dim == 1 && kd.root != null
    ensures Nodes(kd.root) == {a, b} && a != b && a.pos == [0.0] && b.pos == [0.0]
  {
    hide KdNode.Valid, Inside;
    kd := new KdTree(1);
    a := kd.Insert([0.0], 1);
    b := kd.Insert([0.0], 2);
  }

  // Of two nodes at the same place the lower one is on the right of the upper one, and cut off at the
  // upper end of the range.
  lemma LowerTwinCutOff(root: KdNode, other: KdNode, pos: Point, range: real)
    requires root.Valid(|pos|) && other in root.repr && other != root && other.pos == root.pos
    requires root.pos[root.dir] == pos[root.dir] + range
    ensures CutOff(root, pos, range, other)
  {
    assert other !in root.LeftNodes();
    assert root in root.repr && Cuts(root, pos, range, other);
  }

  // The search of a tree with two nodes at the origin, from -1 with range 1: both are in the closed
  // range, and one is missed.
  method BoundaryMiss() returns (kd: KdTree, list: ResList, size: nat)
    ensures kd.Valid() && kd.dim == 1 && |Nodes(kd.root)| == 2
    ensures Items(list.nodes) == multiset{list.head.item} + multiset(Found(kd.root, [-1.0], 1.0, 1)) && size == 1
    ensures exists n ::
      n in Nodes(kd.root) && |n.pos| == 1 && DistSq(n.pos, [-1.0]) <= Sq(1.0) && n !in Found(kd.root, [-1.0], 1.0, 1)
  {
    hide KdNode.Valid, Found, Items, ResList.Valid, CutOff, NoneAtUpperEnd, DistSq, Sq;
    ghost var a, b;
    kd, a, b := TwoAtOrigin();
    ghost var pos: Point := [-1.0];
    ghost var root: KdNode := kd.root;
    RootInside(root, 1);
    ghost var other := if root == a then b else a;
    AtOne(root.pos);
    LowerTwinCutOff(root, other, pos, 1.0);
    NotCutItself(root, pos, 1.0, 1);
    list, size := KdNearestRange(kd, [-1.0], 1.0);
    assert root in Found(root, pos, 1.0, 1) && other !in Found(root, pos, 1.0, 1);
    FoundInside(root, pos, 1.0, 1);
    assert Nodes(root) == {root, other};
    assert Found(root, pos, 1.0, 1) == {root};
    assert |{a, b}| == 2;
  }

  lemma AtOne(p: Point)
    requires p == [0.0]
    ensures DistSq(p, [-1.0]) == 1.0 == Sq(1.0)
  {
    assert DistUpto(p, [-1.0], 0) == 0.0;
  }
}

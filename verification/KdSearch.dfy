// Nearest-neighbour search by branch and bound, with one box sliced and restored in place.
module KdSearch {
  import opened KdGeometry
  import opened KdTrees

  method DistanceSq(node: KdNode, pos: Point) returns (d: real)
    requires |node.pos| == |pos|
    ensures d == DistSq(node.pos, pos)
  {
    d := 0.0;
    for i := 0 to |pos|
      invariant d == DistUpto(node.pos, pos, i)
    {
      d := d + Sq(node.pos[i] - pos[i]);
    }
  }

  ghost predicate AllInside(nodes: set<KdNode>, min: Point, max: Point) {
    forall n :: n in nodes ==> Inside(n.pos, min, max)
  }

  // No node of the set is closer to pos than d.
  ghost predicate NoneCloser(nodes: set<KdNode>, pos: Point, d: real) {
    forall n :: n in nodes ==> |n.pos| == |pos| && d <= DistSq(n.pos, pos)
  }

  ghost predicate AtDistance(n: KdNode, pos: Point, d: real) {
    |n.pos| == |pos| && d == DistSq(n.pos, pos)
  }

  // What a search below some nodes may do to the best node so far.
  ghost predicate Improves(nodes: set<KdNode>, pos: Point, result: KdNode, best: real, result': KdNode, best': real) {
    && AtDistance(result', pos, best') && NoneCloser(nodes, pos, best')
    && best' <= best
    && if best' == best then result' == result else result' in nodes
  }

  // The side of the splitting plane on which the box is cut.
  ghost predicate OnSide(nodes: set<KdNode>, dir: nat, cut: real, below: bool) {
    forall n :: n in nodes ==> dir < |n.pos| && if below then n.pos[dir] <= cut else cut <= n.pos[dir]
  }

  lemma SliceHolds(nodes: set<KdNode>, min: Point, max: Point, dir: nat, cut: real, below: bool)
    requires AllInside(nodes, min, max) && OnSide(nodes, dir, cut, below) && dir < |min| == |max|
    ensures AllInside(nodes, if below then min else min[dir := cut], if below then max[dir := cut] else max)
  {}

  // If the box is no closer than d, neither is any node in it.
  lemma BoxPrunes(nodes: set<KdNode>, min: Point, max: Point, pos: Point, d: real)
    requires AllInside(nodes, min, max) && |min| == |max| == |pos| && d <= BoxDistUpto(min, max, pos, |pos|)
    ensures NoneCloser(nodes, pos, d)
  {
    forall n | n in nodes ensures |n.pos| == |pos| && d <= DistSq(n.pos, pos) {
      BoxBelowUpto(n.pos, min, max, pos, |pos|);
    }
  }

  // Cuts the box at the node's plane, searches the child if the cut box can hold a closer point, and
  // restores the box. The near child is searched without that test.
  method SearchChild(child: KdNode, pos: Point, result: KdNode, best: real, rect: HyperRect,
                     dir: nat, cut: real, below: bool, near: bool, ghost dim: nat)
    returns (result': KdNode, best': real)
    requires child.Valid(dim) && |pos| == dim && rect.Shape() && rect.dim == dim && dir < dim
    requires AllInside(child.repr, rect.min[..], rect.max[..]) && OnSide(child.repr, dir, cut, below)
    requires AtDistance(result, pos, best)
    modifies rect.min, rect.max
    ensures rect.min[..] == old(rect.min[..]) && rect.max[..] == old(rect.max[..])
    ensures Improves(child.repr, pos, result, best, result', best')
    decreases child.repr, 1
  {
    hide KdNode.Valid, AllInside, NoneCloser, AtDistance, OnSide, Improves;
    ghost var min, max := rect.min[..], rect.max[..];
    SliceHolds(child.repr, min, max, dir, cut, below);
    var dummy := if below then rect.max[dir] else rect.min[dir];
    if below { rect.max[dir] := cut; } else { rect.min[dir] := cut; }
    assert rect.max[..] == if below then max[dir := cut] else max;
    assert rect.min[..] == if below then min else min[dir := cut];
    result', best' := result, best;
    var search := near;
    if !near {
      var d := rect.DistanceSq(pos);
      search := d < best;
      if !search { BoxPrunes(child.repr, rect.min[..], rect.max[..], pos, best); }
    }
    if search {
      result', best' := NearestI(child, pos, result, best, rect, dim);
    } else {
      NoChange(child.repr, pos, result, best);
    }
    if below { rect.max[dir] := dummy; } else { rect.min[dir] := dummy; }
    assert rect.max[..] == max && rect.min[..] == min;
  }

  lemma NoChange(nodes: set<KdNode>, pos: Point, result: KdNode, best: real)
    requires AtDistance(result, pos, best) && NoneCloser(nodes, pos, best)
    ensures Improves(nodes, pos, result, best, result, best)
  {}

  lemma ImprovesAll(a: set<KdNode>, b: set<KdNode>, pos: Point, r0: KdNode, d0: real, r1: KdNode, d1: real, r2: KdNode, d2: real)
    requires Improves(a, pos, r0, d0, r1, d1) && Improves(b, pos, r1, d1, r2, d2)
    ensures Improves(a + b, pos, r0, d0, r2, d2)
  {}

  lemma ImprovesNone(pos: Point, r: KdNode, d: real)
    requires AtDistance(r, pos, d)
    ensures Improves({}, pos, r, d, r, d)
  {}

  method SearchSide(child: KdNode?, pos: Point, result: KdNode, best: real, rect: HyperRect,
                    dir: nat, cut: real, below: bool, near: bool, ghost dim: nat)
    returns (result': KdNode, best': real)
    requires ValidTree(child, dim) && |pos| == dim && rect.Shape() && rect.dim == dim && dir < dim
    requires AllInside(Nodes(child), rect.min[..], rect.max[..]) && OnSide(Nodes(child), dir, cut, below)
    requires AtDistance(result, pos, best)
    modifies rect.min, rect.max
    ensures rect.min[..] == old(rect.min[..]) && rect.max[..] == old(rect.max[..])
    ensures Improves(Nodes(child), pos, result, best, result', best')
    decreases Nodes(child), 2
  {
    hide KdNode.Valid, AllInside, NoneCloser, AtDistance, OnSide, Improves;
    result', best' := result, best;
    if child != null {
      result', best' := SearchChild(child, pos, result, best, rect, dir, cut, below, near, dim);
    } else {
      ImprovesNone(pos, result, best);
    }
  }

  lemma NodeParts(node: KdNode, dim: nat, min: Point, max: Point)
    requires node.Valid(dim) && AllInside(node.repr, min, max)
    ensures |node.pos| == dim && node.dir < dim
    ensures ValidTree(node.left, dim) && ValidTree(node.right, dim)
    ensures Nodes(node.left) == node.LeftNodes() < node.repr && Nodes(node.right) == node.RightNodes() < node.repr
    ensures node.repr == Nodes(node.left) + {node} + Nodes(node.right)
    ensures OnSide(Nodes(node.left), node.dir, node.pos[node.dir], true)
    ensures OnSide(Nodes(node.right), node.dir, node.pos[node.dir], false)
    ensures AllInside(Nodes(node.left), min, max) && AllInside(Nodes(node.right), min, max)
  {
    assert node !in Nodes(node.left) && node !in Nodes(node.right);
  }

  // The best of the node's subtree and the best so far, ties going to the earlier one; the box is
  // handed back as it was.
  method NearestI(node: KdNode, pos: Point, result: KdNode, best: real, rect: HyperRect, ghost dim: nat)
    returns (result': KdNode, best': real)
    requires node.Valid(dim) && |pos| == dim && rect.Shape() && rect.dim == dim
    requires AllInside(node.repr, rect.min[..], rect.max[..])
    requires AtDistance(result, pos, best)
    modifies rect.min, rect.max
    ensures rect.min[..] == old(rect.min[..]) && rect.max[..] == old(rect.max[..])
    ensures Improves(node.repr, pos, result, best, result', best')
    decreases node.repr, 0
  {
    hide KdNode.Valid, AllInside, NoneCloser, AtDistance, OnSide, Improves, ValidTree;
    NodeParts(node, dim, rect.min[..], rect.max[..]);
    ghost var ls, rs, all := Nodes(node.left), Nodes(node.right), node.repr;
    var dir := node.dir;
    var cut := node.pos[dir];
    var left := pos[dir] - cut <= 0.0;
    var near := if left then node.left else node.right;
    var far := if left then node.right else node.left;
    var r1, d1 := SearchSide(near, pos, result, best, rect, dir, cut, left, true, dim);
    ImprovesDistance(Nodes(near), pos, result, best, r1, d1);
    var d := DistanceSq(node, pos);
    var r2, d2 := r1, d1;
    if d < d1 { r2, d2 := node, d; }
    OneNode(node, pos, r1, d1, d);
    ImprovesDistance({node}, pos, r1, d1, r2, d2);
    result', best' := SearchSide(far, pos, r2, d2, rect, dir, cut, !left, false, dim);
    ImprovesAll(Nodes(near), {node}, pos, result, best, r1, d1, r2, d2);
    ImprovesAll(Nodes(near) + {node}, Nodes(far), pos, result, best, r2, d2, result', best');
    assert Nodes(near) + {node} + Nodes(far) == all;
  }

  lemma ImprovesDistance(nodes: set<KdNode>, pos: Point, r0: KdNode, d0: real, r: KdNode, d: real)
    requires Improves(nodes, pos, r0, d0, r, d)
    ensures AtDistance(r, pos, d)
  {}

  lemma OneNode(node: KdNode, pos: Point, r: KdNode, d0: real, d: real)
    requires |node.pos| == |pos| && d == DistSq(node.pos, pos) && AtDistance(r, pos, d0)
    ensures Improves({node}, pos, r, d0, if d < d0 then node else r, if d < d0 then d else d0)
  {}

  // A stored node at the least distance; none only from an empty tree.
  method KdNearest(kd: KdTree, pos: Point) returns (result: KdNode?)
    requires kd.Valid() && |pos| == kd.dim
    ensures result == null <==> kd.root == null
    ensures result != null ==> result in Nodes(kd.root)
    ensures result != null ==> forall n :: n in Nodes(kd.root) ==> |n.pos| == |pos| == |result.pos| && DistSq(result.pos, pos) <= DistSq(n.pos, pos)
  {
    if kd.rect == null { return null; }
    hide KdNode.Valid, Improves;
    RootInside(kd.root, kd.dim);
    var rect := new HyperRect(kd.rect.min[..], kd.rect.max[..]);
    var dist := DistanceSq(kd.root, pos);
    var r, d := NearestI(kd.root, pos, kd.root, dist, rect, kd.dim);
    ImprovesMeans(kd.root.repr, pos, kd.root, dist, r, d);
    result := r;
  }

  lemma ImprovesMeans(nodes: set<KdNode>, pos: Point, r0: KdNode, d0: real, r: KdNode, d: real)
    requires Improves(nodes, pos, r0, d0, r, d) && r0 in nodes
    ensures r in nodes && |r.pos| == |pos| && d == DistSq(r.pos, pos)
    ensures forall n :: n in nodes ==> |n.pos| == |pos| && d <= DistSq(n.pos, pos)
  {}
}

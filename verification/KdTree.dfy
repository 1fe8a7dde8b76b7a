// The k-d tree: nodes on the heap, and insertion.
module KdTrees {
  import opened KdGeometry

  class KdNode {
    const pos: Point
    const dir: nat
    const data: int
    var left: KdNode?
    var right: KdNode?

    ghost var repr: set<KdNode>

    constructor (p: Point, v: int, d: nat)
      requires d < |p|
      ensures pos == p && data == v && dir == d && Valid(|p|) && repr == {this}
    {
      pos, data, dir := p, v, d;
      left, right := null, null;
      repr := {this};
    }

    // The subtree's shape: a tree whose nodes are exactly repr.
    ghost predicate Valid(dim: nat)
      reads this, repr
      decreases repr
    {
      && this in repr
      && |pos| == dim && dir < dim
      && (forall n :: n in repr ==> |n.pos| == dim)
      && (left != null ==> left in repr && this !in left.repr && left.repr < repr && left.Valid(dim))
      && (right != null ==> right in repr && this !in right.repr && right.repr < repr && right.Valid(dim))
      && repr == {this} + LeftNodes() + RightNodes()
      && LeftNodes() !! RightNodes()
      && (forall n :: n in LeftNodes() ==> n.pos[dir] < pos[dir])
      && (forall n :: n in RightNodes() ==> n.pos[dir] >= pos[dir])
      && (left != null ==> left.dir == (dir + 1) % dim)
      && (right != null ==> right.dir == (dir + 1) % dim)
    }

    ghost function LeftNodes(): set<KdNode>
      reads this, left
    {
      if left == null then {} else left.repr
    }

    ghost function RightNodes(): set<KdNode>
      reads this, right
    {
      if right == null then {} else right.repr
    }
  }

  ghost predicate ValidTree(node: KdNode?, dim: nat)
    reads node, Nodes(node)
  {
    node != null ==> node.Valid(dim)
  }

  ghost function Nodes(node: KdNode?): set<KdNode>
    reads node
  {
    if node == null then {} else node.repr
  }

  // Adds a node below `node`, or starts a tree with it; the tree it returns replaces the old one.
  method InsertRec(node: KdNode?, pos: Point, data: int, dir: nat, dim: nat) returns (r: KdNode, ghost added: KdNode)
    requires dim > 0 && |pos| == dim && dir < dim
    requires ValidTree(node, dim) && (node != null ==> node.dir == dir)
    modifies Nodes(node)
    ensures r.Valid(dim) && r.dir == dir && fresh(added) && added.pos == pos && added.data == data
    ensures r.repr == old(Nodes(node)) + {added}
    ensures node != null ==> r == node
    decreases Nodes(node), 1
  {
    if node == null {
      r := new KdNode(pos, data, dir);
      added := r;
      return;
    }
    r := node;
    if pos[node.dir] < node.pos[node.dir] {
      added := InsertLeft(node, pos, data, dim);
    } else {
      added := InsertRight(node, pos, data, dim);
    }
  }

  method InsertLeft(node: KdNode, pos: Point, data: int, dim: nat) returns (ghost added: KdNode)
    requires dim > 0 && |pos| == dim && node.Valid(dim) && pos[node.dir] < node.pos[node.dir]
    modifies node.repr
    ensures node.Valid(dim) && fresh(added) && added.pos == pos && added.data == data
    ensures node.repr == old(node.repr) + {added}
    decreases node.repr, 0
  {
    ghost var ls, rs := node.LeftNodes(), node.RightNodes();
    var child;
    child, added := InsertRec(node.left, pos, data, (node.dir + 1) % dim, dim);
    assert node.right != null ==> node.right.Valid(dim);
    GraftLeft(node, child, added, ls, rs, dim);
  }

  method InsertRight(node: KdNode, pos: Point, data: int, dim: nat) returns (ghost added: KdNode)
    requires dim > 0 && |pos| == dim && node.Valid(dim) && !(pos[node.dir] < node.pos[node.dir])
    modifies node.repr
    ensures node.Valid(dim) && fresh(added) && added.pos == pos && added.data == data
    ensures node.repr == old(node.repr) + {added}
    decreases node.repr, 0
  {
    ghost var ls, rs := node.LeftNodes(), node.RightNodes();
    var child;
    child, added := InsertRec(node.right, pos, data, (node.dir + 1) % dim, dim);
    assert node.left != null ==> node.left.Valid(dim);
    GraftRight(node, child, added, ls, rs, dim);
  }

  lemma RootInside(node: KdNode, dim: nat)
    requires node.Valid(dim)
    ensures node in node.repr && |node.pos| == dim && node.dir < dim
  {}

  // A node over two valid trees, with the nodes on the right sides of its plane.
  lemma BothSides(node: KdNode, dim: nat)
    requires |node.pos| == dim && node.dir < dim && (forall n :: n in node.repr ==> |n.pos| == dim)
    requires node.left != null ==> node.left in node.LeftNodes() && node.left.Valid(dim) && node.left.dir == (node.dir + 1) % dim
    requires node.right != null ==> node.right in node.RightNodes() && node.right.Valid(dim) && node.right.dir == (node.dir + 1) % dim
    requires node.repr == {node} + node.LeftNodes() + node.RightNodes()
    requires node !in node.LeftNodes() && node !in node.RightNodes() && node.LeftNodes() !! node.RightNodes()
    requires forall n :: n in node.LeftNodes() ==> n.pos[node.dir] < node.pos[node.dir]
    requires forall n :: n in node.RightNodes() ==> n.pos[node.dir] >= node.pos[node.dir]
    ensures node.Valid(dim)
  {}

  // Hangs a grown left subtree below the node.
  method GraftLeft(node: KdNode, child: KdNode, ghost added: KdNode, ghost ls: set<KdNode>, ghost rs: set<KdNode>, dim: nat)
    requires |node.pos| == dim && node.dir < dim && |added.pos| == dim && added.pos[node.dir] < node.pos[node.dir]
    requires child.Valid(dim) && child.dir == (node.dir + 1) % dim && child.repr == ls + {added}
    requires node.repr == {node} + ls + rs && node !in ls + rs && ls !! rs && added !in node.repr
    requires forall n :: n in node.repr ==> |n.pos| == dim
    requires forall n :: n in ls ==> n.pos[node.dir] < node.pos[node.dir]
    requires forall n :: n in rs ==> n.pos[node.dir] >= node.pos[node.dir]
    requires node.RightNodes() == rs
    requires node.right != null ==> node.right in rs && node.right.Valid(dim) && node.right.dir == (node.dir + 1) % dim
    modifies node
    ensures node.Valid(dim) && node.repr == old(node.repr) + {added}
  {
    hide KdNode.Valid;
    RootInside(child, dim);
    node.left := child;
    node.repr := node.repr + {added};
    assert node.LeftNodes() == ls + {added} && node.RightNodes() == rs;
    BothSides(node, dim);
  }

  // Hangs a grown right subtree below the node.
  method GraftRight(node: KdNode, child: KdNode, ghost added: KdNode, ghost ls: set<KdNode>, ghost rs: set<KdNode>, dim: nat)
    requires |node.pos| == dim && node.dir < dim && |added.pos| == dim && added.pos[node.dir] >= node.pos[node.dir]
    requires child.Valid(dim) && child.dir == (node.dir + 1) % dim && child.repr == rs + {added}
    requires node.repr == {node} + ls + rs && node !in ls + rs && ls !! rs && added !in node.repr
    requires forall n :: n in node.repr ==> |n.pos| == dim
    requires forall n :: n in ls ==> n.pos[node.dir] < node.pos[node.dir]
    requires forall n :: n in rs ==> n.pos[node.dir] >= node.pos[node.dir]
    requires node.LeftNodes() == ls
    requires node.left != null ==> node.left in ls && node.left.Valid(dim) && node.left.dir == (node.dir + 1) % dim
    modifies node
    ensures node.Valid(dim) && node.repr == old(node.repr) + {added}
  {
    hide KdNode.Valid;
    RootInside(child, dim);
    node.right := child;
    node.repr := node.repr + {added};
    assert node.RightNodes() == rs + {added} && node.LeftNodes() == ls;
    BothSides(node, dim);
  }

  // The smallest box that holds both the old one and pos.
  ghost predicate Widened(lo: Point, hi: Point, pos: Point, lo': Point, hi': Point) {
    && |lo| == |hi| == |pos| == |lo'| == |hi'|
    && forall i :: 0 <= i < |pos| ==>
         && lo'[i] == (if pos[i] < lo[i] then pos[i] else lo[i])
         && hi'[i] == (if pos[i] > hi[i] then pos[i] else hi[i])
  }

  lemma WidenedHolds(lo: Point, hi: Point, pos: Point, lo': Point, hi': Point, p: Point)
    requires Widened(lo, hi, pos, lo', hi')
    ensures Inside(p, lo, hi) ==> Inside(p, lo', hi')
    ensures (forall i :: 0 <= i < |lo| ==> lo[i] <= hi[i]) ==> Inside(pos, lo', hi')
  {}

  // A box around any point at all is not inside out.
  lemma BoxIsProper(p: Point, lo: Point, hi: Point)
    requires Inside(p, lo, hi)
    ensures forall i :: 0 <= i < |lo| ==> lo[i] <= hi[i]
  {
    forall i | 0 <= i < |lo| ensures lo[i] <= hi[i] { assert lo[i] <= p[i] <= hi[i]; }
  }

  class HyperRect {
    const dim: nat
    const min: array<real>
    const max: array<real>

    constructor (lo: Point, hi: Point)
      requires |lo| == |hi|
      ensures dim == |lo| && min.Length == dim && max.Length == dim && min != max
      ensures fresh(min) && fresh(max) && min[..] == lo && max[..] == hi
    {
      dim := |lo|;
      min := new real[|lo|](i requires 0 <= i < |lo| => lo[i]);
      max := new real[|hi|](i requires 0 <= i < |hi| => hi[i]);
    }

    ghost predicate Shape() {
      min.Length == dim && max.Length == dim && min != max
    }

    // Widens the box just enough to hold pos.
    method Extend(pos: Point)
      requires Shape() && |pos| == dim
      modifies min, max
      ensures Widened(old(min[..]), old(max[..]), pos, min[..], max[..])
    {
      for i := 0 to dim
        invariant forall k :: i <= k < dim ==> min[k] == old(min[k]) && max[k] == old(max[k])
        invariant forall k :: 0 <= k < i ==> min[k] == (if pos[k] < old(min[k]) then pos[k] else old(min[k]))
        invariant forall k :: 0 <= k < i ==> max[k] == (if pos[k] > old(max[k]) then pos[k] else old(max[k]))
      {
        if pos[i] < min[i] { min[i] := pos[i]; }
        if pos[i] > max[i] { max[i] := pos[i]; }
      }
    }

    method DistanceSq(pos: Point) returns (result: real)
      requires Shape() && |pos| == dim
      ensures result == BoxDistUpto(min[..], max[..], pos, dim)
    {
      result := 0.0;
      for i := 0 to dim
        invariant result == BoxDistUpto(min[..], max[..], pos, i)
      {
        if pos[i] < min[i] {
          result := result + Sq(min[i] - pos[i]);
        } else if pos[i] > max[i] {
          result := result + Sq(max[i] - pos[i]);
        }
      }
    }
  }

  class KdTree {
    const dim: nat
    var root: KdNode?
    var rect: HyperRect?

    constructor (k: nat)
      requires k > 0
      ensures dim == k && Valid() && root == null && rect == null
    {
      dim, root, rect := k, null, null;
    }

    ghost predicate RectOk()
      reads this, rect, if rect == null then {} else {rect.min, rect.max}
    {
      rect != null ==> rect.Shape() && rect.dim == dim
    }

    // A tree with the box that holds all its points.
    ghost predicate Valid()
      reads this, root, Nodes(root), rect, if rect == null then {} else {rect.min, rect.max}
    {
      && dim > 0 && ValidTree(root, dim) && (root != null ==> root.dir == 0) && RectOk()
      && (rect == null <==> root == null)
      && (rect != null ==> forall n :: n in Nodes(root) ==> Inside(n.pos, rect.min[..], rect.max[..]))
    }

    lemma OwnBox(p: Point)
      ensures Inside(p, p, p)
    {}

    // Every run of inserts keeps the tree in order and its box around all points.
    method Insert(pos: Point, data: int) returns (ghost added: KdNode)
      requires Valid() && |pos| == dim
      modifies this, Nodes(root), if rect == null then {} else {rect.min, rect.max}
      ensures Valid() && fresh(added) && added.pos == pos && added.data == data
      ensures Nodes(root) == old(Nodes(root)) + {added}
      ensures rect != null && (old(rect) != null ==> rect == old(rect)) && (old(rect) == null ==> fresh(rect) && fresh(rect.min) && fresh(rect.max))
    {
      hide KdNode.Valid, Inside, Widened;
      var r;
      r, added := InsertRec(root, pos, data, 0, dim);
      root := r;
      RootInside(r, dim);
      if rect == null {
        rect := new HyperRect(pos, pos);
        OwnBox(pos);
      } else {
        ghost var lo, hi, others := rect.min[..], rect.max[..], Nodes(root) - {added};
        assert root in others && forall n :: n in others ==> Inside(n.pos, lo, hi);
        rect.Extend(pos);
        BoxIsProper(root.pos, lo, hi);
        forall n | n in Nodes(root) ensures Inside(n.pos, rect.min[..], rect.max[..]) {
          WidenedHolds(lo, hi, pos, rect.min[..], rect.max[..], n.pos);
        }
      }
    }
  }
}

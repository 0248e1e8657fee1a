/** The pointer implementation of the AVL interval tree. Every method is proved to compute
    the corresponding function on tree values, in place on the nodes it was given. */
module AvlNodes {
  import opened Numbers
  import Avl

  class AvlNode {
    var lower: real
    var upper: real
    var height: int
    var left: AvlNode?
    var right: AvlNode?

    /** The tree value rooted here, and the nodes that make it up. */
    ghost var tree: Avl.Tree
    ghost var repr: set<AvlNode>

    ghost predicate Valid()
      reads this, repr
      decreases repr
    {
      && this in repr
      && (left != null ==> left in repr && left.repr <= repr && this !in left.repr && left.Valid())
      && (right != null ==> right in repr && right.repr <= repr && this !in right.repr && right.Valid())
      && ReprOf(left) !! ReprOf(right)
      && repr == {this} + ReprOf(left) + ReprOf(right)
      && tree == Avl.Node(TreeOf(left), Interval(lower, upper), height, TreeOf(right))
    }

    constructor (lower: real, upper: real)
      ensures Valid() && repr == {this} && left == null && right == null
      ensures tree == Avl.Node(Avl.Leaf, Interval(lower, upper), 1, Avl.Leaf)
    {
      this.lower, this.upper, height := lower, upper, 1;
      left, right := null, null;
      tree := Avl.Node(Avl.Leaf, Interval(lower, upper), 1, Avl.Leaf);
      repr := {this};
    }
  }

  ghost function TreeOf(n: AvlNode?): Avl.Tree
    reads n
  {
    if n == null then Avl.Leaf else n.tree
  }

  ghost function ReprOf(n: AvlNode?): set<AvlNode>
    reads n
  {
    if n == null then {} else n.repr
  }

  ghost predicate Ok(n: AvlNode?)
    reads n, ReprOf(n)
  {
    n != null ==> n.Valid()
  }

  function NodeHeight(n: AvlNode?): int
    reads n
  {
    if n == null then 0 else n.height
  }

  /** What validity of a node says about its parts. */
  lemma OkValid(n: AvlNode)
    requires Ok(n)
    ensures n.Valid() && Ok(n.left) && Ok(n.right) && n in n.repr
    ensures n !in ReprOf(n.left) && n !in ReprOf(n.right) && ReprOf(n.left) !! ReprOf(n.right)
    ensures n.repr == {n} + ReprOf(n.left) + ReprOf(n.right)
    ensures n.left != null ==> n.left in n.left.repr
    ensures n.right != null ==> n.right in n.right.repr
    ensures n.tree == Avl.Node(TreeOf(n.left), Interval(n.lower, n.upper), n.height, TreeOf(n.right))
  {
  }

  lemma OkMember(n: AvlNode?)
    requires Ok(n)
    ensures n != null ==> n in n.repr && n.tree.Node?
  {
  }

  lemma OkNull()
    ensures Ok(null) && NodeHeight(null) == 0
  {
  }

  lemma HeightIs(n: AvlNode?)
    requires Ok(n)
    ensures NodeHeight(n) == Avl.Height(TreeOf(n))
  {
  }

  /** Brings the ghost summary of a node up to date with its fields. */
  ghost method Resync(node: AvlNode)
    requires Ok(node.left) && Ok(node.right)
    requires node !in ReprOf(node.left) && node !in ReprOf(node.right)
    requires ReprOf(node.left) !! ReprOf(node.right)
    modifies node`tree, node`repr
    ensures Ok(node)
    ensures node.tree == Avl.Node(old(TreeOf(node.left)), Interval(node.lower, node.upper), node.height,
                                  old(TreeOf(node.right)))
    ensures node.repr == {node} + old(ReprOf(node.left)) + old(ReprOf(node.right))
  {
    node.tree := Avl.Node(TreeOf(node.left), Interval(node.lower, node.upper), node.height, TreeOf(node.right));
    node.repr := {node} + ReprOf(node.left) + ReprOf(node.right);
  }

  /** Recomputes the height of a node whose children are in order. */
  method UpdateHeight(node: AvlNode)
    requires Ok(node.left) && Ok(node.right)
    requires node !in ReprOf(node.left) && node !in ReprOf(node.right)
    requires ReprOf(node.left) !! ReprOf(node.right)
    modifies node`height, node`tree, node`repr
    ensures Ok(node)
    ensures node.tree == Avl.Mk(old(TreeOf(node.left)), Interval(node.lower, node.upper), old(TreeOf(node.right)))
    ensures node.repr == {node} + old(ReprOf(node.left)) + old(ReprOf(node.right))
  {
    hide AvlNode.Valid; hide Ok;
    HeightIs(node.left);
    HeightIs(node.right);
    OkMember(node.left);
    OkMember(node.right);
    node.height := 1 + Avl.Max(NodeHeight(node.left), NodeHeight(node.right));
    Resync(node);
  }

  method RotateRight(root: AvlNode?) returns (r: AvlNode?)
    requires Ok(root)
    modifies ReprOf(root)
    ensures Ok(r) && ReprOf(r) == old(ReprOf(root))
    ensures TreeOf(r) == Avl.RotateRight(old(TreeOf(root)))
  {
    hide AvlNode.Valid; hide Ok;
    if root == null {
      OkNull();
      return root;
    }
    OkValid(root);
    if root.left == null {
      return root;
    }
    OkValid(root.left);
    var pivot := root.left;
    var transfer := pivot.right;
    ghost var a, b, c := ReprOf(pivot.left), ReprOf(transfer), ReprOf(root.right);
    assert root.repr == {root, pivot} + a + b + c && a !! b && b !! c && a !! c;
    assert root !in a + b + c && pivot !in a + b + c && root != pivot;
    pivot.right := root;
    root.left := transfer;
    UpdateHeight(root);
    UpdateHeight(pivot);
    return pivot;
  }

  method RotateLeft(root: AvlNode?) returns (r: AvlNode?)
    requires Ok(root)
    modifies ReprOf(root)
    ensures Ok(r) && ReprOf(r) == old(ReprOf(root))
    ensures TreeOf(r) == Avl.RotateLeft(old(TreeOf(root)))
  {
    hide AvlNode.Valid; hide Ok;
    if root == null {
      OkNull();
      return root;
    }
    OkValid(root);
    if root.right == null {
      return root;
    }
    OkValid(root.right);
    var pivot := root.right;
    var transfer := pivot.left;
    ghost var a, b, c := ReprOf(root.left), ReprOf(transfer), ReprOf(pivot.right);
    assert root.repr == {root, pivot} + a + b + c && a !! b && b !! c && a !! c;
    assert root !in a + b + c && pivot !in a + b + c && root != pivot;
    pivot.left := root;
    root.right := transfer;
    UpdateHeight(root);
    UpdateHeight(pivot);
    return pivot;
  }

  /** Restores balance at a node whose subtrees are in order. */
  method Rebalance(root: AvlNode) returns (r: AvlNode)
    requires Ok(root.left) && Ok(root.right)
    requires root !in ReprOf(root.left) && root !in ReprOf(root.right)
    requires ReprOf(root.left) !! ReprOf(root.right)
    modifies root, ReprOf(root.left), ReprOf(root.right)
    ensures Ok(r) && r.repr == {root} + old(ReprOf(root.left)) + old(ReprOf(root.right))
    ensures r.tree == old(Avl.Rebalance(
      Avl.Node(TreeOf(root.left), Interval(root.lower, root.upper), root.height, TreeOf(root.right))))
  {
    hide AvlNode.Valid; hide Ok;
    UpdateHeight(root);
    OkValid(root);
    HeightIs(root.left);
    HeightIs(root.right);
    var balance := NodeHeight(root.left) - NodeHeight(root.right);
    if balance > 1 && root.left != null {
      OkValid(root.left);
      HeightIs(root.left.left);
      HeightIs(root.left.right);
      if NodeHeight(root.left.left) < NodeHeight(root.left.right) {
        var l := RotateLeft(root.left);
        root.left := l;
        Resync(root);
      }
      r := RotateRight(root);
    } else if balance < -1 && root.right != null {
      OkValid(root.right);
      HeightIs(root.right.left);
      HeightIs(root.right.right);
      if NodeHeight(root.right.right) < NodeHeight(root.right.left) {
        var rr := RotateRight(root.right);
        root.right := rr;
        Resync(root);
      }
      r := RotateLeft(root);
    } else {
      r := root;
    }
  }

  /** Links a single detached node into the tree below root. */
  method TreeInsert(root: AvlNode?, node: AvlNode) returns (r: AvlNode?)
    requires Ok(root) && Ok(node) && node.left == null && node.right == null && node.height == 1
    requires node !in ReprOf(root)
    modifies ReprOf(root), node
    ensures Ok(r) && ReprOf(r) == old(ReprOf(root)) + {node}
    ensures TreeOf(r) == old(Avl.Insert(TreeOf(root), Interval(node.lower, node.upper)))
    decreases ReprOf(root)
  {
    hide AvlNode.Valid; hide Ok;
    OkValid(node);
    if root == null {
      return node;
    }
    OkValid(root);
    OkMember(root.left);
    OkMember(root.right);
    if node.lower < root.lower {
      var l := TreeInsert(root.left, node);
      OkMember(l);
      root.left := l;
    } else {
      var rr := TreeInsert(root.right, node);
      OkMember(rr);
      root.right := rr;
    }
    r := Rebalance(root);
  }

  method MinimumNode(root: AvlNode) returns (m: AvlNode)
    requires Ok(root)
    ensures m in root.repr && Interval(m.lower, m.upper) == Avl.Minimum(root.tree)
  {
    hide AvlNode.Valid; hide Ok;
    m := root;
    OkValid(m);
    while m.left != null
      invariant Ok(m) && m.repr <= root.repr && m in m.repr
      invariant Avl.Minimum(root.tree) == (OkValid(m); Avl.Minimum(m.tree))
      decreases m.repr
    {
      OkValid(m);
      m := m.left;
      OkValid(m);
    }
    OkValid(m);
  }

  /** Unlinks the interval with the given lower endpoint; a node with two children takes over
      its successor's interval and the successor's node goes instead. */
  method TreeDelete(root: AvlNode?, lower: real) returns (r: AvlNode?)
    requires Ok(root)
    modifies ReprOf(root)
    ensures Ok(r) && ReprOf(r) <= old(ReprOf(root))
    ensures TreeOf(r) == Avl.Delete(old(TreeOf(root)), lower)
    decreases ReprOf(root)
  {
    hide AvlNode.Valid; hide Ok;
    OkNull();
    if root == null {
      return null;
    }
    OkValid(root);
    OkMember(root.left);
    OkMember(root.right);
    if lower < root.lower {
      var l := TreeDelete(root.left, lower);
      OkMember(l);
      root.left := l;
    } else if lower > root.lower {
      var rr := TreeDelete(root.right, lower);
      OkMember(rr);
      root.right := rr;
    } else if root.left == null || root.right == null {
      return if root.left != null then root.left else root.right;
    } else {
      var successor := MinimumNode(root.right);
      root.lower := successor.lower;
      root.upper := successor.upper;
      var rr := TreeDelete(root.right, successor.lower);
      OkMember(rr);
      root.right := rr;
    }
    r := Rebalance(root);
  }
}

// Nodes, the table and the linked structure of the red-black tree.
module RbNodes {
  import opened Orders

  datatype Color = Red | Black

  class Node {
    var left: Node
    var right: Node
    var parent: Node
    var color: Color
    var data: Data

    // The node's place in the in-order sequence: its subtree is exactly the
    // slice [lo, hi), the node itself is element pos.
    ghost var lo: int
    ghost var pos: int
    ghost var hi: int
    // Black nodes on every path from here down to the sentinel.
    ghost var bh: nat

    constructor Sentinel()
      ensures left == right == parent == this && color == Black && bh == 0
    {
      left, right, parent := this, this, this;
      color := Black;
      bh := 0;
    }

    constructor (data: Data, nil: Node)
      ensures this.data == data && left == right == parent == nil
    {
      this.data := data;
      left, right, parent := nil, nil, nil;
      color := Red;
    }
  }

  class Table {
    const nil: Node
    const compare: (Data, Data) -> int
    var root: Node
    var numInodes: nat
    var numInserts: nat
    var numRemoved: nat

    ghost var nodes: set<Node>
    ghost var inOrder: seq<Node>

    constructor (compare: (Data, Data) -> int)
      requires TotalPreorder(compare)
      ensures Valid() && this.compare == compare && fresh(nil)
      ensures nodes == {} && inOrder == [] && root == nil
      ensures numInserts == numRemoved == 0
    {
      var s := new Node.Sentinel();
      nil := s;
      this.compare := compare;
      root := s;
      numInodes, numInserts, numRemoved := 0, 0, 0;
      nodes, inOrder := {}, [];
    }

    // ---- Structure ----

    ghost predicate LeftOk(n: Node)
      requires n in nodes
      reads this`nodes, nodes`left, nodes`parent, nodes`lo, nodes`pos, nodes`hi
    {
      && 0 <= n.lo <= n.pos
      && (if n.left == nil then n.lo == n.pos else
          && n.left in nodes && n.left.parent == n
          && n.left.lo == n.lo && n.left.hi == n.pos)
    }

    ghost predicate RightOk(n: Node)
      requires n in nodes
      reads this`nodes, this`inOrder, nodes`right, nodes`parent, nodes`lo, nodes`pos, nodes`hi
    {
      && n.pos < n.hi <= |inOrder|
      && (if n.right == nil then n.hi == n.pos + 1 else
          && n.right in nodes && n.right.parent == n
          && n.right.lo == n.pos + 1 && n.right.hi == n.hi)
    }

    ghost predicate UpOk(n: Node)
      requires n in nodes
      reads this`nodes, this`root, nodes`left, nodes`right, nodes`parent
    {
      if n.parent == nil then n == root else
        n.parent in nodes && (n.parent.left == n || n.parent.right == n)
    }

    ghost predicate NilOk()
      reads this`nodes, nil
    {
      nil !in nodes && nil.color == Black
    }

    ghost predicate RootOk()
      reads this`root, this`nodes, this`inOrder, nodes`parent, nodes`lo, nodes`hi
    {
      && nil !in nodes
      && (if root == nil then nodes == {} && inOrder == [] else
          root in nodes && root.parent == nil && root.lo == 0 && root.hi == |inOrder|)
    }

    ghost predicate Links()
      reads this`root, this`nodes, this`inOrder
      reads nodes`left, nodes`right, nodes`parent, nodes`lo, nodes`pos, nodes`hi
    {
      && RootOk()
      && (forall n {:trigger LeftOk(n)} {:trigger RightOk(n)} {:trigger UpOk(n)} :: n in nodes ==>
          LeftOk(n) && RightOk(n) && UpOk(n))
    }

    // The ghost sequence lists the nodes by position, in the order of their data.
    ghost predicate Placed(n: Node)
      requires n in nodes
      reads this`nodes, this`inOrder, nodes`pos
    {
      0 <= n.pos < |inOrder| && inOrder[n.pos] == n
    }

    ghost predicate Slot(i: int)
      requires 0 <= i < |inOrder|
      reads this`nodes, this`inOrder, nodes`pos
    {
      inOrder[i] in nodes && inOrder[i].pos == i
    }

    ghost predicate InOrder(i: int, j: int)
      requires 0 <= i <= j < |inOrder|
      reads this`inOrder, inOrder`data
    {
      compare(inOrder[i].data, inOrder[j].data) <= 0
    }

    ghost predicate Places()
      reads this`nodes, this`inOrder, nodes`pos
    {
      && (forall n {:trigger Placed(n)} :: n in nodes ==> Placed(n))
      && (forall i {:trigger Slot(i)} :: 0 <= i < |inOrder| ==> Slot(i))
    }

    ghost predicate Sorted()
      reads this`inOrder, inOrder`data
    {
      forall i, j {:trigger InOrder(i, j)} :: 0 <= i <= j < |inOrder| ==> InOrder(i, j)
    }

    ghost predicate Ordered()
      reads this`nodes, this`inOrder, nodes`pos, inOrder`data
    {
      Places() && Sorted()
    }

    // ---- Rotation ----

    // How the old state and the new one differ after node y has been rotated
    // above its parent x; b is the subtree that changes sides, p the old parent of x.
    twostate predicate RotatedLeft(x: Node, y: Node, b: Node, p: Node)
      reads *
    {
      && x.right == b && y.left == x && x.parent == y && y.parent == p
      && x.left == old(x.left) && y.right == old(y.right)
      && x.lo == old(x.lo) && x.hi == y.pos && y.lo == old(x.lo) && y.hi == old(x.hi)
      && (if p == nil then root == y else
          && root == old(root)
          && (if x == old(p.left) then p.left == y && p.right == old(p.right)
              else p.right == y && p.left == old(p.left)))
      && (b != nil ==> b.parent == x)
    }
    twostate predicate RotatedRight(x: Node, y: Node, b: Node, p: Node)
      reads *
    {
      && x.left == b && y.right == x && x.parent == y && y.parent == p
      && x.right == old(x.right) && y.left == old(y.left)
      && x.lo == y.pos + 1 && x.hi == old(x.hi) && y.lo == old(x.lo) && y.hi == old(x.hi)
      && (if p == nil then root == y else
          && root == old(root)
          && (if x == old(p.left) then p.left == y && p.right == old(p.right)
              else p.right == y && p.left == old(p.left)))
      && (b != nil ==> b.parent == x)
    }

    // Nodes other than x and y keep their slice; only b and p have a link changed.
    twostate predicate Others(x: Node, y: Node, b: Node, p: Node)
      reads *
    {
      && nodes == old(nodes) && inOrder == old(inOrder)
      && (forall n <- nodes :: old(allocated(n)) && n.pos == old(n.pos))
      && (forall n <- nodes :: n != x && n != y ==>
        && n.lo == old(n.lo) && n.hi == old(n.hi)
        && (n != b ==> n.parent == old(n.parent))
        && (n != p ==> n.left == old(n.left) && n.right == old(n.right)))
    }
    twostate lemma RotatedLeftKeepsLeft(x: Node)
      requires old(Links()) && x in nodes && old(x.right) in nodes
      requires RotatedLeft(x, old(x.right), old(x.right.left), old(x.parent))
      requires Others(x, old(x.right), old(x.right.left), old(x.parent))
      ensures forall n {:trigger LeftOk(n)} :: n in nodes ==> LeftOk(n)
    {
      ghost var y := old(x.right);
      assert old(LeftOk(x)) && old(RightOk(x));
      assert old(LeftOk(y)) && old(RightOk(y));
      forall n | n in nodes
        ensures LeftOk(n)
      {
        assert old(LeftOk(n)) && old(UpOk(n));
      }
    }
    twostate lemma RotatedLeftKeepsRight(x: Node)
      requires old(Links()) && x in nodes && old(x.right) in nodes
      requires RotatedLeft(x, old(x.right), old(x.right.left), old(x.parent))
      requires Others(x, old(x.right), old(x.right.left), old(x.parent))
      ensures forall n {:trigger RightOk(n)} :: n in nodes ==> RightOk(n)
    {
      ghost var y := old(x.right);
      assert old(LeftOk(x)) && old(RightOk(x));
      assert old(LeftOk(y)) && old(RightOk(y));
      forall n | n in nodes
        ensures RightOk(n)
      {
        assert old(RightOk(n)) && old(UpOk(n));
      }
    }
    twostate lemma RotatedLeftKeepsUp(x: Node)
      requires old(Links()) && x in nodes && old(x.right) in nodes
      requires RotatedLeft(x, old(x.right), old(x.right.left), old(x.parent))
      requires Others(x, old(x.right), old(x.right.left), old(x.parent))
      ensures forall n {:trigger UpOk(n)} :: n in nodes ==> UpOk(n)
    {
      ghost var y := old(x.right);
      assert old(LeftOk(x)) && old(RightOk(x)) && old(UpOk(x));
      assert old(LeftOk(y)) && old(RightOk(y)) && old(UpOk(y));
      forall n | n in nodes
        ensures UpOk(n)
      {
        assert old(UpOk(n));
      }
    }

    lemma NeighboursRight(x: Node)
      requires Links() && x in nodes && x.right != nil
      ensures var y, b, p := x.right, x.right.left, x.parent;
        && x != nil && y != nil && x != y
        && p != x && p != y && b != x && b != y && (p == nil || b == nil || b != p)
        && y in nodes && (b == nil || b in nodes) && (p == nil || p in nodes)
        && root != nil && (p == nil <==> root == x) && root != y && root != b
    {
      assert LeftOk(x) && RightOk(x) && UpOk(x);
      var y := x.right;
      assert LeftOk(y) && RightOk(y);
      if x.parent != nil {
        assert LeftOk(x.parent) && RightOk(x.parent);
      }
      if y.left != nil {
        assert LeftOk(y.left) && RightOk(y.left);
      }
    }

    twostate lemma RotatedRightKeepsRight(x: Node)
      requires old(Links()) && x in nodes && old(x.left) in nodes
      requires RotatedRight(x, old(x.left), old(x.left.right), old(x.parent))
      requires Others(x, old(x.left), old(x.left.right), old(x.parent))
      ensures forall n {:trigger RightOk(n)} :: n in nodes ==> RightOk(n)
    {
      ghost var y := old(x.left);
      assert old(RightOk(x)) && old(LeftOk(x));
      assert old(RightOk(y)) && old(LeftOk(y));
      forall n | n in nodes
        ensures RightOk(n)
      {
        assert old(RightOk(n)) && old(UpOk(n));
      }
    }
    twostate lemma RotatedRightKeepsLeft(x: Node)
      requires old(Links()) && x in nodes && old(x.left) in nodes
      requires RotatedRight(x, old(x.left), old(x.left.right), old(x.parent))
      requires Others(x, old(x.left), old(x.left.right), old(x.parent))
      ensures forall n {:trigger LeftOk(n)} :: n in nodes ==> LeftOk(n)
    {
      ghost var y := old(x.left);
      assert old(RightOk(x)) && old(LeftOk(x));
      assert old(RightOk(y)) && old(LeftOk(y));
      forall n | n in nodes
        ensures LeftOk(n)
      {
        assert old(LeftOk(n)) && old(UpOk(n));
      }
    }
    twostate lemma RotatedRightKeepsUp(x: Node)
      requires old(Links()) && x in nodes && old(x.left) in nodes
      requires RotatedRight(x, old(x.left), old(x.left.right), old(x.parent))
      requires Others(x, old(x.left), old(x.left.right), old(x.parent))
      ensures forall n {:trigger UpOk(n)} :: n in nodes ==> UpOk(n)
    {
      ghost var y := old(x.left);
      assert old(RightOk(x)) && old(LeftOk(x)) && old(UpOk(x));
      assert old(RightOk(y)) && old(LeftOk(y)) && old(UpOk(y));
      forall n | n in nodes
        ensures UpOk(n)
      {
        assert old(UpOk(n));
      }
    }

    lemma NeighboursLeft(x: Node)
      requires Links() && x in nodes && x.left != nil
      ensures var y, b, p := x.left, x.left.right, x.parent;
        && x != nil && y != nil && x != y
        && p != x && p != y && b != x && b != y && (p == nil || b == nil || b != p)
        && y in nodes && (b == nil || b in nodes) && (p == nil || p in nodes)
        && root != nil && (p == nil <==> root == x) && root != y && root != b
    {
      assert RightOk(x) && LeftOk(x) && UpOk(x);
      var y := x.left;
      assert RightOk(y) && LeftOk(y);
      if x.parent != nil {
        assert RightOk(x.parent) && LeftOk(x.parent);
      }
      if y.right != nil {
        assert RightOk(y.right) && LeftOk(y.right);
      }
    }

    // Puts y where x hangs, or makes it the root.
    method ReplaceChild(x: Node, y: Node)
      requires x.parent != x && x.parent != y && x != y
      modifies this`root, x.parent`left, x.parent`right
      ensures if x.parent == nil then
          root == y && nil.left == old(nil.left) && nil.right == old(nil.right)
        else
          (&& root == old(root)
           && x.parent.left == (if old(x.parent.left) == x then y else old(x.parent.left))
           && x.parent.right == (if old(x.parent.left) == x then old(x.parent.right) else y))
    {
      if x.parent != nil {
        if x == x.parent.left {
          x.parent.left := y;
        } else {
          x.parent.right := y;
        }
      } else {
        root := y;
      }
    }

    method TurnLeft(x: Node)
      requires var y, b, p := x.right, x.right.left, x.parent;
        && x != nil && y != nil && x != y
        && p != x && p != y && b != x && b != y && (p == nil || b == nil || b != p)
      modifies this`root, x`right, x`parent, x`hi, x.right`left, x.right`parent, x.right`lo, x.right`hi
      modifies x.right.left`parent, x.parent`left, x.parent`right
      ensures RotatedLeft(x, old(x.right), old(x.right.left), old(x.parent))
      ensures nil.parent == old(nil.parent)
      ensures nil.left == old(nil.left) && nil.right == old(nil.right)
    {
      var y := x.right;
      x.right := y.left;
      if y.left != nil {
        y.left.parent := x;
      }
      y.parent := x.parent;
      ReplaceChild(x, y);
      y.left := x;
      x.parent := y;
      y.lo, y.hi := x.lo, x.hi;
      x.hi := y.pos;
    }

    method RotateLeft(x: Node)
      requires Links() && x in nodes && x.right != nil
      modifies this`root, x`right, x`parent, x`hi, x.right`left, x.right`parent, x.right`lo, x.right`hi
      modifies x.right.left`parent, x.parent`left, x.parent`right
      ensures Links()
      ensures old(x.right) in nodes
      ensures RotatedLeft(x, old(x.right), old(x.right.left), old(x.parent))
      ensures Others(x, old(x.right), old(x.right.left), old(x.parent))
      ensures nil.parent == old(nil.parent)
      ensures nil.left == old(nil.left) && nil.right == old(nil.right)
    {
      NeighboursRight(x);
      ghost var y, b, p := x.right, x.right.left, x.parent;
      TurnLeft(x);
      RotatedLeftKeepsLeft(x);
      RotatedLeftKeepsRight(x);
      RotatedLeftKeepsUp(x);
    }

    method TurnRight(x: Node)
      requires var y, b, p := x.left, x.left.right, x.parent;
        && x != nil && y != nil && x != y
        && p != x && p != y && b != x && b != y && (p == nil || b == nil || b != p)
      modifies this`root, x`left, x`parent, x`lo, x.left`right, x.left`parent, x.left`lo, x.left`hi
      modifies x.left.right`parent, x.parent`right, x.parent`left
      ensures RotatedRight(x, old(x.left), old(x.left.right), old(x.parent))
      ensures nil.parent == old(nil.parent)
      ensures nil.right == old(nil.right) && nil.left == old(nil.left)
    {
      var y := x.left;
      x.left := y.right;
      if y.right != nil {
        y.right.parent := x;
      }
      y.parent := x.parent;
      ReplaceChild(x, y);
      y.right := x;
      x.parent := y;
      y.lo, y.hi := x.lo, x.hi;
      x.lo := y.pos + 1;
    }

    method RotateRight(x: Node)
      requires Links() && x in nodes && x.left != nil
      modifies this`root, x`left, x`parent, x`lo, x.left`right, x.left`parent, x.left`lo, x.left`hi
      modifies x.left.right`parent, x.parent`right, x.parent`left
      ensures Links()
      ensures old(x.left) in nodes
      ensures RotatedRight(x, old(x.left), old(x.left.right), old(x.parent))
      ensures Others(x, old(x.left), old(x.left.right), old(x.parent))
      ensures nil.parent == old(nil.parent)
      ensures nil.right == old(nil.right) && nil.left == old(nil.left)
    {
      NeighboursLeft(x);
      ghost var y, b, p := x.left, x.left.right, x.parent;
      TurnRight(x);
      RotatedRightKeepsRight(x);
      RotatedRightKeepsLeft(x);
      RotatedRightKeepsUp(x);
    }

    // ---- Colours and black heights ----

    ghost function BlackHeight(c: Node): int
      reads this`nodes, nodes`bh
    {
      if c in nodes then c.bh else 0
    }

    ghost predicate IsRed(c: Node)
      reads this`nodes, nodes`color
    {
      c in nodes && c.color == Red
    }

    ghost predicate HeightOk(n: Node)
      requires n in nodes
      reads this`nodes, nodes`left, nodes`right, nodes`color, nodes`bh
    {
      && BlackHeight(n.left) == BlackHeight(n.right)
      && n.bh == BlackHeight(n.left) + (if n.color == Black then 1 else 0)
    }

    ghost predicate ColorOk(n: Node)
      requires n in nodes
      reads this`nodes, nodes`parent, nodes`color
    {
      n.color == Red ==> !IsRed(n.parent)
    }

    ghost predicate Heights()
      reads this`nodes, nodes`left, nodes`right, nodes`color, nodes`bh
    {
      forall n {:trigger HeightOk(n)} :: n in nodes ==> HeightOk(n)
    }

    ghost predicate Balanced()
      reads this, nodes
    {
      && Heights()
      && (forall n {:trigger ColorOk(n)} :: n in nodes ==> ColorOk(n))
      && !IsRed(root)
    }

    ghost predicate Valid()
      reads this, nodes, nil, inOrder
    {
      NilOk() && Links() && Ordered() && Balanced() && numInodes == |inOrder|
    }

    // Every red-black rule holds, except that x is red and its parent may be red too.
    ghost predicate RedAt(x: Node)
      reads this, nodes
    {
      && x in nodes && x.color == Red
      && Heights()
      && (forall n {:trigger ColorOk(n)} :: n in nodes && n != x ==> ColorOk(n))
      && (IsRed(root) ==> root == x)
    }

    // x hangs below p, p below g.
    ghost predicate Family(x: Node, p: Node, g: Node)
      reads this`nodes, nodes`left, nodes`right, nodes`parent
    {
      && x in nodes && p in nodes && g in nodes && p == x.parent && g == p.parent
      && p != x && g != x && g != p
      && (p == g.left || p == g.right) && g.left != g.right
      && (x == p.left || x == p.right) && p.left != p.right
    }

    // A red node below another red node has a black grandparent in the tree.
    lemma Grandparent(x: Node)
      requires Links() && RedAt(x) && x != root && IsRed(x.parent)
      ensures Family(x, x.parent, x.parent.parent)
      ensures x.parent.parent.color == Black
      ensures x.hi - x.lo < x.parent.parent.hi - x.parent.parent.lo
    {
      var p := x.parent;
      assert UpOk(x) && UpOk(p) && ColorOk(p);
      assert LeftOk(p) && RightOk(p);
      assert LeftOk(p.parent) && RightOk(p.parent);
    }

    // ---- Rebalancing after an insertion ----

    twostate predicate SameLinks()
      reads *
    {
      && nodes == old(nodes) && root == old(root)
      && (forall n <- nodes ::
            old(allocated(n)) && n.left == old(n.left) && n.right == old(n.right) && n.parent == old(n.parent))
    }

    twostate predicate Recolored(p: Node, u: Node, g: Node)
      reads *
    {
      && p.color == Black && u.color == Black && g.color == Red
      && p.bh == old(p.bh) + 1 && u.bh == old(u.bh) + 1 && g.bh == old(g.bh)
      && (forall n <- nodes :: n != p && n != u && n != g ==>
          old(allocated(n)) && n.color == old(n.color) && n.bh == old(n.bh))
    }

    // The other child of g.
    ghost function Other(p: Node, g: Node): Node
      reads g
    {
      if p == g.left then g.right else g.left
    }

    twostate lemma RecoloredKeepsHeights(x: Node)
      requires old(Links() && RedAt(x) && Family(x, x.parent, x.parent.parent))
      requires old(IsRed(x.parent) && IsRed(Other(x.parent, x.parent.parent)) && !IsRed(x.parent.parent))
      requires SameLinks() && Recolored(old(x.parent), old(Other(x.parent, x.parent.parent)), old(x.parent.parent))
      ensures Heights()
    {
      ghost var p, g, u := old(x.parent), old(x.parent.parent), old(Other(x.parent, x.parent.parent));
      assert old(HeightOk(g)) && old(LeftOk(g)) && old(RightOk(g));
      forall n | n in nodes
        ensures HeightOk(n)
      {
        assert old(HeightOk(n)) && old(LeftOk(n)) && old(RightOk(n));
      }
    }

    twostate lemma RecoloredKeepsColors(x: Node)
      requires old(Links() && RedAt(x) && Family(x, x.parent, x.parent.parent))
      requires old(IsRed(x.parent) && IsRed(Other(x.parent, x.parent.parent)) && !IsRed(x.parent.parent))
      requires SameLinks() && Recolored(old(x.parent), old(Other(x.parent, x.parent.parent)), old(x.parent.parent))
      ensures forall n {:trigger ColorOk(n)} :: n in nodes && n != old(x.parent.parent) ==> ColorOk(n)
    {
      ghost var p, g, u := old(x.parent), old(x.parent.parent), old(Other(x.parent, x.parent.parent));
      forall n | n in nodes && n != g
        ensures ColorOk(n)
      {
        assert old(n != x ==> ColorOk(n)) && old(UpOk(n));
      }
    }
    method Paint(p: Node, u: Node, g: Node)
      requires p != u && p != g && u != g
      modifies p`color, u`color, g`color, p`bh, u`bh
      ensures p.color == Black && u.color == Black && g.color == Red
      ensures p.bh == old(p.bh) + 1 && u.bh == old(u.bh) + 1
    {
      p.color := Black;
      u.color := Black;
      g.color := Red;
      p.bh := p.bh + 1;
      u.bh := u.bh + 1;
    }

    // Red parent p and red uncle u become black, the grandparent red.
    method Recolor(x: Node)
      requires Links() && RedAt(x) && x != root && IsRed(x.parent) && IsRed(Other(x.parent, x.parent.parent))
      requires x.parent.parent in nodes
      modifies x.parent`color, x.parent`bh, Other(x.parent, x.parent.parent)`color
      modifies Other(x.parent, x.parent.parent)`bh, x.parent.parent`color
      ensures Links() && RedAt(x.parent.parent)
    {
      Grandparent(x);
      var p, g := x.parent, x.parent.parent;
      var u := if p == g.left then g.right else g.left;
      assert UpOk(g);
      Paint(p, u, g);
      RecoloredKeepsHeights(x);
      RecoloredKeepsColors(x);
    }

    // Node y rose above its parent x, by a rotation in either direction.
    twostate predicate Rotated(x: Node, y: Node, b: Node, p: Node)
      reads *
    {
      && x in nodes && y in nodes && p == old(x.parent)
      && Others(x, y, b, p)
      && (|| (old(x.right) == y && old(y.left) == b && RotatedLeft(x, y, b, p))
          || (old(x.left) == y && old(y.right) == b && RotatedRight(x, y, b, p)))
    }

    // x is an inner grandchild: its rise above its red parent p leaves p as the offending node.
    twostate predicate InnerStep(x: Node)
      reads *
    {
      && old(Links() && RedAt(x) && IsRed(x.parent) && Family(x, x.parent, x.parent.parent) && !IsRed(x.parent.parent))
      && (old(x == x.parent.right) ==> Rotated(old(x.parent), x, old(x.left), old(x.parent.parent)))
      && (old(x == x.parent.left) ==> Rotated(old(x.parent), x, old(x.right), old(x.parent.parent)))
      && (forall n <- nodes :: n.color == old(n.color) && n.bh == old(n.bh))
    }

    twostate lemma InnerKeepsHeights(x: Node)
      requires InnerStep(x)
      ensures Heights()
    {
      ghost var p := old(x.parent);
      assert old(HeightOk(p)) && old(HeightOk(x));
      forall n | n in nodes
        ensures HeightOk(n)
      {
        assert old(HeightOk(n)) && old(UpOk(n));
      }
    }

    twostate lemma InnerKeepsColors(x: Node)
      requires InnerStep(x)
      ensures forall n {:trigger ColorOk(n)} :: n in nodes && n != old(x.parent) ==> ColorOk(n)
    {
      ghost var p := old(x.parent);
      assert old(LeftOk(p)) && old(RightOk(p)) && old(LeftOk(x)) && old(RightOk(x));
      forall n | n in nodes && n != p
        ensures ColorOk(n)
      {
        assert old(n != x ==> ColorOk(n)) && old(UpOk(n));
      }
    }

    method InnerLeft(x: Node)
      requires Links() && RedAt(x) && x != root && IsRed(x.parent) && x == x.parent.right
      requires x.parent.parent in nodes && x.parent == x.parent.parent.left
      modifies this`root, nodes`left, nodes`right, nodes`parent, nodes`lo, nodes`hi, nil`left, nil`right, nil`parent
      ensures Links() && RedAt(old(x.parent)) && old(x.parent) != root
      ensures x in nodes && x.color == Red
      ensures old(x.parent).parent == x && x.parent == old(x.parent.parent) && old(x.parent) == x.left
      ensures x == x.parent.left && x.parent.right == old(x.parent.parent.right) && x.parent in nodes
    {
      Grandparent(x);
      assert UpOk(x);
      RotateLeft(x.parent);
      InnerKeepsHeights(x);
      InnerKeepsColors(x);
    }

    method InnerRight(x: Node)
      requires Links() && RedAt(x) && x != root && IsRed(x.parent) && x == x.parent.left
      requires x.parent.parent in nodes && x.parent == x.parent.parent.right
      modifies this`root, nodes`left, nodes`right, nodes`parent, nodes`lo, nodes`hi, nil`left, nil`right, nil`parent
      ensures Links() && RedAt(old(x.parent)) && old(x.parent) != root
      ensures x in nodes && x.color == Red
      ensures old(x.parent).parent == x && x.parent == old(x.parent.parent) && old(x.parent) == x.right
      ensures x == x.parent.right && x.parent.left == old(x.parent.parent.left) && x.parent in nodes
    {
      Grandparent(x);
      assert UpOk(x);
      RotateRight(x.parent);
      InnerKeepsHeights(x);
      InnerKeepsColors(x);
    }

    // x is an outer grandchild of g: its parent rises above g and takes over g's colour and height.
    twostate predicate OuterStep(x: Node)
      reads *
    {
      && old(Links() && RedAt(x) && IsRed(x.parent) && Family(x, x.parent, x.parent.parent) && !IsRed(x.parent.parent))
      && old(!IsRed(Other(x.parent, x.parent.parent)) && (x == x.parent.left <==> x.parent == x.parent.parent.left))
      && Rotated(old(x.parent.parent), old(x.parent), old(Other(x, x.parent)), old(x.parent.parent.parent))
      && old(x.parent).color == Black && old(x.parent).bh == old(x.parent.bh) + 1
      && old(x.parent.parent).color == Red && old(x.parent.parent).bh == old(x.parent.parent.bh) - 1
      && (forall n <- nodes :: n != old(x.parent) && n != old(x.parent.parent) ==>
          n.color == old(n.color) && n.bh == old(n.bh))
    }

    twostate lemma OuterKeepsHeights(x: Node)
      requires OuterStep(x)
      ensures Heights()
    {
      ghost var p, g := old(x.parent), old(x.parent.parent);
      assert old(HeightOk(p)) && old(HeightOk(g));
      assert old(LeftOk(p)) && old(RightOk(p)) && old(LeftOk(g)) && old(RightOk(g));
      forall n | n in nodes
        ensures HeightOk(n)
      {
        assert old(HeightOk(n)) && old(UpOk(n));
      }
    }

    twostate lemma OuterKeepsColors(x: Node)
      requires OuterStep(x)
      ensures forall n {:trigger ColorOk(n)} :: n in nodes ==> ColorOk(n)
    {
      ghost var p, g := old(x.parent), old(x.parent.parent);
      assert old(LeftOk(p)) && old(RightOk(p)) && old(LeftOk(g)) && old(RightOk(g));
      forall n | n in nodes
        ensures ColorOk(n)
      {
        assert old(n != x ==> ColorOk(n)) && old(UpOk(n));
      }
    }

    method PaintOuter(p: Node, g: Node)
      requires p != g && g.bh >= 1
      modifies p`color, p`bh, g`color, g`bh
      ensures p.color == Black && g.color == Red
      ensures p.bh == old(p.bh) + 1 && g.bh == old(g.bh) - 1
    {
      p.color := Black;
      g.color := Red;
      p.bh := p.bh + 1;
      g.bh := g.bh - 1;
    }

    method OuterRight(x: Node)
      requires Links() && RedAt(x) && x != root && IsRed(x.parent) && x == x.parent.left
      requires x.parent.parent in nodes && x.parent == x.parent.parent.left && !IsRed(x.parent.parent.right)
      modifies this`root, nodes`left, nodes`right, nodes`parent, nodes`lo, nodes`hi, nil`left, nil`right, nil`parent
      modifies nodes`color, nodes`bh
      ensures Links() && Balanced()
      ensures x.parent == old(x.parent) && x.color == old(x.color) && x.parent in nodes && x.parent.color == Black
    {
      Grandparent(x);
      ghost var p, g := x.parent, x.parent.parent;
      assert UpOk(g) && LeftOk(p) && RightOk(p) && HeightOk(g);
      PaintOuter(x.parent, x.parent.parent);
      RotateRight(x.parent.parent);
      OuterKeepsHeights(x);
      OuterKeepsColors(x);
    }

    method OuterLeft(x: Node)
      requires Links() && RedAt(x) && x != root && IsRed(x.parent) && x == x.parent.right
      requires x.parent.parent in nodes && x.parent == x.parent.parent.right && !IsRed(x.parent.parent.left)
      modifies this`root, nodes`left, nodes`right, nodes`parent, nodes`lo, nodes`hi, nil`left, nil`right, nil`parent
      modifies nodes`color, nodes`bh
      ensures Links() && Balanced()
      ensures x.parent == old(x.parent) && x.color == old(x.color) && x.parent in nodes && x.parent.color == Black
    {
      Grandparent(x);
      ghost var p, g := x.parent, x.parent.parent;
      assert UpOk(g) && LeftOk(p) && RightOk(p) && HeightOk(g);
      PaintOuter(x.parent, x.parent.parent);
      RotateLeft(x.parent.parent);
      OuterKeepsHeights(x);
      OuterKeepsColors(x);
    }

    // A leaf without a colour yet; every other node obeys the red-black rules.
    ghost predicate NewLeaf(z: Node)
      reads this`root, this`nodes, nodes`left, nodes`right, nodes`parent, nodes`color, nodes`bh
    {
      && z in nodes && z.left == nil && z.right == nil && z.bh == 0
      && (forall n {:trigger HeightOk(n)} {:trigger ColorOk(n)} :: n in nodes && n != z ==> HeightOk(n) && ColorOk(n))
      && (root != z ==> !IsRed(root))
    }

    twostate lemma PaintedRed(z: Node)
      requires old(NewLeaf(z)) && Links() && z.color == Red
      requires SameLinks() && forall n <- nodes :: n != z ==>
        old(allocated(n)) && n.color == old(n.color) && n.bh == old(n.bh)
      requires z.bh == 0
      ensures RedAt(z)
    {
      forall n | n in nodes
        ensures HeightOk(n) && (n != z ==> ColorOk(n))
      {
        assert old(n != z ==> HeightOk(n) && ColorOk(n)) && UpOk(n);
      }
    }

    method BlackRoot()
      requires Links() && root in nodes && Heights()
      requires forall n {:trigger ColorOk(n)} :: n in nodes && n != root ==> ColorOk(n)
      modifies root`color, root`bh
      ensures Links() && Balanced()
    {
      ghost var r := root;
      assert HeightOk(r);
      r.bh := if r.color == Red then r.bh + 1 else r.bh;
      root.color := Black;
      forall n | n in nodes
        ensures HeightOk(n)
      {
        assert old(HeightOk(n)) && LeftOk(n) && RightOk(n);
      }
      forall n | n in nodes
        ensures ColorOk(n)
      {
        assert old(n != r ==> ColorOk(n));
      }
    }

    // One turn of the rebalancing loop, when the parent of x is a left child.
    method FixLeft(x0: Node) returns (x: Node, ghost done: bool)
      requires Links() && RedAt(x0) && x0 != root && IsRed(x0.parent)
      requires Family(x0, x0.parent, x0.parent.parent) && x0.parent == x0.parent.parent.left
      modifies this`root, nodes`left, nodes`right, nodes`parent, nodes`lo, nodes`hi, nil`left, nil`right, nil`parent
      modifies nodes`color, nodes`bh
      ensures x in nodes && Links()
      ensures if done then Balanced() && !IsRed(x.parent) else RedAt(x) && x.hi - x.lo > old(x0.hi - x0.lo)
    {
      Grandparent(x0);
      assert RightOk(x0.parent.parent) && UpOk(x0);
      x := x0;
      var y := x.parent.parent.right;
      if y != nil && y.color == Red {
        Recolor(x);
        x := x.parent.parent;
        done := false;
      } else {
        if x == x.parent.right {
          x := x.parent;
          InnerLeft(x0);
        }
        OuterRight(x);
        done := true;
      }
    }

    // One turn of the rebalancing loop, when the parent of x is a right child.
    method FixRight(x0: Node) returns (x: Node, ghost done: bool)
      requires Links() && RedAt(x0) && x0 != root && IsRed(x0.parent)
      requires Family(x0, x0.parent, x0.parent.parent) && x0.parent == x0.parent.parent.right
      modifies this`root, nodes`left, nodes`right, nodes`parent, nodes`lo, nodes`hi, nil`left, nil`right, nil`parent
      modifies nodes`color, nodes`bh
      ensures x in nodes && Links()
      ensures if done then Balanced() && !IsRed(x.parent) else RedAt(x) && x.hi - x.lo > old(x0.hi - x0.lo)
    {
      Grandparent(x0);
      assert LeftOk(x0.parent.parent) && UpOk(x0);
      x := x0;
      var y := x.parent.parent.left;
      if y != nil && y.color == Red {
        Recolor(x);
        x := x.parent.parent;
        done := false;
      } else {
        if x == x.parent.left {
          x := x.parent;
          InnerRight(x0);
        }
        OuterLeft(x);
        done := true;
      }
    }

    method BalanceOnInsert(z: Node)
      requires NilOk() && Links() && NewLeaf(z)
      modifies this`root, nodes`left, nodes`right, nodes`parent, nodes`lo, nodes`hi, nil`left, nil`right, nil`parent
      modifies nodes`color, nodes`bh
      ensures NilOk() && Links() && Balanced()
    {
      z.color := Red;
      var x := z;
      PaintedRed(z);
      ghost var done := false;
      while x != root && x.parent.color == Red
        invariant x in nodes && NilOk() && Links()
        invariant if done then Balanced() && !IsRed(x.parent) else RedAt(x)
        decreases if done then -1 else |inOrder| - (x.hi - x.lo)
      {
        assert UpOk(x) && LeftOk(x) && RightOk(x);
        Grandparent(x);
        if x.parent == x.parent.parent.left {
          x, done := FixLeft(x);
        } else {
          x, done := FixRight(x);
        }
        assert LeftOk(x) && RightOk(x);
      }
      assert UpOk(x);
      if done { assert UpOk(root); }
      BlackRoot();
    }

    // ---- Insertion ----

    // How d compares with element i.
    ghost function CompareAt(d: Data, i: int): int
      requires 0 <= i < |inOrder|
      reads this`inOrder, inOrder`data
    {
      compare(d, inOrder[i].data)
    }

    // No element before gap k is greater than d.
    ghost predicate NotLess(d: Data, k: int)
      reads this`inOrder, inOrder`data
    {
      forall i {:trigger CompareAt(d, i)} :: 0 <= i < k && i < |inOrder| ==> CompareAt(d, i) >= 0
    }

    // Every element from gap k on is greater than d.
    ghost predicate Less(d: Data, k: int)
      reads this`inOrder, inOrder`data
    {
      forall i {:trigger CompareAt(d, i)} :: 0 <= i && k <= i < |inOrder| ==> CompareAt(d, i) < 0
    }

    // What one comparison says about the whole sequence.
    lemma CompareTo(d: Data, x: Node)
      requires Ordered() && TotalPreorder(compare) && x in nodes
      ensures compare(d, x.data) < 0 ==> Less(d, x.pos)
      ensures compare(d, x.data) >= 0 ==> NotLess(d, x.pos + 1)
    {
      assert Placed(x);
      forall i | 0 <= i < |inOrder|
        ensures i >= x.pos && compare(d, x.data) < 0 ==> CompareAt(d, i) < 0
        ensures i <= x.pos && compare(d, x.data) >= 0 ==> CompareAt(d, i) >= 0
      {
        if i <= x.pos { assert InOrder(i, x.pos); } else { assert InOrder(x.pos, i); }
        LessTrans(compare, d, x.data, inOrder[i].data);
        LessTrans(compare, d, inOrder[i].data, x.data);
      }
    }

    // y has a free link at gap k: its left one, or its right one.
    ghost predicate FreeLink(y: Node, k: int, left: bool)
      reads this`root, this`nodes, nodes`left, nodes`right, nodes`pos
    {
      if y == nil then root == nil && k == 0 else
        y in nodes && (if left then y.left == nil && k == y.pos else y.right == nil && k == y.pos + 1)
    }

    // x is the link of y that the descent has followed; the gap is inside [lo, hi).
    ghost predicate Descent(x: Node, y: Node, left: bool, lo: int, hi: int)
      reads this`root, this`nodes, this`inOrder, nodes`left, nodes`right, nodes`pos, nodes`lo, nodes`hi
    {
      && (if x == nil then lo == hi else x in nodes && x.lo == lo && x.hi == hi)
      && (if y == nil then x == root && lo == 0 && hi == |inOrder| else
          y in nodes && (if left then x == y.left && hi == y.pos else x == y.right && lo == y.pos + 1))
    }

    // The descent of _std_rbtree_insert: the gap k where d belongs, after every
    // element that is not greater, and the node y that has a free link there.
    method FindPlace(d: Data) returns (y: Node, ghost k: int, ghost left: bool)
      requires NilOk() && Links() && Ordered() && TotalPreorder(compare)
      ensures 0 <= k <= |inOrder| && NotLess(d, k) && Less(d, k)
      ensures FreeLink(y, k, left) && (y != nil ==> (left <==> compare(d, y.data) < 0))
    {
      y := nil;
      var x := root;
      left := false;
      ghost var lo, hi := 0, |inOrder|;
      while x != nil
        invariant Descent(x, y, left, lo, hi) && 0 <= lo <= hi <= |inOrder|
        invariant y != nil ==> (left <==> compare(d, y.data) < 0)
        invariant NotLess(d, lo) && Less(d, hi)
        decreases hi - lo, x != nil
      {
        assert LeftOk(x) && RightOk(x);
        y := x;
        CompareTo(d, x);
        if compare(d, x.data) < 0 {
          left, hi := true, x.pos;
          x := x.left;
        } else {
          left, lo := false, x.pos + 1;
          x := x.right;
        }
      }
      k := lo;
    }

    static function Up(v: int, k: int): int {
      if v >= k then v + 1 else v
    }

    // The gap in the slices that a new element at k opens: a new left child
    // does not widen the slices that end at k, a new right child does.
    static function Gap(k: int, left: bool): int {
      if left then k + 1 else k
    }

    ghost method Shift(k: int, gap: int)
      modifies nodes`lo, nodes`pos, nodes`hi
      ensures forall n <- nodes ::
        n.lo == Up(old(n.lo), gap) && n.pos == Up(old(n.pos), k) && n.hi == Up(old(n.hi), gap)
    {
      forall n | n in nodes {
        n.lo := Up(n.lo, gap);
      }
      forall n | n in nodes {
        n.pos := Up(n.pos, k);
      }
      forall n | n in nodes {
        n.hi := Up(n.hi, gap);
      }
    }

    twostate predicate Attached(z: Node, y: Node, k: int, left: bool)
      reads *
    {
      && z.parent == y && old(FreeLink(y, k, left)) && 0 <= k <= |old(inOrder)|
      && z !in old(nodes) && z != nil && nodes == old(nodes) + {z}
      && inOrder == old(inOrder)[..k] + [z] + old(inOrder)[k..]
      && z.left == nil && z.right == nil && z.lo == k && z.pos == k && z.hi == k + 1
      && (if y == nil then root == z else
          && root == old(root)
          && (if left then y.left == z && y.right == old(y.right)
              else y.right == z && y.left == old(y.left)))
      && (forall n <- old(nodes) ::
            && n.lo == Up(old(n.lo), Gap(k, left)) && n.pos == Up(old(n.pos), k) && n.hi == Up(old(n.hi), Gap(k, left))
            && n.parent == old(n.parent)
            && (n != y ==> n.left == old(n.left) && n.right == old(n.right)))
    }

    twostate lemma AttachedKeepsLeft(z: Node)
      requires var y := z.parent; old(allocated(y)) && old(Links() && Ordered()) && Attached(z, y, z.pos, y.left == z)
      ensures forall n {:trigger LeftOk(n)} :: n in nodes ==> LeftOk(n)
    {
      ghost var y := z.parent;
      forall n | n in nodes
        ensures LeftOk(n)
      {
        if n != z {
          assert old(LeftOk(n)) && old(Placed(n)) && (y != nil ==> old(Placed(y)));
        }
      }
    }

    twostate lemma AttachedKeepsRight(z: Node)
      requires var y := z.parent; old(allocated(y)) && old(Links() && Ordered()) && Attached(z, y, z.pos, y.left == z)
      ensures forall n {:trigger RightOk(n)} :: n in nodes ==> RightOk(n)
    {
      ghost var y := z.parent;
      forall n | n in nodes
        ensures RightOk(n)
      {
        if n != z {
          assert old(RightOk(n)) && old(Placed(n)) && (y != nil ==> old(Placed(y)));
        }
      }
    }

    twostate lemma AttachedKeepsUp(z: Node)
      requires var y := z.parent; old(allocated(y)) && old(Links() && Ordered()) && Attached(z, y, z.pos, y.left == z)
      ensures (forall n {:trigger UpOk(n)} :: n in nodes ==> UpOk(n)) && RootOk()
    {
      ghost var y := z.parent;
      if y != nil {
        assert old(LeftOk(y)) && old(RightOk(y)) && old(UpOk(y));
      }
      if old(root) != nil {
        assert old(LeftOk(root)) && old(RightOk(root)) && old(Placed(root));
      }
      forall n | n in nodes
        ensures UpOk(n)
      {
        if n != z {
          assert old(UpOk(n));
        }
      }
    }

    twostate lemma AttachedKeepsBalance(z: Node)
      requires var y := z.parent; old(allocated(y)) && old(Links() && Balanced()) && Attached(z, y, z.pos, y.left == z)
      requires z.bh == 0 && forall n <- old(nodes) :: n.color == old(n.color) && n.bh == old(n.bh)
      ensures forall n {:trigger HeightOk(n)} {:trigger ColorOk(n)} :: n in nodes && n != z ==>
        HeightOk(n) && ColorOk(n)
      ensures root != z ==> !IsRed(root)
    {
      forall n | n in nodes && n != z
        ensures HeightOk(n) && ColorOk(n)
      {
        assert old(HeightOk(n)) && old(ColorOk(n)) && old(UpOk(n)) && old(LeftOk(n)) && old(RightOk(n));
      }
      if z.parent == nil { assert root == z; } else { assert root == old(root); }
    }

    twostate lemma AttachedKeepsPlaces(z: Node)
      requires var y := z.parent; old(allocated(y)) && old(Ordered()) && Attached(z, y, z.pos, y.left == z)
      ensures Places()
    {
      forall n | n in nodes
        ensures Placed(n)
      {
        if n != z { assert old(Placed(n)); }
      }
      ghost var k := z.pos;
      forall i | 0 <= i < |inOrder|
        ensures Slot(i)
      {
        if i < k { assert old(Slot(i)); } else if i > k { assert old(Slot(i - 1)); }
      }
    }

    twostate lemma AttachedKeepsData(z: Node)
      requires var y := z.parent; old(allocated(y)) && old(Ordered()) && Attached(z, y, z.pos, y.left == z)
      requires z.data == old(z.data) && forall n <- old(nodes) :: n.data == old(n.data)
      requires var k := z.pos; old(NotLess(z.data, k) && Less(z.data, k))
      ensures NotLess(z.data, z.pos) && Less(z.data, z.pos + 1)
    {
      ghost var k := z.pos;
      forall i | 0 <= i < |inOrder|
        ensures (i < k ==> CompareAt(z.data, i) >= 0) && (i > k ==> CompareAt(z.data, i) < 0)
      {
        if i < k { assert old(Slot(i)) && old(CompareAt(z.data, i)) >= 0; }
        if i > k { assert old(Slot(i - 1)) && old(CompareAt(z.data, i - 1)) < 0; }
      }
    }

    twostate lemma AttachedKeepsOrder(z: Node)
      requires var y := z.parent; old(allocated(y)) && old(Ordered()) && Attached(z, y, z.pos, y.left == z)
      requires z.data == old(z.data) && forall n <- old(nodes) :: n.data == old(n.data)
      requires var k := z.pos; old(NotLess(z.data, k) && Less(z.data, k))
      requires TotalPreorder(compare) && NotLess(z.data, z.pos) && Less(z.data, z.pos + 1)
      ensures Sorted()
    {
      ghost var k := z.pos;
      forall i, j | 0 <= i <= j < |inOrder|
        ensures InOrder(i, j)
      {
        ghost var i', j' := if i < k then i else i - 1, if j < k then j else j - 1;
        if i == k && j == k {
        } else if i == k {
          assert CompareAt(z.data, j) < 0;
        } else if j == k {
          assert CompareAt(z.data, i) >= 0;
        } else {
          assert old(Slot(i')) && old(Slot(j')) && old(InOrder(i', j'));
          assert inOrder[i] == old(inOrder)[i'] && inOrder[j] == old(inOrder)[j'];
        }
      }
    }

    method BareLeaf(z: Node, y: Node, ghost k: int)
      modifies z`parent, z`left, z`right, z`lo, z`pos, z`hi, z`bh
      ensures z.parent == y && z.left == nil && z.right == nil && z.lo == z.pos == k && z.hi == k + 1 && z.bh == 0
    {
      z.parent := y;
      z.left, z.right := nil, nil;
      z.lo, z.pos, z.hi, z.bh := k, k, k + 1, 0;
    }

    // Links z under y and rebuilds the ghost positions.
    method Attach(z: Node, y: Node, ghost k: int, ghost left: bool)
      requires z !in nodes && z != nil && y != z && (if y == nil then nodes == {} else y in nodes && y.left != z)
      requires y != nil ==> (left <==> compare(z.data, y.data) < 0)
      requires FreeLink(y, k, left) && 0 <= k <= |inOrder|
      modifies this`root, this`nodes, this`inOrder, z, nodes`left, nodes`right, nodes`lo, nodes`pos, nodes`hi
      ensures z.parent == y && Attached(z, y, k, y.left == z) && z.pos == k && z.bh == 0 && z.data == old(z.data)
    {
      Shift(k, Gap(k, left));
      BareLeaf(z, y, k);
      if y == nil {
        root := z;
      } else if compare(z.data, y.data) < 0 {
        y.left := z;
      } else {
        y.right := z;
      }
      nodes := nodes + {z};
      inOrder := inOrder[..k] + [z] + inOrder[k..];
    }

    // z stands after every element that is not greater and before every greater one.
    ghost predicate AfterEquals(z: Node)
      reads this`inOrder, inOrder`data, z`data, z`pos
    {
      NotLess(z.data, z.pos) && Less(z.data, z.pos + 1)
    }

    // The first half of _std_rbtree_insert, up to the call that rebalances.
    method Link(z: Node)
      requires NilOk() && Links() && Ordered() && Balanced() && TotalPreorder(compare) && z !in nodes && z != nil
      modifies this`root, this`nodes, this`inOrder, z, nodes`left, nodes`right, nodes`lo, nodes`pos, nodes`hi
      ensures NilOk() && Links() && Ordered() && NewLeaf(z) && z.data == old(z.data)
      ensures nodes == old(nodes) + {z} && 0 <= z.pos <= |old(inOrder)| && |inOrder| == |old(inOrder)| + 1
      ensures inOrder == old(inOrder)[..z.pos] + [z] + old(inOrder)[z.pos..]
      ensures AfterEquals(z)
    {
      var y, k, left := FindPlace(z.data);
      if y != nil { assert LeftOk(y); }
      Attach(z, y, k, left);
      AttachedKeepsLeft(z);
      AttachedKeepsRight(z);
      AttachedKeepsUp(z);
      AttachedKeepsBalance(z);
      AttachedKeepsPlaces(z);
      AttachedKeepsData(z);
      AttachedKeepsOrder(z);
    }

    method Insert(z: Node) returns (r: Node)
      requires Valid() && TotalPreorder(compare) && z !in nodes && z != nil
      modifies this`root, this`nodes, this`inOrder, this`numInserts, this`numInodes, z
      modifies nodes`left, nodes`right, nodes`parent, nodes`lo, nodes`pos, nodes`hi, nodes`color, nodes`bh
      modifies nil`left, nil`right, nil`parent
      ensures Valid() && r == z && z.data == old(z.data)
      ensures nodes == old(nodes) + {z}
      ensures 0 <= z.pos <= |old(inOrder)| && inOrder == old(inOrder)[..z.pos] + [z] + old(inOrder)[z.pos..]
      ensures AfterEquals(z)
      ensures numInserts == old(numInserts) + 1 && numRemoved == old(numRemoved)
    {
      Link(z);
      Settle(z);
      r := z;
    }

    // The second half.
    method Settle(z: Node)
      requires NilOk() && Links() && Ordered() && NewLeaf(z) && |inOrder| == numInodes + 1
      modifies this`root, this`numInserts, this`numInodes, nodes`left, nodes`right, nodes`parent, nodes`lo, nodes`hi
      modifies nodes`color, nodes`bh, nil`left, nil`right, nil`parent
      ensures Valid() && numInserts == old(numInserts) + 1
    {
      BalanceOnInsert(z);
      CountInsertion();
    }

    method CountInsertion()
      requires NilOk() && Links() && Ordered() && Balanced() && |inOrder| == numInodes + 1
      modifies this`numInserts, this`numInodes
      ensures Valid() && numInserts == old(numInserts) + 1
    {
      numInserts := numInserts + 1;
      numInodes := numInodes + 1;
    }

    // ---- Rebalancing after a removal ----

    // The missing black node on the paths through x.
    ghost function Missing(n: Node, c: Node, x: Node): int
      reads x`parent
    {
      if n == x.parent && c == x then 1 else 0
    }

    // HeightOk, if the paths through x are taken to hold one more black node than they do.
    ghost predicate ShortOk(n: Node, x: Node)
      requires n in nodes
      reads this`nodes, nodes`left, nodes`right, nodes`color, nodes`bh, x`parent
    {
      && BlackHeight(n.left) + Missing(n, n.left, x) == BlackHeight(n.right) + Missing(n, n.right, x)
      && n.bh == BlackHeight(n.left) + Missing(n, n.left, x) + (if n.color == Black then 1 else 0)
    }

    // Every red-black rule holds, except that the paths through x lack a black
    // node, and that x may be red next to a red parent or child.
    // x may be the sentinel: its parent field then says where it hangs.
    ghost predicate ShortAt(x: Node)
      reads this`root, this`nodes, nodes`left, nodes`right, nodes`parent, nodes`color, nodes`bh, x`parent
    {
      && (x == nil || x in nodes)
      && (if x.parent == nil then x == root else
          x.parent in nodes && (x.parent.left == x || x.parent.right == x) && x.parent.left != x.parent.right)
      && (forall n {:trigger ShortOk(n, x)} :: n in nodes ==> ShortOk(n, x))
      && (forall n {:trigger ColorOk(n)} :: n in nodes && n != x && n.parent != x ==> ColorOk(n))
      && (IsRed(root) ==> root == x)
    }

    // x and w are the two children of p.
    ghost predicate Brothers(x: Node, w: Node, p: Node)
      reads this`nodes, nodes`left, nodes`right, nodes`parent, x`parent
    {
      && p in nodes && w in nodes && p == x.parent && w.parent == p && w != x && p != x && p != w
      && (if p.left == x then p.right == w else p.left == w && p.right == x)
    }

    // A black x below the root has a sibling in the tree, and nephews of the height that is needed:
    // the walk never meets the sentinel as a sibling.
    lemma SiblingExists(x: Node)
      requires NilOk() && Links() && ShortAt(x) && x != root && !IsRed(x)
      ensures x.parent in nodes && Brothers(x, Other(x, x.parent), x.parent)
      ensures var w := Other(x, x.parent);
        && BlackHeight(w) == BlackHeight(x) + 1
        && (IsRed(w) ==>
              && w.left in nodes && w.right in nodes && !IsRed(w.left) && !IsRed(w.right)
              && !IsRed(x.parent) && x.parent.bh >= 2)
        && x.parent.bh >= 1
    {
      if x != nil { assert UpOk(x) && LeftOk(x) && RightOk(x); }
      var p := x.parent;
      var w := Other(x, p);
      assert ShortOk(p, x) && LeftOk(p) && RightOk(p);
      assert w in nodes && w != p;
      assert ShortOk(w, x) && ColorOk(w) && LeftOk(w) && RightOk(w);
      if IsRed(w) {
        assert ColorOk(w.left) && ColorOk(w.right);
      }
    }

    // The nephew next to x, and the one further away.
    ghost function Near(x: Node): Node
      reads *
    {
      if x == x.parent.left then x.parent.right.left else x.parent.left.right
    }

    ghost function Far(x: Node): Node
      reads *
    {
      if x == x.parent.left then x.parent.right.right else x.parent.left.left
    }

    // The red sibling w rises above p; x keeps its deficit and gets a black sibling.
    twostate predicate RedSiblingStep(x: Node, w: Node, p: Node)
      reads *
    {
      && old(Links() && ShortAt(x) && Brothers(x, w, p) && IsRed(w) && !IsRed(x) && !IsRed(p))
      && x.parent == p
      && Rotated(p, w, old(Near(x)), old(p.parent)) && (old(p.left) == x <==> old(p.right) == w)
      && w.color == Black && w.bh == old(w.bh) + 1 && p.color == Red && p.bh == old(p.bh) - 1
      && (forall n <- nodes :: n != w && n != p ==> n.color == old(n.color) && n.bh == old(n.bh))
    }

    twostate lemma RedSiblingKeepsHeights(x: Node)
      requires RedSiblingStep(x, old(Other(x, x.parent)), old(x.parent))
      ensures forall n {:trigger ShortOk(n, x)} :: n in nodes ==> ShortOk(n, x)
    {
      ghost var p, w := old(x.parent), old(Other(x, x.parent));
      assert old(ShortOk(p, x)) && old(ShortOk(w, x));
      assert old(LeftOk(p)) && old(RightOk(p)) && old(LeftOk(w)) && old(RightOk(w));
      forall n | n in nodes
        ensures ShortOk(n, x)
      {
        assert old(ShortOk(n, x)) && old(UpOk(n));
      }
    }

    twostate lemma RedSiblingKeepsColors(x: Node)
      requires RedSiblingStep(x, old(Other(x, x.parent)), old(x.parent))
      ensures forall n {:trigger ColorOk(n)} :: n in nodes && n != x && n.parent != x ==> ColorOk(n)
    {
      ghost var p, w := old(x.parent), old(Other(x, x.parent));
      assert old(LeftOk(p)) && old(RightOk(p)) && old(LeftOk(w)) && old(RightOk(w)) && old(ColorOk(w));
      if old(Near(x)) in nodes { assert old(ColorOk(Near(x))); }
      forall n | n in nodes && n != x && n.parent != x
        ensures ColorOk(n)
      {
        assert old(n != x && n.parent != x ==> ColorOk(n)) && old(UpOk(n));
      }
    }

    method PaintRedSibling(w: Node, p: Node)
      requires w != p && p.bh >= 1
      modifies w`color, w`bh, p`color, p`bh
      ensures w.color == Black && p.color == Red
      ensures w.bh == old(w.bh) + 1 && p.bh == old(p.bh) - 1
    {
      w.color := Black;
      p.color := Red;
      w.bh := w.bh + 1;
      p.bh := p.bh - 1;
    }

    method RedSiblingLeft(x: Node)
      requires NilOk() && Links() && ShortAt(x) && x != root && !IsRed(x) && x == x.parent.left && IsRed(x.parent.right)
      modifies this`root, nodes`left, nodes`right, nodes`parent, nodes`lo, nodes`hi, nil`left, nil`right, nil`parent
      modifies nodes`color, nodes`bh
      ensures NilOk() && Links() && ShortAt(x) && x != root && !IsRed(x)
      ensures x.parent == old(x.parent) && x.parent in nodes && x == x.parent.left && !IsRed(x.parent.right)
      ensures x.lo == old(x.lo) && x.hi == old(x.hi)
    {
      SiblingExists(x);
      assert UpOk(x.parent) && LeftOk(x.parent.right) && RightOk(x.parent.right);
      PaintRedSibling(x.parent.right, x.parent);
      RotateLeft(x.parent);
      RedSiblingKeepsHeights(x);
      RedSiblingKeepsColors(x);
      assert RightOk(x.parent);
    }

    method RedSiblingRight(x: Node)
      requires NilOk() && Links() && ShortAt(x) && x != root && !IsRed(x) && x == x.parent.right && IsRed(x.parent.left)
      modifies this`root, nodes`left, nodes`right, nodes`parent, nodes`lo, nodes`hi, nil`left, nil`right, nil`parent
      modifies nodes`color, nodes`bh
      ensures NilOk() && Links() && ShortAt(x) && x != root && !IsRed(x)
      ensures x.parent == old(x.parent) && x.parent in nodes && x == x.parent.right && !IsRed(x.parent.left)
      ensures x.lo == old(x.lo) && x.hi == old(x.hi)
    {
      SiblingExists(x);
      assert UpOk(x.parent) && RightOk(x.parent.left) && LeftOk(x.parent.left);
      PaintRedSibling(x.parent.left, x.parent);
      RotateRight(x.parent);
      RedSiblingKeepsHeights(x);
      RedSiblingKeepsColors(x);
      assert LeftOk(x.parent);
    }

    // The black sibling w with two black children turns red: the deficit moves up to p.
    twostate predicate ShortUpStep(x: Node, w: Node, p: Node)
      reads *
    {
      && old(Links() && ShortAt(x) && Brothers(x, w, p) && !IsRed(w) && !IsRed(x) && !IsRed(w.left) && !IsRed(w.right))
      && SameLinks() && x.parent == p
      && w.color == Red && w.bh == old(w.bh) - 1 && p.color == old(p.color) && p.bh == old(p.bh) - 1
      && (forall n <- nodes :: n != w && n != p ==> n.color == old(n.color) && n.bh == old(n.bh))
    }

    twostate lemma ShortUpKeepsOthers(x: Node)
      requires ShortUpStep(x, old(Other(x, x.parent)), old(x.parent))
      ensures var w, p := old(Other(x, x.parent)), x.parent;
        forall n {:trigger ShortOk(n, p)} :: n in nodes && n != w && n != p ==> ShortOk(n, p)
    {
      ghost var p, w := old(x.parent), old(Other(x, x.parent));
      assert old(UpOk(p)) && old(LeftOk(p)) && old(RightOk(p));
      forall n | n in nodes && n != w && n != p
        ensures ShortOk(n, p)
      {
        assert old(ShortOk(n, x)) && old(LeftOk(n)) && old(RightOk(n));
      }
    }

    twostate lemma ShortUpKeepsHeights(x: Node)
      requires ShortUpStep(x, old(Other(x, x.parent)), old(x.parent))
      ensures var p := x.parent; forall n {:trigger ShortOk(n, p)} :: n in nodes ==> ShortOk(n, p)
    {
      ShortUpKeepsOthers(x);
      ghost var p, w := old(x.parent), old(Other(x, x.parent));
      assert old(ShortOk(p, x)) && old(ShortOk(w, x)) && old(UpOk(p));
      assert old(LeftOk(p)) && old(RightOk(p)) && old(LeftOk(w)) && old(RightOk(w));
    }

    twostate lemma ShortUpKeepsColors(x: Node)
      requires ShortUpStep(x, old(Other(x, x.parent)), old(x.parent))
      ensures var p := x.parent; forall n {:trigger ColorOk(n)} :: n in nodes && n != p && n.parent != p ==> ColorOk(n)
    {
      ghost var p, w := old(x.parent), old(Other(x, x.parent));
      forall n | n in nodes && n != p && n.parent != p
        ensures ColorOk(n)
      {
        assert old(n != x && n.parent != x ==> ColorOk(n)) && old(UpOk(n));
      }
    }

    method ShortUp(x: Node, w: Node)
      requires NilOk() && Links() && ShortAt(x) && x != root && !IsRed(x) && w == Other(x, x.parent)
      requires !IsRed(w) && !IsRed(w.left) && !IsRed(w.right)
      modifies nodes`color, nodes`bh
      ensures NilOk() && Links() && ShortAt(x.parent) && x.parent in nodes
    {
      SiblingExists(x);
      ghost var p := x.parent;
      assert UpOk(p);
      if p.parent != nil { assert LeftOk(p.parent) && RightOk(p.parent); }
      w.color := Red;
      w.bh := w.bh - 1;
      p.bh := p.bh - 1;
      ShortUpKeepsHeights(x);
      ShortUpKeepsColors(x);
    }

    // The red near nephew v rises above w and swaps colours with it: the far nephew is then red.
    twostate predicate NearStep(x: Node, v: Node, w: Node, p: Node)
      reads *
    {
      && old(Links() && ShortAt(x) && Brothers(x, w, p) && v == Near(x) && !IsRed(w) && !IsRed(x) && IsRed(v) &&
          !IsRed(Far(x)))
      && x.parent == p
      && Rotated(w, v, old(if x == p.left then v.right else v.left), p)
      && v.color == Black && v.bh == old(v.bh) + 1 && w.color == Red && w.bh == old(w.bh) - 1
      && (forall n <- nodes :: n != w && n != v ==> n.color == old(n.color) && n.bh == old(n.bh))
    }

    twostate lemma NearLeftKeepsHeights(x: Node)
      requires NearStep(x, old(Near(x)), old(Other(x, x.parent)), old(x.parent))
      requires old(x == x.parent.left)
      ensures forall n {:trigger ShortOk(n, x)} :: n in nodes ==> ShortOk(n, x)
    {
      ghost var v, w, p := old(Near(x)), old(Other(x, x.parent)), old(x.parent);
      assert old(ShortOk(v, x)) && old(ShortOk(w, x));
      assert old(LeftOk(v)) && old(RightOk(v)) && old(LeftOk(w)) && old(RightOk(w));
      forall n | n in nodes
        ensures ShortOk(n, x)
      {
        assert old(ShortOk(n, x)) && old(UpOk(n));
      }
    }

    twostate lemma NearRightKeepsHeights(x: Node)
      requires NearStep(x, old(Near(x)), old(Other(x, x.parent)), old(x.parent))
      requires old(x == x.parent.right)
      ensures forall n {:trigger ShortOk(n, x)} :: n in nodes ==> ShortOk(n, x)
    {
      ghost var v, w, p := old(Near(x)), old(Other(x, x.parent)), old(x.parent);
      assert old(ShortOk(v, x)) && old(ShortOk(w, x));
      assert old(LeftOk(v)) && old(RightOk(v)) && old(LeftOk(w)) && old(RightOk(w));
      forall n | n in nodes
        ensures ShortOk(n, x)
      {
        assert old(ShortOk(n, x)) && old(UpOk(n));
      }
    }

    twostate lemma NearKeepsColors(x: Node)
      requires NearStep(x, old(Near(x)), old(Other(x, x.parent)), old(x.parent))
      ensures forall n {:trigger ColorOk(n)} :: n in nodes && n != x && n.parent != x ==> ColorOk(n)
    {
      ghost var v, w, p := old(Near(x)), old(Other(x, x.parent)), old(x.parent);
      assert old(LeftOk(v)) && old(RightOk(v)) && old(LeftOk(w)) && old(RightOk(w)) && old(ColorOk(v));
      forall n | n in nodes && n != x && n.parent != x
        ensures ColorOk(n)
      {
        assert old(n != x && n.parent != x ==> ColorOk(n)) && old(UpOk(n));
      }
    }

    // The far nephew f is red: w rises above p with p's colour, and the deficit is gone.
    twostate predicate FarStep(x: Node, f: Node, w: Node, p: Node)
      reads *
    {
      && old(Links() && ShortAt(x) && Brothers(x, w, p) && f == Far(x) && !IsRed(w) && !IsRed(x) && IsRed(f))
      && Rotated(p, w, old(Near(x)), old(p.parent)) && (old(p.left) == x <==> old(p.right) == w)
      && w.color == old(p.color) && w.bh == old(p.bh)
      && p.color == Black && p.bh == old(w.bh) && f.color == Black && f.bh == old(f.bh) + 1
      && (forall n <- nodes :: n != w && n != p && n != f ==> n.color == old(n.color) && n.bh == old(n.bh))
    }

    twostate lemma FarKeepsOthers(x: Node)
      requires FarStep(x, old(Far(x)), old(Other(x, x.parent)), old(x.parent))
      ensures var f, w, p := old(Far(x)), old(Other(x, x.parent)), old(x.parent);
        forall n {:trigger HeightOk(n)} :: n in nodes && n != f && n != w && n != p ==> HeightOk(n)
    {
      ghost var f, w, p := old(Far(x)), old(Other(x, x.parent)), old(x.parent);
      assert old(LeftOk(p)) && old(RightOk(p)) && old(LeftOk(w)) && old(RightOk(w));
      forall n | n in nodes && n != f && n != w && n != p
        ensures HeightOk(n)
      {
        assert old(ShortOk(n, x)) && old(LeftOk(n)) && old(RightOk(n));
      }
    }

    twostate lemma FarLeftKeepsHeights(x: Node)
      requires FarStep(x, old(Far(x)), old(Other(x, x.parent)), old(x.parent))
      requires old(x == x.parent.left)
      ensures Heights()
    {
      FarKeepsOthers(x);
      ghost var f, w, p := old(Far(x)), old(Other(x, x.parent)), old(x.parent);
      assert old(ShortOk(f, x)) && old(ShortOk(w, x)) && old(ShortOk(p, x));
      assert old(LeftOk(p)) && old(RightOk(p)) && old(LeftOk(w)) && old(RightOk(w)) && old(LeftOk(f)) &&
        old(RightOk(f));
    }

    twostate lemma FarRightKeepsHeights(x: Node)
      requires FarStep(x, old(Far(x)), old(Other(x, x.parent)), old(x.parent))
      requires old(x == x.parent.right)
      ensures Heights()
    {
      FarKeepsOthers(x);
      ghost var f, w, p := old(Far(x)), old(Other(x, x.parent)), old(x.parent);
      assert old(ShortOk(f, x)) && old(ShortOk(w, x)) && old(ShortOk(p, x));
      assert old(LeftOk(p)) && old(RightOk(p)) && old(LeftOk(w)) && old(RightOk(w)) && old(LeftOk(f)) &&
        old(RightOk(f));
    }

    twostate lemma FarKeepsColors(x: Node)
      requires FarStep(x, old(Far(x)), old(Other(x, x.parent)), old(x.parent))
      ensures forall n {:trigger ColorOk(n)} :: n in nodes ==> ColorOk(n)
    {
      ghost var f, w, p := old(Far(x)), old(Other(x, x.parent)), old(x.parent);
      assert old(LeftOk(p)) && old(RightOk(p)) && old(LeftOk(w)) && old(RightOk(w)) && old(UpOk(p));
      if x != nil { assert old(LeftOk(x)) && old(RightOk(x)); }
      assert old(ColorOk(p));
      forall n | n in nodes
        ensures ColorOk(n)
      {
        assert old(n != x && n.parent != x ==> ColorOk(n)) && old(UpOk(n));
      }
    }

    ghost function Width(x: Node): int
      reads this`nodes, x`lo, x`hi
    {
      if x in nodes then x.hi - x.lo else 0
    }

    method PaintNear(v: Node, w: Node)
      requires v != w && w.bh >= 1
      modifies v`color, v`bh, w`color, w`bh
      ensures v.color == Black && w.color == Red && v.bh == old(v.bh) + 1 && w.bh == old(w.bh) - 1
    {
      v.color := Black;
      w.color := Red;
      v.bh := v.bh + 1;
      w.bh := w.bh - 1;
    }

    method PaintFar(w: Node, p: Node, f: Node)
      requires w != p && w != f && p != f
      modifies w`color, w`bh, p`color, p`bh, f`color, f`bh
      ensures w.color == old(p.color) && p.color == Black && f.color == Black
      ensures w.bh == old(p.bh) && p.bh == old(w.bh) && f.bh == old(f.bh) + 1
    {
      w.color := p.color;
      p.color := Black;
      f.color := Black;
      w.bh, p.bh, f.bh := p.bh, w.bh, f.bh + 1;
    }

    method NearLeft(x: Node)
      requires NilOk() && Links() && ShortAt(x) && x != root && !IsRed(x) && x == x.parent.left
      requires x.parent.right in nodes && !IsRed(x.parent.right) && IsRed(x.parent.right.left) &&
        !IsRed(x.parent.right.right)
      modifies this`root, nodes`left, nodes`right, nodes`parent, nodes`lo, nodes`hi, nil`left, nil`right, nil`parent
      modifies nodes`color, nodes`bh
      ensures NilOk() && Links() && ShortAt(x) && x != root && !IsRed(x)
      ensures x.parent == old(x.parent) && x.parent in nodes && x == x.parent.left
      ensures x.parent.right in nodes && !IsRed(x.parent.right) && IsRed(x.parent.right.right)
    {
      SiblingExists(x);
      assert LeftOk(x.parent.right) && RightOk(x.parent.right.left) && ShortOk(x.parent.right, x);
      PaintNear(x.parent.right.left, x.parent.right);
      RotateRight(x.parent.right);
      NearLeftKeepsHeights(x);
      NearKeepsColors(x);
      assert RightOk(x.parent);
    }

    method FarLeft(x: Node)
      requires NilOk() && Links() && ShortAt(x) && x != root && !IsRed(x) && x == x.parent.left
      requires x.parent.right in nodes && !IsRed(x.parent.right) && IsRed(x.parent.right.right)
      modifies this`root, nodes`left, nodes`right, nodes`parent, nodes`lo, nodes`hi, nil`left, nil`right, nil`parent
      modifies nodes`color, nodes`bh
      ensures NilOk() && Links() && Balanced()
    {
      SiblingExists(x);
      assert LeftOk(x.parent.right) && RightOk(x.parent.right) && UpOk(x.parent);
      PaintFar(x.parent.right, x.parent, x.parent.right.right);
      RotateLeft(x.parent);
      FarLeftKeepsHeights(x);
      FarKeepsColors(x);
    }

    // One turn of the rebalancing loop, when x is a left child.
    method FixShortLeft(x0: Node) returns (x: Node, ghost done: bool)
      requires NilOk() && Links() && ShortAt(x0) && x0 != root && !IsRed(x0) && x0 == x0.parent.left
      modifies this`root, nodes`left, nodes`right, nodes`parent, nodes`lo, nodes`hi, nil`left, nil`right, nil`parent
      modifies nodes`color, nodes`bh
      ensures NilOk() && Links() && (x == nil || x in nodes)
      ensures if done then Balanced() && x == root else ShortAt(x) && Width(x) > old(Width(x0))
    {
      x := x0;
      SiblingExists(x);
      var w := x.parent.right;
      if w.color == Red {
        RedSiblingLeft(x);
        w := x.parent.right;
      }
      SiblingExists(x);
      assert LeftOk(w) && RightOk(w);
      // w cannot be the sentinel, so the loop is never left from here.
      if w.left.color == Black && w.right.color == Black {
        ShortUp(x, w);
        x := x.parent;
        assert LeftOk(x) && RightOk(x);
        done := false;
      } else {
        if w.right.color == Black {
          NearLeft(x);
        }
        FarLeft(x);
        x := root;
        done := true;
      }
    }

    method NearRight(x: Node)
      requires NilOk() && Links() && ShortAt(x) && x != root && !IsRed(x) && x == x.parent.right
      requires x.parent.left in nodes && !IsRed(x.parent.left) && IsRed(x.parent.left.right) &&
        !IsRed(x.parent.left.left)
      modifies this`root, nodes`left, nodes`right, nodes`parent, nodes`lo, nodes`hi, nil`left, nil`right, nil`parent
      modifies nodes`color, nodes`bh
      ensures NilOk() && Links() && ShortAt(x) && x != root && !IsRed(x)
      ensures x.parent == old(x.parent) && x.parent in nodes && x == x.parent.right
      ensures x.parent.left in nodes && !IsRed(x.parent.left) && IsRed(x.parent.left.left)
    {
      SiblingExists(x);
      assert RightOk(x.parent.left) && LeftOk(x.parent.left.right) && ShortOk(x.parent.left, x);
      PaintNear(x.parent.left.right, x.parent.left);
      RotateLeft(x.parent.left);
      NearRightKeepsHeights(x);
      NearKeepsColors(x);
      assert LeftOk(x.parent);
    }

    method FarRight(x: Node)
      requires NilOk() && Links() && ShortAt(x) && x != root && !IsRed(x) && x == x.parent.right
      requires x.parent.left in nodes && !IsRed(x.parent.left) && IsRed(x.parent.left.left)
      modifies this`root, nodes`left, nodes`right, nodes`parent, nodes`lo, nodes`hi, nil`left, nil`right, nil`parent
      modifies nodes`color, nodes`bh
      ensures NilOk() && Links() && Balanced()
    {
      SiblingExists(x);
      assert RightOk(x.parent.left) && LeftOk(x.parent.left) && UpOk(x.parent);
      PaintFar(x.parent.left, x.parent, x.parent.left.left);
      RotateRight(x.parent);
      FarRightKeepsHeights(x);
      FarKeepsColors(x);
    }

    // One turn of the rebalancing loop, when x is a right child.
    method FixShortRight(x0: Node) returns (x: Node, ghost done: bool)
      requires NilOk() && Links() && ShortAt(x0) && x0 != root && !IsRed(x0) && x0 == x0.parent.right
      modifies this`root, nodes`left, nodes`right, nodes`parent, nodes`lo, nodes`hi, nil`left, nil`right, nil`parent
      modifies nodes`color, nodes`bh
      ensures NilOk() && Links() && (x == nil || x in nodes)
      ensures if done then Balanced() && x == root else ShortAt(x) && Width(x) > old(Width(x0))
    {
      x := x0;
      SiblingExists(x);
      var w := x.parent.left;
      if w.color == Red {
        RedSiblingRight(x);
        w := x.parent.left;
      }
      SiblingExists(x);
      assert RightOk(w) && LeftOk(w);
      // w cannot be the sentinel, so the loop is never left from here.
      if w.right.color == Black && w.left.color == Black {
        ShortUp(x, w);
        x := x.parent;
        assert RightOk(x) && LeftOk(x);
        done := false;
      } else {
        if w.left.color == Black {
          NearRight(x);
        }
        FarRight(x);
        x := root;
        done := true;
      }
    }

    twostate lemma PaintedShort(x: Node)
      requires old(Links() && (ShortAt(x) || (Balanced() && x == root)) && (x == root || IsRed(x)))
      requires SameLinks() && x.parent == old(x.parent) && (x in nodes ==> x.color == Black)
      requires x.bh == old(if IsRed(x) then x.bh + 1 else x.bh)
      requires forall n <- nodes :: n != x ==> n.color == old(n.color) && n.bh == old(n.bh)
      ensures Balanced()
    {
      if x in nodes { assert old(UpOk(x)) && old(LeftOk(x)) && old(RightOk(x)); }
      forall n | n in nodes
        ensures HeightOk(n)
      {
        assert old(LeftOk(n)) && old(RightOk(n));
        if old(ShortAt(x)) { assert old(ShortOk(n, x)); } else { assert old(HeightOk(n)); }
      }
      forall n | n in nodes
        ensures ColorOk(n)
      {
        assert old(UpOk(n));
        if old(ShortAt(x)) { assert old(n != x && n.parent != x ==> ColorOk(n)); } else { assert old(ColorOk(n)); }
      }
    }

    // Ends the rebalancing: x takes the missing black node, unless it hangs nowhere.
    method PaintShort(x: Node)
      requires NilOk() && Links() && (ShortAt(x) || (Balanced() && x == root)) && (x == root || IsRed(x))
      modifies x`color, x`bh
      ensures NilOk() && Links() && Balanced()
    {
      ghost var wasRed := IsRed(x);
      if x in nodes { assert UpOk(x) && LeftOk(x) && RightOk(x); }
      x.bh := if wasRed then x.bh + 1 else x.bh;
      x.color := Black;
      PaintedShort(x);
    }

    method BalanceOnRemove(x0: Node)
      requires NilOk() && Links() && ShortAt(x0)
      modifies this`root, nodes`left, nodes`right, nodes`parent, nodes`lo, nodes`hi, nil`left, nil`right, nil`parent
      modifies nodes`color, nodes`bh
      modifies nil`color, nil`bh
      ensures NilOk() && Links() && Balanced()
    {
      var x := x0;
      ghost var done := false;
      while x != root && x.color == Black
        invariant NilOk() && Links() && (x == nil || x in nodes)
        invariant if done then Balanced() && x == root else ShortAt(x)
        decreases if done then -1 else |inOrder| - Width(x)
      {
        if x in nodes { assert LeftOk(x) && RightOk(x); }
        if x == x.parent.left {
          x, done := FixShortLeft(x);
        } else {
          x, done := FixShortRight(x);
        }
        if x in nodes { assert LeftOk(x) && RightOk(x); }
      }
      PaintShort(x);
    }

    // ---- Removal ----

    // From a node without a right child to its successor: the first node above on whose left
    // the node lies.
    method ClimbFromRight(n: Node) returns (y: Node)
      requires NilOk() && Links() && Ordered() && n in nodes && n.right == nil
      ensures if y == nil then n.pos + 1 == |inOrder| else y in nodes && y.pos == n.pos + 1
    {
      var x := n;
      assert LeftOk(n) && RightOk(n);
      y := x.parent;
      while y != nil && x == y.right
        invariant x in nodes && y == x.parent && x.hi == n.pos + 1
        decreases |inOrder| - (x.hi - x.lo)
      {
        assert UpOk(x) && LeftOk(y) && RightOk(y) && LeftOk(x) && RightOk(x);
        x := y;
        y := x.parent;
      }
      assert UpOk(x);
      if y != nil { assert LeftOk(y) && RightOk(y); }
    }

    // The in-order successor.
    method GetNext(n: Node?) returns (r: Node?)
      requires NilOk() && Links() && Ordered() && (n == null || n in nodes)
      ensures n == null ==> r == null
      ensures n != null ==> Placed(n) && if n.pos + 1 < |inOrder| then r == inOrder[n.pos + 1] else r == null
      ensures n != null && n.right != nil ==> r != null && r.left == nil
    {
      if n == null {
        return null;
      }
      var y: Node := n.right;
      assert LeftOk(n) && RightOk(n) && Placed(n);
      if y != nil {
        while y.left != nil
          invariant y in nodes && y.lo == n.pos + 1
          decreases y.hi - y.lo
        {
          assert LeftOk(y) && RightOk(y);
          assert LeftOk(y.left) && RightOk(y.left);
          y := y.left;
        }
        assert LeftOk(y) && RightOk(y);
      } else {
        y := ClimbFromRight(n);
      }
      if y == nil {
        r := null;
      } else {
        assert Placed(y);
        r := y;
      }
    }

    static function Down(v: int, k: int): int {
      if v > k then v - 1 else v
    }

    ghost method Unshift(k: int)
      modifies nodes`lo, nodes`pos, nodes`hi
      ensures forall n <- nodes ::
        n.lo == Down(old(n.lo), k) && n.pos == Down(old(n.pos), k) && n.hi == Down(old(n.hi), k)
    {
      forall n | n in nodes {
        n.lo := Down(n.lo, k);
      }
      forall n | n in nodes {
        n.pos := Down(n.pos, k);
      }
      forall n | n in nodes {
        n.hi := Down(n.hi, k);
      }
    }

    ghost function OnlyChild(y: Node): Node
      reads y
    {
      if y.left != nil then y.left else y.right
    }

    // y has left the chain of parents; its only child x (or the sentinel) hangs in its place.
    twostate predicate Spliced(y: Node, x: Node, p: Node, k: int)
      reads *
    {
      && y in old(nodes) && nodes == old(nodes) - {y} && 0 <= k < |old(inOrder)|
      && inOrder == old(inOrder)[..k] + old(inOrder)[k + 1..]
      && x.parent == p
      && (if p == nil then root == x else
          && root == old(root)
          && (if y == old(p.left) then p.left == x && p.right == old(p.right)
              else p.right == x && p.left == old(p.left)))
      && (forall n <- nodes ::
            && n.lo == Down(old(n.lo), k) && n.pos == Down(old(n.pos), k) && n.hi == Down(old(n.hi), k)
            && (n != x ==> n.parent == old(n.parent))
            && (n != p ==> n.left == old(n.left) && n.right == old(n.right)))
    }

    twostate lemma SplicedKeepsLeft(y: Node)
      requires old(Links() && Ordered() && y in nodes && (y.left == nil || y.right == nil))
      requires Spliced(y, old(OnlyChild(y)), old(y.parent), old(y.pos))
      ensures forall n {:trigger LeftOk(n)} :: n in nodes ==> LeftOk(n)
    {
      assert old(LeftOk(y)) && old(RightOk(y)) && old(UpOk(y)) && old(Placed(y));
      forall n | n in nodes
        ensures LeftOk(n)
      {
        assert old(LeftOk(n)) && old(RightOk(n)) && old(Placed(n));
      }
    }

    twostate lemma SplicedKeepsRight(y: Node)
      requires old(Links() && Ordered() && y in nodes && (y.left == nil || y.right == nil))
      requires Spliced(y, old(OnlyChild(y)), old(y.parent), old(y.pos))
      ensures forall n {:trigger RightOk(n)} :: n in nodes ==> RightOk(n)
    {
      assert old(LeftOk(y)) && old(RightOk(y)) && old(UpOk(y)) && old(Placed(y));
      forall n | n in nodes
        ensures RightOk(n)
      {
        assert old(LeftOk(n)) && old(RightOk(n)) && old(Placed(n));
      }
    }

    twostate lemma SplicedKeepsUp(y: Node)
      requires old(Links() && Ordered() && y in nodes && (y.left == nil || y.right == nil))
      requires Spliced(y, old(OnlyChild(y)), old(y.parent), old(y.pos))
      ensures (forall n {:trigger UpOk(n)} :: n in nodes ==> UpOk(n)) && RootOk()
    {
      assert old(LeftOk(y)) && old(RightOk(y)) && old(UpOk(y)) && old(Placed(y));
      if old(root) == y && root == nil {
        forall n | n in old(nodes)
          ensures n == y
        {
          assert old(Placed(n));
        }
      }
      if old(root) != y { assert old(LeftOk(root)) && old(RightOk(root)) && old(Placed(root)); }
      forall n | n in nodes
        ensures UpOk(n)
      {
        assert old(UpOk(n)) && old(LeftOk(n)) && old(RightOk(n));
      }
    }

    twostate lemma SplicedKeepsPlaces(y: Node)
      requires old(Ordered()) && Spliced(y, old(OnlyChild(y)), old(y.parent), old(y.pos))
      ensures Places()
    {
      ghost var k := old(y.pos);
      assert old(Placed(y));
      forall n | n in nodes
        ensures Placed(n)
      {
        assert old(Placed(n));
      }
      forall i | 0 <= i < |inOrder|
        ensures Slot(i)
      {
        if i < k { assert old(Slot(i)); } else { assert old(Slot(i + 1)); }
      }
    }

    // Taking out a red y breaks nothing; taking out a black one leaves a deficit at its child.
    twostate lemma SplicedBlack(y: Node)
      requires old(Links() && Balanced() && y in nodes && (y.left == nil || y.right == nil))
      requires Spliced(y, old(OnlyChild(y)), old(y.parent), old(y.pos))
      requires forall n <- nodes :: n.color == old(n.color) && n.bh == old(n.bh)
      requires old(y.color) == Black
      ensures var x, p := old(OnlyChild(y)), old(y.parent);
        && (forall n {:trigger ShortOk(n, x)} :: n in nodes ==> ShortOk(n, x))
        && (p != nil ==> p.left != p.right)
    {
      ghost var x, p := old(OnlyChild(y)), old(y.parent);
      assert old(UpOk(y)) && old(HeightOk(y));
      if x in nodes { assert old(HeightOk(x)) && old(LeftOk(y)) && old(RightOk(y)); }
      if p in nodes { assert old(HeightOk(p)) && old(LeftOk(p)) && old(RightOk(p)); }
      forall n | n in nodes
        ensures ShortOk(n, x)
      {
        if n != p { assert old(HeightOk(n)) && old(LeftOk(n)) && old(RightOk(n)); }
      }
    }

    twostate lemma SplicedRed(y: Node)
      requires old(Links() && Balanced() && y in nodes && (y.left == nil || y.right == nil))
      requires Spliced(y, old(OnlyChild(y)), old(y.parent), old(y.pos))
      requires forall n <- nodes :: n.color == old(n.color) && n.bh == old(n.bh)
      requires old(y.color) == Red
      ensures Heights()
    {
      ghost var x, p := old(OnlyChild(y)), old(y.parent);
      assert old(LeftOk(y)) && old(RightOk(y)) && old(UpOk(y)) && old(HeightOk(y));
      if x in nodes { assert old(HeightOk(x)) && old(ColorOk(x)); }
      forall n | n in nodes
        ensures HeightOk(n)
      {
        assert old(HeightOk(n)) && old(LeftOk(n)) && old(RightOk(n));
      }
    }

    twostate lemma SplicedColors(y: Node)
      requires old(Links() && Balanced() && y in nodes && (y.left == nil || y.right == nil))
      requires Spliced(y, old(OnlyChild(y)), old(y.parent), old(y.pos))
      requires forall n <- nodes :: n.color == old(n.color) && n.bh == old(n.bh)
      ensures var x := old(OnlyChild(y));
        forall n {:trigger ColorOk(n)} :: n in nodes && (old(y.color) == Red || (n != x && n.parent != x)) ==>
          ColorOk(n)
    {
      ghost var x, p := old(OnlyChild(y)), old(y.parent);
      assert old(LeftOk(y)) && old(RightOk(y)) && old(UpOk(y)) && old(HeightOk(y));
      if x in nodes { assert old(HeightOk(x)) && old(ColorOk(x)); }
      forall n | n in nodes && (old(y.color) == Red || (n != x && n.parent != x))
        ensures ColorOk(n)
      {
        assert old(ColorOk(n)) && old(UpOk(n));
      }
    }

    // Takes y, which has at most one child, out of the tree and lets that child hang in its place.
    method Unlink(y: Node) returns (x: Node)
      requires y in nodes && nil !in nodes && (y.left == nil || y.right == nil) && Placed(y)
      requires y.parent != y && y.left != y && y.right != y && (OnlyChild(y) != y.parent || y.parent == nil)
      requires y != nil
      modifies this`root, this`nodes, this`inOrder, nodes`left, nodes`right, nodes`parent, nil`left, nil`right
      modifies nil`parent
      modifies y.left`parent, y.right`parent, y.parent`left, y.parent`right, nodes`lo, nodes`pos, nodes`hi
      ensures x == old(OnlyChild(y)) && Spliced(y, x, old(y.parent), old(y.pos))
      ensures y.pos == old(y.pos)
    {
      if y.left != nil {
        x := y.left;
      } else {
        x := y.right;
      }
      x.parent := y.parent;
      if y.parent == nil {
        root := x;
      } else {
        if y == y.parent.left {
          y.parent.left := x;
        } else {
          y.parent.right := x;
        }
      }
      nodes := nodes - {y};
      inOrder := inOrder[..y.pos] + inOrder[y.pos + 1..];
      Unshift(y.pos);
    }

    // y is off the tree. If it was black, the paths through its child lack a black node now.
    method UnlinkAt(y: Node) returns (x: Node)
      requires NilOk() && Links() && Ordered() && Balanced() && y in nodes && (y.left == nil || y.right == nil) &&
        Placed(y)
      modifies this`root, this`nodes, this`inOrder
      modifies nodes`left, nodes`right, nodes`parent, nodes`lo, nodes`pos, nodes`hi, nil`left, nil`right, nil`parent
      ensures NilOk() && Links() && Places() && nodes == old(nodes) - {y}
      ensures inOrder == old(inOrder)[..old(y.pos)] + old(inOrder)[old(y.pos) + 1..]
      ensures if y.color == Black then ShortAt(x) else Balanced()
    {
      assert LeftOk(y) && RightOk(y) && UpOk(y) && Placed(y);
      ghost var p := y.parent;
      if p in nodes { assert LeftOk(p) && RightOk(p); }
      x := Unlink(y);
      SplicedKeepsLeft(y);
      SplicedKeepsRight(y);
      SplicedKeepsUp(y);
      SplicedKeepsPlaces(y);
      SplicedColors(y);
      if y.color == Black { SplicedBlack(y); } else { SplicedRed(y); }
    }

    // The first half of _std_rbtree_remove: y leaves the tree and the balance is restored.
    method Splice(y: Node)
      requires NilOk() && Links() && Ordered() && Balanced() && y in nodes && (y.left == nil || y.right == nil) &&
        Placed(y)
      modifies this`root, this`nodes, this`inOrder
      modifies nodes`left, nodes`right, nodes`parent, nodes`lo, nodes`pos, nodes`hi, nodes`color, nodes`bh
      modifies nil`left, nil`right, nil`parent, nil`color, nil`bh
      ensures NilOk() && Links() && Balanced() && nodes == old(nodes) - {y}
      ensures inOrder == old(inOrder)[..old(y.pos)] + old(inOrder)[old(y.pos) + 1..]
      ensures Places()
    {
      var x := UnlinkAt(y);
      if y.color == Black {
        BalanceOnRemove(x);
      }
    }

    // y has taken the place, the colour and the links of z.
    twostate predicate Relinked(z: Node, y: Node, p: Node, l: Node, r: Node)
      reads *
    {
      && z in old(nodes) && y !in old(nodes) && y != nil && nodes == old(nodes) - {z} + {y}
      && 0 <= old(z.pos) < |old(inOrder)| && inOrder == old(inOrder)[old(z.pos) := y]
      && y.parent == p && y.left == l && y.right == r
      && y.color == old(z.color) && y.bh == old(z.bh) && y.lo == old(z.lo) && y.pos == old(z.pos) && y.hi == old(z.hi)
      && root == (if old(root) == z then y else old(root))
      && (p != nil ==> if old(p.left) == z then p.left == y && p.right == old(p.right)
                       else p.right == y && p.left == old(p.left))
      && (l != nil ==> l.parent == y) && (r != nil ==> r.parent == y)
      && (forall n <- old(nodes) :: n != z ==>
            && n.lo == old(n.lo) && n.pos == old(n.pos) && n.hi == old(n.hi)
            && n.color == old(n.color) && n.bh == old(n.bh)
            && (n != l && n != r ==> n.parent == old(n.parent))
            && (n != p ==> n.left == old(n.left) && n.right == old(n.right)))
    }

    // The node that stands where z stood.
    twostate function Heir(z: Node): Node
      reads *
      requires 0 <= old(z.pos) < |inOrder|
    {
      inOrder[old(z.pos)]
    }

    twostate predicate HasHeir(z: Node)
      reads *
    {
      && old(Links() && z in nodes && Placed(z)) && |inOrder| == |old(inOrder)|
      && old(allocated(inOrder[z.pos]))
      && var y := Heir(z);
      old(allocated(y)) && Relinked(z, y, old(z.parent), old(z.left), old(z.right))
    }

    twostate lemma RelinkedKeepsLinks(z: Node)
      requires HasHeir(z)
      ensures forall n {:trigger LeftOk(n)} {:trigger RightOk(n)} :: n in nodes ==> LeftOk(n) && RightOk(n)
    {
      ghost var y := Heir(z);
      assert old(LeftOk(z)) && old(RightOk(z)) && old(UpOk(z));
      forall n | n in nodes
        ensures LeftOk(n) && RightOk(n)
      {
        if n != y { assert old(LeftOk(n)) && old(RightOk(n)); }
      }
    }

    twostate lemma RelinkedKeepsUp(z: Node)
      requires HasHeir(z)
      ensures (forall n {:trigger UpOk(n)} :: n in nodes ==> UpOk(n)) && RootOk()
    {
      ghost var y := Heir(z);
      assert old(LeftOk(z)) && old(RightOk(z)) && old(UpOk(z));
      if old(root) != z && old(root) != nil { assert old(LeftOk(root)) && old(RightOk(root)) && old(UpOk(root)); }
      forall n | n in nodes
        ensures UpOk(n)
      {
        if n != y { assert old(UpOk(n)); }
      }
    }

    twostate lemma RelinkedKeepsBalance(z: Node)
      requires HasHeir(z) && old(Balanced())
      ensures Balanced()
    {
      ghost var y := Heir(z);
      assert old(LeftOk(z)) && old(RightOk(z)) && old(UpOk(z)) && old(HeightOk(z)) && old(ColorOk(z));
      forall n | n in nodes
        ensures HeightOk(n) && ColorOk(n)
      {
        if n != y { assert old(HeightOk(n)) && old(ColorOk(n)) && old(UpOk(n)) && old(LeftOk(n)) && old(RightOk(n)); }
      }
    }

    twostate lemma RelinkedKeepsPlaces(z: Node)
      requires HasHeir(z)
      requires old(Places())
      ensures Places()
    {
      ghost var y := Heir(z);
      forall n | n in nodes
        ensures Placed(n)
      {
        if n != y { assert old(Placed(n)); }
      }
      forall i | 0 <= i < |inOrder|
        ensures Slot(i)
      {
        assert old(Slot(i));
      }
    }

    // Leaving out element k keeps the rest in order.
    twostate lemma RemovedKeepsOrder(k: int)
      requires old(Ordered()) && 0 <= k < |old(inOrder)|
      requires inOrder == old(inOrder)[..k] + old(inOrder)[k + 1..]
      requires forall n <- old(nodes) :: n.data == old(n.data)
      ensures Sorted()
    {
      forall i, j | 0 <= i <= j < |inOrder|
        ensures InOrder(i, j)
      {
        ghost var i', j' := if i < k then i else i + 1, if j < k then j else j + 1;
        assert old(Slot(i')) && old(Slot(j')) && old(InOrder(i', j'));
        assert inOrder[i] == old(inOrder)[i'] && inOrder[j] == old(inOrder)[j'];
      }
    }

    // Lets the neighbours of z point at y, and y at them.
    method TakeLinks(z: Node, y: Node)
      requires y != nil && z != nil && z != y
      requires z.parent != z && z.left != z && z.right != z && z.parent != y && z.left != y && z.right != y
      requires (z.left != z.parent || z.parent == nil) && (z.right != z.parent || z.parent == nil)
      modifies this`root, y`left, y`right, y`parent, y`color
      modifies z.parent`left, z.parent`right, z.left`parent, z.right`parent
      ensures y.parent == z.parent && y.left == z.left && y.right == z.right && y.color == z.color
      ensures root == (if old(root) == z then y else old(root))
      ensures z.parent != nil ==>
        if old(z.parent.left) == z then z.parent.left == y && z.parent.right == old(z.parent.right)
        else z.parent.right == y && z.parent.left == old(z.parent.left)
      ensures (z.left != nil ==> z.left.parent == y) && (z.right != nil ==> z.right.parent == y)
    {
      if root == z {
        root := y;
      }
      y.parent := z.parent;
      y.left := z.left;
      y.right := z.right;
      y.color := z.color;
      if y.parent != nil {
        if y.parent.left == z {
          y.parent.left := y;
        } else {
          y.parent.right := y;
        }
      }
      if y.left != nil {
        y.left.parent := y;
      }
      if y.right != nil {
        y.right.parent := y;
      }
    }

    // Puts y, which is outside the tree, in the place of z.
    method Relink(z: Node, y: Node)
      requires z in nodes && y !in nodes && y != nil && z != nil && Placed(z)
      requires z.parent != z && z.left != z && z.right != z && z.parent != y && z.left != y && z.right != y
      requires (z.left != z.parent || z.parent == nil) && (z.right != z.parent || z.parent == nil)
      modifies this`root, this`nodes, this`inOrder, y`left, y`right, y`parent, y`color, y`lo, y`pos, y`hi, y`bh
      modifies z.parent`left, z.parent`right, z.left`parent, z.right`parent
      ensures Relinked(z, y, old(z.parent), old(z.left), old(z.right))
      ensures inOrder[old(z.pos)] == y
    {
      TakeLinks(z, y);
      y.lo, y.pos, y.hi, y.bh := z.lo, z.pos, z.hi, z.bh;
      nodes := nodes - {z} + {y};
      inOrder := inOrder[z.pos := y];
    }

    // The second half of _std_rbtree_remove, when a successor y was taken out in place of z.
    method Substitute(z: Node, y: Node)
      requires NilOk() && Links() && Balanced() && z in nodes && y !in nodes && y != nil
      requires Places()
      modifies this`root, this`nodes, this`inOrder, y`left, y`right, y`parent, y`color, y`lo, y`pos, y`hi, y`bh
      modifies nodes`left, nodes`right, nodes`parent, nil`left, nil`right, nil`parent
      ensures NilOk() && Links() && Balanced() && nodes == old(nodes) - {z} + {y}
      ensures 0 <= old(z.pos) < |old(inOrder)| && inOrder == old(inOrder)[old(z.pos) := y]
      ensures Places()
    {
      assert LeftOk(z) && RightOk(z) && UpOk(z) && Placed(z);
      if z.parent in nodes { assert LeftOk(z.parent) && RightOk(z.parent); }
      if z.left in nodes { assert LeftOk(z.left) && RightOk(z.left); }
      if z.right in nodes { assert LeftOk(z.right) && RightOk(z.right); }
      Relink(z, y);
      RelinkedKeepsLinks(z);
      RelinkedKeepsUp(z);
      RelinkedKeepsBalance(z);
      RelinkedKeepsPlaces(z);
    }

    // All of _std_rbtree_remove but the counters and the reset of z.
    method TakeOut(z: Node)
      requires NilOk() && Links() && Ordered() && Balanced() && z in nodes && Placed(z)
      modifies this`root, this`nodes, this`inOrder
      modifies nodes`left, nodes`right, nodes`parent, nodes`lo, nodes`pos, nodes`hi, nodes`color, nodes`bh
      modifies nil`left, nil`right, nil`parent, nil`color, nil`bh
      ensures NilOk() && Links() && Balanced() && Places() && nodes == old(nodes) - {z}
      ensures inOrder == old(inOrder)[..old(z.pos)] + old(inOrder)[old(z.pos) + 1..]
    {
      assert LeftOk(z) && RightOk(z);
      if z.left == nil || z.right == nil {
        Splice(z);
      } else {
        assert LeftOk(z.right) && RightOk(z.right) && Slot(z.pos + 1);
        var y := GetNext(z);
        TakeOutSuccessor(z, y);
      }
    }

    method TakeOutSuccessor(z: Node, y: Node)
      requires NilOk() && Links() && Ordered() && Balanced() && z in nodes && Placed(z)
      requires z.pos + 1 < |inOrder| && y == inOrder[z.pos + 1] && y in nodes && Placed(y) && y.left == nil
      modifies this`root, this`nodes, this`inOrder
      modifies nodes`left, nodes`right, nodes`parent, nodes`lo, nodes`pos, nodes`hi, nodes`color, nodes`bh
      modifies nil`left, nil`right, nil`parent, nil`color, nil`bh
      ensures NilOk() && Links() && Balanced() && Places() && nodes == old(nodes) - {z}
      ensures inOrder == old(inOrder)[..old(z.pos)] + old(inOrder)[old(z.pos) + 1..]
    {
      ghost var k := z.pos;
      assert Slot(k + 1);
      Splice(y);
      assert Slot(k);
      Substitute(z, y);
      SkipPair(old(inOrder), k);
    }

    // Leaving out element k + 1 and then putting it over element k leaves out element k.
    static lemma SkipPair(s: seq<Node>, k: int)
      requires 0 <= k && k + 1 < |s|
      ensures (s[..k + 1] + s[k + 2..])[k := s[k + 1]] == s[..k] + s[k + 1..]
    {
    }

    method Remove(z: Node)
      requires Valid() && z in nodes
      modifies this`root, this`nodes, this`inOrder, this`numRemoved, this`numInodes
      modifies nodes`left, nodes`right, nodes`parent, nodes`lo, nodes`pos, nodes`hi, nodes`color, nodes`bh
      modifies nil`left, nil`right, nil`parent, nil`color, nil`bh
      ensures Valid() && nodes == old(nodes) - {z}
      ensures 0 <= old(z.pos) < |old(inOrder)| && inOrder == old(inOrder)[..old(z.pos)] + old(inOrder)[old(z.pos) + 1..]
      ensures z.left == z.right == z.parent == nil
      ensures numInserts == old(numInserts) && numRemoved == old(numRemoved) + 1
    {
      assert Placed(z);
      ghost var k := z.pos;
      TakeOut(z);
      RemovedKeepsOrder(k);
      Detach(z);
    }

    method Detach(z: Node)
      requires numInodes > 0
      modifies this`numRemoved, this`numInodes, z`left, z`right, z`parent
      ensures z.left == z.right == z.parent == nil
      ensures numRemoved == old(numRemoved) + 1 && numInodes == old(numInodes) - 1
    {
      z.left, z.right, z.parent := nil, nil, nil;
      numRemoved := numRemoved + 1;
      numInodes := numInodes - 1;
    }
  }
}

// Lookups in the red-black tree, each related to the in-order sequence.
module RbQueries {
  import opened Orders
  import opened RbNodes

  // d and the data of n compare equal.
  ghost predicate Equal(t: Table, d: Data, n: Node)
    reads n
  {
    t.compare(d, n.data) == 0
  }

  // Every element before gap k is less than d, every one from k on is greater.
  ghost predicate Between(t: Table, d: Data, k: int)
    reads t`inOrder, t.inOrder`data
  {
    forall i {:trigger t.CompareAt(d, i)} :: 0 <= i < |t.inOrder| ==>
      if i < k then t.CompareAt(d, i) > 0 else t.CompareAt(d, i) < 0
  }

  ghost predicate AllLess(t: Table, d: Data, k: int)
    reads t`inOrder, t.inOrder`data
  {
    forall i {:trigger t.CompareAt(d, i)} :: 0 <= i < k && i < |t.inOrder| ==> t.CompareAt(d, i) > 0
  }

  lemma StrictlyLess(t: Table, d: Data, x: Node)
    requires t.Ordered() && TotalPreorder(t.compare) && x in t.nodes && t.compare(d, x.data) > 0
    ensures AllLess(t, d, x.pos + 1)
  {
    assert t.Placed(x);
    forall i | 0 <= i <= x.pos
      ensures t.CompareAt(d, i) > 0
    {
      assert t.InOrder(i, x.pos);
      LessTrans(t.compare, t.inOrder[i].data, x.data, d);
    }
  }

  method GetFirst(t: Table) returns (r: Node?)
    requires t.NilOk() && t.Links() && t.Ordered()
    ensures if t.inOrder == [] then r == null else r == t.inOrder[0]
  {
    var x := t.root;
    if x != t.nil {
      while x.left != t.nil
        invariant x in t.nodes && x.lo == 0
        decreases x.hi - x.lo
      {
        assert t.LeftOk(x) && t.RightOk(x) && t.LeftOk(x.left) && t.RightOk(x.left);
        x := x.left;
      }
      assert t.LeftOk(x) && t.Placed(x);
    }
    if x == t.nil {
      r := null;
    } else {
      r := x;
    }
  }

  // ---- Depth ----

  function Pow2(k: nat): (p: nat)
    ensures p >= 1
  {
    if k == 0 then 1 else 2 * Pow2(k - 1)
  }

  lemma {:induction false} Pow2Grows(k: nat)
    ensures Pow2(k) > k && Pow2(k + 1) == Pow2(k) + Pow2(k)
  {
    if k > 0 {
      Pow2Grows(k - 1);
    }
  }

  lemma {:induction false} Pow2Adds(a: nat, b: nat)
    ensures Pow2(a + b) == Pow2(a) * Pow2(b)
  {
    if a > 0 {
      Pow2Adds(a - 1, b);
    }
  }

  lemma {:induction false} Pow2Monotone(a: nat, b: nat)
    requires a <= b
    ensures Pow2(a) <= Pow2(b)
  {
    if a < b {
      Pow2Monotone(a, b - 1);
    }
  }

  // The nodes on the way from the root to n, both included.
  ghost function Level(t: Table, n: Node): nat
    requires t.Links() && n in t.nodes
    reads t, t.nodes
    decreases |t.inOrder| - (n.hi - n.lo)
  {
    assert t.UpOk(n) && t.LeftOk(n) && t.RightOk(n);
    if n.parent == t.nil then 1 else
      assert t.LeftOk(n.parent) && t.RightOk(n.parent);
      Level(t, n.parent) + 1
  }

  // A subtree of black height h has at least 2^h - 1 nodes.
  lemma {:induction false} WidthBound(t: Table, n: Node)
    requires t.Links() && t.Heights() && n in t.nodes
    ensures Pow2(n.bh) <= n.hi - n.lo + 1
    decreases n.hi - n.lo
  {
    assert t.LeftOk(n) && t.RightOk(n) && t.HeightOk(n);
    if n.left != t.nil {
      WidthBound(t, n.left);
    }
    if n.right != t.nil {
      WidthBound(t, n.right);
    }
  }

  // At least every other node on the way down is black.
  lemma {:induction false} LevelBound(t: Table, n: Node)
    requires t.Links() && t.Balanced() && n in t.nodes
    ensures t.root in t.nodes
    ensures Level(t, n) + (if t.IsRed(n) then 0 else 1) <= 2 * (t.root.bh - n.bh + (if t.IsRed(n) then 0 else 1))
    decreases |t.inOrder| - (n.hi - n.lo)
  {
    assert t.UpOk(n) && t.LeftOk(n) && t.RightOk(n) && t.ColorOk(n);
    if n.parent != t.nil {
      assert t.LeftOk(n.parent) && t.RightOk(n.parent) && t.HeightOk(n.parent);
      LevelBound(t, n.parent);
    }
  }

  // A number of nodes or steps is at most 2 * log2(size + 1).
  ghost predicate WithinDepth(t: Table, n: nat)
    reads t`inOrder
  {
    Pow2(n) <= (|t.inOrder| + 1) * (|t.inOrder| + 1)
  }

  // No way down from the root is longer than that.
  lemma DepthBound(t: Table, n: Node)
    requires t.Valid() && n in t.nodes
    ensures WithinDepth(t, Level(t, n))
  {
    LevelBound(t, n);
    assert t.HeightOk(n);
    var b := t.root.bh;
    WidthBound(t, t.root);
    Pow2Monotone(Level(t, n), b + b);
    Pow2Adds(b, b);
    var p, m := Pow2(b), |t.inOrder| + 1;
    assert p * p <= m * p <= m * m;
  }

  // ---- Searches ----

  method GetExact(t: Table, d: Data) returns (r: Node?, ghost compared: nat)
    requires t.Valid() && TotalPreorder(t.compare)
    ensures WithinDepth(t, compared)
    ensures r != null ==> r in t.nodes && Equal(t, d, r)
    ensures r == null ==> exists k :: 0 <= k <= |t.inOrder| && Between(t, d, k)
  {
    var x := t.root;
    ghost var lo, hi := 0, |t.inOrder|;
    compared := 0;
    while x != t.nil
      invariant 0 <= lo <= hi <= |t.inOrder|
      invariant if x == t.nil then lo == hi else x in t.nodes && x.lo == lo && x.hi == hi
      invariant AllLess(t, d, lo) && t.Less(d, hi)
      invariant WithinDepth(t, compared) && (x != t.nil ==> Level(t, x) == compared + 1)
      decreases hi - lo, x != t.nil
    {
      assert t.LeftOk(x) && t.RightOk(x);
      var cmp := t.compare(d, x.data);
      t.CompareTo(d, x);
      DepthBound(t, x);
      compared := compared + 1;
      if cmp == 0 {
        break;
      } else if cmp < 0 {
        hi := x.pos;
        x := x.left;
      } else {
        StrictlyLess(t, d, x);
        lo := x.pos + 1;
        x := x.right;
      }
    }
    if x == t.nil {
      assert Between(t, d, lo);
      r := null;
    } else {
      r := x;
    }
  }

  // From a node without a left child to its predecessor.
  method ClimbFromLeft(t: Table, n: Node) returns (y: Node)
    requires t.NilOk() && t.Links() && t.Ordered() && n in t.nodes && n.left == t.nil
    ensures if y == t.nil then n.pos == 0 else y in t.nodes && y.pos == n.pos - 1
  {
    var x := n;
    assert t.LeftOk(n) && t.RightOk(n);
    y := x.parent;
    while y != t.nil && x == y.left
      invariant x in t.nodes && y == x.parent && x.lo == n.pos
      decreases |t.inOrder| - (x.hi - x.lo)
    {
      assert t.UpOk(x) && t.LeftOk(y) && t.RightOk(y) && t.LeftOk(x) && t.RightOk(x);
      x := y;
      y := x.parent;
    }
    assert t.UpOk(x);
    if y != t.nil { assert t.LeftOk(y) && t.RightOk(y); }
  }

  // The least node that is not less than d, if there is one.
  method GetExactOrNext(t: Table, d: Data) returns (r: Node?, ghost compared: nat)
    requires t.Valid() && TotalPreorder(t.compare)
    ensures WithinDepth(t, compared)
    ensures r == null ==> AllLess(t, d, |t.inOrder|)
    ensures r != null ==> r in t.nodes && t.Placed(r) && t.compare(d, r.data) <= 0
    ensures r != null && !Equal(t, d, r) ==> AllLess(t, d, r.pos)
  {
    var x := t.root;
    ghost var lo, hi := 0, |t.inOrder|;
    compared := 0;
    while x != t.nil
      invariant 0 <= lo <= hi <= |t.inOrder|
      invariant if x == t.nil then t.root == t.nil else x in t.nodes && x.lo == lo && x.hi == hi
      invariant AllLess(t, d, lo) && t.Less(d, hi)
      invariant WithinDepth(t, compared) && (x != t.nil ==> Level(t, x) == compared + 1)
      decreases hi - lo
    {
      assert t.LeftOk(x) && t.RightOk(x) && t.Placed(x);
      var cmp := t.compare(d, x.data);
      t.CompareTo(d, x);
      DepthBound(t, x);
      compared := compared + 1;
      if cmp == 0 {
        break;
      }
      if cmp < 0 {
        if x.left == t.nil {
          break;
        }
        hi := x.pos;
        x := x.left;
      } else {
        StrictlyLess(t, d, x);
        if x.right == t.nil {
          lo := x.pos + 1;
          x := t.ClimbFromRight(x);
          if x != t.nil { assert t.Placed(x) && t.CompareAt(d, x.pos) < 0; }
          break;
        }
        lo := x.pos + 1;
        x := x.right;
      }
    }
    if x == t.nil {
      r := null;
    } else {
      r := x;
    }
  }

  // The greatest node that is not greater than d, if there is one.
  method GetExactOrPrev(t: Table, d: Data) returns (r: Node?, ghost compared: nat)
    requires t.Valid() && TotalPreorder(t.compare)
    ensures WithinDepth(t, compared)
    ensures r == null ==> t.Less(d, 0)
    ensures r != null ==> r in t.nodes && t.Placed(r) && t.compare(d, r.data) >= 0
    ensures r != null && !Equal(t, d, r) ==> t.Less(d, r.pos + 1)
  {
    var x := t.root;
    ghost var lo, hi := 0, |t.inOrder|;
    compared := 0;
    while x != t.nil
      invariant 0 <= lo <= hi <= |t.inOrder|
      invariant if x == t.nil then t.root == t.nil else x in t.nodes && x.lo == lo && x.hi == hi
      invariant AllLess(t, d, lo) && t.Less(d, hi)
      invariant WithinDepth(t, compared) && (x != t.nil ==> Level(t, x) == compared + 1)
      decreases hi - lo
    {
      assert t.LeftOk(x) && t.RightOk(x) && t.Placed(x);
      var cmp := t.compare(d, x.data);
      t.CompareTo(d, x);
      DepthBound(t, x);
      compared := compared + 1;
      if cmp == 0 {
        break;
      }
      if cmp < 0 {
        if x.left == t.nil {
          hi := x.pos;
          x := ClimbFromLeft(t, x);
          if x != t.nil { assert t.Placed(x) && t.CompareAt(d, x.pos) > 0; }
          break;
        }
        hi := x.pos;
        x := x.left;
      } else {
        StrictlyLess(t, d, x);
        if x.right == t.nil {
          break;
        }
        lo := x.pos + 1;
        x := x.right;
      }
    }
    if x == t.nil {
      r := null;
    } else {
      r := x;
    }
  }
}

// The successor search of the radix tree, and the location of subtrees.
module RdxNext {
  import opened Options
  import opened RdxBits
  import opened RdxOrder
  import opened RdxTable
  import opened RdxSearch

  // ---- How the order of the bits runs through the links ----

  lemma NoChild(t: Table, a: Node, side: bool, m: Node)
    requires t.Links() && a in t.nodes && m in t.nodes && t.Child(a, side) == null
    ensures !Extends(a.pfx, m.pfx, side)
  {
    if a.pfx < m.pfx {
      var c := t.ChildTowards(a, m);
    }
  }

  // What comes before a child: what comes before the node, the node itself, and for
  // a right child everything on the left.
  lemma BeforeChild(t: Table, a: Node, side: bool, m: Node)
    requires t.Links() && a in t.nodes && m in t.nodes && t.Child(a, side) != null
    ensures Less(m.pfx, t.Child(a, side).pfx) <==>
      Less(m.pfx, a.pfx) || m == a || (side && Extends(a.pfx, m.pfx, false))
  {
    var c := t.Child(a, side);
    assert t.LeftOk(a) && t.RightOk(a);
    if !(a.pfx <= m.pfx) {
      LessBelow(m.pfx, a.pfx, c.pfx);
    } else if a.pfx == m.pfx {
      t.PrefixIsUnique(a, m);
      PrefixIsLess(a.pfx, c.pfx);
    } else {
      PrefixIsLess(a.pfx, m.pfx);
      var b := t.ChildTowards(a, m);
      if b == c {
        if c.pfx == m.pfx { LessIrreflexive(c.pfx); } else { PrefixIsLess(c.pfx, m.pfx); }
      } else if side {
        SidesAreOrdered(a.pfx, m.pfx, c.pfx);
      } else {
        SidesAreOrdered(a.pfx, c.pfx, m.pfx);
      }
    }
  }

  // m comes before the end of the subtree of a.
  ghost predicate UpTo(m: Node, a: Node)
    reads m`pfx, a`pfx
  {
    Less(m.pfx, a.pfx) || a.pfx <= m.pfx
  }

  // What comes before the end of a child's subtree.
  lemma UpToChild(t: Table, a: Node, side: bool, m: Node)
    requires t.Links() && a in t.nodes && m in t.nodes && t.Child(a, side) != null
    ensures UpTo(m, t.Child(a, side)) <==>
      if side then UpTo(m, a) else Less(m.pfx, a.pfx) || m == a || Extends(a.pfx, m.pfx, false)
  {
    var c := t.Child(a, side);
    assert t.LeftOk(a) && t.RightOk(a);
    BeforeChild(t, a, side, m);
    if a.pfx == m.pfx {
      t.PrefixIsUnique(a, m);
    } else if a.pfx < m.pfx {
      var b := t.ChildTowards(a, m);
    }
    if c.pfx <= m.pfx {
      assert m.pfx[|a.pfx|] == c.pfx[|a.pfx|];
    }
  }

  // The node whose subtree comes right after that of x0: climb until a right turn is left.
  method NextUp(t: Table, x0: Node) returns (r: Node?)
    requires t.Links() && x0 in t.nodes
    ensures r == null ==> forall m <- t.nodes :: UpTo(m, x0)
    ensures r != null ==> r in t.nodes && forall m <- t.nodes :: Less(m.pfx, r.pfx) <==> UpTo(m, x0)
  {
    var x := x0;
    while true
      invariant x in t.nodes
      invariant forall m <- t.nodes :: UpTo(m, x) <==> UpTo(m, x0)
      decreases |x.pfx|
    {
      var p := x.parent;
      assert t.UpOk(x);
      if p == null {
        forall m <- t.nodes ensures UpTo(m, x) {
          t.RootAbove(m);
          t.AboveIsPrefix(x, m);
        }
        return null;
      }
      assert t.LeftOk(p) && t.RightOk(p);
      ghost var side := p.right == x;
      forall m <- t.nodes
        ensures UpTo(m, x0) <==>
          if side then UpTo(m, p) else Less(m.pfx, p.pfx) || m == p || Extends(p.pfx, m.pfx, false)
      {
        UpToChild(t, p, side, m);
      }
      if p.right != null && p.right != x {
        forall m <- t.nodes ensures Less(m.pfx, p.right.pfx) <==> UpTo(m, x0) {
          BeforeChild(t, p, true, m);
        }
        return p.right;
      }
      forall m <- t.nodes ensures UpTo(m, p) <==> UpTo(m, x0) {
        if p.right == null {
          NoChild(t, p, true, m);
          if p.pfx == m.pfx { t.PrefixIsUnique(p, m); }
        }
      }
      x := p;
    }
  }

  // The first entry in the subtree of x0. A node without an entry has a left child.
  method FirstEntry(t: Table, x0: Node) returns (n: Node)
    requires t.Links() && t.Content() && x0 in t.nodes
    ensures n in t.nodes && n.rth != null && x0.pfx <= n.pfx && (x0.rth != null ==> n == x0)
    ensures forall m <- t.nodes :: m.rth != null ==> (Less(m.pfx, n.pfx) <==> Less(m.pfx, x0.pfx))
  {
    n := x0;
    while n.rth == null
      invariant n in t.nodes && x0.pfx <= n.pfx && (x0.rth != null ==> n == x0)
      invariant forall m <- t.nodes :: m.rth != null ==> (Less(m.pfx, n.pfx) <==> Less(m.pfx, x0.pfx))
      decreases t.maxaddrlen - |n.pfx|
    {
      assert t.GlueOk(n) && t.LeftOk(n) && t.BitOk(n);
      forall m <- t.nodes | m.rth != null
        ensures Less(m.pfx, n.left.pfx) <==> Less(m.pfx, x0.pfx)
      {
        BeforeChild(t, n, false, m);
      }
      n := n.left;
      assert t.BitOk(n);
    }
  }

  // Where two nodes part, a node branches.
  lemma {:induction false} Fork(t: Table, m: Node, f: Node) returns (a: Node)
    requires t.Links() && m in t.nodes && f in t.nodes && !(m.pfx <= f.pfx) && !(f.pfx <= m.pfx)
    ensures a in t.nodes && a.pfx < f.pfx && a.pfx < m.pfx && |a.pfx| == Common(m.pfx, f.pfx)
    decreases |f.pfx|
  {
    assert t.UpOk(f);
    if f.parent == null {
      t.RootAbove(m);
      t.AboveIsPrefix(f, m);
    }
    a := f.parent;
    assert t.LeftOk(a) && t.RightOk(a);
    var i := Common(m.pfx, f.pfx);
    if a.pfx <= m.pfx {
      var b := t.ChildTowards(a, m);
      CommonIs(m.pfx, f.pfx, |a.pfx|);
    } else {
      assert !(m.pfx <= a.pfx);
      a := Fork(t, m, a);
      CommonIs(m.pfx, f.pfx, |a.pfx|);
    }
  }

  // ---- Successor ----

  // r is the entry of the least key after k.
  ghost predicate NextKey(t: Table, k: Bits, r: Head?)
    reads t`entries
  {
    if r == null then
      forall p <- t.entries :: !Less(k, p)
    else
      exists b :: b in t.entries && t.entries[b] == r && Less(k, b) &&
        forall p <- t.entries :: Less(k, p) ==> !Less(p, b)
  }

  // The same in terms of nodes: among the nodes with entries, those before n are those not after k.
  ghost predicate NodesAfter(t: Table, k: Bits, n: Node?)
    reads t`nodes, t.nodes`rth, t.nodes`pfx, (if n == null then {} else {n})`pfx
  {
    forall m <- t.nodes :: m.rth != null ==> ((n == null || Less(m.pfx, n.pfx)) <==> !Less(k, m.pfx))
  }

  lemma NextNode(t: Table, k: Bits, n: Node?)
    requires t.Links() && t.Content() && (n != null ==> n in t.nodes && n.rth != null) && NodesAfter(t, k, n)
    ensures NextKey(t, k, if n == null then null else n.rth)
  {
    if n != null {
      LessIrreflexive(n.pfx);
      assert t.EntryOk(n);
    }
    forall p | p in t.entries && Less(k, p)
      ensures n != null && !Less(p, n.pfx)
    {
      assert t.ListedOk(p);
    }
  }

  // p is stored and k continues it on the right, where nothing is stored; something is on the left.
  ghost predicate StrandedAt(t: Table, k: Bits, p: Bits)
    reads t`entries
  {
    && p in t.entries && Extends(p, k, true)
    && (forall q <- t.entries :: !Extends(p, q, true))
    && (exists q :: q in t.entries && Extends(p, q, false))
  }

  ghost predicate Stranded(t: Table, k: Bits)
    reads t`entries
  {
    exists p :: StrandedAt(t, k, p)
  }

  // Key s is stored and parts from p before level i on the side that the address does not take.
  ghost predicate Strays(t: Table, dest: Address, p: Bits, i: nat, s: Bits)
    requires t.Wide(dest)
    reads t`entries
  {
    s in t.entries && Common(s, p) < i && Common(s, p) < |s| && Common(s, p) < |p| && Common(s, p) < 8 * |dest|
      && p[Common(s, p)] != BitSet(dest, Common(s, p))
  }

  // Keys p and q part at level i, beyond the key's bits and with no key between the two, where
  // the address has a 1 that does not belong to the key; the address's bits lead to that level.
  ghost predicate DetouredAt(t: Table, dest: Address, bitlen: nat, p: Bits, q: Bits)
    requires t.Wide(dest) && bitlen <= t.maxaddrlen
    reads t`entries
  {
    var k, i := Prefix(dest, bitlen), Common(p, q);
    && p in t.entries && q in t.entries && k < p && k < q
    && bitlen <= i < |p| && i < |q| && i < t.maxaddrlen && Less(p, q) && BitSet(dest, i)
    && (forall s <- t.entries :: k <= s ==> !(s <= p[..i]))
    && (forall s <- t.entries :: !(k <= s && Strays(t, dest, p, i, s)))
  }

  ghost predicate Detoured(t: Table, dest: Address, bitlen: nat)
    requires t.Wide(dest) && bitlen <= t.maxaddrlen
    reads t`entries
  {
    exists p, q :: DetouredAt(t, dest, bitlen, p, q)
  }

  // ---- What the descent means for the stored keys ----

  // f is where the descent of GetNext ended.
  ghost predicate Landed(t: Table, dest: Address, bitlen: nat, f: Node)
    requires t.Links() && t.Wide(dest) && bitlen <= t.maxaddrlen
    reads t`nodes, t`root, t.nodes
  {
    && f in t.nodes && f.rth != null && t.OnPath(dest, f) && t.BitOk(f)
    && (f.bit < bitlen ==> t.Child(f, BitSet(dest, f.bit)) == null)
    && (forall a {:trigger t.Bare(a, f, bitlen)} :: a in t.nodes ==> t.Bare(a, f, bitlen))
  }

  lemma {:induction false} HasEntry(t: Table, x: Node) returns (m: Node)
    requires t.Links() && t.Content() && x in t.nodes
    ensures m in t.nodes && m.rth != null && x.pfx <= m.pfx
    decreases t.maxaddrlen - |x.pfx|
  {
    m := x;
    if x.rth == null {
      assert t.GlueOk(x) && t.LeftOk(x) && t.BitOk(x.left);
      m := HasEntry(t, x.left);
    }
  }

  // A key that is a prefix of k lies at f, or the way to f leaves it on the side of k.
  lemma StoredOnTheWay(t: Table, dest: Address, bitlen: nat, f: Node, n: Node)
    requires t.Links() && t.Wide(dest) && bitlen <= t.maxaddrlen && Landed(t, dest, bitlen, f)
    requires n in t.nodes && n.pfx < Prefix(dest, bitlen)
    ensures n == f || (n.pfx < f.pfx && f.pfx[|n.pfx|] == Prefix(dest, bitlen)[|n.pfx|])
  {
    var k := Prefix(dest, bitlen);
    forall a | a in t.nodes && a.pfx < f.pfx && a.pfx <= n.pfx
      ensures f.pfx[|a.pfx|] == k[|a.pfx|]
    {
      assert t.BitOk(a) && t.Follows(dest, a, f);
    }
    if f.pfx < n.pfx {
      var c := t.ChildTowards(f, n);
    } else if f.pfx == n.pfx {
      t.PrefixIsUnique(f, n);
    } else if !(n.pfx < f.pfx) {
      var a := Fork(t, n, f);
    }
  }

  lemma StrandedIs(t: Table, dest: Address, bitlen: nat, f: Node)
    requires t.Links() && t.Content() && t.Wide(dest) && bitlen <= t.maxaddrlen && Landed(t, dest, bitlen, f)
    ensures Stranded(t, Prefix(dest, bitlen)) <==> Extends(f.pfx, Prefix(dest, bitlen), true) && f.left != null
  {
    var k := Prefix(dest, bitlen);
    assert t.EntryOk(f) && t.LeftOk(f);
    if Stranded(t, k) {
      var p :| StrandedAt(t, k, p);
      assert t.ListedOk(p);
      StoredOnTheWay(t, dest, bitlen, f, t.entries[p].rtn);
      assert f.pfx in t.entries;
      var q :| q in t.entries && Extends(p, q, false);
      assert t.ListedOk(q);
      var c := t.ChildTowards(f, t.entries[q].rtn);
    }
    if Extends(f.pfx, k, true) && f.left != null {
      forall q | q in t.entries ensures !Extends(f.pfx, q, true) {
        assert t.ListedOk(q);
        NoChild(t, f, true, t.entries[q].rtn);
      }
      var m := HasEntry(t, f.left);
      assert t.EntryOk(m) && Extends(f.pfx, m.pfx, false);
      assert StrandedAt(t, k, f.pfx);
    }
  }

  // Node m holds an entry that continues k and comes before f.
  ghost predicate Skipped(t: Table, k: Bits, f: Node, m: Node)
    reads m`rth, m`pfx, f`pfx
  {
    m.rth != null && k < m.pfx && Less(m.pfx, f.pfx)
  }

  // The address leads f to the node where the two keys of a detour part.
  lemma DetourReached(t: Table, dest: Address, bitlen: nat, f: Node, p: Bits, i: nat, a: Node)
    requires t.Links() && t.Content() && t.Wide(dest) && bitlen <= t.maxaddrlen && Landed(t, dest, bitlen, f)
    requires p in t.entries && a in t.nodes && i < |p| && a.pfx == p[..i]
    requires Prefix(dest, bitlen) <= f.pfx
    requires forall s <- t.entries :: Prefix(dest, bitlen) <= s ==> !(s <= p[..i]) && !Strays(t, dest, p, i, s)
    ensures a.pfx < f.pfx
  {
    assert t.ListedOk(p) && t.EntryOk(f);
    var j := Common(f.pfx, p);
    assert f.pfx in t.entries && !(f.pfx <= p[..i]) && !Strays(t, dest, p, i, f.pfx);
    if !(a.pfx <= f.pfx) {
      var b := Fork(t, a, f);
      assert t.BitOk(b) && t.Follows(dest, b, f);
      CommonIs(f.pfx, p, |b.pfx|);
      assert false;
    }
  }

  lemma DetouredMeansSkipped(t: Table, dest: Address, bitlen: nat, f: Node, p: Bits, q: Bits)
    requires t.Links() && t.Content() && t.Wide(dest) && bitlen <= t.maxaddrlen && Landed(t, dest, bitlen, f)
    requires DetouredAt(t, dest, bitlen, p, q) && Prefix(dest, bitlen) <= f.pfx
    ensures p in t.entries && t.ListedOk(p) && Skipped(t, Prefix(dest, bitlen), f, t.entries[p].rtn)
  {
    var i := Common(p, q);
    assert t.ListedOk(p) && t.ListedOk(q);
    var a := Fork(t, t.entries[p].rtn, t.entries[q].rtn);
    assert a.pfx == p[..i];
    DetourReached(t, dest, bitlen, f, p, i, a);
    assert t.BitOk(a) && t.Follows(dest, a, f);
    SidesAreOrdered(a.pfx, p, f.pfx);
  }

  lemma SkippedMeansDetoured(t: Table, dest: Address, bitlen: nat, f: Node, m: Node)
    requires t.Links() && t.Content() && t.Wide(dest) && bitlen <= t.maxaddrlen && Landed(t, dest, bitlen, f)
    requires m in t.nodes && Skipped(t, Prefix(dest, bitlen), f, m) && Prefix(dest, bitlen) < f.pfx
    ensures DetouredAt(t, dest, bitlen, m.pfx, f.pfx)
  {
    var k, p, q := Prefix(dest, bitlen), m.pfx, f.pfx;
    var i := Common(p, q);
    assert t.EntryOk(m) && t.EntryOk(f);
    assert !(p <= q) by {
      assert t.BitOk(m) && t.Bare(m, f, bitlen);
      LessIrreflexive(p);
    }
    assert !(q <= p) by { if q < p { PrefixIsLess(q, p); } }
    var a := Fork(t, m, f);
    assert t.BitOk(a) && t.BitOk(m) && t.BitOk(f) && t.Follows(dest, a, f);
    assert p[..|k|] == k == q[..|k|];
    assert i >= bitlen;
    forall s | s in t.entries && k <= s
      ensures !(s <= p[..i]) && !Strays(t, dest, p, i, s)
    {
      assert t.ListedOk(s);
      NotBetween(t, dest, bitlen, f, m, t.entries[s].rtn, i);
    }
  }

  // No entry lies between the key and f on the way to f, and none leaves that way against the address.
  lemma NotBetween(t: Table, dest: Address, bitlen: nat, f: Node, m: Node, n: Node, i: nat)
    requires t.Links() && t.Content() && t.Wide(dest) && bitlen <= t.maxaddrlen && Landed(t, dest, bitlen, f)
    requires m in t.nodes && n in t.nodes && n.rth != null && n.pfx in t.entries && Prefix(dest, bitlen) <= n.pfx
    requires i == Common(m.pfx, f.pfx) && i < |f.pfx| && i < |m.pfx|
    ensures !(n.pfx <= m.pfx[..i]) && !Strays(t, dest, m.pfx, i, n.pfx)
  {
    var p, s := m.pfx, n.pfx;
    assert t.BitOk(n) && t.Bare(n, f, bitlen);
    assert p[..i] == f.pfx[..i];
    forall b | b in t.nodes && b.pfx < f.pfx
      ensures t.BitOk(b) && f.pfx[|b.pfx|] == BitSet(dest, |b.pfx|)
    {
      assert t.BitOk(b) && t.Follows(dest, b, f);
    }
    if Strays(t, dest, p, i, s) {
      var j := Common(s, p);
      assert f.pfx[..i][j] == p[..i][j];
      CommonIs(s, f.pfx, j);
      var b := Fork(t, n, f);
      assert false;
    }
  }

  ghost predicate Skips(t: Table, k: Bits, f: Node)
    reads t`nodes, t.nodes`rth, t.nodes`pfx, f`pfx
  {
    exists m :: m in t.nodes && Skipped(t, k, f, m)
  }

  lemma DetouredIs(t: Table, dest: Address, bitlen: nat, f: Node)
    requires t.Links() && t.Content() && t.Wide(dest) && bitlen <= t.maxaddrlen && Landed(t, dest, bitlen, f)
    ensures Detoured(t, dest, bitlen) <==> Prefix(dest, bitlen) < f.pfx && Skips(t, Prefix(dest, bitlen), f)
  {
    var k := Prefix(dest, bitlen);
    if Detoured(t, dest, bitlen) {
      var p, q :| DetouredAt(t, dest, bitlen, p, q);
      assert t.ListedOk(p);
      AboveExtensions(t, dest, bitlen, f, t.entries[p].rtn);
      assert t.EntryOk(f);
      assert k != f.pfx;
      DetouredMeansSkipped(t, dest, bitlen, f, p, q);
    }
    if k < f.pfx && Skips(t, k, f) {
      var m :| m in t.nodes && Skipped(t, k, f, m);
      SkippedMeansDetoured(t, dest, bitlen, f, m);
    }
  }

  // When something continues the key, the descent ends there.
  lemma AboveExtensions(t: Table, dest: Address, bitlen: nat, f: Node, m: Node)
    requires t.Links() && t.Wide(dest) && bitlen <= t.maxaddrlen && Landed(t, dest, bitlen, f)
    requires m in t.nodes && Prefix(dest, bitlen) <= m.pfx
    ensures Prefix(dest, bitlen) <= f.pfx
  {
    var k := Prefix(dest, bitlen);
    if f.pfx < k {
      var c := t.ChildTowards(f, m);
    } else if !(k <= f.pfx) {
      forall a | a in t.nodes && a.pfx < f.pfx && |a.pfx| < bitlen
        ensures f.pfx[|a.pfx|] == k[|a.pfx|]
      {
        assert t.BitOk(a) && t.Follows(dest, a, f);
      }
      var i := Common(m.pfx, f.pfx);
      var a := Fork(t, m, f);
    }
  }

  // ---- The search itself ----

  // With f at or below the key, or no key-continuing entry skipped, f's entry is the next one.
  lemma StayAt(t: Table, k: Bits, f: Node)
    requires t.Links() && f in t.nodes && k < f.pfx && !Skips(t, k, f)
    ensures NodesAfter(t, k, f)
  {
    forall m | m in t.nodes && m.rth != null
      ensures Less(m.pfx, f.pfx) <==> !Less(k, m.pfx)
    {
      LessTotal(k, m.pfx);
      LessTotal(m.pfx, f.pfx);
      PrefixIsLess(k, f.pfx);
      LessIrreflexive(k);
      if k < m.pfx {
        PrefixIsLess(k, m.pfx);
        assert !Skipped(t, k, f, m);
      } else if k != m.pfx {
        LessBelow(m.pfx, k, f.pfx);
      }
    }
  }

  // What comes up to the end of f's subtree, when the key ends in it.
  lemma NotAfter(t: Table, k: Bits, f: Node, m: Node)
    requires t.Links() && f in t.nodes && m in t.nodes && f.pfx <= k
    requires f.pfx < k ==> t.Child(f, k[|f.pfx|]) == null
    ensures !Less(k, m.pfx) <==>
      Less(m.pfx, f.pfx) || m == f || (f.pfx < k && k[|f.pfx|] && Extends(f.pfx, m.pfx, false))
  {
    LessTotal(k, m.pfx);
    if f.pfx == m.pfx {
      t.PrefixIsUnique(f, m);
      if f.pfx < k { PrefixIsLess(f.pfx, k); } else { LessIrreflexive(k); }
    } else if f.pfx < m.pfx {
      PrefixIsLess(f.pfx, m.pfx);
      if f.pfx < k {
        NoChild(t, f, k[|f.pfx|], m);
        if k[|f.pfx|] { SidesAreOrdered(f.pfx, m.pfx, k); } else { SidesAreOrdered(f.pfx, k, m.pfx); }
      }
    } else {
      LessBelow(m.pfx, f.pfx, k);
    }
  }

  // The key leaves the bits of f at level d; y is the topmost node at f or above that
  // starts below level d. The subtree of y lies on one side of the key as a whole.
  lemma AroundTop(t: Table, dest: Address, bitlen: nat, f: Node, d: nat, y: Node, m: Node)
    requires t.Links() && t.Wide(dest) && bitlen <= t.maxaddrlen && f in t.nodes
    requires d < bitlen && d < |f.pfx| && f.pfx[..d] == Prefix(dest, d) && f.pfx[d] != BitSet(dest, d)
    requires y in t.nodes && m in t.nodes && y.pfx <= f.pfx && d < |y.pfx| && (y.parent == null || |y.parent.pfx| < d)
    ensures y.pfx <= m.pfx ==> (Less(m.pfx, Prefix(dest, bitlen)) <==> BitSet(dest, d)) && m.pfx != Prefix(dest, bitlen)
    ensures !(y.pfx <= m.pfx) ==>
      (Less(m.pfx, Prefix(dest, bitlen)) <==> Less(m.pfx, y.pfx)) && m.pfx != Prefix(dest, bitlen)
  {
    var k := Prefix(dest, bitlen);
    var c := Prefix(dest, d);
    assert c == k[..d] && c == y.pfx[..d];
    assert y.pfx[d] == f.pfx[d];
    if y.pfx <= m.pfx {
      assert m.pfx[..d] == c && m.pfx[d] == y.pfx[d];
      CommonIs(m.pfx, k, d);
    } else {
      assert !(c <= m.pfx) by {
        if c <= m.pfx { NothingElse(t, c, y, m); }
      }
      LessBelow(m.pfx, c, k);
      LessBelow(m.pfx, c, y.pfx);
    }
  }

  // No node outside the subtree of y starts with k.
  lemma NothingElse(t: Table, k: Bits, y: Node, m: Node)
    requires t.Links() && y in t.nodes && m in t.nodes
    requires k <= y.pfx && (y.parent == null || |y.parent.pfx| < |k|) && k <= m.pfx
    ensures y.pfx <= m.pfx
  {
    assert t.UpOk(y);
    if y.parent == null {
      t.RootAbove(m);
      t.AboveIsPrefix(y, m);
    } else {
      var p := y.parent;
      assert t.LeftOk(p) && t.RightOk(p);
      assert p.pfx == k[..|p.pfx|];
      assert m.pfx[|p.pfx|] == k[|p.pfx|] == y.pfx[|p.pfx|];
      var c := t.ChildTowards(p, m);
    }
  }

  // Where to go on after f, at which the key ends or after which it would continue.
  method PastExact(t: Table, dest: Address, bitlen: nat, f: Node) returns (x: Node?)
    requires t.Links() && t.Content() && t.Wide(dest) && bitlen <= t.maxaddrlen && Landed(t, dest, bitlen, f)
    requires f.pfx <= Prefix(dest, bitlen)
    ensures x != null ==> x in t.nodes
    ensures Stranded(t, Prefix(dest, bitlen)) ==>
      x != null && Extends(f.pfx, x.pfx, false) && Extends(f.pfx, Prefix(dest, bitlen), true)
    ensures !Stranded(t, Prefix(dest, bitlen)) ==> NodesAfter(t, Prefix(dest, bitlen), x)
  {
    ghost var k := Prefix(dest, bitlen);
    StrandedIs(t, dest, bitlen, f);
    assert t.LeftOk(f) && t.RightOk(f);
    forall m | m in t.nodes && m.rth != null && !Stranded(t, k)
      ensures !Less(k, m.pfx) <==> Less(m.pfx, f.pfx) || m == f
    {
      NotAfter(t, k, f, m);
      if f.left == null { NoChild(t, f, false, m); }
    }
    if f.left != null {
      x := f.left;
      forall m | m in t.nodes ensures Less(m.pfx, x.pfx) <==> Less(m.pfx, f.pfx) || m == f {
        BeforeChild(t, f, false, m);
      }
    } else if f.right != null {
      x := f.right;
      forall m | m in t.nodes ensures Less(m.pfx, x.pfx) <==> Less(m.pfx, f.pfx) || m == f {
        BeforeChild(t, f, true, m);
        NoChild(t, f, false, m);
      }
    } else {
      x := NextUp(t, f);
      forall m | m in t.nodes ensures UpTo(m, f) <==> Less(m.pfx, f.pfx) || m == f {
        NoChild(t, f, false, m);
        NoChild(t, f, true, m);
        if m.pfx == f.pfx { t.PrefixIsUnique(f, m); }
      }
    }
  }

  // The key is larger than everything around f: up to where a right turn is left, above level d.
  method PastLarger(t: Table, dest: Address, bitlen: nat, f: Node, d: nat) returns (x: Node?)
    requires t.Links() && t.Wide(dest) && bitlen <= t.maxaddrlen && f in t.nodes && t.OnPath(dest, f)
    requires d < bitlen && d < |f.pfx| && f.pfx[..d] == Prefix(dest, d) && f.pfx[d] != BitSet(dest, d) &&
      BitSet(dest, d)
    ensures x != null ==> x in t.nodes
    ensures NodesAfter(t, Prefix(dest, bitlen), x)
  {
    ghost var k := Prefix(dest, bitlen);
    var y := f;
    while true
      invariant y in t.nodes && y.pfx <= f.pfx
      invariant |y.pfx| <= d ==> forall m <- t.nodes :: UpTo(m, y) <==> !Less(k, m.pfx)
      decreases |y.pfx|
    {
      var p := y.parent;
      assert t.UpOk(y) && t.BitOk(y);
      if p != null {
        assert t.LeftOk(p) && t.RightOk(p) && t.BitOk(p) && t.UpOk(p);
        assert t.Follows(dest, p, f);
        assert p.bit != d;
      }
      if p == null || p.bit < d {
        forall m | m in t.nodes ensures UpTo(m, y) <==> !Less(k, m.pfx) {
          if d < |y.pfx| { AroundTop(t, dest, bitlen, f, d, y, m); LessTotal(m.pfx, k); }
        }
      }
      if p == null {
        forall m | m in t.nodes ensures UpTo(m, y) { t.RootAbove(m); t.AboveIsPrefix(y, m); }
        return null;
      }
      if !(p.bit > d || p.right == null || p.right == y) {
        forall m | m in t.nodes ensures Less(m.pfx, p.right.pfx) <==> !Less(k, m.pfx) {
          BeforeChild(t, p, true, m);
          UpToChild(t, p, false, m);
        }
        return p.right;
      }
      forall m | m in t.nodes && p.bit < d ensures UpTo(m, p) <==> !Less(k, m.pfx) {
        UpToChild(t, p, p.right == y, m);
        if p.right == null {
          NoChild(t, p, true, m);
          if p.pfx == m.pfx { t.PrefixIsUnique(p, m); }
        }
      }
      y := p;
    }
  }

  // The key is smaller than everything around f.
  method PastSmaller(t: Table, dest: Address, bitlen: nat, f: Node, d: nat) returns (x: Node)
    requires t.Links() && t.Wide(dest) && bitlen <= t.maxaddrlen && f in t.nodes && t.OnPath(dest, f)
    requires d < bitlen && d < |f.pfx| && f.pfx[..d] == Prefix(dest, d) && f.pfx[d] != BitSet(dest, d) &&
      !BitSet(dest, d)
    ensures x in t.nodes
    ensures NodesAfter(t, Prefix(dest, bitlen), x)
  {
    ghost var k := Prefix(dest, bitlen);
    x := t.Climb(f, d + 1);
    if x.parent != null {
      assert t.UpOk(x) && t.LeftOk(x.parent) && t.RightOk(x.parent) && t.BitOk(x.parent);
      assert t.Follows(dest, x.parent, f);
    }
    forall m | m in t.nodes ensures Less(m.pfx, x.pfx) <==> !Less(k, m.pfx) {
      AroundTop(t, dest, bitlen, f, d, x, m);
      LessTotal(m.pfx, k);
      if x.pfx < m.pfx { PrefixIsLess(x.pfx, m.pfx); } else { LessIrreflexive(x.pfx); }
    }
  }

  // The node to go on from; k is the key, which is stored or not.
  ghost predicate GoesOn(t: Table, dest: Address, bitlen: nat, x: Node?)
    requires t.Wide(dest) && bitlen <= t.maxaddrlen
    reads t`nodes, t`entries, t.nodes`rth, t.nodes`pfx, (if x == null then {} else {x})`rth
    reads (if x == null then {} else {x})`pfx
  {
    var k := Prefix(dest, bitlen);
    && (Stranded(t, k) ==> x != null && exists p :: Extends(p, x.pfx, false) && Extends(p, k, true))
    && (Detoured(t, dest, bitlen) ==> x != null && x.rth != null && Skips(t, k, x))
    && (!Stranded(t, k) && !Detoured(t, dest, bitlen) ==> NodesAfter(t, k, x))
    && (k !in t.entries && Continued(t, k) ==> x != null && x.rth != null && k < x.pfx)
  }

  // Some stored key is longer than k and starts with it.
  ghost predicate Continued(t: Table, k: Bits)
    reads t`entries
  {
    exists p :: p in t.entries && k < p
  }

  lemma ContinuedIs(t: Table, dest: Address, bitlen: nat, f: Node)
    requires t.Links() && t.Content() && t.Wide(dest) && bitlen <= t.maxaddrlen && Landed(t, dest, bitlen, f)
    ensures Prefix(dest, bitlen) !in t.entries ==>
      (Continued(t, Prefix(dest, bitlen)) <==> Prefix(dest, bitlen) < f.pfx)
  {
    var k := Prefix(dest, bitlen);
    assert t.EntryOk(f) && f.pfx in t.entries;
    if Continued(t, k) {
      var p :| p in t.entries && k < p;
      assert t.ListedOk(p);
      AboveExtensions(t, dest, bitlen, f, t.entries[p].rtn);
      PrefixOrEqual(k, f.pfx);
    }
  }

  // Where the key leaves the bits of f.
  method PartingBit(t: Table, dest: Address, bitlen: nat, f: Node, bits2chk: nat) returns (d: nat)
    requires t.Links() && t.Content() && t.Wide(dest) && bitlen <= t.maxaddrlen && Landed(t, dest, bitlen, f)
    requires bits2chk == if f.bit < bitlen then f.bit else bitlen
    ensures d >= bits2chk ==> if f.bit <= bitlen then f.pfx <= Prefix(dest, bitlen) else Prefix(dest, bitlen) < f.pfx
    ensures d < bits2chk ==> f.pfx[..d] == Prefix(dest, d) && f.pfx[d] != BitSet(dest, d)
    ensures d < bits2chk ==> !(f.pfx <= Prefix(dest, bitlen)) && !(Prefix(dest, bitlen) <= f.pfx)
  {
    ghost var k := Prefix(dest, bitlen);
    assert t.EntryOk(f) && t.ListedOk(f.pfx);
    d := FirstDifference(dest, f.rth.addr, bits2chk);
    t.SharedBits(dest, f, if d < bits2chk then d else bits2chk);
    if d >= bits2chk {
      assert f.pfx[..bits2chk] == k[..bits2chk];
    } else {
      assert f.pfx[d] != k[d];
    }
  }

  // Where the search for the key after dest leads.
  method After(t: Table, dest: Address, bitlen: nat) returns (x: Node?)
    requires t.Links() && t.Content() && t.Wide(dest) && bitlen <= t.maxaddrlen && t.root != null
    ensures x != null ==> x in t.nodes
    ensures GoesOn(t, dest, bitlen, x)
  {
    ghost var k := Prefix(dest, bitlen);
    var f := t.FindEntry(dest, bitlen);
    assert Landed(t, dest, bitlen, f);
    StrandedIs(t, dest, bitlen, f);
    DetouredIs(t, dest, bitlen, f);
    ContinuedIs(t, dest, bitlen, f);
    var bits2chk := if f.bit < bitlen then f.bit else bitlen;
    var d := PartingBit(t, dest, bitlen, f, bits2chk);
    if d >= bits2chk {
      if f.bit <= bitlen {
        x := PastExact(t, dest, bitlen, f);
      } else {
        x := f;
        if !Detoured(t, dest, bitlen) { StayAt(t, k, f); }
      }
    } else {
      x := PastParting(t, dest, bitlen, f, d);
    }
  }

  // The key and the node found part at bit d.
  method PastParting(t: Table, dest: Address, bitlen: nat, f: Node, d: nat) returns (x: Node?)
    requires t.Links() && t.Wide(dest) && bitlen <= t.maxaddrlen && f in t.nodes && t.OnPath(dest, f)
    requires d < bitlen && d < |f.pfx| && f.pfx[..d] == Prefix(dest, d) && f.pfx[d] != BitSet(dest, d)
    ensures x != null ==> x in t.nodes
    ensures NodesAfter(t, Prefix(dest, bitlen), x)
  {
    if BitSet(dest, d) {
      x := PastLarger(t, dest, bitlen, f, d);
    } else {
      x := PastSmaller(t, dest, bitlen, f, d);
    }
  }

  // The entry r sits at node n, before the key or with an entry skipped: it is not the next one.
  lemma NotNext(t: Table, k: Bits, n: Node)
    requires t.Links() && t.Content() && n in t.nodes && n.rth != null
    requires Less(n.pfx, k) || Skips(t, k, n)
    ensures !NextKey(t, k, n.rth)
  {
    assert t.EntryOk(n);
    LessTotal(n.pfx, k);
    if Skips(t, k, n) {
      var m :| m in t.nodes && Skipped(t, k, n, m);
      assert t.EntryOk(m);
      PrefixIsLess(k, m.pfx);
    }
    forall b | b in t.entries && t.entries[b] == n.rth ensures b == n.pfx {
      assert t.ListedOk(b) && t.ListedOk(n.pfx);
    }
  }

  // The entry sits in the tree under the key of its node.
  ghost predicate Stored(t: Table, r: Head)
    reads t`nodes, t`entries, t.nodes`pfx, r`rtn
  {
    r.rtn != null && r.rtn in t.nodes && r.rtn.pfx in t.entries && t.entries[r.rtn.pfx] == r
  }

  // Not at the key or above it; and in the key's subtree, if the key itself is not stored but others start with it.
  ghost predicate Near(t: Table, k: Bits, r: Head?)
    reads t`nodes, t`entries, t.nodes`pfx, (if r == null then {} else {r})`rtn
  {
    && (r != null ==> Stored(t, r) && !(r.rtn.pfx <= k))
    && (k !in t.entries && Continued(t, k) ==> r != null && k < r.rtn.pfx)
  }

  // The least stored key.
  ghost predicate FirstKey(t: Table, r: Head?)
    reads t`entries
  {
    if r == null then t.entries == map[] else
      exists b :: b in t.entries && t.entries[b] == r && forall p <- t.entries :: !Less(p, b)
  }

  lemma FirstNode(t: Table, n: Node)
    requires t.Links() && t.Content() && n in t.nodes && n.rth != null && t.root != null
    requires forall m <- t.nodes :: m.rth != null ==> (Less(m.pfx, n.pfx) <==> Less(m.pfx, t.root.pfx))
    ensures FirstKey(t, n.rth)
  {
    assert t.EntryOk(n);
    forall p | p in t.entries ensures !Less(p, n.pfx) {
      assert t.ListedOk(p);
      var m := t.entries[p].rtn;
      t.RootAbove(m);
      t.AboveIsPrefix(t.root, m);
      if m == t.root { LessIrreflexive(m.pfx); } else { PrefixIsLess(t.root.pfx, m.pfx); }
    }
  }

  lemma Empty(t: Table)
    requires t.Links() && t.Content() && t.root == null
    ensures t.entries == map[]
  {
    assert t.RootOk();
    t.EntriesHaveNodes();
  }

  lemma OwnEntry(t: Table, n: Node)
    requires t.Links() && t.Content() && n in t.nodes && n.rth != null
    ensures Stored(t, n.rth) && n.rth.rtn == n
  {
    assert t.EntryOk(n) && t.ListedOk(n.pfx);
    t.PrefixIsUnique(n.rth.rtn, n);
  }

  // The result is the entry that follows the key, exactly unless the key is stranded or detoured.
  method GetNext(t: Table, dest: Option<Address>, bitlen: nat) returns (r: Head?)
    requires t.Links() && t.Content() && (dest.Some? ==> t.Wide(dest.value)) && (t.debug || bitlen <= t.maxaddrlen)
    ensures bitlen > t.maxaddrlen ==> r == null
    ensures bitlen <= t.maxaddrlen && dest.None? ==> FirstKey(t, r)
    ensures bitlen <= t.maxaddrlen && dest.Some? ==>
      (NextKey(t, Prefix(dest.value, bitlen), r) <==>
        !Stranded(t, Prefix(dest.value, bitlen)) && !Detoured(t, dest.value, bitlen))
    ensures bitlen <= t.maxaddrlen && dest.Some? ==> Near(t, Prefix(dest.value, bitlen), r)
  {
    if t.debug && bitlen > t.maxaddrlen {
      return null;
    }
    if t.root == null {
      Empty(t);
      return null;
    }
    var x: Node? := t.root;
    if dest.Some? {
      x := After(t, dest.value, bitlen);
      if x == null {
        NextNode(t, Prefix(dest.value, bitlen), null);
        return null;
      }
    }
    var n := FirstEntry(t, x);
    r := n.rth;
    OwnEntry(t, n);
    if dest.None? {
      FirstNode(t, n);
    } else {
      Arrived(t, dest.value, bitlen, x, n);
    }
  }

  lemma Arrived(t: Table, dest: Address, bitlen: nat, x: Node, n: Node)
    requires t.Links() && t.Content() && t.Wide(dest) && bitlen <= t.maxaddrlen && x in t.nodes && n in t.nodes
    requires GoesOn(t, dest, bitlen, x) && n.rth != null && x.pfx <= n.pfx && (x.rth != null ==> n == x)
    requires forall m <- t.nodes :: m.rth != null ==> (Less(m.pfx, n.pfx) <==> Less(m.pfx, x.pfx))
    ensures NextKey(t, Prefix(dest, bitlen), n.rth) <==>
      !Stranded(t, Prefix(dest, bitlen)) && !Detoured(t, dest, bitlen)
    ensures !(n.pfx <= Prefix(dest, bitlen))
  {
    var k := Prefix(dest, bitlen);
    LessTotal(n.pfx, k);
    LessIrreflexive(n.pfx);
    if n.pfx < k { PrefixIsLess(n.pfx, k); }
    if Stranded(t, k) {
      var p :| Extends(p, x.pfx, false) && Extends(p, k, true);
      SidesAreOrdered(p, n.pfx, k);
      NotNext(t, k, n);
    } else if Detoured(t, dest, bitlen) {
      NotNext(t, k, n);
    } else {
      NextNode(t, k, n);
    }
  }

  // A new entry for a key.
  method Put(t: Table, addr: Address, bitlen: nat)
    requires t.Valid() && t.Wide(addr) && bitlen <= t.maxaddrlen && Prefix(addr, bitlen) !in t.entries
    modifies t, t.nodes
    ensures t.Valid() && t.entries.Keys == old(t.entries.Keys) + {Prefix(addr, bitlen)} && fresh(t.nodes - old(t.nodes))
  {
    var h := new Head(addr);
    var r := t.Insert(h, bitlen, true, true);
  }

  // A table with two keys, for which the search goes wrong.
  method TableOfTwo(addr1: Address, bitlen1: nat, addr2: Address, bitlen2: nat) returns (t: Table)
    requires |addr1| == |addr2| == 2 && bitlen1 <= 8 && bitlen2 <= 8 && Prefix(addr1, bitlen1) != Prefix(addr2, bitlen2)
    ensures t.Valid() && t.maxaddrlen == 8 && t.entries.Keys == {Prefix(addr1, bitlen1), Prefix(addr2, bitlen2)}
  {
    t := new Table(8);
    Put(t, addr1, bitlen1);
    Put(t, addr2, bitlen2);
  }

  // With the default route and 0/1 stored, nothing comes after 1/1; the search does not answer so.
  method StrandedExample() returns (t: Table, r: Head?)
    ensures t.Valid() && t.entries.Keys == {[], [false]}
    ensures NextKey(t, [true], null) && !NextKey(t, [true], r)
  {
    var zero, dest: Address := [0x00, 0x00], [0x80, 0x00];
    Masks();
    assert Prefix(zero, 0) == [] && Prefix(zero, 1) == [false] && Prefix(dest, 1) == [true];
    t := TableOfTwo(zero, 0, zero, 1);
    assert [false] in t.entries.Keys && Extends([], [false], false);
    assert StrandedAt(t, [true], []);
    r := GetNext(t, Some(dest), 1);
  }

  lemma DetourHere(t: Table, dest: Address)
    requires t.Wide(dest) && t.maxaddrlen == 8 && BitSet(dest, 1)
    requires t.entries.Keys == {[false, false], [false, true]}
    ensures Detoured(t, dest, 0) && NextKey(t, [], t.entries[[false, false]])
  {
    var p, q := [false, false], [false, true];
    assert Prefix(dest, 0) == [];
    CommonIs(p, q, 1);
    CommonIs(p, p, 2);
    CommonIs([], p, 0);
    assert p[..1] == q[..1] == [false];
    assert forall s <- t.entries :: s == p || s == q;
    assert DetouredAt(t, dest, 0, p, q);
    assert p in t.entries && Less([], p) && !Less(p, p) && !Less(q, p);
  }

  method DetouredTable() returns (t: Table, dest: Address)
    ensures t.Valid() && t.maxaddrlen == 8 && t.entries.Keys == {[false, false], [false, true]}
    ensures t.Wide(dest) && !BitSet(dest, 0) && BitSet(dest, 1)
  {
    var zero: Address := [0x00, 0x00];
    dest := [0x40, 0x00];
    Masks();
    assert Prefix(zero, 2) == [false, false] && Prefix(dest, 2) == [false, true];
    t := TableOfTwo(zero, 2, dest, 2);
  }

  // With 00/2 and 01/2 stored, 00/2 comes after the empty key; given an address that starts
  // with 01, the search does not answer so.
  method DetouredSearch(t: Table, dest: Address) returns (r: Head?)
    requires t.Links() && t.Content() && t.Wide(dest) && t.maxaddrlen == 8 && BitSet(dest, 1)
    requires t.entries.Keys == {[false, false], [false, true]}
    ensures NextKey(t, [], t.entries[[false, false]]) && !NextKey(t, [], r)
  {
    r := GetNext(t, Some(dest), 0);
    DetourHere(t, dest);
    assert Prefix(dest, 0) == [];
  }

  method DetouredExample() returns (t: Table, dest: Address, r: Head?)
    ensures t.Valid() && t.Wide(dest) && !BitSet(dest, 0) && BitSet(dest, 1)
    ensures t.entries.Keys == {[false, false], [false, true]}
    ensures NextKey(t, [], t.entries[[false, false]]) && !NextKey(t, [], r)
  {
    t, dest := DetouredTable();
    r := DetouredSearch(t, dest);
  }

  // ---- Subtrees ----

  // The subtree of r holds exactly the stored keys that start with k; no node above it does.
  ghost predicate SubtreeOf(t: Table, k: Bits, r: Node?)
    reads t`nodes, t`entries, t.nodes`pfx
  {
    if r == null then forall p <- t.entries :: !(k <= p)
    else r in t.nodes && k <= r.pfx && (forall m <- t.nodes :: k <= m.pfx <==> r.pfx <= m.pfx)
  }

  // From a node in the subtree up to its top.
  method TopOf(t: Table, f: Node, bitlen: nat, ghost k: Bits) returns (r: Node)
    requires t.Links() && f in t.nodes && k <= f.pfx && |k| == bitlen
    ensures SubtreeOf(t, k, r)
  {
    r := t.Climb(f, bitlen);
    assert k == f.pfx[..bitlen] == r.pfx[..bitlen];
    forall m | m in t.nodes ensures k <= m.pfx <==> r.pfx <= m.pfx {
      if k <= m.pfx { NothingElse(t, k, r, m); }
    }
  }

  // Of two bit strings of which neither the address's own is a prefix of k, sharing bitlen bits means extending k.
  lemma SameStart(a: Address, bitlen: nat, p: Bits, k: Bits)
    requires |p| <= 8 * |a| && Prefix(a, |p|) == p && bitlen <= 8 * |a| && |k| == bitlen && !(p <= k)
    ensures Prefix(a, bitlen) == k <==> k <= p
  {
    var n := if |p| < bitlen then |p| else bitlen;
    assert Prefix(a, bitlen)[..n] == Prefix(a, |p|)[..n];
  }

  lemma PrefixOrEqual(k: Bits, p: Bits)
    ensures k <= p <==> k == p || k < p
  {
    if |k| == |p| { assert p[..|k|] == p; }
  }

  lemma NoSubtree(t: Table, k: Bits)
    requires k !in t.entries && !Continued(t, k)
    ensures SubtreeOf(t, k, null)
  {
    forall p | p in t.entries ensures !(k <= p) {
      PrefixOrEqual(k, p);
    }
  }

  // The address may have bits beyond the key, and the key may be stranded: neither matters here.
  method GetSubtree(t: Table, addr: Option<Address>, bitlen: nat) returns (r: Node?)
    requires t.Links() && t.Content() && (addr.Some? ==> t.Wide(addr.value)) &&
      (t.debug || (addr.Some? && bitlen <= t.maxaddrlen))
    ensures addr.None? || bitlen > t.maxaddrlen ==> r == null
    ensures addr.Some? && bitlen <= t.maxaddrlen ==> SubtreeOf(t, Prefix(addr.value, bitlen), r)
  {
    if t.debug && (bitlen > t.maxaddrlen || addr.None?) {
      return null;
    }
    ghost var k := Prefix(addr.value, bitlen);
    if t.root == null {
      Empty(t);
      return null;
    }
    var h := GetExact(t, addr, bitlen);
    if h != null {
      assert t.ListedOk(k);
      return h.rtn;
    }
    r := SubtreeByNext(t, addr.value, bitlen);
  }

  // No entry has the key itself.
  method SubtreeByNext(t: Table, addr: Address, bitlen: nat) returns (r: Node?)
    requires t.Links() && t.Content() && t.Wide(addr) && bitlen <= t.maxaddrlen && Prefix(addr, bitlen) !in t.entries
    ensures SubtreeOf(t, Prefix(addr, bitlen), r)
  {
    var h := GetNext(t, Some(addr), bitlen);
    r := Within(t, addr, bitlen, h);
  }

  // The top of the subtree, if the next entry h is in it.
  method Within(t: Table, addr: Address, bitlen: nat, h: Head?) returns (r: Node?)
    requires t.Links() && t.Content() && t.Wide(addr) && bitlen <= t.maxaddrlen
    requires Prefix(addr, bitlen) !in t.entries && Near(t, Prefix(addr, bitlen), h)
    ensures SubtreeOf(t, Prefix(addr, bitlen), r)
  {
    if h == null || !(Prefix(addr, bitlen) <= h.rtn.pfx) { NoSubtree(t, Prefix(addr, bitlen)); }
    if h == null {
      return null;
    }
    assert t.ListedOk(h.rtn.pfx);
    SameStart(h.addr, bitlen, h.rtn.pfx, Prefix(addr, bitlen));
    CompareCorrect(addr, h.addr, bitlen);
    if CompareAddress(addr, h.addr, ByteOf(bitlen), MaskOf(bitlen)) != 0 {
      return null;
    }
    r := TopOf(t, h.rtn, bitlen, Prefix(addr, bitlen));
  }
}

// The shape of the radix tree: it depends on the set of keys and on nothing else.
module RdxShape {
  import opened RdxBits
  import opened RdxTable
  import opened RdxNext

  // ---- Shapes as values ----

  datatype Trie = Nil | Fork(bits: Bits, entry: bool, left: Trie, right: Trie)

  // The keys that continue p on one side.
  ghost function Side(keys: set<Bits>, p: Bits, side: bool): set<Bits> {
    set k | k in keys && Extends(p, k, side)
  }

  // A path-compressed tree for exactly these keys: every fork carries a key or branches.
  ghost predicate Represents(x: Trie, keys: set<Bits>)
    decreases x
  {
    match x
    case Nil => keys == {}
    case Fork(p, entry, left, right) =>
      && (forall k <- keys :: p <= k)
      && (entry <==> p in keys)
      && (!entry ==> left.Fork? && right.Fork?)
      && Represents(left, Side(keys, p, false))
      && Represents(right, Side(keys, p, true))
  }

  lemma {:induction false} ForkHasKey(x: Trie, keys: set<Bits>) returns (k: Bits)
    requires Represents(x, keys) && x.Fork?
    ensures k in keys && x.bits <= k
    decreases x
  {
    if x.entry {
      k := x.bits;
    } else {
      k := ForkHasKey(x.left, Side(keys, x.bits, false));
    }
  }

  // The bits of the topmost fork are the longest start that all keys share.
  lemma NoLongerStart(x: Trie, keys: set<Bits>, p: Bits)
    requires Represents(x, keys) && x.Fork? && forall k <- keys :: p <= k
    ensures |p| <= |x.bits|
  {
    if x.entry {
      assert p <= x.bits;
    } else {
      var k0 := ForkHasKey(x.left, Side(keys, x.bits, false));
      var k1 := ForkHasKey(x.right, Side(keys, x.bits, true));
      assert k0 in keys && k1 in keys && k0[|x.bits|] != k1[|x.bits|];
    }
  }

  lemma {:induction false} Unique(x: Trie, y: Trie, keys: set<Bits>)
    requires Represents(x, keys) && Represents(y, keys)
    ensures x == y
    decreases x
  {
    if x == Nil || y == Nil {
      if x.Fork? { var k := ForkHasKey(x, keys); }
      if y.Fork? { var k := ForkHasKey(y, keys); }
    } else {
      NoLongerStart(x, keys, y.bits);
      NoLongerStart(y, keys, x.bits);
      var k := ForkHasKey(x, keys);
      assert x.bits == k[..|x.bits|] == y.bits;
      Unique(x.left, y.left, Side(keys, x.bits, false));
      Unique(x.right, y.right, Side(keys, x.bits, true));
    }
  }

  // ---- The shape of a table ----

  ghost function Shape(t: Table, x: Node?): Trie
    requires t.Links() && (x == null || x in t.nodes)
    reads t`nodes, t`root, t.nodes
    decreases if x == null then 0 else t.maxaddrlen + 1 - |x.pfx|
  {
    if x == null then Nil else
      assert t.LeftOk(x) && t.RightOk(x) && t.BitOk(x);
      assert x.left != null ==> t.BitOk(x.left);
      assert x.right != null ==> t.BitOk(x.right);
      Fork(x.pfx, x.rth != null, Shape(t, x.left), Shape(t, x.right))
  }

  ghost function Below(t: Table, x: Node): set<Bits>
    reads t`entries, x`pfx
  {
    set k | k in t.entries && x.pfx <= k
  }

  ghost function BelowChild(t: Table, x: Node, side: bool): set<Bits>
    reads t`entries, x`pfx, x`left, x`right, (if t.Child(x, side) == null then {} else {t.Child(x, side)})`pfx
  {
    var c := t.Child(x, side);
    if c == null then {} else Below(t, c)
  }

  lemma ChildHasSide(t: Table, x: Node, side: bool)
    requires t.Links() && t.Content() && x in t.nodes
    ensures BelowChild(t, x, side) == Side(Below(t, x), x.pfx, side)
  {
    assert t.LeftOk(x) && t.RightOk(x);
    var c := t.Child(x, side);
    forall k | k in t.entries && Extends(x.pfx, k, side)
      ensures c != null && c.pfx <= k
    {
      assert t.ListedOk(k);
      var b := t.ChildTowards(x, t.entries[k].rtn);
    }
    if c != null {
      forall k | k in t.entries && c.pfx <= k
        ensures Extends(x.pfx, k, side)
      {
      }
    }
  }

  lemma {:induction false} ShapeRepresents(t: Table, x: Node)
    requires t.Links() && t.Content() && x in t.nodes
    ensures Represents(Shape(t, x), Below(t, x))
    decreases t.maxaddrlen + 1 - |x.pfx|
  {
    assert t.LeftOk(x) && t.RightOk(x) && t.BitOk(x) && t.GlueOk(x) && t.EntryOk(x);
    ChildHasSide(t, x, false);
    ChildHasSide(t, x, true);
    if x.left != null {
      assert t.BitOk(x.left);
      ShapeRepresents(t, x.left);
    }
    if x.right != null {
      assert t.BitOk(x.right);
      ShapeRepresents(t, x.right);
    }
    if x.pfx in t.entries {
      assert t.ListedOk(x.pfx);
      t.PrefixIsUnique(x, t.entries[x.pfx].rtn);
    }
  }

  // The whole table's shape represents its keys.
  lemma TableShape(t: Table)
    requires t.Links() && t.Content()
    ensures t.root != null ==> t.root in t.nodes
    ensures Represents(Shape(t, t.root), t.entries.Keys)
  {
    assert t.RootOk();
    if t.root == null {
      t.EntriesHaveNodes();
    } else {
      forall k | k in t.entries ensures t.root.pfx <= k {
        assert t.ListedOk(k);
        t.RootAbove(t.entries[k].rtn);
        t.AboveIsPrefix(t.root, t.entries[k].rtn);
      }
      assert Below(t, t.root) == t.entries.Keys;
      ShapeRepresents(t, t.root);
    }
  }

  // Tables with the same keys have the same shape, whatever their histories.
  lemma CanonicalShape(t: Table, u: Table)
    requires t.Links() && t.Content() && u.Links() && u.Content() && t.entries.Keys == u.entries.Keys
    ensures (t.root != null ==> t.root in t.nodes) && (u.root != null ==> u.root in u.nodes)
    ensures Shape(t, t.root) == Shape(u, u.root)
  {
    TableShape(t);
    TableShape(u);
    Unique(Shape(t, t.root), Shape(u, u.root), t.entries.Keys);
  }

  // A new entry that is inserted with memory at hand.
  method InsertNew(t: Table, h: Head, bitlen: nat)
    requires t.Valid() && t.Wide(h.addr) && h !in t.entries.Values && bitlen <= t.maxaddrlen
    requires Prefix(h.addr, bitlen) !in t.entries
    modifies t, t.nodes, h`rtn, h`version
    ensures t.Valid() && t.entries == old(t.entries)[Prefix(h.addr, bitlen) := h] && fresh(t.nodes - old(t.nodes))
    ensures h.rtn != null && h.rtn in t.nodes && h.rtn.rth == h
    ensures t.ninserts == old(t.ninserts) + 1 && t.nremoves == old(t.nremoves)
  {
    var r := t.Insert(h, bitlen, true, true);
    assert t.ListedOk(Prefix(h.addr, bitlen));
  }

  lemma UndoneUpdate(m: map<Bits, Head>, k: Bits, h: Head, m1: map<Bits, Head>)
    requires k !in m && h !in m.Values
    requires exists j :: j in m[k := h] && m[k := h][j] == h && m1 == m[k := h] - {j}
    ensures m1 == m
  {
    forall p | p in m ensures m[p] != h { assert m[p] in m.Values; }
    var j :| j in m[k := h] && m[k := h][j] == h && m1 == m[k := h] - {j};
    assert j == k;
  }

  method InsertAndRemove(t: Table, h: Head, bitlen: nat)
    requires t.Valid() && t.Wide(h.addr) && h !in t.entries.Values && bitlen <= t.maxaddrlen
    requires Prefix(h.addr, bitlen) !in t.entries
    modifies t, t.nodes, h`rtn, h`version
    ensures t.Valid() && t.entries == old(t.entries)
    ensures t.ninserts == old(t.ninserts) + 1 && t.nremoves == old(t.nremoves) + 1
  {
    InsertNew(t, h, bitlen);
    t.Remove(h);
    UndoneUpdate(old(t.entries), Prefix(h.addr, bitlen), h, t.entries);
  }

  // Removing what has just been inserted brings back the same tree.
  method InsertThenRemove(t: Table, h: Head, bitlen: nat) returns (ghost before: Trie)
    requires t.Valid() && t.Wide(h.addr) && h !in t.entries.Values && bitlen <= t.maxaddrlen
    requires Prefix(h.addr, bitlen) !in t.entries
    modifies t, t.nodes, h`rtn, h`version
    ensures t.Valid() && t.entries == old(t.entries)
    ensures t.ninserts == old(t.ninserts) + 1 && t.nremoves == old(t.nremoves) + 1
    ensures old(t.root != null ==> t.root in t.nodes) && before == old(Shape(t, t.root))
    ensures (t.root != null ==> t.root in t.nodes) && Shape(t, t.root) == before
  {
    TableShape(t);
    before := Shape(t, t.root);
    ghost var keys := t.entries.Keys;
    InsertAndRemove(t, h, bitlen);
    TableShape(t);
    Unique(before, Shape(t, t.root), keys);
  }

  // ---- Counting ----

  ghost function NodesWith(t: Table, x: Node, entry: bool): set<Node>
    requires x in t.nodes
    reads t`nodes, t.nodes`pfx, t.nodes`rth
  {
    set m | m in t.nodes && x.pfx <= m.pfx && (m.rth != null) == entry
  }

  ghost function NodesBelow(t: Table, x: Node, side: bool, entry: bool): set<Node>
    requires x in t.nodes
    reads t`nodes, t.nodes`pfx, t.nodes`rth
  {
    set m | m in t.nodes && Extends(x.pfx, m.pfx, side) && (m.rth != null) == entry
  }

  lemma ThreeSizes<T>(a: set<T>, b: set<T>, c: set<T>)
    requires a !! b && a !! c && b !! c
    ensures |a + b + c| == |a| + |b| + |c|
  {
    assert a + b !! c;
  }

  lemma NodesAround(t: Table, x: Node, entry: bool)
    requires t.Links() && x in t.nodes
    ensures var own := if (x.rth != null) == entry then {x} else {};
      var l, r := NodesBelow(t, x, false, entry), NodesBelow(t, x, true, entry);
      NodesWith(t, x, entry) == own + l + r && own !! l && own !! r && l !! r
  {
    forall m | m in t.nodes && x.pfx <= m.pfx
      ensures m == x || Extends(x.pfx, m.pfx, false) || Extends(x.pfx, m.pfx, true)
    {
      PrefixOrEqual(x.pfx, m.pfx);
      if x.pfx == m.pfx { t.PrefixIsUnique(x, m); }
    }
  }

  lemma NodesSplit(t: Table, x: Node, entry: bool)
    requires t.Links() && x in t.nodes
    ensures |NodesWith(t, x, entry)| ==
      (if (x.rth != null) == entry then 1 else 0) + |NodesBelow(t, x, false, entry)| + |NodesBelow(t, x, true, entry)|
  {
    NodesAround(t, x, entry);
    var own := if (x.rth != null) == entry then {x} else {};
    ThreeSizes(own, NodesBelow(t, x, false, entry), NodesBelow(t, x, true, entry));
  }

  lemma NodesOfChild(t: Table, x: Node, side: bool, entry: bool)
    requires t.Links() && x in t.nodes
    ensures t.Child(x, side) == null ==> NodesBelow(t, x, side, entry) == {}
    ensures t.Child(x, side) != null ==>
      t.Child(x, side) in t.nodes && NodesBelow(t, x, side, entry) == NodesWith(t, t.Child(x, side), entry)
  {
    assert t.LeftOk(x) && t.RightOk(x);
    var c := t.Child(x, side);
    forall m | m in t.nodes
      ensures Extends(x.pfx, m.pfx, side) <==> c != null && c.pfx <= m.pfx
    {
      if Extends(x.pfx, m.pfx, side) { var b := t.ChildTowards(x, m); }
    }
  }

  // In every subtree there are more entries than branching points without one.
  lemma {:induction false} FewerForks(t: Table, x: Node)
    requires t.Links() && t.Branching() && x in t.nodes
    ensures |NodesWith(t, x, false)| < |NodesWith(t, x, true)|
    decreases t.maxaddrlen + 1 - |x.pfx|
  {
    assert t.LeftOk(x) && t.RightOk(x) && t.BitOk(x) && t.GlueOk(x);
    NodesSplit(t, x, false);
    NodesSplit(t, x, true);
    FewerBelow(t, x, false);
    FewerBelow(t, x, true);
  }

  lemma {:induction false} FewerBelow(t: Table, x: Node, side: bool)
    requires t.Links() && t.Branching() && x in t.nodes
    ensures |NodesBelow(t, x, side, false)| + (if t.Child(x, side) == null then 0 else 1) <=
      |NodesBelow(t, x, side, true)|
    decreases t.maxaddrlen + 1 - |x.pfx|, 0
  {
    NodesOfChild(t, x, side, false);
    NodesOfChild(t, x, side, true);
    assert t.LeftOk(x) && t.RightOk(x) && t.BitOk(x);
    var c := t.Child(x, side);
    if c != null {
      assert t.BitOk(c);
      FewerForks(t, c);
    }
  }

  // A map that is injective on a set keeps its size.
  lemma {:induction false} SameSize(t: Table, s: set<Node>, keys: set<Bits>)
    requires t.Links() && s <= t.nodes && forall k :: k in keys <==> exists m :: m in s && m.pfx == k
    ensures |keys| == |s|
    decreases |s|
  {
    if s == {} {
      assert keys == {};
    } else {
      var n :| n in s;
      forall m | m in s && m.pfx == n.pfx ensures m == n { t.PrefixIsUnique(m, n); }
      var s1, keys1 := s - {n}, keys - {n.pfx};
      forall k ensures k in keys1 <==> exists m :: m in s1 && m.pfx == k {
        if k in keys1 { var m :| m in s && m.pfx == k; assert m in s1; }
      }
      SameSize(t, s1, keys1);
    }
  }

  // The counters: as many nodes as were allocated and not given back, as many routes as
  // entries, and at most one node without an entry less than there are routes.
  lemma Accounting(t: Table)
    requires t.Valid()
    ensures t.inodes == |t.nodes| == t.nmalloc - t.nfree && t.routes == |t.entries|
    ensures if t.entries == map[] then t.inodes == 0 else t.routes <= t.inodes <= 2 * t.routes - 1
  {
    assert t.RootOk();
    t.EntriesHaveNodes();
    if t.root != null {
      var root := t.root;
      var e, g := NodesWith(t, root, true), NodesWith(t, root, false);
      forall m | m in t.nodes ensures root.pfx <= m.pfx { t.RootAbove(m); t.AboveIsPrefix(root, m); }
      assert t.nodes == e + g && e !! g;
      FewerForks(t, root);
      forall k ensures k in t.entries.Keys <==> exists m :: m in e && m.pfx == k {
        if k in t.entries { assert t.ListedOk(k) && t.entries[k].rtn in e; }
        if m :| m in e && m.pfx == k { assert t.EntryOk(m); }
      }
      SameSize(t, e, t.entries.Keys);
    }
  }
}

// Nodes and table of the path-compressed radix tree.
module RdxTable {
  import opened RdxBits

  // What the user puts on the tree: an address, and the node it is attached to.
  class Head {
    const addr: Address
    var rtn: Node?
    var version: nat

    constructor (addr: Address)
      ensures this.addr == addr && rtn == null && version == 0
    {
      this.addr := addr;
      rtn := null;
      version := 0;
    }
  }

  class Node {
    var left: Node?
    var right: Node?
    var parent: Node?
    var bit: nat
    var version: nat
    var rth: Head?
    // The bits that everything below this node starts with.
    ghost var pfx: Bits

    constructor (bit: nat, ghost pfx: Bits)
      ensures left == null && right == null && parent == null && rth == null && version == 0
      ensures this.bit == bit && this.pfx == pfx
    {
      left, right, parent, rth, version := null, null, null, null, 0;
      this.bit := bit;
      this.pfx := pfx;
    }
  }

  // q continues p with the given bit.
  predicate Extends(p: Bits, q: Bits, side: bool) {
    p < q && q[|p|] == side
  }

  // p and q share their first d bits and no more.
  predicate Parts(p: Bits, q: Bits, d: nat) {
    d < |p| && d < |q| && p[..d] == q[..d] && p[d] != q[d]
  }

  class Table {
    const maxaddrlen: nat
    var root: Node?
    var inodes: int
    var routes: int
    var ninserts: nat
    var nremoves: nat
    var nmalloc: nat
    var nfree: nat
    var version: nat
    var debug: bool

    ghost var nodes: set<Node>
    ghost var entries: map<Bits, Head>

    constructor (maxaddrlen: nat)
      ensures this.maxaddrlen == maxaddrlen && Valid() && Versions() && nodes == {} && entries == map[]
    {
      this.maxaddrlen := maxaddrlen;
      root := null;
      inodes, routes, ninserts, nremoves, nmalloc, nfree, version := 0, 0, 0, 0, 0, 0, 0;
      debug := false;
      nodes, entries := {}, map[];
    }

    // The address is long enough for a full-length key; one spare byte is read but masked away.
    predicate Wide(a: Address) {
      ByteOf(maxaddrlen) < |a|
    }

    // ---- Structure ----

    ghost predicate BitOk(n: Node)
      requires n in nodes
      reads this`nodes, nodes`bit, nodes`pfx
    {
      n.bit == |n.pfx| && n.bit <= maxaddrlen
    }

    ghost predicate LeftOk(n: Node)
      requires n in nodes
      reads this`nodes, nodes`left, nodes`parent, nodes`pfx
    {
      n.left != null ==> n.left in nodes && n.left.parent == n && Extends(n.pfx, n.left.pfx, false)
    }

    ghost predicate RightOk(n: Node)
      requires n in nodes
      reads this`nodes, nodes`right, nodes`parent, nodes`pfx
    {
      n.right != null ==> n.right in nodes && n.right.parent == n && Extends(n.pfx, n.right.pfx, true)
    }

    ghost predicate UpOk(n: Node)
      requires n in nodes
      reads this`nodes, this`root, nodes`left, nodes`right, nodes`parent
    {
      if n.parent == null then n == root else
        n.parent in nodes && (n.parent.left == n || n.parent.right == n)
    }

    ghost predicate RootOk()
      reads this`nodes, this`root, nodes`parent
    {
      if root == null then nodes == {} else root in nodes && root.parent == null
    }

    ghost predicate Links()
      reads this`nodes, this`root, nodes`left, nodes`right, nodes`parent, nodes`bit, nodes`pfx
    {
      && RootOk()
      && (forall n {:trigger BitOk(n)} :: n in nodes ==> BitOk(n))
      && (forall n {:trigger LeftOk(n)} :: n in nodes ==> LeftOk(n))
      && (forall n {:trigger RightOk(n)} :: n in nodes ==> RightOk(n))
      && (forall n {:trigger UpOk(n)} :: n in nodes ==> UpOk(n))
    }

    // A node without an entry is a branching point.
    ghost predicate GlueOk(n: Node)
      requires n in nodes
      reads this`nodes, nodes`left, nodes`right, nodes`rth
    {
      n.rth == null ==> n.left != null && n.right != null
    }

    // The entry at a node is the one the table maps the node's bits to.
    ghost predicate EntryOk(n: Node)
      requires n in nodes
      reads this`nodes, this`entries, nodes`rth, nodes`pfx
    {
      n.rth != null ==> n.pfx in entries && entries[n.pfx] == n.rth
    }

    ghost predicate ListedOk(k: Bits)
      requires k in entries
      reads this`nodes, this`entries, nodes`rth, nodes`pfx, entries.Values`rtn
    {
      var h := entries[k];
      && h.rtn != null && h.rtn in nodes && h.rtn.rth == h && h.rtn.pfx == k
      && Wide(h.addr) && |k| <= 8 * |h.addr| && Prefix(h.addr, |k|) == k
    }

    ghost predicate Branching()
      reads this`nodes, nodes`left, nodes`right, nodes`rth
    {
      forall n {:trigger GlueOk(n)} :: n in nodes ==> GlueOk(n)
    }

    ghost predicate Content()
      reads this`nodes, this`entries, nodes`left, nodes`right, nodes`rth, nodes`pfx, entries.Values`rtn
    {
      && Branching()
      && (forall n {:trigger EntryOk(n)} :: n in nodes ==> EntryOk(n))
      && (forall k {:trigger ListedOk(k)} :: k in entries ==> ListedOk(k))
    }

    ghost predicate Counts()
      reads this
    {
      inodes == |nodes| && routes == |entries| && inodes == nmalloc - nfree
    }

    ghost predicate Valid()
      reads this, nodes, entries.Values
    {
      Links() && Content() && Counts()
    }

    // The version of a node bounds the versions of everything below it.
    ghost predicate VersionOk(n: Node)
      requires n in nodes
      reads this`nodes, this`version, nodes`parent, nodes`version
    {
      n.version <= version && (n.parent != null && n.parent in nodes ==> n.version <= n.parent.version)
    }

    ghost predicate EntryVersionOk(k: Bits)
      requires k in entries
      reads this`nodes, this`entries, nodes`version, entries.Values`rtn, entries.Values`version
    {
      var h := entries[k];
      h.rtn != null && h.rtn in nodes && h.version <= h.rtn.version
    }

    ghost predicate NodeVersions()
      reads this`nodes, this`version, nodes`parent, nodes`version
    {
      forall n {:trigger VersionOk(n)} :: n in nodes ==> VersionOk(n)
    }

    ghost predicate Versions()
      reads this`nodes, this`version, this`entries, nodes`parent, nodes`version, entries.Values`rtn
      reads entries.Values`version
    {
      && NodeVersions()
      && (forall k {:trigger EntryVersionOk(k)} :: k in entries ==> EntryVersionOk(k))
    }

    // ---- Ancestors ----

    // a is m or a node on the way from m up to the root.
    ghost predicate Above(a: Node, m: Node)
      requires Links() && m in nodes
      reads this`nodes, this`root, nodes`left, nodes`right, nodes`parent, nodes`bit, nodes`pfx
      decreases |m.pfx|
    {
      a == m || (assert UpOk(m); m.parent != null && (assert LeftOk(m.parent) && RightOk(m.parent); Above(a, m.parent)))
    }

    lemma {:induction false} AboveIsPrefix(a: Node, m: Node)
      requires Links() && m in nodes && Above(a, m)
      ensures a in nodes && a.pfx <= m.pfx && (a.pfx == m.pfx ==> a == m)
      decreases |m.pfx|
    {
      if a != m {
        assert UpOk(m);
        assert LeftOk(m.parent) && RightOk(m.parent);
        AboveIsPrefix(a, m.parent);
      }
    }

    lemma {:induction false} RootAbove(m: Node)
      requires Links() && m in nodes
      ensures root != null && Above(root, m)
      decreases |m.pfx|
    {
      assert UpOk(m);
      if m.parent != null {
        assert LeftOk(m.parent) && RightOk(m.parent);
        RootAbove(m.parent);
      }
    }

    lemma {:induction false} AboveTransitive(a: Node, b: Node, m: Node)
      requires Links() && m in nodes && b in nodes && Above(a, b) && Above(b, m)
      ensures Above(a, m)
      decreases |m.pfx|
    {
      if b != m {
        assert UpOk(m) && LeftOk(m.parent) && RightOk(m.parent);
        AboveTransitive(a, b, m.parent);
      }
    }

    // Below a node, the way down to m starts at the child on the side of m's bit.
    lemma {:induction false} ChildOnPath(a: Node, m: Node) returns (c: Node)
      requires Links() && m in nodes && Above(a, m) && a != m
      ensures a in nodes && a.pfx < m.pfx && c in nodes && c.parent == a
      ensures c == if m.pfx[|a.pfx|] then a.right else a.left
      ensures Above(c, m) && c.pfx <= m.pfx
      decreases |m.pfx|
    {
      AboveIsPrefix(a, m);
      assert UpOk(m) && LeftOk(m.parent) && RightOk(m.parent);
      if a == m.parent {
        c := m;
      } else {
        c := ChildOnPath(a, m.parent);
      }
    }

    // Nodes are arranged exactly by the prefix order of their bits.
    lemma {:induction false} PrefixIsAbove(a: Node, m: Node)
      requires Links() && a in nodes && m in nodes && a.pfx <= m.pfx
      ensures Above(a, m)
      decreases |a.pfx|
    {
      assert UpOk(a);
      if a.parent == null {
        RootAbove(m);
      } else {
        var p := a.parent;
        assert LeftOk(p) && RightOk(p);
        PrefixIsAbove(p, m);
        var c := ChildOnPath(p, m);
        assert m.pfx[|p.pfx|] == a.pfx[|p.pfx|];
        assert c == a;
      }
    }

    // The trie property: whatever continues a's bits hangs below the child on that side.
    lemma ChildTowards(a: Node, m: Node) returns (c: Node)
      requires Links() && a in nodes && m in nodes && a.pfx < m.pfx
      ensures c in nodes && c.parent == a && c.pfx <= m.pfx
      ensures c == if m.pfx[|a.pfx|] then a.right else a.left
    {
      PrefixIsAbove(a, m);
      c := ChildOnPath(a, m);
    }

    lemma PrefixIsUnique(a: Node, m: Node)
      requires Links() && a in nodes && m in nodes && a.pfx == m.pfx
      ensures a == m
    {
      PrefixIsAbove(a, m);
      AboveIsPrefix(a, m);
    }

    ghost predicate NodeAt(k: Bits)
      reads this`nodes, nodes`pfx
    {
      exists n :: n in nodes && n.pfx == k
    }

    lemma SharedStart(s: Bits, p: Bits, q: Bits, d: nat)
      requires s <= p && d <= |p| && d <= |q| && p[..d] == q[..d]
      ensures |s| <= d ==> s <= q
    {
      assert |s| <= d ==> s == p[..d][..|s|] == q[..d][..|s|];
    }

    // Where two nodes part, there is a node.
    lemma {:induction false} ForkAt(m: Node, f: Node, d: nat)
      requires Links() && m in nodes && f in nodes && Parts(m.pfx, f.pfx, d)
      ensures NodeAt(m.pfx[..d])
      decreases |f.pfx|
    {
      assert UpOk(f);
      if f.parent == null {
        RootAbove(m);
        AboveIsPrefix(f, m);
      } else {
        var a := f.parent;
        assert LeftOk(a) && RightOk(a);
        if a.pfx <= m.pfx {
          assert forall i :: 0 <= i < d ==> m.pfx[i] == m.pfx[..d][i] == f.pfx[..d][i] == f.pfx[i];
          var b := ChildTowards(a, m);
          assert a.pfx == m.pfx[..d];
        } else {
          SharedStart(a.pfx, f.pfx, m.pfx, d);
          assert a.pfx[..d] == f.pfx[..d];
          ForkAt(m, a, d);
        }
      }
    }

    // The key leaves the tree between a node and its parent, where there is no node.
    ghost predicate LeavesEdge(k: Bits)
      reads this`nodes, nodes`pfx
    {
      exists m, d: nat :: m in nodes && Parts(k, m.pfx, d) && !NodeAt(k[..d])
    }

    // One node is allocated and given back, for want of the other one.
    ghost predicate InVain(k: Bits, mem1: bool, mem2: bool)
      reads this`nodes, nodes`pfx
    {
      !NodeAt(k) && mem1 && !mem2 && LeavesEdge(k)
    }

    // The memory that a new key takes: none where a node is, else a node, and another one
    // where the key leaves an edge.
    ghost predicate Room(k: Bits, mem1: bool, mem2: bool)
      reads this`nodes, nodes`pfx
    {
      NodeAt(k) || (mem1 && (mem2 || !LeavesEdge(k)))
    }

    // ---- Descent ----

    // If f continues a, it does so with the address's bit.
    ghost predicate Follows(addr: Address, a: Node, f: Node)
      requires Wide(addr) && a in nodes && f in nodes && |a.pfx| <= maxaddrlen
      reads this`nodes, nodes`pfx
    {
      a.pfx < f.pfx ==> f.pfx[|a.pfx|] == BitSet(addr, |a.pfx|)
    }

    // The way from the root to f has taken the address's side at every node.
    ghost predicate OnPath(addr: Address, f: Node)
      requires Links() && Wide(addr) && f in nodes
      reads this`nodes, this`root, nodes`left, nodes`right, nodes`parent, nodes`bit, nodes`pfx
    {
      forall a {:trigger Follows(addr, a, f)} :: a in nodes ==> (assert BitOk(a); Follows(addr, a, f))
    }

    ghost function Child(n: Node, side: bool): Node?
      reads n`left, n`right
    {
      if side then n.right else n.left
    }

    lemma RootOnPath(addr: Address)
      requires Links() && Wide(addr) && root != null
      ensures OnPath(addr, root)
    {
      forall a | a in nodes
        ensures BitOk(a) && Follows(addr, a, root)
      {
        if a.pfx < root.pfx {
          PrefixIsAbove(a, root);
        }
      }
    }

    lemma StepOnPath(addr: Address, f: Node, c: Node)
      requires Links() && Wide(addr) && f in nodes && OnPath(addr, f) && BitOk(f)
      requires c == Child(f, BitSet(addr, f.bit))
      ensures c in nodes && |c.pfx| > |f.pfx| && OnPath(addr, c)
    {
      assert LeftOk(f) && RightOk(f);
      forall a | a in nodes
        ensures BitOk(a) && Follows(addr, a, c)
      {
        assert BitOk(a) && Follows(addr, a, f);
        if a.pfx < c.pfx {
          PrefixIsAbove(a, c);
          AboveIsPrefix(a, f);
        }
      }
    }

    // No node between level n and f holds an entry.
    ghost predicate Bare(a: Node, f: Node, n: nat)
      requires a in nodes && f in nodes
      reads this`nodes, nodes`rth, nodes`bit, nodes`pfx
    {
      a.pfx < f.pfx && a.bit >= n ==> a.rth == null
    }

    // Down to the first entry at level bitlen or below, or to a missing child.
    method FindEntry(addr: Address, bitlen: nat) returns (f: Node)
      requires Links() && Content() && Wide(addr) && root != null
      ensures f in nodes && f.rth != null && OnPath(addr, f) && BitOk(f)
      ensures f.bit < bitlen ==> Child(f, BitSet(addr, f.bit)) == null
      ensures forall a {:trigger Bare(a, f, bitlen)} :: a in nodes ==> Bare(a, f, bitlen)
    {
      f := root;
      RootOnPath(addr);
      forall a | a in nodes
        ensures Bare(a, f, bitlen)
      {
        if a.pfx < f.pfx { PrefixIsAbove(a, f); }
      }
      while f.bit < bitlen || f.rth == null
        invariant f in nodes && OnPath(addr, f)
        invariant forall a {:trigger Bare(a, f, bitlen)} :: a in nodes ==> Bare(a, f, bitlen)
        decreases maxaddrlen - |f.pfx|
      {
        assert BitOk(f) && GlueOk(f);
        ghost var g := f;
        if BitSet(addr, f.bit) {
          if f.right == null {
            break;
          }
          StepOnPath(addr, f, f.right);
          f := f.right;
        } else {
          if f.left == null {
            break;
          }
          StepOnPath(addr, f, f.left);
          f := f.left;
        }
        assert BitOk(f) && BitOk(g) && LeftOk(g) && RightOk(g);
        forall a | a in nodes
          ensures Bare(a, f, bitlen)
        {
          if a.pfx < f.pfx {
            PrefixIsAbove(a, f);
            AboveIsPrefix(a, g);
            assert Bare(a, g, bitlen);
          }
        }
      }
      assert BitOk(f);
    }

    // ---- Insertion ----

    // Where a key with these bits parts from the tree: its first d bits run to
    // node r, which starts at or below level d and hangs from above it.
    ghost predicate PartsAt(addr: Address, bitlen: nat, r: Node, d: nat)
      requires Links() && Wide(addr) && bitlen <= maxaddrlen
      reads this`nodes, this`root, nodes`left, nodes`right, nodes`parent, nodes`bit, nodes`pfx
    {
      && r in nodes && d <= bitlen && d <= |r.pfx| && |r.pfx| == r.bit
      && r.pfx[..d] == Prefix(addr, d)
      && (r.parent != null ==>
          r.parent in nodes && r.parent.bit < d && r.parent.pfx < r.pfx && |r.parent.pfx| == r.parent.bit)
      && (d < bitlen && d < r.bit ==> r.pfx[d] != BitSet(addr, d))
      && (d < bitlen && d == r.bit ==> Child(r, BitSet(addr, d)) == null)
    }

    lemma PrefixTransitive(p: Bits, q: Bits, s: Bits)
      requires p <= q && q <= s
      ensures p <= s
    {
    }

    // The climb to the topmost node at or below level d.
    method Climb(f: Node, d: nat) returns (r: Node)
      requires Links() && f in nodes && d <= |f.pfx|
      ensures r in nodes && r.pfx <= f.pfx && d <= |r.pfx| && BitOk(r)
      ensures r.parent != null ==> r.parent in nodes && r.parent.bit < d && r.parent.pfx < r.pfx && BitOk(r.parent)
    {
      r := f;
      var q := r.parent;
      assert UpOk(r) && BitOk(r);
      while q != null && q.bit >= d
        invariant r in nodes && q == r.parent && r.pfx <= f.pfx && d <= |r.pfx|
        invariant q != null ==> q in nodes
        decreases |r.pfx|
      {
        assert BitOk(q) && LeftOk(q) && RightOk(q) && UpOk(q) && UpOk(r);
        PrefixTransitive(q.pfx, r.pfx, f.pfx);
        r := q;
        q := r.parent;
      }
      assert UpOk(r) && BitOk(r);
      if q != null {
        assert BitOk(q) && LeftOk(q) && RightOk(q);
      }
    }

    // The descent, the comparison and the climb of std_radix_insert.
    method Locate(addr: Address, bitlen: nat) returns (r: Node, d: nat, hisAddr: Address)
      requires Links() && Content() && Wide(addr) && bitlen <= maxaddrlen && root != null
      ensures PartsAt(addr, bitlen, r, d) && Starts(hisAddr, r)
    {
      var f := FindEntry(addr, bitlen);
      var bits2chk := if f.bit < bitlen then f.bit else bitlen;
      assert EntryOk(f) && ListedOk(f.pfx);
      hisAddr := f.rth.addr;
      d := FirstDifference(addr, hisAddr, bits2chk);
      if d > bits2chk {
        d := bits2chk;
      }
      SharedBits(addr, f, d);
      r := Climb(f, d);
      if r.pfx == f.pfx {
        PrefixIsUnique(r, f);
      }
      assert Follows(addr, r, f);
      assert r.pfx[..d] == f.pfx[..d];
      forall i | 0 <= i < |r.pfx|
        ensures Prefix(hisAddr, |r.pfx|)[i] == r.pfx[i]
      {
        assert Prefix(hisAddr, |f.pfx|)[i] == f.pfx[i];
      }
    }

    // The address starts with the bits of node r.
    ghost predicate Starts(addr: Address, r: Node)
      reads r`pfx
    {
      Wide(addr) && |r.pfx| <= 8 * |addr| && Prefix(addr, |r.pfx|) == r.pfx
    }

    // Bits that two addresses share are bits of the node the second one sits at.
    lemma SharedBits(addr: Address, f: Node, d: nat)
      requires Links() && Content() && Wide(addr) && f in nodes && f.rth != null && d <= |f.pfx|
      requires Wide(f.rth.addr) && |f.pfx| <= 8 * |f.rth.addr| && Prefix(f.rth.addr, |f.pfx|) == f.pfx &&
        d <= 8 * |addr|
      requires Prefix(addr, d) == Prefix(f.rth.addr, d)
      ensures f.pfx[..d] == Prefix(addr, d)
      ensures d < |f.pfx| && d < 8 * |addr| ==> f.pfx[d] == BitSet(f.rth.addr, d)
    {
      var h := f.rth.addr;
      forall i | 0 <= i < d
        ensures f.pfx[i] == Prefix(addr, d)[i]
      {
        assert Prefix(h, d)[i] == Prefix(h, |f.pfx|)[i];
      }
    }

    // Unless r ends exactly at the key, no node carries the key's bits.
    lemma KeyIsNew(addr: Address, bitlen: nat, r: Node, d: nat, m: Node)
      requires Links() && Wide(addr) && bitlen <= maxaddrlen && PartsAt(addr, bitlen, r, d) && m in nodes
      requires !(d == bitlen && r.bit == bitlen)
      ensures m.pfx != Prefix(addr, bitlen)
    {
      var k, q := Prefix(addr, bitlen), r.parent;
      assert k[..d] == Prefix(addr, d);
      assert UpOk(r);
      if q != null {
        assert LeftOk(q) && RightOk(q);
        assert r.pfx[..d][q.bit] == k[q.bit];
        assert q.pfx == r.pfx[..d][..q.bit] == k[..q.bit];
      }
      if d == bitlen {
        assert k < r.pfx;
        if m.pfx == k {
          PrefixIsAbove(m, r);
          AboveIsPrefix(m, q);
          assert false;
        }
      } else if d == r.bit {
        assert r.pfx < k;
        if m.pfx == k {
          var c := ChildTowards(r, m);
          assert false;
        }
      } else if q != null {
        if m.pfx == k {
          var c := ChildTowards(q, m);
          assert false;
        }
      } else {
        RootAbove(m);
        AboveIsPrefix(r, m);
      }
    }

    // Which of the four cases a key is in.
    lemma WhereItParts(addr: Address, bitlen: nat, r: Node, d: nat)
      requires Links() && Wide(addr) && bitlen <= maxaddrlen && PartsAt(addr, bitlen, r, d)
      ensures NodeAt(Prefix(addr, bitlen)) <==> d == bitlen && r.bit == bitlen
      ensures !NodeAt(Prefix(addr, bitlen)) ==> (LeavesEdge(Prefix(addr, bitlen)) <==> d < bitlen && d < r.bit)
    {
      var k := Prefix(addr, bitlen);
      assert k[..d] == Prefix(addr, d);
      if d == bitlen && r.bit == bitlen {
        assert r.pfx[..d] == r.pfx && k[..d] == k;
      } else {
        forall m | m in nodes ensures m.pfx != k { KeyIsNew(addr, bitlen, r, d, m); }
        if d < bitlen && d < r.bit {
          forall m | m in nodes ensures m.pfx != k[..d] { KeyIsNew(addr, d, r, d, m); }
          assert Parts(k, r.pfx, d);
        } else {
          forall m, e: nat | m in nodes && Parts(k, m.pfx, e) ensures NodeAt(k[..e]) {
            NoEdge(addr, bitlen, r, d, m, e);
          }
        }
      }
    }

    lemma RoomIs(addr: Address, bitlen: nat, r: Node, d: nat, mem1: bool, mem2: bool)
      requires Links() && Wide(addr) && bitlen <= maxaddrlen && PartsAt(addr, bitlen, r, d)
      ensures Room(Prefix(addr, bitlen), mem1, mem2) <==>
        (d == bitlen && r.bit == bitlen) || (mem1 && (mem2 || d == bitlen || d == r.bit))
      ensures InVain(Prefix(addr, bitlen), mem1, mem2) <==> mem1 && !mem2 && d < bitlen && d < r.bit
    {
      WhereItParts(addr, bitlen, r, d);
    }

    // Below r, or at its level, the key parts from other nodes only where there is a node.
    lemma NoEdge(addr: Address, bitlen: nat, r: Node, d: nat, m: Node, e: nat)
      requires Links() && Wide(addr) && bitlen <= maxaddrlen && PartsAt(addr, bitlen, r, d) && m in nodes
      requires d == bitlen || d == r.bit
      requires Parts(Prefix(addr, bitlen), m.pfx, e)
      ensures NodeAt(Prefix(addr, bitlen)[..e])
    {
      var k := Prefix(addr, bitlen);
      assert k[..d] == Prefix(addr, d) == r.pfx[..d];
      if e < d {
        assert k[e] == k[..d][e] == r.pfx[e] && k[..e] == k[..d][..e] == r.pfx[..e];
        ForkAt(r, m, e);
      } else if e == d {
        assert r.pfx == k[..e];
      } else {
        assert m.pfx[..d] == m.pfx[..e][..d] == k[..d] == r.pfx && m.pfx[d] == m.pfx[..e][d] == k[d];
        var c := ChildTowards(r, m);
      }
    }

    // Node x, new in the tree, has taken the place of r, which is now its only child.
    twostate predicate PutAbove(new x: Node, r: Node, q: Node?)
      reads *
    {
      && x !in old(nodes) && nodes == old(nodes) + {x} && r in old(nodes)
      && x.parent == q && q == old(r.parent) && r.parent == x && x.bit == |x.pfx| <= maxaddrlen
      && (|| (x.left == r && x.right == null && Extends(x.pfx, r.pfx, false))
          || (x.right == r && x.left == null && Extends(x.pfx, r.pfx, true)))
      && (if q == null then root == x else
          && root == old(root)
          && (if old(q.right) == r then q.right == x && q.left == old(q.left) && Extends(q.pfx, x.pfx, true)
              else q.left == x && q.right == old(q.right) && Extends(q.pfx, x.pfx, false)))
      && (forall n <- old(nodes) ::
            && n.bit == old(n.bit) && n.pfx == old(n.pfx)
            && (n != r ==> n.parent == old(n.parent))
            && (n != q ==> n.left == old(n.left) && n.right == old(n.right)))
    }

    ghost function OnlyChild(x: Node): Node?
      reads x`left, x`right
    {
      if x.left != null then x.left else x.right
    }

    twostate lemma PutAboveKeepsLinks(new x: Node)
      requires old(Links()) && OnlyChild(x) != null
      requires var r, q := OnlyChild(x), x.parent; old(allocated(r)) && old(allocated(q)) && PutAbove(x, r, q)
      ensures Links()
    {
      ghost var r, q := OnlyChild(x), x.parent;
      assert old(UpOk(r)) && old(LeftOk(r)) && old(RightOk(r)) && old(BitOk(r));
      if q != null { assert old(LeftOk(q)) && old(RightOk(q)); }
      forall n | n in nodes ensures BitOk(n) {
        if n != x { assert old(BitOk(n)); }
      }
      forall n | n in nodes ensures LeftOk(n) {
        if n != x { assert old(LeftOk(n)); }
      }
      forall n | n in nodes ensures RightOk(n) {
        if n != x { assert old(RightOk(n)); }
      }
      forall n | n in nodes ensures UpOk(n) {
        if n != x { assert old(UpOk(n)); }
      }
    }

    // Leaf y, new in the tree, hangs from p, where there was no child.
    twostate predicate PutLeaf(new y: Node, p: Node, side: bool)
      reads *
    {
      && y !in old(nodes) && nodes == old(nodes) + {y} && p in old(nodes) && root == old(root)
      && y.left == null && y.right == null && y.parent == p && y.bit == |y.pfx| <= maxaddrlen &&
          Extends(p.pfx, y.pfx, side)
      && old(Child(p, side)) == null && Child(p, side) == y && Child(p, !side) == old(Child(p, !side))
      && (forall n <- old(nodes) ::
            && n.bit == old(n.bit) && n.pfx == old(n.pfx) && n.parent == old(n.parent)
            && (n != p ==> n.left == old(n.left) && n.right == old(n.right)))
    }

    twostate lemma PutLeafKeepsLinks(new y: Node)
      requires old(Links()) && y.parent != null
      requires var p := y.parent; old(allocated(p)) && (PutLeaf(y, p, false) || PutLeaf(y, p, true))
      ensures Links()
    {
      forall n | n in nodes ensures BitOk(n) {
        if n != y { assert old(BitOk(n)); }
      }
      forall n | n in nodes ensures LeftOk(n) {
        if n != y { assert old(LeftOk(n)); }
      }
      forall n | n in nodes ensures RightOk(n) {
        if n != y { assert old(RightOk(n)); }
      }
      forall n | n in nodes ensures UpOk(n) {
        if n != y { assert old(UpOk(n)); }
      }
    }

    // Node n now holds entry h, under a key the table did not know; nodes may have been added.
    twostate predicate Registered(new n: Node, h: Head)
      reads *
    {
      && old(nodes) <= nodes && n in nodes && n.rth == h && h.rtn == n
      && n.pfx !in old(entries) && h !in old(entries).Values && entries == old(entries)[n.pfx := h]
      && Wide(h.addr) && |n.pfx| <= 8 * |h.addr| && Prefix(h.addr, |n.pfx|) == n.pfx
      && (forall m <- nodes :: m != n ==>
          if m in old(nodes) then m.rth == old(m.rth) && m.pfx == old(m.pfx) else m.rth == null)
      && (n in old(nodes) ==> n.pfx == old(n.pfx) && old(n.rth) == null)
      && (forall g <- old(entries).Values :: g.rtn == old(g.rtn))
    }

    twostate lemma RegisteredKeepsContent(new n: Node)
      requires old(Content()) && n.rth != null
      requires var h := n.rth; old(allocated(h)) && Registered(n, h)
      requires Branching()
      ensures Content()
    {
      forall m | m in nodes
        ensures EntryOk(m)
      {
        if m in old(nodes) { assert old(EntryOk(m)); }
      }
      forall k | k in entries
        ensures ListedOk(k)
      {
        if k != n.pfx {
          assert old(ListedOk(k)) && old(entries)[k] in old(entries).Values;
        }
      }
    }

    // A node put above r with r's version, or a leaf of version 0, keeps the bounds.
    twostate lemma PutAboveKeepsVersions(new x: Node)
      requires old(Links() && NodeVersions()) && OnlyChild(x) != null && version == old(version)
      requires var r, q := OnlyChild(x), x.parent;
        old(allocated(r)) && old(allocated(q)) && PutAbove(x, r, q) && x.version == r.version
      requires forall n <- old(nodes) :: n.version == old(n.version)
      ensures NodeVersions()
    {
      ghost var r := OnlyChild(x);
      assert old(VersionOk(r));
      forall n | n in nodes ensures VersionOk(n) {
        if n != x { assert old(VersionOk(n)) && old(UpOk(n)); }
      }
    }

    twostate lemma PutLeafKeepsVersions(new y: Node)
      requires old(Links() && NodeVersions()) && y.parent != null && version == old(version)
      requires var p := y.parent; old(allocated(p)) && (PutLeaf(y, p, false) || PutLeaf(y, p, true)) && y.version == 0
      requires forall n <- old(nodes) :: n.version == old(n.version)
      ensures NodeVersions()
    {
      forall n | n in nodes ensures VersionOk(n) {
        if n != y { assert old(VersionOk(n)) && old(UpOk(n)); }
      }
    }

    twostate lemma RegisteredKeepsVersions(new n: Node)
      requires old(Versions()) && n.rth != null && NodeVersions()
      requires var h := n.rth; old(allocated(h)) && Registered(n, h) && h.version == 0
      requires forall m <- old(nodes) :: m.version == old(m.version)
      requires forall g <- old(entries).Values :: g.version == old(g.version)
      ensures Versions()
    {
      forall k | k in entries
        ensures EntryVersionOk(k)
      {
        if k in old(entries) && k != n.pfx {
          assert old(EntryVersionOk(k)) && old(entries)[k] in old(entries).Values;
        }
      }
    }

    method HangLeaf(y: Node, p: Node, side: bool)
      modifies y`parent, p`left, p`right
      ensures y.parent == p && Child(p, side) == y && Child(p, !side) == old(Child(p, !side))
    {
      y.parent := p;
      if side {
        p.right := y;
      } else {
        p.left := y;
      }
    }

    method SetEntry(n: Node, h: Head)
      modifies n`rth, h`rtn
      ensures n.rth == h && h.rtn == n
    {
      n.rth := h;
      h.rtn := n;
    }

    ghost function Parents(r: Node): set<Node>
      reads r`parent
    {
      if r.parent == null then {} else {r.parent}
    }

    // Puts x, whose only child is r, where r hangs.
    method Interpose(x: Node, r: Node)
      requires x != r && r.parent != x && r.parent != r
      modifies this`root, x`parent, x`version, r`parent, Parents(r)`left, Parents(r)`right
      ensures r.parent == x && x.parent == old(r.parent) && x.version == r.version
      ensures if x.parent == null then root == x else
        (&& root == old(root)
         && (if old(r.parent.right) == r then x.parent.right == x && x.parent.left == old(r.parent.left)
             else x.parent.left == x && x.parent.right == old(r.parent.right)))
    {
      var q := r.parent;
      r.parent := x;
      x.version := r.version;
      x.parent := q;
      if q == null {
        root := x;
      } else if q.right == r {
        q.right := x;
      } else {
        q.left := x;
      }
    }

    lemma EntriesHaveNodes()
      requires Content()
      ensures entries != map[] ==> nodes != {}
    {
      if entries != map[] {
        var p :| p in entries;
        assert ListedOk(p);
      }
    }

    // The first node of the tree.
    method AddRoot(h: Head, bitlen: nat)
      requires Links() && Content() && root == null && Wide(h.addr) && bitlen <= maxaddrlen
      modifies this`root, this`nodes, this`entries, h`rtn
      ensures Links() && Content() && old(entries) == map[]
      ensures entries == old(entries)[Prefix(h.addr, bitlen) := h] && |nodes| == |old(nodes)| + 1
      ensures fresh(nodes - old(nodes))
      ensures old(Versions()) && h.version == 0 ==> Versions()
    {
      ghost var k := Prefix(h.addr, bitlen);
      EntriesHaveNodes();
      var rtn := new Node(bitlen, k);
      root := rtn;
      SetEntry(rtn, h);
      nodes := nodes + {rtn};
      entries := entries[k := h];
    }

    // The branching point r carries exactly the key's bits: it takes the entry.
    method AttachEntry(r: Node, h: Head)
      requires Links() && Content() && r in nodes && Starts(h.addr, r) && r.rth == null
      requires r.pfx !in entries && h !in entries.Values
      modifies this`entries, r`rth, h`rtn
      ensures Links() && Content() && entries == old(entries)[r.pfx := h]
      ensures old(Versions()) && h.version == 0 ==> Versions()
    {
      SetEntry(r, h);
      entries := entries[r.pfx := h];
      forall m | m in nodes ensures GlueOk(m) { assert old(GlueOk(m)); }
      RegisteredKeepsContent(r);
      if old(Versions()) && h.version == 0 {
        forall m | m in nodes ensures VersionOk(m) { assert old(VersionOk(m)); }
        RegisteredKeepsVersions(r);
      }
    }

    // A leaf that holds h, on a free side of p.
    method PlantLeaf(p: Node, h: Head, bitlen: nat)
      requires Links() && p in nodes && BitOk(p) && Starts(h.addr, p) && p.bit < bitlen <= maxaddrlen
      requires Child(p, BitSet(h.addr, p.bit)) == null
      modifies this`nodes, p`left, p`right, h`rtn
      ensures Links() && Child(p, BitSet(h.addr, p.bit)) == h.rtn &&
        Child(p, !BitSet(h.addr, p.bit)) == old(Child(p, !BitSet(h.addr, p.bit)))
      ensures h.rtn != null && fresh(h.rtn) && nodes == old(nodes) + {h.rtn} && h.rtn.rth == h &&
        h.rtn.pfx == Prefix(h.addr, bitlen)
      ensures old(NodeVersions()) ==> NodeVersions()
    {
      var add := new Node(bitlen, Prefix(h.addr, bitlen));
      SetEntry(add, h);
      HangLeaf(add, p, BitSet(h.addr, p.bit));
      nodes := nodes + {add};
      StartsExtends(h.addr, p, bitlen);
      PutLeafKeepsLinks(add);
      if old(NodeVersions()) { PutLeafKeepsVersions(add); }
    }

    // A leaf for the entry, below r.
    method AddLeaf(r: Node, h: Head, bitlen: nat)
      requires Links() && Content() && r in nodes && Wide(h.addr) && bitlen <= maxaddrlen
      requires Prefix(h.addr, bitlen) !in entries && h !in entries.Values
      requires BitOk(r) && r.bit < bitlen && Starts(h.addr, r) && Child(r, BitSet(h.addr, r.bit)) == null
      modifies this`nodes, this`entries, r`left, r`right, h`rtn
      ensures Links() && Content()
      ensures entries == old(entries)[Prefix(h.addr, bitlen) := h] && |nodes| == |old(nodes)| + 1
      ensures fresh(nodes - old(nodes))
      ensures old(Versions()) && h.version == 0 ==> Versions()
    {
      PlantLeaf(r, h, bitlen);
      entries := entries[Prefix(h.addr, bitlen) := h];
      forall m | m in nodes ensures GlueOk(m) {
        if m != h.rtn { assert old(GlueOk(m)); }
      }
      RegisteredKeepsContent(h.rtn);
      if old(Versions()) && h.version == 0 { RegisteredKeepsVersions(h.rtn); }
    }

    lemma StartsExtends(addr: Address, r: Node, n: nat)
      requires Starts(addr, r) && |r.pfx| < n <= 8 * |addr|
      ensures Extends(r.pfx, Prefix(addr, n), BitSet(addr, |r.pfx|))
    {
      forall i | 0 <= i < |r.pfx|
        ensures r.pfx[i] == Prefix(addr, n)[i]
      {
        assert Prefix(addr, |r.pfx|)[i] == Prefix(addr, n)[i];
      }
    }

    // The first d bits of the address fit between r and its parent.
    lemma FitsAbove(addr: Address, bitlen: nat, r: Node, d: nat)
      requires Links() && Wide(addr) && bitlen <= maxaddrlen && PartsAt(addr, bitlen, r, d) && d < r.bit
      ensures var g := Prefix(addr, d); Extends(g, r.pfx, r.pfx[d])
      ensures var g, q := Prefix(addr, d), r.parent; q != r && (q != null ==>
        && q in nodes && (q.left == r || q.right == r) && q.left != q.right && Extends(q.pfx, g, q.right == r))
    {
      var g, q := Prefix(addr, d), r.parent;
      assert UpOk(r);
      if q != null {
        assert LeftOk(q) && RightOk(q);
        assert q.pfx == g[..q.bit] && g[q.bit] == r.pfx[q.bit];
      }
    }

    // A node for the entry, with r as its only child.
    method NewAbove(r: Node, h: Head, bitlen: nat, hisAddr: Address) returns (add: Node)
      requires Wide(h.addr) && Wide(hisAddr) && bitlen <= maxaddrlen
      modifies h`rtn
      ensures fresh(add) && add.bit == bitlen && add.pfx == Prefix(h.addr, bitlen) && add.rth == h && h.rtn == add
      ensures if BitSet(hisAddr, bitlen) then add.right == r && add.left == null else add.left == r && add.right == null
    {
      add := new Node(bitlen, Prefix(h.addr, bitlen));
      SetEntry(add, h);
      if BitSet(hisAddr, add.bit) {
        add.right := r;
      } else {
        add.left := r;
      }
    }

    // The key ends inside the bits of r: its node goes between r and the parent of r.
    method PlaceAbove(r: Node, h: Head, bitlen: nat, hisAddr: Address)
      requires Links() && r in nodes && Wide(h.addr) && bitlen <= maxaddrlen
      requires Branching()
      requires PartsAt(h.addr, bitlen, r, bitlen) && bitlen < r.bit && Starts(hisAddr, r)
      modifies this`root, this`nodes, r`parent, Parents(r)`left, Parents(r)`right, h`rtn
      ensures Links() && Branching()
      ensures h.rtn != null && fresh(h.rtn) && nodes == old(nodes) + {h.rtn} && h.rtn.rth == h &&
        h.rtn.pfx == Prefix(h.addr, bitlen)
      ensures old(NodeVersions()) ==> NodeVersions()
    {
      FitsAbove(h.addr, bitlen, r, bitlen);
      assert BitSet(hisAddr, bitlen) == Prefix(hisAddr, |r.pfx|)[bitlen];
      var add := NewAbove(r, h, bitlen, hisAddr);
      Interpose(add, r);
      nodes := nodes + {add};
      PutAboveKeepsLinks(add);
      if old(NodeVersions()) { PutAboveKeepsVersions(add); }
      forall m | m in nodes ensures GlueOk(m) {
        if m != add { assert old(GlueOk(m)); }
      }
    }

    method AddAbove(r: Node, h: Head, bitlen: nat, hisAddr: Address)
      requires Links() && Content() && r in nodes && Wide(h.addr) && bitlen <= maxaddrlen
      requires Prefix(h.addr, bitlen) !in entries && h !in entries.Values
      requires PartsAt(h.addr, bitlen, r, bitlen) && bitlen < r.bit && Starts(hisAddr, r)
      modifies this`root, this`nodes, this`entries, r`parent, Parents(r)`left, Parents(r)`right, h`rtn
      ensures Links() && Content()
      ensures entries == old(entries)[Prefix(h.addr, bitlen) := h] && |nodes| == |old(nodes)| + 1
      ensures fresh(nodes - old(nodes))
      ensures old(Versions()) && h.version == 0 ==> Versions()
    {
      PlaceAbove(r, h, bitlen, hisAddr);
      entries := entries[Prefix(h.addr, bitlen) := h];
      RegisteredKeepsContent(h.rtn);
      if old(Versions()) && h.version == 0 { RegisteredKeepsVersions(h.rtn); }
    }

    // A branching point above r, at the level d where the address leaves the bits of r.
    method AddGlue(r: Node, addr: Address, bitlen: nat, d: nat) returns (glue: Node)
      requires Links() && r in nodes && Wide(addr) && bitlen <= maxaddrlen
      requires PartsAt(addr, bitlen, r, d) && d < bitlen && d < r.bit
      modifies this`root, this`nodes, r`parent, Parents(r)`left, Parents(r)`right
      ensures Links() && fresh(glue) && nodes == old(nodes) + {glue} && glue.rth == null
      ensures glue.bit == d && glue.pfx == Prefix(addr, d)
      ensures Child(glue, BitSet(addr, d)) == null && Child(glue, !BitSet(addr, d)) == r
      ensures old(NodeVersions()) ==> NodeVersions()
      ensures forall m <- old(nodes) ::
        (old(m.left) != null ==> m.left != null) && (old(m.right) != null ==> m.right != null)
    {
      FitsAbove(addr, bitlen, r, d);
      glue := new Node(d, Prefix(addr, d));
      if BitSet(addr, d) {
        glue.left := r;
      } else {
        glue.right := r;
      }
      Interpose(glue, r);
      nodes := nodes + {glue};
      PutAboveKeepsLinks(glue);
      if old(NodeVersions()) { PutAboveKeepsVersions(glue); }
    }

    // The key leaves the bits of r at level d: a branching point goes above r, with a leaf for the entry.
    method PlaceSplit(r: Node, h: Head, bitlen: nat, d: nat)
      requires Links() && r in nodes && Wide(h.addr) && bitlen <= maxaddrlen
      requires Branching()
      requires PartsAt(h.addr, bitlen, r, d) && d < bitlen && d < r.bit
      modifies this`root, this`nodes, r`parent, Parents(r)`left, Parents(r)`right, h`rtn
      ensures Links() && Branching()
      ensures h.rtn != null && fresh(h.rtn) && h.rtn.rth == h && h.rtn.pfx == Prefix(h.addr, bitlen)
      ensures old(nodes) <= nodes && fresh(nodes - old(nodes)) && |nodes| == |old(nodes)| + 2 && h.rtn in nodes
      ensures forall m <- nodes :: m !in old(nodes) && m != h.rtn ==> m.rth == null
      ensures old(NodeVersions()) ==> NodeVersions()
    {
      var glue := AddGlue(r, h.addr, bitlen, d);
      assert BitOk(glue);
      forall m | m in nodes && m != glue ensures GlueOk(m) {
        assert old(GlueOk(m));
      }
      label L:
      PlantLeaf(glue, h, bitlen);
      forall m | m in nodes ensures GlueOk(m) {
        if m != glue && m != h.rtn { assert old@L(GlueOk(m)); }
      }
    }

    method AddSplit(r: Node, h: Head, bitlen: nat, d: nat)
      requires Links() && Content() && r in nodes && Wide(h.addr) && bitlen <= maxaddrlen
      requires Prefix(h.addr, bitlen) !in entries && h !in entries.Values
      requires PartsAt(h.addr, bitlen, r, d) && d < bitlen && d < r.bit
      modifies this`root, this`nodes, this`entries, r`parent, Parents(r)`left, Parents(r)`right, h`rtn
      ensures Links() && Content()
      ensures entries == old(entries)[Prefix(h.addr, bitlen) := h] && |nodes| == |old(nodes)| + 2
      ensures fresh(nodes - old(nodes))
      ensures old(Versions()) && h.version == 0 ==> Versions()
    {
      PlaceSplit(r, h, bitlen, d);
      entries := entries[Prefix(h.addr, bitlen) := h];
      RegisteredKeepsContent(h.rtn);
      if old(Versions()) && h.version == 0 { RegisteredKeepsVersions(h.rtn); }
    }

    // One entry and the given number of nodes have come into the table.
    method CountAdded(newNodes: nat)
      requires Links() && Content() && |nodes| == inodes + newNodes && |entries| == routes + 1 &&
        inodes == nmalloc - nfree
      modifies this`inodes, this`nmalloc, this`routes
      ensures Valid() && (old(Versions()) ==> Versions())
    {
      inodes := inodes + newNodes;
      nmalloc := nmalloc + newNodes;
      routes := routes + 1;
    }

    lemma KeyNotListed(addr: Address, bitlen: nat, r: Node, d: nat)
      requires Links() && Content() && Wide(addr) && bitlen <= maxaddrlen && PartsAt(addr, bitlen, r, d)
      ensures !(d == bitlen && r.bit == bitlen) ==> Prefix(addr, bitlen) !in entries
      ensures d == bitlen && r.bit == bitlen ==> r.pfx == Prefix(addr, bitlen) && (r.pfx in entries <==> r.rth != null)
      ensures r.rth != null ==> r.pfx in entries && entries[r.pfx] == r.rth
      ensures d == r.bit ==> Starts(addr, r)
    {
      var k := Prefix(addr, bitlen);
      assert EntryOk(r);
      if d == r.bit { assert r.pfx[..d] == r.pfx; }
      if d == bitlen && r.bit == bitlen {
        if k in entries {
          assert ListedOk(k);
          PrefixIsUnique(entries[k].rtn, r);
        }
      } else {
        forall m | m in nodes ensures m.pfx != k {
          KeyIsNew(addr, bitlen, r, d, m);
        }
        assert k in entries ==> ListedOk(k);
      }
    }

    method AttachAndCount(r: Node, h: Head)
      requires Valid() && r in nodes && Starts(h.addr, r) && r.rth == null
      requires r.pfx !in entries && h !in entries.Values
      modifies this`routes, this`inodes, this`nmalloc, this`entries, r`rth, h`rtn
      ensures Valid() && entries == old(entries)[r.pfx := h]
      ensures old(Versions()) && h.version == 0 ==> Versions()
    {
      AttachEntry(r, h);
      CountAdded(0);
    }

    method RootAndCount(h: Head, bitlen: nat)
      requires Valid() && root == null && Wide(h.addr) && bitlen <= maxaddrlen
      modifies this`root, this`inodes, this`routes, this`nmalloc, this`nodes, this`entries, h`rtn
      ensures Valid() && old(entries) == map[] && entries == map[Prefix(h.addr, bitlen) := h]
      ensures fresh(nodes - old(nodes))
      ensures old(Versions()) && h.version == 0 ==> Versions()
    {
      AddRoot(h, bitlen);
      CountAdded(1);
    }

    // One or two new nodes for a key that leaves the tree at r.
    method PlaceAndCount(r: Node, h: Head, bitlen: nat, d: nat, hisAddr: Address)
      requires Valid() && Wide(h.addr) && bitlen <= maxaddrlen
      requires Prefix(h.addr, bitlen) !in entries && h !in entries.Values
      requires PartsAt(h.addr, bitlen, r, d) && Starts(hisAddr, r) && BitOk(r) && UpOk(r)
      requires (d == r.bit ==> Starts(h.addr, r)) && !(d == bitlen && r.bit == bitlen)
      modifies this`root, this`inodes, this`routes, this`nmalloc, this`nodes, this`entries
      modifies nodes`left, nodes`right, nodes`parent, h`rtn
      ensures Valid() && entries == old(entries)[Prefix(h.addr, bitlen) := h]
      ensures fresh(nodes - old(nodes))
      ensures old(Versions()) && h.version == 0 ==> Versions()
    {
      var added := 1;
      if r.bit == d {
        AddLeaf(r, h, bitlen);
      } else if d == bitlen {
        AddAbove(r, h, bitlen, hisAddr);
      } else {
        AddSplit(r, h, bitlen, d);
        added := 2;
      }
      CountAdded(added);
    }

    // The second allocation has failed: the first node is given back. Only the
    // user's structure still points at it.
    method GiveBack(h: Head, bitlen: nat)
      requires Valid() && h !in entries.Values
      modifies this`nmalloc, this`nfree, h`rtn
      ensures Valid() && nfree == old(nfree) + 1 && h.rtn != null && fresh(h.rtn)
    {
      h.rtn := new Node(bitlen, []);
      nmalloc := nmalloc + 1;
      nfree := nfree + 1;
    }

    // What the insertion of a key has done: a known key gives its entry back, a
    // new one is registered exactly if the allocations that it takes have been granted.
    twostate predicate Inserted(h: Head, k: Bits, mem1: bool, mem2: bool, new r: Head?)
      reads *
    {
      if k in old(entries) then r == old(entries)[k] && entries == old(entries) && nodes == old(nodes)
      else if old(Room(k, mem1, mem2)) then r == h && entries == old(entries)[k := h]
      else r == null && entries == old(entries) && nodes == old(nodes)
    }

    // What std_radix_insert does to a table that is not empty: the answers of
    // the two allocations it may make are mem1 and mem2.
    method InsertBelow(h: Head, bitlen: nat, mem1: bool, mem2: bool) returns (r: Head?)
      requires Valid() && Wide(h.addr) && bitlen <= maxaddrlen && h !in entries.Values && root != null
      modifies this`root, this`inodes, this`routes, this`nmalloc, this`nfree, this`nodes, this`entries
      modifies nodes`left, nodes`right, nodes`parent, nodes`rth, h`rtn
      ensures Valid()
      ensures Inserted(h, Prefix(h.addr, bitlen), mem1, mem2, r)
      ensures nfree == old(nfree) + if old(InVain(Prefix(h.addr, bitlen), mem1, mem2)) then 1 else 0
      ensures fresh(nodes - old(nodes))
      ensures old(Versions()) && h.version == 0 ==> Versions()
    {
      ghost var k := Prefix(h.addr, bitlen);
      var rtn, d, hisAddr := Locate(h.addr, bitlen);
      KeyNotListed(h.addr, bitlen, rtn, d);
      RoomIs(h.addr, bitlen, rtn, d, mem1, mem2);
      if d == bitlen && rtn.bit == bitlen {
        if rtn.rth != null {
          return rtn.rth;
        }
        AttachAndCount(rtn, h);
        return h;
      }
      r := InsertNode(rtn, h, bitlen, d, hisAddr, mem1, mem2);
    }

    // A key that has no node takes one or two.
    method InsertNode(rtn: Node, h: Head, bitlen: nat, d: nat, hisAddr: Address, mem1: bool, mem2: bool)
      returns (r: Head?)
      requires Valid() && Wide(h.addr) && bitlen <= maxaddrlen && h !in entries.Values
      requires Prefix(h.addr, bitlen) !in entries && PartsAt(h.addr, bitlen, rtn, d) && Starts(hisAddr, rtn)
      requires (d == rtn.bit ==> Starts(h.addr, rtn)) && !(d == bitlen && rtn.bit == bitlen)
      modifies this`root, this`inodes, this`routes, this`nmalloc, this`nfree, this`nodes, this`entries
      modifies nodes`left, nodes`right, nodes`parent, nodes`rth, h`rtn
      ensures Valid() && fresh(nodes - old(nodes))
      ensures if mem1 && (mem2 || d == bitlen || d == old(rtn.bit)) then
          r == h && entries == old(entries)[Prefix(h.addr, bitlen) := h]
        else r == null && entries == old(entries) && nodes == old(nodes)
      ensures nfree == old(nfree) + if mem1 && !mem2 && d < bitlen && d < old(rtn.bit) then 1 else 0
      ensures old(Versions()) && h.version == 0 ==> Versions()
    {
      if !mem1 {
        return null;
      }
      assert UpOk(rtn) && BitOk(rtn);
      if rtn.bit != d && d != bitlen && !mem2 {
        GiveBack(h, bitlen);
        return null;
      }
      PlaceAndCount(rtn, h, bitlen, d, hisAddr);
      r := h;
    }

    method ClearHead(h: Head)
      requires Valid() && h !in entries.Values
      modifies h`rtn, h`version
      ensures Valid() && h.rtn == null && h.version == 0 && (old(Versions()) ==> Versions())
    {
      h.rtn := null;
      h.version := 0;
    }

    method CountInsert()
      requires Valid()
      modifies this`ninserts
      ensures Valid() && (old(Versions()) ==> Versions()) && ninserts == old(ninserts) + 1
    {
      ninserts := ninserts + 1;
    }

    method Insert(h: Head, bitlen: nat, mem1: bool, mem2: bool) returns (r: Head?)
      requires Valid() && Wide(h.addr) && h !in entries.Values
      requires debug || bitlen <= maxaddrlen
      modifies this`root, this`inodes, this`routes, this`ninserts, this`nmalloc, this`nfree, this`nodes, this`entries
      modifies nodes`left, nodes`right, nodes`parent, nodes`rth, h`rtn, h`version
      ensures Valid()
      ensures bitlen > maxaddrlen ==> r == null && entries == old(entries) && nodes == old(nodes)
      ensures ninserts == old(ninserts) + if bitlen > maxaddrlen then 0 else 1
      ensures bitlen <= maxaddrlen ==> Inserted(h, Prefix(h.addr, bitlen), mem1, mem2, r)
      ensures nfree == old(nfree) +
        if bitlen <= maxaddrlen && old(InVain(Prefix(h.addr, bitlen), mem1, mem2)) then 1 else 0
      ensures fresh(nodes - old(nodes)) && h.version == if debug then 0 else old(h.version)
      ensures old(Versions()) && (debug || old(h.version) == 0) ==> Versions()
    {
      if debug {
        ClearHead(h);
        if bitlen > maxaddrlen {
          return null;
        }
      }
      r := InsertKey(h, bitlen, mem1, mem2);
    }

    method InsertKey(h: Head, bitlen: nat, mem1: bool, mem2: bool) returns (r: Head?)
      requires Valid() && Wide(h.addr) && bitlen <= maxaddrlen && h !in entries.Values
      modifies this`root, this`inodes, this`routes, this`ninserts, this`nmalloc, this`nfree, this`nodes, this`entries
      modifies nodes`left, nodes`right, nodes`parent, nodes`rth, h`rtn
      ensures Valid() && ninserts == old(ninserts) + 1 && Inserted(h, Prefix(h.addr, bitlen), mem1, mem2, r)
      ensures nfree == old(nfree) + if old(InVain(Prefix(h.addr, bitlen), mem1, mem2)) then 1 else 0
      ensures fresh(nodes - old(nodes))
      ensures old(Versions()) && h.version == 0 ==> Versions()
    {
      CountInsert();
      if root == null {
        r := InsertFirst(h, bitlen, mem1, mem2);
      } else {
        r := InsertBelow(h, bitlen, mem1, mem2);
      }
    }

    // The first entry of the table.
    method InsertFirst(h: Head, bitlen: nat, mem1: bool, ghost mem2: bool) returns (r: Head?)
      requires Valid() && Wide(h.addr) && bitlen <= maxaddrlen && root == null
      modifies this`root, this`inodes, this`routes, this`nmalloc, this`nodes, this`entries, h`rtn
      ensures Valid() && Inserted(h, Prefix(h.addr, bitlen), mem1, mem2, r)
      ensures !old(InVain(Prefix(h.addr, bitlen), mem1, mem2)) && fresh(nodes - old(nodes))
      ensures old(Versions()) && h.version == 0 ==> Versions()
    {
      EntriesHaveNodes();
      if !mem1 {
        return null;
      }
      RootAndCount(h, bitlen);
      r := h;
    }

    // ---- Removal ----

    // Leaf y has been cut off its parent p.
    twostate predicate Cut(y: Node, p: Node)
      reads *
    {
      && y in old(nodes) && nodes == old(nodes) - {y} && p in nodes && root == old(root)
      && (if old(p.left) == y then p.left == null && p.right == old(p.right)
          else p.right == null && p.left == old(p.left))
      && (forall n <- nodes ::
            && n.bit == old(n.bit) && n.pfx == old(n.pfx) && n.parent == old(n.parent) && n.version == old(n.version)
            && (n != p ==> n.left == old(n.left) && n.right == old(n.right)))
    }

    twostate lemma CutKeepsLinks(y: Node)
      requires old(Links() && y in nodes && y.left == null && y.right == null && y.parent != null)
      requires Cut(y, old(y.parent))
      ensures Links() && (old(NodeVersions()) && version == old(version) ==> NodeVersions())
    {
      ghost var p := old(y.parent);
      assert old(UpOk(y)) && old(LeftOk(p)) && old(RightOk(p));
      forall n | n in nodes ensures BitOk(n) {
        assert old(BitOk(n));
      }
      forall n | n in nodes ensures LeftOk(n) {
        assert old(LeftOk(n));
      }
      forall n | n in nodes ensures RightOk(n) {
        assert old(RightOk(n));
      }
      forall n | n in nodes ensures UpOk(n) {
        assert old(UpOk(n));
      }
      forall n | n in nodes ensures old(NodeVersions()) && version == old(version) ==> VersionOk(n) {
        if old(NodeVersions()) { assert old(VersionOk(n)) && old(UpOk(n)); }
      }
    }

    // The only child r of node x has taken the place of x.
    twostate predicate Collapsed(x: Node, r: Node, q: Node?)
      reads *
    {
      && x in old(nodes) && nodes == old(nodes) - {x} && r in nodes && r.parent == q
      && (if q == null then root == r else
          && q in nodes && root == old(root)
          && (if old(q.left) == x then q.left == r && q.right == old(q.right)
              else q.right == r && q.left == old(q.left)))
      && (forall n <- nodes ::
            && n.bit == old(n.bit) && n.pfx == old(n.pfx) && n.version == old(n.version)
            && (n != r ==> n.parent == old(n.parent))
            && (n != q ==> n.left == old(n.left) && n.right == old(n.right)))
    }

    twostate lemma CollapsedKeepsLinks(x: Node)
      requires old(Links() && x in nodes && OnlyChild(x) != null && (x.left == null || x.right == null))
      requires Collapsed(x, old(OnlyChild(x)), old(x.parent))
      ensures Links() && (old(NodeVersions()) && version == old(version) ==> NodeVersions())
    {
      ghost var r, q := old(OnlyChild(x)), old(x.parent);
      assert old(UpOk(x)) && old(LeftOk(x)) && old(RightOk(x));
      if q != null { assert old(LeftOk(q)) && old(RightOk(q)); }
      forall n | n in nodes ensures BitOk(n) {
        assert old(BitOk(n));
      }
      forall n | n in nodes ensures LeftOk(n) {
        assert old(LeftOk(n));
      }
      forall n | n in nodes ensures RightOk(n) {
        assert old(RightOk(n));
      }
      forall n | n in nodes ensures UpOk(n) {
        assert old(UpOk(n));
      }
      forall n | n in nodes ensures old(NodeVersions()) && version == old(version) ==> VersionOk(n) {
        if old(NodeVersions()) { assert old(VersionOk(n)) && old(VersionOk(x)) && old(UpOk(n)); }
      }
    }

    // The table has forgotten key k; only nodes without an entry of their own have gone besides its node.
    twostate predicate Forgotten(k: Bits)
      reads *
    {
      && k in old(entries) && entries == old(entries) - {k} && nodes <= old(nodes)
      && (forall n <- nodes ::
            n.pfx == old(n.pfx) && (n.pfx != k ==> n.rth == old(n.rth)) && (n.pfx == k ==> n.rth == null))
      && (forall n <- old(nodes) :: n !in nodes ==> old(n.rth) == null || old(n.pfx) == k)
      && (forall g <- old(entries).Values :: g.rtn == old(g.rtn))
    }

    twostate lemma ForgottenKeepsContent(k: Bits)
      requires old(Content()) && Forgotten(k)
      requires Branching()
      ensures Content() && |entries| == |old(entries)| - 1
    {
      forall n | n in nodes ensures EntryOk(n) {
        assert old(EntryOk(n));
      }
      forall p | p in entries ensures ListedOk(p) {
        assert old(ListedOk(p)) && old(entries)[p] in old(entries).Values;
      }
      assert entries.Keys == old(entries).Keys - {k};
      assert |entries| == |entries.Keys| && |old(entries)| == |old(entries).Keys|;
    }

    twostate lemma ForgottenKeepsVersions(k: Bits)
      requires old(Content() && Versions()) && Forgotten(k) && NodeVersions() && version == old(version)
      requires forall n <- nodes :: n.version == old(n.version)
      requires forall g <- old(entries).Values :: g.version == old(g.version)
      ensures Versions()
    {
      forall p | p in entries ensures EntryVersionOk(p) {
        assert old(ListedOk(p)) && old(EntryVersionOk(p)) && old(entries)[p] in old(entries).Values;
      }
    }

    // Takes the leaf y off its parent.
    method CutLeaf(y: Node)
      requires Links() && y in nodes && y.left == null && y.right == null && y.parent != null
      modifies this`nodes, Parents(y)`left, Parents(y)`right
      ensures Links() && Cut(y, y.parent) && (old(NodeVersions()) ==> NodeVersions())
    {
      assert UpOk(y);
      var p := y.parent;
      assert LeftOk(p) && RightOk(p);
      if p.left == y {
        p.left := null;
      } else {
        p.right := null;
      }
      nodes := nodes - {y};
      CutKeepsLinks(y);
    }

    // Takes out x, promoting its one child.
    method Collapse(x: Node)
      requires Links() && x in nodes && OnlyChild(x) != null && (x.left == null || x.right == null)
      modifies this`nodes, this`root, OnlyChild(x)`parent, Parents(x)`left, Parents(x)`right
      ensures Links() && Collapsed(x, old(OnlyChild(x)), old(x.parent)) && (old(NodeVersions()) ==> NodeVersions())
    {
      assert UpOk(x) && LeftOk(x) && RightOk(x);
      var q := x.parent;
      var next: Node;
      if x.left != null {
        next := x.left;
      } else {
        next := x.right;
      }
      if q != null { assert LeftOk(q) && RightOk(q); }
      Promote(x, next, q);
      nodes := nodes - {x};
      CollapsedKeepsLinks(x);
    }

    method Promote(x: Node, next: Node, q: Node?)
      modifies this`root, next`parent
      modifies (if q == null then {} else {q})`left, (if q == null then {} else {q})`right
      ensures next.parent == q
      ensures if q == null then root == next else
        && root == old(root)
        && (if old(q.left) == x then q.left == next && q.right == old(q.right)
            else q.right == next && q.left == old(q.left))
    {
      next.parent := q;
      if q == null {
        root := next;
      } else if q.left == x {
        q.left := next;
      } else {
        q.right := next;
      }
    }

    lemma OwnBits(n: Node)
      requires Links() && n in nodes
      ensures forall m <- nodes :: m.pfx == n.pfx ==> m == n
    {
      forall m <- nodes | m.pfx == n.pfx ensures m == n {
        PrefixIsUnique(m, n);
      }
    }

    // The entry of rn is off the tree, with rn itself or with rn left as a branching point.
    twostate predicate Unhooked(rn: Node, freed: int)
      reads *
    {
      && nodes <= old(nodes) && |nodes| == |old(nodes)| - freed
      && (forall n <- nodes :: if n == rn then n.rth == null else n.rth == old(n.rth))
      && (forall n <- nodes :: n.pfx == old(n.pfx) && n.version == old(n.version))
      && (forall n <- old(nodes) :: n !in nodes ==> n == rn || old(n.rth) == null)
    }

    // The last node of the table.
    method UnhookRoot(rn: Node)
      requires Links() && rn in nodes && rn.left == null && rn.right == null && rn.parent == null
      modifies this`root, this`nodes
      ensures Links() && Branching() && Unhooked(rn, 1)
      ensures old(NodeVersions()) ==> NodeVersions()
    {
      assert UpOk(rn);
      forall m | m in nodes ensures m == rn {
        RootAbove(m);
        if m != rn { var c := ChildOnPath(rn, m); }
      }
      assert nodes == {rn};
      root := null;
      nodes := {};
    }

    // A leaf goes; its parent stays when it holds an entry, and goes too when it was a branching point.
    method UnhookLeaf(rn: Node) returns (freed: nat)
      requires Links() && Branching() && rn in nodes && rn.left == null && rn.right == null && rn.parent != null
      modifies this`root, this`nodes, nodes`left, nodes`right, nodes`parent
      ensures Links() && Branching() && Unhooked(rn, freed)
      ensures old(NodeVersions()) ==> NodeVersions()
    {
      var prev := rn.parent;
      assert UpOk(rn) && GlueOk(prev) && LeftOk(prev) && RightOk(prev);
      CutLeaf(rn);
      freed := 1;
      forall m | m in nodes && m != prev ensures GlueOk(m) { assert old(GlueOk(m)); }
      if prev.rth == null {
        assert LeftOk(prev) && RightOk(prev) && UpOk(prev);
        CollapseGlue(prev);
        freed := 2;
      }
    }

    method CollapseGlue(x: Node)
      requires Links() && x in nodes && OnlyChild(x) != null && (x.left == null || x.right == null)
      requires forall m {:trigger GlueOk(m)} :: m in nodes && m != x ==> GlueOk(m)
      modifies this`nodes, this`root, OnlyChild(x)`parent, Parents(x)`left, Parents(x)`right
      ensures Links() && Branching() && nodes == old(nodes) - {x}
      ensures old(NodeVersions()) ==> NodeVersions()
    {
      Collapse(x);
      forall m | m in nodes ensures GlueOk(m) { assert old(GlueOk(m)); }
    }

    // The restructuring of _std_radix_remove; freed tells how many nodes it gives back.
    method Unhook(rn: Node) returns (freed: nat)
      requires Links() && Branching() && rn in nodes && rn.rth != null
      modifies this`root, this`nodes, nodes`left, nodes`right, nodes`parent, rn`rth
      ensures Links() && Branching() && Unhooked(rn, freed)
      ensures old(NodeVersions()) ==> NodeVersions()
    {
      assert UpOk(rn) && LeftOk(rn) && RightOk(rn);
      if rn.left != null && rn.right != null {
        rn.rth := null;
        freed := 0;
        forall m | m in nodes ensures GlueOk(m) { assert old(GlueOk(m)); }
      } else if rn.left == null && rn.right == null {
        if rn.parent == null {
          UnhookRoot(rn);
          freed := 1;
        } else {
          freed := UnhookLeaf(rn);
        }
      } else {
        CollapseGlue(rn);
        freed := 1;
      }
    }

    method CountRemoved(freed: nat)
      requires Links() && Content() && |nodes| == inodes - freed && |entries| == routes - 1 && inodes == nmalloc - nfree
      modifies this`inodes, this`nfree, this`routes
      ensures Valid() && (old(Versions()) ==> Versions())
    {
      inodes := inodes - freed;
      nfree := nfree + freed;
      routes := routes - 1;
    }

    ghost method DropKey(k: Bits)
      requires k in entries
      modifies this`entries
      ensures entries == old(entries) - {k} && |entries| == |old(entries)| - 1
    {
      assert entries.Keys == (entries - {k}).Keys + {k};
      entries := entries - {k};
      assert |entries.Keys| == |entries|;
    }

    method Forget(rn: Node) returns (freed: nat)
      requires Links() && Content() && rn in nodes && rn.rth != null
      modifies this`root, this`nodes, this`entries, nodes`left, nodes`right, nodes`parent, rn`rth
      ensures Links() && Content() && entries == old(entries) - {rn.pfx} && |entries| == |old(entries)| - 1
      ensures nodes <= old(nodes) && |nodes| == |old(nodes)| - freed
      ensures old(Versions()) ==> Versions()
    {
      OwnBits(rn);
      assert EntryOk(rn);
      freed := Unhook(rn);
      DropKey(rn.pfx);
      ForgottenKeepsContent(rn.pfx);
      if old(Versions()) { ForgottenKeepsVersions(rn.pfx); }
    }

    // _std_radix_remove, without the walking direction that it also reports.
    method RemoveNode(rn: Node)
      requires Valid() && rn in nodes && rn.rth != null
      modifies this`root, this`inodes, this`routes, this`nfree, this`nodes, this`entries
      modifies nodes`left, nodes`right, nodes`parent, rn`rth
      ensures Valid() && entries == old(entries) - {rn.pfx} && nodes <= old(nodes)
      ensures old(Versions()) ==> Versions()
    {
      var freed := Forget(rn);
      CountRemoved(freed);
    }

    method Remove(h: Head)
      requires Valid() && h.rtn != null && h.rtn in nodes && h.rtn.rth == h
      modifies this`root, this`inodes, this`routes, this`nremoves, this`nfree, this`nodes, this`entries
      modifies nodes`left, nodes`right, nodes`parent, h.rtn`rth
      ensures Valid() && nodes <= old(nodes)
      ensures exists k :: k in old(entries) && old(entries)[k] == h && entries == old(entries) - {k}
      ensures h !in entries.Values && nremoves == old(nremoves) + 1
      ensures old(Versions()) ==> Versions()
    {
      CountRemove();
      ghost var k := h.rtn.pfx;
      assert EntryOk(h.rtn);
      RemoveNode(h.rtn);
      assert k in old(entries) && old(entries)[k] == h && entries == old(entries) - {k};
      forall p | p in entries ensures entries[p] != h { assert old(ListedOk(p)) && old(ListedOk(k)); }
    }

    method CountRemove()
      requires Valid()
      modifies this`nremoves
      ensures Valid() && (old(Versions()) ==> Versions()) && nremoves == old(nremoves) + 1
    {
      nremoves := nremoves + 1;
    }
  }
}

// The memory that an insertion takes, told by the keys that are stored.
module RdxMemory {
  import opened RdxBits
  import opened RdxTable
  import RdxNext

  // A key is stored here, or two keys part here.
  ghost predicate Branch(keys: set<Bits>, b: Bits) {
    b in keys || exists p, q :: p in keys && q in keys && Extends(b, p, false) && Extends(b, q, true)
  }

  // k parts from a stored key where no others do.
  ghost predicate PartsAnew(keys: set<Bits>, k: Bits) {
    exists p, d: nat :: p in keys && Parts(k, p, d) && !Branch(keys, k[..d])
  }

  // A new key takes no memory where others part, else a node, and another one if it parts anew.
  ghost predicate Enough(keys: set<Bits>, k: Bits, mem1: bool, mem2: bool) {
    Branch(keys, k) || (mem1 && (mem2 || !PartsAnew(keys, k)))
  }

  // One node is allocated and given back, for want of the other one.
  ghost predicate InVain(keys: set<Bits>, k: Bits, mem1: bool, mem2: bool) {
    !Branch(keys, k) && mem1 && !mem2 && PartsAnew(keys, k)
  }

  lemma NodesAreBranches(t: Table, b: Bits)
    requires t.Links() && t.Content()
    ensures t.NodeAt(b) <==> Branch(t.entries.Keys, b)
  {
    if n :| n in t.nodes && n.pfx == b {
      assert t.GlueOk(n) && t.EntryOk(n) && t.LeftOk(n) && t.RightOk(n);
      if n.rth == null {
        var p := RdxNext.HasEntry(t, n.left);
        var q := RdxNext.HasEntry(t, n.right);
        assert t.EntryOk(p) && t.EntryOk(q);
        assert Extends(b, p.pfx, false) && Extends(b, q.pfx, true);
      }
    }
    if b in t.entries {
      assert t.ListedOk(b);
    } else if p, q :| p in t.entries && q in t.entries && Extends(b, p, false) && Extends(b, q, true) {
      assert t.ListedOk(p) && t.ListedOk(q);
      t.ForkAt(t.entries[p].rtn, t.entries[q].rtn, |b|);
      assert p[..|b|] == b;
    }
  }

  lemma EdgesAreParted(t: Table, k: Bits)
    requires t.Links() && t.Content()
    ensures t.LeavesEdge(k) <==> PartsAnew(t.entries.Keys, k)
  {
    if m, d: nat :| m in t.nodes && Parts(k, m.pfx, d) && !t.NodeAt(k[..d]) {
      var p := RdxNext.HasEntry(t, m);
      assert t.EntryOk(p);
      assert p.pfx[..d] == m.pfx[..d] && p.pfx[d] == m.pfx[d];
      NodesAreBranches(t, k[..d]);
      assert Parts(k, p.pfx, d);
    }
    if p, d: nat :| p in t.entries && Parts(k, p, d) && !Branch(t.entries.Keys, k[..d]) {
      assert t.ListedOk(p);
      NodesAreBranches(t, k[..d]);
      assert Parts(k, t.entries[p].rtn.pfx, d);
    }
  }

  // The nodes say the same as the keys.
  lemma RoomIsEnough(t: Table, k: Bits, mem1: bool, mem2: bool)
    requires t.Links() && t.Content()
    ensures t.Room(k, mem1, mem2) <==> Enough(t.entries.Keys, k, mem1, mem2)
    ensures t.InVain(k, mem1, mem2) <==> InVain(t.entries.Keys, k, mem1, mem2)
  {
    NodesAreBranches(t, k);
    EdgesAreParted(t, k);
  }
}

// Versions of entries and nodes.
module RdxVersions {
  import opened RdxTable
  import opened RdxNext

  // Node x0 and every node above it get the version.
  method Stamp(t: Table, x0: Node, ver: nat)
    requires t.Links() && x0 in t.nodes
    modifies t.nodes`version
    ensures forall n <- t.nodes :: n.version == if n.pfx <= x0.pfx then ver else old(n.version)
  {
    var x: Node? := x0;
    while x != null
      invariant x == null || (x in t.nodes && x.pfx <= x0.pfx)
      invariant forall n <- t.nodes ::
        n.version == if n.pfx <= x0.pfx && !(x != null && n.pfx <= x.pfx) then ver else old(n.version)
      decreases if x == null then 0 else |x.pfx| + 1
    {
      forall n | n in t.nodes
        ensures n.pfx <= x.pfx <==> n == x || (x.parent != null && x.parent in t.nodes && n.pfx <= x.parent.pfx)
      {
        assert t.UpOk(x);
        if x.parent != null { assert t.LeftOk(x.parent) && t.RightOk(x.parent); }
        if n.pfx <= x.pfx {
          t.PrefixIsAbove(n, x);
          if n != x { t.AboveIsPrefix(n, x.parent); }
        }
      }
      assert t.UpOk(x);
      if x.parent != null { assert t.LeftOk(x.parent) && t.RightOk(x.parent); }
      x.version := ver;
      x := x.parent;
    }
  }

  method Bump(t: Table, h: Head) returns (ver: nat)
    modifies t`version, h`version
    ensures ver == t.version == h.version == old(t.version) + 1
  {
    t.version := t.version + 1;
    ver := t.version;
    h.version := ver;
  }

  // std_radix_setversion: the entry and every node above it get the next version. No other
  // entry changes, and if node versions bound what is below them, they still do.
  method SetVersion(t: Table, h: Head) returns (ver: nat)
    requires t.Links() && t.Content() && Stored(t, h)
    modifies t`version, h`version, t.nodes`version
    ensures t.Links() && t.Content() && (old(t.Versions()) ==> t.Versions())
    ensures ver == t.version == old(t.version) + 1 && h.version == ver
    ensures forall n <- t.nodes :: n.version == if n.pfx <= h.rtn.pfx then ver else old(n.version)
    ensures forall k <- t.entries :: t.entries[k] != h ==>
      t.entries[k].version == old(t.entries[k].version) && (old(t.Versions()) ==> t.entries[k].version < ver)
  {
    ver := Bump(t, h);
    Stamp(t, h.rtn, ver);
    if old(t.Versions()) {
      forall n | n in t.nodes ensures t.VersionOk(n) {
        assert old(t.VersionOk(n)) && old(t.UpOk(n));
        if n.parent != null {
          assert old(t.LeftOk(n.parent)) && old(t.RightOk(n.parent)) && old(t.VersionOk(n.parent));
        }
      }
      forall k | k in t.entries
        ensures t.EntryVersionOk(k) && (t.entries[k] != h ==> t.entries[k].version < ver)
      {
        assert old(t.EntryVersionOk(k)) && old(t.VersionOk(t.entries[k].rtn));
      }
    }
  }
}

// std_radix_insert on a structure that is in the table already.
module RdxAgain {
  import opened RdxBits
  import opened RdxTable
  import opened RdxMemory

  // A node that holds an entry is the one that the entry points back at. The table is not
  // valid without that, whatever it takes its entries to be.
  ghost predicate BackLinked(t: Table)
    reads t`nodes, t.nodes`rth, (set n | n in t.nodes && n.rth != null :: n.rth)`rtn
  {
    forall n <- t.nodes :: n.rth != null ==> n.rth.rtn == n
  }

  lemma ValidIsBackLinked(t: Table)
    requires t.Links() && t.Content()
    ensures BackLinked(t)
  {
    forall n | n in t.nodes && n.rth != null ensures n.rth.rtn == n {
      assert t.EntryOk(n) && t.ListedOk(n.pfx);
      t.PrefixIsUnique(n.rth.rtn, n);
    }
  }

  // The key is stored, or its node would have to be allocated and there is no memory.
  ghost predicate Harmless(t: Table, h: Head, bitlen: nat, mem1: bool)
    reads t`nodes, t`entries, t.nodes`pfx
  {
    bitlen <= 8 * |h.addr| &&
    var k := Prefix(h.addr, bitlen);
    k in t.entries || (!mem1 && forall n <- t.nodes :: n.pfx != k)
  }

  method Clear(h: Head)
    modifies h`rtn, h`version
    ensures h.rtn == null && h.version == 0
  {
    h.rtn, h.version := null, 0;
  }

  // One or two new nodes for a key that leaves the tree at r, whatever the entry is.
  method Place(t: Table, r: Node, h: Head, bitlen: nat, d: nat, hisAddr: Address)
    requires t.Links() && t.Branching() && t.Wide(h.addr) && bitlen <= t.maxaddrlen
    requires t.PartsAt(h.addr, bitlen, r, d) && t.Starts(hisAddr, r)
    requires (d == r.bit ==> t.Starts(h.addr, r)) && !(d == bitlen && r.bit == bitlen)
    modifies t`root, t`nodes, t.nodes`left, t.nodes`right, t.nodes`parent, h`rtn
    ensures old(t.nodes) <= t.nodes && h.rtn !in old(t.nodes) && h.rtn != null && h.rtn.rth == h
    ensures |t.nodes| == |old(t.nodes)| + if old(r.bit) == d || d == bitlen then 1 else 2
  {
    assert t.UpOk(r) && t.BitOk(r);
    if r.bit == d {
      t.PlantLeaf(r, h, bitlen);
    } else if d == bitlen {
      t.PlaceAbove(r, h, bitlen, hisAddr);
    } else {
      t.PlaceSplit(r, h, bitlen, d);
    }
  }

  lemma Located(t: Table, h: Head, bitlen: nat, r: Node, d: nat)
    requires t.Links() && t.Content() && t.Wide(h.addr) && bitlen <= t.maxaddrlen
    requires t.PartsAt(h.addr, bitlen, r, d)
    ensures var k, here := Prefix(h.addr, bitlen), d == bitlen && r.bit == bitlen;
      && (k in t.entries <==> here && r.rth != null) && (k in t.entries ==> t.entries[k] == r.rth)
      && ((exists n :: n in t.nodes && n.pfx == k) <==> here)
      && (d == r.bit ==> t.Starts(h.addr, r))
  {
    t.KeyNotListed(h.addr, bitlen, r, d);
    if d == bitlen && r.bit == bitlen {
      assert r in t.nodes && r.pfx == Prefix(h.addr, bitlen);
    } else {
      forall n | n in t.nodes ensures n.pfx != Prefix(h.addr, bitlen) {
        t.KeyIsNew(h.addr, bitlen, r, d, n);
      }
    }
  }

  lemma WhereStored(t: Table, h: Head)
    requires t.Content() && h in t.entries.Values
    ensures h.rtn != null && h.rtn in t.nodes && h.rtn.rth == h && t.Wide(h.addr)
  {
    var k :| k in t.entries && t.entries[k] == h;
    assert t.ListedOk(k);
  }

  // The entry goes to a second node, and points to that one from now on.
  method Spread(t: Table, r: Node, h: Head, bitlen: nat, d: nat, hisAddr: Address, mem2: bool, ghost n0: Node)
    returns (r1: Head?)
    requires t.Links() && t.Branching() && t.Wide(h.addr) && bitlen <= t.maxaddrlen
    requires t.PartsAt(h.addr, bitlen, r, d) && t.Starts(hisAddr, r) && (d == r.bit ==> t.Starts(h.addr, r))
    requires d == bitlen && r.bit == bitlen ==> r.rth == null
    requires n0 in t.nodes && n0.rth == h
    modifies t, t.nodes, h`rtn
    ensures n0 in t.nodes && n0.rth == h && h.rtn != n0
    ensures r1 == if old(r.bit) == d || d == bitlen || mem2 then h else null
    ensures r1 == h ==>
      && h.rtn != null && h.rtn.rth == h && t.routes == old(t.routes) + 1 && t.nfree == old(t.nfree)
      && t.inodes - old(t.inodes) == t.nmalloc - old(t.nmalloc) == |t.nodes| - |old(t.nodes)|
    ensures r1 == null ==>
      && t.routes == old(t.routes) && t.inodes == old(t.inodes) && t.nodes == old(t.nodes)
      && t.nmalloc - old(t.nmalloc) == t.nfree - old(t.nfree) == 1
    ensures t.ninserts == old(t.ninserts)
  {
    r1 := h;
    if d == bitlen && r.bit == bitlen {
      t.SetEntry(r, h);
      t.routes := t.routes + 1;
    } else if r.bit != d && d != bitlen && !mem2 {
      h.rtn := new Node(bitlen, []);
      t.nmalloc, t.nfree := t.nmalloc + 1, t.nfree + 1;
      r1 := null;
    } else {
      var added := if r.bit == d || d == bitlen then 1 else 2;
      Place(t, r, h, bitlen, d, hisAddr);
      t.inodes, t.nmalloc, t.routes := t.inodes + added, t.nmalloc + added, t.routes + 1;
    }
  }

  method Count(t: Table)
    requires t.Links() && t.Branching()
    modifies t`ninserts
    ensures t.Links() && t.Branching() && (old(t.Valid()) ==> t.Valid() && BackLinked(t))
    ensures t.ninserts == old(t.ninserts) + 1
  {
    t.ninserts := t.ninserts + 1;
    if old(t.Valid()) { ValidIsBackLinked(t); }
  }

  // The table stays valid exactly if nothing is written to the structure, and the caller can
  // tell that beforehand. What is cleared in debug mode is cleared after the search here,
  // which does not look at it.
  method InsertStored(t: Table, h: Head, bitlen: nat, mem1: bool, mem2: bool) returns (r: Head?)
    requires t.Valid() && h in t.entries.Values && (t.debug || bitlen <= t.maxaddrlen)
    modifies t, t.nodes, h`rtn, h`version
    ensures BackLinked(t) <==> !old(t.debug) && old(Harmless(t, h, bitlen, mem1))
    ensures BackLinked(t) ==> t.Valid() && t.entries == old(t.entries) && t.nodes == old(t.nodes)
    // What is returned and counted is what it would be for another structure with this key;
    // an entry that is made stays in its old node, too.
    ensures t.debug && bitlen > t.maxaddrlen ==> r == null && t.ninserts == old(t.ninserts)
    ensures bitlen <= t.maxaddrlen ==> bitlen <= 8 * |h.addr|
    ensures bitlen <= t.maxaddrlen ==>
      var k := Prefix(h.addr, bitlen);
      && t.ninserts == old(t.ninserts) + 1
      && r == (if k in old(t.entries) then old(t.entries)[k]
          else if Enough(old(t.entries).Keys, k, mem1, mem2) then h else null)
      && t.nfree == old(t.nfree) + (if InVain(old(t.entries).Keys, k, mem1, mem2) then 1 else 0)
      && t.inodes == t.nmalloc - t.nfree == |t.nodes|
      && t.routes == old(t.routes) + if k !in old(t.entries) && r == h then 1 else 0
    ensures bitlen <= t.maxaddrlen && r == h && Prefix(h.addr, bitlen) !in old(t.entries) ==>
      h.rtn != null && h.rtn.rth == h && h.rtn != old(h.rtn) && old(h.rtn) in t.nodes && old(h.rtn).rth == h
  {
    WhereStored(t, h);
    if t.debug && bitlen > t.maxaddrlen {
      ghost var n0 := h.rtn;
      Clear(h);
      assert n0.rth == h && n0 in t.nodes;
      return null;
    }
    assert t.RootOk();
    var rtn, d, hisAddr := t.Locate(h.addr, bitlen);
    Located(t, h, bitlen, rtn, d);
    t.RoomIs(h.addr, bitlen, rtn, d, mem1, mem2);
    RoomIsEnough(t, Prefix(h.addr, bitlen), mem1, mem2);
    r := GoOn(t, rtn, h, bitlen, d, hisAddr, mem1, mem2);
  }

  // The rest of the insertion, after the place of the key has been found.
  method GoOn(t: Table, rtn: Node, h: Head, bitlen: nat, d: nat, hisAddr: Address, mem1: bool, mem2: bool)
    returns (r: Head?)
    requires t.Valid() && t.Wide(h.addr) && bitlen <= t.maxaddrlen && h.rtn != null && h.rtn in t.nodes &&
      h.rtn.rth == h
    requires t.PartsAt(h.addr, bitlen, rtn, d) && t.Starts(hisAddr, rtn) && (d == rtn.bit ==> t.Starts(h.addr, rtn))
    modifies t, t.nodes, h`rtn, h`version
    ensures t.ninserts == old(t.ninserts) + 1 && t.inodes == t.nmalloc - t.nfree == |t.nodes|
    ensures
      var here, split, known := d == bitlen && old(rtn.bit) == bitlen, d < bitlen && d < old(rtn.bit), old(rtn.rth);
      var room := here || (mem1 && (mem2 || !split));
      && r == (if here && known != null then known else if room then h else null)
      && t.nfree == old(t.nfree) + (if mem1 && !mem2 && split then 1 else 0)
      && t.routes == old(t.routes) + (if room && !(here && known != null) then 1 else 0)
      && (room && !(here && known != null) ==>
           h.rtn != null && h.rtn.rth == h && h.rtn != old(h.rtn) && old(h.rtn) in t.nodes && old(h.rtn).rth == h)
      && (BackLinked(t) <==> !old(t.debug) && ((here && known != null) || (!here && !mem1)))
      && (BackLinked(t) ==> t.Valid() && t.entries == old(t.entries) && t.nodes == old(t.nodes))
  {
    ghost var n0 := h.rtn;
    assert t.UpOk(rtn) && t.BitOk(rtn);
    if t.debug {
      Clear(h);
    }
    Count(t);
    assert n0 in t.nodes && n0.rth == h && (t.debug ==> h.rtn != n0);
    if d == bitlen && rtn.bit == bitlen {
      if rtn.rth != null {
        return rtn.rth;
      }
    } else if !mem1 {
      return null;
    }
    r := Spread(t, rtn, h, bitlen, d, hisAddr, mem2, n0);
  }
}

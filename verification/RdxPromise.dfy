// When the walks over the radix tree begin and end as their documentation says.
module RdxPromise {
  import opened Options
  import opened RdxBits
  import opened RdxOrder
  import opened RdxTable
  import opened RdxNext
  import opened RdxWalk
  import opened Walks
  import RdxSearch

  // A complete walk from an entry visits every later entry exactly if no stored key
  // continues that entry's key with a 0. The entry itself it never visits.
  lemma StartsAsPromised(t: Table, start: Head, v: seq<Head>)
    requires t.Links() && t.Content() && Stored(t, start) && Visits(t, start, All, v, None)
    ensures (forall k <- t.entries :: Less(start.rtn.pfx, k) ==> t.entries[k] in v) <==>
      forall k <- t.entries :: !Extends(start.rtn.pfx, k, false)
    ensures start !in v
  {
    var p := start.rtn.pfx;
    LessIrreflexive(p);
    forall k | k in t.entries ensures Extends(p, k, false) ==> Less(p, k) {
      if p < k { PrefixIsLess(p, k); }
    }
    forall k | k in t.entries ensures t.entries[k] in v <==> Less(p, k) && !Extends(p, k, false) { }
    assert t.entries[p] == start;
  }

  // What a stopped walk hands back is the entry after the last one visited exactly if the
  // left child of that one's node is there and holds an entry.
  lemma StopsAsPromised(t: Table, n: Node)
    requires t.Links() && t.Content() && n in t.nodes && n.rth != null
    ensures NextKey(t, n.pfx, if n.left != null then n.left.rth else n.rth) <==> n.left != null && n.left.rth != null
  {
    assert t.LeftOk(n) && t.EntryOk(n);
    LessIrreflexive(n.pfx);
    if n.left == null {
      assert t.ListedOk(n.pfx);
      forall b | b in t.entries && t.entries[b] == n.rth ensures b == n.pfx {
        assert t.ListedOk(b);
        t.PrefixIsUnique(n.rth.rtn, n);
      }
    } else if n.left.rth == null {
      var m := HasEntry(t, n.left);
      assert t.EntryOk(m) && n.pfx < m.pfx;
      PrefixIsLess(n.pfx, m.pfx);
    } else {
      var c := n.left;
      PrefixIsLess(n.pfx, c.pfx);
      LessIrreflexive(c.pfx);
      forall m | m in t.nodes && m.rth != null ensures Less(m.pfx, c.pfx) <==> !Less(n.pfx, m.pfx) {
        BeforeChild(t, n, false, m);
        LessTotal(m.pfx, n.pfx);
        if m.pfx == n.pfx { t.PrefixIsUnique(m, n); }
      }
      NextNode(t, n.pfx, c);
    }
  }

  // After a complete walk there is nothing more to come, as the result says.
  lemma EndsAsPromised(t: Table, start: Head?, v: seq<Head>)
    requires t.Links() && t.Content() && v != [] && Visits(t, start, All, v, None)
    requires start != null ==> Stored(t, start)
    ensures NextKey(t, v[|v| - 1].rtn.pfx, null)
  {
    var last := v[|v| - 1].rtn.pfx;
    assert v[|v| - 1] in v && t.entries[last] in v;
    forall k | k in t.entries ensures !Less(last, k) {
      assert t.ListedOk(k);
      if t.entries[k] in v {
        var i :| 0 <= i < |v| && v[i] == t.entries[k];
        LessIrreflexive(last);
        if i < |v| - 1 { LessTotal(last, k); }
      } else if start != null && Extends(start.rtn.pfx, k, false) {
        Beyond(start.rtn.pfx, k, last);
      } else if start != null && Less(last, k) {
        LessTransitive(start.rtn.pfx, last, k);
      }
    }
  }

  // What comes after p but does not continue it with a 0 comes after what does.
  lemma Beyond(p: Bits, k: Bits, last: Bits)
    requires Extends(p, k, false) && Less(p, last) && !Extends(p, last, false)
    ensures !Less(last, k)
  {
    if p < last {
      SidesAreOrdered(p, k, last);
    } else {
      var i := Common(p, last);
      assert i < |p| && i < |last| && !p[i];
      assert k[..i] == p[..i] == last[..i] && k[i] == p[i];
      CommonIs(last, k, i);
    }
  }

  lemma FirstVisited(t: Table, start: Head, v: seq<Head>)
    requires v != [] ==> exists last :: Visits(t, start, All, v, last)
    ensures v != [] ==> exists k :: k in t.entries && FromStart(start, k)
  {
    if v != [] {
      assert v[0] in v && Stored(t, v[0]);
    }
  }

  // With the default route and 0/1 stored, a walk from the default route visits nothing.
  method StartHere(t: Table, start: Head) returns (v: seq<Head>)
    requires t.Links() && t.Content() && t.entries.Keys == {[], [false]} && t.entries[[]] == start
    ensures v == [] && Less([], [false])
  {
    assert t.ListedOk([]);
    PrefixIsLess([], [false]);
    LessIrreflexive([]);
    var r;
    r, v := Walk(t, start, 0, (i: nat) => false);
    FirstVisited(t, start, v);
  }

  method StartExample() returns (t: Table, start: Head, v: seq<Head>)
    ensures t.Valid() && t.entries.Keys == {[], [false]} && t.entries[[]] == start
    ensures v == [] && Less([], [false])
  {
    var zero: Address := [0x00, 0x00];
    Masks();
    assert Prefix(zero, 0) == [] && Prefix(zero, 1) == [false];
    t := TableOfTwo(zero, 0, zero, 1);
    start := RdxSearch.GetExact(t, Some(zero), 0);
    v := StartHere(t, start);
  }

  lemma LeftHolds(t: Table, n: Node)
    requires t.Links() && t.Content() && n in t.nodes
    ensures n.left != null ==> exists k :: k in t.entries && Extends(n.pfx, k, false)
  {
    assert t.LeftOk(n);
    if n.left != null {
      var m := HasEntry(t, n.left);
      assert t.EntryOk(m) && Extends(n.pfx, m.pfx, false);
    }
  }

  // With the default route and 1/1 stored, a walk that is stopped at the first entry hands
  // that one back.
  method StopHere(t: Table) returns (r: Head?, v: seq<Head>)
    requires t.Links() && t.Content() && t.entries.Keys == {[], [true]}
    ensures v == [t.entries[[]]] && r == t.entries[[]] && !NextKey(t, [], r)
  {
    r, v := Walk(t, null, 1, (i: nat) => false);
    var n := v[0].rtn;
    assert Stored(t, v[0]) && t.ListedOk(n.pfx) && t.ListedOk([]);
    PrefixIsLess([], [true]);
    LessIrreflexive([]);
    assert n.pfx == [];
    LeftHolds(t, n);
    StopsAsPromised(t, n);
  }

  method StopExample() returns (t: Table, r: Head?, v: seq<Head>)
    ensures t.Valid() && t.entries.Keys == {[], [true]}
    ensures v == [t.entries[[]]] && r == t.entries[[]] && !NextKey(t, [], r)
  {
    var zero, one: Address := [0x00, 0x00], [0x80, 0x00];
    Masks();
    assert Prefix(zero, 0) == [] && Prefix(one, 1) == [true];
    t := TableOfTwo(zero, 0, one, 1);
    r, v := StopHere(t);
  }
}

// Lookups in the radix tree, each related to the set of stored keys.
module RdxSearch {
  import opened Options
  import opened RdxBits
  import opened RdxTable

  // The stored key k is a prefix of the first bitlen bits of the address.
  ghost predicate Matches(t: Table, addr: Address, bitlen: nat, k: Bits)
    requires t.Wide(addr) && bitlen <= t.maxaddrlen
    reads t`entries
  {
    k in t.entries && k <= Prefix(addr, bitlen)
  }

  // r is the entry of the longest matching key shorter than limit, if there is one.
  ghost predicate LongestMatch(t: Table, addr: Address, bitlen: nat, limit: int, r: Head?)
    requires t.Wide(addr) && bitlen <= t.maxaddrlen
    reads t`entries
  {
    if r == null then
      forall k {:trigger Matches(t, addr, bitlen, k)} :: Matches(t, addr, bitlen, k) ==> |k| >= limit
    else
      exists b ::
        && Matches(t, addr, bitlen, b) && t.entries[b] == r && |b| < limit
        && (forall k {:trigger Matches(t, addr, bitlen, k)} :: Matches(t, addr, bitlen, k) ==>
            |k| >= limit || |k| <= |b|)
  }

  // Every node on the address's way within bitlen bits is f or above it.
  ghost predicate Reached(t: Table, addr: Address, bitlen: nat, m: Node, f: Node)
    requires t.Links() && t.Wide(addr) && bitlen <= t.maxaddrlen && m in t.nodes && f in t.nodes
    reads t`nodes, t`root, t.nodes`left, t.nodes`right, t.nodes`parent, t.nodes`bit, t.nodes`pfx
  {
    m.pfx <= Prefix(addr, bitlen) ==> t.Above(m, f)
  }

  // The descent shared by the exact and the best-match lookups.
  method Descend(t: Table, addr: Address, bitlen: nat) returns (f: Node)
    requires t.Links() && t.Wide(addr) && bitlen <= t.maxaddrlen && t.root != null
    ensures f in t.nodes && t.BitOk(f)
    ensures forall m {:trigger Reached(t, addr, bitlen, m, f)} :: m in t.nodes ==> Reached(t, addr, bitlen, m, f)
    ensures f.parent != null ==> f.parent.bit < bitlen
  {
    f := t.root;
    ghost var k := Prefix(addr, bitlen);
    forall m | m in t.nodes ensures f.pfx <= m.pfx && (f.pfx == m.pfx ==> m == f) {
      t.RootAbove(m);
      t.AboveIsPrefix(f, m);
    }
    while f.bit < bitlen
      invariant f in t.nodes
      invariant forall m <- t.nodes :: m.pfx <= k ==> t.Above(m, f) || f.pfx < m.pfx
      invariant f.parent != null ==> f.parent.bit < bitlen
      decreases t.maxaddrlen - |f.pfx|
    {
      assert t.BitOk(f) && t.LeftOk(f) && t.RightOk(f);
      ghost var g := f;
      var side := BitSet(addr, f.bit);
      assert k[f.bit] == side;
      forall m | m in t.nodes && m.pfx <= k && f.pfx < m.pfx
        ensures t.Child(f, side) != null && t.Child(f, side).pfx <= m.pfx
      {
        var c := t.ChildTowards(f, m);
      }
      if side {
        if f.right == null {
          break;
        }
        f := f.right;
      } else {
        if f.left == null {
          break;
        }
        f := f.left;
      }
      assert t.BitOk(f);
      forall m | m in t.nodes && m.pfx <= k
        ensures t.Above(m, f) || f.pfx < m.pfx
      {
        if f.pfx == m.pfx { t.PrefixIsUnique(f, m); }
      }
    }
    assert t.BitOk(f);
    forall m | m in t.nodes
      ensures Reached(t, addr, bitlen, m, f)
    {
    }
  }

  // The entry of node n, if it has one, is a match.
  lemma MatchingNode(t: Table, addr: Address, bitlen: nat, n: Node)
    requires t.Links() && t.Content() && t.Wide(addr) && bitlen <= t.maxaddrlen && n in t.nodes
    ensures t.BitOk(n)
    ensures n.rth != null ==> t.Wide(n.rth.addr) && n.pfx in t.entries && t.entries[n.pfx] == n.rth
    ensures n.rth != null && n.bit <= bitlen ==>
      (CompareAddress(addr, n.rth.addr, ByteOf(n.bit), MaskOf(n.bit)) == 0 <==> Matches(t, addr, bitlen, n.pfx))
  {
    assert t.BitOk(n) && t.EntryOk(n);
    if n.rth != null {
      assert t.ListedOk(n.pfx);
      if n.bit <= bitlen {
        CompareCorrect(addr, n.rth.addr, n.bit);
        ShorterPrefix(addr, n.bit, bitlen);
      }
    }
  }

  lemma ShorterPrefix(addr: Address, m: nat, n: nat)
    requires m <= n <= 8 * |addr|
    ensures Prefix(addr, m) == Prefix(addr, n)[..m] && Prefix(addr, m) <= Prefix(addr, n)
  {
  }

  // A matching key sits at node m.
  ghost predicate MatchAt(t: Table, addr: Address, bitlen: nat, m: Node)
    requires t.Wide(addr) && bitlen <= t.maxaddrlen && m in t.nodes
    reads t`nodes, t.nodes`rth, t.nodes`pfx
  {
    m.rth != null && m.pfx <= Prefix(addr, bitlen)
  }

  // From start up to the first node whose entry matches.
  method Backtrack(t: Table, addr: Address, bitlen: nat, start: Node?) returns (n: Node?)
    requires t.Links() && t.Content() && t.Wide(addr) && bitlen <= t.maxaddrlen && (start == null || start in t.nodes)
    ensures n != null ==> start != null && n in t.nodes && MatchAt(t, addr, bitlen, n) && t.Above(n, start)
    ensures forall m {:trigger MatchAt(t, addr, bitlen, m)} ::
      m in t.nodes && MatchAt(t, addr, bitlen, m) && start != null && t.Above(m, start) ==> n != null && t.Above(m, n)
  {
    n := start;
    while n != null
      invariant n != null ==> n in t.nodes && t.Above(n, start)
      invariant forall m {:trigger MatchAt(t, addr, bitlen, m)} ::
        m in t.nodes && MatchAt(t, addr, bitlen, m) && start != null && t.Above(m, start) ==> n != null && t.Above(m, n)
      decreases if n == null then 0 else |n.pfx| + 1
    {
      MatchingNode(t, addr, bitlen, n);
      if n.bit <= bitlen && n.rth != null && CompareAddress(addr, n.rth.addr, ByteOf(n.bit), MaskOf(n.bit)) == 0 {
        break;
      }
      assert !MatchAt(t, addr, bitlen, n);
      assert t.UpOk(n);
      if n.parent != null {
        assert t.LeftOk(n.parent) && t.RightOk(n.parent);
        assert t.Above(n.parent, n);
        t.AboveTransitive(n.parent, n, start);
      }
      n := n.parent;
    }
  }

  // Among the entries at or above start, the one that Backtrack stops at is the longest match.
  lemma BacktrackFindsLongest(t: Table, addr: Address, bitlen: nat, start: Node?, n: Node?, limit: int)
    requires t.Links() && t.Content() && t.Wide(addr) && bitlen <= t.maxaddrlen && (start == null || start in t.nodes)
    requires n != null ==> start != null && n in t.nodes && MatchAt(t, addr, bitlen, n) && |n.pfx| < limit
    requires forall m {:trigger MatchAt(t, addr, bitlen, m)} ::
      m in t.nodes && MatchAt(t, addr, bitlen, m) && start != null && t.Above(m, start) ==> n != null && t.Above(m, n)
    requires forall m <- t.nodes :: MatchAt(t, addr, bitlen, m) && |m.pfx| < limit ==>
      start != null && t.Above(m, start)
    ensures LongestMatch(t, addr, bitlen, limit, if n == null then null else n.rth)
  {
    forall k | Matches(t, addr, bitlen, k)
      ensures |k| >= limit || (n != null && |k| <= |n.pfx|)
    {
      assert t.ListedOk(k);
      var m := t.entries[k].rtn;
      assert MatchAt(t, addr, bitlen, m);
      if |k| < limit {
        t.AboveIsPrefix(m, n);
      }
    }
    if n != null {
      assert t.EntryOk(n);
      assert Matches(t, addr, bitlen, n.pfx);
    }
  }

  method GetBest(t: Table, addr: Option<Address>, bitlen: nat) returns (r: Head?)
    requires t.Links() && t.Content() && (addr.Some? ==> t.Wide(addr.value)) && (t.debug || bitlen <= t.maxaddrlen)
    ensures addr.None? || bitlen > t.maxaddrlen ==> r == null
    ensures addr.Some? && bitlen <= t.maxaddrlen ==> LongestMatch(t, addr.value, bitlen, bitlen + 1, r)
  {
    if addr.None? || (t.debug && bitlen > t.maxaddrlen) {
      return null;
    }
    ghost var f;
    var n;
    f, n := BestNode(t, addr.value, bitlen);
    BacktrackFindsLongest(t, addr.value, bitlen, f, n, bitlen + 1);
    r := if n == null then null else n.rth;
  }

  // Descent and backtracking; f is where the descent ended.
  method BestNode(t: Table, addr: Address, bitlen: nat) returns (ghost f: Node?, n: Node?)
    requires t.Links() && t.Content() && t.Wide(addr) && bitlen <= t.maxaddrlen
    ensures f == null || f in t.nodes
    ensures n != null ==> f != null && n in t.nodes && MatchAt(t, addr, bitlen, n)
    ensures forall m {:trigger MatchAt(t, addr, bitlen, m)} ::
      m in t.nodes && MatchAt(t, addr, bitlen, m) && f != null && t.Above(m, f) ==> n != null && t.Above(m, n)
    ensures forall m <- t.nodes :: MatchAt(t, addr, bitlen, m) ==> f != null && t.Above(m, f)
  {
    if t.root == null {
      return null, null;
    }
    var start := Descend(t, addr, bitlen);
    f := start;
    n := Backtrack(t, addr, bitlen, start);
    forall m <- t.nodes | MatchAt(t, addr, bitlen, m)
      ensures t.Above(m, f)
    {
      assert Reached(t, addr, bitlen, m, f);
    }
  }

  // The second best match: the longest one that is shorter than the best.
  ghost predicate SecondBest(t: Table, addr: Address, bitlen: nat, r: Head?, second: Head?)
    requires t.Wide(addr) && bitlen <= t.maxaddrlen
    reads t`entries
  {
    if r == null then second == null else
      exists b :: Matches(t, addr, bitlen, b) && t.entries[b] == r && LongestMatch(t, addr, bitlen, |b|, second)
  }

  method SecondNode(t: Table, addr: Address, bitlen: nat, n: Node) returns (second: Head?)
    requires t.Links() && t.Content() && t.Wide(addr) && bitlen <= t.maxaddrlen && n in t.nodes &&
      MatchAt(t, addr, bitlen, n)
    ensures SecondBest(t, addr, bitlen, n.rth, second)
  {
    assert t.UpOk(n);
    var s := Backtrack(t, addr, bitlen, n.parent);
    if n.parent != null { assert t.LeftOk(n.parent) && t.RightOk(n.parent); }
    if s != null { t.AboveIsPrefix(s, n.parent); }
    forall m <- t.nodes | MatchAt(t, addr, bitlen, m) && |m.pfx| < |n.pfx|
      ensures n.parent != null && t.Above(m, n.parent)
    {
      var k := Prefix(addr, bitlen);
      assert m.pfx == k[..|m.pfx|] && n.pfx == k[..|n.pfx|];
      assert m.pfx == n.pfx[..|m.pfx|];
      t.PrefixIsAbove(m, n);
    }
    BacktrackFindsLongest(t, addr, bitlen, n.parent, s, |n.pfx|);
    assert t.EntryOk(n);
    assert Matches(t, addr, bitlen, n.pfx);
    second := if s == null then null else s.rth;
  }

  // The second result goes to a variable of the caller, whose old value is before:
  // it is left alone when the search does not start.
  method GetBestAndPrev(t: Table, addr: Option<Address>, bitlen: nat, before: Head?) returns (r: Head?, lessBest: Head?)
    requires t.Links() && t.Content() && (addr.Some? ==> t.Wide(addr.value)) && (t.debug || bitlen <= t.maxaddrlen)
    ensures addr.None? || bitlen > t.maxaddrlen || t.root == null ==> r == null && lessBest == before
    ensures addr.Some? && bitlen <= t.maxaddrlen ==> LongestMatch(t, addr.value, bitlen, bitlen + 1, r)
    ensures addr.Some? && bitlen <= t.maxaddrlen && t.root != null ==> SecondBest(t, addr.value, bitlen, r, lessBest)
  {
    if addr.None? || (t.debug && bitlen > t.maxaddrlen) {
      return null, before;
    }
    ghost var f;
    var n;
    f, n := BestNode(t, addr.value, bitlen);
    BacktrackFindsLongest(t, addr.value, bitlen, f, n, bitlen + 1);
    if t.root == null {
      assert t.RootOk();
      return null, before;
    }
    if n == null {
      return null, null;
    }
    r := n.rth;
    lessBest := SecondNode(t, addr.value, bitlen, n);
  }

  method GetNextBest(t: Table, addr: Option<Address>, bitlen: nat) returns (second: Head?)
    requires t.Links() && t.Content() && (addr.Some? ==> t.Wide(addr.value)) && (t.debug || bitlen <= t.maxaddrlen)
    ensures addr.None? || bitlen > t.maxaddrlen ==> second == null
    ensures addr.Some? && bitlen <= t.maxaddrlen ==>
      exists r :: LongestMatch(t, addr.value, bitlen, bitlen + 1, r) && SecondBest(t, addr.value, bitlen, r, second)
  {
    if addr.None? || (t.debug && bitlen > t.maxaddrlen) {
      return null;
    }
    ghost var f;
    var n;
    f, n := BestNode(t, addr.value, bitlen);
    BacktrackFindsLongest(t, addr.value, bitlen, f, n, bitlen + 1);
    if n == null {
      assert SecondBest(t, addr.value, bitlen, null, null);
      return null;
    }
    second := SecondNode(t, addr.value, bitlen, n);
  }

  // The longest stored proper prefix of a stored key.
  method GetLessSpecific(t: Table, h: Head, ghost key: Bits) returns (r: Head?)
    requires t.Links() && t.Content() && key in t.entries && t.entries[key] == h
    ensures r == null ==> forall k <- t.entries :: !(k < key)
    ensures r != null ==>
      exists b :: b in t.entries && t.entries[b] == r && b < key && forall k <- t.entries :: k < key ==> k <= b
  {
    assert t.ListedOk(key);
    var n := h.rtn.parent;
    assert t.UpOk(h.rtn);
    forall m <- t.nodes | m.pfx < key ensures n != null && t.Above(m, n) {
      t.PrefixIsAbove(m, h.rtn);
    }
    if n != null { assert t.LeftOk(n) && t.RightOk(n); }
    while n != null
      invariant n != null ==> n in t.nodes && n.pfx < key
      invariant forall m <- t.nodes :: m.rth != null && m.pfx < key ==> n != null && t.Above(m, n)
      decreases if n == null then 0 else |n.pfx| + 1
    {
      if n.rth != null {
        break;
      }
      assert t.UpOk(n);
      if n.parent != null { assert t.LeftOk(n.parent) && t.RightOk(n.parent); }
      n := n.parent;
    }
    forall k | k in t.entries && k < key
      ensures n != null && k <= n.pfx
    {
      assert t.ListedOk(k);
      t.AboveIsPrefix(t.entries[k].rtn, n);
    }
    if n == null {
      r := null;
    } else {
      assert t.EntryOk(n);
      r := n.rth;
    }
  }

  // ---- Exact lookup ----

  method GetExact(t: Table, addr: Option<Address>, bitlen: nat) returns (r: Head?)
    requires t.Links() && t.Content() && (addr.Some? ==> t.Wide(addr.value)) &&
      (t.debug || (addr.Some? && bitlen <= t.maxaddrlen))
    ensures addr.None? || bitlen > t.maxaddrlen ==> r == null
    ensures addr.Some? && bitlen <= t.maxaddrlen ==>
      var k := Prefix(addr.value, bitlen); r == if k in t.entries then t.entries[k] else null
  {
    if t.debug && (addr.None? || bitlen > t.maxaddrlen) {
      return null;
    }
    ghost var k := Prefix(addr.value, bitlen);
    if k in t.entries { assert t.ListedOk(k); }
    if t.root == null {
      return null;
    }
    var f := Descend(t, addr.value, bitlen);
    MatchingNode(t, addr.value, bitlen, f);
    assert t.UpOk(f);
    if k in t.entries {
      var m := t.entries[k].rtn;
      assert Reached(t, addr.value, bitlen, m, f);
      if f.parent != null {
        assert t.BitOk(f.parent);
        if m != f { t.AboveIsPrefix(m, f.parent); }
      }
    }
    if f.bit != bitlen || f.rth == null {
      return null;
    }
    if CompareAddress(addr.value, f.rth.addr, ByteOf(f.bit), MaskOf(f.bit)) != 0 {
      return null;
    }
    assert Matches(t, addr.value, bitlen, f.pfx) && f.pfx == k;
    r := f.rth;
  }
}

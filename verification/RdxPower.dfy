// The power walk, which takes a subtree of the radix tree without a callback, and the
// enumeration of the table by repeated successor searches.
module RdxPower {
  import opened Options
  import opened RdxBits
  import opened RdxOrder
  import opened RdxTable
  import opened RdxSearch
  import opened RdxNext
  import opened RdxWalk
  import opened Walks

  // ---- The power walk over a subtree ----

  // The entries of the subtree of root, from the one at start on.
  ghost predicate SubtreeVisits(t: Table, root: Node, start: Node, v: seq<Head>)
    reads t`nodes, t`entries, t.nodes`pfx, v`rtn, root`pfx, start`pfx
  {
    && InKeyOrder(t, v)
    && forall k <- t.entries :: t.entries[k] in v <==> root.pfx <= k && !Less(k, start.pfx)
  }

  // m lies in the subtree, from start on.
  ghost predicate InPart(root: Node, start: Node, m: Node)
    reads root`pfx, start`pfx, m`pfx
  {
    root.pfx <= m.pfx && !Less(m.pfx, start.pfx)
  }

  // Before x, all of the part has been visited; x lies in it.
  ghost predicate Powering(t: Table, root: Node, start: Node, v: seq<Head>, x: Node)
    reads t`nodes, t`entries, t.nodes`pfx, t.nodes`rth, v`rtn, root`pfx, start`pfx, x`pfx
  {
    && x in t.nodes && InPart(root, start, x) && InKeyOrder(t, v)
    && forall m <- t.nodes :: m.rth != null ==> (m.rth in v <==> InPart(root, start, m) && Less(m.pfx, x.pfx))
  }

  // The same after x has been visited.
  ghost predicate Powered(t: Table, root: Node, start: Node, v: seq<Head>, x: Node)
    reads t`nodes, t`entries, t.nodes`pfx, t.nodes`rth, v`rtn, root`pfx, start`pfx, x`pfx
  {
    && x in t.nodes && InPart(root, start, x) && InKeyOrder(t, v)
    && forall m <- t.nodes :: m.rth != null ==>
        (m.rth in v <==> InPart(root, start, m) && (Less(m.pfx, x.pfx) || m == x))
  }

  lemma PowerVisit(t: Table, root: Node, start: Node, v: seq<Head>, x: Node)
    requires t.Links() && t.Content() && Powering(t, root, start, v, x)
    ensures Powered(t, root, start, if x.rth != null then v + [x.rth] else v, x)
  {
    var v1 := if x.rth != null then v + [x.rth] else v;
    assert t.EntryOk(x);
    forall m | m in t.nodes && m.rth != null
      ensures m.rth in v1 <==> InPart(root, start, m) && (Less(m.pfx, x.pfx) || m == x)
    {
      assert t.EntryOk(m) && t.ListedOk(m.pfx);
      if m.rth == x.rth {
        assert t.ListedOk(x.pfx);
        t.PrefixIsUnique(m, x);
      }
    }
    if x.rth != null {
      assert t.ListedOk(x.pfx);
      t.PrefixIsUnique(x, x.rth.rtn);
      forall i | 0 <= i < |v|
        ensures Less(v[i].rtn.pfx, x.pfx)
      {
        assert t.ListedOk(v[i].rtn.pfx) && v[i] in v;
        assert v[i].rtn in t.nodes && v[i].rtn.rth == v[i];
      }
    }
  }

  // All nodes before y, or none but those before x and x itself.
  ghost predicate NextToVisit(t: Table, root: Node, x: Node, y: Node)
    reads t`nodes, t.nodes`pfx, root`pfx, x`pfx, y`pfx
  {
    && y in t.nodes && root.pfx <= y.pfx && !Less(y.pfx, x.pfx)
    && forall m <- t.nodes :: root.pfx <= m.pfx ==> (Less(m.pfx, y.pfx) <==> Less(m.pfx, x.pfx) || m == x)
  }

  lemma PowerMove(t: Table, root: Node, start: Node, v: seq<Head>, x: Node, y: Node)
    requires t.Links() && root in t.nodes && start in t.nodes && Powered(t, root, start, v, x) &&
      NextToVisit(t, root, x, y)
    ensures Powering(t, root, start, v, y)
    ensures ToVisit(t, y, Down) < ToVisit(t, x, Down)
  {
    LessIrreflexive(x.pfx);
    assert Less(x.pfx, y.pfx);
    if Less(y.pfx, start.pfx) { LessTransitive(x.pfx, y.pfx, start.pfx); }
    assert x in ToVisit(t, x, Down) && x !in ToVisit(t, y, Down);
    forall m | m in ToVisit(t, y, Down) ensures m in ToVisit(t, x, Down) {
      if Less(m.pfx, x.pfx) { LessTransitive(m.pfx, x.pfx, y.pfx); }
    }
  }

  // Right after x come its children, the left one first.
  lemma PowerDown(t: Table, root: Node, x: Node, y: Node)
    requires t.Links() && root in t.nodes && x in t.nodes && root.pfx <= x.pfx
    requires if x.left != null then y == x.left else y == x.right
    ensures NextToVisit(t, root, x, y)
  {
    assert t.LeftOk(x) && t.RightOk(x);
    LessTotal(y.pfx, x.pfx);
    PrefixIsLess(x.pfx, y.pfx);
    forall m | m in t.nodes ensures Less(m.pfx, y.pfx) <==> Less(m.pfx, x.pfx) || m == x {
      BeforeChild(t, x, x.left == null, m);
      if x.left == null { NoChild(t, x, false, m); }
    }
  }

  // Everything in root's subtree up to the end of y's is visited once x is, and no more.
  ghost predicate ClimbsFrom(t: Table, root: Node, x: Node, y: Node)
    reads t`nodes, t.nodes`pfx, root`pfx, x`pfx, y`pfx
  {
    && y in t.nodes && root.pfx <= y.pfx
    && forall m <- t.nodes :: root.pfx <= m.pfx ==> (UpTo(m, y) <==> Less(m.pfx, x.pfx) || m == x)
  }

  lemma LeafEnds(t: Table, root: Node, x: Node)
    requires t.Links() && x in t.nodes && root.pfx <= x.pfx && x.left == null && x.right == null
    ensures ClimbsFrom(t, root, x, x)
  {
    forall m | m in t.nodes ensures UpTo(m, x) <==> Less(m.pfx, x.pfx) || m == x {
      NoChild(t, x, false, m);
      NoChild(t, x, true, m);
      if m.pfx == x.pfx { t.PrefixIsUnique(x, m); }
    }
  }

  lemma PowerClimb(t: Table, root: Node, x: Node, y: Node)
    requires t.Links() && root in t.nodes && x in t.nodes && ClimbsFrom(t, root, x, y) && y != root
    ensures t.UpOk(y) && y.parent != null
    ensures y.parent.right == y || y.parent.right == null ==> ClimbsFrom(t, root, x, y.parent)
    ensures !(y.parent.right == y || y.parent.right == null) ==>
      NextToVisit(t, root, x, y.parent.right) && y.parent.right != root
  {
    var p := y.parent;
    assert t.UpOk(y);
    t.PrefixIsAbove(root, y);
    assert t.LeftOk(p) && t.RightOk(p);
    t.AboveIsPrefix(root, p);
    var side := p.right == y;
    forall m | m in t.nodes && root.pfx <= m.pfx
      ensures UpTo(m, y) <==> if side then UpTo(m, p) else Less(m.pfx, p.pfx) || m == p || Extends(p.pfx, m.pfx, false)
    {
      UpToChild(t, p, side, m);
    }
    if p.right == y || p.right == null {
      forall m | m in t.nodes && root.pfx <= m.pfx ensures UpTo(m, p) <==> Less(m.pfx, x.pfx) || m == x {
        if p.right == null {
          NoChild(t, p, true, m);
          if p.pfx == m.pfx { t.PrefixIsUnique(p, m); }
        }
      }
    } else {
      var z := p.right;
      forall m | m in t.nodes && root.pfx <= m.pfx ensures Less(m.pfx, z.pfx) <==> Less(m.pfx, x.pfx) || m == x {
        BeforeChild(t, p, true, m);
      }
      LessIrreflexive(z.pfx);
    }
  }

  lemma PowerEnds(t: Table, root: Node, start: Node, v: seq<Head>, x: Node)
    requires t.Links() && t.Content() && root in t.nodes && Powered(t, root, start, v, x) &&
      ClimbsFrom(t, root, x, root)
    ensures SubtreeVisits(t, root, start, v)
  {
    forall k | k in t.entries
      ensures t.entries[k] in v <==> root.pfx <= k && !Less(k, start.pfx)
    {
      assert t.ListedOk(k);
      var m := t.entries[k].rtn;
      assert root.pfx <= k ==> UpTo(m, root);
    }
  }

  lemma PowerBegins(t: Table, root: Node, start: Node)
    requires t.Links() && root in t.nodes && start in t.nodes && root.pfx <= start.pfx
    ensures Powering(t, root, start, [], start)
  {
    LessIrreflexive(start.pfx);
  }

  // From a leaf up to where there is something to the right, or to the top of the subtree.
  method PowerUp(t: Table, root: Node, x0: Node) returns (x: Node)
    requires t.Links() && root in t.nodes && x0 in t.nodes && root.pfx <= x0.pfx && x0.left == null && x0.right == null
    ensures if x == root then ClimbsFrom(t, root, x0, root) else NextToVisit(t, root, x0, x)
  {
    x := x0;
    LeafEnds(t, root, x0);
    assert t.UpOk(x);
    while x != root && x.parent != null
      invariant ClimbsFrom(t, root, x0, x)
      decreases |x.pfx|
    {
      PowerClimb(t, root, x0, x);
      assert t.LeftOk(x.parent) && t.RightOk(x.parent);
      if x.parent.right == x || x.parent.right == null {
        x := x.parent;
      } else {
        return x.parent.right;
      }
    }
    if x != root { PowerClimb(t, root, x0, x); }
  }

  // On to the node to visit after x0, or back to the root.
  method PowerNext(t: Table, root: Node, x0: Node) returns (x: Node)
    requires t.Links() && root in t.nodes && x0 in t.nodes && root.pfx <= x0.pfx
    ensures if x == root then ClimbsFrom(t, root, x0, root) else NextToVisit(t, root, x0, x)
  {
    assert t.LeftOk(x0) && t.RightOk(x0);
    if x0.left != null {
      x := x0.left;
      PowerDown(t, root, x0, x);
    } else if x0.right != null {
      x := x0.right;
      PowerDown(t, root, x0, x);
    } else {
      x := PowerUp(t, root, x0);
    }
  }

  lemma PowerStep(t: Table, root: Node, start: Node, v: seq<Head>, x0: Node, x: Node)
    requires t.Links() && t.Content() && root in t.nodes && start in t.nodes && x0 in t.nodes
    requires Powered(t, root, start, v, x0)
    requires if x == root then ClimbsFrom(t, root, x0, root) else NextToVisit(t, root, x0, x)
    ensures if x == root then SubtreeVisits(t, root, start, v)
      else Powering(t, root, start, v, x) && ToVisit(t, x, Down) < ToVisit(t, x0, Down)
  {
    if x == root {
      PowerEnds(t, root, start, v, x0);
    } else {
      PowerMove(t, root, start, v, x0, x);
    }
  }

  method PowerLoop(t: Table, root: Node, start: Node) returns (visited: seq<Head>)
    requires t.Links() && t.Content() && root in t.nodes && start in t.nodes && root.pfx <= start.pfx
    ensures SubtreeVisits(t, root, start, visited)
  {
    var x: Node := start;
    visited := [];
    PowerBegins(t, root, start);
    while true
      invariant Powering(t, root, start, visited, x)
      decreases ToVisit(t, x, Down)
    {
      ghost var x0 := x;
      PowerVisit(t, root, start, visited, x);
      if x.rth != null {
        visited := visited + [x.rth];
      }
      x := PowerNext(t, root, x);
      PowerStep(t, root, start, visited, x0, x);
      if x == root {
        return;
      }
    }
  }

  // Whether the climb from x meets the root.
  method IsBelow(t: Table, root: Node?, x0: Node?) returns (below: bool)
    requires t.Links() && (root == null || root in t.nodes) && (x0 == null || x0 in t.nodes)
    ensures below <==> root != null && x0 != null && root.pfx <= x0.pfx
  {
    var x := x0;
    while x != null
      invariant x == null || x in t.nodes
      invariant root != null && x0 != null && root.pfx <= x0.pfx ==> x != null && root.pfx <= x.pfx
      invariant x != null ==> x0 != null && x.pfx <= x0.pfx
      decreases if x == null then 0 else |x.pfx| + 1
    {
      if x == root {
        return true;
      }
      assert t.UpOk(x);
      if x.parent != null { assert t.LeftOk(x.parent) && t.RightOk(x.parent); }
      if root != null && root.pfx <= x.pfx {
        t.PrefixIsAbove(root, x);
        t.AboveIsPrefix(root, x.parent);
      }
      x := x.parent;
    }
    below := false;
  }

  // The subtree that the walk is asked for holds key k.
  ghost predicate Asked(t: Table, rootAddr: Option<Address>, rootLen: nat, k: Bits)
    requires rootAddr.Some? ==> t.Wide(rootAddr.value) && rootLen <= t.maxaddrlen
  {
    rootAddr.Some? ==> Prefix(rootAddr.value, rootLen) <= k
  }

  // The entry to start at: the one with the address asked for, or the next one.
  ghost predicate StartsWith(t: Table, nextAddr: Option<Address>, nextLen: nat, first: Head?)
    requires nextAddr.Some? ==> t.Wide(nextAddr.value) && nextLen <= t.maxaddrlen
    reads t`entries, t`nodes, t.nodes`pfx, (if first == null then {} else {first})`rtn
  {
    && (first != null ==> Stored(t, first))
    && (nextAddr.Some? ==>
          var k := Prefix(nextAddr.value, nextLen);
          if k in t.entries then first == t.entries[k]
          else NextKey(t, k, first) <==> !Stranded(t, k) && !Detoured(t, nextAddr.value, nextLen))
  }

  method FirstToVisit(t: Table, nextAddr: Address, nextLen: nat) returns (first: Head?)
    requires t.Links() && t.Content() && t.Wide(nextAddr) && (t.debug || nextLen <= t.maxaddrlen)
    ensures if nextLen <= t.maxaddrlen then StartsWith(t, Some(nextAddr), nextLen, first) else first == null
  {
    first := GetExact(t, Some(nextAddr), nextLen);
    if first == null {
      first := GetNext(t, Some(nextAddr), nextLen);
    } else {
      assert t.ListedOk(Prefix(nextAddr, nextLen));
    }
  }

  // In debug mode a key that is too long is refused; then the walk visits nothing.
  ghost predicate Refused(t: Table, addr: Option<Address>, len: nat) {
    addr.Some? && len > t.maxaddrlen
  }

  method SubtreeRoot(t: Table, rootAddr: Option<Address>, rootLen: nat) returns (root: Node?)
    requires t.Links() && t.Content() &&
      (rootAddr.Some? ==> t.Wide(rootAddr.value) && (t.debug || rootLen <= t.maxaddrlen))
    ensures Refused(t, rootAddr, rootLen) ==> root == null
    ensures !Refused(t, rootAddr, rootLen) && root == null ==> forall k <- t.entries :: !Asked(t, rootAddr, rootLen, k)
    ensures root != null ==> !Refused(t, rootAddr, rootLen) && root in t.nodes
    ensures root != null ==> forall m <- t.nodes :: Asked(t, rootAddr, rootLen, m.pfx) <==> root.pfx <= m.pfx
  {
    if rootAddr.Some? {
      root := GetSubtree(t, rootAddr, rootLen);
    } else {
      root := t.root;
      if root == null {
        Empty(t);
      } else {
        assert t.RootOk();
        forall m | m in t.nodes ensures root.pfx <= m.pfx { t.RootAbove(m); t.AboveIsPrefix(root, m); }
      }
    }
  }

  // What the whole walk visits: the entries of the subtree from the starting entry on;
  // nothing, if that one is elsewhere.
  ghost predicate PowerVisits(t: Table, rootAddr: Option<Address>, rootLen: nat, nextAddr: Option<Address>,
      first: Head?, v: seq<Head>)
    requires rootAddr.Some? ==> t.Wide(rootAddr.value) && rootLen <= t.maxaddrlen
    requires first != null ==> Stored(t, first)
    reads t`entries, t`nodes, t.nodes`pfx, v`rtn, (if first == null then {} else {first})`rtn
  {
    && InKeyOrder(t, v)
    && forall k <- t.entries :: t.entries[k] in v <==>
         && Asked(t, rootAddr, rootLen, k)
         && (nextAddr.Some? ==> first != null && Asked(t, rootAddr, rootLen, first.rtn.pfx) && !Less(k, first.rtn.pfx))
  }

  method PowerWalk(t: Table, rootAddr: Option<Address>, rootLen: nat, nextAddr: Option<Address>, nextLen: nat)
    returns (visited: seq<Head>, ghost first: Head?)
    requires t.Links() && t.Content() &&
      (rootAddr.Some? ==> t.Wide(rootAddr.value) && (t.debug || rootLen <= t.maxaddrlen))
    requires nextAddr.Some? ==> t.Wide(nextAddr.value) && (t.debug || nextLen <= t.maxaddrlen)
    ensures Refused(t, rootAddr, rootLen) || Refused(t, nextAddr, nextLen) ==> visited == []
    ensures !Refused(t, rootAddr, rootLen) && !Refused(t, nextAddr, nextLen) ==>
      StartsWith(t, nextAddr, nextLen, first) && PowerVisits(t, rootAddr, rootLen, nextAddr, first, visited)
  {
    var root := SubtreeRoot(t, rootAddr, rootLen);
    var x;
    x, first := StartNode(t, root, nextAddr, nextLen);
    visited := PowerFrom(t, root, x);
    if !Refused(t, rootAddr, rootLen) && !Refused(t, nextAddr, nextLen) {
      PowerAll(t, rootAddr, rootLen, nextAddr, first, root, x, visited);
    }
  }

  method StartNode(t: Table, root: Node?, nextAddr: Option<Address>, nextLen: nat)
    returns (x: Node?, ghost first: Head?)
    requires t.Links() && t.Content() && (root == null || root in t.nodes)
    requires nextAddr.Some? ==> t.Wide(nextAddr.value) && (t.debug || nextLen <= t.maxaddrlen)
    ensures x == null || x in t.nodes
    ensures x == if nextAddr.None? then root else if first == null then null else first.rtn
    ensures if Refused(t, nextAddr, nextLen) then x == null else StartsWith(t, nextAddr, nextLen, first)
  {
    x, first := root, null;
    if nextAddr.Some? {
      var h := FirstToVisit(t, nextAddr.value, nextLen);
      first := h;
      x := if h == null then null else h.rtn;
    }
  }

  // The loop, if there is a node to start from and it is in the subtree.
  method PowerFrom(t: Table, root: Node?, x: Node?) returns (visited: seq<Head>)
    requires t.Links() && t.Content() && (root == null || root in t.nodes) && (x == null || x in t.nodes)
    ensures if root != null && x != null && root.pfx <= x.pfx then SubtreeVisits(t, root, x, visited) else visited == []
  {
    var below := IsBelow(t, root, x);
    visited := [];
    if root != null && x != null && below {
      visited := PowerLoop(t, root, x);
    }
  }

  lemma PowerAll(t: Table, rootAddr: Option<Address>, rootLen: nat, nextAddr: Option<Address>, first: Head?,
      root: Node?, x: Node?, v: seq<Head>)
    requires t.Links() && t.Content() && (rootAddr.Some? ==> t.Wide(rootAddr.value) && rootLen <= t.maxaddrlen)
    requires first != null ==> Stored(t, first)
    requires root == null ==> forall k <- t.entries :: !Asked(t, rootAddr, rootLen, k)
    requires root != null ==>
      root in t.nodes && forall m <- t.nodes :: Asked(t, rootAddr, rootLen, m.pfx) <==> root.pfx <= m.pfx
    requires x == if nextAddr.None? then root else if first == null then null else first.rtn
    requires if root != null && x != null && root.pfx <= x.pfx then SubtreeVisits(t, root, x, v) else v == []
    ensures PowerVisits(t, rootAddr, rootLen, nextAddr, first, v)
  {
    forall k | k in t.entries
      ensures t.entries[k] in v <==>
        && Asked(t, rootAddr, rootLen, k)
        && (nextAddr.Some? ==> first != null && Asked(t, rootAddr, rootLen, first.rtn.pfx) && !Less(k, first.rtn.pfx))
    {
      assert t.ListedOk(k);
      assert Asked(t, rootAddr, rootLen, k) ==> root != null;
      if root != null && nextAddr.None? && root.pfx <= k {
        LessIrreflexive(k);
        if root.pfx == k { } else { RootFirst(root.pfx, k); }
      }
    }
  }

  lemma RootFirst(p: Bits, k: Bits)
    requires p <= k
    ensures !Less(k, p)
  {
    LessIrreflexive(p);
    if |p| < |k| { PrefixIsLess(p, k); } else { assert p == k[..|p|] == k; }
  }

  // ---- The successor chain ----

  // A stored key is followed correctly, whatever the address has beyond it.
  lemma StoredIsFollowed(t: Table, dest: Address, bitlen: nat)
    requires t.Wide(dest) && bitlen <= t.maxaddrlen && Prefix(dest, bitlen) in t.entries
    ensures !Stranded(t, Prefix(dest, bitlen)) && !Detoured(t, dest, bitlen)
  {
    var k := Prefix(dest, bitlen);
    forall p ensures !StrandedAt(t, k, p) {
    }
    if Detoured(t, dest, bitlen) {
      var p, q :| DetouredAt(t, dest, bitlen, p, q);
      assert k <= p[..Common(p, q)];
      assert false;
    }
  }

  // So is a key whose address has nothing but zeros beyond it, unless it is stranded.
  lemma ZeroHostBits(t: Table, dest: Address, bitlen: nat)
    requires t.Wide(dest) && bitlen <= t.maxaddrlen && forall i: nat :: bitlen <= i < t.maxaddrlen ==> !BitSet(dest, i)
    ensures !Detoured(t, dest, bitlen)
  {
  }

  // v lists the entries up to its last one.
  ghost predicate ListsUpTo(t: Table, v: seq<Head>, last: Option<Bits>)
    reads t`nodes, t`entries, t.nodes`pfx, v`rtn
  {
    InKeyOrder(t, v) && forall k <- t.entries :: t.entries[k] in v <==> last.Some? && !Less(last.value, k)
  }

  // Asking for the next entry again and again, from none to none, lists the table in order.
  method Chain(t: Table) returns (v: seq<Head>)
    requires t.Links() && t.Content()
    ensures ListsAll(t, v)
  {
    var h := FirstInChain(t);
    v := ChainOn(t, [], None, h);
  }

  method ChainOn(t: Table, v0: seq<Head>, ghost last: Option<Bits>, h: Head?) returns (v: seq<Head>)
    requires t.Links() && t.Content() && ListsUpTo(t, v0, last) && Follows(t, last, h)
    ensures ListsAll(t, v)
    decreases Ahead(t, last)
  {
    if h == null {
      ChainEnds(t, v0, last);
      return v0;
    }
    ghost var k := KeyAfter(t, v0, last, h);
    var next := NextInChain(t, h, k);
    v := ChainOn(t, v0 + [h], Some(k), next);
  }

  lemma ChainEnds(t: Table, v: seq<Head>, last: Option<Bits>)
    requires ListsUpTo(t, v, last) && Follows(t, last, null)
    ensures ListsAll(t, v)
  {
    forall k | k in t.entries ensures t.entries[k] in v { }
  }

  method FirstInChain(t: Table) returns (h: Head?)
    requires t.Links() && t.Content()
    ensures FirstKey(t, h)
  {
    h := GetNext(t, None, 0);
  }

  // From a stored entry to the next one.
  method NextInChain(t: Table, h: Head, ghost k: Bits) returns (n: Head?)
    requires t.Links() && t.Content() && k in t.entries && t.entries[k] == h
    ensures NextKey(t, k, n)
  {
    assert t.ListedOk(k) && t.BitOk(h.rtn);
    StoredIsFollowed(t, h.addr, h.rtn.bit);
    n := GetNext(t, Some(h.addr), h.rtn.bit);
  }

  ghost function Ahead(t: Table, last: Option<Bits>): set<Bits>
    reads t`entries
  {
    set k | k in t.entries && (last.Some? ==> Less(last.value, k))
  }

  // h is the first entry after last.
  ghost predicate Follows(t: Table, last: Option<Bits>, h: Head?)
    reads t`entries
  {
    match last
    case None => FirstKey(t, h)
    case Some(k) => NextKey(t, k, h)
  }

  lemma FollowsKey(t: Table, last: Option<Bits>, h: Head) returns (b: Bits)
    requires t.Links() && t.Content() && Follows(t, last, h)
    ensures Stored(t, h) && b == h.rtn.pfx
    ensures last.Some? ==> Less(last.value, b)
    ensures forall k <- t.entries :: (last.Some? ==> Less(last.value, k)) ==> !Less(k, b)
  {
    match last {
      case None =>
        b :| b in t.entries && t.entries[b] == h && forall p <- t.entries :: !Less(p, b);
      case Some(l) =>
        b :| b in t.entries && t.entries[b] == h && Less(l, b) && forall p <- t.entries :: Less(l, p) ==> !Less(p, b);
    }
    assert t.ListedOk(b);
  }

  lemma ChainStep(t: Table, v: seq<Head>, last: Option<Bits>, h: Head)
    requires t.Links() && t.Content() && ListsUpTo(t, v, last) && Follows(t, last, h)
    ensures Stored(t, h) && ListsUpTo(t, v + [h], Some(h.rtn.pfx))
    ensures Ahead(t, Some(h.rtn.pfx)) < Ahead(t, last)
  {
    var b := FollowsKey(t, last, h);
    LessIrreflexive(b);
    forall k | k in t.entries
      ensures last.Some? && !Less(last.value, k) ==> Less(k, b)
      ensures Less(b, k) && last.Some? ==> Less(last.value, k)
      ensures t.entries[k] in v + [h] <==> !Less(b, k)
    {
      assert t.ListedOk(k);
      LessTotal(k, b);
      if last.Some? {
        LessTotal(last.value, k);
        if Less(k, last.value) { LessTransitive(k, last.value, b); }
        if Less(b, k) { LessTransitive(last.value, b, k); }
      }
    }
    assert b in Ahead(t, last) && b !in Ahead(t, Some(b));
    forall i | 0 <= i < |v|
      ensures Less(v[i].rtn.pfx, b)
    {
      assert Stored(t, v[i]) && v[i] in v;
    }
  }

  lemma KeyAfter(t: Table, v: seq<Head>, last: Option<Bits>, h: Head) returns (k: Bits)
    requires t.Links() && t.Content() && ListsUpTo(t, v, last) && Follows(t, last, h)
    ensures k in t.entries && t.entries[k] == h && ListsUpTo(t, v + [h], Some(k)) && Ahead(t, Some(k)) < Ahead(t, last)
  {
    ChainStep(t, v, last, h);
    k := h.rtn.pfx;
  }

  // A walk over the whole table visits the entries in the order of the chain.
  lemma WalkIsChain(t: Table, v: seq<Head>, u: seq<Head>)
    requires Visits(t, null, All, v, None) && ListsAll(t, u)
    ensures v == u
  {
    OneOrder(t, v, u);
  }

  // So does the power walk from the root.
  lemma PowerIsChain(t: Table, v: seq<Head>, u: seq<Head>)
    requires PowerVisits(t, None, 0, None, null, v) && ListsAll(t, u)
    ensures v == u
  {
    OneOrder(t, v, u);
  }
}

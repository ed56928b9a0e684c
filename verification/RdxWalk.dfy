// The walks over the radix tree: they visit the entries in the order of their keys.
module RdxWalk {
  import opened Options
  import opened RdxBits
  import opened RdxOrder
  import opened RdxTable
  import opened RdxNext
  import opened Walks
  import opened Sets

  // ---- Positions of a walker ----

  // The walker at x, moving in direction dir, has m behind it.
  ghost predicate Done(m: Node, x: Node, dir: Direction)
    reads m`pfx, x`pfx
  {
    match dir
    case Down => Less(m.pfx, x.pfx)
    case Right => Less(m.pfx, x.pfx) || m == x || Extends(x.pfx, m.pfx, false)
    case Up => UpTo(m, x)
  }

  ghost function ToVisit(t: Table, x: Node, dir: Direction): set<Node>
    reads t`nodes, t.nodes`pfx, x`pfx
  {
    set m | m in t.nodes && !Done(m, x, dir)
  }

  ghost function Effort(x: Node, dir: Direction): nat
    reads x`pfx
  {
    match dir
    case Down => 0
    case Right => 2 * |x.pfx| + 2
    case Up => 2 * |x.pfx| + 1
  }

  // From a node that has been visited: to its left, or to its right.
  ghost predicate Descends(x0: Node, x: Node, dir: Direction)
    reads x0`left
  {
    if x0.left != null then x == x0.left && dir == Down else x == x0 && dir == Right
  }

  lemma DescendLeaves(t: Table, x0: Node, x: Node, dir: Direction)
    requires t.Links() && x0 in t.nodes && Descends(x0, x, dir)
    ensures x in t.nodes
    ensures forall m <- t.nodes :: Done(m, x, dir) <==> Done(m, x0, Down) || m == x0
  {
    assert t.LeftOk(x0);
    forall m | m in t.nodes ensures Done(m, x, dir) <==> Done(m, x0, Down) || m == x0 {
      if x0.left != null { BeforeChild(t, x0, false, m); } else { NoChild(t, x0, false, m); }
    }
  }

  // The other moves leave the same nodes behind; past the root, that is all of them.
  ghost predicate Proceeds(x0: Node, dir0: Direction, x: Node?, dir: Direction)
    reads x0`right, x0`parent, (if x == null then {} else {x})`left
  {
    match dir0
    case Down => false
    case Right => if x0.right == null then x == x0 && dir == Up else x == x0.right && dir == Down
    case Up => x == x0.parent && (x != null ==> dir == if x.left == x0 then Right else Up)
  }

  lemma ProceedLeaves(t: Table, x0: Node, dir0: Direction, x: Node?, dir: Direction)
    requires t.Links() && x0 in t.nodes && Proceeds(x0, dir0, x, dir)
    ensures x == null ==> forall m <- t.nodes :: Done(m, x0, dir0)
    ensures x != null ==> x in t.nodes && Effort(x, dir) < Effort(x0, dir0)
    ensures x != null ==> forall m <- t.nodes :: Done(m, x, dir) <==> Done(m, x0, dir0)
  {
    assert t.UpOk(x0) && t.RightOk(x0);
    if x != null && x0.parent == x { assert t.LeftOk(x) && t.RightOk(x); }
    forall m | m in t.nodes
      ensures if x == null then Done(m, x0, dir0) else Done(m, x, dir) <==> Done(m, x0, dir0)
    {
      if dir0 == Up {
        if x == null {
          t.RootAbove(m);
          t.AboveIsPrefix(x0, m);
        } else {
          UpToChild(t, x, x.right == x0, m);
        }
      } else if x0.right == null {
        NoChild(t, x0, true, m);
        if m.pfx == x0.pfx { t.PrefixIsUnique(x0, m); }
      } else {
        BeforeChild(t, x0, true, m);
      }
    }
  }

  // ---- What a walk visits ----

  // Which entries a walk is interested in, by their versions.
  datatype Window = All | Between(lo: nat, hi: nat) | Nothing

  ghost predicate Selected(w: Window, h: Head)
    reads h`version
  {
    !w.Nothing? && (w.Between? ==> w.lo <= h.version <= w.hi)
  }

  // A walk that is started at an entry goes on to its right: what continues the
  // entry's key with a 0 is not visited.
  ghost predicate FromStart(start: Head?, k: Bits)
    reads (if start == null then {} else {start})`rtn
    reads (if start == null || start.rtn == null then {} else {start.rtn})`pfx
  {
    start == null || (start.rtn != null && Less(start.rtn.pfx, k) && !Extends(start.rtn.pfx, k, false))
  }

  // Stored entries in strictly increasing order of their keys.
  ghost predicate InKeyOrder(t: Table, v: seq<Head>)
    reads t`nodes, t`entries, t.nodes`pfx, v`rtn
  {
    && (forall i {:trigger v[i]} :: 0 <= i < |v| ==> Stored(t, v[i]))
    && (forall i, j {:trigger v[i], v[j]} :: 0 <= i < j < |v| ==> Less(v[i].rtn.pfx, v[j].rtn.pfx))
  }

  // The selected entries from start on have been visited, up to the one with key last.
  ghost predicate Visits(t: Table, start: Head?, w: Window, v: seq<Head>, last: Option<Bits>)
    reads t`nodes, t`entries, t.nodes`pfx, v`rtn, t.entries.Values`version
    reads (if start == null then {} else {start})`rtn
    reads (if start == null || start.rtn == null then {} else {start.rtn})`pfx
  {
    && InKeyOrder(t, v)
    && forall k <- t.entries :: t.entries[k] in v <==>
         FromStart(start, k) && Selected(w, t.entries[k]) && (last.Some? ==> !Less(last.value, k))
  }

  // ---- Bookkeeping of a walk in progress ----

  ghost predicate Shown(start: Head?, w: Window, v: seq<Head>, x: Node, dir: Direction, m: Node)
    reads x`pfx, m`pfx, m`rth, (if m.rth == null then {} else {m.rth})`version
    reads (if start == null then {} else {start})`rtn
    reads (if start == null || start.rtn == null then {} else {start.rtn})`pfx
  {
    m.rth != null ==> (m.rth in v <==> FromStart(start, m.pfx) && Selected(w, m.rth) && Done(m, x, dir))
  }

  // What has been left out because of the start stays behind.
  ghost predicate Past(start: Head?, x: Node, dir: Direction, m: Node)
    reads x`pfx, m`pfx
    reads (if start == null then {} else {start})`rtn
    reads (if start == null || start.rtn == null then {} else {start.rtn})`pfx
  {
    !FromStart(start, m.pfx) ==> Done(m, x, dir)
  }

  ghost predicate Walking(t: Table, start: Head?, w: Window, v: seq<Head>, x: Node, dir: Direction)
    reads t`nodes, t`entries, t.nodes, v`rtn, t.nodes`rth, (set m | m in t.nodes && m.rth != null :: m.rth)`version
    reads x`pfx
    reads (if start == null then {} else {start})`rtn
    reads (if start == null || start.rtn == null then {} else {start.rtn})`pfx
  {
    && x in t.nodes && InKeyOrder(t, v)
    && (forall m {:trigger Shown(start, w, v, x, dir, m)} :: m in t.nodes ==> Shown(start, w, v, x, dir, m))
    && (forall m {:trigger Past(start, x, dir, m)} :: m in t.nodes ==> Past(start, x, dir, m))
  }

  lemma WalkBegins(t: Table, start: Head?, w: Window, x: Node, dir: Direction)
    requires t.Links() && x in t.nodes
    requires if start == null then x == t.root && dir == Down else x == start.rtn && dir == Right
    ensures Walking(t, start, w, [], x, dir)
  {
    forall m | m in t.nodes
      ensures Shown(start, w, [], x, dir, m) && Past(start, x, dir, m)
    {
      LessTotal(m.pfx, x.pfx);
      LessIrreflexive(x.pfx);
      if m.pfx == x.pfx { t.PrefixIsUnique(m, x); }
      if start == null {
        t.RootAbove(m);
        t.AboveIsPrefix(x, m);
        if x != m { PrefixIsLess(x.pfx, m.pfx); }
      }
    }
  }

  lemma WalkMoves(t: Table, start: Head?, w: Window, v: seq<Head>, x0: Node, dir0: Direction, x: Node, dir: Direction)
    requires t.Links() && Walking(t, start, w, v, x0, dir0) && Proceeds(x0, dir0, x, dir)
    ensures Walking(t, start, w, v, x, dir) && ToVisit(t, x, dir) == ToVisit(t, x0, dir0) &&
      Effort(x, dir) < Effort(x0, dir0)
  {
    ProceedLeaves(t, x0, dir0, x, dir);
    forall m | m in t.nodes
      ensures Shown(start, w, v, x, dir, m) && Past(start, x, dir, m)
    {
      assert Shown(start, w, v, x0, dir0, m) && Past(start, x0, dir0, m);
    }
  }

  // Node x0 is left behind; if its entry is selected, it has been visited.
  lemma WalkVisits(t: Table, start: Head?, w: Window, v: seq<Head>, x0: Node, x: Node, dir: Direction)
    requires t.Links() && t.Content() && Walking(t, start, w, v, x0, Down) && Descends(x0, x, dir)
    ensures ToVisit(t, x, dir) < ToVisit(t, x0, Down)
    ensures var visit := x0.rth != null && Selected(w, x0.rth);
      Walking(t, start, w, if visit then v + [x0.rth] else v, x, dir)
  {
    DescendLeaves(t, x0, x, dir);
    LessIrreflexive(x0.pfx);
    assert x0 in ToVisit(t, x0, Down) && x0 !in ToVisit(t, x, dir);
    assert Shown(start, w, v, x0, Down, x0) && Past(start, x0, Down, x0);
    var visit := x0.rth != null && Selected(w, x0.rth);
    var v1 := if visit then v + [x0.rth] else v;
    forall m | m in t.nodes
      ensures Shown(start, w, v1, x, dir, m) && Past(start, x, dir, m)
    {
      assert Shown(start, w, v, x0, Down, m) && Past(start, x0, Down, m);
      assert t.EntryOk(m) && t.EntryOk(x0);
      if m.rth != null && m.rth == x0.rth {
        assert t.ListedOk(m.pfx) && t.ListedOk(x0.pfx);
        t.PrefixIsUnique(m, x0);
      }
    }
    if visit { VisitedInOrder(t, start, w, v, x0); }
  }

  lemma VisitedInOrder(t: Table, start: Head?, w: Window, v: seq<Head>, x: Node)
    requires t.Links() && t.Content() && Walking(t, start, w, v, x, Down) && x.rth != null
    ensures InKeyOrder(t, v + [x.rth])
  {
    assert t.EntryOk(x) && t.ListedOk(x.pfx);
    t.PrefixIsUnique(x, x.rth.rtn);
    forall i | 0 <= i < |v|
      ensures Less(v[i].rtn.pfx, x.pfx)
    {
      var m := v[i].rtn;
      assert t.ListedOk(m.pfx);
      assert v[i] in v;
      assert Shown(start, w, v, x, Down, m);
    }
  }

  // A walk that is stopped hands back the entry, if any, of the node it has already moved on to.
  ghost predicate Result(t: Table, start: Head?, w: Window, cnt: int, stop: nat -> bool, r: Head?, v: seq<Head>)
    requires -0x8000_0000 <= cnt < 0x8000_0000
    reads *
  {
    && CountKept(stop, cnt, |v|, !Visits(t, start, w, v, None))
    && if Ends(stop, cnt, |v|) then
      var n := v[|v| - 1].rtn;
      n != null && r == (if n.left != null then n.left.rth else n.rth) && Visits(t, start, w, v, Some(n.pfx))
    else
      Quiet(stop, |v|) && |v| < Limit(cnt) && r == null && Visits(t, start, w, v, None)
  }

  // The walk has covered what does not come after last.
  lemma Covered(t: Table, start: Head?, w: Window, v: seq<Head>, x: Node, dir: Direction, last: Option<Bits>)
    requires t.Links() && t.Content() && Walking(t, start, w, v, x, dir)
    requires forall m <- t.nodes :: Done(m, x, dir) <==> (last.Some? ==> !Less(last.value, m.pfx))
    ensures Visits(t, start, w, v, last)
  {
    forall k | k in t.entries
      ensures t.entries[k] in v <==>
        FromStart(start, k) && Selected(w, t.entries[k]) && (last.Some? ==> !Less(last.value, k))
    {
      assert t.ListedOk(k);
      assert Shown(start, w, v, x, dir, t.entries[k].rtn);
    }
  }

  // The walk has left the root upwards.
  lemma WalkEnds(t: Table, start: Head?, w: Window, cnt: int, stop: nat -> bool, left: nat, v: seq<Head>, x0: Node)
    requires t.Links() && t.Content() && Walking(t, start, w, v, x0, Up) && x0.parent == null
    requires -0x8000_0000 <= cnt < 0x8000_0000 && Going(stop, cnt, left, |v|)
    ensures Result(t, start, w, cnt, stop, null, v)
  {
    ProceedLeaves(t, x0, Up, null, Up);
    Covered(t, start, w, v, x0, Up, None);
    CountIsKept(stop, cnt, |v|, false);
  }

  // The walk has stopped after the entry of x0.
  lemma WalkStops(t: Table, start: Head?, w: Window, cnt: int, stop: nat -> bool, v: seq<Head>, x0: Node, x: Node,
      dir: Direction)
    requires -0x8000_0000 <= cnt < 0x8000_0000 && Ends(stop, cnt, |v|)
    requires t.Links() && t.Content() && x0 in t.nodes && Walking(t, start, w, v, x, dir) && Descends(x0, x, dir)
    requires |v| > 0 && x0.rth != null && v[|v| - 1] == x0.rth
    ensures Result(t, start, w, cnt, stop, x.rth, v)
  {
    DescendLeaves(t, x0, x, dir);
    assert t.EntryOk(x0) && t.ListedOk(x0.pfx);
    t.PrefixIsUnique(x0, x0.rth.rtn);
    forall m | m in t.nodes ensures Done(m, x, dir) <==> !Less(x0.pfx, m.pfx) {
      LessTotal(m.pfx, x0.pfx);
      LessIrreflexive(x0.pfx);
      if m.pfx == x0.pfx { t.PrefixIsUnique(m, x0); }
    }
    Covered(t, start, w, v, x, dir, Some(x0.pfx));
    CountIsKept(stop, cnt, |v|, !Visits(t, start, w, v, None));
  }

  // There are no more visits than entries: a walk that nothing stops, of a table with fewer
  // entries than the count allows, is complete.
  lemma Complete(t: Table, start: Head?, w: Window, cnt: int, stop: nat -> bool, r: Head?, v: seq<Head>)
    requires -0x8000_0000 <= cnt < 0x8000_0000 && Result(t, start, w, cnt, stop, r, v)
    requires forall i: nat :: !stop(i)
    requires |t.entries| < if cnt > 0 then cnt else if cnt == 0 then 0xffff_ffff else 0x8000_0000_0000_0000
    ensures Visits(t, start, w, v, None) && r == null
  {
    var keys := KeysVisited(t, v);
    SubsetSize(keys, t.entries.Keys);
  }

  lemma {:induction false} KeysVisited(t: Table, v: seq<Head>) returns (keys: set<Bits>)
    requires InKeyOrder(t, v)
    ensures keys <= t.entries.Keys && |keys| == |v|
    ensures forall k <- keys :: exists i :: 0 <= i < |v| && v[i].rtn.pfx == k
  {
    if v == [] {
      keys := {};
    } else {
      var n := |v| - 1;
      var last := v[n].rtn.pfx;
      keys := KeysVisited(t, v[..n]);
      LessIrreflexive(last);
      assert last !in keys;
      keys := keys + {last};
    }
  }

  // ---- std_radix_walk ----

  method Walk(t: Table, start: Head?, cnt: int, stop: nat -> bool) returns (r: Head?, visited: seq<Head>)
    requires t.Links() && t.Content() && (start != null && start.rtn != null ==> start.rtn in t.nodes)
    requires -0x8000_0000 <= cnt < 0x8000_0000
    ensures Result(t, start, All, cnt, stop, r, visited)
  {
    var left: nat := Limit(cnt);
    visited := [];
    var x, dir := t.root, Down;
    if start != null {
      x := start.rtn;
      if x == null {
        return null, [];
      }
      dir := Right;
    }
    if x == null {
      Empty(t);
      return null, [];
    }
    WalkBegins(t, start, All, x, dir);
    while true
      invariant x != null && x in t.nodes && Walking(t, start, All, visited, x, dir)
      invariant Going(stop, cnt, left, |visited|)
      decreases ToVisit(t, x, dir), Effort(x, dir)
    {
      ghost var x0, dir0, v0 := x, dir, visited;
      match dir {
        case Down =>
          if x.rth != null {
            Count(stop, cnt, left, |visited|);
            left := left - 1;
            if stop(|visited|) {
              left := 0;
            }
            visited := visited + [x.rth];
          }
          if x.left != null {
            x := x.left;
          } else {
            dir := Right;
          }
          WalkVisits(t, start, All, v0, x0, x, dir);
          if left == 0 {
            WalkStops(t, start, All, cnt, stop, visited, x0, x, dir);
            return x.rth, visited;
          }
        case Right =>
          if x.right == null {
            dir := Up;
          } else {
            dir := Down;
            x := x.right;
          }
          WalkMoves(t, start, All, visited, x0, Right, x, dir);
        case Up =>
          var y := x;
          x := x.parent;
          if x == null {
            WalkEnds(t, start, All, cnt, stop, left, visited, y);
            return null, visited;
          }
          if y == x.left {
            dir := Right;
          }
          WalkMoves(t, start, All, visited, x0, Up, x, dir);
      }
    }
  }

  // ---- std_radix_versionwalk ----

  lemma {:induction false} VersionsBelow(t: Table, x: Node, m: Node)
    requires t.Links() && t.NodeVersions() && m in t.nodes && t.Above(x, m)
    ensures m.version <= x.version
    decreases |m.pfx|
  {
    if x != m {
      assert t.UpOk(m) && t.VersionOk(m);
      assert t.LeftOk(m.parent) && t.RightOk(m.parent);
      VersionsBelow(t, x, m.parent);
    }
  }

  // Nothing in the subtree of x is recent enough: the walk goes on after it.
  lemma WalkPrunes(t: Table, start: Head?, w: Window, v: seq<Head>, x: Node)
    requires t.Links() && t.Content() && t.Versions() && Walking(t, start, w, v, x, Down)
    requires w.Nothing? || (w.Between? && x.version < w.lo)
    ensures Walking(t, start, w, v, x, Up) && ToVisit(t, x, Up) < ToVisit(t, x, Down)
  {
    LessIrreflexive(x.pfx);
    assert x in ToVisit(t, x, Down) && x !in ToVisit(t, x, Up);
    forall m | m in t.nodes
      ensures Shown(start, w, v, x, Up, m) && Past(start, x, Up, m)
    {
      assert Shown(start, w, v, x, Down, m) && Past(start, x, Down, m);
      assert t.EntryOk(m);
      if x.pfx <= m.pfx && m.rth != null {
        t.PrefixIsAbove(x, m);
        VersionsBelow(t, x, m);
        assert t.EntryVersionOk(m.pfx) && t.ListedOk(m.pfx);
        t.PrefixIsUnique(m, m.rth.rtn);
      }
    }
  }

  // The callback changes nothing. Whole subtrees are skipped on the strength of the version
  // of their top node, and yet no entry in the window is missed.
  // Without a callback nothing is visited or counted.
  method VersionWalk(t: Table, start: Head?, cnt: int, minVer: nat, maxVer: nat, callback: bool, stop: nat -> bool)
    returns (r: Head?, visited: seq<Head>)
    requires t.Links() && t.Content() && t.Versions() && (start != null && start.rtn != null ==> start.rtn in t.nodes)
    requires -0x8000_0000 <= cnt < 0x8000_0000
    ensures Result(t, start, if callback then Between(minVer, maxVer) else Nothing, cnt, stop, r, visited)
  {
    ghost var w := if callback then Between(minVer, maxVer) else Nothing;
    var left: nat := Limit(cnt);
    visited := [];
    var x, dir := t.root, Down;
    if start != null {
      x := start.rtn;
      if x == null {
        return null, [];
      }
      dir := Right;
    }
    if x == null {
      Empty(t);
      return null, [];
    }
    WalkBegins(t, start, w, x, dir);
    while true
      invariant x != null && x in t.nodes && Walking(t, start, w, visited, x, dir)
      invariant Going(stop, cnt, left, |visited|)
      decreases ToVisit(t, x, dir), Effort(x, dir)
    {
      ghost var x0, dir0, v0 := x, dir, visited;
      match dir {
        case Down =>
          if x.version < minVer {
            dir := Up;
            WalkPrunes(t, start, w, visited, x);
            continue;
          }
          if x.rth != null && callback {
            if x.rth.version >= minVer && x.rth.version <= maxVer {
              Count(stop, cnt, left, |visited|);
              left := left - 1;
              if stop(|visited|) {
                left := 0;
              }
              visited := visited + [x.rth];
            }
          }
          if x.left != null {
            x := x.left;
          } else {
            dir := Right;
          }
          WalkVisits(t, start, w, v0, x0, x, dir);
          if left == 0 {
            WalkStops(t, start, w, cnt, stop, visited, x0, x, dir);
            return x.rth, visited;
          }
        case Right =>
          if x.right == null {
            dir := Up;
          } else {
            dir := Down;
            x := x.right;
          }
          WalkMoves(t, start, w, visited, x0, Right, x, dir);
        case Up =>
          var y := x;
          x := x.parent;
          if x == null {
            WalkEnds(t, start, w, cnt, stop, left, visited, y);
            return null, visited;
          }
          if y == x.left {
            dir := Right;
          } else {
            dir := Up;
          }
          WalkMoves(t, start, w, visited, x0, Up, x, dir);
      }
    }
  }

  // ---- The order is unique ----

  // v lists the entries of the whole table.
  ghost predicate ListsAll(t: Table, v: seq<Head>)
    reads t`nodes, t`entries, t.nodes`pfx, v`rtn
  {
    InKeyOrder(t, v) && forall k <- t.entries :: t.entries[k] in v
  }

  // There is only one such list: walks and successor chains agree.
  lemma {:induction false} OneOrder(t: Table, v: seq<Head>, u: seq<Head>)
    requires ListsAll(t, v) && ListsAll(t, u)
    ensures v == u
  {
    var n := if |v| < |u| then |v| else |u|;
    SamePrefix(t, v, u, n);
    if |v| > n { var j := AlsoIn(t, v, u, n); }
    if |u| > n { var j := AlsoIn(t, u, v, n); }
    assert v[..n] == v && u[..n] == u;
  }

  // The element at n is listed by the other one too, at n or later.
  lemma AlsoIn(t: Table, v: seq<Head>, u: seq<Head>, n: nat) returns (j: nat)
    requires ListsAll(t, v) && ListsAll(t, u) && n < |v| && n <= |u| && v[..n] == u[..n]
    ensures n <= j < |u| && u[j] == v[n]
  {
    assert Stored(t, v[n]);
    j :| 0 <= j < |u| && u[j] == v[n];
    LessIrreflexive(v[n].rtn.pfx);
    assert forall i :: 0 <= i < n ==> v[i] == v[..n][i] == u[..n][i] == u[i];
  }

  lemma {:induction false} SamePrefix(t: Table, v: seq<Head>, u: seq<Head>, n: nat)
    requires ListsAll(t, v) && ListsAll(t, u) && n <= |v| && n <= |u|
    ensures v[..n] == u[..n]
  {
    if n > 0 {
      var i := n - 1;
      SamePrefix(t, v, u, i);
      var j := AlsoIn(t, v, u, i);
      var l := AlsoIn(t, u, v, i);
      if v[i] != u[i] {
        assert Less(u[i].rtn.pfx, u[j].rtn.pfx) && Less(v[i].rtn.pfx, v[l].rtn.pfx);
        LessTotal(u[i].rtn.pfx, v[i].rtn.pfx);
        assert false;
      }
      assert v[..n] == v[..i] + [v[i]] && u[..n] == u[..i] + [u[i]];
    }
  }
}

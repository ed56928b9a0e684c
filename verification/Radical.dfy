// The change list: walkers leave markers in one list of versioned changes.
module Radical {
  import opened Orders
  import opened Llist
  import opened Changes
  import opened Sets

  // What a walk starts from: the nodes on the list and the versions of the changes on it, the
  // marker's account and the table's version; the versions of all nodes of the tree, and their
  // places; all that is seen of the list; the marker's version; and the walk's limit.
  datatype Start = Start(nodes: set<Node>, on: map<Node, nat>, current: set<nat>, given: set<nat>, upTo: nat,
    version: nat, vers: map<Node, nat>, places: map<Node, real>, view: View, marked: nat, maxVer: nat)

  // Where a run stands: what marker m's walker has accepted, in order; the versions that the
  // marker has jumped over; all that is seen of the list; and, after a walk of m, the versions
  // of the changes handed over.
  datatype Moment = Moment(log: seq<nat>, jumped: set<nat>, view: View, called: seq<nat>)

  class ChangeList {
    const list: List
    // The table's version: that of the latest change.
    var version: nat

    // The nodes of the tree, and the references that walkers use as markers.
    ghost var heads: set<Node>
    ghost var refs: set<Node>

    constructor (data: Data, compare: (Data, Data) -> int)
      ensures Valid() && heads == {} && refs == {} && list.nodes == {} && version == 0
      ensures fresh(list) && fresh(list.head) && fresh(list.tail)
    {
      list := new List(data, compare, false);
      version := 0;
      heads, refs := {}, {};
    }

    // ---- What always holds ----

    // A node of the tree is on the list exactly when its flag says so.
    ghost predicate HeadOk(h: Node)
      reads this`version, list`nodes, h
    {
      && !h.marker && h.included == (h in list.nodes) && h.IsLinked() == (h in list.nodes)
      && (h in list.nodes ==> 0 < h.version <= version)
    }

    ghost predicate RefOk(m: Node)
      reads this`version, list`nodes, m
    {
      && !m.included && m.IsLinked() == (m in list.nodes)
      && (m in list.nodes ==> m.marker && m.version <= version && m.upTo <= version)
      && (forall v <- m.given :: v <= m.upTo)
    }

    ghost predicate MemberOk(n: Node)
      reads this`heads, this`refs
    {
      n in heads || n in refs
    }

    // The list is in the order of the versions.
    ghost predicate Increasing(g: Node, h: Node)
      reads g`at, h`at, g`version, h`version
    {
      g.at < h.at ==> g.version < h.version
    }

    // Ahead of marker m are the nodes whose version is new to its walker, behind it those
    // whose version the walker is done with.
    ghost predicate Accounted(m: Node, h: Node)
      reads m`at, h`at, m`version, h`version, m`given, m`upTo
    {
      if m.at < h.at then m.upTo < h.version && m.version < h.version else h.version in m.given
    }

    ghost predicate Kinds()
      reads this`heads, this`refs
    {
      heads !! refs && list.head !in heads + refs && list.tail !in heads + refs
    }

    ghost predicate Flags()
      reads this, list`nodes, heads, refs
    {
      && Kinds()
      && (forall n {:trigger MemberOk(n)} :: n in list.nodes ==> MemberOk(n))
      && (forall h {:trigger HeadOk(h)} :: h in heads ==> HeadOk(h))
      && (forall m {:trigger RefOk(m)} :: m in refs ==> RefOk(m))
    }

    ghost predicate Versions()
      reads this, list`nodes, heads, refs
    {
      && (forall g, h {:trigger Increasing(g, h)} ::
            g in heads && h in heads && g in list.nodes && h in list.nodes ==> Increasing(g, h))
      && (forall m, h {:trigger Accounted(m, h)} ::
            m in refs && h in heads && m in list.nodes && h in list.nodes ==> Accounted(m, h))
    }

    ghost predicate Valid()
      reads this, list`nodes, heads, refs, list.nodes`next, list.nodes`back, list.nodes`at
      reads list.head`next, list.head`at, list.tail`back, list.tail`at
    {
      list.Valid() && Flags() && Versions()
    }

    // The changes that are ahead of the marker.
    ghost function Ahead(m: Node): set<Node>
      reads this`heads, list`nodes, heads`at, m`at
    {
      set h | h in heads && h in list.nodes && m.at < h.at
    }

    // The changes ahead of a marker are exactly those that its walker is not done with; all
    // of them are newer than the marker and than anything its walker has been given.
    lemma AheadIsNew(m: Node)
      requires Valid() && m in refs && m in list.nodes
      ensures Ahead(m) == set h | h in heads && h in list.nodes && h.version !in m.given
      ensures forall h <- Ahead(m) :: h.version > m.version && forall v <- m.given :: v < h.version
    {
      assert RefOk(m);
      forall h | h in heads && h in list.nodes
        ensures m.at < h.at <==> h.version !in m.given
        ensures m.at < h.at ==> h.version > m.version && forall v <- m.given :: v < h.version
      {
        assert Accounted(m, h);
      }
    }

    // ---- Single steps ----

    // Nothing about n has changed, except perhaps its neighbours.
    twostate predicate Same(n: Node)
      reads *
    {
      && n.at == old(n.at) && n.version == old(n.version) && n.included == old(n.included)
      && n.marker == old(n.marker) && n.given == old(n.given) && n.upTo == old(n.upTo)
      && (n in list.nodes) == (n in old(list.nodes))
      && (n !in list.nodes ==> n.next == old(n.next) && n.back == old(n.back))
    }

    // A step that concerns x alone.
    twostate predicate Touched(x: Node)
      reads *
    {
      && old(Valid()) && list.Valid() && MemberOk(x) && list.nodes <= old(list.nodes) + {x}
      && heads == old(heads) && refs == old(refs) && old(version) <= version
      && (forall n {:trigger Same(n)} :: n in heads + refs && n != x ==> Same(n))
    }

    ghost predicate FlagsOk(x: Node)
      reads this, list`nodes, x
    {
      (x in heads ==> HeadOk(x)) && (x in refs ==> RefOk(x))
    }

    // x has its right place among the others.
    ghost predicate PlaceOk(x: Node)
      reads this, list`nodes, heads, refs, x
    {
      x in list.nodes ==>
        && (x in heads ==> forall h :: h in heads && h in list.nodes ==> Increasing(h, x) && Increasing(x, h))
        && (x in heads ==> forall m {:trigger Accounted(m, x)} :: m in refs && m in list.nodes ==> Accounted(m, x))
        && (x in refs ==> forall h {:trigger Accounted(x, h)} :: h in heads && h in list.nodes ==> Accounted(x, h))
    }

    twostate lemma TouchedKeeps(x: Node)
      requires Touched(x) && FlagsOk(x) && PlaceOk(x)
      ensures Valid()
    {
      assert old(FlagsOk(x)) by { if x in heads { assert old(HeadOk(x)); } else { assert old(RefOk(x)); } }
      forall n | n in list.nodes ensures MemberOk(n) {
        if n != x { assert old(MemberOk(n)); }
      }
      forall n | n in heads ensures HeadOk(n) {
        if n in list.nodes { assert list.NextOk(n) && list.BackOk(n); }
        if n != x { assert old(HeadOk(n)) && Same(n); }
      }
      forall n | n in refs ensures RefOk(n) {
        if n in list.nodes { assert list.NextOk(n) && list.BackOk(n); }
        if n != x { assert old(RefOk(n)) && Same(n); }
      }
      forall a, b | a in heads && b in heads && a in list.nodes && b in list.nodes ensures Increasing(a, b) {
        if a != x && b != x { assert old(Increasing(a, b)) && Same(a) && Same(b); }
      }
      forall m, b | m in refs && b in heads && m in list.nodes && b in list.nodes ensures Accounted(m, b) {
        if m != x && b != x { assert old(Accounted(m, b)) && Same(m) && Same(b); }
      }
    }

    // Takes x off the list, if it is on it.
    method Detach(x: Node, linked: bool)
      requires list.Valid() && linked == (x in list.nodes)
      modifies list`nodes, (list.nodes + {x, list.head})`next, (list.nodes + {x, list.tail})`back
      ensures list.Valid() && list.nodes == old(list.nodes) - {x}
    {
      if linked {
        list.Remove(x);
      }
    }

    method MoveToBack(x: Node, linked: bool)
      requires list.Valid() && linked == (x in list.nodes) && x != list.head && x != list.tail
      modifies list`nodes, x`at, (list.nodes + {x, list.head})`next, (list.nodes + {x, list.tail})`back
      ensures list.Valid() && list.nodes == old(list.nodes) + {x}
      ensures forall n <- list.nodes :: n != x ==> n.at < x.at
    {
      Detach(x, linked);
      list.InsertAtBack(x);
    }

    method MoveToFront(x: Node, linked: bool)
      requires list.Valid() && linked == (x in list.nodes) && x != list.head && x != list.tail
      modifies list`nodes, x`at, (list.nodes + {x, list.head})`next, (list.nodes + {x, list.tail})`back
      ensures list.Valid() && list.nodes == old(list.nodes) + {x}
      ensures forall n <- list.nodes :: n != x ==> x.at < n.at
    {
      Detach(x, linked);
      list.InsertAtFront(x);
    }

    method MoveAfter(after: Node, x: Node, linked: bool)
      requires list.Valid() && linked == (x in list.nodes) && x != list.head && x != list.tail
      requires after in list.nodes && after != x
      modifies list`nodes, x`at, (list.nodes + {x, list.head})`next, (list.nodes + {x, list.tail})`back
      ensures list.Valid() && list.nodes == old(list.nodes) + {x}
      ensures forall n <- list.nodes :: n != x ==> if n.at <= after.at then n.at < x.at else x.at < n.at
    {
      Detach(x, linked);
      list.InsertAfter(after, x);
    }

    method MoveBefore(before: Node, x: Node, linked: bool)
      requires list.Valid() && linked == (x in list.nodes) && x != list.head && x != list.tail
      requires before in list.nodes && before != x
      modifies list`nodes, x`at, (list.nodes + {x, list.head})`next, (list.nodes + {x, list.tail})`back
      ensures list.Valid() && list.nodes == old(list.nodes) + {x}
      ensures forall n <- list.nodes :: n != x ==> if n.at < before.at then n.at < x.at else x.at < n.at
    {
      Detach(x, linked);
      list.InsertBefore(before, x);
    }

    // ---- Members ----

    // What std_radix_insert does to a node that comes into the tree: in debug mode it clears
    // the node's fields, those for the list only if the list is in use; otherwise the caller
    // must have done so. Then the node is not on the list.
    method Enroll(h: Node, debug: bool, used: bool)
      requires Valid() && h !in heads && h !in refs && h != list.head && h != list.tail
      requires (debug && used) || (!h.included && !h.marker && !h.IsLinked())
      modifies this`heads, h`version, h`next, h`back, h`included, h`marker
      ensures Valid() && heads == old(heads) + {h} && !h.included && !h.IsLinked()
      ensures h.version == if debug then 0 else old(h.version)
    {
      assert forall n :: n in list.nodes ==> MemberOk(n);
      Clear(h, debug, used);
      heads := heads + {h};
      forall n | n in heads ensures HeadOk(n) { if n != h { assert old(HeadOk(n)); } }
      forall m | m in refs ensures RefOk(m) { assert old(RefOk(m)); }
    }

    method Clear(h: Node, debug: bool, used: bool)
      requires (debug && used) || (!h.included && !h.marker && !h.IsLinked())
      modifies h`version, h`next, h`back, h`included, h`marker
      ensures !h.included && !h.marker && !h.IsLinked() && h.version == if debug then 0 else old(h.version)
    {
      if debug {
        h.version := 0;
        if used {
          h.included, h.marker := false, false;
          h.next, h.back := null, null;
        }
      }
    }

    // A reference that a walker brings along.
    ghost method EnrollRef(m: Node)
      requires Valid() && m !in heads && m !in refs && m != list.head && m != list.tail
      requires !m.included && !m.IsLinked() && m.given == {}
      modifies this`refs
      ensures Valid() && refs == old(refs) + {m}
    {
      assert forall n :: n in list.nodes ==> MemberOk(n);
      refs := refs + {m};
      forall h | h in heads ensures HeadOk(h) { assert old(HeadOk(h)); }
      forall r | r in refs ensures RefOk(r) { if r != m { assert old(RefOk(r)); } }
    }

    // ---- Changes ----

    // std_radical_appendtochangelist: the node goes to the back, with the next version.
    method Append(h: Node) returns (ver: nat)
      requires Valid() && h in heads
      modifies this`version, list`nodes, h`version, h`included, h`at
      modifies (list.nodes + {h, list.head})`next, (list.nodes + {h, list.tail})`back
      ensures Valid() && list.nodes == old(list.nodes) + {h}
      ensures ver == version == h.version == old(version) + 1
      ensures forall n <- list.nodes :: n != h ==> n.at < h.at
      ensures ViewWith({}) == After(Deed(Act.Append(h), []), old(ViewWith({})))
    {
      ver := PutLast(h);
    }

    method PutLast(h: Node) returns (ver: nat)
      requires Valid() && h in heads
      modifies this`version, list`nodes, h`version, h`included, h`at
      modifies (list.nodes + {h, list.head})`next, (list.nodes + {h, list.tail})`back
      ensures Valid() && list.nodes == old(list.nodes) + {h}
      ensures ver == version == h.version == old(version) + 1
      ensures forall n <- list.nodes :: n != h ==> n.at < h.at
    {
      assert HeadOk(h);
      MoveToBack(h, h.included);
      Stamp(h);
      ver := h.version;
      AppendedKeeps(h);
    }

    method Stamp(h: Node)
      modifies this`version, h`version, h`included
      ensures version == old(version) + 1 == h.version && h.included
    {
      h.included := true;
      version := version + 1;
      h.version := version;
    }

    twostate lemma AppendedKeeps(h: Node)
      requires Touched(h) && h in heads && h in list.nodes && version == old(version) + 1
      requires h.version == version && h.included && !h.marker
      requires forall n <- list.nodes :: n != h ==> n.at < h.at
      ensures Valid()
    {
      assert list.NextOk(h) && list.BackOk(h);
      forall g | g in heads && g in list.nodes ensures Increasing(g, h) && Increasing(h, g) {
        if g != h { assert old(HeadOk(g)) && Same(g); }
      }
      forall m | m in refs && m in list.nodes ensures Accounted(m, h) {
        assert old(RefOk(m)) && Same(m);
      }
      TouchedKeeps(h);
    }

    // What std_radix_remove does to the change list.
    method Drop(h: Node)
      requires Valid() && h in heads
      modifies list`nodes, h`included, (list.nodes + {h, list.head})`next, (list.nodes + {h, list.tail})`back
      ensures Valid() && list.nodes == old(list.nodes) - {h}
      ensures ViewWith({}) == After(Deed(Act.Drop(h), []), old(ViewWith({})))
    {
      assert HeadOk(h);
      if h.IsLinked() {
        list.Remove(h);
        h.included := false;
        TouchedKeeps(h);
      }
    }

    // ---- Markers ----

    method SetMarker(m: Node, ver: nat, ghost given: set<nat>, ghost upTo: nat)
      modifies m`marker, m`version, m`given, m`upTo
      ensures m.marker && m.version == ver && m.given == given && m.upTo == upTo
    {
      m.marker := true;
      m.version := ver;
      m.given, m.upTo := given, upTo;
    }

    // std_radical_walkconstructor: everything on the list is ahead.
    method Open(m: Node)
      requires Valid() && m in refs
      modifies list`nodes, m, (list.nodes + {list.head})`next, (list.nodes + {list.tail})`back
      ensures Valid() && list.nodes == old(list.nodes) + {m} && m.given == {} && m.version == 0
      ensures forall n <- list.nodes :: n != m ==> m.at < n.at
      ensures ViewWith({}) == After(Deed(Act.Open(m), []), old(ViewWith({})))
    {
      PutFirst(m);
    }

    method PutFirst(m: Node)
      requires Valid() && m in refs
      modifies list`nodes, m, (list.nodes + {list.head})`next, (list.nodes + {list.tail})`back
      ensures Valid() && list.nodes == old(list.nodes) + {m} && m.given == {} && m.version == 0
      ensures forall n <- list.nodes :: n != m ==> m.at < n.at
    {
      assert RefOk(m);
      MoveToFront(m, m.marker && m.IsLinked());
      SetMarker(m, 0, {}, 0);
      assert list.NextOk(m) && list.BackOk(m);
      forall h | h in heads && h in list.nodes ensures Accounted(m, h) { assert old(HeadOk(h)) && Same(h); }
      TouchedKeeps(m);
    }

    // std_radical_walkconstructorafter: what is ahead of the other marker is ahead of this one.
    method OpenAfter(after: Node, m: Node)
      requires Valid() && m in refs && after in refs && after in list.nodes && after != m
      modifies list`nodes, m, (list.nodes + {list.head})`next, (list.nodes + {list.tail})`back
      ensures Valid() && list.nodes == old(list.nodes) + {m} && m.given == after.given == old(after.given)
      ensures m.version == after.version == old(after.version)
      ensures forall h <- heads :: h in list.nodes ==> (m.at < h.at <==> after.at < h.at)
      ensures ViewWith({}) == After(Deed(Act.OpenAfter(after, m), []), old(ViewWith({})))
    {
      PutAfter(after, m);
    }

    method PutAfter(after: Node, m: Node)
      requires Valid() && m in refs && after in refs && after in list.nodes && after != m
      modifies list`nodes, m, (list.nodes + {list.head})`next, (list.nodes + {list.tail})`back
      ensures Valid() && list.nodes == old(list.nodes) + {m} && m.given == after.given == old(after.given)
      ensures m.version == after.version == old(after.version)
      ensures forall h <- heads :: h in list.nodes ==> (m.at < h.at <==> after.at < h.at)
    {
      assert RefOk(m) && RefOk(after);
      MoveAfter(after, m, m.IsLinked());
      SetMarker(m, after.version, after.given, after.upTo);
      assert list.NextOk(m) && list.BackOk(m);
      forall h | h in heads && h in list.nodes ensures Accounted(m, h) {
        assert old(Accounted(after, h)) && Same(h) && Same(after);
      }
      TouchedKeeps(m);
    }

    // std_radical_walkdestructor.
    method Close(m: Node)
      requires Valid() && m in refs
      modifies list`nodes, m`marker, (list.nodes + {m, list.head})`next, (list.nodes + {m, list.tail})`back
      ensures Valid() && list.nodes == old(list.nodes) - {m} && !m.marker
      ensures ViewWith({}) == After(Deed(Act.Close(m), []), old(ViewWith({})))
    {
      assert RefOk(m);
      m.marker := false;
      if m.IsLinked() {
        list.Remove(m);
      }
      TouchedKeeps(m);
    }

    // The changes on the list, by their versions.
    ghost function Current(): set<nat>
      reads this`heads, list`nodes, heads`version
    {
      set h | h in heads && h in list.nodes :: h.version
    }

    // The changes on the list with their versions.
    ghost function On(): map<Node, nat>
      reads this`heads, list`nodes, heads`version
    {
      map h | h in heads && h in list.nodes :: h.version
    }

    // What is seen of the list, and of markers that have been taken off for a while.
    ghost function ViewWith(away: set<Node>): View
      reads this, list`nodes, heads`version, refs`given
    {
      View(On(), version, map r | r in refs && (r in list.nodes || r in away) :: r.given)
    }

    // Given what is seen of a list, acts can come to one list of deeds only.
    lemma {:induction false} OneOutcome(acts: seq<Act>, ds: seq<Deed>, ok: bool, es: seq<Deed>, ok1: bool)
      requires Valid() && RightAll(acts, ds, ViewWith({}), ok) && RightAll(acts, es, ViewWith({}), ok1)
      ensures ds == es && ok == ok1
    {
      forall h | h in On() ensures On()[h] <= version { assert HeadOk(h); }
      forall g, h | g in On() && h in On() && On()[g] == On()[h] ensures g == h { OneOrder(h); }
      OneWayAll(acts, ds, ok, es, ok1, ViewWith({}));
    }

    // ---- Reading ahead ----

    // h is the next change after place at.
    ghost predicate NextChange(at: real, h: Node?)
      reads this`heads, list`nodes, heads`at, (if h == null then {} else {h})`at
    {
      if h == null then forall g :: g in heads && g in list.nodes ==> !(at < g.at)
      else h in heads && h in list.nodes && at < h.at && forall g :: g in heads && g in list.nodes ==>
        (at < g.at <==> h.at <= g.at)
    }

    // From n on to the first node that is not a marker.
    method SkipMarkers(n: Node?, ghost at: real) returns (h: Node?)
      requires list.Valid() && Flags() && (n != null ==> n in list.nodes && at < n.at)
      requires forall g :: g in list.nodes ==> (at < g.at <==> n != null && n.at <= g.at)
      ensures NextChange(at, h)
    {
      h := n;
      while h != null && h.marker
        invariant h != null ==> h in list.nodes && at < h.at
        invariant forall g :: g in heads && g in list.nodes ==> (at < g.at <==> h != null && h.at <= g.at)
        decreases if h == null then {} else set g | g in list.nodes && h.at <= g.at
      {
        ghost var h0 := h;
        forall g | g in heads && g in list.nodes && h0.at <= g.at ensures h0.at < g.at {
          assert HeadOk(g) && list.NextOk(h0) && list.Apart(h0, g);
        }
        assert h0 in (set g | g in list.nodes && h0.at <= g.at);
        h := list.GetNext(h);
      }
      if h != null { assert MemberOk(h) && (h in refs ==> RefOk(h)); }
    }

    method GetFirst() returns (h: Node?)
      requires Valid()
      ensures NextChange(list.head.at, h) && (h == null ==> Current() == {})
    {
      var n := list.GetFirst();
      assert forall x <- list.nodes :: list.Within(x);
      h := SkipMarkers(n, list.head.at);
    }

    method GetNext(x: Node) returns (h: Node?)
      requires Valid() && x in list.nodes
      ensures NextChange(x.at, h)
    {
      var n := list.GetNext(x);
      h := SkipMarkers(n, x.at);
    }

    // std_radical_nextversion: the version of the next change ahead of the marker, or 0.
    method NextVersion(m: Node) returns (ver: nat)
      requires Valid() && m in refs && m in list.nodes
      ensures ver == 0 ==> forall h :: h in heads && h in list.nodes ==> h.version in m.given
      ensures ver > 0 ==>
        ver > m.version && ver !in m.given && exists h :: h in heads && h in list.nodes && h.version == ver
      ensures ver > 0 ==> forall h :: h in heads && h in list.nodes ==> ver <= h.version || h.version in m.given
    {
      var n := list.GetNext(m);
      var h := SkipMarkers(n, m.at);
      forall g | g in heads && g in list.nodes ensures Accounted(m, g) && (h != null ==> Increasing(h, g)) { }
      if h == null {
        ver := 0;
      } else {
        assert HeadOk(h) && RefOk(m);
        ver := h.version;
        forall g | g in heads && g in list.nodes && h.at <= g.at ensures ver <= g.version {
          assert list.NextOk(h) && list.Apart(h, g) && list.Apart(g, h);
        }
      }
    }

    // ---- The walk ----

    // A callback works on nodes of the tree and on markers that are not held: those of the
    // walks that it is called in are, and others may be. So walks are nested no deeper than
    // there are references.
    ghost predicate Allowed(a: Act, held: set<Node>)
      reads this`heads, this`refs
      decreases refs - held, 0
    {
      match a
      case Append(h) => h in heads
      case Drop(h) => h in heads
      case Open(r) => r in refs && r !in held
      case OpenAfter(after, r) => after in refs && r in refs && r !in held && r != after
      case Close(r) => r in refs && r !in held
      case Walk(w, maxNodes, maxVer, reply) => w in refs && w !in held && AlwaysAllowed(reply, held + {w})
    }

    ghost predicate AllAllowed(acts: seq<Act>, held: set<Node>)
      reads this`heads, this`refs
      decreases refs - held, 1
    {
      forall i {:trigger acts[i]} :: 0 <= i < |acts| ==> Allowed(acts[i], held)
    }

    ghost predicate AlwaysAllowed(reply: (nat, Node) -> Reply, held: set<Node>)
      reads this`heads, this`refs
      decreases refs - held, 2
    {
      forall i: nat, t {:trigger reply(i, t)} :: t in heads ==> AllAllowed(reply(i, t).acts, held)
    }

    // An older version is still where it was: nodes only move when they get a new one.
    twostate predicate Undisturbed(h: Node)
      reads *
    {
      && (h.version != old(h.version) ==> old(version) < h.version)
      && (h in list.nodes && h.version <= old(version) ==>
          h in old(list.nodes) && h.version == old(h.version) && h.at == old(h.at))
    }

    // What acts mean for node h: only an append gives it a version, and then a new one; only
    // an append or a removal puts it on the list or takes it off.
    twostate predicate Treated(h: Node, new acts: seq<Act>)
      reads *
    {
      && (Act.Append(h) !in acts ==> h.version == old(h.version) && (h in list.nodes ==> h in old(list.nodes)))
      && (Act.Drop(h) !in acts && (h in old(list.nodes) || Act.Append(h) in acts) ==> h in list.nodes)
      && (Act.Append(h) in acts ==> old(version) < h.version)
    }

    // These acts have been carried out. Markers that are held stay on the list or off it.
    twostate predicate Done(new acts: seq<Act>, held: set<Node>)
      reads *
    {
      && version == old(version) + Appends(acts)
      && (forall r <- held :: (r in list.nodes) == old(r in list.nodes))
      && heads == old(heads) && (forall h <- old(heads) :: Undisturbed(h) && Treated(h, acts))
    }

    // ok is false when an assertion of the source stops the program.
    method Perform(a: Act, ghost held: set<Node>) returns (ok: bool, ghost deed: Deed)
      requires Valid() && held <= refs && Allowed(a, held)
      modifies this`version, list`nodes, heads, refs - held, held`next, held`back, list.head`next, list.tail`back
      ensures Valid() && Done(Acts([deed]), held)
      ensures Right(a, deed, old(ViewWith({})), ok) && ViewWith({}) == After(deed, old(ViewWith({})))
      decreases refs - held, 2
    {
      ok, deed := true, Deed(a, []);
      OneDeed(deed);
      assert forall n :: n in list.nodes ==> MemberOk(n);
      assert forall h <- heads :: HeadOk(h);
      match a {
        case Append(h) =>
          var v := Append(h);
        case Drop(h) =>
          Drop(h);
        case Open(r) =>
          Open(r);
        case OpenAfter(after, r) =>
          assert RefOk(after);
          if !(after.marker && after.IsLinked()) {
            return false, deed;
          }
          OpenAfter(after, r);
        case Close(r) =>
          Close(r);
        case Walk(w, maxNodes, maxVer, reply) =>
          ok, deed := WalkNested(w, maxNodes, maxVer, reply, held);
          OneDeed(deed);
      }
    }

    // A callback's own walk.
    method WalkNested(w: Node, maxNodes: int, maxVer: nat, reply: (nat, Node) -> Reply, ghost held: set<Node>)
      returns (ok: bool, ghost deed: Deed)
      requires Valid() && held <= refs && w in refs && w !in held && AlwaysAllowed(reply, held + {w})
      modifies this`version, list`nodes, heads, refs - held, held`next, held`back, list.head`next, list.tail`back
      ensures Valid() && Done(Flat(deed.calls), held)
      ensures Right(Act.Walk(w, maxNodes, maxVer, reply), deed, old(ViewWith({})), ok)
      ensures ViewWith({}) == After(deed, old(ViewWith({})))
      decreases refs - held, 1
    {
      assert RefOk(w);
      deed := Deed(Act.Walk(w, maxNodes, maxVer, reply), []);
      if !(w.marker && w.IsLinked()) {
        return false, deed;
      }
      ghost var calls;
      ok, calls := WalkOther(w, maxNodes, maxVer, reply, held);
      deed := Deed(Act.Walk(w, maxNodes, maxVer, reply), calls);
    }

    method WalkOther(w: Node, maxNodes: int, maxVer: nat, reply: (nat, Node) -> Reply, ghost held: set<Node>)
      returns (ok: bool, ghost calls: seq<Call>)
      requires Valid() && held <= refs && w in refs && w !in held && AlwaysAllowed(reply, held + {w})
      requires w in list.nodes
      modifies this`version, list`nodes, heads, refs - held, held`next, held`back, list.head`next, list.tail`back
      ensures Valid() && Done(Flat(calls), held)
      ensures var v := old(ViewWith({}));
        && ViewWith({}) == AfterCalls(w, calls, v) && RightCalls(w, maxNodes, maxVer, reply, calls, v, ok)
        && (ok ==> Over(w, maxNodes, maxVer, calls, v))
      decreases refs - held, 0
    {
      ghost var s := Begin(w, maxVer);
      var answer, delivered;
      ghost var called;
      assert held + {w} - {w} == held && s.view == ViewWith({});
      answer, delivered, called, calls, ok := WalkChangeList(w, maxNodes, maxVer, reply, held + {w});
      assert ViewWith({}) == ViewWith({w});
      FlatIs(calls);
      forall h | h in heads ensures Undisturbed(h) && Treated(h, Flat(calls)) {
        assert Followed(s, calls, called, h);
      }
    }

    // The versions on the list below a bound that are not among those given.
    ghost function Skipped(given: set<nat>, bound: nat): set<nat>
      reads this`heads, list`nodes, heads`version
    {
      set v | v in Current() && v !in given && v < bound
    }

    method PerformAll(acts: seq<Act>, ghost held: set<Node>) returns (ok: bool, ghost deeds: seq<Deed>)
      requires Valid() && held <= refs && AllAllowed(acts, held)
      modifies this`version, list`nodes, heads, refs - held, held`next, held`back, list.head`next, list.tail`back
      ensures Valid() && Done(Acts(deeds), held)
      ensures RightAll(acts, deeds, old(ViewWith({})), ok) && ViewWith({}) == AfterAll(deeds, old(ViewWith({})))
      decreases refs - held, 3, |acts|
    {
      if |acts| == 0 {
        return true, [];
      }
      ghost var deed, rest;
      ok, deed := Perform(acts[0], held);
      deeds := [deed];
      if !ok {
        return;
      }
      label L:
      ok, rest := PerformAll(acts[1..], held);
      deeds := [deed] + rest;
      assert deeds[1..] == rest;
      ActsAdd(deed, rest);
      forall h | h in heads ensures Undisturbed(h) && Treated(h, Acts(deeds)) {
        assert Undisturbed@L(h) && Treated@L(h, Acts(rest));
      }
    }

    // The marker is off the list, and its place accounts for all changes.
    ghost predicate Away(m: Node)
      reads this, list`nodes, heads, m
    {
      && m in refs && m !in list.nodes && m.marker && m.version <= version && m.upTo <= version
      && forall h {:trigger Accounted(m, h)} :: h in heads && h in list.nodes ==> Accounted(m, h)
    }

    // Places and versions go together.
    lemma OneOrder(t: Node)
      requires Valid() && t in heads && t in list.nodes
      ensures forall h :: h in heads && h in list.nodes ==>
        if h.at < t.at then h.version < t.version else if t.at < h.at then t.version < h.version else h == t
    {
      forall h | h in heads && h in list.nodes
        ensures if h.at < t.at then h.version < t.version else if t.at < h.at then t.version < h.version else h == t
      {
        assert list.NextOk(t) && list.Apart(t, h) && Increasing(t, h) && Increasing(h, t);
      }
    }

    // The marker is taken off the list; h is the next change.
    method TakeUp(m: Node) returns (h: Node?)
      requires Valid() && m in refs && m in list.nodes
      modifies list`nodes, (list.nodes + {list.head})`next, (list.nodes + {list.tail})`back
      ensures Valid() && list.nodes == old(list.nodes) - {m} && Away(m) && NextChange(m.at, h)
      ensures ViewWith({m}) == old(ViewWith({m}))
    {
      h := Lift(m);
    }

    method Lift(m: Node) returns (h: Node?)
      requires Valid() && m in refs && m in list.nodes
      modifies list`nodes, (list.nodes + {list.head})`next, (list.nodes + {list.tail})`back
      ensures Valid() && list.nodes == old(list.nodes) - {m} && Away(m) && NextChange(m.at, h)
    {
      assert RefOk(m);
      forall h | h in heads && h in list.nodes ensures Accounted(m, h) { }
      var n := list.GetNext(m);
      list.Remove(m);
      TouchedKeeps(m);
      h := SkipMarkers(n, m.at);
    }

    ghost method Give(m: Node, given: set<nat>, upTo: nat)
      modifies m`given, m`upTo
      ensures m.given == given && m.upTo == upTo
    {
      m.given, m.upTo := given, upTo;
    }

    // The marker goes behind node t, which is handed to the callback.
    method Deliver(m: Node, t: Node)
      requires Valid() && Away(m) && NextChange(m.at, t)
      modifies list`nodes, m`next, m`back, m`at, m`given, m`upTo, (list.nodes + {list.head})`next
      modifies (list.nodes + {list.tail})`back
      ensures Valid() && list.nodes == old(list.nodes) + {m}
      ensures m.given == old(m.given) + {t.version} && m.upTo == t.version
      ensures forall v <- old(m.given) :: v <= old(m.upTo)
      ensures old(m.upTo) < t.version && m.version < t.version && t.at < m.at
      ensures Ahead(m) == old(Ahead(m)) - {t} && ViewWith({m}) == Presented(m, t, old(ViewWith({m})))
    {
      assert RefOk(m) && HeadOk(t) && Accounted(m, t);
      OneOrder(t);
      forall h | h in heads && h in list.nodes
        ensures if h.at <= t.at then h.version in m.given + {t.version}
          else t.version < h.version && m.version < h.version
      {
        assert Accounted(m, h);
      }
      PlaceBehind(m, t, m.given + {t.version}, t.version);
    }

    // The marker goes to the place after t, where this account is right.
    method PlaceBehind(m: Node, t: Node, ghost given: set<nat>, ghost upTo: nat)
      requires Valid() && m in refs && m !in list.nodes && m.marker && m.version <= version && t in heads &&
        t in list.nodes
      requires forall h :: h in heads && h in list.nodes ==>
        if h.at <= t.at then h.version in given else upTo < h.version && m.version < h.version
      requires upTo <= version && forall w <- given :: w <= upTo
      modifies list`nodes, m`next, m`back, m`at, m`given, m`upTo, (list.nodes + {list.head})`next
      modifies (list.nodes + {list.tail})`back
      ensures Valid() && list.nodes == old(list.nodes) + {m} && m.given == given && m.upTo == upTo
      ensures forall h :: h in heads && h in list.nodes ==> if h.at <= t.at then h.at < m.at else m.at < h.at
    {
      assert RefOk(m);
      Give(m, given, upTo);
      MoveAfter(t, m, false);
      assert list.NextOk(m) && list.BackOk(m);
      forall h | h in heads && h in list.nodes
        ensures Accounted(m, h) && if h.at <= t.at then h.at < m.at else m.at < h.at
      {
      }
      TouchedKeeps(m);
    }

    // The version last handed over becomes the marker's.
    method Accept(m: Node, ver: nat)
      requires Valid() && m in refs && m in list.nodes && ver == m.upTo
      modifies m`version
      ensures Valid() && m.version == ver
    {
      assert RefOk(m);
      m.version := ver;
      forall h | h in heads && h in list.nodes ensures Accounted(m, h) { assert old(Accounted(m, h)); }
      TouchedKeeps(m);
    }

    // The marker goes back before node t, which its walker was given with version v and
    // refused. If t has moved on since, the marker jumps over what has been between.
    method Reject(m: Node, t: Node, v: nat, ghost given: set<nat>, ghost upTo: nat)
      requires Valid() && m in refs && m in list.nodes && t in heads && t in list.nodes
      requires m.given == given + {v} && m.upTo == v <= t.version && upTo < v && m.version < v
      requires forall w <- given :: w <= upTo
      requires forall h :: h in heads && h in list.nodes && h.version == v ==> h == t
      requires t.version == v ==> t.at < m.at
      modifies list`nodes, m`next, m`back, m`at, m`given, m`upTo, (list.nodes + {list.head})`next
      modifies (list.nodes + {list.tail})`back
      ensures Valid() && list.nodes == old(list.nodes) && m.at < t.at
      ensures m.given == given + Skipped(given, t.version) && (t.version == v ==> m.given == given)
    {
      assert RefOk(m) && HeadOk(t);
      RejectFits(m, t, v, given, upTo);
      Relocate(m, t, given + Skipped(given, t.version), if t.version == v then upTo else t.version - 1);
    }

    // The marker goes to the place before t, where this account is right.
    method Relocate(m: Node, t: Node, ghost given: set<nat>, ghost upTo: nat)
      requires Valid() && m in refs && m.marker && m.version <= version && t in heads && t in list.nodes
      requires forall h :: h in heads && h in list.nodes ==>
        if h.at < t.at then h.version in given else upTo < h.version && m.version < h.version
      requires upTo <= version && forall w <- given :: w <= upTo
      modifies list`nodes, m`next, m`back, m`at, m`given, m`upTo, (list.nodes + {list.head})`next
      modifies (list.nodes + {list.tail})`back
      ensures Valid() && list.nodes == old(list.nodes) + {m} && m.given == given && m.at < t.at
      ensures forall h :: h in heads && h in list.nodes ==> (h.at < m.at <==> h.at < t.at)
    {
      assert RefOk(m) && HeadOk(t);
      Give(m, given, upTo);
      MoveBefore(t, m, m.IsLinked());
      assert list.NextOk(m) && list.BackOk(m);
      forall h | h in heads && h in list.nodes
        ensures Accounted(m, h) && (h.at < m.at <==> h.at < t.at)
      {
      }
      TouchedKeeps(m);
    }

    lemma RejectFits(m: Node, t: Node, v: nat, given: set<nat>, upTo: nat)
      requires Valid() && m in refs && m in list.nodes && t in heads && t in list.nodes
      requires m.given == given + {v} && m.upTo == v <= t.version && upTo < v && m.version < v
      requires forall w <- given :: w <= upTo
      requires forall h :: h in heads && h in list.nodes && h.version == v ==> h == t
      requires t.version == v ==> t.at < m.at
      ensures var last := if t.version == v then upTo else t.version - 1;
        && (forall h :: h in heads && h in list.nodes ==>
              if h.at < t.at then h.version in given + Skipped(given, t.version)
                else last < h.version && m.version < h.version)
        && (forall w <- given + Skipped(given, t.version) :: w <= last)
      ensures t.version == v ==> Skipped(given, t.version) == {}
    {
      OneOrder(t);
      forall h | h in heads && h in list.nodes && h.at < t.at && h.version !in given
        ensures t.version != v && h.version < t.version
      {
        assert Accounted(m, h);
      }
    }

    // The end of the walk: before node t, which is too new, or at the back.
    method PutDown(m: Node, t: Node?, maxVer: nat)
      requires Valid() && Away(m) && NextChange(m.at, t) && (t != null ==> maxVer < t.version)
      modifies list`nodes, m`next, m`back, m`at, m`version, m`given, m`upTo, (list.nodes + {list.head})`next
      modifies (list.nodes + {list.tail})`back
      ensures Valid() && list.nodes == old(list.nodes) + {m} && m.given == old(m.given)
      ensures m.version == if t == null then version else maxVer
      ensures forall h :: h in heads && h in list.nodes && h.version <= maxVer ==> h.version in m.given
      ensures t == null ==> forall h :: h in heads && h in list.nodes ==> h.version in m.given
      ensures t != null ==> t in heads && t in list.nodes && t.version !in m.given
      ensures ViewWith({m}) == old(ViewWith({m}))
    {
      LayDown(m, t, maxVer);
    }

    method LayDown(m: Node, t: Node?, maxVer: nat)
      requires Valid() && Away(m) && NextChange(m.at, t) && (t != null ==> maxVer < t.version)
      modifies list`nodes, m`next, m`back, m`at, m`version, m`given, m`upTo, (list.nodes + {list.head})`next
      modifies (list.nodes + {list.tail})`back
      ensures Valid() && list.nodes == old(list.nodes) + {m} && m.given == old(m.given)
      ensures m.version == if t == null then version else maxVer
      ensures forall h :: h in heads && h in list.nodes && h.version <= maxVer ==> h.version in m.given
      ensures t == null ==> forall h :: h in heads && h in list.nodes ==> h.version in m.given
      ensures t != null ==> t in heads && t in list.nodes && t.version !in m.given
    {
      assert RefOk(m);
      forall h | h in heads && h in list.nodes && t == null ensures h.version in m.given { assert Accounted(m, h); }
      if t == null {
        m.version := version;
        PutBack(m);
      } else {
        OneOrder(t);
        assert HeadOk(t);
        forall h | h in heads && h in list.nodes
          ensures if h.at < t.at then h.version in m.given else m.upTo < h.version && maxVer < h.version
        {
          assert Accounted(m, h);
        }
        m.version := maxVer;
        TouchedKeeps(m);
        Relocate(m, t, m.given, m.upTo);
      }
    }

    // The marker goes to the back: its walker has been given everything.
    method PutBack(m: Node)
      requires list.Valid() && Flags() && Versions() && m in refs && m !in list.nodes && m.marker &&
        m.version <= version && m.upTo <= version
      requires forall h :: h in heads && h in list.nodes ==> h.version in m.given
      modifies list`nodes, m`next, m`back, m`at, (list.nodes + {list.head})`next, (list.nodes + {list.tail})`back
      ensures Valid() && list.nodes == old(list.nodes) + {m}
    {
      assert RefOk(m);
      MoveToBack(m, false);
      assert list.NextOk(m) && list.BackOk(m);
      forall h | h in heads && h in list.nodes ensures Accounted(m, h) { }
      TouchedKeeps(m);
    }

    // What becomes of the marker after the callback's answer.
    method Settle(m: Node, t: Node, v: nat, answer: int, ghost given: set<nat>, ghost upTo: nat) returns (ok: bool)
      requires Valid() && m in refs && m in list.nodes && t in heads
      requires m.given == given + {v} && m.upTo == v <= t.version && upTo < v && m.version < v
      requires forall w <- given :: w <= upTo
      requires forall h :: h in heads && h in list.nodes && h.version == v ==> h == t
      requires t in list.nodes && t.version == v ==> t.at < m.at
      modifies list`nodes, m`version, m`next, m`back, m`at, m`given, m`upTo, (list.nodes + {list.head})`next
      modifies (list.nodes + {list.tail})`back
      ensures Valid() && list.nodes == old(list.nodes)
      ensures answer >= 0 ==> ok && m.given == given + {v} && m.upTo == m.version == v && m.at == old(m.at)
      ensures ok == (answer >= 0 || t in list.nodes)
      ensures ok && answer < 0 ==>
        && m.version == old(m.version) && m.given == given + Skipped(given, t.version)
        && (t.version == v ==> m.given == given)
      ensures ViewWith({m}) == old(ViewWith({m})).(given := old(ViewWith({m})).given[m := m.given])
      ensures !ok ==> m.given == old(m.given)
    {
      assert RefOk(m) && HeadOk(t);
      ok := true;
      if answer >= 0 {
        Accept(m, v);
      } else {
        if !t.IsLinked() {
          return false;
        }
        Reject(m, t, v, given, upTo);
      }
    }

    // The callback's acts. Node t, just before the marker, keeps its version unless it is moved.
    method CallBack(m: Node, t: Node, acts: seq<Act>, ghost held: set<Node>) returns (ok: bool, ghost deeds: seq<Deed>)
      requires Valid() && m in refs && m in list.nodes && held <= refs && m in held && AllAllowed(acts, held)
      requires t in heads && t in list.nodes && t.at < m.at
      modifies this`version, list`nodes, heads, refs - held, held`next, held`back, list.head`next, list.tail`back
      ensures Valid() && Done(Acts(deeds), held) && m in list.nodes
      ensures RightAll(acts, deeds, old(ViewWith({m})), ok) && ViewWith({m}) == AfterAll(deeds, old(ViewWith({m})))
      ensures forall h :: h in heads && h in list.nodes && h.version == old(t.version) ==> h == t
      ensures old(t.version) <= t.version && (t in list.nodes && t.version == old(t.version) ==> t.at < m.at)
      ensures Act.Append(t) !in Acts(deeds) ==> t.version == old(t.version)
      ensures Act.Drop(t) !in Acts(deeds) ==> t in list.nodes
      decreases refs - held, 4
    {
      OneOrder(t);
      assert HeadOk(t) && ViewWith({m}) == ViewWith({});
      ok, deeds := PerformAll(acts, held);
      assert Undisturbed(t) && Treated(t, Acts(deeds)) && ViewWith({m}) == ViewWith({});
      forall h | h in heads && h in list.nodes && h.version == old(t.version) ensures h == t {
        assert Undisturbed(h);
      }
    }

    // The marker goes behind t, and the callback acts.
    method Present(m: Node, t: Node, acts: seq<Act>, ghost held: set<Node>) returns (ok: bool, ghost deeds: seq<Deed>)
      requires Valid() && Away(m) && NextChange(m.at, t) && held <= refs && m in held && AllAllowed(acts, held)
      modifies this`version, list`nodes, heads, refs - held, held`next, held`back, list.head`next, list.tail`back
      modifies m`at, m`given, m`upTo
      ensures Valid() && t in heads && Done(Acts(deeds), held - {m}) && m in list.nodes
      ensures var v0 := Presented(m, t, old(ViewWith({m})));
        RightAll(acts, deeds, v0, ok) && ViewWith({m}) == AfterAll(deeds, v0)
      ensures m.given == old(m.given) + {old(t.version)} && m.upTo == old(t.version) && m.version == old(m.version)
      ensures old(m.upTo) < old(t.version) <= t.version && m.version < old(t.version)
      ensures forall w <- old(m.given) :: w <= old(m.upTo)
      ensures forall h :: h in heads && h in list.nodes && h.version == old(t.version) ==> h == t
      ensures t in list.nodes && t.version == old(t.version) ==> t.at < m.at
      ensures Act.Append(t) !in Acts(deeds) ==> t.version == old(t.version)
      ensures Act.Drop(t) !in Acts(deeds) ==> t in list.nodes
      decreases refs - held, 5
    {
      assert forall n :: n in list.nodes ==> MemberOk(n);
      Deliver(m, t);
      label L:
      ok, deeds := CallBack(m, t, acts, held);
      forall h | h in heads ensures Undisturbed(h) && Treated(h, Acts(deeds)) {
        assert Undisturbed@L(h) && Treated@L(h, Acts(deeds));
      }
    }

    // One node is handed to the callback, which acts and answers.
    method HandOver(m: Node, t: Node, reply: Reply, ghost held: set<Node>) returns (ok: bool, ghost deeds: seq<Deed>)
      requires Valid() && Away(m) && NextChange(m.at, t) && held <= refs && m in held && AllAllowed(reply.acts, held)
      modifies this`version, list`nodes, heads, refs - held + {m}, held`next, held`back, list.head`next, list.tail`back
      ensures Valid() && Done(Acts(deeds), held - {m}) && m in list.nodes
      ensures Came(m, Call(t, reply, deeds, ok), old(ViewWith({m})), ViewWith({m}))
      ensures ok && reply.answer >= 0 ==>
        m.given == old(m.given) + {old(t.version)} && m.upTo == m.version == old(t.version)
      ensures ok && reply.answer < 0 ==>
        && t in list.nodes && m.version == old(m.version) && m.given == old(m.given) + Skipped(old(m.given), t.version)
        && (Act.Append(t) !in Acts(deeds) ==> m.given == old(m.given))
      decreases refs - held, 6
    {
      ghost var given, upTo, view := m.given, m.upTo, ViewWith({m});
      var v := t.version;
      ok, deeds := Present(m, t, reply.acts, held);
      if ok {
        assert forall n :: n in list.nodes ==> MemberOk(n);
        label L:
        ghost var v1 := ViewWith({m});
        ok := Settle(m, t, v, reply.answer, given, upTo);
        SkippedIsBelow(given, t.version);
        forall h | h in heads ensures Undisturbed(h) && Treated(h, Acts(deeds)) { assert Treated@L(h, []); }
        Settled(m, Call(t, reply, deeds, ok), view, v1, m.given);
      }
    }

    // ---- std_radical_walkchangelist ----

    static ghost predicate Rising(vs: seq<nat>) {
      forall i, j {:trigger vs[i], vs[j]} :: 0 <= i < j < |vs| ==> vs[i] < vs[j]
    }

    static ghost function Elements(vs: seq<nat>): set<nat> {
      set v | v in vs
    }

    // The first n answers are 0.
    static ghost predicate Accepting(calls: seq<Call>, n: int) {
      forall i {:trigger calls[i]} :: 0 <= i < n && i < |calls| ==> calls[i].reply.answer == 0
    }

    // How many appends the calls have made.
    static ghost function Appended(calls: seq<Call>): nat {
      if calls == [] then 0 else
        var n := |calls| - 1; Appended(calls[..n]) + Appends(Acts(calls[n].deeds))
    }

    // One of the first n calls appends h.
    static ghost predicate AppendedBy(calls: seq<Call>, n: nat, h: Node) {
      exists i :: 0 <= i < n && i < |calls| && Act.Append(h) in Acts(calls[i].deeds)
    }

    static ghost predicate DroppedBy(calls: seq<Call>, n: nat, h: Node) {
      exists i :: 0 <= i < n && i < |calls| && Act.Drop(h) in Acts(calls[i].deeds)
    }

    // Call i was for version v: this is the one that its node had at first, unless an earlier
    // call has appended the node, which then has a newer one.
    static ghost predicate Origin(on: map<Node, nat>, version: nat, calls: seq<Call>, i: nat, v: nat)
      requires i < |calls|
    {
      var h := calls[i].node;
      if AppendedBy(calls, i, h) then version < v else h in on && on[h] == v
    }

    static lemma {:induction false} OneCallMore(calls: seq<Call>, c: Call)
      ensures var calls1, n := calls + [c], |calls|;
        && Appended(calls1) == Appended(calls) + Appends(Acts(c.deeds))
        && (forall h :: AppendedBy(calls1, n + 1, h) <==> AppendedBy(calls, n, h) || Act.Append(h) in Acts(c.deeds))
        && (forall h :: DroppedBy(calls1, n + 1, h) <==> DroppedBy(calls, n, h) || Act.Drop(h) in Acts(c.deeds))
    {
      var calls1, n := calls + [c], |calls|;
      assert calls1[..n] == calls && calls1[n] == c;
      forall h ensures AppendedBy(calls1, n + 1, h) <==> AppendedBy(calls, n, h) || Act.Append(h) in Acts(c.deeds) {
        if AppendedBy(calls, n, h) {
          var i :| 0 <= i < n && Act.Append(h) in Acts(calls[i].deeds);
          assert calls1[i] == calls[i];
        }
      }
      forall h ensures DroppedBy(calls1, n + 1, h) <==> DroppedBy(calls, n, h) || Act.Drop(h) in Acts(c.deeds) {
        if DroppedBy(calls, n, h) {
          var i :| 0 <= i < n && Act.Drop(h) in Acts(calls[i].deeds);
          assert calls1[i] == calls[i];
        }
      }
    }

    // All that they have done, and what it comes to.
    static lemma {:induction false} FlatIs(calls: seq<Call>)
      ensures Appends(Flat(calls)) == Appended(calls)
      ensures forall h :: Act.Append(h) in Flat(calls) <==> AppendedBy(calls, |calls|, h)
      ensures forall h :: Act.Drop(h) in Flat(calls) <==> DroppedBy(calls, |calls|, h)
    {
      if calls != [] {
        var rest, c := calls[..|calls| - 1], calls[|calls| - 1];
        assert calls == rest + [c];
        FlatIs(rest);
        OneCallMore(rest, c);
        AppendsAdd(Flat(rest), Acts(c.deeds));
      }
    }

    // One node is handed over; unless this stops the walk, the marker is taken up again.
    method Turn(m: Node, t: Node, reply: Reply, last: bool, ghost held: set<Node>)
      returns (ok: bool, next: Node?, ghost deeds: seq<Deed>)
      requires Valid() && Away(m) && NextChange(m.at, t) && held <= refs && m in held && AllAllowed(reply.acts, held)
      modifies this`version, list`nodes, heads, refs - held + {m}, held`next, held`back, list.head`next, list.tail`back
      ensures Valid() && Done(Acts(deeds), held - {m})
      ensures Came(m, Call(t, reply, deeds, ok), old(ViewWith({m})), ViewWith({m}))
      ensures forall v <- Current() :: v <= old(version) ==> v in old(Current())
      ensures if ok && reply.answer == 0 && !last then Away(m) && NextChange(m.at, next) else m in list.nodes
      ensures ok && reply.answer >= 0 ==>
        m.given == old(m.given) + {old(t.version)} && m.version == m.upTo == old(t.version)
      ensures ok && reply.answer < 0 ==>
        && t in list.nodes && m.given == old(m.given) + Skipped(old(m.given), t.version)
        && m.version == old(m.version)
        && if Act.Append(t) in Acts(deeds) then old(version) < t.version else m.given == old(m.given)
      decreases refs - held, 7
    {
      ok, deeds := HandOver(m, t, reply, held);
      next := null;
      assert HeadOk(t) && Treated(t, Acts(deeds));
      forall v | v in Current() && v <= old(version) ensures v in old(Current()) {
        var g :| g in heads && g in list.nodes && g.version == v;
        assert Undisturbed(g);
      }
      if ok && reply.answer == 0 && !last {
        assert forall n :: n in list.nodes ==> MemberOk(n);
        label L:
        next := TakeUp(m);
        forall h | h in heads ensures Undisturbed(h) && Treated(h, Acts(deeds)) { assert Undisturbed@L(h); }
      }
    }

    // Versions that are handed over one after the other.
    static ghost predicate Handed(vs: seq<nat>, from: nat, to: nat) {
      Rising(vs) && forall v <- vs :: from < v <= to
    }

    static lemma OneMore(vs: seq<nat>, v: nat, from: nat, to: nat)
      requires Handed(vs, from, to) && from < v <= to && forall w <- vs :: w < v
      ensures Handed(vs + [v], from, to) && Elements(vs + [v]) == Elements(vs) + {v}
    {
      assert forall i :: 0 <= i < |vs| ==> vs[i] in vs;
    }

    // v is the least version on the list that is new to the walker.
    static ghost predicate FirstNew(current: set<nat>, given: set<nat>, v: nat) {
      v in current && v !in given && forall w <- current :: w in given || v <= w
    }

    lemma NextIsFirst(m: Node, t: Node)
      requires Valid() && Away(m) && NextChange(m.at, t)
      ensures FirstNew(Current(), m.given, t.version) && m.upTo < t.version <= version
      ensures Next(ViewWith({m}), m, t)
    {
      assert Accounted(m, t) && HeadOk(t) && RefOk(m);
      OneOrder(t);
      forall w | w in Current() ensures w in m.given || t.version <= w {
        var h :| h in heads && h in list.nodes && h.version == w;
        assert Accounted(m, h);
      }
    }

    static ghost function LastOf(vs: seq<nat>, v: nat): nat {
      if vs == [] then v else vs[|vs| - 1]
    }

    // What the answers of the callback, and the limit, mean for a walk that began like this.
    // The callback has been called for all of called.
    ghost predicate Answered(m: Node, s: Start, maxNodes: int, answer: int, delivered: seq<nat>, called: seq<nat>,
        calls: seq<Call>, ok: bool)
      reads this`heads, list`nodes, heads`version, m`given
    {
      var n := |calls|;
      var kept := s.given + Elements(delivered);
      // The callback's answers say when to stop.
      && |called| == n && delivered <= called && n == |delivered| + (if ok && answer >= 0 then 0 else 1)
      && Accepting(calls, n - 1) && answer == (if n == 0 then 0 else calls[n - 1].reply.answer)
      && (maxNodes > 0 ==> n <= maxNodes) && (n > 0 ==> calls[n - 1].node in heads)
      // What was delivered is accounted for. A refused change is ahead again, and nothing but
      // it, unless the callback has appended it anew: then the marker has jumped over
      // everything that was on the list.
      && (ok && answer >= 0 ==> m.given == kept)
      && (ok && answer < 0 ==> Refused(m, s, kept, calls))
    }

    // The last of the calls has refused its change.
    ghost predicate Refused(m: Node, s: Start, kept: set<nat>, calls: seq<Call>)
      reads this`heads, list`nodes, heads`version, m`given
    {
      calls != [] &&
      var n := |calls| - 1;
      var c := calls[n];
      && c.node in heads && c.node in list.nodes && m.given == kept + Skipped(kept, c.node.version)
      && if Act.Append(c.node) in Acts(c.deeds) then s.version + Appended(calls[..n]) < c.node.version
         else m.given == kept
    }

    static ghost predicate Above(v: nat, vs: seq<nat>) {
      forall w <- vs :: w < v
    }

    // In a walk that starts like this, the versions vs are handed over in these calls.
    static ghost predicate CalledFor(s: Start, reply: (nat, Node) -> Reply, vs: seq<nat>, calls: seq<Call>) {
      && Handed(vs, s.upTo, s.maxVer) && |calls| == |vs| && Made(reply, calls)
      && (s.maxVer <= s.version ==> Elements(vs) <= s.current)
      && (vs != [] ==> FirstNew(s.current, s.given, vs[0]))
      && (forall i {:trigger vs[i]} :: 0 <= i < |vs| ==> Origin(s.on, s.version, calls, i, vs[i]))
    }

    // All of vs have been delivered and answered with 0.
    static ghost predicate Sofar(s: Start, reply: (nat, Node) -> Reply, vs: seq<nat>, calls: seq<Call>,
        given: set<nat>, upTo: nat)
    {
      && CalledFor(s, reply, vs, calls) && Accepting(calls, |calls|) && s.upTo <= upTo
      && (forall v <- vs :: v <= upTo) && given == s.given + Elements(vs)
    }

    static lemma {:induction false} OneCall(s: Start, reply: (nat, Node) -> Reply, vs: seq<nat>, calls: seq<Call>,
        given: set<nat>, upTo: nat, v: nat, c: Call)
      requires Sofar(s, reply, vs, calls, given, upTo) && upTo < v <= s.maxVer && c.reply == reply(|calls|, c.node)
      requires s.maxVer <= s.version ==> v in s.current
      requires vs == [] ==> FirstNew(s.current, s.given, v)
      requires Origin(s.on, s.version, calls + [c], |calls|, v)
      ensures CalledFor(s, reply, vs + [v], calls + [c])
      ensures c.reply.answer == 0 ==> Sofar(s, reply, vs + [v], calls + [c], given + {v}, v)
    {
      OneMore(vs, v, s.upTo, s.maxVer);
      forall i | 0 <= i < |vs| ensures Origin(s.on, s.version, calls + [c], i, vs[i]) {
        assert Origin(s.on, s.version, calls, i, vs[i]);
        SameBefore(calls, c, i, calls[i].node);
      }
    }

    static lemma {:induction false} SameBefore(calls: seq<Call>, c: Call, i: nat, h: Node)
      requires i <= |calls|
      ensures AppendedBy(calls + [c], i, h) <==> AppendedBy(calls, i, h)
    {
      assert forall j :: 0 <= j < i ==> (calls + [c])[j] == calls[j];
    }

    // What the calls have done to node h. Only an append gives it a version, a newer one then;
    // only appends and removals put it on the list or take it off. After an append in the last
    // call it is newer than all that was handed over. It has not moved without an append.
    ghost predicate Followed(s: Start, calls: seq<Call>, called: seq<nat>, h: Node)
      reads list`nodes, h`version, h`at
    {
      FollowedTo(s, calls, called, h, h in list.nodes, h.version, h.at)
    }

    static ghost predicate FollowedTo(s: Start, calls: seq<Call>, called: seq<nat>, h: Node, listed: bool, v: nat,
        at: real)
    {
      var n := |calls|;
      && h in s.vers && h in s.places
      && (if AppendedBy(calls, n, h) then s.version < v
          else v == s.vers[h] && (listed ==> h in s.on && s.on[h] == v))
      && (!DroppedBy(calls, n, h) && (h in s.on || AppendedBy(calls, n, h)) ==> listed)
      && (n > 0 && Act.Append(h) in Acts(calls[n - 1].deeds) ==> Above(v, called))
      && (listed && v <= s.version ==> h in s.on && v == s.vers[h] && at == s.places[h])
    }

    // Node h has had version v, and now it has v1.
    static lemma {:induction false} FollowedOn(s: Start, calls: seq<Call>, called: seq<nat>, c: Call, ver: nat,
        w: nat, h: Node, listed: bool, v: nat, at: real, listed1: bool, v1: nat, at1: real)
      requires FollowedTo(s, calls, called, h, listed, v, at) && s.version <= ver && Above(w, called) && w <= ver
      requires v1 != v ==> ver < v1
      requires listed1 && v1 <= ver ==> listed && v1 == v && at1 == at
      requires Act.Append(h) !in Acts(c.deeds) ==> v1 == v && (listed1 ==> listed)
      requires Act.Drop(h) !in Acts(c.deeds) && (listed || Act.Append(h) in Acts(c.deeds)) ==> listed1
      requires Act.Append(h) in Acts(c.deeds) ==> ver < v1
      ensures FollowedTo(s, calls + [c], called + [w], h, listed1, v1, at1)
    {
      OneCallMore(calls, c);
    }

    // What the calls have done. Every append counts. Markers that are held stay on the list or
    // off it.
    ghost predicate Watched(s: Start, calls: seq<Call>, called: seq<nat>, held: set<Node>)
      reads this`version, this`heads, list`nodes, heads`version, heads`at
    {
      && version == s.version + Appended(calls)
      && (forall r <- held :: (r in list.nodes) == (r in s.nodes))
      && (forall h {:trigger Followed(s, calls, called, h)} :: h in heads ==> Followed(s, calls, called, h))
    }

    // Before t is handed over.
    ghost predicate Going(s: Start, m: Node, t: Node?, reply: (nat, Node) -> Reply, called: seq<nat>, calls: seq<Call>)
      reads this, list`nodes, heads, m, (if t == null then {} else {t})
    {
      && Away(m) && NextChange(m.at, t) && Sofar(s, reply, called, calls, m.given, m.upTo)
      && (forall v <- Current() :: v <= s.version ==> v in s.current)
      && (called == [] && t != null ==> FirstNew(s.current, s.given, t.version))
    }

    ghost function Begin(m: Node, maxVer: nat): Start
      reads this, list`nodes, heads`version, heads`at, refs`given, m`given, m`upTo, m`version
    {
      var vers, places := map h | h in heads :: h.version, map h | h in heads :: h.at;
      Start(list.nodes, On(), Current(), m.given, m.upTo, version, vers, places, ViewWith({m}), m.version, maxVer)
    }

    // So far, or at its end, the walk is as it should be.
    ghost predicate WalkOk(m: Node, s: Start, maxNodes: int, reply: (nat, Node) -> Reply, held: set<Node>, answer: int,
        delivered: seq<nat>, called: seq<nat>, calls: seq<Call>, ok: bool)
      reads this, list`nodes, heads`version, heads`at, refs`given, m`given
    {
      && CalledFor(s, reply, called, calls) && Answered(m, s, maxNodes, answer, delivered, called, calls, ok)
      && Watched(s, calls, called, held - {m}) && Tracked(m, s, maxNodes, reply, calls, ok)
    }

    // The calls are the right ones, and what is seen of the list is what they have made of it.
    ghost predicate Tracked(m: Node, s: Start, maxNodes: int, reply: (nat, Node) -> Reply, calls: seq<Call>, ok: bool)
      reads this, list`nodes, heads`version, refs`given
    {
      ViewWith({m}) == AfterCalls(m, calls, s.view) && RightCalls(m, maxNodes, s.maxVer, reply, calls, s.view, ok)
    }

    // The beginning of a walk.
    method SetOut(m: Node, maxNodes: int, reply: (nat, Node) -> Reply, ghost held: set<Node>, ghost s: Start)
      returns (t: Node?)
      requires Valid() && m in refs && m in list.nodes && s == Begin(m, s.maxVer)
      modifies list`nodes, (list.nodes + {list.head})`next, (list.nodes + {list.tail})`back
      ensures UnderWay(m, s, maxNodes, reply, held, t, [], [])
    {
      t := TakeUp(m);
      assert Current() == s.current;
      forall h | h in heads ensures Followed(s, [], [], h) { assert HeadOk(h) && On() == s.on; }
      if t != null { NextIsFirst(m, t); }
    }

    // One call of the callback, and what it adds to what the calls before have done.
    method TurnOn(m: Node, t: Node, r: Reply, last: bool, ghost held: set<Node>, ghost s: Start,
        ghost called: seq<nat>, ghost calls: seq<Call>, maxNodes: int, ghost reply: (nat, Node) -> Reply)
      returns (ok: bool, next: Node?, ghost deeds: seq<Deed>)
      requires Valid() && Away(m) && NextChange(m.at, t) && held <= refs && m in held && AllAllowed(r.acts, held)
      requires Tracked(m, s, maxNodes, reply, calls, true) && (maxNodes > 0 ==> |calls| < maxNodes)
      requires Accepting(calls, |calls|) && t.version <= s.maxVer && r == reply(|calls|, t)
      requires Watched(s, calls, called, held - {m}) && s.version <= version && Above(t.version, called)
      modifies this`version, list`nodes, heads, refs - held + {m}, held`next, held`back, list.head`next, list.tail`back
      ensures Valid() && old(version) <= version
      ensures Watched(s, calls + [Call(t, r, deeds, ok)], called + [old(t.version)], held - {m})
      ensures Tracked(m, s, maxNodes, reply, calls + [Call(t, r, deeds, ok)], ok)
      ensures forall v <- Current() :: v <= old(version) ==> v in old(Current())
      ensures if ok && r.answer == 0 && !last then Away(m) && NextChange(m.at, next) else m in list.nodes
      ensures ok && r.answer >= 0 ==>
        m.given == old(m.given) + {old(t.version)} && m.version == m.upTo == old(t.version)
      ensures ok && r.answer < 0 ==>
        && t in list.nodes && m.given == old(m.given) + Skipped(old(m.given), t.version)
        && m.version == old(m.version)
        && if Act.Append(t) in Acts(deeds) then old(version) < t.version else m.given == old(m.given)
      decreases refs - held, 8
    {
      ghost var v := t.version;
      assert HeadOk(t);
      NextIsFirst(m, t);
      ok, next, deeds := Turn(m, t, r, last, held);
      ghost var c := Call(t, r, deeds, ok);
      OneCallMore(calls, c);
      RightCallMore(m, maxNodes, s.maxVer, reply, calls, s.view, c, ViewWith({m}));
      forall h | h in heads ensures Followed(s, calls + [c], called + [v], h) {
        assert Undisturbed(h) && Treated(h, Acts(deeds)) && old(Followed(s, calls, called, h));
        FollowedOn(s, calls, called, c, old(version), v, h, old(h in list.nodes), old(h.version), old(h.at),
          h in list.nodes, h.version, h.at);
      }
    }

    // What one more call means for the account.
    lemma {:induction false} AnsweredOn(m: Node, s: Start, maxNodes: int, reply: (nat, Node) -> Reply,
        called: seq<nat>, calls: seq<Call>, given: set<nat>, upTo: nat, v: nat, c: Call)
      requires Sofar(s, reply, called, calls, given, upTo) && (maxNodes > 0 ==> |calls| < maxNodes) && c.node in heads
      requires c.back && c.reply.answer >= 0 ==> m.given == given + {v}
      requires c.back && c.reply.answer < 0 ==>
        && c.node in list.nodes && m.given == given + Skipped(given, c.node.version)
        && if Act.Append(c.node) in Acts(c.deeds) then s.version + Appended(calls) < c.node.version
           else m.given == given
      ensures Answered(m, s, maxNodes, c.reply.answer, if c.back && c.reply.answer >= 0 then called + [v] else called,
        called + [v], calls + [c], c.back)
    {
      assert (calls + [c])[..|calls|] == calls;
    }

    // The walk goes on: all calls have been answered with 0, and t is the next change, if any.
    ghost predicate UnderWay(m: Node, s: Start, maxNodes: int, reply: (nat, Node) -> Reply, held: set<Node>, t: Node?,
        called: seq<nat>, calls: seq<Call>)
      reads this, list`nodes, heads, refs, list.nodes`next, list.nodes`back, list.nodes`at
      reads list.head`next, list.head`at, list.tail`back, list.tail`at, m, (if t == null then {} else {t})
    {
      && Valid() && Going(s, m, t, reply, called, calls) && m.version == LastOf(called, s.marked)
      && Watched(s, calls, called, held - {m}) && Tracked(m, s, maxNodes, reply, calls, true)
      && (calls != [] ==> calls[|calls| - 1].node in heads)
    }

    lemma {:induction false} UnderWayOk(m: Node, s: Start, maxNodes: int, reply: (nat, Node) -> Reply, held: set<Node>,
        t: Node?, called: seq<nat>, calls: seq<Call>)
      requires UnderWay(m, s, maxNodes, reply, held, t, called, calls)
      ensures WalkOk(m, s, maxNodes, reply, held, 0, called, called, calls, true)
    {
    }

    // One turn of the loop.
    method Round(m: Node, t: Node, maxNodes: int, reply: (nat, Node) -> Reply, n: nat, last: bool,
        ghost held: set<Node>, ghost s: Start, ghost called: seq<nat>, ghost calls: seq<Call>)
      returns (ok: bool, next: Node?, answer: int, ghost called1: seq<nat>, ghost calls1: seq<Call>)
      requires UnderWay(m, s, maxNodes, reply, held, t, called, calls) && t.version <= s.maxVer && n == |calls|
      requires held <= refs && m in held && AlwaysAllowed(reply, held) && (maxNodes > 0 ==> n < maxNodes)
      modifies this`version, list`nodes, heads, refs - held + {m}, held`next, held`back, list.head`next, list.tail`back
      ensures Valid() && called1 == called + [old(t.version)] && |called1| == |calls1| == n + 1
      ensures if ok && answer == 0 && !last then
          m.upTo == old(t.version) > old(m.upTo) && UnderWay(m, s, maxNodes, reply, held, next, called1, calls1)
        else
          var delivered := if ok && answer >= 0 then called1 else called;
          && m in list.nodes && WalkOk(m, s, maxNodes, reply, held, answer, delivered, called1, calls1, ok)
          && (ok ==> m.version == LastOf(delivered, s.marked))
      decreases refs - held, 10
    {
      ok, next, answer, called1, calls1 := Ask(m, t, maxNodes, reply, n, last, held, s, called, calls);
    }

    method Ask(m: Node, t: Node, maxNodes: int, reply: (nat, Node) -> Reply, n: nat, last: bool,
        ghost held: set<Node>, ghost s: Start, ghost called: seq<nat>, ghost calls: seq<Call>)
      returns (ok: bool, next: Node?, answer: int, ghost called1: seq<nat>, ghost calls1: seq<Call>)
      requires Valid() && held <= refs && m in held && AlwaysAllowed(reply, held) && n == |calls|
      requires Going(s, m, t, reply, called, calls) && t.version <= s.maxVer
      requires Watched(s, calls, called, held - {m}) && Tracked(m, s, maxNodes, reply, calls, true)
      requires maxNodes > 0 ==> n < maxNodes
      modifies this`version, list`nodes, heads, refs - held + {m}, held`next, held`back, list.head`next, list.tail`back
      ensures Valid() && called1 == called + [old(t.version)]
      ensures WalkOk(m, s, maxNodes, reply, held, answer, if ok && answer >= 0 then called1 else called,
        called1, calls1, ok)
      ensures if ok && answer == 0 && !last then
          m.upTo == old(t.version) > old(m.upTo) && Going(s, m, next, reply, called1, calls1)
        else m in list.nodes
      ensures ok ==> m.version == if answer >= 0 then old(t.version) else old(m.version)
      decreases refs - held, 9
    {
      ghost var v, given, upTo := t.version, m.given, m.upTo;
      NextIsFirst(m, t);
      assert Followed(s, calls, called, t);
      answer := reply(n, t).answer;
      ghost var deeds;
      ok, next, deeds := TurnOn(m, t, reply(n, t), last, held, s, called, calls, maxNodes, reply);
      ghost var c := Call(t, reply(n, t), deeds, ok);
      SameBefore(calls, c, n, t);
      OneCall(s, reply, called, calls, given, upTo, v, c);
      called1, calls1 := called + [v], calls + [c];
      AnsweredOn(m, s, maxNodes, reply, called, calls, given, upTo, v, c);
    }

    // The loop of the walk. At its end either the marker is still off the list, before t,
    // or the callback's answer or the limit has ended the walk. It ends, whatever the
    // callback does: each version handed over is above the one before, and none above maxVer.
    method Visit(m: Node, t0: Node?, maxNodes: int, maxVer: nat, reply: (nat, Node) -> Reply, ghost held: set<Node>,
        ghost s: Start)
      returns (answer: int, delivered: seq<nat>, ghost called: seq<nat>, ghost calls: seq<Call>, ok: bool,
        t: Node?, ended: bool)
      requires Valid() && held <= refs && m in held && AlwaysAllowed(reply, held) && s.maxVer == maxVer
      requires UnderWay(m, s, maxNodes, reply, held, t0, [], [])
      modifies this`version, list`nodes, heads, refs - held + {m}, held`next, held`back, list.head`next, list.tail`back
      ensures Valid() && if ended then Away(m) && NextChange(m.at, t) && (t != null ==> maxVer < t.version)
        else m in list.nodes
      ensures WalkOk(m, s, maxNodes, reply, held, answer, delivered, called, calls, ok)
      ensures ended <==> ok && answer == 0 && !(maxNodes > 0 && |delivered| == maxNodes)
      ensures ok && !ended ==> m.version == LastOf(delivered, s.marked)
      decreases refs - held, 11
    {
      var left := if maxNodes == 0 then -1 else maxNodes;
      answer, delivered, called, calls, ok, t, ended := 0, [], [], [], true, t0, true;
      while t != null && t.version <= maxVer
        invariant ok && answer == 0 && called == delivered && |calls| == |delivered| && ended
        invariant UnderWay(m, s, maxNodes, reply, held, t, called, calls)
        invariant left != 0 && (maxNodes > 0 <==> left > 0) && (maxNodes > 0 ==> left == maxNodes - |delivered|)
        decreases maxVer - m.upTo
      {
        var v := t.version;
        ok, t, answer, called, calls :=
          Round(m, t, maxNodes, reply, |delivered|, left == 1, held, s, called, calls);
        if !ok || answer < 0 {
          ended := false;
          break;
        }
        delivered := delivered + [v];
        left := left - 1;
        if answer != 0 || left == 0 {
          ended := false;
          break;
        }
      }
      if ended { UnderWayOk(m, s, maxNodes, reply, held, t, called, calls); }
    }

    // The end of a walk that nothing has stopped.
    method Finish(m: Node, t: Node?, maxVer: nat, ghost called: seq<nat>, ghost calls: seq<Call>,
        ghost held: set<Node>, ghost s: Start)
      requires Valid() && Away(m) && NextChange(m.at, t) && (t != null ==> maxVer < t.version)
      requires m !in held && Watched(s, calls, called, held)
      modifies list`nodes, m`next, m`back, m`at, m`version, m`given, m`upTo, (list.nodes + {list.head})`next
      modifies (list.nodes + {list.tail})`back
      ensures Valid() && m in list.nodes && Watched(s, calls, called, held) && m.given == old(m.given)
      ensures ViewWith({m}) == old(ViewWith({m}))
      ensures forall v <- Current() :: v <= maxVer ==> v in m.given
      ensures m.version == if Current() <= m.given then version else maxVer
    {
      PutDown(m, t, maxVer);
      assert t != null ==> t.version in Current();
      forall h | h in heads ensures Followed(s, calls, called, h) { assert old(Followed(s, calls, called, h)); }
    }

    // Every walk keeps the account of every marker. For the walking one, delivered are the
    // changes it has been given and has not refused; the callback is called for these and
    // perhaps one more: called are the versions and calls the nodes and replies.
    method WalkChangeList(m: Node, maxNodes: int, maxVer: nat, reply: (nat, Node) -> Reply, ghost held: set<Node>)
      returns (answer: int, delivered: seq<nat>, ghost called: seq<nat>, ghost calls: seq<Call>, ok: bool)
      requires Valid() && m in refs && m in list.nodes
      requires held <= refs && m in held && AlwaysAllowed(reply, held)
      modifies this`version, list`nodes, heads, refs - held + {m}, held`next, held`back, list.head`next, list.tail`back
      ensures Valid() && m in list.nodes
      // The calls are the right ones, and this is what they have done.
      ensures var s := old(Begin(m, maxVer));
        && RightCalls(m, maxNodes, maxVer, reply, calls, s.view, ok) &&
            (ok ==> Over(m, maxNodes, maxVer, calls, s.view))
        && ViewWith({m}) == AfterCalls(m, calls, s.view)
      // Nothing is delivered twice: versions rise, beyond all that was given before. The first
      // one is the least new one. Changes that callbacks make during the walk do not prolong
      // it, unless asked for.
      ensures CalledFor(old(Begin(m, maxVer)), reply, called, calls)
      ensures forall v <- old(m.given) :: v <= old(m.upTo)
      ensures maxVer <= old(version) ==> |called| <= |old(Current())|
      ensures Answered(m, old(Begin(m, maxVer)), maxNodes, answer, delivered, called, calls, ok)
      ensures Watched(old(Begin(m, maxVer)), calls, called, held - {m})
      // Nothing is lost: a walk that is not stopped reaches all changes up to maxVer.
      ensures ok && answer == 0 && !(maxNodes > 0 && |delivered| == maxNodes) ==>
        && (forall v <- Current() :: v <= maxVer ==> v in m.given)
        && m.version == if Current() <= m.given then version else maxVer
      // The marker's version is otherwise that of the last change it was given.
      ensures ok && (answer != 0 || (maxNodes > 0 && |delivered| == maxNodes)) ==>
        m.version == LastOf(delivered, old(m.version))
      decreases refs - held, 13
    {
      assert RefOk(m);
      ghost var s := Begin(m, maxVer);
      answer, delivered, called, calls, ok := WalkThrough(m, maxNodes, maxVer, reply, held, s);
      CallCount(s, reply, called, calls);
    }

    method WalkThrough(m: Node, maxNodes: int, maxVer: nat, reply: (nat, Node) -> Reply, ghost held: set<Node>,
        ghost s: Start)
      returns (answer: int, delivered: seq<nat>, ghost called: seq<nat>, ghost calls: seq<Call>, ok: bool)
      requires Valid() && m in refs && m in list.nodes && s == Begin(m, maxVer)
      requires held <= refs && m in held && AlwaysAllowed(reply, held)
      modifies this`version, list`nodes, heads, refs - held + {m}, held`next, held`back, list.head`next, list.tail`back
      ensures Valid() && m in list.nodes
      ensures WalkOk(m, s, maxNodes, reply, held, answer, delivered, called, calls, ok)
      ensures ok && answer == 0 && !(maxNodes > 0 && |delivered| == maxNodes) ==>
        && (forall v <- Current() :: v <= maxVer ==> v in m.given)
        && m.version == if Current() <= m.given then version else maxVer
      ensures ok && (answer != 0 || (maxNodes > 0 && |delivered| == maxNodes)) ==>
        m.version == LastOf(delivered, old(m.version))
      decreases refs - held, 12
    {
      assert forall n :: n in list.nodes ==> MemberOk(n);
      var t := SetOut(m, maxNodes, reply, held, s);
      var ended;
      answer, delivered, called, calls, ok, t, ended := Visit(m, t, maxNodes, maxVer, reply, held, s);
      if ended {
        assert forall n :: n in list.nodes ==> MemberOk(n);
        Finish(m, t, maxVer, called, calls, held - {m}, s);
      }
    }

    static lemma {:induction false} CallCount(s: Start, reply: (nat, Node) -> Reply, called: seq<nat>, calls: seq<Call>)
      requires CalledFor(s, reply, called, calls)
      ensures s.maxVer <= s.version ==> |called| <= |s.current|
    {
      if s.maxVer <= s.version {
        RisingSize(called);
        SubsetSize(Elements(called), s.current);
      }
    }

    static lemma {:induction false} RisingSize(vs: seq<nat>)
      requires Rising(vs)
      ensures |Elements(vs)| == |vs|
    {
      if vs != [] {
        var rest, v := vs[..|vs| - 1], vs[|vs| - 1];
        RisingSize(rest);
        assert vs == rest + [v];
        assert v !in rest;
        assert Elements(vs) == Elements(rest) + {v};
      }
    }

    // ---- Runs ----

    // Anything may happen except that marker m is opened anew or closed.
    ghost predicate EventOk(e: Act, m: Node)
      reads this`heads, this`refs
    {
      if e.Walk? && e.w == m then AlwaysAllowed(e.reply, {m}) else Allowed(e, {m})
    }

    // What the last call refuses, if it refuses anything.
    static ghost predicate Refuses(calls: seq<Call>) {
      calls != [] && calls[|calls| - 1].reply.answer < 0
    }

    // The last call refuses the change to its node and has appended that node anew.
    static ghost predicate Reappends(calls: seq<Call>) {
      Refuses(calls) && var c := calls[|calls| - 1]; Act.Append(c.node) in Acts(c.deeds)
    }

    // What a walk of m itself does: its calls are those of its callback, for rising versions
    // of these very nodes; all of them but a refused one come to the log.
    static ghost predicate Handled(reply: (nat, Node) -> Reply, calls: seq<Call>, a: Moment, b: Moment) {
      var n := |calls|;
      && |b.called| == n && Made(reply, calls) && Rising(a.log + b.called) && Accepting(calls, n - 1)
      && (forall i {:trigger b.called[i]} :: 0 <= i < n ==> Origin(a.view.on, a.view.version, calls, i, b.called[i]))
      && b.log == a.log + if Refuses(calls) then b.called[..n - 1] else b.called
    }

    // If the refused node has been appended anew, the marker jumps over exactly those changes
    // below the node's new version, newer than anything before that call, that its walker has
    // not had. Otherwise it jumps over nothing.
    static ghost predicate Jumped(calls: seq<Call>, a: Moment, b: Moment) {
      if Reappends(calls) then
        var n := |calls| - 1;
        var h := calls[n].node;
        && h in b.view.on && a.view.version + Appended(calls[..n]) < b.view.on[h]
        && b.jumped == a.jumped + Below(b.view.on, b.view.on[h], Elements(b.log) + a.jumped)
      else b.jumped == a.jumped
    }

    // What one event, which came to deed d, does.
    static ghost predicate Follows(e: Act, d: Deed, m: Node, a: Moment, b: Moment) {
      && Right(e, d, a.view, true) && b.view == After(d, a.view)
      && if e.Walk? && e.w == m then Handled(e.reply, d.calls, a, b) && Jumped(d.calls, a, b)
         else b.log == a.log && b.jumped == a.jumped
    }

    // The moment is that of the list as it is now.
    ghost predicate IsNow(m: Node, s: Moment)
      reads this, list`nodes, heads`version, refs`given, m`given
    {
      m in list.nodes && m.given == Elements(s.log) + s.jumped && s.view == ViewWith({})
    }

    // The callback of m's walk may append anew a node that it refuses.
    ghost predicate MayLose(e: Act, m: Node)
      reads this`heads
    {
      e.Walk? && e.w == m && exists i: nat, t ::
        t in heads && e.reply(i, t).answer < 0 && Includes(e.reply(i, t).acts, Act.Append(t))
    }

    // Any run, seen from marker m: the log are the changes its walker has accepted, in order.
    // The deeds tell what has been done; ok is false if the last of them has stopped the program.
    method Run(m: Node, events: seq<Act>)
      returns (log: seq<nat>, ghost trace: seq<Moment>, ghost deeds: seq<Deed>, ok: bool)
      requires Valid() && m in refs && m in list.nodes && m.given == {}
      requires forall i {:trigger events[i]} :: 0 <= i < |events| ==> EventOk(events[i], m)
      modifies this`version, list`nodes, heads, refs, list.head`next, list.tail`back
      // All events are carried out, up to one that stops the program, and nothing else is done.
      ensures RightAll(events, deeds, old(ViewWith({})), ok) && ViewWith({}) == AfterAll(deeds, old(ViewWith({})))
      ensures var n := if ok then |deeds| else |deeds| - 1;
        && 0 <= n <= |deeds| && n <= |events| && (ok <==> n == |events|)
        && History(m, events, deeds[..n], trace, old(ViewWith({})))
      ensures !ok ==> 0 < |deeds| && Stops(events[|deeds| - 1], deeds[|deeds| - 1], trace[|trace| - 1].view)
      // No change is delivered twice.
      ensures Valid() && Rising(log) && trace[|trace| - 1].log <= log
      // None is lost: exactly what has been neither accepted nor jumped over is ahead.
      ensures ok ==> IsNow(m, trace[|trace| - 1]) && trace[|trace| - 1].log == log
      ensures ok ==> forall h :: h in heads && h in list.nodes ==>
        (h in Ahead(m) <==> h.version !in log && h.version !in trace[|trace| - 1].jumped)
      // And without a callback that appends anew what it refuses, nothing is jumped over.
      ensures (forall e <- events :: !MayLose(e, m)) ==> trace[|trace| - 1].jumped == {}
    {
      ghost var v0 := ViewWith({});
      log, trace, deeds, ok := Steps(m, events);
      ghost var n := if ok then |deeds| else |deeds| - 1;
      if ok {
        assert events[..n] == events && deeds[..n] == deeds;
        AheadIsNew(m);
      } else {
        assert deeds == deeds[..n] + [deeds[n]];
        HistoryEnds(m, events, deeds[..n], trace, v0, deeds[n]);
        ghost var k := WhyStopped(events, deeds, v0);
      }
    }

    method Steps(m: Node, events: seq<Act>)
      returns (log: seq<nat>, ghost trace: seq<Moment>, ghost deeds: seq<Deed>, ok: bool)
      requires Valid() && m in refs && m in list.nodes && m.given == {}
      requires forall i {:trigger events[i]} :: 0 <= i < |events| ==> EventOk(events[i], m)
      modifies this`version, list`nodes, heads, refs, list.head`next, list.tail`back
      ensures Valid() && Rising(log) && trace != [] && trace[|trace| - 1].log <= log
      ensures ViewWith({}) == AfterAll(deeds, old(ViewWith({})))
      ensures var n := if ok then |deeds| else |deeds| - 1;
        && 0 <= n <= |deeds| && n <= |events| && (ok <==> n == |events|)
        && History(m, events, deeds[..n], trace, old(ViewWith({})))
        && (!ok ==> Right(events[n], deeds[n], trace[n].view, false))
      ensures ok ==> IsNow(m, trace[|trace| - 1]) && trace[|trace| - 1].log == log
      ensures (forall e <- events :: !MayLose(e, m)) ==> trace[|trace| - 1].jumped == {}
    {
      ghost var v0 := ViewWith({});
      log, trace, deeds, ok := [], [Moment([], {}, v0, [])], [], true;
      for n := 0 to |events|
        invariant Valid() && ok && Rising(log) && |deeds| == n && History(m, events, deeds, trace, v0)
        invariant trace[n].log == log && IsNow(m, trace[n])
        invariant (forall e <- events :: !MayLose(e, m)) ==> trace[n].jumped == {}
      {
        ghost var deeds0 := deeds;
        ghost var now, deed;
        ok, log, now, deed := NextEvent(m, events[n], log, trace[n]);
        deeds := deeds + [deed];
        if !ok {
          HistoryEnds(m, events, deeds0, trace, v0, deed);
          assert deeds[..n] == deeds0;
          return;
        }
        HistoryOn(m, events, deeds0, trace, v0, deed, now);
        assert events[n] in events;
        trace := trace + [now];
      }
      assert deeds[..|deeds|] == deeds;
    }

    // So far all events have been carried out, by these deeds, from one moment to the next.
    static ghost predicate History(m: Node, events: seq<Act>, deeds: seq<Deed>, trace: seq<Moment>, v0: View) {
      && |deeds| <= |events| && |trace| == |deeds| + 1 && trace[0] == Moment([], {}, v0, [])
      && RightAll(events[..|deeds|], deeds, v0, true) && trace[|deeds|].view == AfterAll(deeds, v0)
      && forall i :: 0 <= i < |deeds| ==> Follows(events[i], deeds[i], m, trace[i], trace[i + 1])
    }

    static lemma {:induction false} HistoryOn(m: Node, events: seq<Act>, deeds: seq<Deed>, trace: seq<Moment>, v0: View,
        d: Deed, now: Moment)
      requires History(m, events, deeds, trace, v0) && |deeds| < |events|
      requires Follows(events[|deeds|], d, m, trace[|deeds|], now)
      ensures History(m, events, deeds + [d], trace + [now], v0)
    {
      var n := |deeds|;
      RightAllMore(events[..n], deeds, v0, events[n], d, true, []);
      assert events[..n + 1] == events[..n] + [events[n]] + [];
    }

    static lemma {:induction false} HistoryEnds(m: Node, events: seq<Act>, deeds: seq<Deed>, trace: seq<Moment>,
        v0: View, d: Deed)
      requires History(m, events, deeds, trace, v0) && |deeds| < |events|
      requires Right(events[|deeds|], d, trace[|deeds|].view, false)
      ensures RightAll(events, deeds + [d], v0, false) && AfterAll(deeds + [d], v0) == After(d, trace[|deeds|].view)
    {
      var n := |deeds|;
      RightAllMore(events[..n], deeds, v0, events[n], d, false, events[n + 1..]);
      assert events == events[..n] + [events[n]] + events[n + 1..];
    }

    method NextEvent(m: Node, e: Act, log: seq<nat>, ghost was: Moment)
      returns (ok: bool, log1: seq<nat>, ghost now: Moment, ghost deed: Deed)
      requires Valid() && m in refs && EventOk(e, m) && IsNow(m, was) && was.log == log && Rising(log)
      modifies this`version, list`nodes, heads, refs, list.head`next, list.tail`back
      ensures Valid() && Rising(log1) && log <= log1
      ensures Right(e, deed, was.view, ok) && ViewWith({}) == After(deed, was.view)
      ensures ok ==> IsNow(m, now) && now.log == log1 && Follows(e, deed, m, was, now)
      ensures ok && !MayLose(e, m) ==> now.jumped == was.jumped
    {
      if e.Walk? && e.w == m {
        ok, log1, now, deed := WalkOwn(m, e.maxNodes, e.maxVer, e.reply, log, was);
      } else {
        log1 := log;
        ok, deed := Perform(e, {m});
        assert m in {m};
        now := was.(view := ViewWith({}));
      }
    }

    // What a walk of m itself, which is over, means for the run.
    static lemma {:induction false} OwnCalls(s: Start, reply: (nat, Node) -> Reply, called: seq<nat>, calls: seq<Call>,
        delivered: seq<nat>, was: Moment, now: Moment)
      requires CalledFor(s, reply, called, calls) && Accepting(calls, |calls| - 1)
      requires delivered == if Refuses(calls) then called[..|calls| - 1] else called
      requires was.view.on == s.on && was.view.version == s.version
      requires Rising(was.log) && forall v <- was.log :: v <= s.upTo
      requires now.log == was.log + delivered && now.called == called
      ensures Handled(reply, calls, was, now) && Rising(now.log)
      ensures Elements(now.log) == Elements(was.log) + Elements(delivered)
    {
      HandedStart(s, reply, delivered, called, calls);
      Joined(was.log, delivered, s.upTo, s.maxVer);
      Joined(was.log, called, s.upTo, s.maxVer);
    }

    lemma {:induction false} OwnJump(m: Node, s: Start, maxNodes: int, answer: int, delivered: seq<nat>,
        called: seq<nat>, calls: seq<Call>, was: Moment, now: Moment)
      requires Answered(m, s, maxNodes, answer, delivered, called, calls, true)
      requires Elements(was.log) + was.jumped == s.given && was.view.version == s.version
      requires Elements(now.log) == Elements(was.log) + Elements(delivered) && now.view.on == On()
      requires now.jumped == if !Reappends(calls) then was.jumped else
        was.jumped + Skipped(Elements(now.log) + was.jumped, calls[|calls| - 1].node.version)
      ensures Jumped(calls, was, now) && m.given == Elements(now.log) + now.jumped
    {
      OwnGiven(m, s, maxNodes, answer, delivered, called, calls, Elements(was.log), was.jumped);
      if Reappends(calls) {
        SkippedIsBelow(Elements(now.log) + was.jumped, calls[|calls| - 1].node.version);
      }
    }

    // All that was handed over and not refused has been delivered, and the account says so.
    lemma {:induction false} OwnGiven(m: Node, s: Start, maxNodes: int, answer: int, delivered: seq<nat>,
        called: seq<nat>, calls: seq<Call>, log: set<nat>, jumped: set<nat>)
      requires Answered(m, s, maxNodes, answer, delivered, called, calls, true) && log + jumped == s.given
      ensures delivered == if Refuses(calls) then called[..|calls| - 1] else called
      ensures var given := log + Elements(delivered) + jumped;
        m.given == given + if Reappends(calls) then Skipped(given, calls[|calls| - 1].node.version) else {}
    {
      assert s.given + Elements(delivered) == log + Elements(delivered) + jumped;
    }

    static lemma {:induction false} LosingReply(w: Node, maxNodes: int, maxVer: nat, reply: (nat, Node) -> Reply,
        calls: seq<Call>, v: View)
      requires RightCalls(w, maxNodes, maxVer, reply, calls, v, true) && Reappends(calls)
      ensures var i, t := |calls| - 1, calls[|calls| - 1].node;
        reply(i, t).answer < 0 && Includes(reply(i, t).acts, Act.Append(t))
    {
      var n := |calls| - 1;
      var c, v1 := calls[n], AfterCalls(w, calls[..n], v);
      assert RightCall(w, maxVer, reply(n, c.node), c, v1, true);
      assert c.back && RightReply(w, c, v1);
      DoneIncluded(c.reply.acts, c.deeds, Presented(w, c.node, v1), true, Act.Append(c.node));
    }

    // A walk of m itself.
    method WalkOwn(m: Node, maxNodes: int, maxVer: nat, reply: (nat, Node) -> Reply, log: seq<nat>, ghost was: Moment)
      returns (ok: bool, log1: seq<nat>, ghost now: Moment, ghost deed: Deed)
      requires Valid() && m in refs && AlwaysAllowed(reply, {m}) && IsNow(m, was) && was.log == log && Rising(log)
      modifies this`version, list`nodes, heads, refs, list.head`next, list.tail`back
      ensures Valid() && Rising(log1) && log <= log1 && deed.act == Act.Walk(m, maxNodes, maxVer, reply)
      ensures Right(deed.act, deed, was.view, ok) && ViewWith({}) == After(deed, was.view)
      ensures ok ==> IsNow(m, now) && now.log == log1
      ensures ok ==> Handled(reply, deed.calls, was, now) && Jumped(deed.calls, was, now)
      ensures ok && !MayLose(deed.act, m) ==> now.jumped == was.jumped
    {
      ghost var s := Begin(m, maxVer);
      assert RefOk(m) && s.view == was.view;
      forall v | v in log ensures v <= s.upTo { assert v in Elements(log); }
      var answer, delivered;
      ghost var called, calls;
      answer, delivered, called, calls, ok := WalkChangeList(m, maxNodes, maxVer, reply, {m});
      deed := Deed(Act.Walk(m, maxNodes, maxVer, reply), calls);
      assert ViewWith({}) == ViewWith({m});
      log1 := log + delivered;
      now := Moment(log1, was.jumped, ViewWith({}), called);
      if ok {
        if Reappends(calls) {
          now := now.(jumped := was.jumped + Skipped(Elements(log1) + was.jumped, calls[|calls| - 1].node.version));
        }
        OwnGiven(m, s, maxNodes, answer, delivered, called, calls, Elements(log), was.jumped);
        OwnCalls(s, reply, called, calls, delivered, was, now);
        OwnJump(m, s, maxNodes, answer, delivered, called, calls, was, now);
        if Reappends(calls) {
          LosingReply(m, maxNodes, maxVer, reply, calls, s.view);
        }
      } else {
        HandedStart(s, reply, delivered, called, calls);
        Joined(log, delivered, s.upTo, maxVer);
      }
    }

    lemma SkippedIsBelow(given: set<nat>, bound: nat)
      ensures Skipped(given, bound) == Below(On(), bound, given)
    {
      forall v ensures v in Skipped(given, bound) <==> v in Below(On(), bound, given) {
        if v in Skipped(given, bound) {
          var h :| h in heads && h in list.nodes && h.version == v;
          assert h in On() && On()[h] == v;
        }
      }
    }

    static lemma {:induction false} HandedStart(s: Start, reply: (nat, Node) -> Reply, vs: seq<nat>, called: seq<nat>,
        calls: seq<Call>)
      requires CalledFor(s, reply, called, calls) && vs <= called
      ensures Handed(vs, s.upTo, s.maxVer)
    {
      forall v | v in vs ensures v in called { }
    }

    static lemma Joined(log: seq<nat>, vs: seq<nat>, from: nat, to: nat)
      requires Rising(log) && Handed(vs, from, to) && forall v <- log :: v <= from
      ensures Rising(log + vs) && Elements(log + vs) == Elements(log) + Elements(vs)
    {
      assert forall i :: 0 <= i < |log| ==> log[i] in log;
      assert forall i :: 0 <= i < |vs| ==> vs[i] in vs;
    }

    // ---- What can go wrong ----

    // A walk with a callback that appends anew what it gets, and always gives this answer.
    method WalkAppending(m: Node, maxVer: nat, answer: int)
      returns (delivered: seq<nat>, ghost called: seq<nat>, ghost calls: seq<Call>)
      requires Valid() && m in refs && m in list.nodes
      modifies this`version, list`nodes, heads, refs, list.head`next, list.tail`back
      ensures Valid() && m in list.nodes && Appended(calls) == |calls|
      ensures forall i {:trigger calls[i]} :: 0 <= i < |calls| ==>
        calls[i].reply.answer == answer && Acts(calls[i].deeds) == [Act.Append(calls[i].node)]
      ensures var s := old(Begin(m, maxVer));
        && Watched(s, calls, called, {}) && |called| == |calls| && Handed(called, s.upTo, maxVer) &&
            (forall v <- s.given :: v <= s.upTo)
        && (called != [] ==> FirstNew(s.current, s.given, called[0]) && Origin(s.on, s.version, calls, 0, called[0]))
        && Answered(m, s, 0, if calls == [] then 0 else answer, delivered, called, calls, true)
      ensures answer == 0 || calls == [] ==> forall v <- Current() :: v <= maxVer ==> v in m.given
    {
      var reply := (i: nat, t: Node) => Reply([Act.Append(t)], answer);
      var last, ok;
      ghost var s := Begin(m, maxVer);
      last, delivered, called, calls, ok := WalkChangeList(m, 0, maxVer, reply, {m});
      Plain(m, 0, maxVer, reply, calls, s.view, ok);
    }

    // A callback that appends anew what it gets, and accepts it: the walk goes on as long as
    // maxVer lets it.
    method Prolong(m: Node, a: Node, maxVer: nat) returns (delivered: seq<nat>)
      requires Valid() && m in refs && m in list.nodes && a in heads && a in list.nodes
      requires a.version !in m.given && a.version <= maxVer
      modifies this`version, list`nodes, heads, refs, list.head`next, list.tail`back
      ensures |delivered| > maxVer - old(version)
    {
      ghost var called, calls;
      ghost var s := Begin(m, maxVer);
      delivered, called, calls := WalkAppending(m, maxVer, 0);
      assert delivered == called;
      assert Followed(s, calls, called, a);
      assert !AppendedBy(calls, |calls|, a) ==> a.version in Current();
      assert calls != [] && called[0] in called;
      Overtaken(s, calls, called, m.given, maxVer);
    }

    // The node of the last call has been appended and has not been had since: its version
    // is above maxVer.
    lemma {:induction false} Overtaken(s: Start, calls: seq<Call>, called: seq<nat>, given: set<nat>, maxVer: nat)
      requires Valid() && Watched(s, calls, called, {}) && calls != [] && Appended(calls) == |calls|
      requires calls[|calls| - 1].node in heads && called != [] && given == s.given + Elements(called)
      requires Acts(calls[|calls| - 1].deeds) == [Act.Append(calls[|calls| - 1].node)]
      requires !DroppedBy(calls, |calls|, calls[|calls| - 1].node)
      requires forall v <- s.given :: v <= called[0]
      requires forall v <- Current() :: v <= maxVer ==> v in given
      ensures |calls| > maxVer - s.version
    {
      assert called[0] in called;
      var h := calls[|calls| - 1].node;
      assert AppendedBy(calls, |calls|, h);
      assert Followed(s, calls, called, h) && h.version in Current() && HeadOk(h);
    }

    // A callback that only appends what it gets stops nothing.
    static lemma {:induction false} PlainCall(w: Node, maxVer: nat, reply: Reply, c: Call, v: View, ok: bool)
      requires RightCall(w, maxVer, reply, c, v, ok) && reply.acts == [Act.Append(c.node)]
      ensures ok && Acts(c.deeds) == [Act.Append(c.node)] && Appends(Acts(c.deeds)) == 1
    {
      var v0, a := Presented(w, c.node, v), Act.Append(c.node);
      if RightAll([a], c.deeds, v0, true) {
        OneAct(a, c.deeds, v0, true);
      } else {
        OneAct(a, c.deeds, v0, false);
      }
      OneDeed(c.deeds[0]);
      assert c.node in After(Deed(a, []), v0).on && c.node in AfterAll(c.deeds, v0).on;
      assert !RightAll(reply.acts, c.deeds, v0, false);
    }

    static lemma {:induction false} Plain(w: Node, maxNodes: int, maxVer: nat, reply: (nat, Node) -> Reply,
        calls: seq<Call>, v: View, ok: bool)
      requires RightCalls(w, maxNodes, maxVer, reply, calls, v, ok)
      requires forall i, t :: reply(i, t).acts == [Act.Append(t)]
      ensures ok && Appended(calls) == |calls|
      ensures forall i {:trigger calls[i]} :: 0 <= i < |calls| ==> Acts(calls[i].deeds) == [Act.Append(calls[i].node)]
    {
      forall i {:trigger calls[i]} | 0 <= i < |calls|
        ensures Acts(calls[i].deeds) == [Act.Append(calls[i].node)] && Appends(Acts(calls[i].deeds)) == 1
        ensures i == |calls| - 1 ==> ok
      {
        PlainCall(w, maxVer, reply(i, calls[i].node), calls[i], AfterCalls(w, calls[..i], v), ok || i < |calls| - 1);
      }
      OneEach(calls);
    }

    static lemma {:induction false} OneEach(calls: seq<Call>)
      requires forall i {:trigger calls[i]} :: 0 <= i < |calls| ==> Appends(Acts(calls[i].deeds)) == 1
      ensures Appended(calls) == |calls|
    {
      if calls != [] {
        OneEach(calls[..|calls| - 1]);
      }
    }

    // A callback that appends anew what it gets, and refuses it: any change that was ahead but
    // the first has not been handed over, and is not ahead any more.
    method Lose(m: Node, b: Node) returns (ghost called: seq<nat>)
      requires Valid() && m in refs && m in list.nodes && b in heads && b in list.nodes
      requires b.version !in m.given && !FirstNew(Current(), m.given, b.version)
      modifies this`version, list`nodes, heads, refs, list.head`next, list.tail`back
      ensures Valid() && heads == old(heads) && refs == old(refs) && m in list.nodes
      ensures b in list.nodes && b.version == old(b.version) && b.version !in called && b !in Ahead(m)
    {
      var delivered;
      ghost var calls;
      ghost var s := Begin(m, version);
      assert HeadOk(b);
      delivered, called, calls := WalkAppending(m, version, -1);
      assert Followed(s, calls, called, b) && |calls| <= 1;
      AheadIsNew(m);
    }

    // Such a run exists.
    static method LossExample(data: Data, compare: (Data, Data) -> int)
      returns (c: ChangeList, m: Node, b: Node, ghost called: seq<nat>)
      ensures c.Valid() && m in c.refs && m in c.list.nodes && b in c.heads && b in c.list.nodes
      ensures b.version !in called && b !in c.Ahead(m)
    {
      var a;
      c, m, a, b := TwoChanges(data, compare);
      assert a.version in c.Current();
      called := c.Lose(m, b);
    }

    static method TwoChanges(data: Data, compare: (Data, Data) -> int)
      returns (c: ChangeList, m: Node, a: Node, b: Node)
      ensures c.Valid() && fresh(c) && fresh(c.list) && fresh({c.list.head, c.list.tail, m, a, b})
      ensures c.heads == {a, b} && c.refs == {m} && c.list.nodes == {m, a, b}
      ensures m.given == {} && a.version == 1 && b.version == 2
    {
      c := new ChangeList(data, compare);
      m, a, b := c.Members(data);
      c.FirstChange(m, a);
      var v := c.Append(b);
    }

    // Two nodes of a tree and a reference join an empty list.
    method Members(data: Data) returns (m: Node, a: Node, b: Node)
      requires Valid() && heads == {} && refs == {} && list.nodes == {}
      modifies this`heads, this`refs
      ensures Valid() && heads == {a, b} && refs == {m} && a != b && fresh({m, a, b})
    {
      m := new Node(data);
      a := new Node(data);
      b := new Node(data);
      Enroll(a, false, false);
      Enroll(b, false, false);
      EnrollRef(m);
    }

    method FirstChange(m: Node, a: Node)
      requires Valid() && a in heads && m in refs && list.nodes == {}
      modifies this`version, list`nodes, m, a, list.head`next, list.tail`back
      ensures Valid() && list.nodes == {m, a} && m.given == {} && a.version == version == old(version) + 1
    {
      Open(m);
      var v := Append(a);
    }

    // ---- Renumbering ----

    // The nodes of the tree that come before a place.
    ghost function Behind(at: real): set<Node>
      reads this`heads, list`nodes, heads`at
    {
      set h | h in heads && h in list.nodes && h.at < at
    }

    lemma BehindGrows(lo: real, hi: real)
      requires lo <= hi
      ensures |Behind(lo)| <= |Behind(hi)|
    {
      SubsetSize(Behind(lo), Behind(hi));
    }

    lemma BehindNext(h: Node, hi: real)
      requires h in heads && h in list.nodes && h.at < hi
      ensures |Behind(h.at)| < |Behind(hi)|
    {
      SubsetSize(Behind(h.at) + {h}, Behind(hi));
    }

    ghost function UpToNumber(k: nat): (s: set<nat>)
      ensures forall v: nat :: v in s <==> 1 <= v <= k
    {
      if k == 0 then {} else UpToNumber(k - 1) + {k}
    }

    lemma PassNode(t: Node, at: real)
      requires list.Valid() && t in list.nodes && t.at < at
      requires forall x <- list.nodes :: t.at < x.at <==> at <= x.at
      ensures forall x <- list.nodes :: x.at < at <==> x == t || x.at < t.at
      ensures |Behind(at)| == |Behind(t.at)| + if t in heads then 1 else 0
    {
      forall x | x in list.nodes ensures x.at < at <==> x == t || x.at < t.at {
        assert list.NextOk(t) && list.Apart(t, x);
      }
      assert Behind(at) == Behind(t.at) + if t in heads then {t} else {};
    }

    // A node's number is its place among the nodes; a marker's is how many are behind it.
    ghost predicate Numbered(n: Node)
      reads this`heads, list`nodes, heads`at, n`at, n`version, n`given, n`upTo
    {
      var k := |Behind(n.at)|;
      if n in heads then n.version == k + 1
      else n.version == n.upTo == k && n.given == UpToNumber(k)
    }

    // One turn of the renumbering.
    method Number(t: Node, n: nat) returns (n1: nat)
      requires t in list.nodes && (t in heads) == !t.marker && n == |Behind(t.at)|
      modifies t`version, t`given, t`upTo
      ensures Numbered(t) && n1 == n + if t in heads then 1 else 0
    {
      n1 := n;
      if t.marker {
        t.version := n;
        Give(t, UpToNumber(n), n);
      } else {
        n1 := n + 1;
        t.version := n1;
      }
    }

    // The place after t: that of the next node, or the end of the list.
    ghost function Place(t: Node?): real
      reads t, list.tail`at
    {
      if t == null then list.tail.at else t.at
    }

    // Everything before a place has its number, and n nodes are there.
    ghost predicate NumberedUpTo(at: real, n: nat)
      reads this`heads, list`nodes, list.nodes, heads`at
    {
      n == |Behind(at)| && forall x {:trigger Numbered(x)} :: x in list.nodes && x.at < at ==> Numbered(x)
    }

    ghost predicate Typed()
      reads this`heads, list`nodes, list.nodes`marker
    {
      forall x <- list.nodes :: (x in heads) == !x.marker
    }

    method NumberNext(t: Node, n: nat) returns (next: Node?, n1: nat)
      requires list.Valid() && Typed() && t in list.nodes && NumberedUpTo(t.at, n)
      modifies t`version, t`given, t`upTo
      ensures NumberedUpTo(Place(next), n1) && Place(next) > t.at
      ensures next != null ==> next in list.nodes
      ensures forall x <- list.nodes :: x.at < Place(next) <==> x == t || x.at < t.at
    {
      assert list.Within(t);
      n1 := Number(t, n);
      label L:
      next := list.GetNext(t);
      assert forall x <- list.nodes :: list.Within(x);
      PassNode(t, Place(next));
      forall x | x in list.nodes && x.at < Place(next) ensures Numbered(x) {
        if x != t { assert old(Numbered(x)); }
      }
    }

    // std_radical_procverwrap: new versions for everything on the list. It leaves the
    // table's version to the caller.
    method ProcVerWrap() returns (n: nat)
      requires Valid()
      modifies list.nodes`version, list.nodes`given, list.nodes`upTo
      ensures list.Valid() && NumberedUpTo(list.tail.at, n)
    {
      forall x | x in list.nodes ensures (x in heads) == !x.marker {
        assert MemberOk(x) && (x in heads ==> HeadOk(x)) && (x in refs ==> RefOk(x));
      }
      var t := list.GetFirst();
      n := 0;
      assert forall x <- list.nodes :: list.Within(x);
      assert Behind(Place(t)) == {};
      ghost var rest := list.nodes;
      while t != null
        invariant list.Valid() && Typed() && NumberedUpTo(Place(t), n)
        invariant t != null ==> t in list.nodes
        invariant forall x <- list.nodes :: x in rest || x.at < Place(t)
        invariant t != null ==> t in rest
        decreases rest
      {
        rest := rest - {t};
        t, n := NumberNext(t, n);
      }
    }

    // With its numbers as versions, the list is in order and every marker's account is right.
    lemma NumbersAreVersions()
      requires list.Valid() && Kinds() && (forall x <- list.nodes :: MemberOk(x)) && NumberedUpTo(list.tail.at, version)
      ensures Versions()
      ensures forall x <- list.nodes :: if x in heads then 0 < x.version <= version
        else x.version == x.upTo <= version && x.given == UpToNumber(x.upTo)
    {
      forall x | x in list.nodes
        ensures Numbered(x)
        ensures if x in heads then 0 < x.version <= version
          else x.version == x.upTo <= version && x.given == UpToNumber(x.upTo)
      {
        assert list.Within(x);
        if x in heads { BehindNext(x, list.tail.at); } else { BehindGrows(x.at, list.tail.at); }
      }
      forall g, h | g in heads && h in heads && g in list.nodes && h in list.nodes ensures Increasing(g, h) {
        if g.at < h.at { BehindNext(g, h.at); }
      }
      forall m, h | m in refs && h in heads && m in list.nodes && h in list.nodes ensures Accounted(m, h) {
        assert list.NextOk(m) && list.Apart(m, h);
        if m.at < h.at { BehindGrows(m.at, h.at); } else { BehindNext(h, m.at); }
      }
    }

    // The renumbering as its caller completes it: the table's version becomes the number of changes.
    method Renumber()
      requires Valid()
      modifies this`version, list.nodes`version, list.nodes`given, list.nodes`upTo
      ensures Valid() && NumberedUpTo(list.tail.at, version)
    {
      forall x | x in list.nodes ensures MemberOk(x) { }
      var n := ProcVerWrap();
      version := n;
      NumbersAreVersions();
      forall h | h in heads ensures HeadOk(h) { assert old(HeadOk(h)); }
      forall m | m in refs ensures RefOk(m) { assert old(RefOk(m)) && (m in list.nodes ==> MemberOk(m)); }
    }
  }
}

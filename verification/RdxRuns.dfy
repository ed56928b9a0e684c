// Any sequence of insertions, removals and version changes on a radix table.
module RdxRuns {
  import opened RdxBits
  import opened RdxTable
  import RdxMemory
  import RdxNext
  import RdxShape
  import RdxVersions

  // What a caller may ask for; mem1 and mem2 are the answers of the two allocations that an
  // insertion may make.
  datatype Event =
    | Insert(h: Head, bitlen: nat, mem1: bool, mem2: bool)
    | Remove(h: Head)
    | SetVersion(h: Head)

  ghost function Heads(events: seq<Event>): set<Head> {
    set e | e in events :: e.h
  }

  // What an event that has been carried out means for the entries.
  ghost function Effect(e: Event, m: map<Bits, Head>): map<Bits, Head> {
    match e
    case Insert(h, bitlen, _, _) => if bitlen <= 8 * |h.addr| then m[Prefix(h.addr, bitlen) := h] else m
    case Remove(h) => map k | k in m && m[k] != h :: m[k]
    case SetVersion(_) => m
  }

  // What events mean for the entries; outs tells which of them have been carried out.
  ghost function Effects(events: seq<Event>, outs: seq<bool>, m: map<Bits, Head>): map<Bits, Head>
    requires |outs| == |events|
  {
    if events == [] then m else
      var n := |events| - 1;
      var m1 := Effects(events[..n], outs[..n], m);
      if outs[n] then Effect(events[n], m1) else m1
  }

  // The table's version and those of heads.
  datatype Stamps = Stamps(version: nat, heads: map<Head, nat>)

  ghost function StampsOf(t: Table, heads: set<Head>): Stamps
    reads t`version, heads`version
  {
    Stamps(t.version, map h | h in heads :: h.version)
  }

  // What an event means for the versions: a version change gives the head the next one; in
  // debug mode a head that comes in is cleared, even if in the end it is not stored.
  ghost function Stamped(t: Table, e: Event, out: bool, m: map<Bits, Head>, s: Stamps): Stamps
    reads t`debug
  {
    var ver := s.version + if e.SetVersion? && out then 1 else 0;
    if e.h in s.heads then Stamps(ver, s.heads[e.h := NewVersion(t, e, out, m, ver, s.heads[e.h])])
    else s.(version := ver)
  }

  // The version of the event's head, which has been v, when the table's version is ver.
  ghost function NewVersion(t: Table, e: Event, out: bool, m: map<Bits, Head>, ver: nat, v: nat): nat
    reads t`debug
  {
    match e
    case Insert(h, _, _, _) => if t.debug && New(t, e, m.Values) then 0 else v
    case Remove(_) => v
    case SetVersion(h) => if out then ver else v
  }

  ghost function AllStamped(t: Table, events: seq<Event>, outs: seq<bool>, m: map<Bits, Head>, s: Stamps): Stamps
    requires |outs| == |events|
    reads t`debug
  {
    if events == [] then s else
      var n := |events| - 1;
      Stamped(t, events[n], outs[n], Effects(events[..n], outs[..n], m), AllStamped(t, events[..n], outs[..n], m, s))
  }

  // How many version changes have been carried out.
  ghost function Changes(events: seq<Event>, outs: seq<bool>): nat
    requires |outs| == |events|
  {
    if events == [] then 0 else
      var n := |events| - 1;
      Changes(events[..n], outs[..n]) + if events[n].SetVersion? && outs[n] then 1 else 0
  }

  lemma {:induction false} VersionIs(t: Table, events: seq<Event>, outs: seq<bool>, m: map<Bits, Head>, s: Stamps)
    requires |outs| == |events|
    ensures AllStamped(t, events, outs, m, s).version == s.version + Changes(events, outs)
    ensures AllStamped(t, events, outs, m, s).heads.Keys == s.heads.Keys
  {
    if events != [] {
      var n := |events| - 1;
      VersionIs(t, events[..n], outs[..n], m, s);
    }
  }

  // The event gives head h a version, or may clear it.
  ghost predicate Touches(e: Event, out: bool, h: Head) {
    e.h == h && ((e.SetVersion? && out) || e.Insert?)
  }

  // A head has the table's version right after the last change carried out for it, or the
  // version that it came in with.
  lemma {:induction false} LastVersion(t: Table, events: seq<Event>, outs: seq<bool>, m: map<Bits, Head>, s: Stamps,
      h: Head, i: int)
    requires |outs| == |events| && -1 <= i < |events| && h in s.heads
    requires i >= 0 ==> events[i] == SetVersion(h) && outs[i]
    requires forall j :: i < j < |events| ==> !Touches(events[j], outs[j], h)
    ensures var s1 := AllStamped(t, events, outs, m, s);
      h in s1.heads && s1.heads[h] ==
        if i < 0 then s.heads[h] else s.version + Changes(events[..i + 1], outs[..i + 1])
  {
    if events != [] {
      var n := |events| - 1;
      VersionIs(t, events[..n], outs[..n], m, s);
      if i < n {
        LastVersion(t, events[..n], outs[..n], m, s, h, i);
        assert !Touches(events[n], outs[n], h);
        assert events[..n][..i + 1] == events[..i + 1] && outs[..n][..i + 1] == outs[..i + 1];
      } else {
        assert events[..i + 1] == events && outs[..i + 1] == outs;
      }
    }
  }

  // The head is not stored, and its key can be.
  ghost predicate New(t: Table, e: Event, stored: set<Head>) {
    e.Insert? && e.h !in stored && t.Wide(e.h.addr) && e.bitlen <= t.maxaddrlen
  }

  // When an event is carried out. A head that is not stored comes in if its key is new and
  // there is memory; one that is stored may be removed or get a new version.
  ghost predicate Outcome(t: Table, e: Event, out: bool, m: map<Bits, Head>) {
    match e
    case Insert(h, bitlen, mem1, mem2) =>
      out <==>
        && New(t, e, m.Values) && Prefix(h.addr, bitlen) !in m
        && RdxMemory.Enough(m.Keys, Prefix(h.addr, bitlen), mem1, mem2)
    case _ => out <==> e.h in m.Values
  }

  // From event n on, no head with a version comes in without being cleared.
  ghost predicate Cleared(t: Table, events: seq<Event>, n: nat)
    reads t`debug, Heads(events)`version
  {
    t.debug || forall i :: n <= i < |events| && events[i].Insert? ==>
      && events[i].h in Heads(events) && events[i].h.version == 0
      && forall j :: n <= j < i ==> !Versioned(events[j], events[i].h)
  }

  ghost predicate Versioned(e: Event, h: Head) {
    e.SetVersion? && e.h == h
  }

  lemma OneMoreValue(m: map<Bits, Head>, k: Bits, h: Head)
    requires k !in m
    ensures m[k := h].Values == m.Values + {h}
  {
    assert m[k := h][k] == h;
    forall g | g in m.Values ensures g in m[k := h].Values {
      var p :| p in m && m[p] == g;
      assert m[k := h][p] == g;
    }
  }

  lemma OneValueLess(m: map<Bits, Head>, h: Head, m1: map<Bits, Head>)
    requires exists k :: k in m && m[k] == h && m1 == m - {k}
    requires h !in m1.Values
    ensures m1 == Effect(Remove(h), m) && m1.Values == m.Values - {h}
  {
    forall p | p in m1 ensures m1[p] != h { assert m1[p] in m1.Values; }
    forall g | g in m.Values && g != h ensures g in m1.Values {
      var p :| p in m && m[p] == g;
      assert m1[p] == g;
    }
  }

  lemma IsStored(t: Table, h: Head)
    requires t.Content() && h in t.entries.Values
    ensures RdxNext.Stored(t, h) && h.rtn.rth == h
  {
    var k :| k in t.entries && t.entries[k] == h;
    assert t.ListedOk(k);
  }

  // An event is carried out, if it may be; stored are the heads in the table.
  method Do(t: Table, e: Event, stored: set<Head>) returns (out: bool, stored1: set<Head>)
    requires t.Valid() && stored == t.entries.Values
    modifies t, t.nodes, {e.h}
    ensures t.Valid() && stored1 == t.entries.Values && fresh(t.nodes - old(t.nodes)) && t.debug == old(t.debug)
    ensures Outcome(t, e, out, old(t.entries))
    ensures t.entries == if out then Effect(e, old(t.entries)) else old(t.entries)
    ensures t.version == old(t.version) + if e.SetVersion? && out then 1 else 0
    ensures e.h.version == NewVersion(t, e, out, old(t.entries), t.version, old(e.h.version))
    ensures stored1 <= stored + {e.h}
    ensures !e.SetVersion? && old(e.h.version) == 0 ==> e.h.version == 0
    ensures old(t.Versions()) && (e.Insert? && !t.debug ==> old(e.h.version) == 0) ==> t.Versions()
  {
    out, stored1 := false, stored;
    match e {
      case Insert(h, bitlen, _, _) =>
        if h !in stored && t.Wide(h.addr) && bitlen <= t.maxaddrlen {
          out := DoInsert(t, e);
          if out { stored1 := stored + {h}; }
        }
      case Remove(h) =>
        if h in stored {
          DoRemove(t, h);
          out, stored1 := true, stored - {h};
        }
      case SetVersion(h) =>
        if h in stored {
          DoVersion(t, h);
          out := true;
        }
    }
  }

  method DoInsert(t: Table, e: Event) returns (out: bool)
    requires t.Valid() && New(t, e, t.entries.Values)
    modifies t, t.nodes, {e.h}
    ensures t.Valid() && fresh(t.nodes - old(t.nodes)) && t.debug == old(t.debug)
    ensures Outcome(t, e, out, old(t.entries))
    ensures t.entries == if out then Effect(e, old(t.entries)) else old(t.entries)
    ensures t.entries.Values == old(t.entries.Values) + if out then {e.h} else {}
    ensures t.version == old(t.version) && e.h.version == if t.debug then 0 else old(e.h.version)
    ensures old(t.Versions()) && (t.debug || old(e.h.version) == 0) ==> t.Versions()
  {
    RdxMemory.RoomIsEnough(t, Prefix(e.h.addr, e.bitlen), e.mem1, e.mem2);
    var r := t.Insert(e.h, e.bitlen, e.mem1, e.mem2);
    out := r == e.h;
    Came(old(t.entries), t.entries, Prefix(e.h.addr, e.bitlen), e.h, r);
  }

  lemma Came(m0: map<Bits, Head>, m: map<Bits, Head>, k: Bits, h: Head, r: Head?)
    requires h !in m0.Values
    requires if k in m0 then r == m0[k] && m == m0 else if r == null then m == m0 else r == h && m == m0[k := h]
    ensures r == h <==> k !in m0 && m == m0[k := h]
    ensures m.Values == m0.Values + if r == h then {h} else {}
  {
    if k in m0 { assert m0[k] in m0.Values; } else { OneMoreValue(m0, k, h); }
    if m == m0[k := h] { assert m[k] == h && h in m.Values; }
  }

  method DoRemove(t: Table, h: Head)
    requires t.Valid() && h in t.entries.Values
    modifies t, t.nodes
    ensures t.Valid() && t.nodes <= old(t.nodes) && t.debug == old(t.debug) && t.version == old(t.version)
    ensures t.entries == Effect(Remove(h), old(t.entries)) && t.entries.Values == old(t.entries.Values) - {h}
    ensures old(t.Versions()) ==> t.Versions()
  {
    IsStored(t, h);
    t.Remove(h);
    OneValueLess(old(t.entries), h, t.entries);
  }

  // The events have been carried out as outs says, which has led from m0 to m, and to these
  // versions.
  ghost predicate Led(t: Table, events: seq<Event>, outs: seq<bool>, m0: map<Bits, Head>, m: map<Bits, Head>,
      s0: Stamps, s: Stamps)
    reads t`debug
  {
    && |outs| == |events| && m == Effects(events, outs, m0) && s == AllStamped(t, events, outs, m0, s0)
    && forall i :: 0 <= i < |events| ==> Outcome(t, events[i], outs[i], Effects(events[..i], outs[..i], m0))
  }

  lemma {:induction false} LedOn(t: Table, events: seq<Event>, outs: seq<bool>, m0: map<Bits, Head>,
      m: map<Bits, Head>, s0: Stamps, s: Stamps, e: Event, out: bool)
    requires Led(t, events, outs, m0, m, s0, s) && Outcome(t, e, out, m)
    ensures Led(t, events + [e], outs + [out], m0, if out then Effect(e, m) else m, s0, Stamped(t, e, out, m, s))
  {
    var events1, outs1, n := events + [e], outs + [out], |events|;
    assert events1[..n] == events && outs1[..n] == outs;
    forall i | 0 <= i <= n ensures Outcome(t, events1[i], outs1[i], Effects(events1[..i], outs1[..i], m0)) {
      assert events1[..i] == events[..i] && outs1[..i] == outs[..i];
    }
  }

  lemma StampsAre(t: Table, e: Event, out: bool, m: map<Bits, Head>, s: Stamps, heads: set<Head>)
    requires s.heads.Keys == heads && e.h in heads
    requires t.version == s.version + if e.SetVersion? && out then 1 else 0
    requires forall h <- heads ::
      h.version == if h == e.h then NewVersion(t, e, out, m, t.version, s.heads[h]) else s.heads[h]
    ensures StampsOf(t, heads) == Stamped(t, e, out, m, s)
  {
  }

  method Next(t: Table, events: seq<Event>, n: nat, stored: set<Head>, ghost heads: set<Head>)
    returns (out: bool, stored1: set<Head>)
    requires t.Valid() && stored == t.entries.Values && n < |events| && Heads(events) <= heads
    modifies t, t.nodes, Heads(events)
    ensures t.Valid() && stored1 == t.entries.Values && fresh(t.nodes - old(t.nodes))
    ensures Outcome(t, events[n], out, old(t.entries)) && stored1 <= stored + Heads(events)
    ensures t.entries == if out then Effect(events[n], old(t.entries)) else old(t.entries)
    ensures t.debug == old(t.debug)
    ensures StampsOf(t, heads) == Stamped(t, events[n], out, old(t.entries), old(StampsOf(t, heads)))
    ensures old(t.Versions() && Cleared(t, events, n)) ==> t.Versions() && Cleared(t, events, n + 1)
  {
    assert events[n] in events && events[n].h in Heads(events);
    out, stored1 := Do(t, events[n], stored);
    StampsAre(t, events[n], out, old(t.entries), old(StampsOf(t, heads)), heads);
    if old(t.Versions() && Cleared(t, events, n)) && !t.debug {
      forall i | n + 1 <= i < |events| && events[i].Insert? ensures events[i].h.version == 0 {
        assert events[i] in events && !Versioned(events[n], events[i].h);
      }
    }
  }

  method DoVersion(t: Table, h: Head)
    requires t.Valid() && h in t.entries.Values
    modifies t`version, h`version, t.nodes`version
    ensures t.Valid() && (old(t.Versions()) ==> t.Versions())
    ensures h.version == t.version == old(t.version) + 1
  {
    IsStored(t, h);
    var ver := RdxVersions.SetVersion(t, h);
  }

  lemma TakeMore<T>(s: seq<T>, n: nat)
    requires n < |s|
    ensures s[..n] + [s[n]] == s[..n + 1]
  {
  }

  method Carry(t: Table, events: seq<Event>, stored0: set<Head>) returns (outs: seq<bool>, stored: set<Head>)
    requires t.Valid() && stored0 == t.entries.Values
    modifies t, t.nodes, Heads(events)
    ensures t.Valid() && stored == t.entries.Values && fresh(t.nodes - old(t.nodes))
    ensures stored <= stored0 + Heads(events) && t.debug == old(t.debug)
    ensures var heads := Heads(events) + stored0;
      Led(t, events, outs, old(t.entries), t.entries, old(StampsOf(t, heads)), StampsOf(t, heads))
    ensures old(t.Versions() && Cleared(t, events, 0)) ==> t.Versions()
  {
    outs, stored := [], stored0;
    ghost var m0, clear := t.entries, t.Versions() && Cleared(t, events, 0);
    ghost var heads := Heads(events) + stored0;
    ghost var s0 := StampsOf(t, heads);
    for n := 0 to |events|
      invariant t.Valid() && stored == t.entries.Values && fresh(t.nodes - old(t.nodes))
      invariant stored <= stored0 + Heads(events) && t.debug == old(t.debug)
      invariant Led(t, events[..n], outs, m0, t.entries, s0, StampsOf(t, heads))
      invariant clear ==> t.Versions() && Cleared(t, events, n)
    {
      ghost var m, s := t.entries, StampsOf(t, heads);
      var out;
      out, stored := Next(t, events, n, stored, heads);
      LedOn(t, events[..n], outs, m0, m, s0, s, events[n], out);
      TakeMore(events, n);
      outs := outs + [out];
    }
    assert events[..|events|] == events;
  }

  // Any run. The table stays valid; its entries are what the events that were carried out
  // make of them, and so are its version and those of the heads; its shape is the one that its
  // keys have; nothing is lost of what was allocated; and versions keep bounding what is below
  // if heads come in cleared.
  method Run(t: Table, events: seq<Event>, stored0: set<Head>) returns (outs: seq<bool>, stored: set<Head>)
    requires t.Valid() && stored0 == t.entries.Values
    modifies t, t.nodes, Heads(events)
    ensures t.Valid() && stored == t.entries.Values && fresh(t.nodes - old(t.nodes))
    ensures stored <= stored0 + Heads(events) && t.debug == old(t.debug)
    ensures var heads := Heads(events) + stored0;
      Led(t, events, outs, old(t.entries), t.entries, old(StampsOf(t, heads)), StampsOf(t, heads))
    ensures old(t.Versions() && Cleared(t, events, 0)) ==> t.Versions()
    ensures t.root != null ==> t.root in t.nodes
    ensures RdxShape.Represents(RdxShape.Shape(t, t.root), t.entries.Keys)
    ensures t.inodes == t.nmalloc - t.nfree <= if t.entries == map[] then 0 else 2 * |t.entries| - 1
  {
    outs, stored := Carry(t, events, stored0);
    RdxShape.TableShape(t);
    RdxShape.Accounting(t);
  }

  // Nothing of one table and its future heads is part of the other.
  ghost predicate Apart(t: Table, es: seq<Event>, u: Table, fs: seq<Event>)
    reads t`nodes, t`entries, u`nodes, u`entries
  {
    && t != u && t.nodes !! u.nodes
    && t.entries.Values + Heads(es) !! u.entries.Values + Heads(fs)
  }

  // A run leaves another table as it is.
  method RunBeside(t: Table, es: seq<Event>, ts: set<Head>, ghost u: Table) returns (outs: seq<bool>)
    requires t.Valid() && ts == t.entries.Values && u.Valid()
    requires t != u && t.nodes !! u.nodes && u.entries.Values !! Heads(es)
    modifies t, t.nodes, Heads(es)
    ensures t.Valid() && u.Valid() && u.entries == old(u.entries) && u.nodes == old(u.nodes)
    ensures fresh(t.nodes - old(t.nodes)) && t.entries.Values <= ts + Heads(es)
    ensures |outs| == |es| && t.entries == Effects(es, outs, old(t.entries))
  {
    var stored;
    outs, stored := Carry(t, es, ts);
  }

  // Two runs that end with the same keys end with the same tree.
  method TwoRuns(t: Table, es: seq<Event>, ts: set<Head>, u: Table, fs: seq<Event>, us: set<Head>)
    returns (touts: seq<bool>, uouts: seq<bool>)
    requires t.Valid() && u.Valid() && Apart(t, es, u, fs) && ts == t.entries.Values && us == u.entries.Values
    modifies t, t.nodes, Heads(es), u, u.nodes, Heads(fs)
    ensures t.Valid() && u.Valid() && |touts| == |es| && |uouts| == |fs|
    ensures t.entries == Effects(es, touts, old(t.entries)) && u.entries == Effects(fs, uouts, old(u.entries))
    ensures (t.root != null ==> t.root in t.nodes) && (u.root != null ==> u.root in u.nodes)
    ensures t.entries.Keys == u.entries.Keys ==> RdxShape.Shape(t, t.root) == RdxShape.Shape(u, u.root)
  {
    touts := RunBeside(t, es, ts, u);
    uouts := RunBeside(u, fs, us, t);
    RdxShape.TableShape(t);
    RdxShape.TableShape(u);
    if t.entries.Keys == u.entries.Keys {
      RdxShape.CanonicalShape(t, u);
    }
  }
}

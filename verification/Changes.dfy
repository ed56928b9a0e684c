// What the change list is for: the changes on it, and what is done with them, without the
// links and places that it is made of.
module Changes {
  import opened Llist

  // What can be done to the list. In a walk, reply(i, t) is what the callback does when its
  // i-th call is for node t: it acts on the list, walks included, and answers.
  datatype Act = Append(h: Node) | Drop(h: Node) | Open(m: Node) | OpenAfter(after: Node, m: Node) | Close(m: Node) |
    Walk(w: Node, maxNodes: int, maxVer: nat, reply: (nat, Node) -> Reply)
  datatype Reply = Reply(acts: seq<Act>, answer: int)

  // One call of a walk's callback: for the change to this node, how it replied, what came of
  // it, and whether the walk has come back from it, with its answer. In a deed that is a walk,
  // there have been further calls.
  datatype Call = Call(node: Node, reply: Reply, deeds: seq<Deed>, back: bool)
  datatype Deed = Deed(act: Act, calls: seq<Call>)

  // The changes with their versions, the table's version, and for each marker on the list the
  // versions that its walker is done with.
  datatype View = View(on: map<Node, nat>, version: nat, given: map<Node, set<nat>>)

  // ---- What deeds do ----

  ghost function After(d: Deed, v: View): View
    decreases d
  {
    match d.act
    case Append(h) => v.(on := v.on[h := v.version + 1], version := v.version + 1)
    case Drop(h) => v.(on := v.on - {h})
    case Open(m) => v.(given := v.given[m := {}])
    case OpenAfter(after, m) => if after in v.given then v.(given := v.given[m := v.given[after]]) else v
    case Close(m) => v.(given := v.given - {m})
    case Walk(w, _, _, _) => AfterCalls(w, d.calls, v)
  }

  ghost function AfterAll(deeds: seq<Deed>, v: View): View
    decreases deeds
  {
    if deeds == [] then v else AfterAll(deeds[1..], After(deeds[0], v))
  }

  ghost function AfterCalls(w: Node, calls: seq<Call>, v: View): View
    decreases calls
  {
    if calls == [] then v else
      var n := |calls| - 1; AfterCall(w, calls[n], AfterCalls(w, calls[..n], v))
  }

  // The walker of w gets the change to h.
  ghost function Presented(w: Node, h: Node, v: View): View {
    if w in v.given && h in v.on then v.(given := v.given[w := v.given[w] + {v.on[h]}]) else v
  }

  // If it refuses the change, it is done with what it was done with before, and with what is
  // below the version that the node has by then.
  ghost function AfterCall(w: Node, c: Call, v: View): View
    decreases c
  {
    var v1 := AfterAll(c.deeds, Presented(w, c.node, v));
    if c.back && c.reply.answer < 0 && c.node in v1.on && w in v.given then
      v1.(given := v1.given[w := v.given[w] + Below(v1.on, v1.on[c.node], v.given[w])])
    else v1
  }

  // The versions below a bound that are not among those given.
  ghost function Below(on: map<Node, nat>, bound: nat, given: set<nat>): set<nat> {
    set h | h in on && on[h] < bound && on[h] !in given :: on[h]
  }

  // ---- Which deeds are right ----

  // h has the least version that is new to the walker of w.
  ghost predicate Next(v: View, w: Node, h: Node) {
    && w in v.given && h in v.on && v.on[h] !in v.given[w]
    && forall g <- v.on :: v.on[g] in v.given[w] || v.on[h] <= v.on[g]
  }

  // Deed d is act a as it goes from v on; ok is false when an assertion of the source stops
  // the program. Only these do: a marker that is not on the list is to be followed or walked,
  // or a node that is refused is not on it.
  ghost predicate Right(a: Act, d: Deed, v: View, ok: bool)
    decreases d
  {
    && d.act == a
    && match a
      case OpenAfter(after, _) => d.calls == [] && (ok <==> after in v.given)
      case Walk(w, maxNodes, maxVer, reply) =>
        if w in v.given then
          RightCalls(w, maxNodes, maxVer, reply, d.calls, v, ok) && (ok ==> Over(w, maxNodes, maxVer, d.calls, v))
        else d.calls == [] && !ok
      case _ => d.calls == [] && ok
  }

  // All acts are done, or the last deed is the one that stopped the program.
  ghost predicate RightAll(acts: seq<Act>, deeds: seq<Deed>, v: View, ok: bool)
    decreases deeds
  {
    if deeds == [] then ok && acts == [] else
      && acts != []
      && if !ok && |deeds| == 1 then Right(acts[0], deeds[0], v, false) else
        Right(acts[0], deeds[0], v, true) && RightAll(acts[1..], deeds[1..], After(deeds[0], v), ok)
  }

  // The calls of a walk, as long as it goes on: each is for the change with the least new
  // version, up to maxVer; only the last answer may be other than 0.
  ghost predicate RightCalls(w: Node, maxNodes: int, maxVer: nat, reply: (nat, Node) -> Reply, calls: seq<Call>,
      v: View,
    ok: bool)
    decreases calls
  {
    var n := |calls|;
    && (maxNodes > 0 ==> n <= maxNodes)
    && (n == 0 ==> ok)
    && (forall i {:trigger calls[i]} :: 0 <= i < n ==>
          && (i < n - 1 ==> calls[i].reply.answer == 0)
          && RightCall(w, maxVer, reply(i, calls[i].node), calls[i], AfterCalls(w, calls[..i], v), ok || i < n - 1))
  }

  ghost predicate RightCall(w: Node, maxVer: nat, reply: Reply, c: Call, v: View, ok: bool)
    decreases c, 1
  {
    c.reply == reply && c.back == ok && Next(v, w, c.node) && v.on[c.node] <= maxVer && RightReply(w, c, v)
  }

  // The callback has done what it replies, and the walk has come back from it, unless one of
  // its acts or its answer has stopped the program.
  ghost predicate RightReply(w: Node, c: Call, v: View)
    decreases c, 0
  {
    var v0 := Presented(w, c.node, v);
    var gone := c.reply.answer < 0 && c.node !in AfterAll(c.deeds, v0).on;
    if c.back then RightAll(c.reply.acts, c.deeds, v0, true) && !gone
    else RightAll(c.reply.acts, c.deeds, v0, false) || (RightAll(c.reply.acts, c.deeds, v0, true) && gone)
  }

  // A walk is over when its callback says so, when it has handed over maxNodes changes, or
  // when nothing new is left up to maxVer.
  ghost predicate Over(w: Node, maxNodes: int, maxVer: nat, calls: seq<Call>, v: View) {
    var n := |calls|;
    var v1 := AfterCalls(w, calls, v);
    || (n > 0 && calls[n - 1].reply.answer != 0)
    || (n > 0 && n == maxNodes)
    || (w in v1.given && forall h <- v1.on :: v1.on[h] <= maxVer ==> v1.on[h] in v1.given[w])
  }

  // One more act: the last one if it stops the program.
  lemma {:induction false} RightAllMore(acts: seq<Act>, deeds: seq<Deed>, v: View, a: Act, d: Deed, ok: bool,
    rest: seq<Act>)
    requires RightAll(acts, deeds, v, true) && Right(a, d, AfterAll(deeds, v), ok) && (ok ==> rest == [])
    ensures RightAll(acts + [a] + rest, deeds + [d], v, ok)
    ensures AfterAll(deeds + [d], v) == After(d, AfterAll(deeds, v))
    decreases deeds
  {
    var acts1, deeds1 := acts + [a] + rest, deeds + [d];
    if deeds == [] {
      assert acts1[1..] == rest && deeds1[1..] == [];
      assert AfterAll([], After(d, v)) == After(d, v);
    } else {
      assert acts1[1..] == acts[1..] + [a] + rest && deeds1[1..] == deeds[1..] + [d];
      RightAllMore(acts[1..], deeds[1..], After(deeds[0], v), a, d, ok, rest);
    }
  }

  // ---- The same as a list of acts ----

  ghost function Appends(acts: seq<Act>): nat {
    if acts == [] then 0 else (if acts[0].Append? then 1 else 0) + Appends(acts[1..])
  }

  lemma {:induction false} AppendsAdd(a: seq<Act>, b: seq<Act>)
    ensures Appends(a + b) == Appends(a) + Appends(b)
  {
    if a == [] {
      assert a + b == b;
    } else {
      assert (a + b)[1..] == a[1..] + b;
      AppendsAdd(a[1..], b);
    }
  }

  // What deeds, and the calls of a walk, have done to the list, one after the other.
  ghost function Acts(deeds: seq<Deed>): seq<Act> {
    if deeds == [] then [] else
      (if deeds[0].act.Walk? then Flat(deeds[0].calls) else [deeds[0].act]) + Acts(deeds[1..])
  }

  ghost function Flat(calls: seq<Call>): seq<Act> {
    if calls == [] then [] else
      var n := |calls| - 1; Flat(calls[..n]) + Acts(calls[n].deeds)
  }

  // Anything else than what is written there, a walk has done.
  ghost predicate Includes(acts: seq<Act>, a: Act) {
    a in acts || exists i :: 0 <= i < |acts| && acts[i].Walk?
  }

  lemma {:induction false} DoneIncluded(acts: seq<Act>, deeds: seq<Deed>, v: View, ok: bool, a: Act)
    requires RightAll(acts, deeds, v, ok) && a in Acts(deeds)
    ensures Includes(acts, a)
  {
    if !deeds[0].act.Walk? && a != deeds[0].act {
      DoneIncluded(acts[1..], deeds[1..], After(deeds[0], v), ok, a);
    }
  }

  lemma {:induction false} OneDeed(deed: Deed)
    ensures Acts([deed]) == if deed.act.Walk? then Flat(deed.calls) else [deed.act]
    ensures Appends([deed.act]) == if deed.act.Append? then 1 else 0
  {
    assert [deed][1..] == [] && [deed.act][1..] == [];
    assert Acts([deed]) == (if deed.act.Walk? then Flat(deed.calls) else [deed.act]) + [];
  }

  lemma {:induction false} ActsAdd(deed: Deed, rest: seq<Deed>)
    ensures Acts([deed] + rest) == Acts([deed]) + Acts(rest)
    ensures Appends(Acts([deed] + rest)) == Appends(Acts([deed])) + Appends(Acts(rest))
  {
    var deeds, first := [deed] + rest, if deed.act.Walk? then Flat(deed.calls) else [deed.act];
    assert deeds[0] == deed && deeds[1..] == rest;
    OneDeed(deed);
    assert Acts(deeds) == first + Acts(rest);
    AppendsAdd(first, Acts(rest));
  }

  lemma {:induction false} OneAct(a: Act, deeds: seq<Deed>, v: View, ok: bool)
    requires RightAll([a], deeds, v, ok) && !a.OpenAfter? && !a.Walk?
    ensures ok && deeds == [Deed(a, [])] && AfterAll(deeds, v) == After(deeds[0], v)
  {
    assert [a][1..] == [];
    assert deeds == [deeds[0]] + deeds[1..];
    assert AfterAll([], After(deeds[0], v)) == After(deeds[0], v);
  }

  // ---- Walks in progress ----

  // The calls are those of this callback.
  ghost predicate Made(reply: (nat, Node) -> Reply, calls: seq<Call>) {
    forall i {:trigger calls[i]} :: 0 <= i < |calls| ==> calls[i].reply == reply(i, calls[i].node)
  }

  // What a call comes to, after the change has been chosen.
  ghost predicate Came(w: Node, c: Call, v: View, v1: View) {
    w in v.given && c.node in v.on && v1 == AfterCall(w, c, v) && RightReply(w, c, v)
  }

  // After the callback's acts have led to v1, the walker's account becomes g.
  lemma {:induction false} Settled(w: Node, c: Call, v: View, v1: View, g: set<nat>)
    requires w in v.given && c.node in v.on && w in v1.given && v1 == AfterAll(c.deeds, Presented(w, c.node, v))
    requires RightAll(c.reply.acts, c.deeds, Presented(w, c.node, v), true)
    requires c.back == (c.reply.answer >= 0 || c.node in v1.on)
    requires g == if c.back && c.reply.answer < 0 then v.given[w] + Below(v1.on, v1.on[c.node], v.given[w])
      else v1.given[w]
    ensures Came(w, c, v, v1.(given := v1.given[w := g]))
  {
  }

  lemma {:induction false} RightCallMore(w: Node, maxNodes: int, maxVer: nat, reply: (nat, Node) -> Reply,
    calls: seq<Call>, v: View, c: Call, v2: View)
    requires RightCalls(w, maxNodes, maxVer, reply, calls, v, true) && (maxNodes > 0 ==> |calls| < maxNodes)
    requires forall i :: 0 <= i < |calls| ==> calls[i].reply.answer == 0
    requires var v1 := AfterCalls(w, calls, v);
      Next(v1, w, c.node) && v1.on[c.node] <= maxVer && c.reply == reply(|calls|, c.node) && Came(w, c, v1, v2)
    ensures RightCalls(w, maxNodes, maxVer, reply, calls + [c], v, c.back) && AfterCalls(w, calls + [c], v) == v2
  {
    var calls1, n := calls + [c], |calls|;
    assert calls1[..n] == calls;
    forall i {:trigger calls1[i]} | 0 <= i <= n
      ensures RightCall(w, maxVer, reply(i, calls1[i].node), calls1[i], AfterCalls(w, calls1[..i], v), c.back || i < n)
    {
      assert calls1[..i] == calls[..i] && (i < n ==> calls1[i] == calls[i]);
    }
  }

  // ---- What stops the program ----

  lemma {:induction false} StoppedBy(acts: seq<Act>, deeds: seq<Deed>, v: View)
    requires RightAll(acts, deeds, v, false)
    ensures exists a <- acts :: a.OpenAfter? || a.Walk?
  {
    assert acts[0] in acts;
    if |deeds| > 1 {
      StoppedBy(acts[1..], deeds[1..], After(deeds[0], v));
    }
  }

  // A node stays on the list unless it is dropped.
  lemma {:induction false} StaysOn(deeds: seq<Deed>, v: View, h: Node)
    requires h in v.on && Act.Drop(h) !in Acts(deeds)
    ensures h in AfterAll(deeds, v).on
    decreases deeds
  {
    if deeds != [] {
      var d := deeds[0];
      if d.act.Walk? { StaysOnCalls(d.act.w, d.calls, v, h); }
      StaysOn(deeds[1..], After(d, v), h);
    }
  }

  lemma {:induction false} StaysOnCalls(w: Node, calls: seq<Call>, v: View, h: Node)
    requires h in v.on && Act.Drop(h) !in Flat(calls)
    ensures h in AfterCalls(w, calls, v).on
    decreases calls
  {
    if calls != [] {
      var n := |calls| - 1;
      StaysOnCalls(w, calls[..n], v, h);
      StaysOn(calls[n].deeds, Presented(w, calls[n].node, AfterCalls(w, calls[..n], v)), h);
    }
  }

  // Something in the acts, or in the answer after them, may stop the program.
  ghost predicate MayStop(reply: Reply, t: Node) {
    (exists a <- reply.acts :: a.OpenAfter? || a.Walk?) || (reply.answer < 0 && Act.Drop(t) in reply.acts)
  }

  lemma {:induction false} StoppingCall(w: Node, c: Call, v: View)
    requires RightReply(w, c, v) && !c.back && c.node in v.on
    ensures MayStop(c.reply, c.node)
  {
    var v0 := Presented(w, c.node, v);
    if RightAll(c.reply.acts, c.deeds, v0, false) {
      StoppedBy(c.reply.acts, c.deeds, v0);
    } else {
      if Act.Drop(c.node) !in Acts(c.deeds) { StaysOn(c.deeds, v0, c.node); }
      DoneIncluded(c.reply.acts, c.deeds, v0, true, Act.Drop(c.node));
    }
  }

  lemma {:induction false} StoppedWalk(w: Node, maxNodes: int, maxVer: nat, reply: (nat, Node) -> Reply,
    calls: seq<Call>, v: View)
    requires RightCalls(w, maxNodes, maxVer, reply, calls, v, false)
    ensures calls != []
    ensures var i := |calls| - 1; calls[i].reply == reply(i, calls[i].node) && MayStop(calls[i].reply, calls[i].node)
  {
    var i := |calls| - 1;
    assert RightCall(w, maxVer, reply(i, calls[i].node), calls[i], AfterCalls(w, calls[..i], v), false);
    StoppingCall(w, calls[i], AfterCalls(w, calls[..i], v));
  }

  ghost predicate LastMayStop(reply: (nat, Node) -> Reply, calls: seq<Call>)
    requires calls != []
  {
    var i := |calls| - 1;
    calls[i].reply == reply(i, calls[i].node) && MayStop(calls[i].reply, calls[i].node)
  }

  // Deed d of act a stops the program.
  ghost predicate Stops(a: Act, d: Deed, v: View) {
    match a
    case OpenAfter(after, _) => after !in v.given
    case Walk(w, _, _, reply) => w in v.given ==> d.calls != [] && LastMayStop(reply, d.calls)
    case _ => false
  }

  // Acts that are stopped have been carried out up to one that follows or walks a marker that
  // is not on the list, or walks with a callback whose last reply may stop the program.
  lemma {:induction false} WhyStopped(acts: seq<Act>, deeds: seq<Deed>, v: View) returns (n: nat)
    requires RightAll(acts, deeds, v, false)
    ensures n == |deeds| - 1 && n < |acts| && RightAll(acts[..n], deeds[..n], v, true)
    ensures Stops(acts[n], deeds[n], AfterAll(deeds[..n], v))
    decreases deeds
  {
    if |deeds| == 1 {
      n := 0;
      var d := deeds[0];
      var a := acts[0];
      if a.Walk? && a.w in v.given {
        StoppedWalk(a.w, a.maxNodes, a.maxVer, a.reply, d.calls, v);
      }
    } else {
      var k := WhyStopped(acts[1..], deeds[1..], After(deeds[0], v));
      n := k + 1;
      assert acts[..n][1..] == acts[1..][..k] && deeds[..n][1..] == deeds[1..][..k];
    }
  }

  // ---- There is only one way ----

  // Versions are different, and none is above the table's.
  ghost predicate Proper(v: View) {
    && (forall h <- v.on :: v.on[h] <= v.version)
    && forall g, h :: g in v.on && h in v.on && v.on[g] == v.on[h] ==> g == h
  }

  lemma {:induction false} StaysProper(d: Deed, v: View)
    requires Proper(v)
    ensures Proper(After(d, v))
    decreases d
  {
    if d.act.Walk? {
      StaysProperCalls(d.act.w, d.calls, v);
    }
  }

  lemma {:induction false} StaysProperAll(deeds: seq<Deed>, v: View)
    requires Proper(v)
    ensures Proper(AfterAll(deeds, v))
    decreases deeds
  {
    if deeds != [] {
      StaysProper(deeds[0], v);
      StaysProperAll(deeds[1..], After(deeds[0], v));
    }
  }

  lemma {:induction false} StaysProperCalls(w: Node, calls: seq<Call>, v: View)
    requires Proper(v)
    ensures Proper(AfterCalls(w, calls, v))
    decreases calls
  {
    if calls != [] {
      var n := |calls| - 1;
      StaysProperCalls(w, calls[..n], v);
      StaysProperAll(calls[n].deeds, Presented(w, calls[n].node, AfterCalls(w, calls[..n], v)));
    }
  }

  // An act can come to one deed only, and acts to one list of deeds.
  lemma {:induction false} OneWay(a: Act, d: Deed, ok: bool, e: Deed, ok1: bool, v: View)
    requires Proper(v) && Right(a, d, v, ok) && Right(a, e, v, ok1)
    ensures d == e && ok == ok1
    decreases d
  {
    if a.Walk? && a.w in v.given {
      OneWayCalls(a.w, a.maxNodes, a.maxVer, a.reply, d.calls, ok, e.calls, ok1, v);
    }
  }

  lemma {:induction false} OneWayAll(acts: seq<Act>, ds: seq<Deed>, ok: bool, es: seq<Deed>, ok1: bool, v: View)
    requires Proper(v) && RightAll(acts, ds, v, ok) && RightAll(acts, es, v, ok1)
    ensures ds == es && ok == ok1
    decreases ds
  {
    if ds != [] && es != [] {
      OneWay(acts[0], ds[0], ok || |ds| > 1, es[0], ok1 || |es| > 1, v);
      StaysProper(ds[0], v);
      if ok || |ds| > 1 {
        OneWayAll(acts[1..], ds[1..], ok, es[1..], ok1, After(ds[0], v));
        assert ds == [ds[0]] + ds[1..] && es == [es[0]] + es[1..];
      }
    }
  }

  lemma {:induction false} OneWayReply(w: Node, c: Call, e: Call, v: View)
    requires Proper(v) && RightReply(w, c, v) && RightReply(w, e, v) && c.node == e.node && c.reply == e.reply
    ensures c == e
    decreases c
  {
    var v0, acts := Presented(w, c.node, v), c.reply.acts;
    OneWayAll(acts, c.deeds, RightAll(acts, c.deeds, v0, true), e.deeds, RightAll(acts, e.deeds, v0, true), v0);
    if RightAll(acts, c.deeds, v0, true) && RightAll(acts, c.deeds, v0, false) {
      OneWayAll(acts, c.deeds, true, c.deeds, false, v0);
    }
  }

  // The first n calls are the same.
  lemma {:induction false} SameCalls(w: Node, maxNodes: int, maxVer: nat, reply: (nat, Node) -> Reply, cs: seq<Call>,
    ok: bool, es: seq<Call>, ok1: bool, v: View, n: nat)
    requires Proper(v) && n <= |cs| && n <= |es|
    requires RightCalls(w, maxNodes, maxVer, reply, cs, v, ok) && RightCalls(w, maxNodes, maxVer, reply, es, v, ok1)
    ensures cs[..n] == es[..n]
    decreases cs, 0, n
  {
    if n > 0 {
      var i := n - 1;
      SameCalls(w, maxNodes, maxVer, reply, cs, ok, es, ok1, v, i);
      NextCall(w, maxNodes, maxVer, reply, cs, ok, v, i);
      NextCall(w, maxNodes, maxVer, reply, es, ok1, v, i);
      StaysProperCalls(w, cs[..i], v);
      OneWayReply(w, cs[i], es[i], AfterCalls(w, cs[..i], v));
      TakeMore(cs, i);
      TakeMore(es, i);
    }
  }

  lemma {:induction false} TakeMore<T>(s: seq<T>, n: nat)
    requires n < |s|
    ensures s[..n] + [s[n]] == s[..n + 1]
  {
  }

  // Call i is for the change with the least new version.
  lemma {:induction false} NextCall(w: Node, maxNodes: int, maxVer: nat, reply: (nat, Node) -> Reply, cs: seq<Call>,
    ok: bool, v: View, i: nat)
    requires RightCalls(w, maxNodes, maxVer, reply, cs, v, ok) && i < |cs|
    ensures var vi := AfterCalls(w, cs[..i], v);
      Next(vi, w, cs[i].node) && RightReply(w, cs[i], vi) && cs[i].reply == reply(i, cs[i].node)
  {
    assert RightCall(w, maxVer, reply(i, cs[i].node), cs[i], AfterCalls(w, cs[..i], v), ok || i < |cs| - 1);
  }

  lemma {:induction false} OneWayCalls(w: Node, maxNodes: int, maxVer: nat, reply: (nat, Node) -> Reply,
    cs: seq<Call>, ok: bool, es: seq<Call>, ok1: bool, v: View)
    requires Proper(v)
    requires RightCalls(w, maxNodes, maxVer, reply, cs, v, ok) && (ok ==> Over(w, maxNodes, maxVer, cs, v))
    requires RightCalls(w, maxNodes, maxVer, reply, es, v, ok1) && (ok1 ==> Over(w, maxNodes, maxVer, es, v))
    ensures cs == es && ok == ok1
    decreases cs, 1
  {
    var n := if |cs| < |es| then |cs| else |es|;
    SameCalls(w, maxNodes, maxVer, reply, cs, ok, es, ok1, v, n);
    NoMore(w, maxNodes, maxVer, reply, cs, ok, es, ok1, v);
    NoMore(w, maxNodes, maxVer, reply, es, ok1, cs, ok, v);
    assert cs == cs[..n] && es == es[..n];
  }

  // After n calls, a walk of more calls is not over.
  lemma {:induction false} GoesOn(w: Node, maxNodes: int, maxVer: nat, reply: (nat, Node) -> Reply,
    es: seq<Call>, ok: bool, v: View, n: nat)
    requires RightCalls(w, maxNodes, maxVer, reply, es, v, ok) && n < |es|
    ensures !Over(w, maxNodes, maxVer, es[..n], v) && (n > 0 ==> es[n - 1].back)
  {
    assert RightCall(w, maxVer, reply(n, es[n].node), es[n], AfterCalls(w, es[..n], v), ok || n < |es| - 1);
    if n > 0 {
      assert RightCall(w, maxVer, reply(n - 1, es[n - 1].node), es[n - 1], AfterCalls(w, es[..n - 1], v), true);
    }
  }

  // A walk that is over, or stopped, does not go on.
  lemma {:induction false} NoMore(w: Node, maxNodes: int, maxVer: nat, reply: (nat, Node) -> Reply,
    cs: seq<Call>, ok: bool, es: seq<Call>, ok1: bool, v: View)
    requires RightCalls(w, maxNodes, maxVer, reply, cs, v, ok) && (ok ==> Over(w, maxNodes, maxVer, cs, v))
    requires RightCalls(w, maxNodes, maxVer, reply, es, v, ok1)
    requires |cs| < |es| ==> es[..|cs|] == cs
    ensures |es| <= |cs|
  {
    var n := |cs|;
    if n > 0 {
      assert RightCall(w, maxVer, reply(n - 1, cs[n - 1].node), cs[n - 1], AfterCalls(w, cs[..n - 1], v), ok);
    }
    if n < |es| {
      assert n > 0 ==> cs[n - 1] == es[..n][n - 1];
      GoesOn(w, maxNodes, maxVer, reply, es, ok1, v, n);
    }
  }
}

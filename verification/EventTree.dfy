// The tree of keys on which clients of the event service are registered.
module EventTree {
  // Elements of a key and descriptors of clients are only compared.
  type Element(==, !new)
  type Client(==, !new)
  type Key = seq<Element>
  datatype Registration = Registration(key: Key, fd: Client)

  // In a registration, grants and room tell where there is memory for it.
  datatype Request =
    | Register(fd: Client, key: Key, grants: nat -> bool, room: bool)
    | Deregister(fd: Client, key: Key)
    | Disconnect(fd: Client)
  {
    predicate Asks(fd: Client, key: Key) {
      Register? && this.fd == fd && this.key == key
    }

    predicate Ends(fd: Client, key: Key) {
      !Register? && this.fd == fd && (Deregister? ==> this.key == key)
    }
  }

  // The first i elements of a key have nodes, or memory for them.
  ghost predicate Reaches(key: Key, grants: nat -> bool, paths: set<Key>, i: nat)
    requires i <= |key|
  {
    forall j :: 0 <= j < i ==> key[..j + 1] in paths || grants(j)
  }

  // The keys that have nodes after the node of a key has been asked for, if it is to be made:
  // up to the first one that there is no memory for.
  ghost function Made(key: Key, grants: nat -> bool, paths: set<Key>): set<Key> {
    paths + set i | 0 < i <= |key| && Reaches(key, grants, paths, i) :: key[..i]
  }

  // A registration succeeds exactly if there is memory for the missing nodes and for the client.
  ghost predicate Succeeds(q: Request, paths: set<Key>) {
    q.Register? ==> q.room && Reaches(q.key, q.grants, paths, |q.key|)
  }

  ghost function Starts(key: Key, n: nat): set<Key>
    requires n <= |key|
  {
    set i | 0 < i <= n :: key[..i]
  }

  // When the way ends after n elements, what has been made are the starts of the key so far.
  lemma MadeIs(key: Key, grants: nat -> bool, paths: set<Key>, n: nat)
    requires n <= |key| && Reaches(key, grants, paths, n)
    requires n < |key| ==> key[..n + 1] !in paths && !grants(n)
    ensures Made(key, grants, paths) == paths + Starts(key, n)
    ensures Reaches(key, grants, paths, |key|) <==> n == |key|
  {
    forall i | 0 < i <= |key| ensures Reaches(key, grants, paths, i) <==> i <= n {
      if i > n { assert !(key[..n + 1] in paths || grants(n)); }
    }
  }

  // Where there are nodes after any requests.
  ghost function Paths(qs: seq<Request>): set<Key> {
    if qs == [] then {[]} else
      var n := |qs| - 1;
      var paths := Paths(qs[..n]);
      if qs[n].Register? then Made(qs[n].key, qs[n].grants, paths) else paths
  }

  // What a request means for the set of registrations; ok is its outcome.
  ghost function Effect(q: Request, ok: bool, rs: set<Registration>): set<Registration> {
    match q
    case Register(fd, key, _, _) => if ok then rs + {Registration(key, fd)} else rs
    case Deregister(fd, key) => rs - {Registration(key, fd)}
    case Disconnect(fd) => set r | r in rs && r.fd != fd
  }

  ghost function Effects(qs: seq<Request>, oks: seq<bool>): set<Registration>
    requires |oks| == |qs|
  {
    if qs == [] then {} else
      var n := |qs| - 1; Effect(qs[n], oks[n], Effects(qs[..n], oks[..n]))
  }

  // Request i registers the client for the key, and none after it undoes that.
  ghost predicate Lasts(qs: seq<Request>, oks: seq<bool>, i: nat, key: Key, fd: Client)
    requires i < |qs| == |oks|
  {
    qs[i].Asks(fd, key) && oks[i] && forall j :: i < j < |qs| ==> !qs[j].Ends(fd, key)
  }

  // A client is registered for a key exactly if it has asked for that, with success, and has
  // neither withdrawn it nor disconnected since.
  lemma {:induction false} EffectsAre(qs: seq<Request>, oks: seq<bool>, key: Key, fd: Client)
    requires |oks| == |qs|
    ensures Registration(key, fd) in Effects(qs, oks) <==>
      exists i :: 0 <= i < |qs| && Lasts(qs, oks, i, key, fd)
  {
    if qs != [] {
      var n := |qs| - 1;
      EffectsAre(qs[..n], oks[..n], key, fd);
      forall i: nat | i < n
        ensures Lasts(qs, oks, i, key, fd) <==> Lasts(qs[..n], oks[..n], i, key, fd) && !qs[n].Ends(fd, key)
      {
        assert forall j :: i < j < n ==> qs[..n][j] == qs[j];
      }
      assert Lasts(qs, oks, n, key, fd) <==> qs[n].Asks(fd, key) && oks[n];
    }
  }

  class Node {
    var children: map<Element, Node>
    var clients: set<Client>

    // The node's key, and the node one element up.
    ghost const path: Key
    ghost const parent: Node?

    constructor (ghost path: Key, ghost parent: Node?)
      ensures children == map[] && clients == {} && this.path == path && this.parent == parent
    {
      children, clients := map[], {};
      this.path, this.parent := path, parent;
    }
  }

  class ClientTree {
    const head: Node
    ghost var nodes: set<Node>

    constructor ()
      ensures Valid() && Registrations() == {} && Keys() == {[]} && fresh(nodes)
    {
      var h := new Node([], null);
      head := h;
      nodes := {h};
    }

    // ---- What always holds ----

    ghost predicate ChildOk(n: Node, c: Element)
      requires n in nodes
      reads this`nodes, nodes`children
    {
      c in n.children ==> n.children[c] in nodes && n.children[c].path == n.path + [c] && n.children[c].parent == n
    }

    ghost predicate UpOk(n: Node)
      reads this`nodes, nodes`children
    {
      if n == head then n.path == [] else
        && n.parent != null && n.parent in nodes && n.path != [] && n.parent.path == n.path[..|n.path| - 1]
        && var c := n.path[|n.path| - 1]; c in n.parent.children && n.parent.children[c] == n
    }

    ghost predicate Valid()
      reads this`nodes, nodes`children
    {
      && head in nodes
      && (forall n, c {:trigger ChildOk(n, c)} :: n in nodes ==> ChildOk(n, c))
      && (forall n {:trigger UpOk(n)} :: n in nodes ==> UpOk(n))
    }

    // Who is registered for what.
    ghost function Registrations(): set<Registration>
      reads this`nodes, nodes`clients
    {
      set n, fd | n in nodes && fd in n.clients :: Registration(n.path, fd)
    }

    // The node whose key is the first j elements of m's.
    lemma {:induction false} Above(m: Node, j: nat) returns (n: Node)
      requires Valid() && m in nodes && j <= |m.path|
      ensures n in nodes && n.path == m.path[..j]
      ensures j < |m.path| ==> m.path[j] in n.children
      decreases |m.path|
    {
      assert UpOk(m);
      if j == |m.path| {
        n := m;
        assert m.path[..j] == m.path;
      } else if j == |m.path| - 1 {
        n := m.parent;
      } else {
        n := Above(m.parent, j);
        assert m.parent.path[..j] == m.path[..j];
      }
    }

    // A key has one node at most.
    lemma {:induction false} OnePerKey(n: Node, m: Node)
      requires Valid() && n in nodes && m in nodes && n.path == m.path
      ensures n == m
      decreases |n.path|
    {
      assert UpOk(n) && UpOk(m);
      if n != head && m != head {
        OnePerKey(n.parent, m.parent);
      }
    }

    ghost predicate HasNode(k: Key)
      reads this`nodes
    {
      exists n :: n in nodes && n.path == k
    }

    // Without a child for the next element there is no node for anything longer.
    lemma NoneBelow(n: Node, k: Key)
      requires Valid() && n in nodes && n.path < k && k[|n.path|] !in n.children
      ensures !HasNode(k)
    {
      if HasNode(k) {
        var m :| m in nodes && m.path == k;
        var a := Above(m, |n.path|);
        OnePerKey(a, n);
      }
    }

    // ---- Lookup ----

    method CreateNode(cur: Node, c: Element)
      requires Valid() && cur in nodes && c !in cur.children
      modifies this`nodes, cur`children
      ensures Valid() && c in cur.children && cur.children[c] in nodes && fresh(cur.children[c])
      ensures nodes == old(nodes) + {cur.children[c]} && Registrations() == old(Registrations())
      ensures Keys() == old(Keys()) + {cur.path + [c]}
      ensures cur.children[c].path == cur.path + [c]
    {
      var n := new Node(cur.path + [c], cur);
      cur.children := cur.children[c := n];
      nodes := nodes + {n};
      forall m, d | m in nodes ensures ChildOk(m, d) {
        if m != n { assert old(ChildOk(m, d)); }
      }
      forall m | m in nodes ensures UpOk(m) {
        if m != n { assert old(UpOk(m)); }
      }
    }

    ghost function Keys(): set<Key>
      reads this`nodes
    {
      set n | n in nodes :: n.path
    }

    // The node of a key. With create, missing nodes are made; grants tells for which
    // positions there is memory.
    method Find(list: Key, create: bool, grants: nat -> bool) returns (n: Node?)
      requires Valid()
      modifies this`nodes, nodes`children
      ensures Valid() && Registrations() == old(Registrations())
      ensures old(nodes) <= nodes && fresh(nodes - old(nodes))
      ensures Keys() == if create then Made(list, grants, old(Keys())) else old(Keys())
      ensures !create ==> nodes == old(nodes) && forall m <- nodes :: m.children == old(m.children)
      ensures n != null ==> n in nodes && n.path == list
      ensures n != null <==> if create then Reaches(list, grants, old(Keys()), |list|) else list in old(Keys())
    {
      var ix := 0;
      var cur := head;
      assert UpOk(head);
      ghost var keys := Keys();
      while ix < |list|
        invariant 0 <= ix <= |list| && Valid() && cur in nodes && cur.path == list[..ix]
        invariant Registrations() == old(Registrations())
        invariant old(nodes) <= nodes && fresh(nodes - old(nodes))
        invariant create ==> Reaches(list, grants, keys, ix)
        invariant Keys() == keys + if create then Starts(list, ix) else {}
        invariant !create ==> nodes == old(nodes) && forall m <- nodes :: m.children == old(m.children)
      {
        assert list[..ix + 1] == list[..ix] + [list[ix]];
        if list[ix] !in cur.children {
          NoneBelow(cur, list[..ix + 1]);
          assert list[..ix + 1] !in Keys();
          if !create || !grants(ix) {
            NoneBelow(cur, list);
            if create { MadeIs(list, grants, keys, ix); }
            return null;
          }
          CreateNode(cur, list[ix]);
        } else {
          assert ChildOk(cur, list[ix]);
          assert list[..ix + 1] in Keys() && list[..ix + 1] !in Starts(list, ix);
        }
        assert ChildOk(cur, list[ix]);
        cur := cur.children[list[ix]];
        ix := ix + 1;
      }
      if create { MadeIs(list, grants, keys, ix); }
      n := cur;
    }

    // ---- Registration ----

    // reg_client. Without memory nothing is registered, though nodes may have been made.
    method RegClient(fd: Client, key: Key, grants: nat -> bool, room: bool) returns (ok: bool)
      requires Valid()
      modifies this`nodes, nodes`children, nodes`clients
      ensures Valid() && fresh(nodes - old(nodes)) && Keys() == Made(key, grants, old(Keys()))
      ensures Registrations() == if ok then old(Registrations()) + {Registration(key, fd)} else old(Registrations())
      ensures ok <==> room && Reaches(key, grants, old(Keys()), |key|)
    {
      var cur := Find(key, true, grants);
      if cur == null || !room {
        return false;
      }
      cur.clients := cur.clients + {fd};
      ok := true;
    }

    // dereg_client: true in any case.
    method DeregClient(fd: Client, key: Key) returns (ok: bool)
      requires Valid()
      modifies this`nodes, nodes`children, nodes`clients
      ensures Valid() && ok && nodes == old(nodes) && Keys() == old(Keys())
      ensures Registrations() == old(Registrations()) - {Registration(key, fd)}
    {
      var cur := Find(key, false, _ => false);
      if cur == null {
        assert forall r <- Registrations() :: r.key in Keys();
        return true;
      }
      forall n | n in nodes && n.path == key ensures n == cur { OnePerKey(n, cur); }
      cur.clients := cur.clients - {fd};
      ok := true;
    }

    // m lies below n on the way of one of the given children.
    ghost predicate Beneath(n: Node, keys: set<Element>, m: Node) {
      n.path < m.path && m.path[|n.path|] in keys
    }

    lemma BelowChild(n: Node, c: Element)
      requires Valid() && n in nodes && c in n.children
      ensures n.children[c] in nodes && n.children[c].path == n.path + [c]
      ensures forall m <- nodes :: n.children[c].path <= m.path <==> Beneath(n, {c}, m)
    {
      assert ChildOk(n, c);
    }

    lemma BelowAny(n: Node)
      requires Valid() && n in nodes
      ensures forall m <- nodes :: n.path <= m.path <==> m == n || Beneath(n, n.children.Keys, m)
    {
      forall m | m in nodes && n.path <= m.path ensures m == n || Beneath(n, n.children.Keys, m) {
        var a := Above(m, |n.path|);
        OnePerKey(a, n);
        if m.path == n.path { OnePerKey(m, n); }
      }
    }

    // A client that has closed its connection: it disappears from the node and all below it.
    method RemoveBelow(n: Node, fd: Client, ghost depth: nat)
      requires Valid() && n in nodes && forall m <- nodes :: |m.path| < depth + |n.path|
      modifies nodes`clients
      ensures Valid()
      ensures forall m <- nodes :: m.clients == if n.path <= m.path then old(m.clients) - {fd} else old(m.clients)
      decreases depth
    {
      var rest := n.children.Keys;
      while rest != {}
        invariant rest <= n.children.Keys && Valid()
        invariant forall m <- nodes ::
          m.clients == if Beneath(n, n.children.Keys - rest, m) then old(m.clients) - {fd} else old(m.clients)
        decreases |rest|
      {
        var c :| c in rest;
        BelowChild(n, c);
        RemoveBelow(n.children[c], fd, depth - 1);
        rest := rest - {c};
      }
      BelowAny(n);
      n.clients := n.clients - {fd};
    }

    // How deep the tree is.
    lemma {:induction false} Depth(s: set<Node>) returns (d: nat)
      ensures forall m <- s :: |m.path| < d
    {
      if s == {} {
        d := 0;
      } else {
        var m :| m in s;
        d := Depth(s - {m});
        d := if |m.path| < d then d else |m.path| + 1;
      }
    }

    method RemoveFromTree(fd: Client)
      requires Valid()
      modifies nodes`clients
      ensures Valid()
      ensures Registrations() == set r | r in old(Registrations()) && r.fd != fd
      ensures forall n <- nodes :: fd !in n.clients
    {
      ghost var depth := Depth(nodes);
      assert UpOk(head);
      RemoveBelow(head, fd, depth);
    }

    // ---- Publishing ----

    // The clients that are registered for the first j elements of the key, or fewer, but not for none.
    ghost function Receivers(key: Key, j: nat): set<Client>
      requires j <= |key|
      reads this`nodes, nodes`clients
    {
      set n, fd | n in nodes && n.path != [] && n.path <= key[..j] && fd in n.clients :: fd
    }

    // std_node_t::publish: one attempt for each client of the node that has had none.
    // Clients whose attempt fails are to be closed.
    method PublishNode(n: Node, sends: Client -> bool, sent0: set<Client>, trace0: seq<Client>, closed0: seq<Client>)
      returns (sent: set<Client>, trace: seq<Client>, closed: seq<Client>)
      requires NoneTwice(trace0) && (forall fd :: fd in sent0 <==> fd in trace0) && closed0 == Failing(trace0, sends)
      ensures sent == sent0 + n.clients && trace0 <= trace
      ensures NoneTwice(trace) && (forall fd :: fd in sent <==> fd in trace) && closed == Failing(trace, sends)
    {
      sent, trace, closed := sent0, trace0, closed0;
      var rest := n.clients;
      while rest != {}
        invariant trace0 <= trace && rest <= n.clients && sent0 <= sent <= sent0 + n.clients && n.clients - rest <= sent
        invariant NoneTwice(trace) && (forall fd :: fd in sent <==> fd in trace) && closed == Failing(trace, sends)
        decreases |rest|
      {
        var fd :| fd in rest;
        rest := rest - {fd};
        if fd in sent {
          continue;
        }
        if !sends(fd) {
          closed := closed + [fd];
        }
        OneMoreAttempt(trace, fd, sends);
        trace := trace + [fd];
        sent := sent + {fd};
      }
    }

    ghost predicate NoneTwice(s: seq<Client>) {
      forall i, j :: 0 <= i < j < |s| ==> s[i] != s[j]
    }

    // Those of the attempts that fail.
    function Failing(s: seq<Client>, sends: Client -> bool): seq<Client> {
      if s == [] then [] else
        var last := s[|s| - 1];
        Failing(s[..|s| - 1], sends) + (if sends(last) then [] else [last])
    }

    lemma {:induction false} FailingAre(s: seq<Client>, sends: Client -> bool)
      ensures forall fd :: fd in Failing(s, sends) <==> fd in s && !sends(fd)
    {
      if s != [] {
        FailingAre(s[..|s| - 1], sends);
        assert s == s[..|s| - 1] + [s[|s| - 1]];
      }
    }

    lemma OneMoreAttempt(trace: seq<Client>, fd: Client, sends: Client -> bool)
      requires NoneTwice(trace) && fd !in trace
      ensures NoneTwice(trace + [fd])
      ensures Failing(trace + [fd], sends) == Failing(trace, sends) + if sends(fd) then [] else [fd]
    {
      assert (trace + [fd])[..|trace|] == trace;
      assert forall i :: 0 <= i < |trace| ==> trace[i] in trace;
    }

    // Each client registered for a non-empty start of the key gets exactly one attempt.
    method Publish(key: Key, sends: Client -> bool) returns (trace: seq<Client>, closed: seq<Client>)
      requires Valid()
      ensures NoneTwice(trace) && closed == Failing(trace, sends) && ShortestFirst(key, trace)
      ensures forall fd :: fd in trace <==> exists j :: 0 < j <= |key| && Registration(key[..j], fd) in Registrations()
    {
      var ix := 0;
      var cur := head;
      var sent: set<Client> := {};
      trace, closed := [], [];
      assert UpOk(head);
      while ix < |key|
        invariant 0 <= ix <= |key| && cur in nodes && cur.path == key[..ix]
        invariant NoneTwice(trace) && (forall fd :: fd in sent <==> fd in trace) && closed == Failing(trace, sends)
        invariant sent == Receivers(key, ix) && ShortestFirst(key, trace)
      {
        if key[ix] !in cur.children {
          ReceiversBeyond(key, ix, cur);
          ReceiversAre(key);
          return;
        }
        assert ChildOk(cur, key[ix]);
        assert key[..ix + 1] == key[..ix] + [key[ix]];
        cur := cur.children[key[ix]];
        ix := ix + 1;
        ReceiversGrow(key, ix, cur);
        ghost var trace0 := trace;
        sent, trace, closed := PublishNode(cur, sends, sent, trace, closed);
        StaysShortestFirst(key, ix, trace0, trace);
      }
      ReceiversAre(key);
    }

    // Who comes first is registered for a start of the key that is no longer than those of
    // whoever comes later.
    ghost predicate ShortestFirst(key: Key, trace: seq<Client>)
      reads this`nodes, nodes`clients
    {
      forall i, j, l :: 0 <= i < j < |trace| && 0 <= l <= |key| && trace[j] in Receivers(key, l) ==>
        trace[i] in Receivers(key, l)
    }

    lemma ReceiversInclude(key: Key, j: nat, l: nat)
      requires j <= l <= |key|
      ensures Receivers(key, j) <= Receivers(key, l)
    {
      forall fd | fd in Receivers(key, j) ensures fd in Receivers(key, l) {
        var n :| n in nodes && n.path != [] && n.path <= key[..j] && fd in n.clients;
        assert key[..j] == key[..l][..j];
      }
    }

    lemma StaysShortestFirst(key: Key, ix: nat, trace0: seq<Client>, trace: seq<Client>)
      requires 0 < ix <= |key| && ShortestFirst(key, trace0) && trace0 <= trace && NoneTwice(trace)
      requires forall fd :: fd in trace0 <==> fd in Receivers(key, ix - 1)
      requires forall fd :: fd in trace <==> fd in Receivers(key, ix)
      ensures ShortestFirst(key, trace)
    {
      forall i, j, l | 0 <= i < j < |trace| && 0 <= l <= |key| && trace[j] in Receivers(key, l)
        ensures trace[i] in Receivers(key, l)
      {
        if j < |trace0| {
          assert trace[i] == trace0[i] && trace[j] == trace0[j];
        } else {
          assert trace[j] !in trace0;
          if l < ix { ReceiversInclude(key, l, ix - 1); }
          ReceiversInclude(key, ix, l);
        }
      }
    }

    // One element more: the clients of that element's node come in.
    lemma ReceiversGrow(key: Key, j: nat, n: Node)
      requires Valid() && 0 < j <= |key| && n in nodes && n.path == key[..j]
      ensures Receivers(key, j) == Receivers(key, j - 1) + n.clients
    {
      forall m | m in nodes && m.path <= key[..j] ensures m == n || m.path <= key[..j - 1] {
        if |m.path| == j {
          assert m.path == key[..j][..j] == key[..j];
          OnePerKey(m, n);
        } else {
          assert key[..j][..|m.path|] == key[..j - 1][..|m.path|];
        }
      }
      forall m | m in nodes && m.path <= key[..j - 1] ensures m.path <= key[..j] {
        assert key[..j][..|m.path|] == key[..j - 1][..|m.path|];
      }
      forall fd ensures fd in Receivers(key, j) <==> fd in Receivers(key, j - 1) + n.clients {
        if fd in n.clients { assert n.path != [] && n.path <= key[..j]; }
        if fd in Receivers(key, j - 1) {
          var m :| m in nodes && m.path != [] && m.path <= key[..j - 1] && fd in m.clients;
          assert m.path <= key[..j];
        }
        if fd in Receivers(key, j) {
          var m :| m in nodes && m.path != [] && m.path <= key[..j] && fd in m.clients;
          assert m == n || m.path <= key[..j - 1];
        }
      }
    }

    // Where the way ends, there is no node for any longer start of the key.
    lemma ReceiversBeyond(key: Key, j: nat, n: Node)
      requires Valid() && j < |key| && n in nodes && n.path == key[..j] && key[j] !in n.children
      ensures Receivers(key, j) == Receivers(key, |key|)
    {
      forall m | m in nodes && m.path <= key ensures m.path <= key[..j] {
        assert HasNode(m.path);
        if |m.path| > j {
          NoneBelow(n, m.path);
        } else {
          assert key[..j][..|m.path|] == key[..|m.path|];
        }
      }
      assert key[..|key|] == key;
      forall m | m in nodes && m.path <= key[..j] ensures m.path <= key {
        assert key[..j][..|m.path|] == key[..|m.path|];
      }
    }

    lemma ReceiversAre(key: Key)
      ensures forall fd :: fd in Receivers(key, |key|) <==>
        exists j :: 0 < j <= |key| && Registration(key[..j], fd) in Registrations()
    {
      assert key[..|key|] == key;
      forall fd | fd in Receivers(key, |key|)
        ensures exists j :: 0 < j <= |key| && Registration(key[..j], fd) in Registrations()
      {
        var n :| n in nodes && n.path != [] && n.path <= key && fd in n.clients;
        assert n.path == key[..|n.path|];
      }
      forall fd, j | 0 < j <= |key| && Registration(key[..j], fd) in Registrations()
        ensures fd in Receivers(key, |key|)
      {
        var n :| n in nodes && n.path == key[..j] && fd in n.clients;
      }
    }

    // ---- Runs ----

    method Handle(q: Request) returns (ok: bool)
      requires Valid()
      modifies this`nodes, nodes`children, nodes`clients
      ensures Valid() && fresh(nodes - old(nodes)) && Registrations() == Effect(q, ok, old(Registrations()))
      ensures Keys() == if q.Register? then Made(q.key, q.grants, old(Keys())) else old(Keys())
      ensures ok <==> Succeeds(q, old(Keys()))
    {
      ok := true;
      match q {
        case Register(fd, key, grants, room) =>
          ok := RegClient(fd, key, grants, room);
        case Deregister(fd, key) =>
          ok := DeregClient(fd, key);
        case Disconnect(fd) =>
          RemoveFromTree(fd);
      }
    }

    // The first requests have ended like this, and have led to these registrations and nodes.
    static ghost predicate Led(requests: seq<Request>, oks: seq<bool>, rs: set<Registration>, paths: set<Key>) {
      && |oks| <= |requests| && rs == Effects(requests[..|oks|], oks) && paths == Paths(requests[..|oks|])
      && forall i :: 0 <= i < |oks| ==> (oks[i] <==> Succeeds(requests[i], Paths(requests[..i])))
    }

    static lemma LedOn(requests: seq<Request>, oks: seq<bool>, rs: set<Registration>, paths: set<Key>, ok: bool)
      requires Led(requests, oks, rs, paths) && |oks| < |requests|
      requires ok <==> Succeeds(requests[|oks|], paths)
      ensures var q := requests[|oks|];
        Led(requests, oks + [ok], Effect(q, ok, rs), if q.Register? then Made(q.key, q.grants, paths) else paths)
    {
      var n := |oks|;
      assert requests[..n + 1][..n] == requests[..n] && (oks + [ok])[..n] == oks;
    }

    // After any requests, with any outcomes, a key is sent once to each client that is then
    // registered for a non-empty start of it, and to no one else.
    method Serve(requests: seq<Request>, key: Key, sends: Client -> bool)
      returns (oks: seq<bool>, trace: seq<Client>, closed: seq<Client>)
      requires Valid() && Registrations() == {} && Keys() == {[]}
      modifies this`nodes, nodes`children, nodes`clients
      ensures |oks| == |requests| && Valid() && Registrations() == Effects(requests, oks)
      ensures Led(requests, oks, Registrations(), Keys())
      ensures NoneTwice(trace) && closed == Failing(trace, sends) && ShortestFirst(key, trace)
      ensures forall fd :: fd in trace <==>
        exists j :: 0 < j <= |key| && Registration(key[..j], fd) in Effects(requests, oks)
    {
      oks := [];
      for n := 0 to |requests|
        invariant Valid() && fresh(nodes - old(nodes)) && |oks| == n && Led(requests, oks, Registrations(), Keys())
      {
        ghost var rs, paths := Registrations(), Keys();
        var ok := Handle(requests[n]);
        LedOn(requests, oks, rs, paths, ok);
        oks := oks + [ok];
      }
      assert requests[..|requests|] == requests;
      trace, closed := Publish(key, sends);
    }
  }
}

// The doubly linked list between two sentinels.
module Llist {
  import opened Orders

  // A structure with the list's links in it. The other fields are those of a
  // change list's elements.
  class Node {
    const data: Data
    var next: Node?
    var back: Node?
    var version: nat
    var included: bool
    var marker: bool

    // The place in the order of the list.
    ghost var at: real
    // The versions that a marker is done with, and a bound of them.
    ghost var given: set<nat>
    ghost var upTo: nat

    constructor (data: Data)
      ensures this.data == data && next == back == null && version == 0 && !included && !marker && given == {}
    {
      this.data := data;
      next, back := null, null;
      version, included, marker := 0, false, false;
      given, upTo := {}, 0;
    }

    predicate IsLinked()
      reads this`next, this`back
    {
      next != null && back != null
    }
  }

  class List {
    const head: Node
    const tail: Node
    // Only for a list that is kept sorted.
    const compare: (Data, Data) -> int
    const sorted: bool

    ghost var nodes: set<Node>

    constructor (data: Data, compare: (Data, Data) -> int, sorted: bool)
      ensures Valid() && nodes == {} && fresh(head) && fresh(tail) && this.compare == compare && this.sorted == sorted
    {
      var h := new Node(data);
      var t := new Node(data);
      h.next, t.back, h.at, t.at := t, h, 0.0, 1.0;
      head, tail := h, t;
      this.compare, this.sorted := compare, sorted;
      nodes := {};
    }

    // Everything but the tail has a successor, and that one knows its predecessor.
    ghost predicate NextOk(n: Node)
      reads this`nodes, n`next, n`at, tail`at, nodes`at, tail`back, nodes`back
    {
      n.next != null && (n.next == tail || n.next in nodes) && n.next.back == n && n.at < n.next.at
    }

    ghost predicate BackOk(n: Node)
      reads this`nodes, n`back, head`next, nodes`next
    {
      n.back != null && (n.back == head || n.back in nodes) && n.back.next == n
    }

    // No other node m has its place at n, or between n and its successor.
    ghost predicate Apart(n: Node, m: Node)
      reads this`nodes, n`next, n`at, m`at, nodes`at, tail`at
    {
      n.next != null && (n.next == tail || n.next in nodes) && (m == n || m.at < n.at || n.next.at <= m.at)
    }

    ghost predicate Within(n: Node)
      reads n`at, head`at, tail`at
    {
      head.at < n.at < tail.at
    }

    ghost predicate Ends()
      reads this`nodes
    {
      head !in nodes && tail !in nodes && head != tail
    }

    ghost predicate Valid()
      reads this`nodes, nodes`next, nodes`back, nodes`at, head`next, head`at, tail`back, tail`at
    {
      && Ends() && NextOk(head) && BackOk(tail)
      && (forall n {:trigger NextOk(n)} :: n in nodes ==> NextOk(n))
      && (forall n {:trigger BackOk(n)} :: n in nodes ==> BackOk(n))
      && (forall n {:trigger Within(n)} :: n in nodes ==> Within(n))
      && (forall m {:trigger Apart(head, m)} :: m in nodes ==> Apart(head, m))
      && (forall n, m {:trigger Apart(n, m)} :: n in nodes && m in nodes ==> Apart(n, m))
    }

    // ---- Reading ----

    method GetFirst() returns (r: Node?)
      requires Valid()
      ensures r == null ==> nodes == {}
      ensures r != null ==> r == head.next && r in nodes && forall m <- nodes :: r.at <= m.at
    {
      assert forall m <- nodes :: Apart(head, m) && Within(m);
      if head.next != tail {
        r := head.next;
      } else {
        r := null;
      }
    }

    method GetLast() returns (r: Node?)
      requires Valid()
      ensures r == null ==> nodes == {}
      ensures r != null ==> r in nodes && forall m <- nodes :: m.at <= r.at
    {
      if tail.back != head {
        r := tail.back;
        assert forall m <- nodes :: Apart(r, m) && Within(m);
      } else {
        r := null;
        assert forall m <- nodes :: Apart(head, m) && Within(m);
      }
    }

    method GetNext(n: Node) returns (r: Node?)
      requires Valid() && n in nodes
      ensures r == null ==> forall m <- nodes :: m.at <= n.at
      ensures r != null ==> r in nodes && forall m <- nodes :: n.at < m.at <==> r.at <= m.at
    {
      assert NextOk(n);
      assert forall m <- nodes :: Apart(n, m) && Within(m);
      if n.next != tail {
        r := n.next;
      } else {
        r := null;
      }
    }

    method GetPrev(n: Node) returns (r: Node?)
      requires Valid() && n in nodes
      ensures r == null ==> forall m <- nodes :: n.at <= m.at
      ensures r != null ==> r in nodes && forall m <- nodes :: m.at < n.at <==> m.at <= r.at
    {
      assert BackOk(n) && Within(n);
      if n.back != head {
        r := n.back;
        assert NextOk(r);
        assert forall m <- nodes :: Apart(r, m);
      } else {
        r := null;
        assert forall m <- nodes :: Apart(head, m) && Within(m);
      }
    }

    // ---- Insertion and removal ----

    // x, new in the list, is linked in between p and q, which were neighbours.
    twostate predicate LinkedIn(new x: Node, p: Node, q: Node)
      reads *
    {
      && x !in old(nodes) && nodes == old(nodes) + {x} && x != head && x != tail
      && (p == head || p in old(nodes)) && (q == tail || q in old(nodes)) && old(p.next) == q
      && x.back == p && x.next == q && p.next == x && q.back == x
      && p.at < x.at < q.at
      && head.at == old(head.at) && tail.at == old(tail.at)
      && (p != head ==> head.next == old(head.next)) && (q != tail ==> tail.back == old(tail.back))
      && (forall n <- old(nodes) ::
            n.at == old(n.at) && (n != p ==> n.next == old(n.next)) && (n != q ==> n.back == old(n.back)))
    }

    twostate lemma LinkedInKeeps(new x: Node)
      requires old(Valid()) && x.back != null && x.next != null
      requires var p, q := x.back, x.next; old(allocated(p)) && old(allocated(q)) && LinkedIn(x, p, q)
      ensures Valid()
      ensures forall m <- old(nodes) :: if m.at < x.at then m.at <= x.back.at else x.next.at <= m.at
    {
      ghost var p, q := x.back, x.next;
      assert old(NextOk(p)) && old(BackOk(q)) && (p != head ==> old(Within(p))) && (q != tail ==> old(Within(q)));
      forall n | n in nodes ensures NextOk(n) {
        if n != x { assert old(NextOk(n)); }
      }
      forall n | n in nodes ensures BackOk(n) {
        if n != x { assert old(BackOk(n)); }
      }
      forall n | n in nodes ensures Within(n) {
        if n != x { assert old(Within(n)); }
      }
      forall m | m in old(nodes) ensures if m.at < x.at then m.at <= p.at else q.at <= m.at {
        assert old(Apart(p, m));
      }
      LinkedInApart(x);
    }

    // Places stay apart.
    twostate lemma LinkedInApart(new x: Node)
      requires old(Valid()) && x.back != null && x.next != null
      requires var p, q := x.back, x.next; old(allocated(p)) && old(allocated(q)) && LinkedIn(x, p, q)
      requires forall m <- old(nodes) :: if m.at < x.at then m.at <= x.back.at else x.next.at <= m.at
      requires forall n {:trigger NextOk(n)} :: n in nodes ==> NextOk(n)
      ensures forall m {:trigger Apart(head, m)} :: m in nodes ==> Apart(head, m)
      ensures forall n, m {:trigger Apart(n, m)} :: n in nodes && m in nodes ==> Apart(n, m)
    {
      ghost var p := x.back;
      assert (p != head ==> old(Within(p))) && old(NextOk(head)) && old(NextOk(p));
      forall m | m in nodes ensures Apart(head, m) {
        if m != x { assert old(Apart(head, m)) && old(Within(m)); } else if p != head { assert old(Apart(head, p)); }
      }
      forall n, m | n in nodes && m in nodes ensures Apart(n, m) {
        assert NextOk(n);
        if n != x {
          assert old(NextOk(n)) && old(Within(n));
          if m != x { assert old(Apart(n, m)); } else if p != head { assert old(Apart(n, p)); }
        }
      }
    }

    method InsertAtFront(x: Node)
      requires Valid() && x !in nodes && x != head && x != tail
      modifies x`next, x`back, x`at, this`nodes, head`next, (nodes + {tail})`back
      ensures Valid() && nodes == old(nodes) + {x}
      ensures forall m <- old(nodes) :: x.at < m.at
    {
      assert NextOk(head) && head.next != head && head.next != x;
      ghost var q := head.next;
      x.next := head.next;
      x.back := head;
      head.next.back := x;
      head.next := x;
      x.at := (head.at + q.at) / 2.0;
      nodes := nodes + {x};
      LinkedInKeeps(x);
      assert forall m <- old(nodes) :: old(Within(m));
    }

    method InsertAtBack(x: Node)
      requires Valid() && x !in nodes && x != head && x != tail
      modifies x`next, x`back, x`at, this`nodes, (nodes + {head})`next, tail`back
      ensures Valid() && nodes == old(nodes) + {x}
      ensures forall m <- old(nodes) :: m.at < x.at
    {
      assert BackOk(tail) && NextOk(tail.back) && tail.back != x;
      ghost var p := tail.back;
      x.next := tail;
      x.back := tail.back;
      tail.back.next := x;
      tail.back := x;
      x.at := (p.at + tail.at) / 2.0;
      nodes := nodes + {x};
      LinkedInKeeps(x);
      assert forall m <- old(nodes) :: old(Within(m));
    }

    method InsertAfter(after: Node, x: Node)
      requires Valid() && after in nodes && x !in nodes && x != head && x != tail
      modifies x`next, x`back, x`at, this`nodes, after`next, (nodes + {tail})`back
      ensures Valid() && nodes == old(nodes) + {x}
      ensures forall m <- old(nodes) :: if m.at <= after.at then m.at < x.at else x.at < m.at
    {
      assert NextOk(after) && after.next != after && after.next != x;
      ghost var q := after.next;
      x.next := after.next;
      x.back := after;
      after.next.back := x;
      after.next := x;
      x.at := (after.at + q.at) / 2.0;
      nodes := nodes + {x};
      LinkedInKeeps(x);
    }

    method InsertBefore(before: Node, x: Node)
      requires Valid() && before in nodes && x !in nodes && x != head && x != tail
      modifies x`next, x`back, x`at, this`nodes, (nodes + {head})`next, before`back
      ensures Valid() && nodes == old(nodes) + {x}
      ensures forall m <- old(nodes) :: if m.at < before.at then m.at < x.at else x.at < m.at
    {
      assert BackOk(before) && before.back != x;
      if before.back != head { assert NextOk(before.back); } else { assert NextOk(head); }
      ghost var p := before.back;
      x.next := before;
      x.back := before.back;
      before.back.next := x;
      before.back := x;
      x.at := (p.at + before.at) / 2.0;
      nodes := nodes + {x};
      LinkedInKeeps(x);
    }

    // x, between p and q, has been taken out.
    twostate predicate LinkedOut(x: Node, p: Node, q: Node)
      reads *
    {
      && x in old(nodes) && nodes == old(nodes) - {x} && old(x.back) == p && old(x.next) == q
      && p.next == q && q.back == p && head.at == old(head.at) && tail.at == old(tail.at)
      && (p != head ==> head.next == old(head.next)) && (q != tail ==> tail.back == old(tail.back))
      && (forall n <- nodes ::
            n.at == old(n.at) && (n != p ==> n.next == old(n.next)) && (n != q ==> n.back == old(n.back)))
    }

    twostate lemma LinkedOutKeeps(x: Node)
      requires old(Valid() && x.back != null && x.next != null)
      requires var p, q := old(x.back), old(x.next); LinkedOut(x, p, q)
      ensures Valid()
    {
      ghost var p, q := old(x.back), old(x.next);
      assert old(NextOk(x)) && old(BackOk(x)) && old(Within(x)) && old(NextOk(p)) && old(BackOk(q)) &&
        old(NextOk(head)) && old(BackOk(tail));
      forall n | n in nodes ensures NextOk(n) {
        assert old(NextOk(n));
      }
      forall n | n in nodes ensures BackOk(n) {
        assert old(BackOk(n));
      }
      forall n | n in nodes ensures Within(n) {
        assert old(Within(n));
      }
      forall m | m in nodes ensures Apart(head, m) {
        assert old(Apart(head, m)) && old(Apart(x, m)) && old(Within(m));
      }
      forall n, m | n in nodes && m in nodes ensures Apart(n, m) {
        assert NextOk(n) && old(NextOk(n)) && old(Apart(n, m)) && old(Apart(x, m));
      }
    }

    method Remove(x: Node)
      requires Valid() && x in nodes
      modifies x`next, x`back, this`nodes, (nodes + {head})`next, (nodes + {tail})`back
      ensures Valid() && nodes == old(nodes) - {x} && x.next == x.back == null
    {
      assert NextOk(x) && BackOk(x);
      var front := x.back;
      var back := x.next;
      if front != head { assert NextOk(front); } else { assert NextOk(head); }
      front.next := back;
      back.back := front;
      x.back := null;
      x.next := null;
      nodes := nodes - {x};
      LinkedOutKeeps(x);
    }

    // ---- The sorted list ----

    ghost predicate InOrder(n: Node, m: Node)
      reads n`at, m`at
    {
      n.at < m.at ==> compare(n.data, m.data) <= 0
    }

    ghost predicate Sorted()
      reads this`nodes, nodes`at
    {
      forall n, m {:trigger InOrder(n, m)} :: n in nodes && m in nodes ==> InOrder(n, m)
    }

    // All that is not before n is greater than a value smaller than n's.
    lemma GreaterFrom(n: Node, d: Data)
      requires Valid() && Sorted() && TotalPreorder(compare) && n in nodes && compare(d, n.data) < 0
      ensures forall m <- nodes :: n.at <= m.at ==> compare(d, m.data) < 0
    {
      forall m | m in nodes && n.at <= m.at ensures compare(d, m.data) < 0 {
        assert NextOk(m) && NextOk(n) && Apart(n, m) && Apart(m, n) && InOrder(n, m);
        LessTrans(compare, d, n.data, m.data);
      }
    }

    // All that is not after n is not greater than a value that n's is not greater than.
    lemma NotGreaterUpTo(n: Node, d: Data)
      requires Valid() && Sorted() && TotalPreorder(compare) && n in nodes && compare(n.data, d) <= 0
      ensures forall m <- nodes :: m.at <= n.at ==> compare(m.data, d) <= 0
    {
      forall m | m in nodes && m.at <= n.at ensures compare(m.data, d) <= 0 {
        assert NextOk(m) && NextOk(n) && Apart(n, m) && Apart(m, n) && InOrder(m, n);
      }
    }

    twostate lemma StaysSorted(new x: Node)
      requires old(Sorted()) && nodes == old(nodes) + {x} && forall m <- old(nodes) :: m.at == old(m.at)
      requires forall m <- old(nodes) :: if m.at < x.at then compare(m.data, x.data) <= 0
        else compare(x.data, m.data) <= 0
      ensures Sorted()
    {
      forall n, m | n in nodes && m in nodes ensures InOrder(n, m) {
        if n != x && m != x { assert old(InOrder(n, m)); }
      }
    }

    // The last node that is not greater; the first one is not.
    method FindPlace(d: Data) returns (walk: Node)
      requires Valid() && Sorted() && TotalPreorder(compare) && nodes != {}
      requires head.next in nodes && compare(head.next.data, d) <= 0
      ensures walk in nodes
      ensures forall m <- nodes :: if m.at <= walk.at then compare(m.data, d) <= 0 else compare(d, m.data) < 0
    {
      walk := head.next;
      while true
        invariant walk in nodes && compare(walk.data, d) <= 0
        decreases set m | m in nodes && m.at > walk.at
      {
        assert NextOk(walk);
        NotGreaterUpTo(walk, d);
        forall m | m in nodes && m.at > walk.at ensures walk.next.at <= m.at { assert Apart(walk, m); }
        if walk.next == tail || compare(d, walk.next.data) < 0 {
          if walk.next != tail {
            GreaterFrom(walk.next, d);
          } else {
            assert forall m <- nodes :: Within(m);
          }
          return;
        }
        ghost var ahead := set m | m in nodes && m.at > walk.at;
        assert walk.next in ahead;
        walk := walk.next;
      }
    }

    // A sorted list takes the new node after every node that is not greater: equal ones
    // stay in the order of their insertion.
    method Insert(x: Node)
      requires Valid() && x !in nodes && x != head && x != tail
      requires sorted ==> TotalPreorder(compare) && Sorted()
      modifies x`next, x`back, x`at, this`nodes, (nodes + {head})`next, (nodes + {tail})`back
      ensures Valid() && nodes == old(nodes) + {x}
      ensures !sorted ==> forall m <- old(nodes) :: m.at < x.at
      ensures sorted ==> Sorted()
      ensures sorted ==> forall m <- old(nodes) :: if compare(m.data, x.data) <= 0 then m.at < x.at else x.at < m.at
    {
      if !sorted {
        InsertAtBack(x);
        return;
      }
      var first := GetFirst();
      if first == null || compare(x.data, first.data) < 0 {
        if first != null { GreaterFrom(first, x.data); }
        InsertAtFront(x);
        StaysSorted(x);
        return;
      }
      var walk := FindPlace(x.data);
      InsertAfter(walk, x);
      StaysSorted(x);
    }
  }
}

// The recursive walk of the red-black tree and the one that moves by parent links.
module RbWalk {
  import opened Options
  import opened Orders
  import opened RbNodes
  import opened Walks
  import Q = RbQueries

  // The order of the callbacks.
  datatype Mode = Inorder | Preorder

  ghost predicate Linked(t: Table)
    reads t, t.nodes, t.nil
  {
    t.NilOk() && t.Links()
  }

  // ---- What is visited ----

  ghost function Subtree(t: Table, m: Mode, x: Node): (s: seq<Node>)
    requires Linked(t) && (x == t.nil || x in t.nodes)
    reads t, t.nodes, t.nil
    ensures x != t.nil ==> |s| == x.hi - x.lo
    decreases if x in t.nodes then x.hi - x.lo else 0
  {
    if x == t.nil then [] else
      assert t.LeftOk(x) && t.RightOk(x);
      var before, after := Subtree(t, m, x.left), Subtree(t, m, x.right);
      if m == Preorder then [x] + before + after else before + [x] + after
  }

  // What comes after the whole subtree of x.
  ghost function After(t: Table, m: Mode, x: Node): (s: seq<Node>)
    requires Linked(t) && x in t.nodes
    reads t, t.nodes, t.nil
    decreases |t.inOrder| - (x.hi - x.lo)
  {
    assert t.UpOk(x) && t.RightOk(x) && t.LeftOk(x);
    var p := x.parent;
    if p == t.nil then [] else
      assert t.LeftOk(p) && t.RightOk(p);
      if x == p.left then (if m == Inorder then [p] else []) + Subtree(t, m, p.right) + After(t, m, p)
      else After(t, m, p)
  }

  // What is ahead of a walker that moves from x.
  ghost function Ahead(t: Table, m: Mode, x: Node, dir: Direction): seq<Node>
    requires Linked(t) && x in t.nodes
    reads t, t.nodes, t.nil
  {
    assert t.RightOk(x);
    match dir
    case Down => Subtree(t, m, x) + After(t, m, x)
    case Right => Subtree(t, m, x.right) + After(t, m, x)
    case Up => After(t, m, x)
  }

  // What follows x.
  ghost function Following(t: Table, m: Mode, x: Node): seq<Node>
    requires Linked(t) && x in t.nodes
    reads t, t.nodes, t.nil
  {
    assert t.LeftOk(x);
    (if m == Preorder then Subtree(t, m, x.left) else []) + Ahead(t, m, x, Right)
  }

  // What a walk that is started at a node, or at none, has ahead of it.
  ghost function Start(t: Table, m: Mode, start: Node?): seq<Node>
    requires Linked(t) && (start == null || start in t.nodes)
    reads t, t.nodes, t.nil
  {
    if start == null then Subtree(t, m, t.root) else Ahead(t, m, start, Right)
  }

  lemma Glue<T>(s: seq<T>, i: nat, j: nat, k: nat)
    requires i <= j < k <= |s|
    ensures s[i..k] == s[i..j] + [s[j]] + s[j + 1..k]
  {
  }

  lemma Rest<T>(s: seq<T>, i: nat, k: nat)
    requires i < k <= |s|
    ensures s[i..] == [s[i]] + s[i + 1..k] + s[k..]
  {
  }

  lemma Surround<T>(l: seq<T>, a: seq<T>, s: seq<T>, b: seq<T>, r: seq<T>)
    ensures l + (a + s + b) + r == (l + a) + s + (b + r)
  {
  }

  // In order, a subtree is its slice of the sequence,
  lemma {:induction false} InorderSubtree(t: Table, x: Node)
    requires Linked(t) && t.Ordered() && x in t.nodes
    ensures 0 <= x.lo <= x.hi <= |t.inOrder| && Subtree(t, Inorder, x) == t.inOrder[x.lo..x.hi]
    decreases x.hi - x.lo
  {
    assert t.LeftOk(x) && t.RightOk(x) && t.Placed(x);
    if x.left != t.nil { InorderSubtree(t, x.left); }
    if x.right != t.nil { InorderSubtree(t, x.right); }
    Glue(t.inOrder, x.lo, x.pos, x.hi);
  }

  // and what comes after it is the rest of the sequence.
  lemma {:induction false} InorderAfter(t: Table, x: Node)
    requires Linked(t) && t.Ordered() && x in t.nodes
    ensures 0 <= x.lo <= x.hi <= |t.inOrder| && After(t, Inorder, x) == t.inOrder[x.hi..]
    decreases |t.inOrder| - (x.hi - x.lo)
  {
    assert t.UpOk(x) && t.RightOk(x) && t.LeftOk(x);
    var p := x.parent;
    if p != t.nil {
      assert t.LeftOk(p) && t.RightOk(p) && t.Placed(p);
      InorderAfter(t, p);
      if p.right != t.nil { InorderSubtree(t, p.right); }
      Rest(t.inOrder, p.pos, p.hi);
    }
  }

  ghost function First(start: Node?): int
    reads start
  {
    if start == null then 0 else start.pos + 1
  }

  // So a walk in order visits the sequence from behind its start on.
  lemma InorderStart(t: Table, start: Node?)
    requires Linked(t) && t.Ordered() && (start == null || start in t.nodes)
    ensures 0 <= First(start) <= |t.inOrder| && Start(t, Inorder, start) == t.inOrder[First(start)..]
  {
    if start != null {
      assert t.LeftOk(start) && t.RightOk(start);
      InorderAfter(t, start);
      if start.right != t.nil { InorderSubtree(t, start.right); }
      var s := t.inOrder;
      assert s[start.pos + 1..] == s[start.pos + 1..start.hi] + s[start.hi..];
    } else if t.root != t.nil {
      InorderSubtree(t, t.root);
    }
  }

  lemma Mixed<T>(x: T, a: seq<T>, b: seq<T>, c: seq<T>, d: seq<T>)
    requires multiset(a) == multiset(c) && multiset(b) == multiset(d)
    ensures multiset([x] + a + b) == multiset(c + [x] + d)
  {
  }

  // In pre-order, a subtree has the same nodes,
  lemma {:induction false} SameNodes(t: Table, x: Node)
    requires Linked(t) && (x == t.nil || x in t.nodes)
    ensures multiset(Subtree(t, Preorder, x)) == multiset(Subtree(t, Inorder, x))
    decreases if x in t.nodes then x.hi - x.lo else 0
  {
    if x != t.nil {
      assert t.LeftOk(x) && t.RightOk(x);
      SameNodes(t, x.left);
      SameNodes(t, x.right);
      Mixed(x, Subtree(t, Preorder, x.left), Subtree(t, Preorder, x.right),
        Subtree(t, Inorder, x.left), Subtree(t, Inorder, x.right));
    }
  }

  lemma Apart(t: Table, x: Node, y: Node)
    requires t.Ordered() && x in t.nodes && y in t.nodes
    ensures x == y <==> x.pos == y.pos
  {
    assert t.Placed(x) && t.Placed(y);
  }

  // and every node is followed at once by what is below it.
  lemma {:induction false} InOnePiece(t: Table, x: Node, y: Node) returns (a: seq<Node>, b: seq<Node>)
    requires Linked(t) && t.Ordered() && x in t.nodes && y in t.nodes && x.lo <= y.pos < x.hi
    ensures Subtree(t, Preorder, x) == a + Subtree(t, Preorder, y) + b
    decreases x.hi - x.lo
  {
    assert t.LeftOk(x) && t.RightOk(x);
    Apart(t, x, y);
    if x == y {
      return [], [];
    }
    var before, after := Subtree(t, Preorder, x.left), Subtree(t, Preorder, x.right);
    var piece := Subtree(t, Preorder, y);
    if y.pos < x.pos {
      a, b := InOnePiece(t, x.left, y);
      Surround([x], a, piece, b, after);
      a, b := [x] + a, b + after;
    } else {
      a, b := InOnePiece(t, x.right, y);
      Surround([x] + before, a, piece, b, []);
      a := [x] + before + a;
    }
  }

  // ---- The walks ----

  // The recursive walk: it visits exactly the slice of its node.
  method RecursiveWalk(t: Table, x: Node) returns (visited: seq<Node>)
    requires t.NilOk() && t.Links() && t.Ordered() && (x == t.nil || x in t.nodes)
    ensures x == t.nil ==> visited == []
    ensures x != t.nil ==> 0 <= x.lo <= x.hi <= |t.inOrder| && visited == t.inOrder[x.lo..x.hi]
    decreases if x in t.nodes then x.hi - x.lo else 0
  {
    if x == t.nil {
      return [];
    }
    assert t.LeftOk(x) && t.RightOk(x) && t.Placed(x);
    var before := RecursiveWalk(t, x.left);
    var after := RecursiveWalk(t, x.right);
    assert before == t.inOrder[x.lo..x.pos] && after == t.inOrder[x.pos + 1..x.hi];
    Glue(t.inOrder, x.lo, x.pos, x.hi);
    visited := before + [x] + after;
  }

  // Moves without a visit reduce this.
  ghost function Effort(t: Table, x: Node, dir: Direction): int
    reads t`inOrder, x
  {
    if dir == Down then x.hi - x.lo else 2 * |t.inOrder| + 2 - (x.hi - x.lo)
  }

  lemma Arranged(x: Node, l: seq<Node>, r: seq<Node>, rest: seq<Node>)
    ensures ([x] + l + r) + rest == [x] + (l + (r + rest))
    ensures (l + [x] + r) + rest == l + ([x] + r + rest)
    ensures l + ([] + r + rest) == l + (r + rest)
    ensures l == [] ==> (l + [x] + r) + rest == [x] + ([] + (r + rest))
    ensures [] + (r + rest) == r + rest
  {
  }

  // What each move leaves ahead.
  lemma AfterLeft(t: Table, m: Mode, x: Node)
    requires Linked(t) && x in t.nodes && x.left in t.nodes && t.RightOk(x)
    ensures After(t, m, x.left) == (if m == Inorder then [x] else []) + Subtree(t, m, x.right) + After(t, m, x)
  {
    assert t.LeftOk(x) && t.RightOk(x) && t.UpOk(x.left);
  }

  lemma GoDown(t: Table, m: Mode, x: Node)
    requires Linked(t) && x in t.nodes
    ensures x.left in t.nodes || x.left == t.nil
    ensures m == Preorder || x.left == t.nil ==> Ahead(t, m, x, Down) == [x] + Following(t, m, x)
    ensures x.left == t.nil ==> Following(t, m, x) == Ahead(t, m, x, Right)
    ensures x.left != t.nil ==>
      Ahead(t, m, x.left, Down) == if m == Preorder then Following(t, m, x) else Ahead(t, m, x, Down)
  {
    assert t.LeftOk(x) && t.RightOk(x);
    var l, r, rest := Subtree(t, m, x.left), Subtree(t, m, x.right), After(t, m, x);
    Arranged(x, l, r, rest);
    if x.left != t.nil {
      AfterLeft(t, m, x);
    }
  }

  lemma GoRight(t: Table, m: Mode, x: Node)
    requires Linked(t) && x in t.nodes
    ensures if x.right == t.nil then Ahead(t, m, x, Right) == After(t, m, x)
      else x.right in t.nodes && Ahead(t, m, x.right, Down) == Ahead(t, m, x, Right)
  {
    assert t.LeftOk(x) && t.RightOk(x);
    if x.right != t.nil { assert t.UpOk(x.right) && t.LeftOk(x.right); }
  }

  lemma GoUp(t: Table, m: Mode, x: Node)
    requires Linked(t) && x in t.nodes
    ensures if x.parent == t.nil then After(t, m, x) == [] else
      && x.parent in t.nodes && x.parent.hi - x.parent.lo > x.hi - x.lo
      && After(t, m, x) ==
        if x != x.parent.left then After(t, m, x.parent)
        else if m == Inorder then [x.parent] + Following(t, m, x.parent) else Ahead(t, m, x.parent, Right)
  {
    assert t.UpOk(x) && t.LeftOk(x) && t.RightOk(x);
    if x.parent != t.nil { assert t.LeftOk(x.parent) && t.RightOk(x.parent); }
  }

  // The node that is returned after a last visit to y.
  ghost function StopAt(t: Table, m: Mode, y: Node): Node
    reads t, y
  {
    if m == Preorder && y.left != t.nil then y.left else y
  }

  // One turn leaves the rest ahead, or it visits the first of it.
  ghost predicate Moves(t: Table, m: Mode, x0: Node, dir0: Direction, x: Node, dir: Direction, visit: Node?)
    requires Linked(t) && x0 in t.nodes
    reads t, t.nodes, t.nil
  {
    if x == t.nil then visit == null && Ahead(t, m, x0, dir0) == [] else
      && x in t.nodes && Effort(t, x, dir) >= 0
      && if visit == null then
        Ahead(t, m, x, dir) == Ahead(t, m, x0, dir0) && Effort(t, x, dir) < Effort(t, x0, dir0)
      else
        && visit in t.nodes && x == StopAt(t, m, visit) && Ahead(t, m, x, dir) == Following(t, m, visit)
        && Ahead(t, m, x0, dir0) == [visit] + Following(t, m, visit)
  }

  lemma MoveDown(t: Table, m: Mode, x: Node)
    requires Linked(t) && x in t.nodes
    ensures if x.left == t.nil then Moves(t, m, x, Down, x, Right, x)
      else x.left in t.nodes && Moves(t, m, x, Down, x.left, Down, if m == Preorder then x else null)
  {
    assert t.LeftOk(x) && t.RightOk(x);
    if x.left != t.nil { assert t.LeftOk(x.left) && t.RightOk(x.left); }
    GoDown(t, m, x);
  }

  lemma MoveRight(t: Table, m: Mode, x: Node)
    requires Linked(t) && x in t.nodes && x.right != t.nil
    ensures x.right in t.nodes && Moves(t, m, x, Right, x.right, Down, null)
  {
    assert t.LeftOk(x) && t.RightOk(x) && t.LeftOk(x.right) && t.RightOk(x.right);
    GoRight(t, m, x);
  }

  lemma MoveUp(t: Table, m: Mode, x: Node, dir: Direction)
    requires Linked(t) && x in t.nodes && (dir == Up || (dir == Right && x.right == t.nil))
    ensures
      if x.parent == t.nil then Moves(t, m, x, dir, t.nil, dir, null)
      else if x != x.parent.left then Moves(t, m, x, dir, x.parent, Up, null)
      else Moves(t, m, x, dir, x.parent, Right, if m == Inorder then x.parent else null)
  {
    assert t.UpOk(x) && t.LeftOk(x) && t.RightOk(x);
    if x.parent != t.nil { assert t.LeftOk(x.parent) && t.RightOk(x.parent); }
    GoRight(t, m, x);
    GoUp(t, m, x);
  }

  // One turn of the walking loop: x becomes the sentinel at the end of the walk.
  method Move(t: Table, m: Mode, x0: Node, dir0: Direction) returns (x: Node, dir: Direction, visit: Node?)
    requires Linked(t) && x0 in t.nodes
    ensures Moves(t, m, x0, dir0, x, dir, visit)
  {
    x, dir, visit := x0, dir0, null;
    match dir {
      case Down =>
        MoveDown(t, m, x);
        if x.left != t.nil {
          if m == Preorder {
            visit := x;
          }
          x := x.left;
        } else {
          visit := x;
          dir := Right;
        }
      case Right =>
        if x.right == t.nil {
          MoveUp(t, m, x, dir);
          var y := x;
          x := x.parent;
          if x == t.nil {
            return;
          }
          if y == x.left {
            if m == Inorder {
              visit := x;
            }
          } else {
            dir := Up;
          }
        } else {
          MoveRight(t, m, x);
          dir := Down;
          x := x.right;
        }
      case Up =>
        MoveUp(t, m, x, dir);
        var y := x;
        x := x.parent;
        if x == t.nil {
          return;
        }
        if y == x.left {
          dir := Right;
          if m == Inorder {
            visit := x;
          }
        }
    }
  }

  // After a last visit, what is ahead is what follows it.
  ghost predicate StopsAt(t: Table, m: Mode, start: Node?, visited: seq<Node>, r: Node?)
    requires Linked(t) && (start == null || start in t.nodes)
    reads t, t.nodes, t.nil
  {
    && visited != [] && visited[|visited| - 1] in t.nodes
    && Start(t, m, start) == visited + Following(t, m, visited[|visited| - 1])
    && r == StopAt(t, m, visited[|visited| - 1])
  }

  // While the walk goes on, what is ahead is what a walker at x has ahead of it.
  ghost predicate Walking(t: Table, m: Mode, start: Node?, visited: seq<Node>, x: Node, dir: Direction)
    requires Linked(t) && (start == null || start in t.nodes)
    reads t, t.nodes, t.nil
  {
    x in t.nodes && Start(t, m, start) == visited + Ahead(t, m, x, dir) && Effort(t, x, dir) >= 0
  }

  lemma SetsOut(t: Table, m: Mode, start: Node?)
    requires Linked(t) && (start == null || start in t.nodes)
    ensures if start != null then Walking(t, m, start, [], start, Right)
      else if t.root != t.nil then Walking(t, m, start, [], t.root, Down)
      else Start(t, m, start) == [] && t.inOrder == []
  {
    var x := if start != null then start else t.root;
    if x != t.nil { assert t.LeftOk(x) && t.RightOk(x) && t.UpOk(x); }
  }

  lemma Shift<T>(s: seq<T>, x: T, r: seq<T>)
    ensures s + ([x] + r) == (s + [x]) + r
  {
  }

  lemma Moved(t: Table, m: Mode, start: Node?, visited: seq<Node>, x0: Node, dir0: Direction, x: Node, dir: Direction,
    visit: Node?)
    requires Linked(t) && (start == null || start in t.nodes)
    requires Walking(t, m, start, visited, x0, dir0) && Moves(t, m, x0, dir0, x, dir, visit)
    ensures |visited| <= |Start(t, m, start)|
    ensures if x == t.nil then Start(t, m, start) == visited
      else if visit == null then
        Walking(t, m, start, visited, x, dir) && 0 <= Effort(t, x, dir) < Effort(t, x0, dir0)
      else
        && |visited| < |Start(t, m, start)|
        && Walking(t, m, start, visited + [visit], x, dir) && StopsAt(t, m, start, visited + [visit], x)
  {
    if visit != null {
      Shift(visited, visit, Following(t, m, visit));
    }
  }

  // So many visits are left after n of them.
  ghost predicate Tally(stop: nat -> bool, cnt: int, left: nat, n: nat)
    requires -0x8000_0000 <= cnt < 0x8000_0000
  {
    if left == 0 then Ends(stop, cnt, n) else Going(stop, cnt, left, n)
  }

  lemma Counted(stop: nat -> bool, cnt: int, left: nat, n: nat)
    requires -0x8000_0000 <= cnt < 0x8000_0000 && left > 0 && Tally(stop, cnt, left, n)
    ensures Tally(stop, cnt, if stop(n) then 0 else left - 1, n + 1)
  {
    Count(stop, cnt, left, n);
  }

  // The callback's i-th answer is stop(i). The walk visits what is ahead of its start
  // until the callback stops it or the count is used up.
  method Walk(t: Table, start: Node?, m: Mode, cnt: int, stop: nat -> bool) returns (r: Node?, visited: seq<Node>)
    requires Linked(t) && (start == null || start in t.nodes)
    requires -0x8000_0000 <= cnt < 0x8000_0000
    ensures if Ends(stop, cnt, |visited|) then
        StopsAt(t, m, start, visited, r)
      else
        && Quiet(stop, |visited|) && |visited| < Limit(cnt)
        && Start(t, m, start) == visited && r == (if start == null && t.inOrder == [] then t.nil else null)
  {
    var left: nat := Limit(cnt);
    var x: Node := t.root;
    var dir := Down;
    visited := [];
    if start != null {
      x, dir := start, Right;
    }
    SetsOut(t, m, start);
    while left > 0 && x != t.nil
      invariant x == t.nil ==> start == null && t.inOrder == [] && visited == [] == Start(t, m, start)
      invariant x != t.nil && left > 0 ==> Walking(t, m, start, visited, x, dir)
      invariant Tally(stop, cnt, left, |visited|)
      invariant left == 0 ==> StopsAt(t, m, start, visited, x)
      decreases left, if x == t.nil then 0 else Effort(t, x, dir)
    {
      ghost var x0, dir0 := x, dir;
      var visit;
      x, dir, visit := Move(t, m, x, dir);
      Moved(t, m, start, visited, x0, dir0, x, dir, visit);
      if x == t.nil {
        return null, visited;
      }
      if visit != null {
        var n := |visited|;
        var last := stop(n);
        Counted(stop, cnt, left, n);
        left := left - 1;
        if last {
          left := 0;
        }
        var y: Node := visit;
        visited := visited + [y];
        assert |visited| == n + 1;
      }
    }
    r := x;
  }

  // What the count means for this walk.
  lemma WalkKeepsCount(t: Table, start: Node?, m: Mode, cnt: int, stop: nat -> bool, r: Node?, visited: seq<Node>)
    requires Linked(t) && (start == null || start in t.nodes) && -0x8000_0000 <= cnt < 0x8000_0000
    requires if Ends(stop, cnt, |visited|) then StopsAt(t, m, start, visited, r)
      else Quiet(stop, |visited|) && |visited| < Limit(cnt) && Start(t, m, start) == visited
    ensures visited <= Start(t, m, start) && CountKept(stop, cnt, |visited|, visited != Start(t, m, start))
  {
    CountIsKept(stop, cnt, |visited|, visited != Start(t, m, start));
  }

  // In order, what has been visited is the part of the sequence behind the start.
  lemma InorderVisits(t: Table, start: Node?, visited: seq<Node>, rest: seq<Node>)
    requires Linked(t) && t.Ordered() && (start == null || start in t.nodes)
    requires Start(t, Inorder, start) == visited + rest
    ensures 0 <= First(start) && First(start) + |visited| <= |t.inOrder|
    ensures visited == t.inOrder[First(start)..First(start) + |visited|]
  {
    InorderStart(t, start);
    var s := t.inOrder[First(start)..];
    assert visited == s[..|visited|];
  }

  // ---- Resumed walks ----

  // What a walk loses that is resumed where one has stopped after a visit to y: in
  // pre-order, the left child, which has not been visited, and what is to its left.
  ghost function Lost(t: Table, m: Mode, y: Node): seq<Node>
    requires Linked(t) && y in t.nodes
    reads t, t.nodes, t.nil
  {
    assert t.LeftOk(y);
    if m == Inorder || y.left == t.nil then [] else
      assert t.LeftOk(y.left);
      [y.left] + Subtree(t, m, y.left.left)
  }

  lemma Resumed(t: Table, m: Mode, y: Node)
    requires Linked(t) && y in t.nodes
    ensures StopAt(t, m, y) in t.nodes
    ensures Following(t, m, y) == Lost(t, m, y) + Start(t, m, StopAt(t, m, y))
  {
    assert t.LeftOk(y);
    if m == Preorder && y.left != t.nil {
      var x := y.left;
      GoDown(t, m, y);
      GoDown(t, m, x);
      Regroup([x], Subtree(t, m, x.left), Start(t, m, x));
    }
  }

  lemma Regroup<T>(a: seq<T>, b: seq<T>, c: seq<T>)
    ensures a + (b + c) == (a + b) + c
  {
  }

  ghost predicate Nodes(t: Table, ys: seq<Node>)
    reads t`nodes
  {
    forall y <- ys :: y in t.nodes
  }

  // The slices of walks that stopped at ys, with what was lost after each of them.
  ghost function Woven(t: Table, m: Mode, slices: seq<seq<Node>>, ys: seq<Node>): seq<Node>
    requires Linked(t) && |slices| == |ys| && Nodes(t, ys)
    reads t, t.nodes, t.nil
  {
    if ys == [] then [] else slices[0] + Lost(t, m, ys[0]) + Woven(t, m, slices[1..], ys[1..])
  }

  ghost function Joined(slices: seq<seq<Node>>): seq<Node> {
    if slices == [] then [] else slices[0] + Joined(slices[1..])
  }

  // The walks from the k-th on, which have been stopped, at ys, went as their counts and
  // callbacks say.
  ghost predicate Stopped(cnt: nat -> int, stop: nat -> nat -> bool, k: nat, slices: seq<seq<Node>>, ys: seq<Node>)
    requires forall i :: -0x8000_0000 <= cnt(i) < 0x8000_0000
    decreases |ys|
  {
    |slices| == |ys| && (ys != [] ==>
      && Ends(stop(k), cnt(k), |slices[0]|) && slices[0][|slices[0]| - 1] == ys[0]
      && Stopped(cnt, stop, k + 1, slices[1..], ys[1..]))
  }

  lemma OneSlice(t: Table, m: Mode, slice: seq<Node>, y: Node, slices: seq<seq<Node>>, ys: seq<Node>, last: seq<Node>,
    whole: seq<Node>, ahead: seq<Node>)
    requires Linked(t) && |slices| == |ys| && Nodes(t, ys) && y in t.nodes
    requires whole == slice + (Lost(t, m, y) + ahead) && ahead == Woven(t, m, slices, ys) + last
    ensures Nodes(t, [y] + ys) && whole == Woven(t, m, [slice] + slices, [y] + ys) + last
    ensures slice + (Joined(slices) + last) == Joined([slice] + slices) + last
  {
    var slices1, ys1 := [slice] + slices, [y] + ys;
    assert slices1[1..] == slices && ys1[1..] == ys && slices1[0] == slice && ys1[0] == y;
    FourParts(slice, Lost(t, m, y), Woven(t, m, slices, ys), last);
    Regroup(slice, Joined(slices), last);
  }

  lemma FourParts<T>(a: seq<T>, b: seq<T>, c: seq<T>, d: seq<T>)
    ensures (a + b + c) + d == a + (b + (c + d))
  {
  }

  lemma StoppedMore(cnt: nat -> int, stop: nat -> nat -> bool, k: nat, slice: seq<Node>, y: Node,
    slices: seq<seq<Node>>, ys: seq<Node>)
    requires (forall i :: -0x8000_0000 <= cnt(i) < 0x8000_0000) && Stopped(cnt, stop, k + 1, slices, ys)
    requires Ends(stop(k), cnt(k), |slice|) && slice[|slice| - 1] == y
    ensures Stopped(cnt, stop, k, [slice] + slices, [y] + ys)
  {
    assert ([slice] + slices)[1..] == slices && ([y] + ys)[1..] == ys;
  }

  // Without losses the slices put together the whole sequence, with losses they are shorter.
  lemma {:induction false} Gaps(t: Table, m: Mode, slices: seq<seq<Node>>, ys: seq<Node>)
    requires Linked(t) && |slices| == |ys| && Nodes(t, ys)
    ensures if m == Inorder || (forall y <- ys :: y.left == t.nil) then Joined(slices) == Woven(t, m, slices, ys)
      else |Joined(slices)| < |Woven(t, m, slices, ys)|
  {
    if ys != [] {
      Gaps(t, m, slices[1..], ys[1..]);
      assert ys == [ys[0]] + ys[1..];
    }
  }

  // One walk: it is the last one, or it stops at y.
  method NextSlice(t: Table, m: Mode, start: Node?, cnt: int, stop: nat -> bool)
    returns (r: Node?, slice: seq<Node>, more: bool, ghost y: Node)
    requires Linked(t) && (start == null || start in t.nodes) && -0x8000_0000 <= cnt < 0x8000_0000
    ensures more == Ends(stop, cnt, |slice|)
    ensures if more then
        && r in t.nodes && y in t.nodes && slice[|slice| - 1] == y && |Start(t, m, r)| < |Start(t, m, start)|
        && Start(t, m, start) == slice + (Lost(t, m, y) + Start(t, m, r))
      else Start(t, m, start) == slice
  {
    r, slice := Walk(t, start, m, cnt, stop);
    more := r != null && r != t.nil;
    y := t.nil;
    if more {
      y := slice[|slice| - 1];
      Resumed(t, m, y);
    }
  }

  method Slices(t: Table, m: Mode, start: Node?, cnt: nat -> int, stop: nat -> nat -> bool, k: nat)
    returns (visited: seq<Node>, ghost slices: seq<seq<Node>>, ghost ys: seq<Node>, ghost last: seq<Node>, ghost n: nat)
    requires Linked(t) && (start == null || start in t.nodes) && forall i :: -0x8000_0000 <= cnt(i) < 0x8000_0000
    ensures Stopped(cnt, stop, k, slices, ys) && n == k + |ys| && !Ends(stop(n), cnt(n), |last|)
    ensures visited == Joined(slices) + last
    ensures Nodes(t, ys) && Start(t, m, start) == Woven(t, m, slices, ys) + last
    decreases |Start(t, m, start)|
  {
    var r, slice, more;
    ghost var y;
    r, slice, more, y := NextSlice(t, m, start, cnt(k), stop(k));
    if !more {
      return slice, [], [], slice, k;
    }
    ghost var whole, ahead := Start(t, m, start), Start(t, m, r);
    var rest;
    rest, slices, ys, last, n := Slices(t, m, r, cnt, stop, k + 1);
    visited := slice + rest;
    OneSlice(t, m, slice, y, slices, ys, last, whole, ahead);
    StoppedMore(cnt, stop, k, slice, y, slices, ys);
    slices, ys := [slice] + slices, [y] + ys;
  }

  // Walks of any lengths, with any callbacks: in the k-th one the count is cnt(k) and the
  // callback's i-th answer stop(k)(i). Each is resumed from the node that the last one returned;
  // slices are those that stopped, at ys. In order they put together the whole sequence, in
  // pre-order they do so exactly if they have stopped only at nodes without a left child.
  method WalkInSlices(t: Table, m: Mode, cnt: nat -> int, stop: nat -> nat -> bool)
    returns (visited: seq<Node>, ghost slices: seq<seq<Node>>, ghost ys: seq<Node>, ghost last: seq<Node>)
    requires Linked(t)
    requires forall k :: -0x8000_0000 <= cnt(k) < 0x8000_0000
    ensures Stopped(cnt, stop, 0, slices, ys) && !Ends(stop(|ys|), cnt(|ys|), |last|)
    ensures visited == Joined(slices) + last
    ensures Nodes(t, ys) && Start(t, m, null) == Woven(t, m, slices, ys) + last
    ensures visited == Start(t, m, null) <==> m == Inorder || (forall y <- ys :: y.left == t.nil)
    ensures t.Ordered() && m == Inorder ==> visited == t.inOrder
  {
    ghost var n;
    visited, slices, ys, last, n := Slices(t, m, null, cnt, stop, 0);
    Gaps(t, m, slices, ys);
    if t.Ordered() {
      InorderStart(t, null);
    }
  }

  // ---- Where a walk stands ----

  // In both orders, nothing in a subtree is outside its slice,
  lemma {:induction false} SubtreeWithin(t: Table, m: Mode, x: Node, y: Node)
    requires Linked(t) && x in t.nodes && y in Subtree(t, m, x)
    ensures y in t.nodes && x.lo <= y.pos < x.hi
    decreases x.hi - x.lo
  {
    assert t.LeftOk(x) && t.RightOk(x);
    if y != x {
      if y in Subtree(t, m, x.left) { SubtreeWithin(t, m, x.left, y); }
      else { SubtreeWithin(t, m, x.right, y); }
    }
  }

  // and nothing that comes after it is before its end.
  lemma {:induction false} AfterBehind(t: Table, m: Mode, x: Node, y: Node)
    requires Linked(t) && x in t.nodes && y in After(t, m, x)
    ensures y in t.nodes && x.hi <= y.pos
    decreases |t.inOrder| - (x.hi - x.lo)
  {
    assert t.UpOk(x) && t.LeftOk(x) && t.RightOk(x);
    var p := x.parent;
    assert t.LeftOk(p) && t.RightOk(p);
    if y in After(t, m, p) { AfterBehind(t, m, p, y); }
    else if y != p { SubtreeWithin(t, m, p.right, y); }
  }

  // So a walk that is started at a node does not visit it.
  lemma NotAgain(t: Table, m: Mode, x: Node)
    requires Linked(t) && x in t.nodes
    ensures x !in Start(t, m, x)
    ensures Following(t, m, x) == [] || Following(t, m, x)[0] != x
    ensures m == Preorder && x.left != t.nil ==> Following(t, m, x) != [] && Following(t, m, x)[0] == x.left
  {
    assert t.LeftOk(x) && t.RightOk(x);
    if x in Start(t, m, x) {
      if x in Subtree(t, m, x.right) { SubtreeWithin(t, m, x.right, x); }
      else { AfterBehind(t, m, x, x); }
    }
    if m == Preorder && x.left != t.nil {
      assert Subtree(t, m, x.left)[0] == x.left;
      assert x.left != x;
    }
  }

  // ---- The public walk ----

  // What a search for d finds: an equal element, or the least greater one, or none.
  ghost predicate AtOrAfter(t: Table, d: Data, x: Node?)
    reads t`inOrder, t.inOrder`data, (if x == null then {} else {x})
  {
    if x == null then Q.AllLess(t, d, |t.inOrder|)
    else t.compare(d, x.data) <= 0 && (t.compare(d, x.data) != 0 ==> Q.AllLess(t, d, x.pos))
  }

  // It does not begin at the element that the search finds, but behind it;
  // and if there is none, at the first one.
  method WalkFrom(t: Table, d: Option<Data>, m: Mode, cnt: int, stop: nat -> bool)
    returns (r: Node?, ghost found: Node?, visited: seq<Node>)
    requires t.Valid() && TotalPreorder(t.compare) && -0x8000_0000 <= cnt < 0x8000_0000
    ensures found != null ==> found in t.nodes
    ensures if d.Some? then AtOrAfter(t, d.value, found) else found == null
    ensures Walked(t, m, found, cnt, stop, visited, r)
  {
    var start: Node? := null;
    if d.Some? {
      ghost var compared;
      start, compared := Q.GetExactOrNext(t, d.value);
    }
    found := start;
    r, visited := Walk(t, start, m, cnt, stop);
    if r == t.nil {
      r := null;
    }
  }

  // The walk has ended as it does from this start.
  ghost predicate Walked(t: Table, m: Mode, start: Node?, cnt: int, stop: nat -> bool, visited: seq<Node>, r: Node?)
    requires Linked(t) && (start == null || start in t.nodes) && -0x8000_0000 <= cnt < 0x8000_0000
    reads t, t.nodes, t.nil
  {
    && CountKept(stop, cnt, |visited|, visited != Start(t, m, start))
    && if Ends(stop, cnt, |visited|) then StopsAt(t, m, start, visited, r)
    else Quiet(stop, |visited|) && |visited| < Limit(cnt) && Start(t, m, start) == visited && r == null
  }

  // What the documentation says is ahead: the element found and what follows it,
  // or nothing if there is none.
  ghost function PromisedStart(t: Table, m: Mode, d: Option<Data>, found: Node?): seq<Node>
    requires Linked(t) && (found == null || found in t.nodes)
    reads t, t.nodes, t.nil
  {
    if d == None then Start(t, m, null) else if found == null then [] else [found] + Following(t, m, found)
  }

  // A walk with a key begins as documented only in an empty tree.
  lemma PromisedBegin(t: Table, d: Option<Data>, m: Mode, found: Node?, cnt: int, stop: nat -> bool,
    visited: seq<Node>, r: Node?)
    requires Linked(t) && t.Ordered() && -0x8000_0000 <= cnt < 0x8000_0000
    requires found != null ==> d.Some? && found in t.nodes
    requires Walked(t, m, found, cnt, stop, visited, r)
    ensures var p := PromisedStart(t, m, d, found);
      visited <= p && (visited == [] ==> p == []) <==> d == None || t.inOrder == []
  {
    var all := Start(t, m, found);
    assert visited <= all && (visited == [] ==> all == []);
    if found != null {
      assert t.Placed(found);
      NotAgain(t, m, found);
      assert visited != [] ==> visited[0] == all[0];
    } else {
      EmptyTree(t, m);
    }
  }

  lemma EmptyTree(t: Table, m: Mode)
    requires Linked(t)
    ensures Start(t, m, null) == [] <==> t.inOrder == []
  {
    if t.root != t.nil {
      assert t.LeftOk(t.root) && t.RightOk(t.root);
    }
  }

  // It hands back what is documented, the element after the last visited, exactly if it
  // has not been stopped or has stopped, in pre-order, at a node with a left child.
  lemma PromisedResult(t: Table, m: Mode, start: Node?, cnt: int, stop: nat -> bool, visited: seq<Node>, r: Node?)
    requires Linked(t) && -0x8000_0000 <= cnt < 0x8000_0000
    requires start == null || start in t.nodes
    requires Walked(t, m, start, cnt, stop, visited, r)
    ensures visited <= Start(t, m, start)
    ensures var rest := Start(t, m, start)[|visited|..];
      (r == if rest == [] then null else rest[0]) <==>
      (Ends(stop, cnt, |visited|) ==> m == Preorder && visited[|visited| - 1].left != t.nil)
  {
    if Ends(stop, cnt, |visited|) {
      NotAgain(t, m, visited[|visited| - 1]);
    }
  }

  // In a tree of one node, a walk from its key visits nothing.
  lemma OnlyNode(t: Table, x: Node, m: Mode)
    requires Linked(t) && t.Ordered() && t.inOrder == [x]
    ensures x in t.nodes && Start(t, m, x) == []
  {
    assert t.Slot(0) && t.Placed(t.root);
    assert t.LeftOk(x) && t.RightOk(x);
  }

  method WalkFromHere(t: Table, x: Node, m: Mode) returns (visited: seq<Node>)
    requires t.Valid() && TotalPreorder(t.compare) && t.inOrder == [x]
    ensures visited == []
  {
    var r;
    ghost var found;
    assert t.Slot(0) && (t.compare(x.data, x.data) < 0 <==> t.compare(x.data, x.data) > 0);
    assert t.CompareAt(x.data, 0) == 0;
    r, found, visited := WalkFrom(t, Some(x.data), m, 0, (i: nat) => false);
    assert found != null && t.Placed(found) && found == x;
    OnlyNode(t, x, m);
  }

  method WalkFromExample(data: Data, compare: (Data, Data) -> int, m: Mode)
    returns (t: Table, x: Node, visited: seq<Node>)
    requires TotalPreorder(compare)
    ensures t.Valid() && t.compare == compare && t.inOrder == [x] && visited == []
  {
    t := new Table(compare);
    x := new Node(data, t.nil);
    x := t.Insert(x);
    visited := WalkFromHere(t, x, m);
  }

  lemma RedBelow(t: Table, c: Node)
    requires t.Balanced() && c in t.nodes && c.parent in t.nodes && t.nil !in t.nodes
    ensures c.bh > 0 || c.parent.bh > 0
  {
    assert t.HeightOk(c) && t.ColorOk(c) && t.HeightOk(c.parent);
  }

  // From three nodes on, the root has a left child,
  lemma RootHasLeft(t: Table)
    requires t.Valid() && |t.inOrder| >= 3
    ensures t.root in t.nodes && t.root.left in t.nodes
  {
    var x := t.root;
    assert t.LeftOk(x) && t.RightOk(x) && t.HeightOk(x);
    if x.left == t.nil {
      var y := x.right;
      assert t.LeftOk(y) && t.RightOk(y);
      var c := if y.left != t.nil then y.left else y.right;
      assert c in t.nodes && t.HeightOk(y);
      RedBelow(t, c);
    }
  }

  lemma AtMostAll(t: Table, m: Mode, x: Node)
    requires Linked(t) && x in t.nodes
    ensures |Start(t, m, x)| <= |t.inOrder|
  {
    assert t.RightOk(x) && t.LeftOk(x);
    AfterSize(t, m, x);
  }

  lemma {:induction false} AfterSize(t: Table, m: Mode, x: Node)
    requires Linked(t) && x in t.nodes
    ensures |After(t, m, x)| <= |t.inOrder| - x.hi
    decreases |t.inOrder| - (x.hi - x.lo)
  {
    assert t.UpOk(x) && t.LeftOk(x) && t.RightOk(x);
    var p := x.parent;
    if p != t.nil {
      assert t.LeftOk(p) && t.RightOk(p);
      AfterSize(t, m, p);
    }
  }

  method VisitOne(t: Table) returns (r: Node?, visited: seq<Node>)
    requires Linked(t) && t.root in t.nodes && t.root.left in t.nodes
    ensures r == t.root.left && visited == [t.root]
  {
    r, visited := Walk(t, null, Preorder, 1, (i: nat) => false);
    assert t.LeftOk(t.root) && t.RightOk(t.root);
    assert |visited| == 1 && Start(t, Preorder, null)[0] == t.root;
    assert visited[0] == t.root;
  }

  // and a walk in pre-order that stops after one node and is resumed loses that child.
  method LossExample(t: Table) returns (visited: seq<Node>)
    requires t.Valid() && |t.inOrder| >= 3
    ensures t.root in t.nodes && t.root.left in t.nodes && t.root.left !in visited
    ensures |t.inOrder| < 0xffff_ffff ==> visited == [t.root] + Start(t, Preorder, t.root.left)
  {
    RootHasLeft(t);
    var r, slice := VisitOne(t);
    visited := slice;
    NotAgain(t, Preorder, t.root.left);
    assert t.LeftOk(t.root);
    var never := (i: nat) => false;
    r, slice := Walk(t, r, Preorder, 0, never);
    WalkKeepsCount(t, t.root.left, Preorder, 0, never, r, slice);
    AtMostAll(t, Preorder, t.root.left);
    visited := visited + slice;
  }
}

// What the walkers of the two trees have in common.
module Walks {
  datatype Direction = Down | Right | Up

  // cnt as a walker counts it down: 0 means the 32-bit maximum, and a
  // negative int is converted to an unsigned 64-bit number.
  function Limit(cnt: int): (n: nat)
    requires -0x8000_0000 <= cnt < 0x8000_0000
    ensures n > 0
  {
    if cnt == 0 then 0xffff_ffff else if cnt < 0 then cnt + 0x1_0000_0000_0000_0000 else cnt
  }

  // The callback's i-th answer is stop(i): none of the first n answers stops the walk.
  ghost predicate Quiet(stop: nat -> bool, n: int) {
    forall i: nat {:trigger stop(i)} :: i < n ==> !stop(i)
  }

  // The walk ends after its n-th visit, and not before.
  ghost predicate Ends(stop: nat -> bool, cnt: int, n: nat)
    requires -0x8000_0000 <= cnt < 0x8000_0000
  {
    n > 0 && Quiet(stop, n - 1) && n <= Limit(cnt) && (stop(n - 1) || n == Limit(cnt))
  }

  // What the count and the answers mean for a walk of n visits that leaves something ahead,
  // or nothing: none of the answers before the last stops it; there are at most as many visits
  // as the count says; and only a last answer or the full count leaves something ahead.
  ghost predicate CountKept(stop: nat -> bool, cnt: int, n: nat, ahead: bool) {
    && Quiet(stop, n - 1)
    && (cnt > 0 ==> n <= cnt)
    && (cnt == 0 ==> n <= 0xffff_ffff)
    && (ahead ==> n > 0)
    && (ahead && !stop(n - 1) ==>
         n == if cnt > 0 then cnt else if cnt == 0 then 0xffff_ffff else 0x1_0000_0000_0000_0000 + cnt)
  }

  lemma CountIsKept(stop: nat -> bool, cnt: int, n: nat, ahead: bool)
    requires -0x8000_0000 <= cnt < 0x8000_0000
    requires Ends(stop, cnt, n) || (Quiet(stop, n) && n < Limit(cnt) && !ahead)
    ensures CountKept(stop, cnt, n, ahead)
  {
  }

  // n visits have been made and the walk goes on, with so many left.
  ghost predicate Going(stop: nat -> bool, cnt: int, left: nat, n: nat)
    requires -0x8000_0000 <= cnt < 0x8000_0000
  {
    left > 0 && left == Limit(cnt) - n && Quiet(stop, n)
  }

  // One more visit.
  lemma Count(stop: nat -> bool, cnt: int, left: nat, n: nat)
    requires -0x8000_0000 <= cnt < 0x8000_0000 && Going(stop, cnt, left, n)
    ensures if stop(n) || left == 1 then Ends(stop, cnt, n + 1) else Going(stop, cnt, left - 1, n + 1)
  {
  }
}

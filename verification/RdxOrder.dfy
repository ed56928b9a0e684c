// The prefix-first lexicographic order of bit strings.
module RdxOrder {
  import opened RdxBits

  // How many leading bits p and q share.
  ghost function Common(p: Bits, q: Bits): (i: nat)
    ensures i <= |p| && i <= |q| && p[..i] == q[..i]
    ensures i < |p| && i < |q| ==> p[i] != q[i]
  {
    if |p| == 0 || |q| == 0 || p[0] != q[0] then 0 else
      var i := Common(p[1..], q[1..]) + 1;
      assert p[..i] == [p[0]] + p[1..][..i - 1] && q[..i] == [q[0]] + q[1..][..i - 1];
      i
  }

  // p comes before q: it is a proper prefix, or has a 0 where they first differ.
  ghost predicate Less(p: Bits, q: Bits) {
    var i := Common(p, q);
    i < |q| && (i == |p| || !p[i])
  }

  lemma CommonIs(p: Bits, q: Bits, i: nat)
    requires i <= |p| && i <= |q| && p[..i] == q[..i]
    requires i < |p| && i < |q| ==> p[i] != q[i]
    ensures Common(p, q) == i
  {
    var j := Common(p, q);
    assert forall x :: 0 <= x < i ==> p[x] == p[..i][x] && q[x] == q[..i][x];
    assert forall x :: 0 <= x < j ==> p[x] == p[..j][x] && q[x] == q[..j][x];
  }

  lemma PrefixIsLess(p: Bits, q: Bits)
    requires p < q
    ensures Less(p, q) && !Less(q, p) && Common(p, q) == |p|
  {
    CommonIs(p, q, |p|);
    CommonIs(q, p, |p|);
  }

  lemma LessIrreflexive(p: Bits)
    ensures !Less(p, p)
  {
    CommonIs(p, p, |p|);
  }

  // Exactly one of three.
  lemma LessTotal(p: Bits, q: Bits)
    ensures p == q || Less(p, q) || Less(q, p)
    ensures !(Less(p, q) && Less(q, p))
  {
    CommonIs(q, p, Common(p, q));
  }

  lemma LessTransitive(p: Bits, q: Bits, r: Bits)
    requires Less(p, q) && Less(q, r)
    ensures Less(p, r)
  {
    var i, j := Common(p, q), Common(q, r);
    var m := if i < j then i else j;
    assert p[..m] == p[..i][..m] == q[..i][..m] == q[..m] == q[..j][..m] == r[..j][..m] == r[..m];
    CommonIs(p, r, m);
  }

  // Strings that part inside a keep their order when a is continued.
  lemma LessBelow(m: Bits, a: Bits, c: Bits)
    requires a <= c
    ensures Less(m, a) ==> Less(m, c)
    ensures !(a <= m) ==> (Less(m, c) <==> Less(m, a)) && (Less(c, m) <==> Less(a, m))
  {
    var i := Common(m, a);
    if i < |a| {
      assert m[..i] == a[..i] == c[..i];
      CommonIs(m, c, i);
      CommonIs(c, m, i);
      CommonIs(a, m, i);
    } else {
      assert a <= m;
    }
    if Less(m, a) {
      assert i < |a|;
    }
  }

  // A string that continues a with 0 comes before one that continues it with 1.
  lemma SidesAreOrdered(a: Bits, p: Bits, q: Bits)
    requires a < p && a < q && !p[|a|] && q[|a|]
    ensures Less(p, q) && !Less(q, p)
  {
    CommonIs(p, q, |a|);
    CommonIs(q, p, |a|);
  }

  // a comes before b, byte by byte.
  ghost predicate BytesLess(a: Address, b: Address) {
    exists t: nat :: t < |a| && t < |b| && a[..t] == b[..t] && a[t] < b[t]
  }

  // The first byte on which two addresses differ.
  lemma {:induction false} FirstByte(a: Address, b: Address) returns (t: nat)
    requires |a| == |b| && a != b
    ensures t < |a| && a[..t] == b[..t] && a[t] != b[t]
  {
    assert a[..|a|] == a && b[..|b|] == b;
    t := 0;
    while a[t] == b[t]
      invariant t < |a| && a[..t] == b[..t]
      decreases |a| - t
    {
      assert a[..t + 1] == a[..t] + [a[t]] && b[..t + 1] == b[..t] + [b[t]];
      t := t + 1;
    }
  }

  lemma PrefixAt(a: Address, n: nat, d: nat)
    requires d < n <= 8 * |a|
    ensures Prefix(a, n)[..d] == Prefix(a, d) && Prefix(a, n)[d] == BitSet(a, d)
  {
  }

  lemma BitAt(a: Address, t: nat, j: nat)
    requires t < |a| && j < 8
    ensures BitSet(a, 8 * t + j) == ByteBit(a[t], j)
  {
    assert ByteOf(8 * t + j) == t && (8 * t + j) % 8 == j;
  }

  lemma FirstBitAt(a: Address, b: Address, t: nat) returns (d: nat)
    requires |a| == |b| && t < |a| && a[..t] == b[..t] && a[t] != b[t]
    ensures d < 8 * |a| && Prefix(a, d) == Prefix(b, d)
    ensures BitSet(a, d) != BitSet(b, d) && (BitSet(b, d) <==> a[t] < b[t])
  {
    var j := FirstBit(a[t], b[t]);
    BytesAgree(a, b, t);
    ByteAgrees(a, b, t, j);
    d := 8 * t + j;
    BitAt(a, t, j);
    BitAt(b, t, j);
    AgreeIsPrefix(a, b, d);
  }

  lemma FirstBitOrder(a: Address, b: Address, t: nat)
    requires |a| == |b| && t < |a| && a[..t] == b[..t] && a[t] != b[t]
    ensures Less(Prefix(a, 8 * |a|), Prefix(b, 8 * |b|)) <==> a[t] < b[t]
  {
    var d := FirstBitAt(a, b, t);
    PrefixAt(a, 8 * |a|, d);
    PrefixAt(b, 8 * |b|, d);
    CommonIs(Prefix(a, 8 * |a|), Prefix(b, 8 * |b|), d);
  }

  // The bits of whole addresses are ordered as their bytes are.
  lemma AddressOrder(a: Address, b: Address)
    requires |a| == |b|
    ensures Less(Prefix(a, 8 * |a|), Prefix(b, 8 * |b|)) <==> BytesLess(a, b)
  {
    if a == b {
      LessIrreflexive(Prefix(a, 8 * |a|));
    } else {
      var t := FirstByte(a, b);
      FirstBitOrder(a, b, t);
      forall u: nat | u < |a| && a[..u] == b[..u] && a[u] != b[u] ensures u == t {
        assert forall i :: 0 <= i < t ==> a[i] == a[..t][i] == b[..t][i] == b[i];
        assert forall i :: 0 <= i < u ==> a[i] == a[..u][i] == b[..u][i] == b[i];
      }
    }
  }
}

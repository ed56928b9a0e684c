// Addresses as bytes and as strings of bits, and the order of bit strings.
module RdxBits {
  type Address = seq<bv8>
  type Bits = seq<bool>

  // RNBYTE and RNBIT.
  function ByteOf(i: nat): nat { i / 8 }
  function MaskOf(i: nat): bv8 { BitMask(i % 8) }

  // 0x80 shifted right by j.
  function BitMask(j: nat): bv8
    requires j < 8
  {
    (0x80 as bv8) >> j
  }

  // Bit j of a byte, counted from the most significant one.
  predicate ByteBit(x: bv8, j: nat)
    requires j < 8
  {
    x & BitMask(j) != 0
  }

  predicate BitSet(a: Address, i: nat)
    requires ByteOf(i) < |a|
  {
    ByteBit(a[ByteOf(i)], i % 8)
  }

  // The first n bits of a.
  ghost function Prefix(a: Address, n: nat): (p: Bits)
    requires n <= 8 * |a|
    ensures |p| == n
  {
    seq(n, i requires 0 <= i < n => BitSet(a, i))
  }

  // rdx_compare_address: zero when the bits before bit n agree.
  function CompareAddress(a: Address, b: Address, tbyte: nat, tbit: bv8): int
    requires tbyte < |a| && tbyte < |b|
  {
    var mask: bv8 := !(tbit | (tbit - 1));
    if (a[tbyte] ^ b[tbyte]) & mask != 0 then 1
    else if tbyte != 0 && a[..tbyte] != b[..tbyte] then 1
    else 0
  }

  // Two bytes agree on bit j, on their first k bits.
  predicate BitAgrees(x: bv8, y: bv8, j: nat)
    requires j < 8
  {
    ByteBit(x, j) <==> ByteBit(y, j)
  }

  predicate TopBitsAgree(x: bv8, y: bv8, k: nat)
    requires k <= 8
  {
    k == 0 || (TopBitsAgree(x, y, k - 1) && BitAgrees(x, y, k - 1))
  }

  lemma Masks()
    ensures BitMask(0) == 0x80 && BitMask(1) == 0x40 && BitMask(2) == 0x20 && BitMask(3) == 0x10
    ensures BitMask(4) == 0x08 && BitMask(5) == 0x04 && BitMask(6) == 0x02 && BitMask(7) == 0x01
  {
  }

  // The mask that keeps the first k bits of a byte.
  function TopBits(k: nat): bv8
    requires k < 8
  {
    !(BitMask(k) | (BitMask(k) - 1))
  }

  lemma TopBitsGrow(k: nat)
    requires k < 7
    ensures TopBits(0) == 0 && TopBits(k + 1) == TopBits(k) | BitMask(k)
  {
    Masks();
  }

  lemma {:induction false} TopMask(x: bv8, y: bv8, k: nat)
    requires k < 8
    ensures (x ^ y) & TopBits(k) == 0 <==> TopBitsAgree(x, y, k)
  {
    if k == 0 {
      TopBitsGrow(0);
    } else {
      TopMask(x, y, k - 1);
      TopBitsGrow(k - 1);
      Distributes(x ^ y, TopBits(k - 1), BitMask(k - 1));
      DifferentBit(x, y, k - 1);
    }
  }

  lemma Distributes(d: bv8, m: bv8, one: bv8)
    ensures d & (m | one) == 0 <==> d & m == 0 && d & one == 0
  {
  }

  lemma AllBits(x: bv8, y: bv8)
    ensures x == y <==> (x ^ y) & (TopBits(7) | BitMask(7)) == 0
  {
    Masks();
  }

  lemma SameByte(x: bv8, y: bv8)
    ensures x == y <==> TopBitsAgree(x, y, 8)
  {
    TopMask(x, y, 7);
    Distributes(x ^ y, TopBits(7), BitMask(7));
    DifferentBit(x, y, 7);
    AllBits(x, y);
  }

  // The first bit on which two bytes differ (the first_bit_set table, indexed by their exclusive or).
  function FirstBitSet(x: bv8): (j: nat)
    ensures j <= 8
  {
    if x >= 0x80 then 0 else if x >= 0x40 then 1 else if x >= 0x20 then 2 else if x >= 0x10 then 3
    else if x >= 0x08 then 4 else if x >= 0x04 then 5 else if x >= 0x02 then 6 else if x >= 0x01 then 7 else 8
  }

  lemma FirstBitSetCorrect(x: bv8, y: bv8)
    requires x != y
    ensures var j := FirstBitSet(x ^ y); j < 8 && TopBitsAgree(x, y, j) && !BitAgrees(x, y, j)
  {
    var j := FirstBitSet(x ^ y);
    Masks();
    FirstBitBounds(x ^ y);
    TopMask(x, y, j);
    DifferentBit(x, y, j);
  }

  lemma FirstBitBounds(d: bv8)
    requires d != 0
    ensures var j := FirstBitSet(d); j < 8 && d & TopBits(j) == 0 && d & BitMask(j) != 0
  {
    Masks();
  }

  lemma DifferentBit(x: bv8, y: bv8, j: nat)
    requires j < 8
    ensures (x ^ y) & BitMask(j) != 0 <==> !BitAgrees(x, y, j)
  {
    Masks();
  }

  // Where two bytes first differ, the greater one has the 1.
  lemma FirstBit(x: bv8, y: bv8) returns (j: nat)
    requires x != y
    ensures j < 8 && TopBitsAgree(x, y, j) && ByteBit(x, j) != ByteBit(y, j) && (ByteBit(y, j) <==> x < y)
  {
    j := FirstBitSet(x ^ y);
    FirstBitSetCorrect(x, y);
    GreaterByte(x, y);
  }

  lemma GreaterByte(x: bv8, y: bv8)
    requires x != y
    ensures FirstBitSet(x ^ y) < 8 && (x < y <==> ByteBit(y, FirstBitSet(x ^ y)))
  {
    Masks();
  }

  // ---- Whole addresses ----

  // a and b agree on bits lo to hi - 1.
  ghost predicate Agree(a: Address, b: Address, lo: nat, hi: nat)
    requires lo <= hi <= 8 * |a| && hi <= 8 * |b|
  {
    forall i: nat {:trigger BitSet(a, i)} {:trigger BitSet(b, i)} :: lo <= i < hi ==> BitSet(a, i) == BitSet(b, i)
  }

  lemma AgreeIsPrefix(a: Address, b: Address, n: nat)
    requires n <= 8 * |a| && n <= 8 * |b|
    ensures Prefix(a, n) == Prefix(b, n) <==> Agree(a, b, 0, n)
  {
    if Prefix(a, n) == Prefix(b, n) {
      forall i: nat | i < n
        ensures BitSet(a, i) == BitSet(b, i)
      {
        assert Prefix(a, n)[i] == Prefix(b, n)[i];
      }
    }
  }

  lemma {:induction false} ByteAgrees(a: Address, b: Address, t: nat, k: nat)
    requires t < |a| && t < |b| && k <= 8
    ensures TopBitsAgree(a[t], b[t], k) <==> Agree(a, b, 8 * t, 8 * t + k)
  {
    if k > 0 {
      ByteAgrees(a, b, t, k - 1);
      var i := 8 * t + (k - 1);
      assert ByteOf(i) == t && i % 8 == k - 1;
      assert BitAgrees(a[t], b[t], k - 1) <==> BitSet(a, i) == BitSet(b, i);
    }
  }

  lemma {:induction false} BytesAgree(a: Address, b: Address, t: nat)
    requires t <= |a| && t <= |b|
    ensures a[..t] == b[..t] <==> Agree(a, b, 0, 8 * t)
  {
    if t > 0 {
      BytesAgree(a, b, t - 1);
      ByteAgrees(a, b, t - 1, 8);
      SameByte(a[t - 1], b[t - 1]);
      assert a[..t] == a[..t - 1] + [a[t - 1]] && b[..t] == b[..t - 1] + [b[t - 1]];
    }
  }

  // The comparison tells whether two addresses share their first n bits.
  lemma CompareCorrect(a: Address, b: Address, n: nat)
    requires ByteOf(n) < |a| && ByteOf(n) < |b|
    ensures CompareAddress(a, b, ByteOf(n), MaskOf(n)) == 0 <==> Prefix(a, n) == Prefix(b, n)
  {
    var t, k := ByteOf(n), n % 8;
    assert n == 8 * t + k;
    ByteAgrees(a, b, t, k);
    TopMask(a[t], b[t], k);
    BytesAgree(a, b, t);
    AgreeIsPrefix(a, b, n);
  }

  // The byte-wise loop of insert and getnext: where a and b first differ, or some position from n on.
  method FirstDifference(a: Address, b: Address, n: nat) returns (d: nat)
    requires ByteOf(n) < |a| && ByteOf(n) < |b|
    ensures d < n ==> d < 8 * |a| && d < 8 * |b|
    ensures d < n ==> Prefix(a, d) == Prefix(b, d) && BitSet(a, d) != BitSet(b, d)
    ensures d >= n ==> Prefix(a, n) == Prefix(b, n)
  {
    d := 0;
    while d < n
      invariant d % 8 == 0 && d <= n + 7 && d <= 8 * |a| && d <= 8 * |b|
      invariant Agree(a, b, 0, d)
    {
      var i := d / 8;
      if a[i] != b[i] {
        var j := FirstBitSet(a[i] ^ b[i]);
        FirstBitSetCorrect(a[i], b[i]);
        ByteAgrees(a, b, i, j);
        assert ByteOf(d + j) == i && (d + j) % 8 == j;
        AgreeIsPrefix(a, b, d + j);
        if d + j >= n { AgreeIsPrefix(a, b, n); }
        return d + j;
      }
      SameByte(a[i], b[i]);
      ByteAgrees(a, b, i, 8);
      d := d + 8;
    }
    AgreeIsPrefix(a, b, n);
  }
}

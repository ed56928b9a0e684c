// The tag-length-value codec: little-endian 64-bit tag and length, then the value.
module Tlv {
  import opened Options

  type Byte = x: int | 0 <= x < 256
  const WORD := 0x1_0000_0000_0000_0000
  const HDR: nat := 16

  datatype Item = Item(tag: nat, value: seq<Byte>)

  // ---- Little-endian numbers ----

  function Pow256(k: nat): (p: nat)
    ensures p > 0
  {
    if k == 0 then 1 else 256 * Pow256(k - 1)
  }

  function Le(n: nat, k: nat): (s: seq<Byte>)
    ensures |s| == k
  {
    if k == 0 then [] else [n % 256] + Le(n / 256, k - 1)
  }

  function UnLe(s: seq<Byte>): (n: nat) {
    if s == [] then 0 else s[0] + 256 * UnLe(s[1..])
  }

  lemma {:induction false} LeRoundTrip(n: nat, k: nat)
    requires n < Pow256(k)
    ensures UnLe(Le(n, k)) == n
  {
    if k > 0 {
      LeRoundTrip(n / 256, k - 1);
      assert Le(n, k)[1..] == Le(n / 256, k - 1);
    }
  }

  lemma {:induction false} UnLeBound(s: seq<Byte>)
    ensures UnLe(s) < Pow256(|s|)
  {
    if s != [] {
      UnLeBound(s[1..]);
    }
  }

  // The bytes of a number, the least significant one first,
  lemma {:induction false} LeBytes(n: nat, k: nat, i: nat)
    requires i < k
    ensures Le(n, k)[i] == (n / Pow256(i)) % 256
  {
    if i > 0 {
      LeBytes(n / 256, k - 1, i - 1);
      DivTwice(n, Pow256(i - 1));
    }
  }

  lemma DivTwice(n: nat, p: nat)
    requires p > 0
    ensures n / 256 / p == n / (256 * p)
  {
    var a := n / 256;
    var q, r := a / p, a % p;
    assert a == p * q + r;
    assert 256 * a == 256 * p * q + 256 * r;
    DivIs(n, 256 * p, q, 256 * r + n % 256);
  }

  lemma DivIs(n: nat, d: nat, q: nat, r: nat)
    requires n == d * q + r && r < d
    ensures n / d == q
  {
    var q1, r1 := n / d, n % d;
    assert d * q1 + r1 == n;
    NoMore(d, q, r, q1, r1);
    NoMore(d, q1, r1, q, r);
  }

  lemma NoMore(d: nat, q: nat, r: nat, q1: nat, r1: nat)
    requires d * q + r == d * q1 + r1 && r < d
    ensures q1 <= q
  {
    if q1 > q {
      assert d * q1 == d * (q1 - 1) + d;
      Grows(d, q, q1 - 1);
    }
  }

  lemma Grows(d: nat, a: nat, b: nat)
    requires a <= b
    ensures d * a <= d * b
  {
  }

  // and the number that eight bytes are.
  lemma UnLeSum(s: seq<Byte>)
    requires |s| == 8
    ensures UnLe(s) == s[0] as int + 0x100 * (s[1] as int) + 0x1_0000 * (s[2] as int) + 0x100_0000 * (s[3] as int) +
      0x1_0000_0000 * (s[4] as int) + 0x100_0000_0000 * (s[5] as int) + 0x1_0000_0000_0000 * (s[6] as int) +
      0x100_0000_0000_0000 * (s[7] as int)
  {
    var a, b := s[4..], s[4..][2..];
    assert UnLe(b) == b[0] + 256 * (b[1] + 256 * UnLe(b[2..]));
    assert a[1..][1..] == b;
    assert UnLe(a) == a[0] + 256 * (a[1] + 256 * UnLe(b));
    assert s[2..][1..][1..] == a;
    assert UnLe(s[2..]) == s[2] + 256 * (s[3] + 256 * UnLe(a));
    assert s[1..][1..] == s[2..];
  }

  lemma WordIs()
    ensures Pow256(8) == WORD
  {
    assert Pow256(2) == 0x1_0000;
    assert Pow256(4) == 0x1_0000 * Pow256(2);
    assert Pow256(6) == 0x1_0000 * Pow256(4);
    assert Pow256(8) == 0x1_0000 * Pow256(6);
  }

  // ---- Encodings ----

  ghost predicate Fits(x: Item) {
    x.tag < WORD && |x.value| < WORD - HDR
  }

  function EncodeItem(x: Item): (s: seq<Byte>)
    ensures |s| == HDR + |x.value|
  {
    Le(x.tag, 8) + Le(|x.value|, 8) + x.value
  }

  function Encode(xs: seq<Item>): seq<Byte> {
    if xs == [] then [] else EncodeItem(xs[0]) + Encode(xs[1..])
  }

  lemma {:induction false} EncodeConcat(xs: seq<Item>, ys: seq<Item>)
    ensures Encode(xs + ys) == Encode(xs) + Encode(ys)
  {
    if xs == [] {
      assert xs + ys == ys;
    } else {
      EncodeConcat(xs[1..], ys);
      assert (xs + ys)[1..] == xs[1..] + ys;
      var e, a, b := EncodeItem(xs[0]), Encode(xs[1..]), Encode(ys);
      assert Encode(xs + ys) == e + (a + b);
      Regroup(e, a, b);
    }
  }

  lemma Regroup<T>(a: seq<T>, b: seq<T>, c: seq<T>)
    ensures a + (b + c) == (a + b) + c
  {
  }

  // ---- Reading fields ----

  function TagAt(b: seq<Byte>, pos: nat): nat
    requires pos + HDR <= |b|
  {
    UnLe(b[pos..pos + 8])
  }

  function LenAt(b: seq<Byte>, pos: nat): nat
    requires pos + HDR <= |b|
  {
    UnLe(b[pos + 8..pos + HDR])
  }

  // std_tlv_total_len, in 64 bits.
  function TotalAt(b: seq<Byte>, pos: nat): nat
    requires pos + HDR <= |b|
  {
    (LenAt(b, pos) + HDR) % WORD
  }

  // The fields of a header, byte by byte.
  lemma FieldsAre(b: seq<Byte>, pos: nat)
    requires pos + HDR <= |b|
    ensures TagAt(b, pos) == b[pos] as int + 0x100 * (b[pos + 1] as int) + 0x1_0000 * (b[pos + 2] as int) +
      0x100_0000 * (b[pos + 3] as int) + 0x1_0000_0000 * (b[pos + 4] as int) +
      0x100_0000_0000 * (b[pos + 5] as int) + 0x1_0000_0000_0000 * (b[pos + 6] as int) +
      0x100_0000_0000_0000 * (b[pos + 7] as int)
    ensures LenAt(b, pos) == b[pos + 8] as int + 0x100 * (b[pos + 9] as int) + 0x1_0000 * (b[pos + 10] as int) +
      0x100_0000 * (b[pos + 11] as int) + 0x1_0000_0000 * (b[pos + 12] as int) +
      0x100_0000_0000 * (b[pos + 13] as int) + 0x1_0000_0000_0000 * (b[pos + 14] as int) +
      0x100_0000_0000_0000 * (b[pos + 15] as int)
  {
    UnLeSum(b[pos..pos + 8]);
    UnLeSum(b[pos + 8..pos + HDR]);
  }

  lemma FieldsOfItem(b: seq<Byte>, pos: nat, x: Item)
    requires Fits(x) && pos + HDR + |x.value| <= |b| && b[pos..pos + HDR + |x.value|] == EncodeItem(x)
    ensures TagAt(b, pos) == x.tag && LenAt(b, pos) == |x.value| && b[pos + HDR..pos + HDR + |x.value|] == x.value
    ensures TotalAt(b, pos) == HDR + |x.value|
  {
    var e := EncodeItem(x);
    var whole := b[pos..pos + HDR + |x.value|];
    assert e == Le(x.tag, 8) + (Le(|x.value|, 8) + x.value);
    assert b[pos..pos + 8] == whole[..8] == Le(x.tag, 8);
    assert b[pos + 8..pos + HDR] == whole[8..][..8] == Le(|x.value|, 8);
    assert b[pos + HDR..pos + HDR + |x.value|] == whole[HDR..] == x.value;
    WordIs();
    LeRoundTrip(x.tag, 8);
    LeRoundTrip(|x.value|, 8);
  }

  // ---- Writing ----

  // s has been written at pos, and nothing else has changed.
  ghost predicate Patched(now: seq<Byte>, was: seq<Byte>, pos: nat, s: seq<Byte>) {
    && |now| == |was| && pos + |s| <= |now|
    && (forall k {:trigger now[k]} :: pos <= k < pos + |s| ==> now[k] == s[k - pos])
    && (forall k {:trigger now[k]} :: 0 <= k < pos || pos + |s| <= k < |now| ==> now[k] == was[k])
  }

  lemma PatchedTwice(a: seq<Byte>, b: seq<Byte>, c: seq<Byte>, pos: nat, s: seq<Byte>, u: seq<Byte>)
    requires Patched(b, a, pos, s) && Patched(c, b, pos + |s|, u)
    ensures Patched(c, a, pos, s + u)
  {
  }

  method Put64(buf: array<Byte>, pos: nat, v: nat)
    requires pos + 8 <= buf.Length && v < WORD
    modifies buf
    ensures Patched(buf[..], old(buf[..]), pos, Le(v, 8))
  {
    var bytes := Le(v, 8);
    CopyIn(buf, pos, bytes);
  }

  method CopyIn(buf: array<Byte>, pos: nat, content: seq<Byte>)
    requires pos + |content| <= buf.Length
    modifies buf
    ensures Patched(buf[..], old(buf[..]), pos, content)
  {
    for i := 0 to |content|
      invariant forall k {:trigger buf[k]} :: pos <= k < pos + i ==> buf[k] == content[k - pos]
      invariant forall k {:trigger buf[k]} :: 0 <= k < pos || pos + i <= k < buf.Length ==> buf[k] == old(buf[k])
    {
      buf[pos + i] := content[i];
    }
  }

  // Byte by byte: tag and length with the least significant byte first, then the value.
  ghost predicate ItemAt(b: seq<Byte>, pos: nat, x: Item) {
    && pos + HDR + |x.value| <= |b|
    && (forall i: nat {:trigger Pow256(i)} :: i < 8 ==>
         b[pos + i] == (x.tag / Pow256(i)) % 256 && b[pos + 8 + i] == (|x.value| / Pow256(i)) % 256)
    && b[pos + HDR..pos + HDR + |x.value|] == x.value
  }

  lemma ItemBytes(b: seq<Byte>, was: seq<Byte>, pos: nat, x: Item)
    requires Patched(b, was, pos, EncodeItem(x))
    ensures ItemAt(b, pos, x)
  {
    var e := EncodeItem(x);
    assert e == Le(x.tag, 8) + (Le(|x.value|, 8) + x.value);
    forall i: nat | i < 8
      ensures b[pos + i] == (x.tag / Pow256(i)) % 256 && b[pos + 8 + i] == (|x.value| / Pow256(i)) % 256
    {
      LeBytes(x.tag, 8, i);
      LeBytes(|x.value|, 8, i);
      assert b[pos + i] == e[i] && b[pos + 8 + i] == e[8 + i];
    }
    forall i: nat | i < |x.value| ensures b[pos + HDR + i] == x.value[i] {
      assert b[pos + HDR + i] == e[HDR + i];
    }
    assert b[pos + HDR..pos + HDR + |x.value|] == x.value;
  }

  // std_tlv_add: the item goes to pos if there is room, and nothing else changes.
  method Add(buf: array<Byte>, pos: nat, dataLen: nat, x: Item) returns (next: Option<nat>, left: nat)
    requires pos + dataLen <= buf.Length && Fits(x)
    modifies buf
    ensures dataLen < HDR + |x.value| ==> next == None && left == dataLen && buf[..] == old(buf[..])
    ensures dataLen >= HDR + |x.value| ==>
      next == Some(pos + HDR + |x.value|) && left == dataLen - HDR - |x.value| &&
        Patched(buf[..], old(buf[..]), pos, EncodeItem(x))
    ensures dataLen >= HDR + |x.value| ==> ItemAt(buf[..], pos, x)
  {
    if dataLen < (|x.value| + HDR) % WORD {
      return None, dataLen;
    }
    ghost var b0 := buf[..];
    Put64(buf, pos, x.tag);
    ghost var b1 := buf[..];
    Put64(buf, pos + 8, |x.value|);
    ghost var b2 := buf[..];
    CopyIn(buf, pos + HDR, x.value);
    PatchedTwice(b0, b1, b2, pos, Le(x.tag, 8), Le(|x.value|, 8));
    PatchedTwice(b0, b2, buf[..], pos, Le(x.tag, 8) + Le(|x.value|, 8), x.value);
    next, left := Some(pos + HDR + |x.value|), dataLen - (|x.value| + HDR);
    ItemBytes(buf[..], b0, pos, x);
  }

  function Size(xs: seq<Item>): nat { |Encode(xs)| }

  lemma SizeMore(xs: seq<Item>, x: Item)
    ensures Encode(xs + [x]) == Encode(xs) + EncodeItem(x) && Size(xs + [x]) == Size(xs) + HDR + |x.value|
  {
    EncodeConcat(xs, [x]);
    assert Encode([x]) == EncodeItem(x) + Encode([]);
  }

  // A list is written item by item, until one does not fit.
  method AddAll(buf: array<Byte>, pos: nat, dataLen: nat, xs: seq<Item>) returns (n: nat, left: nat)
    requires pos + dataLen <= buf.Length && forall x <- xs :: Fits(x)
    modifies buf
    ensures n <= |xs| && left == dataLen - Size(xs[..n]) && (n < |xs| ==> left < HDR + |xs[n].value|)
    ensures Patched(buf[..], old(buf[..]), pos, Encode(xs[..n]))
  {
    var at := pos;
    n, left := 0, dataLen;
    while n < |xs|
      invariant n <= |xs| && left == dataLen - Size(xs[..n]) && at == pos + Size(xs[..n])
      invariant Patched(buf[..], old(buf[..]), pos, Encode(xs[..n]))
    {
      ghost var was := buf[..];
      var next;
      next, left := Add(buf, at, left, xs[n]);
      if next == None {
        return;
      }
      assert xs[..n + 1] == xs[..n] + [xs[n]];
      SizeMore(xs[..n], xs[n]);
      PatchedTwice(old(buf[..]), was, buf[..], pos, Encode(xs[..n]), EncodeItem(xs[n]));
      at := next.value;
      n := n + 1;
    }
  }

  // ---- Reading ----

  ghost predicate Holds(b: seq<Byte>, pos: nat, xs: seq<Item>) {
    pos + Size(xs) <= |b| && b[pos..pos + Size(xs)] == Encode(xs) && forall x <- xs :: Fits(x)
  }

  // The first item of an encoding, and the rest.
  lemma Peel(b: seq<Byte>, pos: nat, xs: seq<Item>)
    requires Holds(b, pos, xs) && xs != []
    ensures var total := HDR + |xs[0].value|; Size(xs) == total + Size(xs[1..]) && Holds(b, pos + total, xs[1..])
    ensures TagAt(b, pos) == xs[0].tag && LenAt(b, pos) == |xs[0].value| && TotalAt(b, pos) == HDR + |xs[0].value|
    ensures b[pos + HDR..pos + HDR + |xs[0].value|] == xs[0].value
  {
    var x, total := xs[0], HDR + |xs[0].value|;
    var whole := b[pos..pos + Size(xs)];
    assert Encode(xs) == EncodeItem(x) + Encode(xs[1..]);
    assert b[pos..pos + total] == whole[..total] == EncodeItem(x);
    FieldsOfItem(b, pos, x);
    assert b[pos + total..pos + total + Size(xs[1..])] == whole[total..] == Encode(xs[1..]);
  }

  // std_tlv_valid: the item's total length, which may have wrapped around, is within len bytes.
  predicate Valid(b: seq<Byte>, data: Option<nat>, len: nat)
    requires data.Some? && len > 0 ==> data.value + HDR <= |b|
  {
    data.Some? && len != 0 && len >= TotalAt(b, data.value)
  }

  // std_tlv_next: the item after the one at data, and the bytes from there on.
  function Next(b: seq<Byte>, data: Option<nat>, len: nat): (r: (Option<nat>, nat))
    requires data.Some? ==> data.value + HDR <= |b|
    ensures r.0.Some? ==> data.Some? && r.0.value + r.1 == data.value + len
    ensures r.0 == None ==> r.1 == len
  {
    if data == None then (None, len) else
      var tlen := TotalAt(b, data.value);
      if len < tlen then (None, len) else (Some(data.value + tlen), len - tlen)
  }

  lemma MoveOne(read: seq<Item>, ys: seq<Item>)
    requires ys != []
    ensures read + ys == (read + [ys[0]]) + ys[1..]
  {
  }

  // Item by item over the bytes that have been used: the list comes back.
  method ReadAll(b: seq<Byte>, pos: nat, used: nat, ghost xs: seq<Item>) returns (read: seq<Item>)
    requires Holds(b, pos, xs) && used == Size(xs)
    ensures read == xs
  {
    var data: Option<nat>, len: nat := Some(pos), used;
    read := [];
    ghost var ys := xs;
    while data.Some? && len > 0
      invariant data.Some? && Holds(b, data.value, ys) && len == Size(ys) && xs == read + ys
      decreases len
    {
      Peel(b, data.value, ys);
      var total := TotalAt(b, data.value);
      var x := Item(TagAt(b, data.value), b[data.value + HDR..data.value + total]);
      assert x == ys[0];
      MoveOne(read, ys);
      read := read + [x];
      ys := ys[1..];
      var r := Next(b, data, len);
      data, len := r.0, r.1;
    }
  }

  lemma SizeSplit(xs: seq<Item>, i: nat)
    requires i < |xs|
    ensures Encode(xs) == Encode(xs[..i]) + EncodeItem(xs[i]) + Encode(xs[i + 1..])
    ensures Size(xs) == Size(xs[..i]) + HDR + |xs[i].value| + Size(xs[i + 1..])
  {
    assert xs == xs[..i + 1] + xs[i + 1..] && xs[..i + 1] == xs[..i] + [xs[i]];
    EncodeConcat(xs[..i + 1], xs[i + 1..]);
    SizeMore(xs[..i], xs[i]);
  }

  // A list that is written and read back: it is the same list, and the space is accounted for.
  method RoundTrip(buf: array<Byte>, pos: nat, dataLen: nat, xs: seq<Item>) returns (left: nat, read: seq<Item>)
    requires pos + dataLen <= buf.Length && Size(xs) <= dataLen && forall x <- xs :: Fits(x)
    modifies buf
    ensures left == dataLen - Size(xs) && read == xs
  {
    var n;
    n, left := AddAll(buf, pos, dataLen, xs);
    forall i | 0 <= i < |xs| ensures Size(xs) >= Size(xs[..i]) + HDR + |xs[i].value| { SizeSplit(xs, i); }
    assert xs[..n] == xs;
    assert buf[..][pos..pos + Size(xs)] == Encode(xs);
    read := ReadAll(buf[..], pos, dataLen - left, xs);
  }
}

// Searching TLV items, in one list and along a path of nested ones.
module TlvSearch {
  import opened Options
  import opened Tlv

  // A header in the buffer: its place, the bytes left from there on, and its two fields.
  datatype Header = Header(pos: nat, len: nat, tag: nat, claimed: nat) {
    // The total length as the code computes it.
    function Total(): nat {
      (claimed + HDR) % WORD
    }

    // The value that the header claims lies within the bytes left.
    predicate Complete() {
      HDR + claimed <= len
    }
  }

  function HeaderAt(b: seq<Byte>, pos: nat, len: nat): Header
    requires pos + HDR <= |b|
  {
    Header(pos, len, TagAt(b, pos), LenAt(b, pos))
  }

  // ---- The headers of a walk ----

  // The walk from pos over len bytes is over: no bytes are left, or the header is not in the
  // buffer, or it is not valid.
  predicate Over(b: seq<Byte>, pos: nat, len: nat) {
    len == 0 || pos + HDR > |b| || TotalAt(b, pos) > len
  }

  // The headers that the walk finds valid. One of total length 0 is the last: the walk
  // does not get past it.
  ghost function Headers(b: seq<Byte>, pos: nat, len: nat): (hs: seq<Header>)
    decreases len
  {
    if Over(b, pos, len) then []
    else if TotalAt(b, pos) == 0 then [HeaderAt(b, pos, len)]
    else [HeaderAt(b, pos, len)] + Headers(b, pos + TotalAt(b, pos), len - TotalAt(b, pos))
  }

  // The bytes left where the walk ends.
  ghost function Remainder(b: seq<Byte>, pos: nat, len: nat): nat
    decreases len
  {
    if Over(b, pos, len) || TotalAt(b, pos) == 0 then len
    else Remainder(b, pos + TotalAt(b, pos), len - TotalAt(b, pos))
  }

  lemma HeadersStep(b: seq<Byte>, pos: nat, len: nat)
    requires pos + HDR <= |b| && 0 < TotalAt(b, pos) <= len
    ensures var p, l := pos + TotalAt(b, pos), len - TotalAt(b, pos);
      Headers(b, pos, len) == [HeaderAt(b, pos, len)] + Headers(b, p, l) && Remainder(b, pos, len) == Remainder(b, p, l)
  {
  }

  // The place of the first header with the tag, or the number of headers.
  ghost function FirstWith(hs: seq<Header>, tag: nat): (i: nat)
    ensures i <= |hs| && (forall j :: 0 <= j < i ==> hs[j].tag != tag) && (i < |hs| ==> hs[i].tag == tag)
  {
    if hs == [] || hs[0].tag == tag then 0 else
      var i := FirstWith(hs[1..], tag);
      assert forall j :: 0 < j < i + 1 ==> hs[j] == hs[1..][j - 1];
      i + 1
  }

  // Of these headers, the first one with the tag; without one, the bytes left at the end.
  ghost function Pick(hs: seq<Header>, end: nat, tag: nat): (Option<nat>, nat) {
    var i := FirstWith(hs, tag);
    if i < |hs| then (Some(hs[i].pos), hs[i].len) else (None, end)
  }

  // The last header is not got past, and none has the tag.
  ghost predicate Stuck(hs: seq<Header>, tag: nat) {
    hs != [] && hs[|hs| - 1].Total() == 0 && FirstWith(hs, tag) == |hs|
  }

  lemma OneMore(h: Header, hs: seq<Header>, end: nat, tag: nat)
    ensures Pick([h] + hs, end, tag) == if h.tag == tag then (Some(h.pos), h.len) else Pick(hs, end, tag)
    ensures Stuck([h] + hs, tag) <==> h.tag != tag && if hs == [] then h.Total() == 0 else Stuck(hs, tag)
  {
    var all := [h] + hs;
    assert all[1..] == hs;
  }

  // The first valid header with the tag, or none and the bytes left at the end of the walk.
  ghost function Search(b: seq<Byte>, pos: nat, len: nat, tag: nat): (Option<nat>, nat) {
    Pick(Headers(b, pos, len), Remainder(b, pos, len), tag)
  }

  // The search comes to a header that it neither takes nor gets past: one that claims
  // 2^64 - 16 bytes, before any with the tag.
  ghost predicate Stalls(b: seq<Byte>, pos: nat, len: nat, tag: nat) {
    Stuck(Headers(b, pos, len), tag)
  }

  // Every header that the search looks at is in the buffer.
  ghost predicate Inside(b: seq<Byte>, pos: nat, len: nat, tag: nat)
    decreases len
  {
    len == 0 ||
    (pos + HDR <= |b| && (0 < TotalAt(b, pos) <= len && TagAt(b, pos) != tag ==>
      Inside(b, pos + TotalAt(b, pos), len - TotalAt(b, pos), tag)))
  }

  // What one turn of the loop means for the search.
  lemma SearchStep(b: seq<Byte>, pos: nat, len: nat, tag: nat)
    requires len > 0 ==> pos + HDR <= |b|
    ensures len == 0 || TotalAt(b, pos) > len ==> Search(b, pos, len, tag) == (None, len) && !Stalls(b, pos, len, tag)
    ensures len > 0 && TotalAt(b, pos) <= len && TagAt(b, pos) == tag ==>
      Search(b, pos, len, tag) == (Some(pos), len) && !Stalls(b, pos, len, tag)
    ensures len > 0 && TotalAt(b, pos) == 0 && TagAt(b, pos) != tag ==> Stalls(b, pos, len, tag)
    ensures len > 0 && 0 < TotalAt(b, pos) <= len && TagAt(b, pos) != tag ==>
      var p, l := pos + TotalAt(b, pos), len - TotalAt(b, pos);
      Search(b, pos, len, tag) == Search(b, p, l, tag) && (Stalls(b, pos, len, tag) <==> Stalls(b, p, l, tag))
  {
    if len > 0 && TotalAt(b, pos) <= len {
      var h, total, end := HeaderAt(b, pos, len), TotalAt(b, pos), Remainder(b, pos, len);
      if total == 0 {
        OneMore(h, [], end, tag);
        assert [h] + [] == [h];
      } else {
        OneMore(h, Headers(b, pos + total, len - total), end, tag);
      }
    }
  }

  // ---- std_tlv_find_next ----

  datatype State = Searching(pos: nat, len: nat) | Ended(found: Option<nat>, left: nat)

  // One turn of the loop.
  function Turn(b: seq<Byte>, s: State, tag: nat): State
    requires s.Searching? && s.len > 0 ==> s.pos + HDR <= |b|
  {
    if s.Ended? then s
    else if !Valid(b, Some(s.pos), s.len) then Ended(None, s.len)
    else if TagAt(b, s.pos) == tag then Ended(Some(s.pos), s.len)
    else
      var (next, left) := Next(b, Some(s.pos), s.len);
      Searching(next.value, left)
  }

  ghost predicate CanTurn(b: seq<Byte>, s: State, tag: nat) {
    s.Searching? ==> Inside(b, s.pos, s.len, tag)
  }

  ghost function Turns(b: seq<Byte>, s: State, tag: nat, n: nat): (r: State)
    requires CanTurn(b, s, tag)
    ensures CanTurn(b, r, tag)
  {
    if n == 0 then s else
      var r := Turns(b, s, tag, n - 1);
      assert CanTurn(b, Turn(b, r, tag), tag);
      Turn(b, r, tag)
  }

  // A search that stalls is not over after one more turn, and stalls still. One that does
  // not is over with its result, or is at a later header, with the same result.
  lemma OneTurn(b: seq<Byte>, s: State, tag: nat)
    requires s.Searching? && Inside(b, s.pos, s.len, tag)
    ensures CanTurn(b, Turn(b, s, tag), tag)
    ensures Stalls(b, s.pos, s.len, tag) ==>
      var r := Turn(b, s, tag); r.Searching? && Stalls(b, r.pos, r.len, tag)
    ensures !Stalls(b, s.pos, s.len, tag) ==>
      var r := Turn(b, s, tag);
      if r.Ended? then (r.found, r.left) == Search(b, s.pos, s.len, tag)
      else
        && r.len < s.len && !Stalls(b, r.pos, r.len, tag)
        && Search(b, r.pos, r.len, tag) == Search(b, s.pos, s.len, tag)
  {
    TurnIs(b, s, tag);
    SearchStep(b, s.pos, s.len, tag);
  }

  lemma TurnIs(b: seq<Byte>, s: State, tag: nat)
    requires s.Searching? && Inside(b, s.pos, s.len, tag)
    ensures var r := Turn(b, s, tag);
      if s.len == 0 || TotalAt(b, s.pos) > s.len then r == Ended(None, s.len)
      else if TagAt(b, s.pos) == tag then r == Ended(Some(s.pos), s.len)
      else r == Searching(s.pos + TotalAt(b, s.pos), s.len - TotalAt(b, s.pos))
  {
  }

  // The search ends exactly if it does not stall; its result is then the first valid header
  // with the tag.
  lemma Termination(b: seq<Byte>, pos: nat, len: nat, tag: nat)
    requires Inside(b, pos, len, tag)
    ensures (exists n: nat :: Turns(b, Searching(pos, len), tag, n).Ended?) <==> !Stalls(b, pos, len, tag)
    ensures !Stalls(b, pos, len, tag) ==>
      var (found, left) := Search(b, pos, len, tag);
      exists n: nat :: Turns(b, Searching(pos, len), tag, n) == Ended(found, left)
  {
    if Stalls(b, pos, len, tag) {
      forall n: nat ensures Turns(b, Searching(pos, len), tag, n).Searching? {
        StaysStuck(b, Searching(pos, len), tag, n);
      }
    } else {
      var n := EndsAfter(b, pos, len, tag, Searching(pos, len), 0);
    }
  }

  lemma {:induction false} StaysStuck(b: seq<Byte>, s: State, tag: nat, n: nat)
    requires s.Searching? && Inside(b, s.pos, s.len, tag) && Stalls(b, s.pos, s.len, tag)
    ensures var r := Turns(b, s, tag, n); r.Searching? && Stalls(b, r.pos, r.len, tag)
  {
    if n > 0 {
      StaysStuck(b, s, tag, n - 1);
      OneTurn(b, Turns(b, s, tag, n - 1), tag);
    }
  }

  // Once at pos after k turns, a search that does not stall ends.
  lemma {:induction false} EndsAfter(b: seq<Byte>, pos: nat, len: nat, tag: nat, start: State, k: nat) returns (n: nat)
    requires CanTurn(b, start, tag) && Turns(b, start, tag, k) == Searching(pos, len)
    requires Inside(b, pos, len, tag) && !Stalls(b, pos, len, tag)
    ensures var (found, left) := Search(b, pos, len, tag); Turns(b, start, tag, n) == Ended(found, left)
    decreases len
  {
    OneTurn(b, Searching(pos, len), tag);
    n := k + 1;
    var r := Turns(b, start, tag, n);
    assert r == Turn(b, Searching(pos, len), tag);
    if r.Searching? {
      n := EndsAfter(b, r.pos, r.len, tag, start, n);
    }
  }

  lemma CodeStep(b: seq<Byte>, pos: nat, len: nat)
    requires len > 0 ==> pos + HDR <= |b|
    ensures Valid(b, Some(pos), len) <==> len > 0 && TotalAt(b, pos) <= len
    ensures len > 0 && TotalAt(b, pos) <= len ==>
      Next(b, Some(pos), len) == (Some(pos + TotalAt(b, pos)), len - TotalAt(b, pos))
  {
  }

  // std_tlv_find_next, for every input on which it returns.
  method FindNext(b: seq<Byte>, data0: Option<nat>, len0: nat, tag: nat) returns (found: Option<nat>, left: nat)
    requires data0.Some? ==> Inside(b, data0.value, len0, tag) && !Stalls(b, data0.value, len0, tag)
    ensures data0 == None ==> found == None && left == len0
    ensures data0.Some? ==> (found, left) == Search(b, data0.value, len0, tag)
  {
    if data0 == None {
      return None, len0;
    }
    var at: nat, len: nat := data0.value, len0;
    while true
      invariant Inside(b, at, len, tag) && !Stalls(b, at, len, tag)
      invariant Search(b, at, len, tag) == Search(b, data0.value, len0, tag)
      decreases len
    {
      SearchStep(b, at, len, tag);
      CodeStep(b, at, len);
      if !Valid(b, Some(at), len) {
        return None, len;
      }
      if TagAt(b, at) == tag {
        return Some(at), len;
      }
      var (next, left1) := Next(b, Some(at), len);
      at, len := next.value, left1;
    }
  }

  // Where the search is after n steps, if it gets that far within the buffer.
  ghost function Reached(b: seq<Byte>, pos: nat, len: nat, tag: nat, n: nat): Option<(nat, nat)>
    decreases n
  {
    if n == 0 then Some((pos, len))
    else if Over(b, pos, len) || TagAt(b, pos) == tag then None
    else Reached(b, pos + TotalAt(b, pos), len - TotalAt(b, pos), tag, n - 1)
  }

  // If there is anything left at this place, it is enough for a header.
  ghost predicate Ample(place: Option<(nat, nat)>) {
    place.Some? ==> place.value.1 == 0 || place.value.1 >= HDR
  }

  ghost predicate AlwaysAmple(b: seq<Byte>, pos: nat, len: nat, tag: nat) {
    forall n: nat :: Ample(Reached(b, pos, len, tag, n))
  }

  lemma AmpleStep(b: seq<Byte>, pos: nat, len: nat, tag: nat)
    requires !Over(b, pos, len) && TagAt(b, pos) != tag
    ensures var p, l := pos + TotalAt(b, pos), len - TotalAt(b, pos);
      AlwaysAmple(b, pos, len, tag) <==> len >= HDR && AlwaysAmple(b, p, l, tag)
  {
    var p, l := pos + TotalAt(b, pos), len - TotalAt(b, pos);
    forall n: nat ensures Reached(b, pos, len, tag, n + 1) == Reached(b, p, l, tag, n) { }
    assert Ample(Reached(b, pos, len, tag, 0)) <==> len >= HDR;
    if AlwaysAmple(b, pos, len, tag) {
      forall n: nat ensures Ample(Reached(b, p, l, tag, n)) {
        assert Ample(Reached(b, pos, len, tag, n + 1));
      }
    }
    if len >= HDR && AlwaysAmple(b, p, l, tag) {
      forall n: nat ensures Ample(Reached(b, pos, len, tag, n)) {
        if n > 0 { assert Ample(Reached(b, p, l, tag, n - 1)); }
      }
    }
  }

  // A search over all the bytes that are there leaves the buffer exactly if it comes to a
  // place with 1 to 15 bytes left.
  lemma {:induction false} InsideIff(b: seq<Byte>, pos: nat, len: nat, tag: nat)
    requires pos + len == |b|
    ensures Inside(b, pos, len, tag) <==> AlwaysAmple(b, pos, len, tag)
    decreases len
  {
    if Over(b, pos, len) || TagAt(b, pos) == tag {
      assert Ample(Reached(b, pos, len, tag, 0)) <==> len == 0 || len >= HDR;
      forall n: nat | n > 0 ensures Ample(Reached(b, pos, len, tag, n)) { }
    } else if TotalAt(b, pos) > 0 {
      AmpleStep(b, pos, len, tag);
      InsideIff(b, pos + TotalAt(b, pos), len - TotalAt(b, pos), tag);
    } else {
      forall n: nat ensures Reached(b, pos, len, tag, n) == Some((pos, len)) { StaysAt(b, pos, len, tag, n); }
    }
  }

  lemma {:induction false} StaysAt(b: seq<Byte>, pos: nat, len: nat, tag: nat, n: nat)
    requires !Over(b, pos, len) && TagAt(b, pos) != tag && TotalAt(b, pos) == 0
    ensures Reached(b, pos, len, tag, n) == Some((pos, len))
  {
    if n > 0 { StaysAt(b, pos, len, tag, n - 1); }
  }

  lemma Stray(b: seq<Byte>)
    requires |b| == HDR + 1 && TagAt(b, 0) == 0 && LenAt(b, 0) == 0
    ensures !Inside(b, 0, |b|, 1) && Reached(b, 0, |b|, 1, 1) == Some((HDR, 1))
  {
    assert TotalAt(b, 0) == HDR && Reached(b, HDR, 1, 1, 0) == Some((HDR, 1));
  }

  // One stray byte behind an item: a search for another tag leaves the buffer.
  lemma OutsideExample(x: Byte)
    ensures var b := Le(0, 8) + Le(0, 8) + [x];
      !Inside(b, 0, |b|, 1) && Reached(b, 0, |b|, 1, 1) == Some((HDR, 1))
  {
    var b := Le(0, 8) + Le(0, 8) + [x];
    assert b[..HDR] == Le(0, 8) + Le(0, 8);
    Fields(b, 0, 0);
    Stray(b);
  }

  // A list whose only item claims 2^64 - 16 bytes: the search for another tag never ends.
  lemma StallExample(n: nat)
    ensures var b := Le(0, 8) + Le(WORD - HDR, 8);
      Inside(b, 0, |b|, 1) && Turns(b, Searching(0, |b|), 1, n) == Searching(0, |b|)
  {
    var b := Le(0, 8) + Le(WORD - HDR, 8);
    assert b[..HDR] == b;
    Fields(b, 0, WORD - HDR);
    SearchStep(b, 0, |b|, 1);
    if n > 0 { StallExample(n - 1); }
  }

  // With one byte more, one byte is enough for the item to be valid: it is found, although
  // its value is not there.
  lemma OverflowExample()
    ensures var b := Le(0, 8) + Le(WORD - HDR + 1, 8);
      Inside(b, 0, 1, 0) && !Stalls(b, 0, 1, 0) && Search(b, 0, 1, 0) == (Some(0), 1) && !HeaderAt(b, 0, 1).Complete()
  {
    var b := Le(0, 8) + Le(WORD - HDR + 1, 8);
    assert b[..HDR] == b;
    Fields(b, 0, WORD - HDR + 1);
    SearchStep(b, 0, 1, 0);
  }

  lemma Fields(b: seq<Byte>, tag: nat, claimed: nat)
    requires |b| >= HDR && b[..HDR] == Le(tag, 8) + Le(claimed, 8) && tag < WORD && claimed < WORD
    ensures TagAt(b, 0) == tag && LenAt(b, 0) == claimed
  {
    assert b[0..8] == b[..HDR][0..8] == Le(tag, 8) && b[8..HDR] == b[..HDR][8..] == Le(claimed, 8);
    WordIs();
    LeRoundTrip(tag, 8);
    LeRoundTrip(claimed, 8);
  }

  // A step forward shortens what is left, unless the header claims 2^64 - 16 bytes.
  lemma StepShortens(b: seq<Byte>, pos: nat, len: nat)
    requires pos + HDR <= |b| && Next(b, Some(pos), len).0.Some?
    ensures Next(b, Some(pos), len).1 < len <==> LenAt(b, pos) != WORD - HDR
  {
    LenBound(b, pos);
  }

  lemma LenBound(b: seq<Byte>, pos: nat)
    requires pos + HDR <= |b|
    ensures LenAt(b, pos) < WORD
  {
    UnLeBound(b[pos + 8..pos + HDR]);
    WordIs();
  }

  // ---- What is found ----

  lemma CompleteHere(h: Header)
    requires h.claimed < WORD && h.len < WORD && h.Total() <= h.len
    ensures h.Complete() <==> h.claimed + HDR < WORD
  {
  }

  // A valid header's value is all there exactly if its length does not overflow 64 bits
  // together with the header's own. The length given is that of an object in memory.
  lemma {:induction false} CompleteIff(b: seq<Byte>, pos: nat, len: nat, i: nat)
    requires len < WORD && i < |Headers(b, pos, len)|
    ensures var h := Headers(b, pos, len)[i];
      && pos <= h.pos && 0 < h.len && h.pos + h.len == pos + len && h.pos + HDR <= |b|
      && h == HeaderAt(b, h.pos, h.len)
      && (h.Complete() <==> h.claimed + HDR < WORD)
    decreases len
  {
    LenBound(b, pos);
    CompleteHere(HeaderAt(b, pos, len));
    if i > 0 {
      HeadersStep(b, pos, len);
      CompleteIff(b, pos + TotalAt(b, pos), len - TotalAt(b, pos), i - 1);
    }
  }

  // What a search finds: where it is, and when it is all there.
  lemma SearchFound(b: seq<Byte>, pos: nat, len: nat, tag: nat)
    requires len < WORD
    ensures var (found, left) := Search(b, pos, len, tag);
      found.Some? ==>
        && pos <= found.value && 0 < left && found.value + left == pos + len && found.value + HDR <= |b|
        && TagAt(b, found.value) == tag && LenAt(b, found.value) < WORD
        && (HeaderAt(b, found.value, left).Complete() <==> LenAt(b, found.value) + HDR < WORD)
  {
    var i := FirstWith(Headers(b, pos, len), tag);
    if i < |Headers(b, pos, len)| {
      CompleteIff(b, pos, len, i);
      LenBound(b, Headers(b, pos, len)[i].pos);
    }
  }

  // ---- std_tlv_efind ----

  // At every level of the path the headers are in the buffer and the search ends.
  ghost predicate Followable(b: seq<Byte>, pos: nat, len: nat, tags: seq<nat>)
    decreases |tags|
  {
    tags != [] ==>
      && Inside(b, pos, len, tags[0]) && !Stalls(b, pos, len, tags[0])
      && var (found, left) := Search(b, pos, len, tags[0]);
      (found.Some? && |tags| > 1 ==>
        found.value + HDR <= |b| && Followable(b, found.value + HDR, LenAt(b, found.value), tags[1..]))
  }

  // Level by level the first item with the tag, and for the last one the bytes from there
  // to the end of the value around it.
  ghost function Locate(b: seq<Byte>, pos: nat, len: nat, tags: seq<nat>): Option<(nat, nat)>
    requires Followable(b, pos, len, tags)
    decreases |tags|
  {
    if tags == [] then Some((pos, len)) else
      var (found, left) := Search(b, pos, len, tags[0]);
      if found == None then None
      else if |tags| == 1 then Some((found.value, left))
      else Locate(b, found.value + HDR, LenAt(b, found.value), tags[1..])
  }

  // std_tlv_efind: without a match the caller's length is left as it was.
  method EFind(b: seq<Byte>, data0: Option<nat>, dlen: nat, tags: seq<nat>) returns (found: Option<nat>, dlen1: nat)
    requires data0.Some? ==> Followable(b, data0.value, dlen, tags)
    ensures data0 == None || (found == None && tags != []) ==> found == None && dlen1 == dlen
    ensures data0.Some? ==> match Locate(b, data0.value, dlen, tags)
      case None => found == None && dlen1 == dlen
      case Some(r) => found == Some(r.0) && dlen1 == r.1
  {
    var ix := 0;
    var data: Option<nat>, len: nat := data0, dlen;
    ghost var want := if data.Some? then Locate(b, data.value, len, tags) else None;
    while ix < |tags|
      invariant ix <= |tags| && (data.Some? <==> data0.Some?)
      invariant data.Some? ==>
        Followable(b, data.value, len, tags[ix..]) && Locate(b, data.value, len, tags[ix..]) == want
      invariant ix == |tags| ==> tags == [] && len == dlen
    {
      data, len := FindNext(b, data, len, tags[ix]);
      if data == None {
        return None, dlen;
      }
      if ix + 1 == |tags| {
        break;
      }
      assert tags[ix..][1..] == tags[ix + 1..];
      len := LenAt(b, data.value);
      data := Some(data.value + HDR);
      ix := ix + 1;
    }
    found, dlen1 := data, len;
  }

  // At every level, what is found is complete within the value around it.
  ghost predicate Nested(b: seq<Byte>, pos: nat, len: nat, tags: seq<nat>)
    requires Followable(b, pos, len, tags)
    decreases |tags|
  {
    tags != [] ==>
      var (found, left) := Search(b, pos, len, tags[0]);
      found.Some? ==>
        && found.value + HDR <= |b| && HeaderAt(b, found.value, left).Complete() && found.value + left == pos + len
        && pos <= found.value
        && (|tags| > 1 ==> Nested(b, found.value + HDR, LenAt(b, found.value), tags[1..]))
  }

  // None of the headers found claims a length that overflows 64 bits with the header's own.
  ghost predicate NoOverflow(b: seq<Byte>, pos: nat, len: nat, tags: seq<nat>)
    requires Followable(b, pos, len, tags)
    decreases |tags|
  {
    tags != [] ==>
      var (found, left) := Search(b, pos, len, tags[0]);
      found.Some? ==>
        && found.value + HDR <= |b| && LenAt(b, found.value) + HDR < WORD
        && (|tags| > 1 ==> NoOverflow(b, found.value + HDR, LenAt(b, found.value), tags[1..]))
  }

  lemma {:induction false} NestedIff(b: seq<Byte>, pos: nat, len: nat, tags: seq<nat>)
    requires Followable(b, pos, len, tags) && len < WORD
    ensures Nested(b, pos, len, tags) <==> NoOverflow(b, pos, len, tags)
    decreases |tags|
  {
    if tags != [] {
      SearchFound(b, pos, len, tags[0]);
      var (found, left) := Search(b, pos, len, tags[0]);
      if found.Some? && |tags| > 1 {
        NestedIff(b, found.value + HDR, LenAt(b, found.value), tags[1..]);
      }
    }
  }

  // Then the item that the path leads to is complete and inside the bytes searched.
  lemma {:induction false} LocateInside(b: seq<Byte>, pos: nat, len: nat, tags: seq<nat>)
    requires Followable(b, pos, len, tags) && tags != [] && len < WORD && NoOverflow(b, pos, len, tags)
    ensures var r := Locate(b, pos, len, tags);
      r.Some? ==>
        && pos <= r.value.0 && 0 < r.value.1 && r.value.0 + r.value.1 <= pos + len
        && r.value.0 + HDR <= |b| && TagAt(b, r.value.0) == tags[|tags| - 1]
        && HeaderAt(b, r.value.0, r.value.1).Complete()
    decreases |tags|
  {
    SearchFound(b, pos, len, tags[0]);
    var (found, left) := Search(b, pos, len, tags[0]);
    if found.Some? && |tags| > 1 {
      LocateInside(b, found.value + HDR, LenAt(b, found.value), tags[1..]);
    }
  }

  // ---- Encoded lists ----

  // The rest of a list lies behind its beginning.
  lemma HoldsRest(b: seq<Byte>, pos: nat, xs: seq<Item>, i: nat)
    requires Holds(b, pos, xs) && i <= |xs|
    ensures Holds(b, pos + Size(xs[..i]), xs[i..])
  {
    assert xs == xs[..i] + xs[i..];
    EncodeConcat(xs[..i], xs[i..]);
    var whole := b[pos..pos + Size(xs)];
    assert b[pos + Size(xs[..i])..pos + Size(xs)] == whole[Size(xs[..i])..];
  }

  function ItemAt(b: seq<Byte>, h: Header): Item
    requires h.pos + HDR + h.claimed <= |b|
  {
    Item(h.tag, b[h.pos + HDR..h.pos + HDR + h.claimed])
  }

  // The headers of an encoded list.
  ghost function HeadersOf(pos: nat, xs: seq<Item>): seq<Header>
    decreases |xs|
  {
    if xs == [] then []
    else [Header(pos, Size(xs), xs[0].tag, |xs[0].value|)] + HeadersOf(pos + HDR + |xs[0].value|, xs[1..])
  }

  lemma {:induction false} HeadersOfAt(pos: nat, xs: seq<Item>, i: nat)
    ensures |HeadersOf(pos, xs)| == |xs|
    ensures i < |xs| ==>
      HeadersOf(pos, xs)[i] == Header(pos + Size(xs[..i]), Size(xs[i..]), xs[i].tag, |xs[i].value|)
    decreases |xs|
  {
    if xs != [] {
      HeadersOfAt(pos + HDR + |xs[0].value|, xs[1..], if i == 0 then 0 else i - 1);
      if i == 0 {
        assert xs[0..] == xs && xs[..0] == [];
      } else if i < |xs| {
        assert xs[1..][i - 1..] == xs[i..];
        assert xs[..i][1..] == xs[1..][..i - 1] && xs[..i][0] == xs[0];
      }
    }
  }

  // None of them is one that a walk does not get past.
  lemma LastPasses(pos: nat, xs: seq<Item>)
    requires forall x <- xs :: Fits(x)
    ensures var hs := HeadersOf(pos, xs); hs != [] ==> hs[|hs| - 1].Total() > 0
  {
    if xs != [] {
      HeadersOfAt(pos, xs, |xs| - 1);
      Passed(HeadersOf(pos, xs)[|xs| - 1], xs[|xs| - 1]);
    }
  }

  lemma Passed(h: Header, x: Item)
    requires Fits(x) && h.claimed == |x.value|
    ensures h.Total() > 0
  {
  }

  lemma OneHeader(b: seq<Byte>, pos: nat, xs: seq<Item>)
    requires Holds(b, pos, xs) && xs != []
    ensures var p, l := pos + HDR + |xs[0].value|, Size(xs[1..]);
      && Holds(b, p, xs[1..]) && Remainder(b, pos, Size(xs)) == Remainder(b, p, l)
      && Headers(b, pos, Size(xs)) == [Header(pos, Size(xs), xs[0].tag, |xs[0].value|)] + Headers(b, p, l)
  {
    Peel(b, pos, xs);
    HeadersStep(b, pos, Size(xs));
  }

  // A walk over an encoded list meets exactly those headers and ends with nothing left.
  lemma {:induction false} EncodingHeaders(b: seq<Byte>, pos: nat, xs: seq<Item>)
    requires Holds(b, pos, xs)
    ensures Remainder(b, pos, Size(xs)) == 0
    ensures Headers(b, pos, Size(xs)) == HeadersOf(pos, xs)
    decreases |xs|
  {
    if xs != [] {
      OneHeader(b, pos, xs);
      EncodingHeaders(b, pos + HDR + |xs[0].value|, xs[1..]);
    }
  }

  // What has been encoded is read back, from anywhere in any buffer: the walk meets as many
  // headers as there are items, and the i-th of them is that of the i-th item, whose value
  // follows it.
  lemma EncodingIsRead(b: seq<Byte>, pos: nat, xs: seq<Item>, i: nat)
    requires Holds(b, pos, xs)
    ensures Remainder(b, pos, Size(xs)) == 0
    ensures var hs := Headers(b, pos, Size(xs));
      && |hs| == |xs|
      && (i < |xs| ==>
        && Holds(b, hs[i].pos, xs[i..]) && hs[i].len == Size(xs[i..])
        && hs[i].pos + HDR + hs[i].claimed <= |b| && ItemAt(b, hs[i]) == xs[i])
  {
    EncodingHeaders(b, pos, xs);
    HeadersOfAt(pos, xs, i);
    if i < |xs| {
      ItemRead(b, pos, xs, i, HeadersOf(pos, xs)[i]);
    }
  }

  lemma ItemRead(b: seq<Byte>, pos: nat, xs: seq<Item>, i: nat, h: Header)
    requires Holds(b, pos, xs) && i < |xs|
    requires h == Header(pos + Size(xs[..i]), Size(xs[i..]), xs[i].tag, |xs[i].value|)
    ensures Holds(b, h.pos, xs[i..]) && h.pos + HDR + h.claimed <= |b| && ItemAt(b, h) == xs[i]
  {
    HoldsRest(b, pos, xs, i);
    Peel(b, h.pos, xs[i..]);
  }

  // Where the search of an encoded list leads: to item i, if that is the first with the tag.
  lemma SearchEncoded(b: seq<Byte>, pos: nat, xs: seq<Item>, tag: nat, i: nat)
    requires Holds(b, pos, xs) && i <= |xs|
    requires (forall j :: 0 <= j < i ==> xs[j].tag != tag) && (i < |xs| ==> xs[i].tag == tag)
    ensures Inside(b, pos, Size(xs), tag) && !Stalls(b, pos, Size(xs), tag)
    ensures var (found, left) := Search(b, pos, Size(xs), tag);
      if i == |xs| then found == None else found.Some? && left == Size(xs[i..]) && Holds(b, found.value, xs[i..])
  {
    EncodingIsRead(b, pos, xs, i);
    var hs := Headers(b, pos, Size(xs));
    var f := FirstWith(hs, tag);
    EncodingIsRead(b, pos, xs, f);
    assert f == i;
    LastPasses(pos, xs);
    EncodingHeaders(b, pos, xs);
    EncodingInside(b, pos, xs, tag);
  }

  lemma {:induction false} EncodingInside(b: seq<Byte>, pos: nat, xs: seq<Item>, tag: nat)
    requires Holds(b, pos, xs)
    ensures Inside(b, pos, Size(xs), tag)
    decreases |xs|
  {
    if xs != [] {
      Peel(b, pos, xs);
      EncodingInside(b, pos + HDR + |xs[0].value|, xs[1..], tag);
    }
  }

  // ---- Nested items ----

  // Items whose values are items again.
  datatype Tree = Leaf(tag: nat, value: seq<Byte>) | Group(tag: nat, items: seq<Tree>)

  function Flat(t: Tree): Item {
    match t
    case Leaf(tag, value) => Item(tag, value)
    case Group(tag, items) => Item(tag, Encode(FlatAll(items)))
  }

  function FlatAll(ts: seq<Tree>): (xs: seq<Item>)
    ensures |xs| == |ts| && forall i :: 0 <= i < |ts| ==> xs[i] == Flat(ts[i])
  {
    if ts == [] then [] else [Flat(ts[0])] + FlatAll(ts[1..])
  }

  // No field is too large for the format, at any depth.
  ghost predicate FitsAll(ts: seq<Tree>) {
    forall t <- ts :: Fits(Flat(t)) && (t.Group? ==> FitsAll(t.items))
  }

  function FirstTree(ts: seq<Tree>, tag: nat): (t: Option<Tree>)
    ensures t.Some? ==> t.value in ts
  {
    if ts == [] then None else if ts[0].tag == tag then Some(ts[0]) else FirstTree(ts[1..], tag)
  }

  lemma {:induction false} TreeIndex(ts: seq<Tree>, tag: nat) returns (i: nat)
    ensures i <= |ts| && (forall j :: 0 <= j < i ==> ts[j].tag != tag) && (i < |ts| ==> ts[i].tag == tag)
    ensures FirstTree(ts, tag) == if i < |ts| then Some(ts[i]) else None
  {
    if ts == [] || ts[0].tag == tag {
      i := 0;
    } else {
      i := TreeIndex(ts[1..], tag);
      assert forall j :: 0 < j < i + 1 ==> ts[j] == ts[1..][j - 1];
      i := i + 1;
    }
  }

  // The path enters groups only.
  ghost predicate Enters(ts: seq<Tree>, tags: seq<nat>)
    decreases |tags|
  {
    tags != [] && (|tags| > 1 ==>
      var t := FirstTree(ts, tags[0]); t.Some? ==> t.value.Group? && Enters(t.value.items, tags[1..]))
  }

  // Level by level the first tree with the tag.
  ghost function Lookup(ts: seq<Tree>, tags: seq<nat>): Option<Tree>
    requires Enters(ts, tags)
    decreases |tags|
  {
    var t := FirstTree(ts, tags[0]);
    if t == None || |tags| == 1 then t else Lookup(t.value.items, tags[1..])
  }

  // The encoding of the tree is in the buffer at pos.
  ghost predicate TreeAt(b: seq<Byte>, pos: nat, t: Tree) {
    var x := EncodeItem(Flat(t)); pos + |x| <= |b| && b[pos..pos + |x|] == x
  }

  lemma ItemThere(b: seq<Byte>, pos: nat, xs: seq<Item>)
    requires Holds(b, pos, xs) && xs != []
    ensures var x := EncodeItem(xs[0]); pos + |x| <= |b| && b[pos..pos + |x|] == x
  {
    var whole := b[pos..pos + Size(xs)];
    assert Encode(xs) == EncodeItem(xs[0]) + Encode(xs[1..]);
    assert b[pos..pos + |EncodeItem(xs[0])|] == whole[..|EncodeItem(xs[0])|];
  }

  // One level of the path.
  lemma SearchForest(b: seq<Byte>, pos: nat, ts: seq<Tree>, tag: nat, i: nat)
    requires Holds(b, pos, FlatAll(ts)) && i <= |ts|
    requires (forall j :: 0 <= j < i ==> ts[j].tag != tag) && (i < |ts| ==> ts[i].tag == tag)
    ensures Inside(b, pos, Size(FlatAll(ts)), tag) && !Stalls(b, pos, Size(FlatAll(ts)), tag)
    ensures var (found, left) := Search(b, pos, Size(FlatAll(ts)), tag);
      if i == |ts| then found == None else found.Some? && TreeAt(b, found.value, ts[i])
  {
    var xs := FlatAll(ts);
    SearchEncoded(b, pos, xs, tag, i);
    if i < |ts| {
      ItemThere(b, Search(b, pos, Size(xs), tag).0.value, xs[i..]);
    }
  }

  lemma FitsInside(ts: seq<Tree>)
    requires FitsAll(ts)
    ensures forall x <- FlatAll(ts) :: Fits(x)
  {
    forall x | x in FlatAll(ts) ensures Fits(x) {
      var i :| 0 <= i < |ts| && FlatAll(ts)[i] == x;
      assert ts[i] in ts;
    }
  }

  // Inside a group.
  lemma EnterGroup(b: seq<Byte>, pos: nat, t: Tree)
    requires TreeAt(b, pos, t) && t.Group? && Fits(Flat(t)) && FitsAll(t.items)
    ensures LenAt(b, pos) == Size(FlatAll(t.items)) && Holds(b, pos + HDR, FlatAll(t.items))
  {
    FieldsOfItem(b, pos, Flat(t));
    FitsInside(t.items);
  }

  // On an encoded forest, std_tlv_efind finds the encoding of the tree that the path leads to.
  lemma {:induction false} EFindIsLookup(b: seq<Byte>, pos: nat, ts: seq<Tree>, tags: seq<nat>)
    requires Holds(b, pos, FlatAll(ts)) && FitsAll(ts) && Enters(ts, tags)
    ensures Followable(b, pos, Size(FlatAll(ts)), tags)
    ensures var r := Locate(b, pos, Size(FlatAll(ts)), tags);
      match Lookup(ts, tags)
      case None => r == None
      case Some(t) => r.Some? && TreeAt(b, r.value.0, t)
    decreases |tags|
  {
    var i := TreeIndex(ts, tags[0]);
    SearchForest(b, pos, ts, tags[0], i);
    var t := FirstTree(ts, tags[0]);
    if t.Some? && |tags| > 1 {
      var q := Search(b, pos, Size(FlatAll(ts)), tags[0]).0.value;
      EnterGroup(b, q, t.value);
      EFindIsLookup(b, q + HDR, t.value.items, tags[1..]);
    }
  }
}

// The list layer of EERecordSystem as a function of the bytes of the medium:
// every record whose key is a list key holds 4-byte slots, each slot a 32-bit
// identifier stored little-endian, 0xFFFFFFFF marking a free slot.

module IdLists {
  import opened LittleEndian
  import opened Words
  import opened RecordChain

  /** The value of a free slot: delete stores it and add reuses it. */
  const Tombstone: bv32 := 0xFFFF_FFFF

  /** The mask add compares with: all 32 bits. */
  const FullMask: bv32 := 0xFFFF_FFFF

  // ---------------------------------------------------------------------------
  // Where the slots are

  /** The slot addresses of an n-byte payload at d, in address order: one slot
      per whole 4 bytes, a tail of fewer than 4 bytes holding none. */
  function PayloadSlots(d: int, n: int): (ps: seq<int>)
    ensures n >= 0 ==> |ps| == n / 4
    ensures n < 4 ==> ps == []
    ensures forall i :: 0 <= i < |ps| ==> ps[i] == d + 4 * i
    decreases n
  {
    if n < 4 then [] else [d] + PayloadSlots(d + 4, n - 4)
  }

  /** The slots record r contributes to the list listkey. */
  function RecSlots(r: Rec, w: Widths, listkey: nat): seq<int> {
    if r.key == listkey then PayloadSlots(r.DataAddr(w), r.PayloadSize(w)) else []
  }

  /** The slots of the list listkey held by the records rs, in record order. */
  function Slots(rs: seq<Rec>, w: Widths, listkey: nat): seq<int> {
    if rs == [] then [] else RecSlots(rs[0], w, listkey) + Slots(rs[1..], w, listkey)
  }

  /** The slots of a list are those of its records one after the other. */
  lemma {:induction false} SlotsAppend(rs: seq<Rec>, ts: seq<Rec>, w: Widths, listkey: nat)
    ensures Slots(rs + ts, w, listkey) == Slots(rs, w, listkey) + Slots(ts, w, listkey)
  {
    if rs != [] {
      assert (rs + ts)[0] == rs[0];
      assert (rs + ts)[1..] == rs[1..] + ts;
      SlotsAppend(rs[1..], ts, w, listkey);
    } else {
      assert rs + ts == ts;
    }
  }

  /** The slots of the list listkey on the chain from a. */
  ghost function ListSlots(m: seq<byte>, w: Widths, a: int, end: int, listkey: nat): seq<int>
    requires w.Valid() && WellFormed(m, w, a, end)
  {
    Slots(Records(m, w, a, end), w, listkey)
  }

  /** Every slot lies inside the medium. */
  predicate SlotsIn(m: seq<byte>, ps: seq<int>) {
    forall i :: 0 <= i < |ps| ==> 0 <= ps[i] && ps[i] + 4 <= |m|
  }

  /** The slots follow each other in address order without overlapping. */
  predicate Ascending(ps: seq<int>) {
    forall i, j :: 0 <= i < j < |ps| ==> ps[i] + 4 <= ps[j]
  }

  /** Slot p lies, all four bytes of it, in payloads of the chain from a. */
  ghost predicate SlotInPayloads(m: seq<byte>, w: Widths, a: int, end: int, p: int)
    requires w.Valid() && WellFormed(m, w, a, end)
  {
    forall j :: p <= j < p + 4 ==> InPayloads(m, w, a, end, j)
  }

  /** The slots of one payload lie inside it, in address order. */
  lemma PayloadSlotsShape(d: int, n: int)
    ensures var ps := PayloadSlots(d, n);
      Ascending(ps) && forall i :: 0 <= i < |ps| ==> d <= ps[i] && ps[i] + 4 <= d + n
  {
    var ps := PayloadSlots(d, n);
    forall i | 0 <= i < |ps|
      ensures ps[i] + 4 <= d + n
    {
      assert 4 * i + 4 <= 4 * (n / 4);
    }
  }

  lemma ConcatAscending(xs: seq<int>, ys: seq<int>, bound: int)
    requires Ascending(xs) && Ascending(ys)
    requires forall i :: 0 <= i < |xs| ==> xs[i] + 4 <= bound
    requires forall i :: 0 <= i < |ys| ==> bound <= ys[i]
    ensures Ascending(xs + ys)
  {
    var zs := xs + ys;
    forall i, j | 0 <= i < j < |zs|
      ensures zs[i] + 4 <= zs[j]
    {
      if j < |xs| {
        assert zs[i] == xs[i] && zs[j] == xs[j];
      } else if i < |xs| {
        assert zs[i] == xs[i] && zs[j] == ys[j - |xs|];
      } else {
        assert zs[i] == ys[i - |xs|] && zs[j] == ys[j - |xs|];
      }
    }
  }

  /** Unfolding the list's slots by one record of the chain. */
  lemma ListSlotsStep(m: seq<byte>, w: Widths, a: int, end: int, listkey: nat, size: int, key: int)
    requires w.Valid() && WellFormed(m, w, a, end) && WellFormed(m, w, a + size, end)
    requires size == ReadField(m, a, w.len) && size != 0 && key == ReadField(m, a + w.len, w.key)
    ensures ListSlots(m, w, a, end, listkey) == RecSlots(Rec(a, size, key), w, listkey) + ListSlots(m, w, a + size, end, listkey)
  {
    RecordsStep(m, w, a, end);
    assert ([Rec(a, size, key)] + Records(m, w, a + size, end))[1..] == Records(m, w, a + size, end);
  }

  /** The slots a record contributes lie in its payload. */
  lemma RecSlotBounds(r: Rec, w: Widths, listkey: nat, i: nat)
    requires i < |RecSlots(r, w, listkey)|
    ensures var p := RecSlots(r, w, listkey)[i];
      r.DataAddr(w) <= p && p + 4 <= r.at + r.size
  {
    PayloadSlotsShape(r.DataAddr(w), r.PayloadSize(w));
  }

  /** Slot i of the records rs lies in the payload of one of them. */
  lemma {:induction false} SlotOwner(rs: seq<Rec>, w: Widths, listkey: nat, i: nat) returns (k: nat)
    requires i < |Slots(rs, w, listkey)|
    ensures k < |rs|
    ensures var p := Slots(rs, w, listkey)[i];
      rs[k].DataAddr(w) <= p && p + 4 <= rs[k].at + rs[k].size
  {
    var xs := RecSlots(rs[0], w, listkey);
    var ys := Slots(rs[1..], w, listkey);
    if i < |xs| {
      assert (xs + ys)[i] == xs[i];
      RecSlotBounds(rs[0], w, listkey, i);
      k := 0;
    } else {
      assert (xs + ys)[i] == ys[i - |xs|];
      var k' := SlotOwner(rs[1..], w, listkey, i - |xs|);
      assert rs[1..][k'] == rs[k' + 1];
      k := k' + 1;
    }
  }

  /** Slot i of a list on a well-formed chain lies between the first
      record's payload and the sentinel. */
  lemma ListSlotBounds(m: seq<byte>, w: Widths, a: int, end: int, listkey: nat, i: nat)
    requires w.Valid() && WellFormed(m, w, a, end)
    requires i < |ListSlots(m, w, a, end, listkey)|
    ensures var p := ListSlots(m, w, a, end, listkey)[i];
      a + w.Header() <= p && p + 4 <= SentinelOf(m, w, a, end)
  {
    var rs := Records(m, w, a, end);
    var k := SlotOwner(rs, w, listkey, i);
    RecordsShape(m, w, a, end);
    assert Inside(m, w, a, SentinelOf(m, w, a, end), rs[k]);
  }

  /** Slot i of a list on a well-formed chain lies whole in the payload of a
      record. */
  lemma ListSlotInPayloads(m: seq<byte>, w: Widths, a: int, end: int, listkey: nat, i: nat)
    requires w.Valid() && WellFormed(m, w, a, end)
    requires i < |ListSlots(m, w, a, end, listkey)|
    ensures SlotInPayloads(m, w, a, end, ListSlots(m, w, a, end, listkey)[i])
  {
    var rs := Records(m, w, a, end);
    var k := SlotOwner(rs, w, listkey, i);
    var p := ListSlots(m, w, a, end, listkey)[i];
    forall j | p <= j < p + 4
      ensures InPayloads(m, w, a, end, j)
    {
      RecordPayloadInPayloads(m, w, a, end, k, j);
    }
  }

  /** The slots of records that follow each other without overlapping are
      in address order and do not overlap. */
  lemma {:induction false} SlotsAscending(rs: seq<Rec>, w: Widths, listkey: nat)
    requires InOrder(rs)
    ensures Ascending(Slots(rs, w, listkey))
  {
    if rs != [] {
      var tail := rs[1..];
      forall i, j | 0 <= i < j < |tail|
        ensures tail[i].at + tail[i].size <= tail[j].at
      {
        assert tail[i] == rs[i + 1] && tail[j] == rs[j + 1];
      }
      assert InOrder(tail);
      SlotsAscending(tail, w, listkey);
      var xs := RecSlots(rs[0], w, listkey);
      var ys := Slots(tail, w, listkey);
      var bound := rs[0].at + rs[0].size;
      forall i | 0 <= i < |xs|
        ensures xs[i] + 4 <= bound
      {
        RecSlotBounds(rs[0], w, listkey, i);
      }
      forall i | 0 <= i < |ys|
        ensures bound <= ys[i]
      {
        var k := SlotOwner(tail, w, listkey, i);
        assert tail[k] == rs[k + 1];
      }
      PayloadSlotsShape(rs[0].DataAddr(w), rs[0].PayloadSize(w));
      ConcatAscending(xs, ys, bound);
    }
  }

  /** The slots of a list on a well-formed chain are in address order and do
      not overlap. */
  lemma ListSlotsAscending(m: seq<byte>, w: Widths, a: int, end: int, listkey: nat)
    requires w.Valid() && WellFormed(m, w, a, end)
    ensures Ascending(ListSlots(m, w, a, end, listkey))
  {
    RecordsOrdered(m, w, a, end);
    SlotsAscending(Records(m, w, a, end), w, listkey);
  }

  /** The slots of a list on a well-formed chain lie in the medium, after
      the start of the chain. */
  lemma ListSlotsPlaced(m: seq<byte>, w: Widths, a: int, end: int, listkey: nat)
    requires w.Valid() && WellFormed(m, w, a, end)
    ensures var ps := ListSlots(m, w, a, end, listkey);
      SlotsIn(m, ps) && forall i :: 0 <= i < |ps| ==> a < ps[i]
  {
    var ps := ListSlots(m, w, a, end, listkey);
    forall i | 0 <= i < |ps|
      ensures a < ps[i] && ps[i] + 4 <= |m|
    {
      ListSlotBounds(m, w, a, end, listkey, i);
    }
  }

  /** The slots of a list on a well-formed chain are in address order, each
      lies whole in the payload of a record between the first record's payload
      and the sentinel. */
  lemma ListSlotsShape(m: seq<byte>, w: Widths, a: int, end: int, listkey: nat)
    requires w.Valid() && WellFormed(m, w, a, end)
    ensures var ps := ListSlots(m, w, a, end, listkey);
      SlotsIn(m, ps) && Ascending(ps) &&
      forall i :: 0 <= i < |ps| ==>
        a + w.Header() <= ps[i] && ps[i] + 4 <= SentinelOf(m, w, a, end) &&
        SlotInPayloads(m, w, a, end, ps[i])
  {
    var ps := ListSlots(m, w, a, end, listkey);
    forall i | 0 <= i < |ps|
      ensures a + w.Header() <= ps[i] && ps[i] + 4 <= SentinelOf(m, w, a, end)
      ensures SlotInPayloads(m, w, a, end, ps[i])
    {
      ListSlotBounds(m, w, a, end, listkey, i);
      ListSlotInPayloads(m, w, a, end, listkey, i);
    }
    ListSlotsAscending(m, w, a, end, listkey);
  }


  // ---------------------------------------------------------------------------
  // What a slot holds

  /** The identifier slot p holds: its four bytes read as a little-endian word. */
  function SlotValue(m: seq<byte>, p: int): bv32
    requires 0 <= p && p + 4 <= |m|
  {
    Word(Bits(m[p]), Bits(m[p + 1]), Bits(m[p + 2]), Bits(m[p + 3]))
  }

  /** Whether slot p is free: all four of its bytes are 0xFF. */
  predicate IsFree(m: seq<byte>, p: int)
    requires 0 <= p && p + 4 <= |m|
  {
    m[p] == 0xFF && m[p + 1] == 0xFF && m[p + 2] == 0xFF && m[p + 3] == 0xFF
  }

  /** A slot is free exactly when the value it holds is the tombstone. */
  lemma FreeIsTombstone(m: seq<byte>, p: int)
    requires 0 <= p && p + 4 <= |m|
    ensures IsFree(m, p) <==> SlotValue(m, p) == Tombstone
  {
    ByteOfWord(Bits(m[p]), Bits(m[p + 1]), Bits(m[p + 2]), Bits(m[p + 3]));
    WordsEqualByBytes(SlotValue(m, p), Tombstone);
  }

  /** The scan's test of slot p against id under mask, one byte at a time. */
  predicate Matches(m: seq<byte>, p: int, id: bv32, mask: bv32)
    requires 0 <= p && p + 4 <= |m|
  {
    BytesAgree(Bits(m[p]), Bits(m[p + 1]), Bits(m[p + 2]), Bits(m[p + 3]), id, mask)
  }

  /** Bytes i to 3 of slot p agree with id under mask, byte by byte. */
  predicate AgreeFrom(m: seq<byte>, p: int, id: bv32, mask: bv32, i: nat)
    requires i <= 4 && 0 <= p && p + 4 <= |m|
    decreases 4 - i
  {
    i == 4 || (ByteAgrees(Bits(m[p + i]), id, mask, i) && AgreeFrom(m, p, id, mask, i + 1))
  }

  /** All four bytes agreeing is the scan's test. */
  lemma AgreeFromAll(m: seq<byte>, p: int, id: bv32, mask: bv32)
    requires 0 <= p && p + 4 <= |m|
    ensures AgreeFrom(m, p, id, mask, 0) == Matches(m, p, id, mask)
  {
    assert AgreeFrom(m, p, id, mask, 2) == (ByteAgrees(Bits(m[p + 2]), id, mask, 2) && ByteAgrees(Bits(m[p + 3]), id, mask, 3));
  }

  /** The byte-by-byte test is the masked comparison of the slot's value. */
  lemma MatchesMasked(m: seq<byte>, p: int, id: bv32, mask: bv32)
    requires 0 <= p && p + 4 <= |m|
    ensures Matches(m, p, id, mask) <==> MaskedEqual(SlotValue(m, p), id, mask)
  {
    ByteOfWord(Bits(m[p]), Bits(m[p + 1]), Bits(m[p + 2]), Bits(m[p + 3]));
    MaskedBytewise(SlotValue(m, p), id, mask);
  }

  /** Under the full mask a slot matches exactly the identifier it holds. */
  lemma FullMaskMatch(m: seq<byte>, p: int, id: bv32)
    requires 0 <= p && p + 4 <= |m|
    ensures Matches(m, p, id, FullMask) <==> SlotValue(m, p) == id
  {
    MatchesMasked(m, p, id, FullMask);
  }

  /** A free slot matches exactly when the tombstone itself does. */
  lemma FreeMatches(m: seq<byte>, p: int, id: bv32, mask: bv32)
    requires 0 <= p && p + 4 <= |m| && IsFree(m, p)
    ensures Matches(m, p, id, mask) <==> MaskedEqual(Tombstone, id, mask)
  {
    FreeIsTombstone(m, p);
    MatchesMasked(m, p, id, mask);
  }

  /** Whether some slot of ps matches id under mask: queryList's answer. */
  predicate AnyMatch(m: seq<byte>, ps: seq<int>, id: bv32, mask: bv32)
    requires SlotsIn(m, ps)
  {
    exists i :: 0 <= i < |ps| && Matches(m, ps[i], id, mask)
  }

  /** v as an entry of an enumeration: nothing when v marks a free slot. */
  function Kept(v: bv32): seq<bv32> {
    if v != Tombstone then [v] else []
  }

  /** Slot p as an entry of an enumeration: its value, or nothing when free. */
  function Entry(m: seq<byte>, p: int): seq<bv32>
    requires 0 <= p && p + 4 <= |m|
  {
    if IsFree(m, p) then [] else [SlotValue(m, p)]
  }

  /** A slot's entry is its value unless that value is the tombstone. */
  lemma EntryKept(m: seq<byte>, p: int)
    requires 0 <= p && p + 4 <= |m|
    ensures Entry(m, p) == Kept(SlotValue(m, p))
  {
    FreeIsTombstone(m, p);
  }

  /** The values of the slots of ps that are not free, in order: what
      enumerateList hands to its visitor. */
  function Live(m: seq<byte>, ps: seq<int>): (vs: seq<bv32>)
    requires SlotsIn(m, ps)
    ensures |vs| <= |ps|
  {
    if ps == [] then [] else Live(m, ps[..|ps| - 1]) + Entry(m, ps[|ps| - 1])
  }

  /** No entry of an enumeration is the tombstone. */
  lemma {:induction false} LiveNoTombstone(m: seq<byte>, ps: seq<int>)
    requires SlotsIn(m, ps)
    ensures Tombstone !in Live(m, ps)
  {
    if ps != [] {
      var p := ps[|ps| - 1];
      LiveNoTombstone(m, ps[..|ps| - 1]);
      FreeIsTombstone(m, p);
    }
  }

  /** The index in ps of the first free slot, if there is one. */
  function FirstFree(m: seq<byte>, ps: seq<int>): (r: Option<nat>)
    requires SlotsIn(m, ps)
    ensures r.Some? ==> r.value < |ps| && IsFree(m, ps[r.value])
    ensures forall j :: 0 <= j < |ps| && (r.None? || j < r.value) ==> !IsFree(m, ps[j])
  {
    if ps == [] then None
    else
      var f := FirstFree(m, ps[..|ps| - 1]);
      if f.Some? then f
      else if IsFree(m, ps[|ps| - 1]) then Some(|ps| - 1)
      else None
  }

  /** Whether the four bytes of slot p are the same in m and m2. */
  predicate SameBytes(m: seq<byte>, m2: seq<byte>, p: int)
    requires 0 <= p && p + 4 <= |m| && p + 4 <= |m2|
  {
    m2[p] == m[p] && m2[p + 1] == m[p + 1] && m2[p + 2] == m[p + 2] && m2[p + 3] == m[p + 3]
  }

  /** A slot whose bytes agree holds the same value and the same entry. */
  lemma SameSlot(m: seq<byte>, m2: seq<byte>, p: int)
    requires 0 <= p && p + 4 <= |m| && p + 4 <= |m2| && SameBytes(m, m2, p)
    ensures SlotValue(m2, p) == SlotValue(m, p) && Entry(m2, p) == Entry(m, p)
  {
  }

  /** Two lists of slots inside the medium make one. */
  lemma SlotsInAppend(m: seq<byte>, xs: seq<int>, ys: seq<int>)
    requires SlotsIn(m, xs) && SlotsIn(m, ys)
    ensures SlotsIn(m, xs + ys)
  {
    var zs := xs + ys;
    forall i | 0 <= i < |zs|
      ensures 0 <= zs[i] && zs[i] + 4 <= |m|
    {
      if i >= |xs| {
        assert zs[i] == ys[i - |xs|];
      }
    }
  }

  /** Enumerating one more slot adds its entry at the end. */
  lemma LiveSnoc(m: seq<byte>, ps: seq<int>, p: int)
    requires SlotsIn(m, ps) && 0 <= p && p + 4 <= |m|
    ensures SlotsIn(m, ps + [p])
    ensures Live(m, ps + [p]) == Live(m, ps) + Entry(m, p)
  {
    assert (ps + [p])[..|ps|] == ps;
  }

  /** The enumeration of a list is that of its parts one after the other. */
  lemma {:induction false} LiveAppend(m: seq<byte>, xs: seq<int>, ys: seq<int>)
    requires SlotsIn(m, xs) && SlotsIn(m, ys)
    ensures SlotsIn(m, xs + ys)
    ensures Live(m, xs + ys) == Live(m, xs) + Live(m, ys)
  {
    SlotsInAppend(m, xs, ys);
    if ys == [] {
      assert xs + ys == xs;
    } else {
      var ys', last := ys[..|ys| - 1], ys[|ys| - 1];
      assert ys == ys' + [last];
      assert xs + ys == (xs + ys') + [last];
      LiveAppend(m, xs, ys');
      LiveSnoc(m, xs + ys', last);
      LiveSnoc(m, ys', last);
      assert (Live(m, xs) + Live(m, ys')) + Entry(m, last) == Live(m, xs) + (Live(m, ys') + Entry(m, last));
    }
  }

  /** The enumeration depends only on the entries of the slots. */
  lemma {:induction false} LiveFrame(m: seq<byte>, m2: seq<byte>, ps: seq<int>)
    requires SlotsIn(m, ps) && SlotsIn(m2, ps)
    requires forall i :: 0 <= i < |ps| ==> Entry(m2, ps[i]) == Entry(m, ps[i])
    ensures Live(m2, ps) == Live(m, ps)
  {
    if ps != [] {
      LiveFrame(m, m2, ps[..|ps| - 1]);
    }
  }

  // ---------------------------------------------------------------------------
  // Delete

  /** Byte j lies in a slot of ps that matches id under mask. */
  predicate Cleared(m: seq<byte>, ps: seq<int>, id: bv32, mask: bv32, j: int)
    requires SlotsIn(m, ps)
  {
    exists i :: 0 <= i < |ps| && ps[i] <= j < ps[i] + 4 && Matches(m, ps[i], id, mask)
  }

  /** The medium after deleteListEntry: every byte of every matching slot set
      to 0xFF, every other byte as it was. */
  function DeleteImage(m: seq<byte>, ps: seq<int>, id: bv32, mask: bv32): (r: seq<byte>)
    requires SlotsIn(m, ps)
    ensures |r| == |m|
    ensures forall j :: 0 <= j < |m| ==> r[j] == if Cleared(m, ps, id, mask, j) then 0xFF else m[j]
  {
    seq(|m|, j requires 0 <= j < |m| => if Cleared(m, ps, id, mask, j) then 0xFF else m[j])
  }

  /** After a delete, a slot that matched is free and every other slot keeps
      its bytes. */
  lemma DeletedSlot(m: seq<byte>, ps: seq<int>, id: bv32, mask: bv32, i: nat)
    requires SlotsIn(m, ps) && Ascending(ps) && i < |ps|
    ensures SlotsIn(DeleteImage(m, ps, id, mask), ps)
    ensures var r := DeleteImage(m, ps, id, mask);
      if Matches(m, ps[i], id, mask) then IsFree(r, ps[i]) else SameBytes(m, r, ps[i])
  {
    var p := ps[i];
    forall j | p <= j < p + 4
      ensures Cleared(m, ps, id, mask, j) <==> Matches(m, p, id, mask)
    {
      ClearedInSlot(m, ps, id, mask, i, j);
    }
  }

  /** A byte of slot i is cleared exactly when slot i matches: no other slot
      overlaps it. */
  lemma ClearedInSlot(m: seq<byte>, ps: seq<int>, id: bv32, mask: bv32, i: nat, j: int)
    requires SlotsIn(m, ps) && Ascending(ps) && i < |ps| && ps[i] <= j < ps[i] + 4
    ensures Cleared(m, ps, id, mask, j) <==> Matches(m, ps[i], id, mask)
  {
    if Cleared(m, ps, id, mask, j) {
      var i' :| 0 <= i' < |ps| && ps[i'] <= j < ps[i'] + 4 && Matches(m, ps[i'], id, mask);
      assert i' == i;
    }
  }

  /** A query after a delete with the same id and mask finds an entry exactly
      when the delete found one and the free-slot value itself matches: the
      deleted entries become free slots, and a free slot is compared like any
      other value. */
  lemma DeleteThenQuery(m: seq<byte>, ps: seq<int>, id: bv32, mask: bv32)
    requires SlotsIn(m, ps) && Ascending(ps)
    ensures SlotsIn(DeleteImage(m, ps, id, mask), ps)
    ensures AnyMatch(DeleteImage(m, ps, id, mask), ps, id, mask) <==>
            AnyMatch(m, ps, id, mask) && MaskedEqual(Tombstone, id, mask)
  {
    var r := DeleteImage(m, ps, id, mask);
    forall i | 0 <= i < |ps|
      ensures Matches(r, ps[i], id, mask) <==> Matches(m, ps[i], id, mask) && MaskedEqual(Tombstone, id, mask)
    {
      DeletedSlot(m, ps, id, mask, i);
      if Matches(m, ps[i], id, mask) {
        FreeMatches(r, ps[i], id, mask);
      }
    }
  }

  /** The entries whose value does not match id under mask, in order. */
  function Unmatched(vs: seq<bv32>, id: bv32, mask: bv32): (r: seq<bv32>)
    ensures |r| <= |vs|
  {
    if vs == [] then []
    else
      var v := vs[|vs| - 1];
      Unmatched(vs[..|vs| - 1], id, mask) + (if MaskedEqual(v, id, mask) then [] else [v])
  }

  /** Filtering an enumeration extended by the entry of slot p drops that
      entry exactly when the slot matches. */
  lemma UnmatchedEntry(vs: seq<bv32>, m: seq<byte>, p: int, id: bv32, mask: bv32)
    requires 0 <= p && p + 4 <= |m|
    ensures Unmatched(vs + Entry(m, p), id, mask) ==
            Unmatched(vs, id, mask) + (if Matches(m, p, id, mask) then [] else Entry(m, p))
  {
    if IsFree(m, p) {
      assert vs + Entry(m, p) == vs;
    } else {
      assert (vs + [SlotValue(m, p)])[..|vs|] == vs;
      MatchesMasked(m, p, id, mask);
    }
  }

  /** Clearing the slots that match leaves in the enumeration exactly the
      entries that do not match. */
  lemma {:induction false} LiveCleared(m: seq<byte>, r: seq<byte>, ps: seq<int>, id: bv32, mask: bv32)
    requires SlotsIn(m, ps) && SlotsIn(r, ps)
    requires forall i :: 0 <= i < |ps| ==>
      Entry(r, ps[i]) == if Matches(m, ps[i], id, mask) then [] else Entry(m, ps[i])
    ensures Live(r, ps) == Unmatched(Live(m, ps), id, mask)
  {
    if ps != [] {
      var qs := ps[..|ps| - 1];
      LiveCleared(m, r, qs, id, mask);
      UnmatchedEntry(Live(m, qs), m, ps[|ps| - 1], id, mask);
    }
  }

  /** Enumerating after a delete lists exactly the entries listed before
      whose value does not match, in the same order. */
  lemma DeleteThenEnumerate(m: seq<byte>, ps: seq<int>, id: bv32, mask: bv32)
    requires SlotsIn(m, ps) && Ascending(ps)
    ensures SlotsIn(DeleteImage(m, ps, id, mask), ps)
    ensures Live(DeleteImage(m, ps, id, mask), ps) == Unmatched(Live(m, ps), id, mask)
  {
    var r := DeleteImage(m, ps, id, mask);
    forall i | 0 <= i < |ps|
      ensures Entry(r, ps[i]) == if Matches(m, ps[i], id, mask) then [] else Entry(m, ps[i])
    {
      DeletedSlot(m, ps, id, mask, i);
      if !Matches(m, ps[i], id, mask) {
        SameSlot(m, r, ps[i]);
      }
    }
    LiveCleared(m, r, ps, id, mask);
  }

  /** Deleting rewrites only slot bytes, so the chain of records is as it was. */
  lemma DeleteKeepsChain(m: seq<byte>, w: Widths, a: int, end: int, listkey: nat, id: bv32, mask: bv32)
    requires w.Valid() && WellFormed(m, w, a, end)
    ensures SlotsIn(m, ListSlots(m, w, a, end, listkey))
    ensures var m2 := DeleteImage(m, ListSlots(m, w, a, end, listkey), id, mask);
      WellFormed(m2, w, a, end) && Records(m2, w, a, end) == Records(m, w, a, end)
  {
    var ps := ListSlots(m, w, a, end, listkey);
    ListSlotsShape(m, w, a, end, listkey);
    var m2 := DeleteImage(m, ps, id, mask);
    forall j | a <= j < |m| && !InPayloads(m, w, a, end, j)
      ensures m2[j] == m[j]
    {
    }
    PayloadFrame(m, m2, w, a, end);
  }

  // ---------------------------------------------------------------------------
  // Add

  /** The four bytes of id in memory order on a little-endian target. */
  function IdBytes(id: bv32): (bs: seq<byte>)
    ensures |bs| == 4
  {
    [FromBits(ByteOf(id, 0)), FromBits(ByteOf(id, 1)), FromBits(ByteOf(id, 2)), FromBits(ByteOf(id, 3))]
  }

  /** The bytes delete writes over a slot: those of the tombstone. */
  const FreeSlotBytes: seq<byte> := [0xFF, 0xFF, 0xFF, 0xFF]

  /** The 12-byte payload add appends when no slot is free: the new id, then
      two free slots. */
  function NewGroup(id: bv32): (g: seq<byte>)
    ensures |g| == 12
  {
    IdBytes(id) + FreeSlotBytes + FreeSlotBytes
  }

  /** Whether slot p holds the bytes of id, least significant first. */
  predicate Stores(m: seq<byte>, p: int, id: bv32)
    requires 0 <= p && p + 4 <= |m|
  {
    m[p] == FromBits(ByteOf(id, 0)) && m[p + 1] == FromBits(ByteOf(id, 1)) &&
    m[p + 2] == FromBits(ByteOf(id, 2)) && m[p + 3] == FromBits(ByteOf(id, 3))
  }

  /** A slot that stores id holds id, enumerates as id unless id is the
      tombstone, and matches id under the full mask. */
  lemma StoredValue(m: seq<byte>, p: int, id: bv32)
    requires 0 <= p && p + 4 <= |m| && Stores(m, p, id)
    ensures SlotValue(m, p) == id && Entry(m, p) == Kept(id) && Matches(m, p, id, FullMask)
  {
    BitsRoundTrip(ByteOf(id, 0));
    BitsRoundTrip(ByteOf(id, 1));
    BitsRoundTrip(ByteOf(id, 2));
    BitsRoundTrip(ByteOf(id, 3));
    WordOfBytes(id);
    EntryKept(m, p);
  }

  /** The enumeration around slot i: the entries before it, its own entry,
      and the entries after it. */
  lemma LiveSplit(m: seq<byte>, ps: seq<int>, i: nat)
    requires SlotsIn(m, ps) && i < |ps|
    ensures SlotsIn(m, ps[..i]) && SlotsIn(m, ps[i + 1..])
    ensures Live(m, ps) == Live(m, ps[..i]) + Entry(m, ps[i]) + Live(m, ps[i + 1..])
  {
    var xs := ps[..i];
    var ys := ps[i + 1..];
    assert ps == xs + [ps[i]] + ys;
    assert SlotsIn(m, xs) && SlotsIn(m, ys);
    LiveAppend(m, xs, [ps[i]]);
    LiveAppend(m, xs + [ps[i]], ys);
    assert Live(m, [ps[i]]) == Entry(m, ps[i]) by {
      assert [ps[i]][..0] == [];
    }
  }

  /** Entries that agree except at slot i give the same enumeration before
      and after it. */
  lemma LiveFrameExcept(m: seq<byte>, m2: seq<byte>, ps: seq<int>, i: nat)
    requires SlotsIn(m, ps) && SlotsIn(m2, ps) && i < |ps|
    requires forall k :: 0 <= k < |ps| && k != i ==> Entry(m2, ps[k]) == Entry(m, ps[k])
    ensures SlotsIn(m, ps[..i]) && SlotsIn(m2, ps[..i]) && SlotsIn(m, ps[i + 1..]) && SlotsIn(m2, ps[i + 1..])
    ensures Live(m2, ps[..i]) == Live(m, ps[..i])
    ensures Live(m2, ps[i + 1..]) == Live(m, ps[i + 1..])
  {
    var xs := ps[..i];
    var ys := ps[i + 1..];
    assert forall k :: 0 <= k < |xs| ==> xs[k] == ps[k];
    assert forall k :: 0 <= k < |ys| ==> ys[k] == ps[i + 1 + k];
    LiveFrame(m, m2, xs);
    LiveFrame(m, m2, ys);
  }

  /** The enumeration skips a free slot. */
  lemma LiveSkipFree(m: seq<byte>, ps: seq<int>, i: nat)
    requires SlotsIn(m, ps) && i < |ps| && IsFree(m, ps[i])
    ensures Live(m, ps) == Live(m, ps[..i]) + Live(m, ps[i + 1..])
  {
    LiveSplit(m, ps, i);
  }

  /** The enumeration with the entry e of slot i in its place. */
  lemma LiveAt(m: seq<byte>, ps: seq<int>, i: nat, e: seq<bv32>)
    requires SlotsIn(m, ps) && i < |ps| && Entry(m, ps[i]) == e
    ensures Live(m, ps) == Live(m, ps[..i]) + e + Live(m, ps[i + 1..])
  {
    LiveSplit(m, ps, i);
  }

  /** Giving free slot i the value id: the enumeration gains id (unless it is
      the free-slot value itself) in that slot's place, and every other entry
      stays where it was. */
  lemma ReusedEnumeration(m: seq<byte>, m2: seq<byte>, ps: seq<int>, i: nat, id: bv32)
    requires SlotsIn(m, ps) && SlotsIn(m2, ps) && i < |ps|
    requires IsFree(m, ps[i]) && Entry(m2, ps[i]) == Kept(id)
    requires forall k :: 0 <= k < |ps| && k != i ==> Entry(m2, ps[k]) == Entry(m, ps[k])
    ensures Live(m, ps) == Live(m, ps[..i]) + Live(m, ps[i + 1..])
    ensures Live(m2, ps) == Live(m, ps[..i]) + Kept(id) + Live(m, ps[i + 1..])
  {
    LiveSkipFree(m, ps, i);
    LiveAt(m2, ps, i, Kept(id));
    LiveFrameExcept(m, m2, ps, i);
  }

  /** Rewriting four bytes inside a payload leaves the chain of records as it
      was. */
  lemma SlotWriteKeepsChain(m: seq<byte>, m2: seq<byte>, w: Widths, a: int, end: int, p: int)
    requires w.Valid() && WellFormed(m, w, a, end) && SlotInPayloads(m, w, a, end, p)
    requires |m2| == |m| && forall j :: 0 <= j < |m| && !(p <= j < p + 4) ==> m2[j] == m[j]
    ensures WellFormed(m2, w, a, end) && Records(m2, w, a, end) == Records(m, w, a, end)
  {
    PayloadFrame(m, m2, w, a, end);
  }

  /** Rewriting the four bytes of slot i leaves every other slot's entry as
      it was. */
  lemma OtherSlotsKept(m: seq<byte>, m2: seq<byte>, ps: seq<int>, i: nat)
    requires SlotsIn(m, ps) && Ascending(ps) && i < |ps|
    requires |m2| == |m| && forall j :: 0 <= j < |m| && !(ps[i] <= j < ps[i] + 4) ==> m2[j] == m[j]
    ensures SlotsIn(m2, ps)
    ensures forall k :: 0 <= k < |ps| && k != i ==> Entry(m2, ps[k]) == Entry(m, ps[k])
  {
    forall k | 0 <= k < |ps| && k != i
      ensures Entry(m2, ps[k]) == Entry(m, ps[k])
    {
      assert ps[k] + 4 <= ps[i] || ps[i] + 4 <= ps[k];
      SameSlot(m, m2, ps[k]);
    }
  }

  /** Storing id in free slot i of a list: a full-mask query finds id, and
      the enumeration gains id in the place of that slot, every other entry
      staying where it was. */
  lemma ReuseFreeSlot(m: seq<byte>, m2: seq<byte>, ps: seq<int>, i: nat, id: bv32)
    requires SlotsIn(m, ps) && Ascending(ps) && i < |ps| && IsFree(m, ps[i])
    requires |m2| == |m| && Stores(m2, ps[i], id)
    requires forall j :: 0 <= j < |m| && !(ps[i] <= j < ps[i] + 4) ==> m2[j] == m[j]
    ensures SlotsIn(m2, ps) && AnyMatch(m2, ps, id, FullMask)
    ensures Live(m, ps) == Live(m, ps[..i]) + Live(m, ps[i + 1..])
    ensures Live(m2, ps) == Live(m, ps[..i]) + Kept(id) + Live(m, ps[i + 1..])
  {
    OtherSlotsKept(m, m2, ps, i);
    StoredValue(m2, ps[i], id);
    ReusedEnumeration(m, m2, ps, i, id);
  }

  /** The three slots of a 12-byte payload at d. */
  lemma NewRecordSlots(w: Widths, s: int, listkey: nat)
    ensures var d := s + w.Header();
      Slots([Rec(s, 12 + w.Header(), listkey)], w, listkey) == [d, d + 4, d + 8]
  {
    var d := s + w.Header();
    assert PayloadSlots(d, 12) == [d, d + 4, d + 8];
  }

  /** A stored NewGroup(id) holds id in its first slot and free slots in the
      other two. */
  lemma GroupValues(m: seq<byte>, d: int, id: bv32)
    requires 0 <= d && d + 12 <= |m|
    requires forall j :: 0 <= j < 12 ==> m[d + j] == NewGroup(id)[j]
    ensures Entry(m, d) == Kept(id) && Matches(m, d, id, FullMask)
    ensures IsFree(m, d + 4) && IsFree(m, d + 8)
  {
    var g := NewGroup(id);
    assert m[d] == g[0] && m[d + 1] == g[1] && m[d + 2] == g[2] && m[d + 3] == g[3];
    StoredValue(m, d, id);
    assert m[d + 4] == g[4] && m[d + 5] == g[5] && m[d + 6] == g[6] && m[d + 7] == g[7];
    assert m[d + 8] == g[8] && m[d + 9] == g[9] && m[d + 10] == g[10] && m[d + 11] == g[11];
  }

  lemma LiveThree(m: seq<byte>, p0: int, p1: int, p2: int)
    requires 0 <= p0 && p0 + 4 <= |m| && 0 <= p1 && p1 + 4 <= |m| && 0 <= p2 && p2 + 4 <= |m|
    ensures SlotsIn(m, [p0, p1, p2])
    ensures Live(m, [p0, p1, p2]) == Entry(m, p0) + Entry(m, p1) + Entry(m, p2)
  {
    assert [p0][..0] == [];
    assert Live(m, [p0]) == Entry(m, p0);
    assert [p0, p1][..1] == [p0];
    assert Live(m, [p0, p1]) == Live(m, [p0]) + Entry(m, p1);
    assert [p0, p1, p2][..2] == [p0, p1];
    assert Live(m, [p0, p1, p2]) == Live(m, [p0, p1]) + Entry(m, p2);
  }

  /** Appending one record keyed listkey with a 12-byte payload at d adds
      the three slots d, d + 4 and d + 8 at the end of the list. */
  lemma AppendedSlots(m: seq<byte>, m2: seq<byte>, w: Widths, a: int, end: int, listkey: nat, s: int, d: int)
    requires w.Valid() && WellFormed(m, w, a, end) && WellFormed(m2, w, a, end) && d == s + w.Header()
    requires Records(m2, w, a, end) == Records(m, w, a, end) + [Rec(s, 12 + w.Header(), listkey)]
    ensures ListSlots(m2, w, a, end, listkey) == ListSlots(m, w, a, end, listkey) + [d, d + 4, d + 8]
  {
    SlotsAppend(Records(m, w, a, end), [Rec(s, 12 + w.Header(), listkey)], w, listkey);
    NewRecordSlots(w, s, listkey);
  }

  /** Slots lying below b read the same in two memories that agree below b. */
  lemma SlotsBelow(m: seq<byte>, m2: seq<byte>, ps: seq<int>, b: int)
    requires SlotsIn(m, ps) && |m2| == |m| && forall k :: 0 <= k < |ps| ==> ps[k] + 4 <= b
    requires b <= |m| && forall j :: 0 <= j < b ==> m2[j] == m[j]
    ensures SlotsIn(m2, ps) && Live(m2, ps) == Live(m, ps)
    ensures forall k :: 0 <= k < |ps| ==> SameBytes(m, m2, ps[k])
  {
    forall k | 0 <= k < |ps|
      ensures SameBytes(m, m2, ps[k]) && Entry(m2, ps[k]) == Entry(m, ps[k])
    {
      SameSlot(m, m2, ps[k]);
    }
    LiveFrame(m, m2, ps);
  }

  /** Storing NewGroup(id) at d, after every slot of a list, leaving the bytes
      below those slots' bound b as they were: the list extended by the
      group's three slots has a full-mask match for id, and its enumeration is
      the old one followed by id. */
  lemma AppendGroup(m: seq<byte>, m2: seq<byte>, ps: seq<int>, b: int, d: int, id: bv32)
    requires SlotsIn(m, ps) && forall k :: 0 <= k < |ps| ==> ps[k] + 4 <= b
    requires |m2| == |m| && 0 <= d && d + 12 <= |m2|
    requires forall j :: 0 <= j < 12 ==> m2[d + j] == NewGroup(id)[j]
    requires b <= |m| && forall j :: 0 <= j < b ==> m2[j] == m[j]
    ensures var ps2 := ps + [d, d + 4, d + 8];
      SlotsIn(m2, ps2) && AnyMatch(m2, ps2, id, FullMask) && Live(m2, ps2) == Live(m, ps) + Kept(id)
  {
    var ps2 := ps + [d, d + 4, d + 8];
    SlotsBelow(m, m2, ps, b);
    GroupValues(m2, d, id);
    LiveThree(m2, d, d + 4, d + 8);
    assert Entry(m2, d + 4) == [] && Entry(m2, d + 8) == [];
    assert Live(m2, [d, d + 4, d + 8]) == Kept(id);
    LiveAppend(m2, ps, [d, d + 4, d + 8]);
    assert ps2[|ps|] == d;
  }

  // ---------------------------------------------------------------------------
  // The scan of idop

  /** The operations of idop: a query, a delete, an enumeration, and an add,
      which scans as a query. */
  datatype Op = Query | Delete | Enumerate | Add

  /** The address of the first free slot of qs, 0 when none is free: the
      scan's freeSlot. */
  function FreeAddr(m: seq<byte>, qs: seq<int>): int
    requires SlotsIn(m, qs)
  {
    var f := FirstFree(m, qs);
    if f.Some? then qs[f.value] else 0
  }

  /** What idop's scan has gathered after reading some slots: the medium,
      whether a slot matched, the first free slot it met (0 when none), the
      values it handed to the visitor and the end of the highest slot read. */
  datatype Tally = Tally(m: seq<byte>, matched: bool, freeSlot: int, visited: seq<bv32>, top: int)

  /** The tally after the scan, for the operation op it scans as, reads the
      slot p of the medium m0: a matching slot is cleared when deleting, a
      free slot is noted when it is the first, and the value of a slot that
      is not free is handed to the visitor when enumerating. */
  function Tick(t: Tally, m0: seq<byte>, p: int, op: Op, id: bv32, mask: bv32): (t': Tally)
    requires 0 <= p && p + 4 <= |m0| && |t.m| == |m0|
    ensures |t'.m| == |m0|
  {
    var v := SlotValue(m0, p);
    var matched := Matches(m0, p, id, mask);
    Tally(if op == Delete && matched then Overwrite(t.m, p, FreeSlotBytes) else t.m,
          t.matched || matched,
          if v == Tombstone && t.freeSlot == 0 then p else t.freeSlot,
          if v != Tombstone && op == Enumerate then t.visited + [v] else t.visited,
          if t.top < p + 4 then p + 4 else t.top)
  }

  /** The tally after reading the slots qs of m0 in order. */
  function Tallied(m0: seq<byte>, qs: seq<int>, op: Op, id: bv32, mask: bv32): (t: Tally)
    requires SlotsIn(m0, qs)
    ensures |t.m| == |m0|
  {
    if qs == [] then Tally(m0, false, 0, [], 0)
    else Tick(Tallied(m0, qs[..|qs| - 1], op, id, mask), m0, qs[|qs| - 1], op, id, mask)
  }

  /** Reading one more slot ticks the tally once. */
  lemma TalliedSnoc(m0: seq<byte>, qs: seq<int>, p: int, op: Op, id: bv32, mask: bv32)
    requires SlotsIn(m0, qs) && 0 <= p && p + 4 <= |m0|
    ensures SlotsIn(m0, qs + [p])
    ensures Tallied(m0, qs + [p], op, id, mask) == Tick(Tallied(m0, qs, op, id, mask), m0, p, op, id, mask)
  {
    assert (qs + [p])[..|qs|] == qs;
  }

  /** The medium the scan leaves: the delete image when deleting, untouched
      otherwise. */
  lemma {:induction false} TallyMem(m0: seq<byte>, qs: seq<int>, op: Op, id: bv32, mask: bv32)
    requires SlotsIn(m0, qs)
    ensures Tallied(m0, qs, op, id, mask).m == if op == Delete then DeleteImage(m0, qs, id, mask) else m0
  {
    if qs == [] {
      assert DeleteImage(m0, qs, id, mask) == m0;
    } else {
      var qs', p := qs[..|qs| - 1], qs[|qs| - 1];
      assert qs == qs' + [p];
      TallyMem(m0, qs', op, id, mask);
      if op == Delete {
        DeleteSnoc(m0, Tallied(m0, qs', op, id, mask).m, qs', p, id, mask);
      }
    }
  }

  /** The scan has met a match exactly when some slot matches. */
  lemma {:induction false} TallyMatched(m0: seq<byte>, qs: seq<int>, op: Op, id: bv32, mask: bv32)
    requires SlotsIn(m0, qs)
    ensures Tallied(m0, qs, op, id, mask).matched == AnyMatch(m0, qs, id, mask)
  {
    if qs != [] {
      var qs', p := qs[..|qs| - 1], qs[|qs| - 1];
      assert qs == qs' + [p];
      TallyMatched(m0, qs', op, id, mask);
      AnyMatchSnoc(m0, qs', p, id, mask);
    }
  }

  /** The free slot the scan notes is the first free slot, when slots lie at
      positive addresses. */
  lemma {:induction false} TallyFree(m0: seq<byte>, qs: seq<int>, op: Op, id: bv32, mask: bv32)
    requires SlotsIn(m0, qs) && forall i :: 0 <= i < |qs| ==> 0 < qs[i]
    ensures Tallied(m0, qs, op, id, mask).freeSlot == FreeAddr(m0, qs)
  {
    if qs != [] {
      var qs', p := qs[..|qs| - 1], qs[|qs| - 1];
      assert qs == qs' + [p];
      TallyFree(m0, qs', op, id, mask);
      FreeAddrSnoc(m0, qs', p);
      FreeIsTombstone(m0, p);
      var f := FirstFree(m0, qs');
      if f.Some? {
        assert qs'[f.value] == qs[f.value];
      }
    }
  }

  /** An enumeration hands over the entries of the slots it reads; the
      other operations hand over nothing. */
  lemma {:induction false} TallyVisited(m0: seq<byte>, qs: seq<int>, op: Op, id: bv32, mask: bv32)
    requires SlotsIn(m0, qs)
    ensures Tallied(m0, qs, op, id, mask).visited == if op == Enumerate then Live(m0, qs) else []
  {
    if qs != [] {
      var qs', p := qs[..|qs| - 1], qs[|qs| - 1];
      assert qs == qs' + [p];
      TallyVisited(m0, qs', op, id, mask);
      LiveSnoc(m0, qs', p);
      EntryKept(m0, p);
    }
  }

  /** Every slot read lies below the top of the tally. */
  lemma {:induction false} TallyTop(m0: seq<byte>, qs: seq<int>, op: Op, id: bv32, mask: bv32)
    requires SlotsIn(m0, qs)
    ensures forall i :: 0 <= i < |qs| ==> qs[i] + 4 <= Tallied(m0, qs, op, id, mask).top
  {
    if qs != [] {
      var qs', p := qs[..|qs| - 1], qs[|qs| - 1];
      assert qs == qs' + [p];
      TallyTop(m0, qs', op, id, mask);
      forall i | 0 <= i < |qs'|
        ensures qs[i] + 4 <= Tallied(m0, qs, op, id, mask).top
      {
        assert qs[i] == qs'[i];
      }
    }
  }

  /** The state of idop's scan, for the operation op it scans as, once it
      has read the slots qs of the medium m0 (all of them below pos) without
      stopping: the medium m, deleted, freeSlot and visited are those of the
      tally, only a delete changes the medium and sets deleted, and a query
      has not matched. */
  ghost predicate Scanned(m: seq<byte>, m0: seq<byte>, qs: seq<int>, pos: int, op: Op, id: bv32, mask: bv32,
                          deleted: bool, freeSlot: int, visited: seq<bv32>)
  {
    SlotsIn(m0, qs) && (op != Delete ==> m == m0) && (op != Enumerate ==> visited == []) &&
    var t := Tallied(m0, qs, op, id, mask);
    t.top <= pos && m == t.m && deleted == (op == Delete && t.matched) && (op == Query ==> !t.matched) &&
    freeSlot == t.freeSlot && visited == t.visited
  }

  /** Before the scan has read a slot. */
  lemma ScanStart(m0: seq<byte>, pos: int, op: Op, id: bv32, mask: bv32)
    requires 0 <= pos
    ensures Scanned(m0, m0, [], pos, op, id, mask, false, 0, [])
  {
  }

  /** What the scan of all the slots ps amounts to: the delete image when
      deleting, whether a slot matched, the first free slot and, when
      enumerating, the entries of the slots that are not free. */
  lemma ScannedAll(m: seq<byte>, m0: seq<byte>, ps: seq<int>, pos: int, op: Op, id: bv32, mask: bv32,
                   deleted: bool, freeSlot: int, visited: seq<bv32>)
    requires Scanned(m, m0, ps, pos, op, id, mask, deleted, freeSlot, visited)
    requires forall i :: 0 <= i < |ps| ==> 0 < ps[i]
    ensures m == if op == Delete then DeleteImage(m0, ps, id, mask) else m0
    ensures deleted == (op == Delete && AnyMatch(m0, ps, id, mask))
    ensures op == Query ==> !AnyMatch(m0, ps, id, mask)
    ensures freeSlot == FreeAddr(m0, ps)
    ensures visited == if op == Enumerate then Live(m0, ps) else []
  {
    TallyMem(m0, ps, op, id, mask);
    TallyMatched(m0, ps, op, id, mask);
    TallyFree(m0, ps, op, id, mask);
    TallyVisited(m0, ps, op, id, mask);
  }

  /** The scan has changed nothing from pos on. */
  lemma ScannedAbove(m: seq<byte>, m0: seq<byte>, qs: seq<int>, pos: int, op: Op, id: bv32, mask: bv32,
                     deleted: bool, freeSlot: int, visited: seq<bv32>)
    requires Scanned(m, m0, qs, pos, op, id, mask, deleted, freeSlot, visited) && 0 <= pos
    ensures |m| == |m0| && forall j :: pos <= j < |m0| ==> m[j] == m0[j]
  {
    TallyMem(m0, qs, op, id, mask);
    TallyTop(m0, qs, op, id, mask);
    if op == Delete {
      forall j | pos <= j < |m0|
        ensures m[j] == m0[j]
      {
        assert !Cleared(m0, qs, id, mask, j);
      }
    }
  }

  /** The scan keeps the size of the medium. */
  lemma ScannedSize(m: seq<byte>, m0: seq<byte>, qs: seq<int>, pos: int, op: Op, id: bv32, mask: bv32,
                    deleted: bool, freeSlot: int, visited: seq<bv32>)
    requires Scanned(m, m0, qs, pos, op, id, mask, deleted, freeSlot, visited)
    ensures |m| == |m0|
  {
    TallyMem(m0, qs, op, id, mask);
  }

  /** A field from pos on reads as it did before the scan. */
  lemma ScannedField(m: seq<byte>, m0: seq<byte>, qs: seq<int>, pos: int, op: Op, id: bv32, mask: bv32,
                     deleted: bool, freeSlot: int, visited: seq<bv32>, at: int, width: nat)
    requires Scanned(m, m0, qs, pos, op, id, mask, deleted, freeSlot, visited)
    requires (width == 1 || width == 2) && 0 <= pos <= at && at + width <= |m0|
    ensures |m| == |m0| && ReadField(m, at, width) == ReadField(m0, at, width)
  {
    ScannedAbove(m, m0, qs, pos, op, id, mask, deleted, freeSlot, visited);
    SameField(m0, m, at, width);
  }

  /** A slot from pos on holds what it held before the scan. */
  lemma ScannedSlot(m: seq<byte>, m0: seq<byte>, qs: seq<int>, pos: int, op: Op, id: bv32, mask: bv32,
                    deleted: bool, freeSlot: int, visited: seq<bv32>, p: int)
    requires Scanned(m, m0, qs, pos, op, id, mask, deleted, freeSlot, visited)
    requires 0 <= pos <= p && p + 4 <= |m0|
    ensures |m| == |m0| && SlotValue(m, p) == SlotValue(m0, p)
    ensures Matches(m, p, id, mask) == Matches(m0, p, id, mask)
  {
    ScannedAbove(m, m0, qs, pos, op, id, mask, deleted, freeSlot, visited);
    assert SameBytes(m0, m, p);
  }

  /** Moving on to a later address changes nothing of the scan. */
  lemma ScannedLater(m: seq<byte>, m0: seq<byte>, qs: seq<int>, pos: int, op: Op, id: bv32, mask: bv32,
                     deleted: bool, freeSlot: int, visited: seq<bv32>, pos': int)
    requires Scanned(m, m0, qs, pos, op, id, mask, deleted, freeSlot, visited) && pos <= pos'
    ensures Scanned(m, m0, qs, pos', op, id, mask, deleted, freeSlot, visited)
  {
  }

  /** One step of the scan: reading slot p at or above pos, clearing it when
      deleting and it matches, and updating deleted, freeSlot and visited as
      idop does. */
  lemma ScanStep(m: seq<byte>, m0: seq<byte>, qs: seq<int>, pos: int, op: Op, id: bv32, mask: bv32,
                 deleted: bool, freeSlot: int, visited: seq<bv32>, p: int, m': seq<byte>)
    requires Scanned(m, m0, qs, pos, op, id, mask, deleted, freeSlot, visited)
    requires 0 <= pos <= p && p + 4 <= |m0|
    requires op == Query ==> !Matches(m0, p, id, mask)
    requires m' == if op == Delete && Matches(m0, p, id, mask) then Overwrite(m, p, FreeSlotBytes) else m
    ensures var v := SlotValue(m0, p);
      Scanned(m', m0, qs + [p], p + 4, op, id, mask,
              deleted || (op == Delete && Matches(m0, p, id, mask)),
              if v == Tombstone && freeSlot == 0 then p else freeSlot,
              if v != Tombstone && op == Enumerate then visited + [v] else visited)
  {
    TalliedSnoc(m0, qs, p, op, id, mask);
  }

  /** Byte j is cleared by one more slot p exactly when an earlier slot or p
      clears it. */
  lemma ClearedSnoc(m: seq<byte>, qs: seq<int>, p: int, id: bv32, mask: bv32, j: int)
    requires SlotsIn(m, qs) && 0 <= p && p + 4 <= |m|
    ensures SlotsIn(m, qs + [p])
    ensures Cleared(m, qs + [p], id, mask, j) <==>
            Cleared(m, qs, id, mask, j) || (p <= j < p + 4 && Matches(m, p, id, mask))
  {
    var qs' := qs + [p];
    assert SlotsIn(m, qs');
    if Cleared(m, qs', id, mask, j) {
      var i :| 0 <= i < |qs'| && qs'[i] <= j < qs'[i] + 4 && Matches(m, qs'[i], id, mask);
      if i < |qs| {
        assert qs'[i] == qs[i];
      }
    }
    if Cleared(m, qs, id, mask, j) {
      var i :| 0 <= i < |qs| && qs[i] <= j < qs[i] + 4 && Matches(m, qs[i], id, mask);
      assert qs'[i] == qs[i];
    }
    if p <= j < p + 4 && Matches(m, p, id, mask) {
      assert qs'[|qs|] == p;
    }
  }

  /** Deleting over one more slot: its bytes set to 0xFF when it matches. */
  lemma DeleteSnoc(m: seq<byte>, m1: seq<byte>, qs: seq<int>, p: int, id: bv32, mask: bv32)
    requires SlotsIn(m, qs) && 0 <= p && p + 4 <= |m| && m1 == DeleteImage(m, qs, id, mask)
    ensures SlotsIn(m, qs + [p])
    ensures DeleteImage(m, qs + [p], id, mask) ==
            if Matches(m, p, id, mask) then Overwrite(m1, p, FreeSlotBytes) else m1
  {
    var r := DeleteImage(m, qs + [p], id, mask);
    var r1 := if Matches(m, p, id, mask) then Overwrite(m1, p, FreeSlotBytes) else m1;
    forall j | 0 <= j < |m|
      ensures r[j] == r1[j]
    {
      DeleteSnocAt(m, m1, qs, p, id, mask, j);
      if Matches(m, p, id, mask) {
        FreeOverwriteAt(m1, p, j);
      }
    }
  }

  /** Freeing the slot at p sets its four bytes to 0xFF and keeps the rest. */
  lemma FreeOverwriteAt(m: seq<byte>, p: int, j: int)
    requires 0 <= p && p + 4 <= |m| && 0 <= j < |m|
    ensures Overwrite(m, p, FreeSlotBytes)[j] == if p <= j < p + 4 then 0xFF else m[j]
  {
  }

  /** DeleteSnoc at the byte j. */
  lemma DeleteSnocAt(m: seq<byte>, m1: seq<byte>, qs: seq<int>, p: int, id: bv32, mask: bv32, j: int)
    requires SlotsIn(m, qs) && 0 <= p && p + 4 <= |m| && m1 == DeleteImage(m, qs, id, mask) && 0 <= j < |m|
    ensures SlotsIn(m, qs + [p])
    ensures DeleteImage(m, qs + [p], id, mask)[j] ==
            if p <= j < p + 4 && Matches(m, p, id, mask) then 0xFF else m1[j]
  {
    ClearedSnoc(m, qs, p, id, mask, j);
  }

  /** One more slot matches when it or an earlier one does. */
  lemma AnyMatchSnoc(m: seq<byte>, qs: seq<int>, p: int, id: bv32, mask: bv32)
    requires SlotsIn(m, qs) && 0 <= p && p + 4 <= |m|
    ensures SlotsIn(m, qs + [p])
    ensures AnyMatch(m, qs + [p], id, mask) <==> AnyMatch(m, qs, id, mask) || Matches(m, p, id, mask)
  {
    assert SlotsIn(m, qs + [p]);
    if AnyMatch(m, qs + [p], id, mask) {
      AnyMatchSnocSplit(m, qs, p, id, mask);
    }
    if AnyMatch(m, qs, id, mask) || Matches(m, p, id, mask) {
      AnyMatchSnocJoin(m, qs, p, id, mask);
    }
  }

  /** A match among qs + [p] is a match among qs or at p. */
  lemma AnyMatchSnocSplit(m: seq<byte>, qs: seq<int>, p: int, id: bv32, mask: bv32)
    requires SlotsIn(m, qs) && SlotsIn(m, qs + [p]) && 0 <= p && p + 4 <= |m| && AnyMatch(m, qs + [p], id, mask)
    ensures AnyMatch(m, qs, id, mask) || Matches(m, p, id, mask)
  {
    var i :| 0 <= i < |qs + [p]| && Matches(m, (qs + [p])[i], id, mask);
    if i < |qs| {
      assert (qs + [p])[i] == qs[i];
    }
  }

  /** A match among qs or at p is a match among qs + [p]. */
  lemma AnyMatchSnocJoin(m: seq<byte>, qs: seq<int>, p: int, id: bv32, mask: bv32)
    requires SlotsIn(m, qs) && SlotsIn(m, qs + [p]) && 0 <= p && p + 4 <= |m|
    requires AnyMatch(m, qs, id, mask) || Matches(m, p, id, mask)
    ensures AnyMatch(m, qs + [p], id, mask)
  {
    if AnyMatch(m, qs, id, mask) {
      var i :| 0 <= i < |qs| && Matches(m, qs[i], id, mask);
      assert (qs + [p])[i] == qs[i];
    } else {
      assert (qs + [p])[|qs|] == p;
    }
  }

  /** The first free slot after one more slot p: the earlier one if any,
      otherwise p when free. */
  lemma FreeAddrSnoc(m: seq<byte>, qs: seq<int>, p: int)
    requires SlotsIn(m, qs) && 0 <= p && p + 4 <= |m|
    ensures SlotsIn(m, qs + [p])
    ensures FreeAddr(m, qs + [p]) ==
            if FirstFree(m, qs).Some? then FreeAddr(m, qs) else if IsFree(m, p) then p else 0
  {
    var qs' := qs + [p];
    assert SlotsIn(m, qs');
    assert qs'[..|qs|] == qs;
    var f := FirstFree(m, qs);
    if f.Some? {
      assert qs'[f.value] == qs[f.value];
    }
  }

  /** The slots of a payload of at least 4 bytes: its first slot, then those
      of the rest. */
  lemma PayloadSlotsNext(qs: seq<int>, d: int, n: int, all: seq<int>)
    requires n >= 4 && qs + PayloadSlots(d, n) == all
    ensures (qs + [d]) + PayloadSlots(d + 4, n - 4) == all
    ensures |qs| < |all| && all[|qs|] == d
  {
    assert PayloadSlots(d, n) == [d] + PayloadSlots(d + 4, n - 4);
  }

  /** Fewer than 4 bytes left hold no slot: a scan that has done the slots
      before them has done all the slots, and is past the payload. */
  lemma ScannedPayloadEnd(m: seq<byte>, m0: seq<byte>, qs: seq<int>, pos: int, op: Op, id: bv32, mask: bv32,
                          deleted: bool, freeSlot: int, visited: seq<bv32>, n: int, all: seq<int>, pos': int)
    requires Paying(m, m0, all, qs, pos, n, op, id, mask, deleted, freeSlot, visited)
    requires n < 4 && pos <= pos'
    ensures Scanned(m, m0, all, pos', op, id, mask, deleted, freeSlot, visited)
  {
    assert qs + [] == qs;
  }

  /** Where idop's payload loop stands at the slot p with n bytes left: the
      slots done have been scanned, and with those of the n bytes at p they
      make up the slots all. */
  ghost predicate Paying(m: seq<byte>, m0: seq<byte>, all: seq<int>, done: seq<int>, p: int, n: int, op: Op, id: bv32,
                         mask: bv32, deleted: bool, freeSlot: int, visited: seq<bv32>)
  {
    0 <= n && done + PayloadSlots(p, n) == all && Scanned(m, m0, done, p, op, id, mask, deleted, freeSlot, visited)
  }

  /** A payload inside the medium adds slots inside the medium. */
  lemma PayloadSlotsIn(m: seq<byte>, qs: seq<int>, d: int, n: int)
    requires SlotsIn(m, qs) && 0 <= d && d + n <= |m|
    ensures SlotsIn(m, qs + PayloadSlots(d, n))
  {
    var ps := PayloadSlots(d, n);
    forall i | 0 <= i < |ps|
      ensures 0 <= ps[i] && ps[i] + 4 <= |m|
    {
      assert 4 * i + 4 <= 4 * (n / 4);
    }
  }

  /** The slots the walk gathers from the record at a, of length len and key
      key: those of its payload when key is listkey, none otherwise. */
  function RecordWalk(a: int, len: int, key: int, w: Widths, listkey: nat): seq<int> {
    if key == listkey then PayloadSlots(a + w.key + w.len, len - w.len - w.key) else []
  }

  /** The slots of the list listkey on the chain from a, gathered record by
      record as idop walks the chain. */
  ghost function WalkSlots(m: seq<byte>, w: Widths, a: int, end: int, listkey: nat): seq<int>
    requires w.Valid() && WellFormed(m, w, a, end)
    decreases end - a
  {
    var len := ReadField(m, a, w.len);
    if len == 0 then []
    else
      RecordWalk(a, len, ReadField(m, a + w.len, w.key), w, listkey) + WalkSlots(m, w, a + len, end, listkey)
  }

  lemma AppendAssoc(xs: seq<int>, ys: seq<int>, zs: seq<int>)
    ensures (xs + ys) + zs == xs + (ys + zs)
  {
  }

  /** The walk from a record of length len and key key. */
  lemma WalkSlotsUnfold(m: seq<byte>, w: Widths, a: int, end: int, listkey: nat, len: int, key: int)
    requires w.Valid() && WellFormed(m, w, a, end)
    requires len == ReadField(m, a, w.len) && len != 0 && key == ReadField(m, a + w.len, w.key)
    ensures w.Header() <= len && a + len + w.len <= end + 1 && WellFormed(m, w, a + len, end)
    ensures WalkSlots(m, w, a, end, listkey) == RecordWalk(a, len, key, w, listkey) + WalkSlots(m, w, a + len, end, listkey)
  {
  }

  /** A chain that ends at a has no slots, for the list and for the walk. */
  lemma EmptyChainSlots(m: seq<byte>, w: Widths, a: int, end: int, listkey: nat)
    requires w.Valid() && WellFormed(m, w, a, end) && ReadField(m, a, w.len) == 0
    ensures ListSlots(m, w, a, end, listkey) == [] && WalkSlots(m, w, a, end, listkey) == []
  {
    assert Records(m, w, a, end) == [];
  }

  /** A record's slots are what the walk gathers from its header. */
  lemma RecSlotsIsWalk(a: int, len: int, key: int, w: Widths, listkey: nat)
    requires 0 <= len && 0 <= key
    ensures RecSlots(Rec(a, len, key), w, listkey) == RecordWalk(a, len, key, w, listkey)
  {
  }

  /** The walk from a gathers exactly the slots of the list from a. */
  ghost predicate WalkAgrees(m: seq<byte>, w: Widths, a: int, end: int, listkey: nat)
    requires w.Valid() && WellFormed(m, w, a, end)
  {
    WalkSlots(m, w, a, end, listkey) == ListSlots(m, w, a, end, listkey)
  }

  /** The walk gathers exactly the slots of the list. */
  lemma WalkSlotsIsListSlots(m: seq<byte>, w: Widths, a: int, end: int, listkey: nat)
    requires w.Valid() && WellFormed(m, w, a, end)
    ensures WalkSlots(m, w, a, end, listkey) == ListSlots(m, w, a, end, listkey)
  {
    WalkAgreesFrom(m, w, a, end, listkey);
  }

  /** WalkAgrees on every well-formed chain, by induction along it. */
  lemma {:induction false} WalkAgreesFrom(m: seq<byte>, w: Widths, a: int, end: int, listkey: nat)
    requires w.Valid() && WellFormed(m, w, a, end)
    ensures WalkAgrees(m, w, a, end, listkey)
    decreases end - a
  {
    var len := ReadField(m, a, w.len);
    if len == 0 {
      EmptyChainSlots(m, w, a, end, listkey);
    } else {
      var key := ReadField(m, a + w.len, w.key);
      WalkSlotsUnfold(m, w, a, end, listkey, len, key);
      WalkAgreesFrom(m, w, a + len, end, listkey);
      WalkSlotsStep(m, w, a, end, listkey, len, key);
    }
  }

  /** One record of the walk: if the walk from the next record gathers the
      list's slots from there, the walk from a gathers those from a. */
  lemma WalkSlotsStep(m: seq<byte>, w: Widths, a: int, end: int, listkey: nat, len: int, key: int)
    requires w.Valid() && WellFormed(m, w, a, end) && WellFormed(m, w, a + len, end)
    requires len == ReadField(m, a, w.len) && len != 0 && key == ReadField(m, a + w.len, w.key)
    requires WalkAgrees(m, w, a + len, end, listkey)
    ensures WalkAgrees(m, w, a, end, listkey)
  {
    WalkSlotsUnfold(m, w, a, end, listkey, len, key);
    ListSlotsStep(m, w, a, end, listkey, len, key);
    RecSlotsIsWalk(a, len, key, w, listkey);
  }

  /** A match among the slots qs that begin ps is a match among ps. */
  lemma AnyMatchIn(m: seq<byte>, qs: seq<int>, rest: seq<int>, ps: seq<int>, id: bv32, mask: bv32)
    requires qs + rest == ps && SlotsIn(m, ps) && SlotsIn(m, qs) && AnyMatch(m, qs, id, mask)
    ensures AnyMatch(m, ps, id, mask)
  {
    var i :| 0 <= i < |qs| && Matches(m, qs[i], id, mask);
    assert ps[i] == qs[i];
  }

  /** A slot of ps that matches makes ps match. */
  lemma MatchAt(m: seq<byte>, ps: seq<int>, k: int, id: bv32, mask: bv32)
    requires SlotsIn(m, ps) && 0 <= k < |ps|
    requires 0 <= ps[k] && ps[k] + 4 <= |m| && Matches(m, ps[k], id, mask)
    ensures AnyMatch(m, ps, id, mask)
  {
  }

  /** The walk of idop past the record at a, of length len and key key, when
      the slots done followed by those from a make up ps: the chain goes on
      after the record, and the slots done, then those of the record, then
      those after it, still make up ps. */
  lemma WalkAdvance(m: seq<byte>, w: Widths, a: int, end: int, listkey: nat, done: seq<int>, ps: seq<int>,
                    len: int, key: int) returns (rest: seq<int>)
    requires w.Valid() && WellFormed(m, w, a, end) && a + w.Header() <= |m|
    requires len == ReadField(m, a, w.len) && len != 0 && key == ReadField(m, a + w.len, w.key)
    requires done + WalkSlots(m, w, a, end, listkey) == ps
    ensures w.Header() <= len && a + len + w.len <= end + 1 && WellFormed(m, w, a + len, end)
    ensures rest == WalkSlots(m, w, a + len, end, listkey)
    ensures (done + RecordWalk(a, len, key, w, listkey)) + rest == ps
  {
    var xs := RecordWalk(a, len, key, w, listkey);
    WalkSlotsUnfold(m, w, a, end, listkey, len, key);
    rest := WalkSlots(m, w, a + len, end, listkey);
    AppendAssoc(done, xs, rest);
  }

  /** Where idop's walk stands at the record at a of the chain: the slots
      done have been scanned, and with those of the chain from a they make up
      the slots ps of the list. */
  ghost predicate Walking(m: seq<byte>, m0: seq<byte>, w: Widths, a: int, end: int, listkey: nat, ps: seq<int>,
                          done: seq<int>, op: Op, id: bv32, mask: bv32, deleted: bool, freeSlot: int, visited: seq<bv32>)
  {
    w.Valid() && WellFormed(m0, w, a, end) && done + WalkSlots(m0, w, a, end, listkey) == ps &&
    Scanned(m, m0, done, a, op, id, mask, deleted, freeSlot, visited)
  }

  /** Where idop's walk starts: at the first record, with nothing scanned. */
  lemma WalkStart(m0: seq<byte>, w: Widths, a: int, end: int, listkey: nat, ps: seq<int>, op: Op, id: bv32, mask: bv32)
    requires w.Valid() && WellFormed(m0, w, a, end) && ps == WalkSlots(m0, w, a, end, listkey)
    ensures Walking(m0, m0, w, a, end, listkey, ps, [], op, id, mask, false, 0, [])
  {
    ScanStart(m0, a, op, id, mask);
    assert [] + ps == ps;
  }

  /** At the zero sentinel the walk is over: the slots done are all of ps. */
  lemma WalkStop(m: seq<byte>, w: Widths, a: int, end: int, listkey: nat, done: seq<int>, ps: seq<int>)
    requires w.Valid() && WellFormed(m, w, a, end) && ReadField(m, a, w.len) == 0
    requires done + WalkSlots(m, w, a, end, listkey) == ps
    ensures done == ps
  {
    assert WalkSlots(m, w, a, end, listkey) == [];
    assert done + [] == done;
  }

  // ---------------------------------------------------------------------------
  // What idop does

  /** What idop(op, id, listkey, mask) reports, leaves in the medium and
      hands to the visitor, on a well-formed chain from a with the list
      slots ps:
      - a query reports whether a slot matches id under mask;
      - a delete clears every matching slot and reports whether one matched;
      - an enumeration hands over the entries of the slots that are not free;
      - an add reports success when a slot matches; otherwise it stores id
        in the first free slot and reports failure; otherwise it appends the
        group NewGroup(id) as a new record and reports whether there was
        room. */
  ghost function ListResult(m: seq<byte>, w: Widths, a: int, end: int, op: Op, listkey: nat, id: bv32, mask: bv32)
    : (r: (bool, seq<byte>, seq<bv32>))
    requires w.Valid() && WellFormed(m, w, a, end)
    ensures |r.1| == |m|
  {
    var ps := ListSlots(m, w, a, end, listkey);
    ListSlotsShape(m, w, a, end, listkey);
    match op
    case Query => (AnyMatch(m, ps, id, mask), m, [])
    case Delete => (AnyMatch(m, ps, id, mask), DeleteImage(m, ps, id, mask), [])
    case Enumerate => (false, m, Live(m, ps))
    case Add =>
      if AnyMatch(m, ps, id, mask) then (true, m, [])
      else if FirstFree(m, ps).Some? then (false, Overwrite(m, ps[FirstFree(m, ps).value], IdBytes(id)), [])
      else if HasRoom(m, w, a, end, |NewGroup(id)|) then
        (true, Appended(m, w, SentinelOf(m, w, a, end), listkey, NewGroup(id)), [])
      else (false, m, [])
  }

  /** An add that finds no match and reuses the first free slot i of the
      list: the chain and the slots of the list stay as they were, a
      full-mask query then finds id, and the enumeration gains id in the
      place of that slot, every other entry staying where it was. */
  lemma AddReusesFreeSlot(m: seq<byte>, w: Widths, a: int, end: int, listkey: nat, id: bv32, i: nat)
    requires w.Valid() && WellFormed(m, w, a, end)
    requires SlotsIn(m, ListSlots(m, w, a, end, listkey))
    requires FirstFree(m, ListSlots(m, w, a, end, listkey)) == Some(i)
    ensures var ps := ListSlots(m, w, a, end, listkey);
      var m2 := Overwrite(m, ps[i], IdBytes(id));
      WellFormed(m2, w, a, end) && ListSlots(m2, w, a, end, listkey) == ps && SlotsIn(m2, ps) &&
      AnyMatch(m2, ps, id, FullMask) &&
      Live(m, ps) == Live(m, ps[..i]) + Live(m, ps[i + 1..]) &&
      Live(m2, ps) == Live(m, ps[..i]) + Kept(id) + Live(m, ps[i + 1..])
  {
    var ps := ListSlots(m, w, a, end, listkey);
    ListSlotsShape(m, w, a, end, listkey);
    var p := ps[i];
    var m2 := Overwrite(m, p, IdBytes(id));
    assert Stores(m2, p, id);
    SlotWriteKeepsChain(m, m2, w, a, end, p);
    ReuseFreeSlot(m, m2, ps, i, id);
  }

  /** An add that finds neither a match nor a free slot and has room: the
      appended record holding NewGroup(id) adds its three slots at the end
      of the list, a full-mask query then finds id, and the enumeration is
      the old one followed by id. */
  lemma AddAppendsGroup(m: seq<byte>, m2: seq<byte>, w: Widths, a: int, end: int, listkey: nat, id: bv32,
                         s: int, d: int, ps: seq<int>)
    requires w.Valid() && WellFormed(m, w, a, end) && listkey < Pow256(w.key)
    requires HasRoom(m, w, a, end, 12) && s == SentinelOf(m, w, a, end) && d == s + w.Header()
    requires m2 == Appended(m, w, s, listkey, NewGroup(id)) && ps == ListSlots(m, w, a, end, listkey)
    ensures WellFormed(m2, w, a, end) && ListSlots(m2, w, a, end, listkey) == ps + GroupSlots(d)
    ensures SlotsIn(m, ps) && SlotsIn(m2, ps + GroupSlots(d))
    ensures AnyMatch(m2, ps + GroupSlots(d), id, FullMask)
    ensures Live(m2, ps + GroupSlots(d)) == Live(m, ps) + Kept(id)
  {
    var g := NewGroup(id);
    var total := 12 + w.Header();
    forall j | 0 <= j < 12
      ensures m2[d + j] == g[j]
    {
      AppendedPayloadAt(m, w, s, listkey, g, j);
    }
    forall j | 0 <= j < s
      ensures m2[j] == m[j]
    {
      AppendedBelow(m, w, s, listkey, g, j);
    }
    AppendedFields(m, w, s, a, listkey, g, total);
    AppendExtendsChain(m, m2, w, a, end, s, total, listkey);
    AppendedSlots(m, m2, w, a, end, listkey, s, d);
    ListSlotsShape(m, w, a, end, listkey);
    AppendGroup(m, m2, ps, s, d, id);
  }

  /** What addEntryToList does to the medium m, giving m2 and the answer ok,
      comparing under the full mask. A slot holding id: true, and nothing is
      written. Otherwise id goes into the first free slot, the answer is
      false, and the chain and the list's slots stay as they were. When no
      slot is free a record holding NewGroup(id) is appended at the sentinel
      and the answer is whether there was room; the list gains the record's
      three slots. Whenever something was written, a full-mask query then
      finds id, and the enumeration gains id in the place of the slot that
      took it. */
  ghost predicate AddOutcome(m: seq<byte>, m2: seq<byte>, w: Widths, a: int, end: int, listkey: nat, id: bv32,
                             ps: seq<int>, s: int, d: int, ok: bool)
    requires w.Valid() && WellFormed(m, w, a, end) && ps == ListSlots(m, w, a, end, listkey)
    requires s == SentinelOf(m, w, a, end) && d == s + w.Header()
  {
    SlotsIn(m, ps) && WellFormed(m2, w, a, end) && CaseOutcome(m, m2, w, a, end, listkey, id, ps, s, d, AddCaseOf(m, ps, id), ok)
  }

  /** AddOutcome in the branch c. */
  ghost predicate CaseOutcome(m: seq<byte>, m2: seq<byte>, w: Widths, a: int, end: int, listkey: nat, id: bv32,
                              ps: seq<int>, s: int, d: int, c: AddCase, ok: bool)
    requires w.Valid() && WellFormed(m, w, a, end) && WellFormed(m2, w, a, end) && SlotsIn(m, ps)
    requires s == SentinelOf(m, w, a, end) && d == s + w.Header() && (c.FreeAt? ==> c.i < |ps|)
  {
    match c
    case Present => ok && m2 == m
    case FreeAt(i) => !ok && Reused(m, m2, w, a, end, listkey, id, ps, i)
    case NoneFree => Appending(m, m2, w, a, end, listkey, id, ps, s, d, ok)
  }

  /** The branch idop's add takes on the list ps: a slot already holds id,
      slot i is the first free one, or neither. */
  datatype AddCase = Present | FreeAt(i: nat) | NoneFree

  ghost function AddCaseOf(m: seq<byte>, ps: seq<int>, id: bv32): (c: AddCase)
    requires SlotsIn(m, ps)
    ensures c.FreeAt? ==> c.i < |ps|
  {
    if AnyMatch(m, ps, id, FullMask) then Present
    else if FirstFree(m, ps).Some? then FreeAt(FirstFree(m, ps).value)
    else NoneFree
  }

  /** No slot of ps holds id and none is free: the answer is whether there is
      room for a new record, which is then appended at the sentinel s, its
      payload at d, and grows the list. */
  ghost predicate Appending(m: seq<byte>, m2: seq<byte>, w: Widths, a: int, end: int, listkey: nat, id: bv32,
                            ps: seq<int>, s: int, d: int, ok: bool)
    requires w.Valid() && WellFormed(m, w, a, end) && WellFormed(m2, w, a, end) && SlotsIn(m, ps)
    requires s == SentinelOf(m, w, a, end) && d == s + w.Header()
  {
    ok == HasRoom(m, w, a, end, 12) && (!ok ==> m2 == m) &&
    (ok ==> m2 == Appended(m, w, s, listkey, NewGroup(id)) && Grown(m, m2, w, a, end, listkey, id, ps, d))
  }

  /** id stored in slot i of the list ps: the chain and the list's slots are
      as they were, a full-mask query finds id, and the enumeration has id in
      the place of that slot. */
  ghost predicate Reused(m: seq<byte>, m2: seq<byte>, w: Widths, a: int, end: int, listkey: nat, id: bv32,
                         ps: seq<int>, i: nat)
    requires w.Valid() && WellFormed(m2, w, a, end) && SlotsIn(m, ps) && i < |ps|
  {
    m2 == Overwrite(m, ps[i], IdBytes(id)) &&
    ListSlots(m2, w, a, end, listkey) == ps && SlotsIn(m2, ps) && AnyMatch(m2, ps, id, FullMask) &&
    SlotsIn(m, ps[..i]) && SlotsIn(m, ps[i + 1..]) &&
    Live(m2, ps) == Live(m, ps[..i]) + Kept(id) + Live(m, ps[i + 1..])
  }

  /** The three slots of the payload NewGroup(id) of a record whose payload
      starts at d. */
  function GroupSlots(d: int): seq<int> {
    [d, d + 4, d + 8]
  }

  /** A record holding NewGroup(id) appended at the sentinel of m, its
      payload at d: the list ps gains the record's three slots, a full-mask query finds id, and the
      enumeration is the old one followed by id. */
  ghost predicate Grown(m: seq<byte>, m2: seq<byte>, w: Widths, a: int, end: int, listkey: nat, id: bv32, ps: seq<int>,
                        d: int)
    requires w.Valid() && WellFormed(m2, w, a, end) && SlotsIn(m, ps)
  {
    ListSlots(m2, w, a, end, listkey) == ps + GroupSlots(d) && SlotsIn(m2, ps + GroupSlots(d)) &&
    AnyMatch(m2, ps + GroupSlots(d), id, FullMask) && Live(m2, ps + GroupSlots(d)) == Live(m, ps) + Kept(id)
  }

  /** An add that finds no slot holding id and none free, with room for the
      new record, appends it and reports true. */
  lemma ListResultGrows(m: seq<byte>, w: Widths, a: int, end: int, listkey: nat, id: bv32)
    requires w.Valid() && WellFormed(m, w, a, end)
    requires SlotsIn(m, ListSlots(m, w, a, end, listkey)) && AddCaseOf(m, ListSlots(m, w, a, end, listkey), id) == NoneFree
    requires HasRoom(m, w, a, end, 12)
    ensures ListResult(m, w, a, end, Add, listkey, id, FullMask).0
    ensures ListResult(m, w, a, end, Add, listkey, id, FullMask).1 == Appended(m, w, SentinelOf(m, w, a, end), listkey, NewGroup(id))
  {
    assert |NewGroup(id)| == 12;
  }

}

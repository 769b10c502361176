// The add path of idop (addEntryToList): how the answer and the medium that
// ListResult gives for an add fall into the three cases AddOutcome names.

module ListAdd {
  import opened LittleEndian
  import opened Words
  import opened RecordChain
  import opened IdLists

  /** idop's add, as ListResult states it, does what AddOutcome says. */
  lemma AddResult(m: seq<byte>, m2: seq<byte>, w: Widths, a: int, end: int, listkey: nat, id: bv32, ok: bool)
    requires w.Valid() && WellFormed(m, w, a, end) && listkey < Pow256(w.key)
    requires ok == ListResult(m, w, a, end, Add, listkey, id, FullMask).0
    requires m2 == ListResult(m, w, a, end, Add, listkey, id, FullMask).1
    ensures AddOutcome(m, m2, w, a, end, listkey, id, ListSlots(m, w, a, end, listkey),
                       SentinelOf(m, w, a, end), SentinelOf(m, w, a, end) + w.Header(), ok)
  {
    ListSlotsShape(m, w, a, end, listkey);
    match AddCaseOf(m, ListSlots(m, w, a, end, listkey), id)
    case Present =>
      AddFound(m, m2, w, a, end, listkey, id, ok);
    case FreeAt(i) =>
      AddReuse(m, m2, w, a, end, listkey, id, ok, i);
    case NoneFree =>
      if HasRoom(m, w, a, end, 12) {
        ListResultGrows(m, w, a, end, listkey, id);
        GrowOutcome(m, m2, w, a, end, listkey, id, ListSlots(m, w, a, end, listkey),
                    SentinelOf(m, w, a, end), SentinelOf(m, w, a, end) + w.Header(), ok);
      } else {
        AddNoRoom(m, m2, w, a, end, listkey, id, ok);
      }
  }

  /** AddResult when a slot holds id: the answer is true and nothing is
      written. */
  lemma AddFound(m: seq<byte>, m2: seq<byte>, w: Widths, a: int, end: int, listkey: nat, id: bv32, ok: bool)
    requires w.Valid() && WellFormed(m, w, a, end)
    requires ok == ListResult(m, w, a, end, Add, listkey, id, FullMask).0
    requires m2 == ListResult(m, w, a, end, Add, listkey, id, FullMask).1
    requires SlotsIn(m, ListSlots(m, w, a, end, listkey)) && AddCaseOf(m, ListSlots(m, w, a, end, listkey), id) == Present
    ensures AddOutcome(m, m2, w, a, end, listkey, id, ListSlots(m, w, a, end, listkey),
                       SentinelOf(m, w, a, end), SentinelOf(m, w, a, end) + w.Header(), ok)
  {
  }

  /** AddResult when no slot holds id and slot i is the first free one: id
      is written there and the answer is false. */
  lemma AddReuse(m: seq<byte>, m2: seq<byte>, w: Widths, a: int, end: int, listkey: nat, id: bv32, ok: bool, i: nat)
    requires w.Valid() && WellFormed(m, w, a, end)
    requires ok == ListResult(m, w, a, end, Add, listkey, id, FullMask).0
    requires m2 == ListResult(m, w, a, end, Add, listkey, id, FullMask).1
    requires SlotsIn(m, ListSlots(m, w, a, end, listkey)) && AddCaseOf(m, ListSlots(m, w, a, end, listkey), id) == FreeAt(i)
    ensures AddOutcome(m, m2, w, a, end, listkey, id, ListSlots(m, w, a, end, listkey),
                       SentinelOf(m, w, a, end), SentinelOf(m, w, a, end) + w.Header(), ok)
  {
    assert !ok && m2 == Overwrite(m, ListSlots(m, w, a, end, listkey)[i], IdBytes(id));
    ReuseOutcome(m, m2, w, a, end, listkey, id, ListSlots(m, w, a, end, listkey),
                 SentinelOf(m, w, a, end), SentinelOf(m, w, a, end) + w.Header(), i, ok);
  }

  /** AddResult when no slot holds id, none is free and the region has no
      room for the new record: nothing is written and the answer is false. */
  lemma AddNoRoom(m: seq<byte>, m2: seq<byte>, w: Widths, a: int, end: int, listkey: nat, id: bv32, ok: bool)
    requires w.Valid() && WellFormed(m, w, a, end)
    requires ok == ListResult(m, w, a, end, Add, listkey, id, FullMask).0
    requires m2 == ListResult(m, w, a, end, Add, listkey, id, FullMask).1
    requires SlotsIn(m, ListSlots(m, w, a, end, listkey)) && AddCaseOf(m, ListSlots(m, w, a, end, listkey), id) == NoneFree
    requires !HasRoom(m, w, a, end, 12)
    ensures AddOutcome(m, m2, w, a, end, listkey, id, ListSlots(m, w, a, end, listkey),
                       SentinelOf(m, w, a, end), SentinelOf(m, w, a, end) + w.Header(), ok)
  {
  }

  /** AddOutcome once id is stored in the first free slot i. */
  lemma ReuseOutcome(m: seq<byte>, m2: seq<byte>, w: Widths, a: int, end: int, listkey: nat, id: bv32, ps: seq<int>,
                     s: int, d: int, i: nat, ok: bool)
    requires w.Valid() && WellFormed(m, w, a, end) && ps == ListSlots(m, w, a, end, listkey)
    requires s == SentinelOf(m, w, a, end) && d == s + w.Header()
    requires SlotsIn(m, ps) && AddCaseOf(m, ps, id) == FreeAt(i)
    requires m2 == Overwrite(m, ps[i], IdBytes(id)) && !ok
    ensures AddOutcome(m, m2, w, a, end, listkey, id, ps, s, d, ok)
  {
    AddReusesFreeSlot(m, w, a, end, listkey, id, i);
    LiveSplit(m, ps, i);
  }

  /** AddOutcome once the record holding NewGroup(id) is appended. */
  lemma GrowOutcome(m: seq<byte>, m2: seq<byte>, w: Widths, a: int, end: int, listkey: nat, id: bv32, ps: seq<int>,
                    s: int, d: int, ok: bool)
    requires w.Valid() && WellFormed(m, w, a, end) && listkey < Pow256(w.key) && ps == ListSlots(m, w, a, end, listkey)
    requires SlotsIn(m, ps) && AddCaseOf(m, ps, id) == NoneFree
    requires HasRoom(m, w, a, end, 12) && s == SentinelOf(m, w, a, end) && d == s + w.Header()
    requires m2 == Appended(m, w, s, listkey, NewGroup(id)) && ok
    ensures AddOutcome(m, m2, w, a, end, listkey, id, ps, s, d, ok)
  {
    GrownHolds(m, m2, w, a, end, listkey, id, ps, s, d);
  }

  /** Appending a record holding NewGroup(id) at the sentinel s is what
      Appending says. */
  lemma GrownHolds(m: seq<byte>, m2: seq<byte>, w: Widths, a: int, end: int, listkey: nat, id: bv32, ps: seq<int>,
                   s: int, d: int)
    requires w.Valid() && WellFormed(m, w, a, end) && listkey < Pow256(w.key) && ps == ListSlots(m, w, a, end, listkey)
    requires HasRoom(m, w, a, end, 12) && s == SentinelOf(m, w, a, end) && d == s + w.Header()
    requires m2 == Appended(m, w, s, listkey, NewGroup(id))
    ensures SlotsIn(m, ps) && WellFormed(m2, w, a, end)
    ensures Appending(m, m2, w, a, end, listkey, id, ps, s, d, true)
  {
    AddAppendsGroup(m, m2, w, a, end, listkey, id, s, d, ps);
    GrownFold(m, m2, w, a, end, listkey, id, ps, s, d);
  }

  /** The facts AddAppendsGroup gives are what Appending asks for. */
  lemma GrownFold(m: seq<byte>, m2: seq<byte>, w: Widths, a: int, end: int, listkey: nat, id: bv32, ps: seq<int>,
                  s: int, d: int)
    requires w.Valid() && WellFormed(m, w, a, end) && HasRoom(m, w, a, end, 12)
    requires s == SentinelOf(m, w, a, end) && d == s + w.Header() && m2 == Appended(m, w, s, listkey, NewGroup(id))
    requires WellFormed(m2, w, a, end) && ListSlots(m2, w, a, end, listkey) == ps + GroupSlots(d)
    requires SlotsIn(m, ps) && SlotsIn(m2, ps + GroupSlots(d))
    requires AnyMatch(m2, ps + GroupSlots(d), id, FullMask)
    requires Live(m2, ps + GroupSlots(d)) == Live(m, ps) + Kept(id)
    ensures Appending(m, m2, w, a, end, listkey, id, ps, s, d, true)
  {
  }
}

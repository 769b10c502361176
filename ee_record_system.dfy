// EERecordSystem itself: the record store over an EEPROM, with its state
// (began, starting_address, ending_address) as fields and the EEPROM as an
// array of bytes that its operations read and update in place.

module EERecordSystem {
  import opened LittleEndian
  import opened Words
  import opened RecordChain
  import opened IdLists
  import opened ListAdd

  class RecordSystem {
    /** The EEPROM. */
    const mem: array<byte>
    /** The widths of length fields and keys: sizeof(T_datasize) and sizeof(T_key). */
    const w: Widths
    var began: bool
    /** Address of the first record's length field. */
    var startingAddress: int
    /** Last address of the region. */
    var endingAddress: int

    /** The widths are supported, and a begun region lies in the EEPROM with
        room for its header and a sentinel. */
    ghost predicate Valid()
      reads this
    {
      w.Valid() &&
      (began ==> 4 <= startingAddress && startingAddress + 2 <= endingAddress < mem.Length)
    }

    /** The chain of records from startingAddress is well formed. */
    ghost predicate ChainOk()
      reads this, mem
      requires Valid()
    {
      WellFormed(mem[..], w, startingAddress, endingAddress)
    }

    /** The records of the region, in chain order. */
    ghost function Stored(): seq<Rec>
      reads this, mem
      requires Valid() && ChainOk()
    {
      Records(mem[..], w, startingAddress, endingAddress)
    }

    /** The slots of the list listkey, in address order. */
    ghost function ListOf(listkey: nat): (ps: seq<int>)
      reads this, mem
      requires Valid() && ChainOk()
      ensures SlotsIn(mem[..], ps) && Ascending(ps)
    {
      ListSlotsShape(mem[..], w, startingAddress, endingAddress, listkey);
      ListSlots(mem[..], w, startingAddress, endingAddress, listkey)
    }

    constructor(eeprom: array<byte>, widths: Widths)
      requires widths.Valid()
      ensures mem == eeprom && w == widths && !began && Valid()
    {
      mem := eeprom;
      w := widths;
      began := false;
      startingAddress := 0;
      endingAddress := 0;
    }

    // -------------------------------------------------------------------------
    // begin

    /** Starts the record system on the region start .. end: checks bytes
        start+1 .. start+3 for "CAS" and, when they do not hold it, writes the
        header and a zero length field. */
    method Begin(start: int, end: int)
      requires w.Valid()
      requires 0 <= start && start + 6 <= end < mem.Length
      modifies this, mem
      ensures began && startingAddress == start + 4 && endingAddress == end
      ensures Valid()
      ensures mem[..] == BeginImage(old(mem[..]), start)
    {
      began := true;
      var s := start + 1;
      startingAddress := start + 4;
      endingAddress := end;
      var b := mem[s];
      s := s + 1;
      if b == C {
        b := mem[s];
        s := s + 1;
        if b == A {
          if mem[s] == S {
            return;
          }
        }
      }
      s := s - 2;
      mem[s] := C;
      mem[s + 1] := A;
      mem[s + 2] := S;
      mem[s + 3] := 0;
      mem[s + 4] := 0;
    }

    /** Starts the record system on the whole EEPROM. */
    method BeginAll()
      requires w.Valid() && 6 <= mem.Length - 1
      modifies this, mem
      ensures began && startingAddress == 4 && endingAddress == mem.Length - 1
      ensures Valid()
      ensures mem[..] == BeginImage(old(mem[..]), 0)
    {
      Begin(0, mem.Length - 1);
    }

    // -------------------------------------------------------------------------
    // getRecordDataAddress

    /** The address of the payload of the first record the scan of
        getRecordDataAddress accepts (payload after startWhere, key `key`,
        payload `datasize` bytes long or, when datasize is 0 and the caller
        asks for the size, any length, reported in sizeOut); -1 when there is
        none or the system has not begun. */
    method RecordDataAddress(key: nat, datasize: nat, startWhere: nat, wantSize: bool) returns (addr: int, sizeOut: nat)
      requires Valid()
      ensures !began ==> addr == -1
      ensures began ==>
        var found := ScanLookup(mem[..], w, startingAddress, endingAddress, key, datasize, startWhere, wantSize);
        (found.None? ==> addr == -1) &&
        (found.Some? ==> addr == found.value.DataAddr(w) &&
                         (datasize == 0 && wantSize ==> sizeOut == Truncate(found.value.PayloadSize(w), w.len)))
    {
      addr, sizeOut := -1, 0;
      if !began {
        return;
      }
      ghost var m := mem[..];
      ghost var found := ScanLookup(m, w, startingAddress, endingAddress, key, datasize, startWhere, wantSize);
      var a := startingAddress;
      var end := endingAddress;
      while a < end - w.key
        invariant startingAddress <= a
        invariant ScanLookup(m, w, a, end, key, datasize, startWhere, wantSize) == found
        decreases end - a
      {
        var len := ReadField(mem[..], a, w.len);
        if len == 0 {
          break;
        }
        if a + w.len + w.key > startWhere {
          var fkey := ReadField(mem[..], a + w.len, w.key);
          var here := a + w.len + w.key;
          var size := len - w.len - w.key;
          if key == fkey {
            if datasize == 0 && wantSize {
              sizeOut := Truncate(size, w.len);
              addr := here;
              return;
            } else if datasize == size {
              addr := here;
              return;
            }
          }
        }
        a := a + len;
      }
    }

    /** On a well-formed chain the scan of getRecordDataAddress finds the
        first record of the chain the lookup accepts, and the size it reports
        is that record's payload size, untruncated. */
    lemma ScanFindsStored(key: nat, datasize: nat, startWhere: nat, wantSize: bool)
      requires Valid() && began && ChainOk()
      ensures var found := Lookup(Stored(), w, key, datasize, startWhere, wantSize);
        ScanLookup(mem[..], w, startingAddress, endingAddress, key, datasize, startWhere, wantSize) == found &&
        (found.Some? ==> 0 <= found.value.PayloadSize(w) < Pow256(w.len))
    {
      ScanLookupIsLookup(mem[..], w, startingAddress, endingAddress, key, datasize, startWhere, wantSize);
      var rs := Stored();
      var i := FirstAccepted(rs, w, key, datasize, startWhere, wantSize);
      RecordsShape(mem[..], w, startingAddress, endingAddress);
    }

    /** getRecordData for a value of n = |defaultValue| bytes: the lookup
        asks for a payload of n bytes stored into a T_datasize, Truncate(n),
        and reads n bytes from the payload it finds; defaultValue when there
        is none. A value of 256^W_L bytes or more thus reads past the payload
        of a shorter record, and the precondition asks only that this read
        stays inside the EEPROM. */
    method GetRecordData(key: nat, defaultValue: seq<byte>) returns (data: seq<byte>)
      requires Valid() && (began ==> ChainOk())
      requires key < Pow256(w.key) && 0 < |defaultValue|
      requires began && |defaultValue| >= Pow256(w.len) ==> endingAddress + |defaultValue| <= mem.Length
      ensures var n := |defaultValue|; var size := Truncate(n, w.len);
        if began && Lookup(Stored(), w, key, size, 0, false).Some? then
          var r := Lookup(Stored(), w, key, size, 0, false).value;
          0 <= r.DataAddr(w) && r.DataAddr(w) + n <= mem.Length && data == mem[r.DataAddr(w)..r.DataAddr(w) + n]
        else data == defaultValue
    {
      var n := |defaultValue|;
      var size := Truncate(n, w.len);
      var addr, _ := RecordDataAddress(key, size, 0, false);
      if began {
        ScanFindsStored(key, size, 0, false);
      }
      if addr == -1 {
        return defaultValue;
      }
      LookupBeforeEnd(mem[..], w, startingAddress, endingAddress, key, size);
      data := mem[addr..addr + n];
    }

    // -------------------------------------------------------------------------
    // updateRecord

    /** Adds or updates the record with key `key` and payload data: fails,
        changing nothing, before begin, for an empty payload and for one
        longer than MaxPayload; otherwise overwrites the payload of the record
        with that key and an equally long payload in place, or, when there is
        none, appends a new record with addnewrecord. */
    method UpdateRecord(key: nat, data: seq<byte>) returns (ok: bool)
      requires Valid() && (began ==> ChainOk())
      requires key < Pow256(w.key)
      modifies mem
      ensures !began || |data| == 0 || |data| > MaxPayload(w) ==> !ok && mem[..] == old(mem[..])
      ensures began && 0 < |data| <= MaxPayload(w) ==>
        var u := Updated(old(mem[..]), w, startingAddress, endingAddress, key, data);
        (u.Some? ==> ok && mem[..] == u.value) && (u.None? ==> !ok && mem[..] == old(mem[..]))
      ensures ok ==> HoldsRecord(mem[..], w, startingAddress, endingAddress, key, data)
    {
      if !began {
        return false;
      }
      if |data| == 0 {
        return false;
      }
      if |data| > MaxPayload(w) {
        return false;
      }
      ghost var m0 := mem[..];
      var addr, _ := RecordDataAddress(key, |data|, 0, false);
      ScanFindsStored(key, |data|, 0, false);
      if addr == -1 {
        ScanEndIsSentinel(m0, w, startingAddress, endingAddress);
        ok := AddNewRecord(key, data);
        if ok {
          UpdateStores(m0, w, startingAddress, endingAddress, key, data);
        }
        return;
      }
      UpdateInPlace(m0, w, startingAddress, endingAddress, key, data);
      WritePayload(addr, data);
      ok := true;
      UpdateStores(m0, w, startingAddress, endingAddress, key, data);
    }

    /** updateRecordData for a value of |value| bytes: updateRecord on the
        first Truncate(|value|, W_L) bytes of the value, the size the source
        passes after storing sizeof(value) into a T_datasize. */
    method UpdateRecordData(key: nat, value: seq<byte>) returns (ok: bool)
      requires Valid() && (began ==> ChainOk())
      requires key < Pow256(w.key)
      modifies mem
      ensures var data := value[..Truncate(|value|, w.len)];
        (!began || |data| == 0 || |data| > MaxPayload(w) ==> !ok && mem[..] == old(mem[..])) &&
        (began && 0 < |data| <= MaxPayload(w) ==>
          var u := Updated(old(mem[..]), w, startingAddress, endingAddress, key, data);
          (u.Some? ==> ok && mem[..] == u.value) && (u.None? ==> !ok && mem[..] == old(mem[..]))) &&
        (ok ==> HoldsRecord(mem[..], w, startingAddress, endingAddress, key, data))
    {
      ok := UpdateRecord(key, value[..Truncate(|value|, w.len)]);
    }

    /** updateRecord for a one-byte payload. */
    method UpdateRecordByte(key: nat, b: byte) returns (ok: bool)
      requires Valid() && (began ==> ChainOk())
      requires key < Pow256(w.key)
      modifies mem
      ensures !began ==> !ok && mem[..] == old(mem[..])
      ensures began ==>
        var u := Updated(old(mem[..]), w, startingAddress, endingAddress, key, [b]);
        (u.Some? ==> ok && mem[..] == u.value) && (u.None? ==> !ok && mem[..] == old(mem[..]))
    {
      if !began {
        return false;
      }
      ok := UpdateRecord(key, [b]);
    }

    // -------------------------------------------------------------------------
    // addnewrecord

    /** Appends a record with key `key` and payload data at the end of the
        chain, without looking for an existing one: scans for the zero length
        field, checks that the record and a new zero length field fit before
        the end of the region, then writes the payload, the key, the new zero
        length field and, last, the record's length field. Fails, changing
        nothing, before begin, when a record runs past the end of the region
        or when there is no room. */
    method AddNewRecord(key: nat, data: seq<byte>) returns (ok: bool)
      requires Valid()
      requires key < Pow256(w.key) && |data| + w.Header() < Pow256(w.len)
      modifies mem
      ensures !began ==> !ok && mem[..] == old(mem[..])
      ensures began ==>
        var e := ScanEnd(old(mem[..]), w, startingAddress, endingAddress);
        if e.Some? && e.value + |data| + 2 * w.len + w.key <= endingAddress + 1 then
          ok && mem[..] == Appended(old(mem[..]), w, e.value, key, data)
        else !ok && mem[..] == old(mem[..])
    {
      ok := false;
      if !began {
        return;
      }
      ghost var m0 := mem[..];
      ghost var e := ScanEnd(m0, w, startingAddress, endingAddress);
      var a := startingAddress;
      var end := endingAddress;
      while a < end
        invariant startingAddress <= a && mem[..] == m0
        invariant ScanEnd(m0, w, a, end) == e
        decreases end - a
      {
        var len := ReadField(mem[..], a, w.len);
        if len == 0 {
          break;
        }
        if len + a > end {
          return;
        }
        a := a + len;
      }
      if a + |data| + w.len + w.key + w.len > 1 + end {
        return;
      }
      WriteRecord(a, key, data);
      ok := true;
    }

    /** Performs the writes of addnewrecord for a record at s, in its order:
        the payload from its first byte, the key, the zero length field after
        the record, and the record's length field last (AppendWrites lists them). */
    method WriteRecord(s: int, key: nat, data: seq<byte>)
      requires w.Valid() && 0 <= s && s + |data| + 2 * w.len + w.key <= mem.Length
      modifies mem
      ensures mem[..] == Appended(old(mem[..]), w, s, key, data)
    {
      ghost var m0 := mem[..];
      WritePayload(s + w.len + w.key, data);
      WriteFields(s, key, |data|, Overwrite(m0, s + w.len + w.key, data));
      assert mem[..] == Appended(m0, w, s, key, data);
    }

    /** Stores the payload data from address at on, first byte first. */
    method WritePayload(at: int, data: seq<byte>)
      requires 0 <= at && at + |data| <= mem.Length
      modifies mem
      ensures mem[..] == Overwrite(old(mem[..]), at, data)
    {
      ghost var m0 := mem[..];
      var i := 0;
      while i < |data|
        invariant 0 <= i <= |data|
        invariant mem[..] == Overwrite(m0, at, data[..i])
      {
        OverwriteSnoc(m0, at, data, i);
        mem[at + i] := data[i];
        i := i + 1;
      }
      assert data[..i] == data;
    }

    /** Stores the fields of a record at s with key `key` and an n-byte
        payload, over the bytes `before` the EEPROM holds: the key, the zero
        length field after the payload, then the record's length field, each
        high byte first. */
    method WriteFields(s: int, key: nat, n: nat, ghost before: seq<byte>)
      requires w.Valid() && 0 <= s && s + n + 2 * w.len + w.key <= mem.Length && mem[..] == before
      modifies mem
      ensures mem[..] == StoreFields(before, w, s, key, n)
    {
      var k := ToLE(key, w.key);
      if |k| == 2 {
        mem[s + w.len + 1] := k[1];
      }
      mem[s + w.len] := k[0];
      var z := ToLE(0, w.len);
      if |z| == 2 {
        mem[s + w.len + w.key + n + 1] := z[1];
      }
      mem[s + w.len + w.key + n] := z[0];
      var l := ToLE(n + w.Header(), w.len);
      if |l| == 2 {
        mem[s + 1] := l[1];
      }
      mem[s] := l[0];
    }

    // -------------------------------------------------------------------------
    // idop and the list operations

    /** idop: walks the chain of records and, in every record whose key is
        listkey, reads its payload as 4-byte slots, comparing each with id
        under mask. A query stops with true at the first match; a delete sets
        every matching slot to 0xFFFFFFFF; an enumeration hands every slot
        that is not free to the visitor (returned here as `visited`, in
        order); the scan also notes the first free slot. An add scans as a
        query and, finding no match, stores id in that free slot (and still
        reports false) or, when there is none, appends a record holding
        NewGroup(id) with addnewrecord. */
    method ListOp(op: Op, id: bv32, listkey: nat, mask: bv32) returns (ok: bool, visited: seq<bv32>)
      requires Valid() && (began ==> ChainOk())
      requires listkey < Pow256(w.key)
      modifies mem
      ensures !began ==> !ok && visited == [] && mem[..] == old(mem[..])
      ensures began ==>
        (ok, mem[..], visited) == ListResult(old(mem[..]), w, startingAddress, endingAddress, op, listkey, id, mask)
    {
      ok, visited := false, [];
      if !began {
        return;
      }
      ghost var m0 := mem[..];
      ghost var ps := ListSlots(m0, w, startingAddress, endingAddress, listkey);
      ListSlotsPlaced(m0, w, startingAddress, endingAddress, listkey);
      WalkSlotsIsListSlots(m0, w, startingAddress, endingAddress, listkey);
      var isAdd := false;
      var scan := op;
      if op == Add {
        isAdd := true;
        scan := Query;
      }
      var hit, deleted, freeSlot;
      hit, deleted, freeSlot, visited := ScanList(scan, id, listkey, mask, m0, ps);
      if hit {
        ok := true;
        return;
      }
      if scan == Delete {
        ok := deleted;
        return;
      }
      if isAdd {
        if freeSlot != 0 {
          WritePayload(freeSlot, IdBytes(id));
        } else {
          ScanEndIsSentinel(m0, w, startingAddress, endingAddress);
          ok := AddNewRecord(listkey, NewGroup(id));
          return;
        }
      }
    }

    /** queryList: whether some slot of the list listkey holds an entry equal
        to id under mask, a free slot being compared like any other; nothing
        is written. */
    method QueryList(id: bv32, listkey: nat, mask: bv32) returns (found: bool)
      requires Valid() && (began ==> ChainOk()) && listkey < Pow256(w.key)
      modifies mem
      ensures mem[..] == old(mem[..])
      ensures found <==> began && AnyMatch(mem[..], ListOf(listkey), id, mask)
    {
      var visited;
      found, visited := ListOp(Query, id, listkey, mask);
    }

    /** addEntryToList: adds id to the list listkey unless a slot already
        holds it, comparing under the full mask. A slot holding id: true, and
        nothing is written. Otherwise id goes into the first free slot and the
        answer is false; when no slot is free a record holding NewGroup(id)
        is appended and the answer is whether addnewrecord found room. Either
        way a full-mask query then finds id. */
    method AddEntryToList(id: bv32, listkey: nat) returns (ok: bool)
      requires Valid() && (began ==> ChainOk()) && listkey < Pow256(w.key)
      modifies mem
      ensures !began ==> !ok && mem[..] == old(mem[..])
      ensures began ==> ChainOk()
      ensures began ==> AddOutcome(old(mem[..]), mem[..], w, startingAddress, endingAddress, listkey, id,
                                   ListSlots(old(mem[..]), w, startingAddress, endingAddress, listkey),
                                   SentinelOf(old(mem[..]), w, startingAddress, endingAddress),
                                   SentinelOf(old(mem[..]), w, startingAddress, endingAddress) + w.Header(), ok)
    {
      var visited;
      ok, visited := ListOp(Add, id, listkey, FullMask);
      if began {
        AddResult(old(mem[..]), mem[..], w, startingAddress, endingAddress, listkey, id, ok);
      }
    }

    /** deleteListEntry: sets every slot of the list listkey whose entry
        equals id under mask to the free value 0xFFFFFFFF, leaving every other
        byte, and so the chain of records, as it was, and reports whether a
        slot matched. The enumeration loses exactly the matching entries, and
        a query for the same id and mask finds one afterwards only when the
        free value itself matches. */
    method DeleteListEntry(id: bv32, listkey: nat, mask: bv32) returns (deleted: bool)
      requires Valid() && (began ==> ChainOk()) && listkey < Pow256(w.key)
      modifies mem
      ensures !began ==> !deleted && mem[..] == old(mem[..])
      ensures began ==> ChainOk() && Stored() == old(Stored()) && ListOf(listkey) == old(ListOf(listkey))
      ensures began ==> deleted == old(AnyMatch(mem[..], ListOf(listkey), id, mask))
      ensures began ==> mem[..] == old(DeleteImage(mem[..], ListOf(listkey), id, mask))
      ensures began ==> Live(mem[..], ListOf(listkey)) == Unmatched(old(Live(mem[..], ListOf(listkey))), id, mask)
      ensures began ==> (AnyMatch(mem[..], ListOf(listkey), id, mask) <==> deleted && MaskedEqual(Tombstone, id, mask))
    {
      var visited;
      deleted, visited := ListOp(Delete, id, listkey, mask);
      if began {
        ghost var m0 := old(mem[..]);
        ghost var ps := ListSlots(m0, w, startingAddress, endingAddress, listkey);
        ListSlotsShape(m0, w, startingAddress, endingAddress, listkey);
        DeleteKeepsChain(m0, w, startingAddress, endingAddress, listkey, id, mask);
        DeleteThenEnumerate(m0, ps, id, mask);
        DeleteThenQuery(m0, ps, id, mask);
      }
    }

    /** enumerateList: the entries of the slots of the list listkey that are
        not free, in address order, as the visitor receives them; nothing is
        written. */
    method EnumerateList(listkey: nat) returns (visited: seq<bv32>)
      requires Valid() && (began ==> ChainOk()) && listkey < Pow256(w.key)
      modifies mem
      ensures mem[..] == old(mem[..])
      ensures visited == if began then Live(mem[..], ListOf(listkey)) else []
      ensures Tombstone !in visited
    {
      var ok;
      ok, visited := ListOp(Enumerate, 0, listkey, 0);
      if began {
        LiveNoTombstone(mem[..], ListOf(listkey));
      }
    }

    /** idop's scan of the list listkey for the operation op (an add scans
        as a query): either a query matched (hit), or the scan went through
        all the slots ps of the list and the medium, deleted, freeSlot and
        visited are what scanning them all amounts to. */
    method ScanList(op: Op, id: bv32, listkey: nat, mask: bv32, ghost m0: seq<byte>, ghost ps: seq<int>)
      returns (hit: bool, deleted: bool, freeSlot: int, visited: seq<bv32>)
      requires Valid() && began && op != Add
      requires m0 == mem[..] && WellFormed(m0, w, startingAddress, endingAddress)
      requires ps == WalkSlots(m0, w, startingAddress, endingAddress, listkey)
      requires SlotsIn(m0, ps) && forall i :: 0 <= i < |ps| ==> 0 < ps[i]
      modifies mem
      ensures hit ==> op == Query && AnyMatch(m0, ps, id, mask) && mem[..] == m0 && visited == []
      ensures !hit ==> mem[..] == (if op == Delete then DeleteImage(m0, ps, id, mask) else m0)
      ensures !hit ==> deleted == (op == Delete && AnyMatch(m0, ps, id, mask))
      ensures !hit ==> (op == Query ==> !AnyMatch(m0, ps, id, mask))
      ensures !hit ==> freeSlot == FreeAddr(m0, ps)
      ensures !hit ==> visited == if op == Enumerate then Live(m0, ps) else []
    {
      ghost var stop;
      hit, deleted, freeSlot, visited, stop := ScanWalk(op, id, listkey, mask, m0, ps);
      if !hit {
        ScannedAll(mem[..], m0, ps, stop, op, id, mask, deleted, freeSlot, visited);
      }
    }

    /** The walk of idop over the chain up to the zero sentinel, at stop:
        every record keyed listkey has its payload scanned slot by slot. */
    method ScanWalk(op: Op, id: bv32, listkey: nat, mask: bv32, ghost m0: seq<byte>, ghost ps: seq<int>)
      returns (hit: bool, deleted: bool, freeSlot: int, visited: seq<bv32>, ghost stop: int)
      requires Valid() && began && op != Add
      requires m0 == mem[..] && WellFormed(m0, w, startingAddress, endingAddress)
      requires ps == WalkSlots(m0, w, startingAddress, endingAddress, listkey) && SlotsIn(m0, ps)
      modifies mem
      ensures hit ==> op == Query && AnyMatch(m0, ps, id, mask)
      ensures hit ==> mem[..] == m0 && visited == []
      ensures !hit ==> Scanned(mem[..], m0, ps, stop, op, id, mask, deleted, freeSlot, visited)
    {
      var end := endingAddress;
      hit, deleted, freeSlot, visited := false, false, 0, [];
      var a := startingAddress;
      ghost var done: seq<int> := [];
      stop := a;
      WalkStart(m0, w, a, end, listkey, ps, op, id, mask);
      while a <= end
        invariant Walking(mem[..], m0, w, a, end, listkey, ps, done, op, id, mask, deleted, freeSlot, visited)
        decreases end - a
      {
        var len;
        len, hit, deleted, freeSlot, visited, done :=
          ScanNext(op, id, listkey, mask, a, end, m0, ps, done, deleted, freeSlot, visited);
        if hit {
          return;
        }
        if len == 0 {
          stop := a;
          break;
        }
        a := a + len;
      }
    }

    /** One turn of idop's walk, at the record at a once the slots done have
        been scanned: it reads the length (zero ends the walk) and the key
        and, for a record of the list, scans its payload. */
    method ScanNext(op: Op, id: bv32, listkey: nat, mask: bv32, a: int, end: int, ghost m0: seq<byte>,
                    ghost ps: seq<int>, ghost done: seq<int>, deleted: bool, freeSlot: int, visited: seq<bv32>)
      returns (len: int, hit: bool, deleted': bool, freeSlot': int, visited': seq<bv32>, ghost done': seq<int>)
      requires Valid() && end < mem.Length && SlotsIn(m0, ps)
      requires Walking(mem[..], m0, w, a, end, listkey, ps, done, op, id, mask, deleted, freeSlot, visited)
      modifies mem
      ensures len == 0 ==> !hit && Scanned(mem[..], m0, ps, a, op, id, mask, deleted', freeSlot', visited')
      ensures hit ==> op == Query && AnyMatch(m0, ps, id, mask)
      ensures hit ==> mem[..] == m0 && visited' == []
      ensures !hit && len != 0 ==> 0 < len
      ensures !hit && len != 0 ==>
        Walking(mem[..], m0, w, a + len, end, listkey, ps, done', op, id, mask, deleted', freeSlot', visited')
    {
      hit, deleted', freeSlot', visited', done' := false, deleted, freeSlot, visited, done;
      ScannedField(mem[..], m0, done, a, op, id, mask, deleted, freeSlot, visited, a, w.len);
      len := ReadField(mem[..], a, w.len);
      if len == 0 {
        WalkStop(m0, w, a, end, listkey, done, ps);
        return;
      }
      hit, deleted', freeSlot', visited', done' :=
        ScanKeyed(op, id, listkey, mask, a, len, end, m0, ps, done, deleted, freeSlot, visited);
    }

    /** The rest of a turn of idop's walk at a record of length len (not
        zero): it reads the key and scans the record. */
    method ScanKeyed(op: Op, id: bv32, listkey: nat, mask: bv32, a: int, len: int, end: int, ghost m0: seq<byte>,
                     ghost ps: seq<int>, ghost done: seq<int>, deleted: bool, freeSlot: int, visited: seq<bv32>)
      returns (hit: bool, deleted': bool, freeSlot': int, visited': seq<bv32>, ghost done': seq<int>)
      requires Valid() && end < mem.Length && SlotsIn(m0, ps)
      requires Walking(mem[..], m0, w, a, end, listkey, ps, done, op, id, mask, deleted, freeSlot, visited)
      requires len == ReadField(m0, a, w.len) && len != 0
      modifies mem
      ensures hit ==> op == Query && AnyMatch(m0, ps, id, mask)
      ensures hit ==> mem[..] == m0 && visited' == []
      ensures !hit ==> 0 < len
      ensures !hit ==>
        Walking(mem[..], m0, w, a + len, end, listkey, ps, done', op, id, mask, deleted', freeSlot', visited')
    {
      ScannedField(mem[..], m0, done, a, op, id, mask, deleted, freeSlot, visited, a + w.len, w.key);
      var fkey := ReadField(mem[..], a + w.len, w.key);
      ghost var rest := WalkAdvance(m0, w, a, end, listkey, done, ps, len, fkey);
      hit, deleted', freeSlot', visited', done' :=
        ScanRecord(op, id, listkey, mask, a, len, fkey, m0, done, deleted, freeSlot, visited);
      if hit {
        AnyMatchIn(m0, done', rest, ps, id, mask);
      }
    }

    /** The part of idop's walk that handles the record at a, of length len
        and key fkey, once the slots done have been scanned: a record of the
        list has its payload scanned. */
    method ScanRecord(op: Op, id: bv32, listkey: nat, mask: bv32, a: int, len: int, fkey: int,
                      ghost m0: seq<byte>, ghost done: seq<int>, deleted: bool, freeSlot: int, visited: seq<bv32>)
      returns (hit: bool, deleted': bool, freeSlot': int, visited': seq<bv32>, ghost done': seq<int>)
      requires Valid() && 0 <= a && a + len <= mem.Length && w.Header() <= len
      requires Scanned(mem[..], m0, done, a, op, id, mask, deleted, freeSlot, visited)
      modifies mem
      ensures done' == done + RecordWalk(a, len, fkey, w, listkey)
      ensures hit ==> op == Query && SlotsIn(m0, done') && AnyMatch(m0, done', id, mask)
      ensures hit ==> mem[..] == m0 && visited' == []
      ensures !hit ==> Scanned(mem[..], m0, done', a + len, op, id, mask, deleted', freeSlot', visited')
    {
      hit, deleted', freeSlot', visited', done' := false, deleted, freeSlot, visited, done;
      if listkey == fkey {
        var datalength := len - w.len - w.key;
        var dataaddress := a + w.key + w.len;
        ScannedLater(mem[..], m0, done, a, op, id, mask, deleted, freeSlot, visited, dataaddress);
        hit, deleted', freeSlot', visited', done' :=
          ScanPayload(op, id, mask, dataaddress, datalength, m0, done, deleted, freeSlot, visited);
        assert dataaddress + datalength == a + len;
      } else {
        ScannedLater(mem[..], m0, done, a, op, id, mask, deleted, freeSlot, visited, a + len);
      }
    }

    /** idop's scan of the n-byte payload at d of a record of the list, slot
        by slot while at least 4 bytes remain, carrying deleted, freeSlot and
        visited along; hit says that a query matched and stopped the scan,
        and all is qs followed by the payload's slots. */
    method ScanPayload(op: Op, id: bv32, mask: bv32, d: int, n: int, ghost m0: seq<byte>, ghost qs: seq<int>,
                       deleted: bool, freeSlot: int, visited: seq<bv32>)
      returns (hit: bool, deleted': bool, freeSlot': int, visited': seq<bv32>, ghost all: seq<int>)
      requires 0 <= d && 0 <= n && d + n <= mem.Length
      requires Scanned(mem[..], m0, qs, d, op, id, mask, deleted, freeSlot, visited)
      modifies mem
      ensures all == qs + PayloadSlots(d, n) && SlotsIn(m0, all)
      ensures hit ==> op == Query && AnyMatch(m0, all, id, mask)
      ensures hit ==> mem[..] == m0 && visited' == []
      ensures !hit ==> Scanned(mem[..], m0, all, d + n, op, id, mask, deleted', freeSlot', visited')
    {
      all := qs + PayloadSlots(d, n);
      ScannedSize(mem[..], m0, qs, d, op, id, mask, deleted, freeSlot, visited);
      PayloadSlotsIn(m0, qs, d, n);
      hit, deleted', freeSlot', visited' := ScanSlots(op, id, mask, d, n, m0, all, qs, deleted, freeSlot, visited);
    }

    /** idop's payload loop over the n bytes at d, whose slots with the slots
        qs already scanned make up all. */
    method ScanSlots(op: Op, id: bv32, mask: bv32, d: int, n: int, ghost m0: seq<byte>, ghost all: seq<int>,
                     ghost qs: seq<int>, deleted: bool, freeSlot: int, visited: seq<bv32>)
      returns (hit: bool, deleted': bool, freeSlot': int, visited': seq<bv32>)
      requires 0 <= d && d + n <= mem.Length && SlotsIn(m0, all)
      requires Paying(mem[..], m0, all, qs, d, n, op, id, mask, deleted, freeSlot, visited)
      modifies mem
      ensures hit ==> op == Query && AnyMatch(m0, all, id, mask)
      ensures hit ==> mem[..] == m0 && visited' == []
      ensures !hit ==> Scanned(mem[..], m0, all, d + n, op, id, mask, deleted', freeSlot', visited')
    {
      hit, deleted', freeSlot', visited' := false, deleted, freeSlot, visited;
      var datalength := n;
      var dataaddress := d;
      ghost var done := qs;
      while datalength >= 4
        invariant 0 <= dataaddress && dataaddress + datalength == d + n
        invariant Paying(mem[..], m0, all, done, dataaddress, datalength, op, id, mask, deleted', freeSlot', visited')
        decreases datalength
      {
        hit, deleted', freeSlot', visited', done, dataaddress, datalength :=
          ScanPayloadSlot(op, id, mask, dataaddress, datalength, m0, all, done, deleted', freeSlot', visited');
        if hit {
          return;
        }
      }
      ScannedPayloadEnd(mem[..], m0, done, dataaddress, op, id, mask, deleted', freeSlot', visited', datalength, all, d + n);
    }

    /** One turn of idop's payload loop, at the slot p with n bytes left,
        once the slots done of all have been scanned; the loop goes on at p'
        with n' bytes left. */
    method ScanPayloadSlot(op: Op, id: bv32, mask: bv32, p: int, n: int, ghost m0: seq<byte>, ghost all: seq<int>,
                           ghost done: seq<int>, deleted: bool, freeSlot: int, visited: seq<bv32>)
      returns (hit: bool, deleted': bool, freeSlot': int, visited': seq<bv32>, ghost done': seq<int>, p': int, n': int)
      requires 0 <= p && 4 <= n && p + n <= mem.Length
      requires SlotsIn(m0, all)
      requires Paying(mem[..], m0, all, done, p, n, op, id, mask, deleted, freeSlot, visited)
      modifies mem
      ensures hit ==> op == Query && AnyMatch(m0, all, id, mask)
      ensures hit ==> mem[..] == m0 && visited' == []
      ensures p' == p + 4 && n' == n - 4
      ensures !hit ==> Paying(mem[..], m0, all, done', p', n', op, id, mask, deleted', freeSlot', visited')
    {
      p', n' := p + 4, n - 4;
      PayloadSlotsNext(done, p, n, all);
      hit, deleted', freeSlot', visited' := ScanSlot(op, id, mask, p, m0, done, deleted, freeSlot, visited);
      done' := done + [p];
      if hit {
        MatchAt(m0, all, |done|, id, mask);
      }
    }

    /** One turn of idop's slot loop, at the slot p: reads it, stops a query
        that matches, clears it for a delete that matches, notes it when it
        is the first free slot and, enumerating, hands its value to the
        visitor when it is not free. */
    method ScanSlot(op: Op, id: bv32, mask: bv32, p: int, ghost m0: seq<byte>, ghost qs: seq<int>,
                    deleted: bool, freeSlot: int, visited: seq<bv32>)
      returns (hit: bool, deleted': bool, freeSlot': int, visited': seq<bv32>)
      requires 0 <= p && p + 4 <= mem.Length
      requires Scanned(mem[..], m0, qs, p, op, id, mask, deleted, freeSlot, visited)
      modifies mem
      ensures hit <==> op == Query && Matches(m0, p, id, mask)
      ensures hit ==> mem[..] == m0 && visited' == []
      ensures !hit ==> Scanned(mem[..], m0, qs + [p], p + 4, op, id, mask, deleted', freeSlot', visited')
    {
      ScannedSlot(mem[..], m0, qs, p, op, id, mask, deleted, freeSlot, visited, p);
      hit, deleted', freeSlot', visited' := false, deleted, freeSlot, visited;
      var v, matched := ReadSlot(p, id, mask);
      if matched {
        if op == Query {
          return true, deleted', freeSlot', visited';
        }
        if op == Delete {
          deleted' := true;
          WritePayload(p, FreeSlotBytes);
        }
      }
      if v == Tombstone {
        if freeSlot' == 0 {
          freeSlot' := p;
        }
      } else if op == Enumerate {
        visited' := visited' + [v];
      }
      ScanStep(old(mem[..]), m0, qs, p, op, id, mask, deleted, freeSlot, visited, p, mem[..]);
    }

    /** Reads the slot at p one byte at a time, least significant first, as
        idop does: the value its bytes make and whether each byte agrees with
        the same byte of id under the same byte of mask. */
    method ReadSlot(p: int, id: bv32, mask: bv32) returns (v: bv32, matched: bool)
      requires 0 <= p && p + 4 <= mem.Length
      ensures v == SlotValue(mem[..], p) && matched == Matches(mem[..], p, id, mask)
    {
      var bs: seq<bv8> := [];
      matched := true;
      AgreeFromAll(mem[..], p, id, mask);
      for i := 0 to 4
        invariant |bs| == i && forall t :: 0 <= t < i ==> bs[t] == Bits(mem[p + t])
        invariant Matches(mem[..], p, id, mask) == (matched && AgreeFrom(mem[..], p, id, mask, i))
      {
        var rb := Bits(mem[p + i]);
        ghost var prev := bs;
        bs := bs + [rb];
        if !ByteAgrees(rb, id, mask, i) {
          matched := false;
        }
        assert bs[i] == rb && forall t :: 0 <= t < i ==> bs[t] == prev[t];
      }
      v := Word(bs[0], bs[1], bs[2], bs[3]);
    }
  }
}

// The record chain of an EERecordSystem region, as a function of the bytes of
// the medium: records [length | key | payload] packed from the first record
// address, ending at the first length field that reads zero (the sentinel).

module RecordChain {
  import opened LittleEndian

  datatype Option<T> = None | Some(value: T)

  /** The two layout parameters fixed when a region is formatted: the width in
      bytes of a record's length field and of its key (each 1 or 2). */
  datatype Widths = Widths(len: nat, key: nat) {
    predicate Valid() {
      (len == 1 || len == 2) && (key == 1 || key == 2)
    }

    /** Bytes a record spends before its payload. */
    function Header(): nat {
      len + key
    }
  }

  /** One live record: `at` is the address of its length field, `size` the
      value of that field (length field, key and payload together) and `key`
      its key. */
  datatype Rec = Rec(at: int, size: nat, key: nat) {
    function DataAddr(w: Widths): int {
      at + w.Header()
    }

    function PayloadSize(w: Widths): int {
      size - w.Header()
    }
  }

  /** The largest payload updateRecord accepts for these widths. */
  function MaxPayload(w: Widths): (n: nat)
    requires w.Valid()
    ensures n + w.Header() < Pow256(w.len)
  {
    (if w.len == 2 then 65533 else 254) - w.key
  }

  /** The chain from a is well formed: every length field up to and including
      the sentinel lies inside the region that ends at `end`, every record is at
      least as long as its header and leaves room after it for another length
      field. */
  ghost predicate WellFormed(m: seq<byte>, w: Widths, a: int, end: int)
    requires w.Valid()
    decreases end - a
  {
    0 <= a && a + w.len <= end + 1 && end < |m| &&
    var size := ReadField(m, a, w.len);
    size == 0 ||
    (w.Header() <= size && a + size + w.len <= end + 1 && WellFormed(m, w, a + size, end))
  }

  /** The address of the zero length field that ends the chain from a. */
  ghost function SentinelOf(m: seq<byte>, w: Widths, a: int, end: int): (s: int)
    requires w.Valid() && WellFormed(m, w, a, end)
    ensures a <= s && s + w.len <= end + 1
    ensures ReadField(m, s, w.len) == 0
    decreases end - a
  {
    var size := ReadField(m, a, w.len);
    if size == 0 then a else SentinelOf(m, w, a + size, end)
  }

  /** The records of the chain from a, in address order. */
  ghost function Records(m: seq<byte>, w: Widths, a: int, end: int): seq<Rec>
    requires w.Valid() && WellFormed(m, w, a, end)
    decreases end - a
  {
    var size := ReadField(m, a, w.len);
    if size == 0 then []
    else
      var rest := Records(m, w, a + size, end);
      var rs := [Rec(a, size, ReadField(m, a + w.len, w.key))] + rest;
      rs
  }

  /** r lies between a and s, is at least a header long, and carries the
      length field and key stored at its address. */
  ghost predicate Inside(m: seq<byte>, w: Widths, a: int, s: int, r: Rec)
    requires w.Valid()
  {
    0 <= a <= r.at && w.Header() <= r.size && r.at + r.size <= s <= |m| &&
    r.size == ReadField(m, r.at, w.len) && r.key == ReadField(m, r.at + w.len, w.key)
  }

  /** Each record of the chain carries the length and key stored at its
      address, is at least a header long and ends before the sentinel; the
      chain is empty exactly when the length field at a reads zero, and
      otherwise starts at a. */
  lemma {:induction false} RecordsShape(m: seq<byte>, w: Widths, a: int, end: int)
    requires w.Valid() && WellFormed(m, w, a, end)
    ensures var rs := Records(m, w, a, end);
      (forall i :: 0 <= i < |rs| ==> Inside(m, w, a, SentinelOf(m, w, a, end), rs[i])) &&
      (|rs| > 0 ==> rs[0].at == a) &&
      (rs == [] <==> ReadField(m, a, w.len) == 0)
    decreases end - a
  {
    var size := ReadField(m, a, w.len);
    if size != 0 {
      RecordsShape(m, w, a + size, end);
      var rest := Records(m, w, a + size, end);
      var rs := Records(m, w, a, end);
      var s := SentinelOf(m, w, a, end);
      assert s == SentinelOf(m, w, a + size, end);
      assert rs == [Rec(a, size, ReadField(m, a + w.len, w.key))] + rest;
      forall i | 0 <= i < |rs|
        ensures Inside(m, w, a, s, rs[i])
      {
        if i > 0 {
          assert rs[i] == rest[i - 1];
          assert Inside(m, w, a + size, s, rest[i - 1]);
        }
      }
    }
  }

  /** The records rs follow each other without overlapping. */
  predicate InOrder(rs: seq<Rec>) {
    forall i, j :: 0 <= i < j < |rs| ==> rs[i].at + rs[i].size <= rs[j].at
  }

  /** A record that ends before every record of an ordered sequence starts
      keeps it ordered when put in front. */
  lemma InOrderCons(r: Rec, rest: seq<Rec>)
    requires InOrder(rest) && forall k :: 0 <= k < |rest| ==> r.at + r.size <= rest[k].at
    ensures InOrder([r] + rest)
  {
    var rs := [r] + rest;
    forall i, j | 0 <= i < j < |rs|
      ensures rs[i].at + rs[i].size <= rs[j].at
    {
      assert rs[j] == rest[j - 1];
      if i > 0 {
        assert rs[i] == rest[i - 1];
      }
    }
  }

  /** The records of the chain follow each other without overlapping. */
  lemma {:induction false} RecordsOrdered(m: seq<byte>, w: Widths, a: int, end: int)
    requires w.Valid() && WellFormed(m, w, a, end)
    ensures InOrder(Records(m, w, a, end))
    decreases end - a
  {
    var size := ReadField(m, a, w.len);
    if size != 0 {
      RecordsOrdered(m, w, a + size, end);
      RecordsShape(m, w, a + size, end);
      var rest := Records(m, w, a + size, end);
      forall k | 0 <= k < |rest|
        ensures a + size <= rest[k].at
      {
        assert Inside(m, w, a + size, SentinelOf(m, w, a + size, end), rest[k]);
      }
      InOrderCons(Rec(a, size, ReadField(m, a + w.len, w.key)), rest);
    }
  }

  /** Unfolding the chain by one record. */
  lemma RecordsStep(m: seq<byte>, w: Widths, a: int, end: int)
    requires w.Valid() && WellFormed(m, w, a, end)
    requires ReadField(m, a, w.len) != 0
    ensures var size := ReadField(m, a, w.len);
      Records(m, w, a, end) == [Rec(a, size, ReadField(m, a + w.len, w.key))] + Records(m, w, a + size, end) &&
      SentinelOf(m, w, a, end) == SentinelOf(m, w, a + size, end)
  {
  }

  /** Byte j lies in the payload of some record of the chain from a. */
  ghost predicate InPayloads(m: seq<byte>, w: Widths, a: int, end: int, j: int)
    requires w.Valid() && WellFormed(m, w, a, end)
    decreases end - a
  {
    var size := ReadField(m, a, w.len);
    size != 0 && (a + w.Header() <= j < a + size || InPayloads(m, w, a + size, end, j))
  }

  /** Payload bytes lie between the first record's key and the sentinel. */
  lemma {:induction false} InPayloadsBounds(m: seq<byte>, w: Widths, a: int, end: int, j: int)
    requires w.Valid() && WellFormed(m, w, a, end)
    requires InPayloads(m, w, a, end, j)
    ensures a + w.Header() <= j < SentinelOf(m, w, a, end)
    decreases end - a
  {
    var size := ReadField(m, a, w.len);
    if !(a + w.Header() <= j < a + size) {
      InPayloadsBounds(m, w, a + size, end, j);
    }
  }

  /** The payload bytes of every record of the chain are payload bytes. */
  lemma {:induction false} RecordPayloadInPayloads(m: seq<byte>, w: Widths, a: int, end: int, i: nat, j: int)
    requires w.Valid() && WellFormed(m, w, a, end)
    requires i < |Records(m, w, a, end)|
    requires Records(m, w, a, end)[i].DataAddr(w) <= j < Records(m, w, a, end)[i].at + Records(m, w, a, end)[i].size
    ensures InPayloads(m, w, a, end, j)
    decreases end - a
  {
    var size := ReadField(m, a, w.len);
    RecordsStep(m, w, a, end);
    if i > 0 {
      RecordPayloadInPayloads(m, w, a + size, end, i - 1, j);
    }
  }

  /** A field whose bytes agree reads the same. */
  lemma SameField(m: seq<byte>, m2: seq<byte>, at: int, width: nat)
    requires width == 1 || width == 2
    requires 0 <= at && at + width <= |m| && at + width <= |m2|
    requires forall j :: at <= j < at + width ==> m2[j] == m[j]
    ensures ReadField(m2, at, width) == ReadField(m, at, width)
  {
    assert m2[at] == m[at];
  }

  /** One step of PayloadFrame, on two memories whose first record agrees. */
  lemma SameTailStep(m: seq<byte>, m2: seq<byte>, w: Widths, a: int, end: int)
    requires w.Valid() && WellFormed(m, w, a, end) && WellFormed(m2, w, a, end)
    requires ReadField(m2, a, w.len) == ReadField(m, a, w.len) != 0
    requires ReadField(m2, a + w.len, w.key) == ReadField(m, a + w.len, w.key)
    requires var size := ReadField(m, a, w.len);
      Records(m2, w, a + size, end) == Records(m, w, a + size, end) &&
      SentinelOf(m2, w, a + size, end) == SentinelOf(m, w, a + size, end)
    ensures Records(m2, w, a, end) == Records(m, w, a, end)
    ensures SentinelOf(m2, w, a, end) == SentinelOf(m, w, a, end)
  {
  }

  /** Rewriting payload bytes, and nothing else from a on, leaves the chain
      from a as it was. */
  lemma {:induction false} PayloadFrame(m: seq<byte>, m2: seq<byte>, w: Widths, a: int, end: int)
    requires w.Valid() && WellFormed(m, w, a, end) && |m2| == |m|
    requires forall j :: a <= j < |m| && !InPayloads(m, w, a, end, j) ==> m2[j] == m[j]
    ensures WellFormed(m2, w, a, end)
    ensures Records(m2, w, a, end) == Records(m, w, a, end)
    ensures SentinelOf(m2, w, a, end) == SentinelOf(m, w, a, end)
    decreases end - a
  {
    var size := ReadField(m, a, w.len);
    HeaderKept(m, m2, w, a, end);
    if size != 0 {
      forall j | a + size <= j < |m| && !InPayloads(m, w, a + size, end, j)
        ensures m2[j] == m[j]
      {
        assert !InPayloads(m, w, a, end, j);
      }
      PayloadFrame(m, m2, w, a + size, end);
      SameTailStep(m, m2, w, a, end);
    }
  }

  /** A change confined to payloads keeps the first length field and, when
      it is not zero, the first key. */
  lemma HeaderKept(m: seq<byte>, m2: seq<byte>, w: Widths, a: int, end: int)
    requires w.Valid() && WellFormed(m, w, a, end) && |m2| == |m|
    requires forall j :: a <= j < |m| && !InPayloads(m, w, a, end, j) ==> m2[j] == m[j]
    ensures ReadField(m2, a, w.len) == ReadField(m, a, w.len)
    ensures ReadField(m, a, w.len) != 0 ==> ReadField(m2, a + w.len, w.key) == ReadField(m, a + w.len, w.key)
  {
    var size := ReadField(m, a, w.len);
    forall j | a <= j < a + w.len + (if size == 0 then 0 else w.key)
      ensures m2[j] == m[j]
    {
      if InPayloads(m, w, a, end, j) {
        InPayloadsBounds(m, w, a, end, j);
      }
    }
    SameField(m, m2, a, w.len);
    if size != 0 {
      SameField(m, m2, a + w.len, w.key);
    }
  }

  lemma {:induction false} SpliceWellFormed(m: seq<byte>, m2: seq<byte>, w: Widths, a: int, end: int)
    requires w.Valid() && WellFormed(m, w, a, end)
    requires forall j :: a <= j < SentinelOf(m, w, a, end) ==> 0 <= j < |m2| && m2[j] == m[j]
    requires WellFormed(m2, w, SentinelOf(m, w, a, end), end)
    ensures WellFormed(m2, w, a, end)
    ensures SentinelOf(m2, w, a, end) == SentinelOf(m2, w, SentinelOf(m, w, a, end), end)
    decreases end - a
  {
    var size := ReadField(m, a, w.len);
    if size != 0 {
      assert SentinelOf(m, w, a, end) == SentinelOf(m, w, a + size, end);
      SameField(m, m2, a, w.len);
      SpliceWellFormed(m, m2, w, a + size, end);
    }
  }

  /** One step of SpliceRecords, on two memories whose first record agrees. */
  lemma SpliceStep(m: seq<byte>, m2: seq<byte>, w: Widths, a: int, end: int, tail: seq<Rec>)
    requires w.Valid() && WellFormed(m, w, a, end) && WellFormed(m2, w, a, end)
    requires ReadField(m2, a, w.len) == ReadField(m, a, w.len) != 0
    requires ReadField(m2, a + w.len, w.key) == ReadField(m, a + w.len, w.key)
    requires var size := ReadField(m, a, w.len);
      Records(m2, w, a + size, end) == Records(m, w, a + size, end) + tail
    ensures Records(m2, w, a, end) == Records(m, w, a, end) + tail
  {
    var size := ReadField(m, a, w.len);
    var r := Rec(a, size, ReadField(m, a + w.len, w.key));
    var x := Records(m, w, a + size, end);
    assert Records(m2, w, a, end) == [r] + (x + tail);
    assert [r] + (x + tail) == [r] + x + tail;
  }

  lemma {:induction false} SpliceRecords(m: seq<byte>, m2: seq<byte>, w: Widths, a: int, end: int)
    requires w.Valid() && WellFormed(m, w, a, end)
    requires forall j :: a <= j < SentinelOf(m, w, a, end) ==> 0 <= j < |m2| && m2[j] == m[j]
    requires WellFormed(m2, w, SentinelOf(m, w, a, end), end)
    requires WellFormed(m2, w, a, end)
    ensures Records(m2, w, a, end) == Records(m, w, a, end) + Records(m2, w, SentinelOf(m, w, a, end), end)
    decreases end - a
  {
    var size := ReadField(m, a, w.len);
    if size != 0 {
      assert SentinelOf(m, w, a, end) == SentinelOf(m, w, a + size, end);
      SameField(m, m2, a, w.len);
      SameField(m, m2, a + w.len, w.key);
      SpliceRecords(m, m2, w, a + size, end);
      SpliceStep(m, m2, w, a, end, Records(m2, w, SentinelOf(m, w, a, end), end));
    }
  }

  /** Splicing: bytes that agree with m from a up to m's sentinel carry m's
      records, followed by whatever chain the new bytes hold from there. */
  lemma ChainSplice(m: seq<byte>, m2: seq<byte>, w: Widths, a: int, end: int)
    requires w.Valid() && WellFormed(m, w, a, end)
    requires forall j :: a <= j < SentinelOf(m, w, a, end) ==> 0 <= j < |m2| && m2[j] == m[j]
    requires WellFormed(m2, w, SentinelOf(m, w, a, end), end)
    ensures WellFormed(m2, w, a, end)
    ensures Records(m2, w, a, end) == Records(m, w, a, end) + Records(m2, w, SentinelOf(m, w, a, end), end)
    ensures SentinelOf(m2, w, a, end) == SentinelOf(m2, w, SentinelOf(m, w, a, end), end)
  {
    SpliceWellFormed(m, m2, w, a, end);
    SpliceRecords(m, m2, w, a, end);
  }

  /** Bytes that agree with m from a up to and including m's sentinel hold the
      same chain. */
  lemma ChainFrame(m: seq<byte>, m2: seq<byte>, w: Widths, a: int, end: int)
    requires w.Valid() && WellFormed(m, w, a, end) && |m2| == |m|
    requires forall j :: a <= j < SentinelOf(m, w, a, end) + w.len ==> m2[j] == m[j]
    ensures WellFormed(m2, w, a, end)
    ensures Records(m2, w, a, end) == Records(m, w, a, end)
    ensures SentinelOf(m2, w, a, end) == SentinelOf(m, w, a, end)
  {
    var s := SentinelOf(m, w, a, end);
    assert m2[s..s + w.len] == m[s..s + w.len];
    ChainSplice(m, m2, w, a, end);
  }

  // ---------------------------------------------------------------------------
  // Lookup (getRecordDataAddress)

  /** Whether the lookup for (key, size) accepts record r: its payload starts
      after `after`, its key is `key`, and its payload size is `size`, unless
      `size` is 0 and the caller asked for the actual size, which then matches
      any size. */
  predicate Accepts(r: Rec, w: Widths, key: nat, size: nat, after: int, wantSize: bool) {
    r.DataAddr(w) > after && r.key == key && ((size == 0 && wantSize) || r.PayloadSize(w) == size)
  }

  /** The index of the first record of rs the lookup accepts, or |rs|. */
  function FirstAccepted(rs: seq<Rec>, w: Widths, key: nat, size: nat, after: int, wantSize: bool): (i: nat)
    ensures i <= |rs|
    ensures i < |rs| ==> Accepts(rs[i], w, key, size, after, wantSize)
    ensures forall j :: 0 <= j < i ==> !Accepts(rs[j], w, key, size, after, wantSize)
  {
    if rs == [] then 0
    else if Accepts(rs[0], w, key, size, after, wantSize) then 0
    else 1 + FirstAccepted(rs[1..], w, key, size, after, wantSize)
  }

  /** The record the lookup returns, if any. */
  function Lookup(rs: seq<Rec>, w: Widths, key: nat, size: nat, after: int, wantSize: bool): Option<Rec> {
    var i := FirstAccepted(rs, w, key, size, after, wantSize);
    if i < |rs| then Some(rs[i]) else None
  }

  /** Adding a record the lookup accepts after records it rejects makes the
      lookup find the new record. */
  lemma {:induction false} LookupAppend(rs: seq<Rec>, r: Rec, w: Widths, key: nat, size: nat, after: int, wantSize: bool)
    requires Lookup(rs, w, key, size, after, wantSize) == None
    requires Accepts(r, w, key, size, after, wantSize)
    ensures Lookup(rs + [r], w, key, size, after, wantSize) == Some(r)
  {
    var rs2 := rs + [r];
    assert FirstAccepted(rs, w, key, size, after, wantSize) == |rs|;
    forall j | 0 <= j < |rs|
      ensures !Accepts(rs2[j], w, key, size, after, wantSize)
    {
      assert rs2[j] == rs[j];
    }
    assert rs2[|rs|] == r;
  }

  /** Skipping a record the lookup rejects does not change its result. */
  lemma LookupSkip(rs: seq<Rec>, w: Widths, key: nat, size: nat, after: int, wantSize: bool)
    requires rs != [] && !Accepts(rs[0], w, key, size, after, wantSize)
    ensures Lookup(rs, w, key, size, after, wantSize) == Lookup(rs[1..], w, key, size, after, wantSize)
  {
  }

  /** The lookup on a chain whose first record r is at a: r when the lookup
      accepts it, otherwise the lookup on the rest of the chain. */
  lemma LookupStep(m: seq<byte>, w: Widths, a: int, end: int, key: nat, size: nat, after: int, wantSize: bool)
    requires w.Valid() && WellFormed(m, w, a, end)
    requires ReadField(m, a, w.len) != 0
    ensures var len := ReadField(m, a, w.len);
      var r := Rec(a, len, ReadField(m, a + w.len, w.key));
      Lookup(Records(m, w, a, end), w, key, size, after, wantSize) ==
        if Accepts(r, w, key, size, after, wantSize) then Some(r)
        else Lookup(Records(m, w, a + len, end), w, key, size, after, wantSize)
  {
    var len := ReadField(m, a, w.len);
    var r := Rec(a, len, ReadField(m, a + w.len, w.key));
    RecordsStep(m, w, a, end);
    LookupCons(r, Records(m, w, a + len, end), w, key, size, after, wantSize);
  }

  /** The lookup on records r, rest: r when the lookup accepts it, otherwise
      the lookup on rest. */
  lemma LookupCons(r: Rec, rest: seq<Rec>, w: Widths, key: nat, size: nat, after: int, wantSize: bool)
    ensures Lookup([r] + rest, w, key, size, after, wantSize) ==
      if Accepts(r, w, key, size, after, wantSize) then Some(r)
      else Lookup(rest, w, key, size, after, wantSize)
  {
    var rs := [r] + rest;
    assert rs[0] == r && rs[1..] == rest;
    if !Accepts(r, w, key, size, after, wantSize) {
      var i := FirstAccepted(rest, w, key, size, after, wantSize);
      assert FirstAccepted(rs, w, key, size, after, wantSize) == 1 + i;
      if i < |rest| {
        assert rs[1 + i] == rest[i];
      }
    }
  }

  /** A chain has no record at or after end - W_K: the loop bound of
      getRecordDataAddress stops no earlier than the sentinel. */
  lemma NoRecordNearEnd(m: seq<byte>, w: Widths, a: int, end: int)
    requires w.Valid() && WellFormed(m, w, a, end) && a >= end - w.key
    ensures ReadField(m, a, w.len) == 0 && Records(m, w, a, end) == []
  {
    var size := ReadField(m, a, w.len);
    assert size != 0 ==> w.Header() <= size && a + size + w.len <= end + 1;
  }

  /** The lookup as getRecordDataAddress performs it, straight off the bytes:
      walk the length fields from a while a key still fits before `end`, stop
      at a zero length, and take the first record the lookup accepts. */
  function ScanLookup(m: seq<byte>, w: Widths, a: int, end: int, key: nat, size: nat, after: int, wantSize: bool): (r: Option<Rec>)
    requires w.Valid() && 0 <= a && end < |m|
    ensures r.Some? ==> a <= r.value.at && r.value.at + w.len <= end + 1 && r.value.size > 0 &&
                        Accepts(r.value, w, key, size, after, wantSize)
    decreases end - a
  {
    if a >= end - w.key then None
    else
      var len := ReadField(m, a, w.len);
      if len == 0 then None
      else
        var r := Rec(a, len, ReadField(m, a + w.len, w.key));
        if Accepts(r, w, key, size, after, wantSize) then Some(r)
        else ScanLookup(m, w, a + len, end, key, size, after, wantSize)
  }

  /** On a well-formed chain the scan finds what the lookup over the records
      of the chain finds. */
  lemma {:induction false} ScanLookupIsLookup(m: seq<byte>, w: Widths, a: int, end: int, key: nat, size: nat, after: int, wantSize: bool)
    requires w.Valid() && WellFormed(m, w, a, end)
    ensures ScanLookup(m, w, a, end, key, size, after, wantSize) == Lookup(Records(m, w, a, end), w, key, size, after, wantSize)
    decreases end - a
  {
    if a >= end - w.key {
      NoRecordNearEnd(m, w, a, end);
    } else if ReadField(m, a, w.len) != 0 {
      LookupStep(m, w, a, end, key, size, after, wantSize);
      ScanLookupIsLookup(m, w, a + ReadField(m, a, w.len), end, key, size, after, wantSize);
    }
  }

  // ---------------------------------------------------------------------------
  // Writes to the medium

  /** m with the bytes bs written from address at on, first byte first. */
  function Overwrite(m: seq<byte>, at: int, bs: seq<byte>): (r: seq<byte>)
    requires 0 <= at && at + |bs| <= |m|
    ensures |r| == |m|
    ensures forall j :: 0 <= j < |m| ==> r[j] == if at <= j < at + |bs| then bs[j - at] else m[j]
    decreases |bs|
  {
    if bs == [] then m
    else Overwrite(m, at, bs[..|bs| - 1])[at + |bs| - 1 := bs[|bs| - 1]]
  }

  /** One byte write to the medium. */
  datatype Write = Write(addr: int, val: byte)

  /** The medium after the first k writes of ws, performed in order; a write
      outside the medium changes nothing. */
  function After(m: seq<byte>, ws: seq<Write>, k: nat): (r: seq<byte>)
    requires k <= |ws|
    ensures |r| == |m|
  {
    if k == 0 then m
    else
      var before := After(m, ws, k - 1);
      var last := ws[k - 1];
      if 0 <= last.addr < |m| then before[last.addr := last.val] else before
  }

  /** A byte none of the first k writes targets keeps its value. */
  lemma {:induction false} AfterUntouched(m: seq<byte>, ws: seq<Write>, k: nat, j: int)
    requires k <= |ws| && 0 <= j < |m|
    requires forall i :: 0 <= i < k ==> ws[i].addr != j
    ensures After(m, ws, k)[j] == m[j]
  {
    if k > 0 {
      AfterUntouched(m, ws, k - 1, j);
    }
  }

  /** A byte written by the i-th write and by none after it, up to the k-th,
      holds that write's value. */
  lemma {:induction false} AfterWritten(m: seq<byte>, ws: seq<Write>, k: nat, i: nat)
    requires i < k <= |ws| && 0 <= ws[i].addr < |m|
    requires forall i' :: i < i' < k ==> ws[i'].addr != ws[i].addr
    ensures After(m, ws, k)[ws[i].addr] == ws[i].val
  {
    if k - 1 > i {
      AfterWritten(m, ws, k - 1, i);
    }
  }

  /** The writes of a loop that stores data from address at on, first byte first. */
  function DataWrites(at: int, data: seq<byte>): (ws: seq<Write>)
    ensures |ws| == |data|
    ensures forall i :: 0 <= i < |data| ==> ws[i] == Write(at + i, data[i])
    decreases |data|
  {
    if data == [] then []
    else DataWrites(at, data[..|data| - 1]) + [Write(at + |data| - 1, data[|data| - 1])]
  }

  /** A stored field is one or two bytes wide. */
  predicate FieldBytes(bs: seq<byte>) {
    |bs| == 1 || |bs| == 2
  }

  /** The writes that store the bytes bs of a 1- or 2-byte field at address
      at: for a 2-byte field the high byte first, then the low byte. */
  function FieldWrites(at: int, bs: seq<byte>): (ws: seq<Write>)
    requires FieldBytes(bs)
    ensures |ws| == |bs|
  {
    if |bs| == 2 then [Write(at + 1, bs[1]), Write(at, bs[0])] else [Write(at, bs[0])]
  }

  // ---------------------------------------------------------------------------
  // Appending a record (addnewrecord)

  /** The fields of a new record as addnewrecord stores them: the length field
      l keeps the low bytes of the record's total length, k holds the key and
      z the zero length field of the new sentinel. */
  predicate Encodes(w: Widths, total: nat, key: nat, l: seq<byte>, k: seq<byte>, z: seq<byte>)
    requires w.Valid()
  {
    l == ToLE(total, w.len) && k == ToLE(key, w.key) && z == ToLE(0, w.len)
  }

  /** The writes addnewrecord issues to append a record at the sentinel s, in
      the order it issues them: the payload from its first byte on, the key,
      the new sentinel's length field, and the record's length field last. */
  function AppendWrites(s: int, l: seq<byte>, k: seq<byte>, data: seq<byte>, z: seq<byte>): (ws: seq<Write>)
    requires FieldBytes(l) && FieldBytes(k) && FieldBytes(z)
    ensures |ws| == |l| + |k| + |data| + |z|
  {
    var d := s + |l| + |k|;
    DataWrites(d, data) + FieldWrites(s + |l|, k) + FieldWrites(d + |data|, z) + FieldWrites(s, l)
  }

  /** Where the writes of addnewrecord land: every write before the length
      field lies after the old sentinel's first |l| bytes and inside the new
      record; the length field is written last, its high byte first. */
  lemma AppendWritesTargets(s: int, l: seq<byte>, k: seq<byte>, data: seq<byte>, z: seq<byte>)
    requires FieldBytes(l) && FieldBytes(k) && FieldBytes(z)
    ensures var ws := AppendWrites(s, l, k, data, z);
      (forall i :: 0 <= i < |ws| - |l| ==> s + |l| <= ws[i].addr < s + |ws|) &&
      ws[|ws| - 1] == Write(s, l[0]) &&
      (|l| == 2 ==> ws[|ws| - 2] == Write(s + 1, l[1]))
  {
    var d := s + |l| + |k|;
    var ws1 := DataWrites(d, data);
    var ws2 := FieldWrites(s + |l|, k);
    var ws3 := FieldWrites(d + |data|, z);
    var ws123 := ws1 + ws2 + ws3;
    assert forall i :: 0 <= i < |ws1| ==> d <= ws1[i].addr < d + |data|;
    assert forall i :: 0 <= i < |ws2| ==> s + |l| <= ws2[i].addr < d;
    assert forall i :: 0 <= i < |ws3| ==> d + |data| <= ws3[i].addr < d + |data| + |z|;
    forall i | 0 <= i < |ws123|
      ensures s + |l| <= ws123[i].addr < d + |data| + |z|
    {
      if i < |ws1| {
        assert ws123[i] == ws1[i];
      } else if i < |ws1| + |ws2| {
        assert ws123[i] == ws2[i - |ws1|];
      } else {
        assert ws123[i] == ws3[i - |ws1| - |ws2|];
      }
    }
  }

  /** The i-th write of AppendWrites, segment by segment. */
  function AppendWrite(s: int, l: seq<byte>, k: seq<byte>, data: seq<byte>, z: seq<byte>, i: int): Write
    requires FieldBytes(l) && FieldBytes(k) && FieldBytes(z)
    requires 0 <= i < |l| + |k| + |data| + |z|
  {
    var n := |data|;
    var d := s + |l| + |k|;
    if i < n then Write(d + i, data[i])
    else if i < n + |k| then FieldWrites(s + |l|, k)[i - n]
    else if i < n + |k| + |z| then FieldWrites(d + n, z)[i - n - |k|]
    else FieldWrites(s, l)[i - n - |k| - |z|]
  }

  lemma AppendWriteAt(s: int, l: seq<byte>, k: seq<byte>, data: seq<byte>, z: seq<byte>, i: int)
    requires FieldBytes(l) && FieldBytes(k) && FieldBytes(z)
    requires 0 <= i < |l| + |k| + |data| + |z|
    ensures AppendWrites(s, l, k, data, z)[i] == AppendWrite(s, l, k, data, z, i)
  {
    var d := s + |l| + |k|;
    var ws1 := DataWrites(d, data);
    var ws2 := FieldWrites(s + |l|, k);
    var ws3 := FieldWrites(d + |data|, z);
    var ws4 := FieldWrites(s, l);
    assert AppendWrites(s, l, k, data, z) == ws1 + ws2 + ws3 + ws4;
  }

  /** The address the i-th write of AppendWrites targets, for fields of nl,
      nk and nz bytes and an n-byte payload. */
  function AppendAddr(s: int, nl: nat, nk: nat, n: nat, nz: nat, i: int): int {
    var d := s + nl + nk;
    if i < n then d + i
    else if i < n + nk then (if nk == 2 && i == n then s + nl + 1 else s + nl)
    else if i < n + nk + nz then (if nz == 2 && i == n + nk then d + n + 1 else d + n)
    else (if nl == 2 && i == n + nk + nz then s + 1 else s)
  }

  lemma AppendWriteAddr(s: int, l: seq<byte>, k: seq<byte>, data: seq<byte>, z: seq<byte>, i: int)
    requires FieldBytes(l) && FieldBytes(k) && FieldBytes(z)
    requires 0 <= i < |l| + |k| + |data| + |z|
    ensures AppendWrites(s, l, k, data, z)[i].addr == AppendAddr(s, |l|, |k|, |data|, |z|, i)
  {
    AppendWriteAt(s, l, k, data, z, i);
  }

  /** No two writes of addnewrecord target the same byte, so the byte the
      i-th write targets ends up holding that write's value. */
  lemma AppendWriteFinal(m: seq<byte>, s: int, l: seq<byte>, k: seq<byte>, data: seq<byte>, z: seq<byte>, i: int, a: int, v: byte)
    requires FieldBytes(l) && FieldBytes(k) && FieldBytes(z)
    requires 0 <= s && s + |l| + |k| + |data| + |z| <= |m|
    requires 0 <= i < |l| + |k| + |data| + |z| && AppendWrite(s, l, k, data, z, i) == Write(a, v)
    ensures var ws := AppendWrites(s, l, k, data, z);
      After(m, ws, |ws|)[a] == v
  {
    var ws := AppendWrites(s, l, k, data, z);
    AppendWriteAt(s, l, k, data, z, i);
    AppendWriteAddr(s, l, k, data, z, i);
    forall i' | i < i' < |ws|
      ensures ws[i'].addr != a
    {
      AppendWriteAddr(s, l, k, data, z, i');
    }
    AfterWritten(m, ws, |ws|, i);
  }

  /** addnewrecord's writes leave every byte before the sentinel s alone. */
  lemma AppendedHead(m: seq<byte>, s: int, l: seq<byte>, k: seq<byte>, data: seq<byte>, z: seq<byte>)
    requires FieldBytes(l) && FieldBytes(k) && FieldBytes(z)
    requires 0 <= s && s + |l| + |k| + |data| + |z| <= |m|
    ensures var ws := AppendWrites(s, l, k, data, z);
      forall j :: 0 <= j < s ==> After(m, ws, |ws|)[j] == m[j]
  {
    AppendWritesTargets(s, l, k, data, z);
    forall j | 0 <= j < s
      ensures var ws := AppendWrites(s, l, k, data, z);
        After(m, ws, |ws|)[j] == m[j]
    {
      AfterUntouched(m, AppendWrites(s, l, k, data, z), |l| + |k| + |data| + |z|, j);
    }
  }

  /** addnewrecord's writes leave every byte after the new sentinel alone. */
  lemma AppendedTail(m: seq<byte>, s: int, l: seq<byte>, k: seq<byte>, data: seq<byte>, z: seq<byte>)
    requires FieldBytes(l) && FieldBytes(k) && FieldBytes(z)
    requires 0 <= s && s + |l| + |k| + |data| + |z| <= |m|
    ensures var ws := AppendWrites(s, l, k, data, z);
      forall j :: s + |ws| <= j < |m| ==> After(m, ws, |ws|)[j] == m[j]
  {
    AppendWritesTargets(s, l, k, data, z);
    forall j | s + |l| + |k| + |data| + |z| <= j < |m|
      ensures var ws := AppendWrites(s, l, k, data, z);
        After(m, ws, |ws|)[j] == m[j]
    {
      AfterUntouched(m, AppendWrites(s, l, k, data, z), |l| + |k| + |data| + |z|, j);
    }
  }

  /** addnewrecord's payload lands from s + |l| + |k| on. */
  lemma AppendedData(m: seq<byte>, s: int, l: seq<byte>, k: seq<byte>, data: seq<byte>, z: seq<byte>)
    requires FieldBytes(l) && FieldBytes(k) && FieldBytes(z)
    requires 0 <= s && s + |l| + |k| + |data| + |z| <= |m|
    ensures var ws := AppendWrites(s, l, k, data, z); var d := s + |l| + |k|;
      forall j :: d <= j < d + |data| ==> After(m, ws, |ws|)[j] == data[j - d]
  {
    var d := s + |l| + |k|;
    forall j | d <= j < d + |data|
      ensures var ws := AppendWrites(s, l, k, data, z);
        After(m, ws, |ws|)[j] == data[j - d]
    {
      AppendWriteFinal(m, s, l, k, data, z, j - d, j, data[j - d]);
    }
  }

  /** addnewrecord's length field lands at s. */
  lemma AppendedLength(m: seq<byte>, s: int, l: seq<byte>, k: seq<byte>, data: seq<byte>, z: seq<byte>)
    requires FieldBytes(l) && FieldBytes(k) && FieldBytes(z)
    requires 0 <= s && s + |l| + |k| + |data| + |z| <= |m|
    ensures var ws := AppendWrites(s, l, k, data, z);
      forall j :: s <= j < s + |l| ==> After(m, ws, |ws|)[j] == l[j - s]
  {
    forall j | s <= j < s + |l|
      ensures var ws := AppendWrites(s, l, k, data, z);
        After(m, ws, |ws|)[j] == l[j - s]
    {
      var first := |data| + |k| + |z|;
      var i := if |l| == 2 && j == s then first + 1 else first;
      AppendWriteFinal(m, s, l, k, data, z, i, j, l[j - s]);
    }
  }

  /** addnewrecord's key lands right after the length field. */
  lemma AppendedKey(m: seq<byte>, s: int, l: seq<byte>, k: seq<byte>, data: seq<byte>, z: seq<byte>)
    requires FieldBytes(l) && FieldBytes(k) && FieldBytes(z)
    requires 0 <= s && s + |l| + |k| + |data| + |z| <= |m|
    ensures var ws := AppendWrites(s, l, k, data, z);
      forall j :: s + |l| <= j < s + |l| + |k| ==> After(m, ws, |ws|)[j] == k[j - s - |l|]
  {
    forall j | s + |l| <= j < s + |l| + |k|
      ensures var ws := AppendWrites(s, l, k, data, z);
        After(m, ws, |ws|)[j] == k[j - s - |l|]
    {
      var first := |data|;
      var i := if |k| == 2 && j == s + |l| then first + 1 else first;
      AppendWriteFinal(m, s, l, k, data, z, i, j, k[j - s - |l|]);
    }
  }

  /** addnewrecord's new zero field lands right after the payload. */
  lemma AppendedZero(m: seq<byte>, s: int, l: seq<byte>, k: seq<byte>, data: seq<byte>, z: seq<byte>)
    requires FieldBytes(l) && FieldBytes(k) && FieldBytes(z)
    requires 0 <= s && s + |l| + |k| + |data| + |z| <= |m|
    ensures var ws := AppendWrites(s, l, k, data, z);
      var e := s + |l| + |k| + |data|;
      forall j :: e <= j < e + |z| ==> After(m, ws, |ws|)[j] == z[j - e]
  {
    var e := s + |l| + |k| + |data|;
    forall j | e <= j < e + |z|
      ensures var ws := AppendWrites(s, l, k, data, z);
        After(m, ws, |ws|)[j] == z[j - e]
    {
      var first := |data| + |k|;
      var i := if |z| == 2 && j == e then first + 1 else first;
      AppendWriteFinal(m, s, l, k, data, z, i, j, z[j - e]);
    }
  }

  /** Whether the region has room for a record with an n-byte payload at the
      sentinel, with a new sentinel after it. */
  ghost predicate HasRoom(m: seq<byte>, w: Widths, a: int, end: int, n: nat)
    requires w.Valid() && WellFormed(m, w, a, end)
  {
    SentinelOf(m, w, a, end) + n + 2 * w.len + w.key <= end + 1
  }

  /** Appending at the sentinel: once the bytes before the sentinel are as
      they were, the old sentinel's field reads the new record's total length,
      the next field its key, and the field after the record zero, the chain
      holds the old records followed by the new one, and ends after it. */
  lemma AppendExtendsChain(m: seq<byte>, m2: seq<byte>, w: Widths, a: int, end: int, s: int, total: nat, key: nat)
    requires w.Valid() && WellFormed(m, w, a, end) && |m2| == |m| && s == SentinelOf(m, w, a, end)
    requires w.Header() <= total && s + total + w.len <= end + 1
    requires forall j :: a <= j < s ==> m2[j] == m[j]
    requires ReadField(m2, s, w.len) == total && ReadField(m2, s + w.len, w.key) == key
    requires ReadField(m2, s + total, w.len) == 0
    ensures WellFormed(m2, w, a, end)
    ensures Records(m2, w, a, end) == Records(m, w, a, end) + [Rec(s, total, key)]
    ensures SentinelOf(m2, w, a, end) == s + total
  {
    SingleRecord(m2, w, s, end, total, key);
    ChainSplice(m, m2, w, a, end);
  }

  /** The medium once addnewrecord has put a record with fields l (length)
      and k (key) and payload data at s, followed by the field z (the new
      sentinel): those bytes, in that order, from s on. */
  function AppendImage(m: seq<byte>, s: int, l: seq<byte>, k: seq<byte>, data: seq<byte>, z: seq<byte>): (r: seq<byte>)
    requires 0 <= s && s + |l| + |k| + |data| + |z| <= |m|
    ensures |r| == |m|
  {
    Overwrite(m, s, l + k + data + z)
  }

  /** AppendImage changes no byte before s or after the new sentinel. */
  lemma ImageOutside(m: seq<byte>, s: int, l: seq<byte>, k: seq<byte>, data: seq<byte>, z: seq<byte>)
    requires FieldBytes(l) && FieldBytes(k) && FieldBytes(z)
    requires 0 <= s && s + |l| + |k| + |data| + |z| <= |m|
    ensures var r := AppendImage(m, s, l, k, data, z);
      forall j :: 0 <= j < |m| && (j < s || s + |l| + |k| + |data| + |z| <= j) ==> r[j] == m[j]
  {
  }

  /** AppendImage holds data as the payload of the record at s. */
  lemma ImageData(m: seq<byte>, s: int, l: seq<byte>, k: seq<byte>, data: seq<byte>, z: seq<byte>)
    requires FieldBytes(l) && FieldBytes(k) && FieldBytes(z)
    requires 0 <= s && s + |l| + |k| + |data| + |z| <= |m|
    ensures var r := AppendImage(m, s, l, k, data, z); var d := s + |l| + |k|;
      forall j :: d <= j < d + |data| ==> r[j] == data[j - d]
  {
  }

  /** AppendImage holds the length field l at s. */
  lemma ImageLength(m: seq<byte>, s: int, l: seq<byte>, k: seq<byte>, data: seq<byte>, z: seq<byte>)
    requires FieldBytes(l) && FieldBytes(k) && FieldBytes(z)
    requires 0 <= s && s + |l| + |k| + |data| + |z| <= |m|
    ensures var r := AppendImage(m, s, l, k, data, z);
      forall j :: s <= j < s + |l| ==> r[j] == l[j - s]
  {
  }

  /** AppendImage holds the key k after the length field. */
  lemma ImageKey(m: seq<byte>, s: int, l: seq<byte>, k: seq<byte>, data: seq<byte>, z: seq<byte>)
    requires FieldBytes(l) && FieldBytes(k) && FieldBytes(z)
    requires 0 <= s && s + |l| + |k| + |data| + |z| <= |m|
    ensures var r := AppendImage(m, s, l, k, data, z);
      forall j :: s + |l| <= j < s + |l| + |k| ==> r[j] == k[j - s - |l|]
  {
  }

  /** AppendImage holds the field z after the payload. */
  lemma ImageZero(m: seq<byte>, s: int, l: seq<byte>, k: seq<byte>, data: seq<byte>, z: seq<byte>)
    requires FieldBytes(l) && FieldBytes(k) && FieldBytes(z)
    requires 0 <= s && s + |l| + |k| + |data| + |z| <= |m|
    ensures var r := AppendImage(m, s, l, k, data, z);
      var e := s + |l| + |k| + |data|;
      forall j :: e <= j < e + |z| ==> r[j] == z[j - e]
  {
  }

  /** Performing the writes and AppendImage agree outside the new record and its sentinel. */
  lemma AfterImageOutside(m: seq<byte>, s: int, l: seq<byte>, k: seq<byte>, data: seq<byte>, z: seq<byte>, j: int)
    requires FieldBytes(l) && FieldBytes(k) && FieldBytes(z)
    requires 0 <= s && s + |l| + |k| + |data| + |z| <= |m|
    requires 0 <= j < |m| && (j < s || s + |l| + |k| + |data| + |z| <= j)
    ensures var ws := AppendWrites(s, l, k, data, z);
      After(m, ws, |ws|)[j] == AppendImage(m, s, l, k, data, z)[j]
  {
    AppendedHead(m, s, l, k, data, z);
    AppendedTail(m, s, l, k, data, z);
    ImageOutside(m, s, l, k, data, z);
  }

  /** Performing the writes and AppendImage agree on the length field. */
  lemma AfterImageLength(m: seq<byte>, s: int, l: seq<byte>, k: seq<byte>, data: seq<byte>, z: seq<byte>, j: int)
    requires FieldBytes(l) && FieldBytes(k) && FieldBytes(z)
    requires 0 <= s && s + |l| + |k| + |data| + |z| <= |m|
    requires s <= j < s + |l|
    ensures var ws := AppendWrites(s, l, k, data, z);
      After(m, ws, |ws|)[j] == AppendImage(m, s, l, k, data, z)[j]
  {
    AppendedLength(m, s, l, k, data, z);
    ImageLength(m, s, l, k, data, z);
  }

  /** Performing the writes and AppendImage agree on the key field. */
  lemma AfterImageKey(m: seq<byte>, s: int, l: seq<byte>, k: seq<byte>, data: seq<byte>, z: seq<byte>, j: int)
    requires FieldBytes(l) && FieldBytes(k) && FieldBytes(z)
    requires 0 <= s && s + |l| + |k| + |data| + |z| <= |m|
    requires s + |l| <= j < s + |l| + |k|
    ensures var ws := AppendWrites(s, l, k, data, z);
      After(m, ws, |ws|)[j] == AppendImage(m, s, l, k, data, z)[j]
  {
    AppendedKey(m, s, l, k, data, z);
    ImageKey(m, s, l, k, data, z);
  }

  /** Performing the writes and AppendImage agree on the payload. */
  lemma AfterImageData(m: seq<byte>, s: int, l: seq<byte>, k: seq<byte>, data: seq<byte>, z: seq<byte>, j: int)
    requires FieldBytes(l) && FieldBytes(k) && FieldBytes(z)
    requires 0 <= s && s + |l| + |k| + |data| + |z| <= |m|
    requires s + |l| + |k| <= j < s + |l| + |k| + |data|
    ensures var ws := AppendWrites(s, l, k, data, z);
      After(m, ws, |ws|)[j] == AppendImage(m, s, l, k, data, z)[j]
  {
    AppendedData(m, s, l, k, data, z);
    ImageData(m, s, l, k, data, z);
  }

  /** Performing the writes and AppendImage agree on the field after the payload. */
  lemma AfterImageZero(m: seq<byte>, s: int, l: seq<byte>, k: seq<byte>, data: seq<byte>, z: seq<byte>, j: int)
    requires FieldBytes(l) && FieldBytes(k) && FieldBytes(z)
    requires 0 <= s && s + |l| + |k| + |data| + |z| <= |m|
    requires s + |l| + |k| + |data| <= j < s + |l| + |k| + |data| + |z|
    ensures var ws := AppendWrites(s, l, k, data, z);
      After(m, ws, |ws|)[j] == AppendImage(m, s, l, k, data, z)[j]
  {
    AppendedZero(m, s, l, k, data, z);
    ImageZero(m, s, l, k, data, z);
  }

  /** Performing the writes of addnewrecord one by one ends in AppendImage:
      the order of the writes matters only to a reader that interrupts them. */
  lemma AppendImageIsAfter(m: seq<byte>, s: int, l: seq<byte>, k: seq<byte>, data: seq<byte>, z: seq<byte>)
    requires FieldBytes(l) && FieldBytes(k) && FieldBytes(z)
    requires 0 <= s && s + |l| + |k| + |data| + |z| <= |m|
    ensures var ws := AppendWrites(s, l, k, data, z);
      After(m, ws, |ws|) == AppendImage(m, s, l, k, data, z)
  {
    var ws := AppendWrites(s, l, k, data, z);
    var d := s + |l| + |k|;
    forall j | 0 <= j < |m|
      ensures After(m, ws, |ws|)[j] == AppendImage(m, s, l, k, data, z)[j]
    {
      if j < s || d + |data| + |z| <= j {
        AfterImageOutside(m, s, l, k, data, z, j);
      } else if j < s + |l| {
        AfterImageLength(m, s, l, k, data, z, j);
      } else if j < d {
        AfterImageKey(m, s, l, k, data, z, j);
      } else if j < d + |data| {
        AfterImageData(m, s, l, k, data, z, j);
      } else {
        AfterImageZero(m, s, l, k, data, z, j);
      }
    }
  }

  /** The length field of a record appended at s reads its total length. */
  lemma ImageReadsLength(m: seq<byte>, s: int, l: seq<byte>, k: seq<byte>, data: seq<byte>, z: seq<byte>, total: nat)
    requires FieldBytes(l) && FieldBytes(k) && FieldBytes(z)
    requires 0 <= s && s + |l| + |k| + |data| + |z| <= |m|
    requires Decodes(l, total)
    ensures ReadField(AppendImage(m, s, l, k, data, z), s, |l|) == total
  {
    ImageLength(m, s, l, k, data, z);
    ReadDecoded(AppendImage(m, s, l, k, data, z), s, l, total);
  }

  /** The key field of a record appended at s reads its key. */
  lemma ImageReadsKey(m: seq<byte>, s: int, l: seq<byte>, k: seq<byte>, data: seq<byte>, z: seq<byte>, key: nat)
    requires FieldBytes(l) && FieldBytes(k) && FieldBytes(z)
    requires 0 <= s && s + |l| + |k| + |data| + |z| <= |m|
    requires Decodes(k, key)
    ensures ReadField(AppendImage(m, s, l, k, data, z), s + |l|, |k|) == key
  {
    ImageKey(m, s, l, k, data, z);
    ReadDecoded(AppendImage(m, s, l, k, data, z), s + |l|, k, key);
  }

  /** The length field after a record appended at s reads zero. */
  lemma ImageReadsSentinel(m: seq<byte>, s: int, l: seq<byte>, k: seq<byte>, data: seq<byte>, z: seq<byte>)
    requires FieldBytes(l) && FieldBytes(k) && FieldBytes(z)
    requires 0 <= s && s + |l| + |k| + |data| + |z| <= |m|
    requires Decodes(z, 0)
    ensures ReadField(AppendImage(m, s, l, k, data, z), s + |l| + |k| + |data|, |z|) == 0
  {
    ImageZero(m, s, l, k, data, z);
    ReadDecoded(AppendImage(m, s, l, k, data, z), s + |l| + |k| + |data|, z, 0);
  }

  /** l, k and z are the length field, the key field and the zero length field
      of a record with the given total length and key, as the widths w store
      them. */
  predicate FieldsOf(w: Widths, total: nat, key: nat, l: seq<byte>, k: seq<byte>, z: seq<byte>) {
    |l| == w.len && |k| == w.key && |z| == w.len &&
    Decodes(l, total) && Decodes(k, key) && Decodes(z, 0)
  }

  /** addnewrecord on a well-formed chain with room: the chain holds the old
      records followed by the new one, at the old sentinel. */
  lemma AppendRecord(m: seq<byte>, w: Widths, a: int, end: int, key: nat, data: seq<byte>, l: seq<byte>, k: seq<byte>, z: seq<byte>)
    requires w.Valid() && WellFormed(m, w, a, end)
    requires FieldsOf(w, |data| + w.Header(), key, l, k, z)
    requires HasRoom(m, w, a, end, |data|)
    ensures var m2 := AppendImage(m, SentinelOf(m, w, a, end), l, k, data, z);
      WellFormed(m2, w, a, end) &&
      Records(m2, w, a, end) == Records(m, w, a, end) + [Rec(SentinelOf(m, w, a, end), |data| + w.Header(), key)]
  {
    var s := SentinelOf(m, w, a, end);
    var total := |data| + w.Header();
    AppendImageFields(m, w, s, a, key, data, total, l, k, z);
    AppendExtendsChain(m, AppendImage(m, s, l, k, data, z), w, a, end, s, total, key);
  }

  /** A record appended at s leaves the bytes from a up to s alone, and its
      fields read back its total length, its key and, after it, zero. */
  lemma AppendImageFields(m: seq<byte>, w: Widths, s: int, a: int, key: nat, data: seq<byte>, total: nat,
                           l: seq<byte>, k: seq<byte>, z: seq<byte>)
    requires w.Valid() && 0 <= a <= s && s + |data| + 2 * w.len + w.key <= |m|
    requires total == |data| + w.Header() && FieldsOf(w, total, key, l, k, z)
    ensures var m2 := AppendImage(m, s, l, k, data, z);
      (forall j :: a <= j < s ==> m2[j] == m[j]) &&
      ReadField(m2, s, w.len) == total && ReadField(m2, s + w.len, w.key) == key &&
      ReadField(m2, s + total, w.len) == 0
  {
    ImageOutside(m, s, l, k, data, z);
    ImageReadsLength(m, s, l, k, data, z, total);
    ImageReadsKey(m, s, l, k, data, z, key);
    ImageReadsSentinel(m, s, l, k, data, z);
    assert s + |l| + |k| + |data| == s + total;
  }

  /** A record at s followed by a zero length field is a chain of one record. */
  lemma SingleRecord(m: seq<byte>, w: Widths, s: int, end: int, total: nat, key: nat)
    requires w.Valid() && 0 <= s && w.Header() <= total && s + total + w.len <= end + 1 && end < |m|
    requires ReadField(m, s, w.len) == total && ReadField(m, s + w.len, w.key) == key
    requires ReadField(m, s + total, w.len) == 0
    ensures WellFormed(m, w, s, end)
    ensures Records(m, w, s, end) == [Rec(s, total, key)]
    ensures SentinelOf(m, w, s, end) == s + total
  {
    assert WellFormed(m, w, s + total, end);
    assert Records(m, w, s + total, end) == [];
  }

  // ---------------------------------------------------------------------------
  // addnewrecord's writes, stage by stage

  /** The overwritten bytes read back as written. */
  lemma OverwriteSlice(m: seq<byte>, at: int, bs: seq<byte>)
    requires 0 <= at && at + |bs| <= |m|
    ensures Overwrite(m, at, bs)[at..at + |bs|] == bs
  {
  }

  /** Overwriting one more byte extends the overwrite by that byte. */
  lemma OverwriteSnoc(m: seq<byte>, at: int, data: seq<byte>, i: nat)
    requires 0 <= at && i < |data| && at + |data| <= |m|
    ensures Overwrite(m, at, data[..i + 1]) == Overwrite(m, at, data[..i])[at + i := data[i]]
  {
    assert data[..i + 1][..i] == data[..i];
  }

  /** m after storing the 1- or 2-byte field bs at address at, the high byte
      first. */
  function StoreField(m: seq<byte>, at: int, bs: seq<byte>): (r: seq<byte>)
    requires FieldBytes(bs) && 0 <= at && at + |bs| <= |m|
    ensures |r| == |m|
  {
    if |bs| == 2 then m[at + 1 := bs[1]][at := bs[0]] else m[at := bs[0]]
  }

  /** Storing a field changes exactly the bytes of that field. */
  lemma StoreFieldAt(m: seq<byte>, at: int, bs: seq<byte>, j: int)
    requires FieldBytes(bs) && 0 <= at && at + |bs| <= |m| && 0 <= j < |m|
    ensures StoreField(m, at, bs)[j] == if at <= j < at + |bs| then bs[j - at] else m[j]
  {
  }

  /** m after the field writes of addnewrecord for a record at s with key
      `key` and an n-byte payload: the key, the zero length field after the
      payload, and the record's length field last. */
  function StoreFields(m: seq<byte>, w: Widths, s: int, key: nat, n: nat): (r: seq<byte>)
    requires w.Valid() && 0 <= s && s + n + 2 * w.len + w.key <= |m|
    ensures |r| == |m|
  {
    StoreField(StoreField(StoreField(m, s + w.len, ToLE(key, w.key)), s + w.len + w.key + n, ToLE(0, w.len)),
      s, ToLE(n + w.Header(), w.len))
  }

  /** m after addnewrecord has put a record with key `key` and payload data
      at s: the payload first, then the fields. */
  function Appended(m: seq<byte>, w: Widths, s: int, key: nat, data: seq<byte>): (r: seq<byte>)
    requires w.Valid() && 0 <= s && s + |data| + 2 * w.len + w.key <= |m|
    ensures |r| == |m|
  {
    StoreFields(Overwrite(m, s + w.len + w.key, data), w, s, key, |data|)
  }

  /** One byte of StoreFields: the byte of the length field, the key or
      the zero field that lands there, or the old byte. */
  lemma StoreFieldsAt(m: seq<byte>, w: Widths, s: int, key: nat, n: nat, j: int)
    requires w.Valid() && 0 <= s && s + n + 2 * w.len + w.key <= |m| && 0 <= j < |m|
    ensures var d := s + w.len + w.key; var e := d + n;
      StoreFields(m, w, s, key, n)[j] ==
        if s <= j < s + w.len then ToLE(n + w.Header(), w.len)[j - s]
        else if s + w.len <= j < d then ToLE(key, w.key)[j - s - w.len]
        else if e <= j < e + w.len then ToLE(0, w.len)[j - e]
        else m[j]
  {
    var d := s + w.len + w.key;
    var l, k, z := ToLE(n + w.Header(), w.len), ToLE(key, w.key), ToLE(0, w.len);
    var m2 := StoreField(m, s + w.len, k);
    var m3 := StoreField(m2, d + n, z);
    StoreFieldAt(m3, s, l, j);
    StoreFieldAt(m2, d + n, z, j);
    StoreFieldAt(m, s + w.len, k, j);
  }

  /** One byte of AppendImage for the fields the widths w give. */
  lemma ImageAt(m: seq<byte>, s: int, l: seq<byte>, k: seq<byte>, data: seq<byte>, z: seq<byte>, j: int)
    requires FieldBytes(l) && FieldBytes(k) && FieldBytes(z)
    requires 0 <= s && s + |l| + |k| + |data| + |z| <= |m| && 0 <= j < |m|
    ensures var d := s + |l| + |k|; var e := d + |data|;
      AppendImage(m, s, l, k, data, z)[j] ==
        if s <= j < s + |l| then l[j - s]
        else if s + |l| <= j < d then k[j - s - |l|]
        else if d <= j < e then data[j - d]
        else if e <= j < e + |z| then z[j - e]
        else m[j]
  {
    var d := s + |l| + |k|;
    if j < s || d + |data| + |z| <= j {
      ImageOutside(m, s, l, k, data, z);
    } else if j < s + |l| {
      ImageLength(m, s, l, k, data, z);
    } else if j < d {
      ImageKey(m, s, l, k, data, z);
    } else if j < d + |data| {
      ImageData(m, s, l, k, data, z);
    } else {
      ImageZero(m, s, l, k, data, z);
    }
  }

  /** addnewrecord leaves every byte before the old sentinel s as it was. */
  lemma AppendedBelow(m: seq<byte>, w: Widths, s: int, key: nat, data: seq<byte>, j: int)
    requires w.Valid() && 0 <= s && s + |data| + 2 * w.len + w.key <= |m| && 0 <= j < s
    ensures Appended(m, w, s, key, data)[j] == m[j]
  {
    StoreFieldsAt(Overwrite(m, s + w.len + w.key, data), w, s, key, |data|, j);
  }

  /** Byte j of the payload addnewrecord stores at s is byte j of data. */
  lemma AppendedPayloadAt(m: seq<byte>, w: Widths, s: int, key: nat, data: seq<byte>, j: int)
    requires w.Valid() && 0 <= s && s + |data| + 2 * w.len + w.key <= |m| && 0 <= j < |data|
    ensures Appended(m, w, s, key, data)[s + w.Header() + j] == data[j]
  {
    StoreFieldsAt(Overwrite(m, s + w.len + w.key, data), w, s, key, |data|, s + w.Header() + j);
  }

  /** Storing the payload and then the fields one after another gives the
      record laid out by AppendImage. */
  lemma AppendedIsImage(m: seq<byte>, w: Widths, s: int, key: nat, data: seq<byte>)
    requires w.Valid() && 0 <= s && s + |data| + 2 * w.len + w.key <= |m|
    ensures Appended(m, w, s, key, data) ==
      AppendImage(m, s, ToLE(|data| + w.Header(), w.len), ToLE(key, w.key), data, ToLE(0, w.len))
  {
    var a := Appended(m, w, s, key, data);
    var r := AppendImage(m, s, ToLE(|data| + w.Header(), w.len), ToLE(key, w.key), data, ToLE(0, w.len));
    forall j | 0 <= j < |m|
      ensures a[j] == r[j]
    {
      StoreFieldsAt(Overwrite(m, s + w.len + w.key, data), w, s, key, |data|, j);
      ImageAt(m, s, ToLE(|data| + w.Header(), w.len), ToLE(key, w.key), data, ToLE(0, w.len), j);
    }
  }

  // ---------------------------------------------------------------------------
  // updateRecord

  /** A record the lookup for an n-byte payload finds on a well-formed chain
      has an n-byte payload inside the medium, every byte of it a payload
      byte of the chain. */
  lemma LookupInPayloads(m: seq<byte>, w: Widths, a: int, end: int, key: nat, n: nat)
    requires w.Valid() && WellFormed(m, w, a, end)
    requires Lookup(Records(m, w, a, end), w, key, n, 0, false).Some?
    ensures var r := Lookup(Records(m, w, a, end), w, key, n, 0, false).value;
      r.PayloadSize(w) == n && 0 <= r.DataAddr(w) && r.DataAddr(w) + n <= |m| &&
      forall j :: r.DataAddr(w) <= j < r.DataAddr(w) + n ==> InPayloads(m, w, a, end, j)
  {
    var rs := Records(m, w, a, end);
    var i := FirstAccepted(rs, w, key, n, 0, false);
    RecordsShape(m, w, a, end);
    forall j | rs[i].DataAddr(w) <= j < rs[i].DataAddr(w) + n
      ensures InPayloads(m, w, a, end, j)
    {
      RecordPayloadInPayloads(m, w, a, end, i, j);
    }
  }

  /** A record the lookup for an n-byte payload finds on a well-formed chain
      ends, with room for the length field after it, before the end of the
      region. */
  lemma LookupBeforeEnd(m: seq<byte>, w: Widths, a: int, end: int, key: nat, n: nat)
    requires w.Valid() && WellFormed(m, w, a, end)
    requires Lookup(Records(m, w, a, end), w, key, n, 0, false).Some?
    ensures var r := Lookup(Records(m, w, a, end), w, key, n, 0, false).value;
      0 <= r.DataAddr(w) && r.DataAddr(w) + n + w.len <= end + 1
  {
    var rs := Records(m, w, a, end);
    var i := FirstAccepted(rs, w, key, n, 0, false);
    RecordsShape(m, w, a, end);
    assert Inside(m, w, a, SentinelOf(m, w, a, end), rs[i]);
  }

  /** The medium after updateRecord(key, data) with an accepted size on a
      well-formed chain from a: when the lookup finds a record with that key
      and an n-byte payload (n = |data|), its payload overwritten in place;
      otherwise, when the region has room, a new record appended at the
      sentinel; None when there is no room and updateRecord fails. */
  ghost function Updated(m: seq<byte>, w: Widths, a: int, end: int, key: nat, data: seq<byte>): (r: Option<seq<byte>>)
    requires w.Valid() && WellFormed(m, w, a, end)
    ensures r.Some? ==> |r.value| == |m|
  {
    var found := Lookup(Records(m, w, a, end), w, key, |data|, 0, false);
    if found.Some? then
      LookupInPayloads(m, w, a, end, key, |data|);
      Some(Overwrite(m, found.value.DataAddr(w), data))
    else if HasRoom(m, w, a, end, |data|) then
      Some(Appended(m, w, SentinelOf(m, w, a, end), key, data))
    else None
  }

  /** The chain from a is well formed and the lookup getRecordData and
      getRecordDataAddress perform for (key, |data|) finds a record whose
      payload is data. */
  ghost predicate HoldsRecord(m: seq<byte>, w: Widths, a: int, end: int, key: nat, data: seq<byte>)
    requires w.Valid()
  {
    WellFormed(m, w, a, end) &&
    var found := Lookup(Records(m, w, a, end), w, key, |data|, 0, false);
    found.Some? && 0 <= found.value.DataAddr(w) && found.value.DataAddr(w) + |data| <= |m| &&
    m[found.value.DataAddr(w)..found.value.DataAddr(w) + |data|] == data
  }

  /** updateRecord over an existing record: only its payload bytes change,
      to data, and the chain keeps the same records, so the lookup finds the
      same record again. */
  lemma UpdateInPlace(m: seq<byte>, w: Widths, a: int, end: int, key: nat, data: seq<byte>)
    requires w.Valid() && WellFormed(m, w, a, end)
    requires Lookup(Records(m, w, a, end), w, key, |data|, 0, false).Some?
    ensures var r := Lookup(Records(m, w, a, end), w, key, |data|, 0, false).value;
      var d := r.DataAddr(w);
      0 <= d && d + |data| <= |m| &&
      var m2 := Overwrite(m, d, data);
      WellFormed(m2, w, a, end) && Records(m2, w, a, end) == Records(m, w, a, end) &&
      m2[d..d + |data|] == data &&
      forall j :: 0 <= j < |m| && !(d <= j < d + |data|) ==> m2[j] == m[j]
  {
    var r := Lookup(Records(m, w, a, end), w, key, |data|, 0, false).value;
    var d := r.DataAddr(w);
    LookupInPayloads(m, w, a, end, key, |data|);
    OverwritePayload(m, w, a, end, d, data);
    OverwriteSlice(m, d, data);
  }

  /** Overwriting bytes that all lie in payloads keeps the chain. */
  lemma OverwritePayload(m: seq<byte>, w: Widths, a: int, end: int, d: int, data: seq<byte>)
    requires w.Valid() && WellFormed(m, w, a, end) && 0 <= d && d + |data| <= |m|
    requires forall j :: d <= j < d + |data| ==> InPayloads(m, w, a, end, j)
    ensures WellFormed(Overwrite(m, d, data), w, a, end)
    ensures Records(Overwrite(m, d, data), w, a, end) == Records(m, w, a, end)
  {
    PayloadFrame(m, Overwrite(m, d, data), w, a, end);
  }

  /** updateRecord when no record has that key and size: the chain holds the
      old records followed by a new one at the old sentinel, whose payload
      is data, and the lookup finds it. */
  lemma UpdateAppends(m: seq<byte>, w: Widths, a: int, end: int, key: nat, data: seq<byte>, s: int, total: nat)
    requires w.Valid() && WellFormed(m, w, a, end)
    requires key < Pow256(w.key) && |data| <= MaxPayload(w)
    requires Lookup(Records(m, w, a, end), w, key, |data|, 0, false).None?
    requires HasRoom(m, w, a, end, |data|)
    requires s == SentinelOf(m, w, a, end) && total == |data| + w.Header()
    ensures WellFormed(Appended(m, w, s, key, data), w, a, end)
    ensures Records(Appended(m, w, s, key, data), w, a, end) == Records(m, w, a, end) + [Rec(s, total, key)]
    ensures Lookup(Records(Appended(m, w, s, key, data), w, a, end), w, key, |data|, 0, false) == Some(Rec(s, total, key))
  {
    AppendedFields(m, w, s, a, key, data, total);
    AppendExtendsChain(m, Appended(m, w, s, key, data), w, a, end, s, total, key);
    LookupAppend(Records(m, w, a, end), Rec(s, total, key), w, key, |data|, 0, false);
  }

  /** The lookup finds the record at s, total bytes long, whose payload
      holds data. */
  lemma FoundHolds(m: seq<byte>, w: Widths, a: int, end: int, key: nat, data: seq<byte>, s: int, total: nat)
    requires w.Valid() && WellFormed(m, w, a, end)
    requires Lookup(Records(m, w, a, end), w, key, |data|, 0, false) == Some(Rec(s, total, key))
    requires 0 <= s && s + total <= |m| && total == |data| + w.Header()
    requires m[s + w.Header()..s + total] == data
    ensures HoldsRecord(m, w, a, end, key, data)
  {
    assert Rec(s, total, key).DataAddr(w) == s + w.Header();
  }

  /** A record appended at s by addnewrecord leaves the bytes from a up to s
      alone, and its fields read back its total length, its key and, after
      it, zero. */
  lemma AppendedFields(m: seq<byte>, w: Widths, s: int, a: int, key: nat, data: seq<byte>, total: nat)
    requires w.Valid() && 0 <= a <= s && s + |data| + 2 * w.len + w.key <= |m|
    requires key < Pow256(w.key) && total == |data| + w.Header() && total < Pow256(w.len)
    ensures var m2 := Appended(m, w, s, key, data);
      (forall j :: a <= j < s ==> m2[j] == m[j]) &&
      ReadField(m2, s, w.len) == total && ReadField(m2, s + w.len, w.key) == key &&
      ReadField(m2, s + total, w.len) == 0
  {
    var l, k, z := ToLE(total, w.len), ToLE(key, w.key), ToLE(0, w.len);
    ToLEDecodes(total, w.len);
    ToLEDecodes(key, w.key);
    ToLEDecodes(0, w.len);
    AppendedIsImage(m, w, s, key, data);
    AppendImageFields(m, w, s, a, key, data, total, l, k, z);
  }

  /** The payload of a record appended at s is data. */
  lemma AppendedPayload(m: seq<byte>, w: Widths, s: int, key: nat, data: seq<byte>, total: nat)
    requires w.Valid() && 0 <= s && s + |data| + 2 * w.len + w.key <= |m|
    requires total == |data| + w.Header()
    ensures Appended(m, w, s, key, data)[s + w.Header()..s + total] == data
  {
    var m2 := Appended(m, w, s, key, data);
    forall j | 0 <= j < |data|
      ensures m2[s + w.Header()..s + total][j] == data[j]
    {
      AppendedPayloadAt(m, w, s, key, data, j);
    }
  }

  /** Whenever updateRecord succeeds, the record it wrote is the one the
      lookup finds for (key, |data|), holding data. */
  lemma UpdateStores(m: seq<byte>, w: Widths, a: int, end: int, key: nat, data: seq<byte>)
    requires w.Valid() && WellFormed(m, w, a, end)
    requires key < Pow256(w.key) && |data| <= MaxPayload(w)
    requires Updated(m, w, a, end, key, data).Some?
    ensures HoldsRecord(Updated(m, w, a, end, key, data).value, w, a, end, key, data)
  {
    if Lookup(Records(m, w, a, end), w, key, |data|, 0, false).Some? {
      InPlaceStores(m, w, a, end, key, data);
    } else {
      AppendStores(m, w, a, end, key, data);
    }
  }

  /** UpdateStores when the lookup finds a record to overwrite. */
  lemma InPlaceStores(m: seq<byte>, w: Widths, a: int, end: int, key: nat, data: seq<byte>)
    requires w.Valid() && WellFormed(m, w, a, end)
    requires Lookup(Records(m, w, a, end), w, key, |data|, 0, false).Some?
    ensures Updated(m, w, a, end, key, data).Some?
    ensures HoldsRecord(Updated(m, w, a, end, key, data).value, w, a, end, key, data)
  {
    var found := Lookup(Records(m, w, a, end), w, key, |data|, 0, false);
    LookupInPayloads(m, w, a, end, key, |data|);
    InPlaceHolds(m, Updated(m, w, a, end, key, data).value, w, a, end, key, data, found.value);
  }

  /** UpdateStores when updateRecord appends. */
  lemma AppendStores(m: seq<byte>, w: Widths, a: int, end: int, key: nat, data: seq<byte>)
    requires w.Valid() && WellFormed(m, w, a, end)
    requires key < Pow256(w.key) && |data| <= MaxPayload(w)
    requires Lookup(Records(m, w, a, end), w, key, |data|, 0, false).None?
    requires Updated(m, w, a, end, key, data).Some?
    ensures HoldsRecord(Updated(m, w, a, end, key, data).value, w, a, end, key, data)
  {
    var s := SentinelOf(m, w, a, end);
    assert Updated(m, w, a, end, key, data).value == Appended(m, w, s, key, data);
    AppendHolds(m, w, a, end, key, data, s);
  }

  /** After updateRecord overwrites the payload of the record r the lookup
      found, the lookup finds r again, holding data. */
  lemma InPlaceHolds(m: seq<byte>, m2: seq<byte>, w: Widths, a: int, end: int, key: nat, data: seq<byte>, r: Rec)
    requires w.Valid() && WellFormed(m, w, a, end)
    requires Lookup(Records(m, w, a, end), w, key, |data|, 0, false) == Some(r)
    requires 0 <= r.DataAddr(w) && r.DataAddr(w) + |data| <= |m| && m2 == Overwrite(m, r.DataAddr(w), data)
    ensures HoldsRecord(m2, w, a, end, key, data)
  {
    UpdateInPlace(m, w, a, end, key, data);
    FoundAt(m2, w, a, end, key, data, r);
  }

  /** The lookup finds r, whose payload holds data. */
  lemma FoundAt(m: seq<byte>, w: Widths, a: int, end: int, key: nat, data: seq<byte>, r: Rec)
    requires w.Valid() && WellFormed(m, w, a, end)
    requires Lookup(Records(m, w, a, end), w, key, |data|, 0, false) == Some(r)
    requires 0 <= r.DataAddr(w) && r.DataAddr(w) + |data| <= |m| && m[r.DataAddr(w)..r.DataAddr(w) + |data|] == data
    ensures HoldsRecord(m, w, a, end, key, data)
  {
  }

  /** The record updateRecord appends is the one the lookup finds. */
  lemma AppendHolds(m: seq<byte>, w: Widths, a: int, end: int, key: nat, data: seq<byte>, s: int)
    requires w.Valid() && WellFormed(m, w, a, end)
    requires key < Pow256(w.key) && |data| <= MaxPayload(w)
    requires Lookup(Records(m, w, a, end), w, key, |data|, 0, false).None?
    requires HasRoom(m, w, a, end, |data|) && s == SentinelOf(m, w, a, end)
    ensures HoldsRecord(Appended(m, w, s, key, data), w, a, end, key, data)
  {
    var total := |data| + w.Header();
    UpdateAppends(m, w, a, end, key, data, s, total);
    AppendedPayload(m, w, s, key, data, total);
    FoundHolds(Appended(m, w, s, key, data), w, a, end, key, data, s, total);
  }

  // ---------------------------------------------------------------------------
  // Interrupted appends

  /** A zero length field holds zero bytes. */
  lemma ZeroFieldBytes(m: seq<byte>, at: int, width: nat)
    requires width == 1 || width == 2
    requires 0 <= at && at + width <= |m|
    requires ReadField(m, at, width) == 0
    ensures m[at] == 0 && (width == 2 ==> m[at + 1] == 0)
  {
  }

  /** Bytes in [lo, hi) keep their values through the first n writes when
      every one of those writes that lands there stores the value already
      there. */
  lemma {:induction false} AfterAgrees(m: seq<byte>, ws: seq<Write>, n: nat, lo: int, hi: int)
    requires n <= |ws| && 0 <= lo && hi <= |m|
    requires forall i :: 0 <= i < n && lo <= ws[i].addr < hi ==> ws[i].val == m[ws[i].addr]
    ensures forall j :: lo <= j < hi ==> After(m, ws, n)[j] == m[j]
  {
    if n > 0 {
      AfterAgrees(m, ws, n - 1, lo, hi);
    }
  }

  /** The first n writes of addnewrecord leave every byte before s + |l| as
      it was, while they stay clear of the length field at s, or when the
      only one to reach it is the high-byte write and stores the byte already
      there. */
  lemma AppendPrefixKeepsHead(m: seq<byte>, s: int, l: seq<byte>, k: seq<byte>, data: seq<byte>, z: seq<byte>, n: nat)
    requires FieldBytes(l) && FieldBytes(k) && FieldBytes(z)
    requires 0 <= s && s + |l| <= |m|
    requires var ws := AppendWrites(s, l, k, data, z);
      n < |ws| && (n <= |ws| - |l| || l[1] == m[s + 1])
    ensures forall j :: 0 <= j < s + |l| ==> After(m, AppendWrites(s, l, k, data, z), n)[j] == m[j]
  {
    AppendWritesTargets(s, l, k, data, z);
    AfterAgrees(m, AppendWrites(s, l, k, data, z), n, 0, s + |l|);
  }

  /** The high byte of the 2-byte encoding of a total below 256 is zero. */
  lemma SmallHighByte(total: nat, l: seq<byte>)
    requires total < 256 && l == ToLE(total, 2)
    ensures l[1] == 0
  {
    assert total / 256 == 0;
  }

  /** Interrupting addnewrecord after its first n writes leaves the chain
      exactly as it was, for every n before the low byte of the length field
      is written, as long as the length field is not yet touched or the record
      is shorter than 256 bytes: with 2-byte length fields the high byte goes
      first, and it is then the zero already there. */
  lemma CrashBeforeCommit(m: seq<byte>, w: Widths, a: int, end: int, key: nat, data: seq<byte>,
                          l: seq<byte>, k: seq<byte>, z: seq<byte>, n: nat)
    requires w.Valid() && WellFormed(m, w, a, end)
    requires Encodes(w, |data| + w.Header(), key, l, k, z)
    requires var ws := AppendWrites(SentinelOf(m, w, a, end), l, k, data, z);
      n < |ws| && (n <= |ws| - w.len || |data| + w.Header() < 256)
    ensures var ws := AppendWrites(SentinelOf(m, w, a, end), l, k, data, z);
      WellFormed(After(m, ws, n), w, a, end) &&
      Records(After(m, ws, n), w, a, end) == Records(m, w, a, end)
  {
    var s := SentinelOf(m, w, a, end);
    ZeroFieldBytes(m, s, w.len);
    if w.len == 2 && |data| + w.Header() < 256 {
      SmallHighByte(|data| + w.Header(), l);
    }
    AppendPrefixKeepsHead(m, s, l, k, data, z, n);
    ChainFrame(m, After(m, AppendWrites(s, l, k, data, z), n), w, a, end);
  }

  /** Between the two writes of a 2-byte length field at s that held zero,
      its low byte is still zero and its high byte is the new one. */
  lemma AppendTornField(m: seq<byte>, s: int, l: seq<byte>, k: seq<byte>, data: seq<byte>, z: seq<byte>)
    requires |l| == 2 && FieldBytes(k) && FieldBytes(z)
    requires 0 <= s && s + 2 <= |m| && m[s] == 0
    ensures var ws := AppendWrites(s, l, k, data, z);
      After(m, ws, |ws| - 1)[s] == 0 && After(m, ws, |ws| - 1)[s + 1] == l[1]
  {
    var ws := AppendWrites(s, l, k, data, z);
    AppendWritesTargets(s, l, k, data, z);
    AfterAgrees(m, ws, |ws| - 1, s, s + 1);
    AfterWritten(m, ws, |ws| - 1, |ws| - 2);
  }

  /** With 2-byte length fields and a record of 256 bytes or more, the state
      between the two length-field writes is visible: the old sentinel then
      reads as a non-zero length made of the high byte alone. */
  lemma TornLengthField(m: seq<byte>, w: Widths, a: int, end: int, key: nat, data: seq<byte>,
                        l: seq<byte>, k: seq<byte>, z: seq<byte>)
    requires w.Valid() && w.len == 2 && WellFormed(m, w, a, end)
    requires 256 <= |data| + w.Header() < Pow256(w.len)
    requires Encodes(w, |data| + w.Header(), key, l, k, z)
    ensures var s := SentinelOf(m, w, a, end);
      var ws := AppendWrites(s, l, k, data, z);
      ReadField(After(m, ws, |ws| - 1), s, 2) == (|data| + w.Header()) / 256 * 256 != 0
  {
    var s := SentinelOf(m, w, a, end);
    var total := |data| + w.Header();
    assert l == ToLE(total, 2) && |k| == w.key && |z| == 2;
    ZeroFieldBytes(m, s, 2);
    AppendTornField(m, s, l, k, data, z);
    var ws := AppendWrites(s, l, k, data, z);
    HighByteOnly(After(m, ws, |ws| - 1), s, total, l);
  }

  /** A 2-byte field whose low byte is zero and whose high byte is that of
      the encoding of a total of 256 or more reads as that total with its low
      byte cleared, which is not zero. */
  lemma HighByteOnly(m: seq<byte>, at: int, total: nat, l: seq<byte>)
    requires 0 <= at && at + 2 <= |m|
    requires 256 <= total < 65536
    requires l == ToLE(total, 2) && m[at] == 0 && m[at + 1] == l[1]
    ensures ReadField(m, at, 2) == total / 256 * 256 != 0
  {
    var hi := total / 256;
    assert 1 <= hi < 256;
    assert l[1] == hi % 256;
  }

  // ---------------------------------------------------------------------------
  // The allocation scan of addnewrecord

  /** Where the allocation scan stops, from a: Some address of the first zero
      length field it reads, or of the first address at or past `end` it steps
      onto; None when a record would run past `end`. */
  function ScanEnd(m: seq<byte>, w: Widths, a: int, end: int): (r: Option<int>)
    requires w.Valid() && 0 <= a && end < |m|
    ensures r.Some? ==> a <= r.value && (r.value < end ==> ReadField(m, r.value, w.len) == 0)
    ensures r.Some? && a <= end ==> r.value <= end
    decreases end - a
  {
    if a >= end then Some(a)
    else
      var size := ReadField(m, a, w.len);
      if size == 0 then Some(a)
      else if size + a > end then None
      else ScanEnd(m, w, a + size, end)
  }

  /** On a well-formed chain the allocation scan stops at the sentinel. */
  lemma {:induction false} ScanEndIsSentinel(m: seq<byte>, w: Widths, a: int, end: int)
    requires w.Valid() && WellFormed(m, w, a, end)
    ensures ScanEnd(m, w, a, end) == Some(SentinelOf(m, w, a, end))
    decreases end - a
  {
    var size := ReadField(m, a, w.len);
    if size != 0 {
      ScanEndIsSentinel(m, w, a + size, end);
    }
  }

  // ---------------------------------------------------------------------------
  // The region header (begin)

  const C: byte := 0x43
  const A: byte := 0x41
  const S: byte := 0x53

  /** Bytes start+1 .. start+3 hold "CAS": begin's test for a formatted region. */
  predicate HeaderAt(m: seq<byte>, start: int)
    requires 0 <= start && start + 4 <= |m|
  {
    m[start + 1] == C && m[start + 2] == A && m[start + 3] == S
  }

  /** m after begin's five writes from s: "CAS" and a zero 2-byte length
      field. */
  function WriteHeader(m: seq<byte>, s: int): (r: seq<byte>)
    requires 0 <= s && s + 5 <= |m|
    ensures |r| == |m|
  {
    m[s := C][s + 1 := A][s + 2 := S][s + 3 := 0][s + 4 := 0]
  }

  /** The medium after begin(start, ...): unchanged on a formatted region;
      otherwise "CAS" and two zero bytes are written from start + 1 when byte
      start + 1 already holds 'C', and from start itself when it does not. */
  function BeginImage(m: seq<byte>, start: int): (r: seq<byte>)
    requires 0 <= start && start + 6 <= |m|
    ensures |r| == |m|
  {
    if HeaderAt(m, start) then m
    else if m[start + 1] != C then WriteHeader(m, start)
    else WriteHeader(m, start + 1)
  }

  /** begin leaves a formatted region alone, and otherwise writes only bytes
      start .. start+5 and zeroes the first length byte at start + 4. */
  lemma BeginWrites(m: seq<byte>, start: int)
    requires 0 <= start && start + 6 <= |m|
    ensures HeaderAt(m, start) ==> BeginImage(m, start) == m
    ensures !HeaderAt(m, start) ==> BeginImage(m, start)[start + 4] == 0
    ensures forall j :: 0 <= j < |m| && !(start <= j < start + 6) ==> BeginImage(m, start)[j] == m[j]
  {
  }

  /** When begin formats a region, the chain it leaves at start + 4 is empty,
      except on a region whose byte start + 1 was not 'C' with 2-byte length
      fields: there the byte start + 5 is left as it was. */
  lemma BeginFormatsEmptyChain(m: seq<byte>, w: Widths, start: int, end: int)
    requires w.Valid() && 0 <= start && start + 6 <= end < |m|
    requires !HeaderAt(m, start)
    requires w.len == 1 || m[start + 1] == C
    ensures WellFormed(BeginImage(m, start), w, start + 4, end)
    ensures Records(BeginImage(m, start), w, start + 4, end) == []
  {
    var m2 := BeginImage(m, start);
    assert m2[start + 4] == 0;
    assert w.len == 2 ==> m2[start + 5] == 0;
  }

  /** On a region whose byte start + 1 is not 'C' (an erased EEPROM holds 0xFF
      there), begin writes "CAS" from start, so its own header test fails on the
      next begin: whatever was stored from start + 4 on, as long as bytes
      start .. start+3 were left alone, the next begin formats again and zeroes
      the first length byte. */
  lemma BeginFormatsAgain(m: seq<byte>, later: seq<byte>, start: int)
    requires 0 <= start && start + 6 <= |m| && |later| == |m|
    requires !HeaderAt(m, start) && m[start + 1] != C
    requires later[start..start + 4] == BeginImage(m, start)[start..start + 4]
    ensures !HeaderAt(later, start)
    ensures BeginImage(later, start)[start + 4] == 0
  {
    assert later[start + 1] == A;
  }

  /** With 1-byte length fields this empties the chain at every begin: once
      begin has formatted a region whose byte start + 1 was not 'C', the next
      begin leaves a well-formed chain with no records, whatever records were
      added in between, as long as bytes start .. start+3 were left alone. */
  lemma BeginEmptiesChainAgain(m: seq<byte>, later: seq<byte>, w: Widths, start: int, end: int)
    requires w.Valid() && w.len == 1 && 0 <= start && start + 6 <= end < |m| && |later| == |m|
    requires !HeaderAt(m, start) && m[start + 1] != C
    requires later[start..start + 4] == BeginImage(m, start)[start..start + 4]
    ensures WellFormed(BeginImage(later, start), w, start + 4, end)
    ensures Records(BeginImage(later, start), w, start + 4, end) == []
  {
    BeginFormatsAgain(m, later, start);
    assert ReadField(BeginImage(later, start), start + 4, 1) == 0;
  }
}

# EERecordSystem in Dafny

EERecordSystem keeps keyed records in an EEPROM region as a log. The region
starts with a four-byte header; bytes 1 to 3 of it hold "CAS". Records follow
the header, packed one after another. Each record is laid out as
`[length | key | payload]`:

- the length field is `W_L` bytes wide (`sizeof(T_datasize)`, 1 or 2) and
  holds the record's total length;
- the key is `W_K` bytes wide (`sizeof(T_key)`, 1 or 2);
- both fields are little-endian.

The chain ends at the first length field that reads zero, the sentinel.
Operations:

- `begin` formats the region when the header is missing.
- `getRecordDataAddress` walks the chain for a key and payload size.
- `getRecordData` and `updateRecord` read a record's payload, or rewrite it
  in place.
- `addnewrecord` appends at the sentinel. It writes the length field last,
  so an interrupted append leaves the chain as it was
  (`CrashBeforeCommit`). This holds with 1-byte length fields, and with
  2-byte length fields for records under 256 bytes. A 2-byte length field is
  written high byte first. For a record of 256 bytes or more, the state
  between its two writes reads as the non-zero length `(total / 256) * 256`
  (`TornLengthField`). A reader interrupting there sees a record that was
  never written.

On top of the records sit ID lists. A list is the set of records whose key
is the list key, read as 4-byte slots holding 32-bit identifiers. A free
slot holds 0xFFFFFFFF. `idop` serves four list operations:

- query and delete compare slots under a mask;
- enumerate hands every slot that is not free to a callback;
- add fills the first free slot, or appends a record of three slots.

The model has five modules:

- `LittleEndian` and `Words`: fields and identifiers as bytes.
- `RecordChain`: the chain of records as a function of the bytes; the
  lookup; the append, with its write order and what an interrupted append
  leaves; the update; the begin image.
- `IdLists`: the slots of a list; the masked match; the enumeration, delete
  and add images; `ListResult`, idop's result as a function.
- `ListAdd`: the add path of idop, by case.
- `EERecordSystem`: the class `RecordSystem`. The EEPROM is an
  `array<byte>` and `began`, `startingAddress` and `endingAddress` are
  fields. Every operation is a method proved against the functions above.

Behaviour kept as the code does it:

- **`begin`'s `s -= 2`.** When byte `start+1` is not 'C', the header goes to
  `start .. start+4` instead of `start+1 .. start+5`. The next `begin` then
  fails its own test and formats again (`BeginFormatsAgain`). So does
  every later `begin`, each zeroing byte `start+4`, the low byte of the
  first record's length field. With 1-byte length fields every `begin`
  therefore empties the chain, losing every record stored since
  (`BeginEmptiesChainAgain`). With 2-byte length fields, byte `start+5` is
  left unwritten.
- **An add that reuses a free slot reports false.**
- **Delete writes 0xFF.** The comment above `deleteListEntry` says a deleted
  entry is set to zero, but the code writes 0xFF to each byte. The model
  follows the code.
- **Payload order.** The payload is written first byte first. The comment
  above that loop says "last byte to first byte".
- **Size-0 lookups.** A lookup with `datasize == 0` and no out-pointer
  matches only records with an empty payload.
- **Size out-pointer.** The size reported through the out-pointer is stored
  into a `T_datasize`, which truncates it (`Truncate`).

## Model

| member | source | states |
|---|---|---|
| LittleEndian.ReadField | src/EERecordSystem.h:158-168 | a 1- or 2-byte little-endian field read from the medium is below 256^w |
| LittleEndian.ToLEDecodes | src/EERecordSystem.h:244-251 | a value below 256^w stored low byte first decodes back to itself |
| LittleEndian.ReadDecoded | src/EERecordSystem.h:180-181 | once a field's bytes hold an encoding of x, reading the field gives x |
| LittleEndian.Truncate | src/EERecordSystem.h:190 | storing the size into a T_datasize keeps a value below 256^W_L, unchanged when it fits |
| Words.MaskedBytewise | src/EERecordSystem.h:296-304 | comparing a slot with id under the mask byte by byte is the same as comparing the masked 32-bit words |
| Words.AgreeImpliesMaskedEqual | src/EERecordSystem.h:296-304 | four agreeing bytes make the masked words equal |
| Words.MaskedEqualImpliesAgree | src/EERecordSystem.h:296-304 | equal masked words agree on every byte |
| RecordChain.MaxPayload | src/EERecordSystem.h:141 | the largest payload updateRecord accepts still leaves a total record length that fits a length field |
| RecordChain.SentinelOf | src/EERecordSystem.h:178-182 | the chain ends at a length field that reads zero, inside the region |
| RecordChain.RecordsShape | src/EERecordSystem.h:178-197 | every record of the chain carries the length and key stored at its address, is at least a header long and ends before the sentinel; the chain is empty exactly when the first length reads zero |
| RecordChain.RecordsOrdered | src/EERecordSystem.h:197 | the records of a well-formed chain follow one another without overlapping |
| RecordChain.FirstAccepted | src/EERecordSystem.h:179-199 | the lookup returns the first accepted record: every record before it is rejected |
| RecordChain.ScanLookup | src/EERecordSystem.h:175-201 | a record found by the scan lies in the region, after startWhere, with the requested key and size |
| RecordChain.ScanLookupIsLookup | src/EERecordSystem.h:175-201 | on a well-formed chain the byte-level scan finds exactly what the lookup over the chain's records finds |
| RecordChain.NoRecordNearEnd | src/EERecordSystem.h:179 | no record starts at or after end - W_K, so the scan's loop bound never cuts a chain short |
| RecordChain.LookupAppend | src/EERecordSystem.h:184-195 | adding an accepted record behind records the lookup rejects makes the lookup find the new record |
| RecordChain.ScanEnd | src/EERecordSystem.h:212-219 | addnewrecord's scan stops at a zero length field or at the region end, or fails when a record runs past the end |
| RecordChain.ScanEndIsSentinel | src/EERecordSystem.h:212-219 | on a well-formed chain addnewrecord's scan stops exactly at the sentinel |
| RecordChain.AppendWrites | src/EERecordSystem.h:241-251 | addnewrecord issues one write per payload byte, key byte and field byte, in that order |
| RecordChain.AppendWritesTargets | src/EERecordSystem.h:241-251 | every write but the length field lands after the old sentinel's length bytes and inside the new record; the length field is written last, high byte first |
| RecordChain.AppendImageIsAfter | src/EERecordSystem.h:241-251 | performing the writes one by one ends in the laid-out record image: order matters only to an interrupted append |
| RecordChain.AppendedIsImage | src/EERecordSystem.h:241-251 | writing the payload and then the fields gives the record laid out at the sentinel |
| RecordChain.AppendExtendsChain | src/EERecordSystem.h:235-251 | bytes before the sentinel kept, the old sentinel rewritten with a record's length and key and a zero after it: the chain is the old records plus the new one |
| RecordChain.AppendRecord | src/EERecordSystem.h:229-251 | an append with room leaves a well-formed chain: the old records followed by the new record at the old sentinel, with the sentinel moved behind it |
| RecordChain.CrashBeforeCommit | src/EERecordSystem.h:206-207 | interrupting addnewrecord before the low byte of the length field is written leaves the chain unchanged (with 2-byte lengths: for records under 256 bytes, or before the length field is touched) |
| RecordChain.TornLengthField | src/EERecordSystem.h:250-251 | with 2-byte lengths and a record of 256 bytes or more, the state between the two length writes reads as a non-zero length |
| RecordChain.UpdateInPlace | src/EERecordSystem.h:143-152 | overwriting the found record's payload keeps the chain's records, and the lookup finds the same record again |
| RecordChain.UpdateAppends | src/EERecordSystem.h:143-147 | when no record has the key and size, the appended record ends the chain and the lookup finds it |
| RecordChain.UpdateStores | src/EERecordSystem.h:138-153 | whenever updateRecord succeeds, the lookup for (key, size) finds a record holding exactly the data written |
| RecordChain.BeginWrites | src/EERecordSystem.h:93-109 | begin leaves a formatted region alone and otherwise writes only bytes start .. start+5, zeroing byte start+4 |
| RecordChain.BeginFormatsEmptyChain | src/EERecordSystem.h:93-109 | after begin formats a region the chain from start+4 is well formed and empty (except the 2-byte-length case where byte start+5 is not written) |
| RecordChain.BeginFormatsAgain | src/EERecordSystem.h:98-106 | after formatting a region whose byte start+1 was not 'C', the next begin finds no header and formats again |
| RecordChain.BeginEmptiesChainAgain | src/EERecordSystem.h:98-108 | with 1-byte length fields, every begin after such a format leaves an empty chain, whatever was stored in between |
| IdLists.PayloadSlots | src/EERecordSystem.h:285-320 | an n-byte payload holds n / 4 slots, 4 bytes apart from its first byte |
| IdLists.ListSlotsShape | src/EERecordSystem.h:278-323 | the slots of a list lie in the medium, in address order without overlap, each inside a payload of the chain before the sentinel |
| IdLists.ListSlotsAscending | src/EERecordSystem.h:278-323 | a list's slots follow each other in address order |
| IdLists.WalkSlotsIsListSlots | src/EERecordSystem.h:278-323 | the slots idop's walk gathers record by record are exactly the list's slots over the chain |
| IdLists.FreeIsTombstone | src/EERecordSystem.h:314 | a slot is free exactly when its value is 0xFFFFFFFF |
| IdLists.MatchesMasked | src/EERecordSystem.h:296-304 | idop's byte-by-byte test is the masked comparison of the slot's value with id |
| IdLists.FullMaskMatch | src/EERecordSystem.h:359 | under the full mask a slot matches exactly the id it holds |
| IdLists.FreeMatches | src/EERecordSystem.h:305-315 | a free slot matches exactly when 0xFFFFFFFF itself matches id under the mask |
| IdLists.LiveNoTombstone | src/EERecordSystem.h:314-319 | no value an enumeration hands over is 0xFFFFFFFF |
| IdLists.FirstFree | src/EERecordSystem.h:314-315 | the index returned is a free slot and no earlier slot is free; none returned means no slot is free |
| IdLists.DeleteImage | src/EERecordSystem.h:305-312 | after a delete a byte is 0xFF when it lies in a matching slot, and keeps its value otherwise |
| IdLists.DeletedSlot | src/EERecordSystem.h:305-312 | after a delete a matching slot is free and every other slot keeps its bytes |
| IdLists.DeleteThenQuery | src/EERecordSystem.h:305-312 | after a delete, a query with the same id and mask matches exactly when something matched and 0xFFFFFFFF itself matches |
| IdLists.DeleteThenEnumerate | src/EERecordSystem.h:305-319 | the enumeration after a delete is the one before with exactly the matching entries removed, order kept |
| IdLists.DeleteKeepsChain | src/EERecordSystem.h:305-312 | a delete rewrites only slot bytes, so the chain of records is unchanged |
| IdLists.ReuseFreeSlot | src/EERecordSystem.h:329-333 | storing id in a free slot makes a full-mask query find it and puts id in that slot's place in the enumeration |
| IdLists.AddReusesFreeSlot | src/EERecordSystem.h:327-333 | an add into the first free slot keeps the chain and the list's slots; id is then found, and it enters the enumeration in that slot's place |
| IdLists.AddAppendsGroup | src/EERecordSystem.h:334-341 | the appended 12-byte record adds three slots at the end of the list; id is then found, and the enumeration is the old one followed by id |
| IdLists.ListResultGrows | src/EERecordSystem.h:334-341 | an add with no match, no free slot and room appends the new group record and reports true |
| IdLists.TallyMatched | src/EERecordSystem.h:296-306 | idop's scan meets a match exactly when some slot of the list matches |
| IdLists.TallyFree | src/EERecordSystem.h:314-315 | the free slot idop notes is the address of the list's first free slot, 0 when none |
| IdLists.TallyVisited | src/EERecordSystem.h:316-319 | an enumeration's callback receives the values of the non-free slots in order |
| IdLists.TallyMem | src/EERecordSystem.h:305-312 | idop's scan leaves the delete image when deleting and the medium untouched otherwise |
| ListAdd.AddResult | src/EERecordSystem.h:262-346 | an add reports true and writes nothing when id is present; stores id in the first free slot and reports false; otherwise appends a group record exactly when there is room and reports that; after any write a full-mask query finds id |
| ListAdd.ReuseOutcome | src/EERecordSystem.h:329-333 | writing id into the first free slot is the reuse case of the add |
| ListAdd.GrowOutcome | src/EERecordSystem.h:334-341 | appending the group record is the grow case of the add |
| ListAdd.GrownHolds | src/EERecordSystem.h:334-341 | the appended group record keeps the chain well formed and grows the list as the grow case says |
| EERecordSystem.RecordSystem.constructor | src/EERecordSystem.h:82 | a new record system is not begun |
| EERecordSystem.RecordSystem.Begin | src/EERecordSystem.h:93-109 | begin sets the first record address to start + 4 and the end address, and leaves the medium as the begin image, bug included |
| EERecordSystem.RecordSystem.BeginAll | src/EERecordSystem.h:87-89 | begin on the whole EEPROM, from 0 to its last byte |
| EERecordSystem.RecordSystem.RecordDataAddress | src/EERecordSystem.h:175-201 | returns -1 before begin or when the scan finds nothing; otherwise the found record's payload address, and for a size-0 query with an out-pointer its truncated size |
| EERecordSystem.RecordSystem.ScanFindsStored | src/EERecordSystem.h:175-201 | on a well-formed chain getRecordDataAddress finds the first record of the chain the lookup accepts |
| EERecordSystem.RecordSystem.GetRecordData | src/EERecordSystem.h:114-120 | looks up a record with the key and a payload of sizeof(T) stored into a T_datasize, and returns the sizeof(T) bytes from its payload address; returns the default when there is none |
| EERecordSystem.RecordSystem.UpdateRecordData | src/EERecordSystem.h:122-126 | updateRecord on the first sizeof(T) mod 256^W_L bytes of the value, with updateRecord's outcomes for that payload |
| EERecordSystem.RecordSystem.UpdateRecord | src/EERecordSystem.h:138-153 | fails without writing before begin, for an empty payload, or for one over the limit; otherwise overwrites the matching record in place or appends a new one, failing without writing only when there is no room; on success the lookup finds the data |
| EERecordSystem.RecordSystem.UpdateRecordByte | src/EERecordSystem.h:131-134 | updateRecord with a one-byte payload, failing before begin |
| EERecordSystem.RecordSystem.AddNewRecord | src/EERecordSystem.h:208-257 | fails without writing before begin, when a record runs past the end, or without room; otherwise lays out the record at the end of the chain |
| EERecordSystem.RecordSystem.WriteRecord | src/EERecordSystem.h:241-251 | addnewrecord's writes leave the appended image at s |
| EERecordSystem.RecordSystem.WritePayload | src/EERecordSystem.h:242 | stores the bytes from the address on, changing nothing else |
| EERecordSystem.RecordSystem.ListOp | src/EERecordSystem.h:262-346 | idop's answer, new medium and callback values are those ListResult gives; before begin it answers false and writes nothing |
| EERecordSystem.RecordSystem.QueryList | src/EERecordSystem.h:351-353 | true exactly when begun and some slot of the list matches id under the mask; nothing written |
| EERecordSystem.RecordSystem.AddEntryToList | src/EERecordSystem.h:358-360 | the three add outcomes, by case: present, free slot reused, group appended if there is room |
| EERecordSystem.RecordSystem.DeleteListEntry | src/EERecordSystem.h:366-368 | frees exactly the matching slots and reports whether there was one; the records and the list's slots are unchanged; the enumeration loses exactly the matching entries |
| EERecordSystem.RecordSystem.EnumerateList | src/EERecordSystem.h:373-377 | the callback receives the non-free entries of the list in address order, never 0xFFFFFFFF; nothing written |
| EERecordSystem.RecordSystem.ScanList | src/EERecordSystem.h:278-325 | idop's walk either stops a query at a match, or has scanned every slot of the list: delete image, match flag, first free slot and enumeration as specified |
| EERecordSystem.RecordSystem.ScanWalk | src/EERecordSystem.h:278-325 | the walk up to the sentinel keeps the scan state for the slots of the records walked so far |
| EERecordSystem.RecordSystem.ScanNext | src/EERecordSystem.h:278-323 | one walk step: a zero length ends the walk with every slot of the list scanned, anything else moves to the next record |
| EERecordSystem.RecordSystem.ScanKeyed | src/EERecordSystem.h:283-323 | one record of the walk: the slots scanned grow by that record's slots when it belongs to the list |
| EERecordSystem.RecordSystem.ScanRecord | src/EERecordSystem.h:284-322 | a record keyed listkey has its payload's slots scanned; any other record adds nothing |
| EERecordSystem.RecordSystem.ScanPayload | src/EERecordSystem.h:285-320 | the payload loop scans the payload's slots in order, stopping a query at a match |
| EERecordSystem.RecordSystem.ScanSlots | src/EERecordSystem.h:289-320 | the loop while at least 4 bytes remain scans every slot of the payload |
| EERecordSystem.RecordSystem.ScanPayloadSlot | src/EERecordSystem.h:289-320 | one turn moves 4 bytes on and scans one slot |
| EERecordSystem.RecordSystem.ScanSlot | src/EERecordSystem.h:296-319 | a query stops exactly when the slot matches; otherwise the slot is cleared on a matching delete, noted when it is the first free slot, and handed over when enumerating and not free |
| EERecordSystem.RecordSystem.ReadSlot | src/EERecordSystem.h:290-304 | reading a slot byte by byte gives its little-endian value and the byte-by-byte masked match |

## Left out

- The Arduino EEPROM library is not part of this model. `EEPROM.update`
  skips a write when the byte already holds the value; the model writes
  anyway, which gives the same memory contents. Wear and write timing are
  not modelled.
- The templates are instantiated by widths. Keys and length fields are 1
  or 2 bytes wide. Payloads of `getRecordData`, `updateRecordData` and
  `updateRecord` are byte sequences (the `T_datatype` object's bytes on a
  little-endian target). Keys wider than 2 bytes (`eeprom_read_fkey`, lines
  160-161) are left out.
- `UpdateRecordData` returns updateRecord's bool. The source returns it
  converted to the value type `T_datatype`.
- `GetRecordData` requires that the read of a value of 256^W_L bytes or
  more ends inside the EEPROM. Such a value is looked up under its
  truncated size, so the read can run past the record's payload. Past the
  EEPROM's last byte, what the code reads is not modelled.
- The enumeration callback and its object pointer become the returned
  sequence `visited`. `EnumerateList` passes mask 0 for the object pointer;
  an enumeration never acts on a match, so the mask has no effect.
- Only the operations 'Q', 'D', 'E' and 'A' are modelled. The extra 'd' and
  'x' of line 326 are never passed by any caller.
- The 16-bit `uint16_t` addresses are modelled as unbounded integers, and
  so is the `ending_address - sizeof(key)` bound of line 179. Regions are
  assumed to lie inside the EEPROM, which addresses below 65536.
- `Begin` requires a region of at least 7 bytes (`start + 6 <= end`). It
  also requires a region that ends inside the EEPROM. A smaller region
  leaves no room for the header and a length field after it. The source
  accepts it anyway.
- `UpdateRecord`, `GetRecordData` and the list operations require a
  well-formed chain. On a corrupted chain the code reads and writes through
  whatever the length fields say; that is not modelled.
- Concurrency and interrupts are not modelled. `CrashBeforeCommit` and
  `TornLengthField` state what a reader sees between two writes of
  `addnewrecord`.
- `idop`'s loops are split into the methods `ScanWalk`, `ScanNext`,
  `ScanKeyed`, `ScanRecord`, `ScanPayload`, `ScanSlots`, `ScanPayloadSlot`,
  `ScanSlot` and `ReadSlot`. They keep the source's order of reads and
  writes.
- `WriteRecord`, `WritePayload` and `WriteFields`: only the final memory
  image is proved, not the order of the writes. The order that
  `CrashBeforeCommit` and `TornLengthField` reason about is `AppendWrites`.
  It matches the order of the writes in these methods by reading them side
  by side; no proof links the two.

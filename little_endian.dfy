// Little-endian integers as the record system stores them: 1- or 2-byte length
// fields and keys, and the 32-bit identifiers held in list slots.

module LittleEndian {

  /** A byte of memory. */
  type byte = x: int | 0 <= x < 256

  /** 256 to the power w, for a field of w = 1 or 2 bytes: one more than the
      largest value such a field holds. */
  function Pow256(w: nat): (r: nat)
    requires w == 1 || w == 2
  {
    if w == 1 then 256 else 65536
  }

  /** The low-order byte of x. */
  function LowByte(x: nat): byte {
    x % 256
  }

  /** The w low-order bytes of x (w is 1 or 2), least significant first: what
      storing x into a w-byte unsigned field keeps of it. */
  function ToLE(x: nat, w: nat): (r: seq<byte>)
    requires w == 1 || w == 2
    ensures |r| == w
  {
    if w == 1 then [LowByte(x)] else [LowByte(x), LowByte(x / 256)]
  }

  /** x stored into a w-byte unsigned variable: its value modulo 256^w. */
  function Truncate(x: int, w: nat): (r: nat)
    requires w == 1 || w == 2
    ensures r < Pow256(w)
    ensures 0 <= x < Pow256(w) ==> r == x
  {
    if 0 <= x < Pow256(w) then x else x % Pow256(w)
  }

  /** Reads the w-byte (w is 1 or 2) little-endian field at address `at`: the
      low byte first, then, for a 2-byte field, the high byte. This is how the
      source reads a key (eeprom_read_fkey) and a record's length field. */
  function ReadField(m: seq<byte>, at: int, w: nat): (r: nat)
    requires w == 1 || w == 2
    requires 0 <= at && at + w <= |m|
    ensures r < Pow256(w)
  {
    var lo: int := m[at];
    if w == 2 then lo + 256 * (m[at + 1] as int) else lo
  }

  /** The 1- or 2-byte field f holds x, low byte first. */
  predicate Decodes(f: seq<byte>, x: nat) {
    (|f| == 1 || |f| == 2) && x == f[0] as int + (if |f| == 2 then 256 * f[1] as int else 0)
  }

  /** Storing a value that fits the width and decoding it gives it back. */
  lemma ToLEDecodes(x: nat, w: nat)
    requires w == 1 || w == 2
    requires x < Pow256(w)
    ensures Decodes(ToLE(x, w), x)
  {
    var f := ToLE(x, w);
    assert f[0] == x % 256;
    if w == 2 {
      HighByte(x, f);
    }
  }

  /** A field reads back as x once its bytes hold a field f that holds x. */
  lemma ReadDecoded(m: seq<byte>, at: int, f: seq<byte>, x: nat)
    requires Decodes(f, x)
    requires 0 <= at && at + |f| <= |m|
    requires m[at] == f[0] && (|f| == 2 ==> m[at + 1] == f[1])
    ensures ReadField(m, at, |f|) == x
  {
  }

  /** The second byte of a 2-byte encoding is the value's high byte. */
  lemma HighByte(x: nat, f: seq<byte>)
    requires x < 65536 && f == ToLE(x, 2)
    ensures f[1] == x / 256 && x == x % 256 + 256 * (x / 256)
  {
  }
}

// The 32-bit identifiers of the list layer, stored as four bytes in native
// (little-endian) order.
module Words {
  import opened LittleEndian

  /** The bits of a byte of memory, for the bitwise operations of the list
      scan. */
  function Bits(x: byte): bv8 {
    x as bv8
  }

  /** The byte of memory that holds the bits b. */
  function FromBits(b: bv8): byte {
    b as int
  }

  lemma BitsRoundTrip(b: bv8)
    ensures Bits(FromBits(b)) == b
  {
  }

  /** The 32-bit value whose little-endian bytes are b0, b1, b2, b3. */
  function Word(b0: bv8, b1: bv8, b2: bv8, b3: bv8): bv32 {
    (b0 as bv32) | ((b1 as bv32) << 8) | ((b2 as bv32) << 16) | ((b3 as bv32) << 24)
  }

  /** Byte i of v in memory order on a little-endian target. */
  function ByteOf(v: bv32, i: nat): bv8
    requires i < 4
  {
    if i == 0 then (v & 0xFF) as bv8
    else if i == 1 then ((v >> 8) & 0xFF) as bv8
    else if i == 2 then ((v >> 16) & 0xFF) as bv8
    else ((v >> 24) & 0xFF) as bv8
  }

  /** The four bytes of v, least significant first. */
  function BytesOf(v: bv32): (b: seq<bv8>)
    ensures |b| == 4
    ensures forall i :: 0 <= i < 4 ==> b[i] == ByteOf(v, i)
  {
    [ByteOf(v, 0), ByteOf(v, 1), ByteOf(v, 2), ByteOf(v, 3)]
  }

  /** Reading back the bytes a word was stored as gives the word. */
  lemma WordOfBytes(v: bv32)
    ensures Word(ByteOf(v, 0), ByteOf(v, 1), ByteOf(v, 2), ByteOf(v, 3)) == v
  {
  }

  /** Storing the word four bytes assemble to gives the same bytes. */
  lemma ByteOfWord(b0: bv8, b1: bv8, b2: bv8, b3: bv8)
    ensures ByteOf(Word(b0, b1, b2, b3), 0) == b0
    ensures ByteOf(Word(b0, b1, b2, b3), 1) == b1
    ensures ByteOf(Word(b0, b1, b2, b3), 2) == b2
    ensures ByteOf(Word(b0, b1, b2, b3), 3) == b3
  {
  }

  lemma ByteOfAnd(x: bv32, y: bv32)
    ensures ByteOf(x & y, 0) == ByteOf(x, 0) & ByteOf(y, 0)
    ensures ByteOf(x & y, 1) == ByteOf(x, 1) & ByteOf(y, 1)
    ensures ByteOf(x & y, 2) == ByteOf(x, 2) & ByteOf(y, 2)
    ensures ByteOf(x & y, 3) == ByteOf(x, 3) & ByteOf(y, 3)
  {
  }

  /** Two words are equal exactly when their four bytes are. */
  lemma WordsEqualByBytes(x: bv32, y: bv32)
    ensures x == y <==> (ByteOf(x, 0) == ByteOf(y, 0) && ByteOf(x, 1) == ByteOf(y, 1) &&
                         ByteOf(x, 2) == ByteOf(y, 2) && ByteOf(x, 3) == ByteOf(y, 3))
  {
  }

  /** Whether v and id agree on every bit mask sets. */
  predicate MaskedEqual(v: bv32, id: bv32, mask: bv32) {
    v & mask == id & mask
  }

  /** Whether stored byte b agrees with byte i of id under byte i of mask: the
      test the list scan applies to each byte of a slot. */
  predicate ByteAgrees(b: bv8, id: bv32, mask: bv32, i: nat)
    requires i < 4
  {
    b & ByteOf(mask, i) == ByteOf(id, i) & ByteOf(mask, i)
  }

  /** Whether the four stored bytes b0..b3 of a slot agree with id under mask. */
  predicate BytesAgree(b0: bv8, b1: bv8, b2: bv8, b3: bv8, id: bv32, mask: bv32) {
    ByteAgrees(b0, id, mask, 0) && ByteAgrees(b1, id, mask, 1) &&
    ByteAgrees(b2, id, mask, 2) && ByteAgrees(b3, id, mask, 3)
  }

  lemma AgreeImpliesMaskedEqual(v: bv32, id: bv32, mask: bv32)
    requires BytesAgree(ByteOf(v, 0), ByteOf(v, 1), ByteOf(v, 2), ByteOf(v, 3), id, mask)
    ensures MaskedEqual(v, id, mask)
  {
    ByteOfAnd(v, mask);
    ByteOfAnd(id, mask);
    WordsEqualByBytes(v & mask, id & mask);
  }

  lemma MaskedEqualImpliesAgree(v: bv32, id: bv32, mask: bv32)
    requires MaskedEqual(v, id, mask)
    ensures BytesAgree(ByteOf(v, 0), ByteOf(v, 1), ByteOf(v, 2), ByteOf(v, 3), id, mask)
  {
    ByteOfAnd(v, mask);
    ByteOfAnd(id, mask);
  }

  /** Comparing the four stored bytes of a slot holding v with id under mask
      one byte at a time, as the list scan does, is the same as comparing the
      whole masked words. */
  lemma MaskedBytewise(v: bv32, id: bv32, mask: bv32)
    ensures BytesAgree(ByteOf(v, 0), ByteOf(v, 1), ByteOf(v, 2), ByteOf(v, 3), id, mask) <==>
            MaskedEqual(v, id, mask)
  {
    if BytesAgree(ByteOf(v, 0), ByteOf(v, 1), ByteOf(v, 2), ByteOf(v, 3), id, mask) {
      AgreeImpliesMaskedEqual(v, id, mask);
    }
    if MaskedEqual(v, id, mask) {
      MaskedEqualImpliesAgree(v, id, mask);
    }
  }
}

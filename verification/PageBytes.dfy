/** Little-endian fields in the body of a slotted page. */
module PageBytes {

  type byte = x: int | 0 <= x < 256

  const BODY_SIZE: nat := 4072
  const HEADER_SIZE: nat := 16
  const SLOT_SIZE: nat := 8
  const NO_PAGE: nat := 0xFFFF_FFFF

  /** The body with `data` written at offset `off`. */
  function PutBytes(b: seq<byte>, off: nat, data: seq<byte>): (r: seq<byte>)
    requires off + |data| <= |b|
    ensures |r| == |b|
  {
    b[..off] + data + b[off + |data|..]
  }

  function U16(v: nat): (r: seq<byte>)
    requires v < 0x1_0000
    ensures |r| == 2
  {
    [v % 256, v / 256]
  }

  function GetU16(b: seq<byte>, off: nat): (v: nat)
    requires off + 2 <= |b|
    ensures v < 0x1_0000
  {
    var lo: int, hi: int := b[off], b[off + 1];
    lo + 256 * hi
  }

  function U32(v: nat): (r: seq<byte>)
    requires v < 0x1_0000_0000
    ensures |r| == 4
  {
    U16(v % 0x1_0000) + U16(v / 0x1_0000)
  }

  function GetU32(b: seq<byte>, off: nat): (v: nat)
    requires off + 4 <= |b|
    ensures v < 0x1_0000_0000
  {
    GetU16(b, off) + 0x1_0000 * GetU16(b, off + 2)
  }

  datatype Slot = Slot(offset: nat, length: nat, flags: nat, reserved: nat) {
    predicate Deleted() {
      flags % 2 == 1
    }

    predicate InRange() {
      offset < 0x1_0000 && length < 0x1_0000 && flags < 0x1_0000 && reserved < 0x1_0000
    }

    /** Sets the DELETED bit. */
    function MarkDeleted(): (r: Slot) {
      if Deleted() then this else this.(flags := flags + 1)
    }
  }

  datatype Header = Header(tupleCount: nat, start: nat, end: nat, reserved: nat, prev: nat, next: nat) {
    predicate InRange() {
      && tupleCount < 0x1_0000 && start < 0x1_0000 && end < 0x1_0000 && reserved < 0x1_0000
      && prev <= NO_PAGE && next <= NO_PAGE
    }
  }

  function SlotBytes(s: Slot): (r: seq<byte>)
    requires s.InRange()
    ensures |r| == SLOT_SIZE
  {
    U16(s.offset) + U16(s.length) + U16(s.flags) + U16(s.reserved)
  }

  function HeaderBytes(h: Header): (r: seq<byte>)
    requires h.InRange()
    ensures |r| == HEADER_SIZE
  {
    U16(h.tupleCount) + U16(h.start) + U16(h.end) + U16(h.reserved) + U32(h.prev) + U32(h.next)
  }

  function SlotOffset(i: nat): nat {
    HEADER_SIZE + i * SLOT_SIZE
  }

  function ReadSlot(b: seq<byte>, i: nat): (s: Slot)
    requires SlotOffset(i + 1) <= |b|
    ensures s.InRange()
  {
    var off := SlotOffset(i);
    Slot(GetU16(b, off), GetU16(b, off + 2), GetU16(b, off + 4), GetU16(b, off + 6))
  }

  function ReadHeader(b: seq<byte>): (h: Header)
    requires HEADER_SIZE <= |b|
    ensures h.InRange()
  {
    Header(GetU16(b, 0), GetU16(b, 2), GetU16(b, 4), GetU16(b, 6), GetU32(b, 8), GetU32(b, 12))
  }

  function ReadSlots(b: seq<byte>, n: nat): (s: seq<Slot>)
    requires SlotOffset(n) <= |b|
    ensures |s| == n && forall i :: 0 <= i < n ==> s[i] == ReadSlot(b, i)
  {
    seq(n, i requires 0 <= i < n => ReadSlot(b, i))
  }

  // ---- Reading back what was written -------------------------------------

  lemma U16RoundTrip(b: seq<byte>, off: nat, v: nat)
    requires v < 0x1_0000 && off + 2 <= |b| && b[off] == U16(v)[0] && b[off + 1] == U16(v)[1]
    ensures GetU16(b, off) == v
  {
  }

  lemma U32RoundTrip(b: seq<byte>, off: nat, v: nat)
    requires v < 0x1_0000_0000 && off + 4 <= |b| && b[off..off + 4] == U32(v)
    ensures GetU32(b, off) == v
  {
    var w := b[off..off + 4];
    assert forall i :: 0 <= i < 4 ==> w[i] == b[off + i];
    U16RoundTrip(b, off, v % 0x1_0000);
    U16RoundTrip(b, off + 2, v / 0x1_0000);
  }

  /** Bytes outside the written range are as before. */
  lemma PutBytesAt(b: seq<byte>, off: nat, data: seq<byte>)
    requires off + |data| <= |b|
    ensures forall i :: 0 <= i < |b| ==>
      PutBytes(b, off, data)[i] == if off <= i < off + |data| then data[i - off] else b[i]
  {
  }

  lemma SlotRoundTrip(b: seq<byte>, i: nat, s: Slot)
    requires SlotOffset(i + 1) <= |b| && s.InRange()
    ensures ReadSlot(PutBytes(b, SlotOffset(i), SlotBytes(s)), i) == s
  {
    var off := SlotOffset(i);
    var r := PutBytes(b, off, SlotBytes(s));
    PutBytesAt(b, off, SlotBytes(s));
    U16RoundTrip(r, off, s.offset);
    U16RoundTrip(r, off + 2, s.length);
    U16RoundTrip(r, off + 4, s.flags);
    U16RoundTrip(r, off + 6, s.reserved);
  }

  lemma HeaderRoundTrip(b: seq<byte>, h: Header)
    requires HEADER_SIZE <= |b| && h.InRange()
    ensures ReadHeader(PutBytes(b, 0, HeaderBytes(h))) == h
  {
    var r := PutBytes(b, 0, HeaderBytes(h));
    PutBytesAt(b, 0, HeaderBytes(h));
    U16RoundTrip(r, 0, h.tupleCount);
    U16RoundTrip(r, 2, h.start);
    U16RoundTrip(r, 4, h.end);
    U16RoundTrip(r, 6, h.reserved);
    assert r[8..12] == U32(h.prev);
    assert r[12..16] == U32(h.next);
    U32RoundTrip(r, 8, h.prev);
    U32RoundTrip(r, 12, h.next);
  }

  /** A write beyond the directory changes neither the header nor a slot. */
  lemma WriteBeyondDirectory(b: seq<byte>, off: nat, data: seq<byte>, n: nat)
    requires SlotOffset(n) <= off && off + |data| <= |b|
    ensures var r := PutBytes(b, off, data);
      ReadHeader(r) == ReadHeader(b) && ReadSlots(r, n) == ReadSlots(b, n)
  {
    PutBytesAt(b, off, data);
    var r := PutBytes(b, off, data);
    forall i | 0 <= i < n
      ensures ReadSlot(r, i) == ReadSlot(b, i)
    {
      assert SlotOffset(i) + SLOT_SIZE <= SlotOffset(n);
    }
  }

  /** Writing a slot changes that slot of the directory only. */
  lemma WriteOneSlot(b: seq<byte>, i: nat, s: Slot, n: nat)
    requires i < n && SlotOffset(n) <= |b| && s.InRange()
    ensures var r := PutBytes(b, SlotOffset(i), SlotBytes(s));
      && ReadHeader(r) == ReadHeader(b)
      && ReadSlots(r, n) == ReadSlots(b, n)[i := s]
      && r[SlotOffset(n)..] == b[SlotOffset(n)..]
  {
    assert SlotOffset(i + 1) <= SlotOffset(n);
    var r := PutBytes(b, SlotOffset(i), SlotBytes(s));
    PutBytesAt(b, SlotOffset(i), SlotBytes(s));
    SlotRoundTrip(b, i, s);
    forall k | 0 <= k < n && k != i
      ensures ReadSlot(r, k) == ReadSlot(b, k)
    {
      assert k < i ==> SlotOffset(k + 1) <= SlotOffset(i);
      assert k > i ==> SlotOffset(i + 1) <= SlotOffset(k);
    }
  }

  /** Writing the header changes nothing behind it. */
  lemma WriteOneHeader(b: seq<byte>, h: Header, n: nat)
    requires SlotOffset(n) <= |b| && h.InRange()
    ensures var r := PutBytes(b, 0, HeaderBytes(h));
      && ReadHeader(r) == h
      && ReadSlots(r, n) == ReadSlots(b, n)
      && r[HEADER_SIZE..] == b[HEADER_SIZE..]
  {
    HeaderRoundTrip(b, h);
    PutBytesAt(b, 0, HeaderBytes(h));
  }

  /** A slot and then the header: the two writes that end every update of a page. */
  lemma WriteSlotAndHeader(b: seq<byte>, i: nat, s: Slot, h: Header, n: nat)
    requires i < n && SlotOffset(n) <= |b| && s.InRange() && h.InRange()
    ensures SlotOffset(i + 1) <= |b|
    ensures var b1 := PutBytes(b, SlotOffset(i), SlotBytes(s));
      var b2 := PutBytes(b1, 0, HeaderBytes(h));
      && ReadHeader(b1) == ReadHeader(b)
      && ReadHeader(b2) == h
      && ReadSlots(b2, n) == ReadSlots(b, n)[i := s]
      && (forall x :: SlotOffset(n) <= x < |b| ==> b2[x] == b[x])
  {
    assert SlotOffset(i + 1) <= SlotOffset(n);
    var b1 := PutBytes(b, SlotOffset(i), SlotBytes(s));
    WriteOneSlot(b, i, s, n);
    WriteOneHeader(b1, h, n);
    PutBytesAt(b, SlotOffset(i), SlotBytes(s));
    PutBytesAt(b1, 0, HeaderBytes(h));
  }

  // ---- The layout --------------------------------------------------------

  /** A 16-bit field: its low byte first. */
  predicate Has16(b: seq<byte>, off: nat, v: nat)
    requires off + 2 <= |b|
  {
    v == (b[off] as int) + 0x100 * (b[off + 1] as int)
  }

  predicate Has32(b: seq<byte>, off: nat, v: nat)
    requires off + 4 <= |b|
  {
    v == (b[off] as int) + 0x100 * (b[off + 1] as int) + 0x1_0000 * (b[off + 2] as int) + 0x100_0000 * (b[off + 3] as int)
  }

  /** Where each field of the page header stands, and in which byte order. */
  lemma HeaderLayout(h: Header, b: seq<byte>)
    requires h.InRange() && |b| == BODY_SIZE && b[..HEADER_SIZE] == HeaderBytes(h)
    ensures Has16(b, 0, h.tupleCount) && Has16(b, 2, h.start) && Has16(b, 4, h.end) && Has16(b, 6, h.reserved)
    ensures Has32(b, 8, h.prev) && Has32(b, 12, h.next)
    ensures ReadHeader(b) == h
  {
    var w := b[..HEADER_SIZE];
    assert forall i :: 0 <= i < HEADER_SIZE ==> w[i] == b[i];
  }

  /** Slot `i` stands 16 + 8i bytes into the body. */
  lemma SlotLayout(s: Slot, b: seq<byte>, i: nat)
    requires s.InRange() && |b| == BODY_SIZE && 16 + 8 * i + 8 <= BODY_SIZE && b[16 + 8 * i..16 + 8 * i + 8] == SlotBytes(s)
    ensures Has16(b, 16 + 8 * i, s.offset) && Has16(b, 16 + 8 * i + 2, s.length)
    ensures Has16(b, 16 + 8 * i + 4, s.flags) && Has16(b, 16 + 8 * i + 6, s.reserved)
    ensures ReadSlot(b, i) == s
  {
    var w := b[16 + 8 * i..16 + 8 * i + 8];
    assert forall j :: 0 <= j < 8 ==> w[j] == b[16 + 8 * i + j];
  }
}

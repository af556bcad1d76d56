/** The slot directory of a page and the tuple area it describes. */
module SlotDirectory {
  import opened PageBytes

  function Len(s: Slot): nat {
    if s.Deleted() then 0 else s.length
  }

  function One(s: Slot): nat {
    if s.Deleted() then 0 else 1
  }

  /** The bytes of the live tuples from slot `i` on. */
  function SumFrom(slots: seq<Slot>, i: nat): nat
    requires i <= |slots|
    decreases |slots| - i
  {
    if i == |slots| then 0 else Len(slots[i]) + SumFrom(slots, i + 1)
  }

  /** The number of live tuples from slot `i` on. */
  function CountFrom(slots: seq<Slot>, i: nat): nat
    requires i <= |slots|
    decreases |slots| - i
  {
    if i == |slots| then 0 else One(slots[i]) + CountFrom(slots, i + 1)
  }

  ghost predicate Live(slots: seq<Slot>, i: int) {
    0 <= i < |slots| && !slots[i].Deleted()
  }

  /** Live tuples are nonempty and lie between the free end and the end of the body. */
  ghost predicate InBounds(slots: seq<Slot>, end: nat) {
    forall i :: Live(slots, i) ==>
      0 < slots[i].length && end <= slots[i].offset && slots[i].offset + slots[i].length <= BODY_SIZE
  }

  ghost predicate Apart(s: Slot, t: Slot) {
    s.offset + s.length <= t.offset || t.offset + t.length <= s.offset
  }

  /** No two live tuples share a byte. */
  ghost predicate Disjoint(slots: seq<Slot>) {
    forall i, j :: Live(slots, i) && Live(slots, j) && i != j ==> Apart(slots[i], slots[j])
  }

  /** The directory ends before the free end, live tuples are in bounds and do not
      overlap, and together they fit into the tuple area. */
  ghost predicate DirectoryOk(slots: seq<Slot>, end: nat) {
    && SlotOffset(|slots|) <= end <= BODY_SIZE
    && InBounds(slots, end)
    && Disjoint(slots)
    && SumFrom(slots, 0) <= BODY_SIZE - end
  }

  /** A header that describes the directory `slots`. */
  ghost predicate LayoutOk(h: Header, slots: seq<Slot>) {
    && h.start == SlotOffset(|slots|)
    && h.tupleCount == CountFrom(slots, 0)
    && DirectoryOk(slots, h.end)
  }

  ghost predicate PageOk(b: seq<byte>, n: nat) {
    && |b| == BODY_SIZE && SlotOffset(n) <= BODY_SIZE
    && LayoutOk(ReadHeader(b), ReadSlots(b, n))
  }

  ghost function TupleAt(b: seq<byte>, s: Slot): seq<byte> {
    if s.offset + s.length <= |b| then b[s.offset..s.offset + s.length] else []
  }

  /** The bytes of every live slot. */
  ghost function Contents(b: seq<byte>, slots: seq<Slot>): map<nat, seq<byte>> {
    map i: nat | i < |slots| && Live(slots, i) :: TupleAt(b, slots[i])
  }

  /** What the page stores. */
  ghost function View(b: seq<byte>, n: nat): map<nat, seq<byte>>
    requires SlotOffset(n) <= |b|
  {
    Contents(b, ReadSlots(b, n))
  }

  /** Tuples behind `end` are as before if the bytes there are. */
  lemma SameTuple(b: seq<byte>, b': seq<byte>, slots: seq<Slot>, end: nat, i: nat)
    requires |b| == |b'| == BODY_SIZE && InBounds(slots, end) && Live(slots, i)
    requires forall x :: end <= x < BODY_SIZE ==> b'[x] == b[x]
    ensures TupleAt(b', slots[i]) == TupleAt(b, slots[i])
  {
  }

  // ---- Sums and counts ---------------------------------------------------

  lemma {:induction false} SumUpdate(slots: seq<Slot>, k: nat, s: Slot, i: nat)
    requires k < |slots| && i <= |slots|
    ensures SumFrom(slots[k := s], i) + (if i <= k then Len(slots[k]) else 0)
         == SumFrom(slots, i) + (if i <= k then Len(s) else 0)
    ensures CountFrom(slots[k := s], i) + (if i <= k then One(slots[k]) else 0)
         == CountFrom(slots, i) + (if i <= k then One(s) else 0)
    decreases |slots| - i
  {
    if i < |slots| {
      SumUpdate(slots, k, s, i + 1);
    }
  }

  lemma {:induction false} SumAppend(slots: seq<Slot>, s: Slot, i: nat)
    requires i <= |slots|
    ensures SumFrom(slots + [s], i) == SumFrom(slots, i) + Len(s)
    ensures CountFrom(slots + [s], i) == CountFrom(slots, i) + One(s)
    decreases |slots| - i
  {
    if i < |slots| {
      SumAppend(slots, s, i + 1);
    } else {
      assert SumFrom(slots + [s], i + 1) == 0 && CountFrom(slots + [s], i + 1) == 0;
    }
  }

  /** Sums from a later slot are no larger, and a live slot is part of the sum. */
  lemma {:induction false} SumMonotone(slots: seq<Slot>, i: nat, j: nat)
    requires i <= j <= |slots|
    ensures SumFrom(slots, j) <= SumFrom(slots, i)
    ensures i < j ==> SumFrom(slots, j) + Len(slots[i]) <= SumFrom(slots, i)
    decreases j - i
  {
    if i < j {
      SumMonotone(slots, i + 1, j);
    }
  }

  lemma {:induction false} CountBound(slots: seq<Slot>, i: nat)
    requires i <= |slots|
    ensures CountFrom(slots, i) <= |slots| - i
    ensures forall j :: i <= j && Live(slots, j) ==> CountFrom(slots, i) > 0
    decreases |slots| - i
  {
    if i < |slots| {
      CountBound(slots, i + 1);
    }
  }

  // ---- Directory updates -------------------------------------------------

  const GAP := Slot(0, 0, 1, 0)

  /** Adding deleted slots changes no sum. */
  lemma AppendGap(slots: seq<Slot>, end: nat)
    requires DirectoryOk(slots, end) && SlotOffset(|slots| + 1) <= end
    ensures DirectoryOk(slots + [GAP], end)
    ensures SumFrom(slots + [GAP], 0) == SumFrom(slots, 0) && CountFrom(slots + [GAP], 0) == CountFrom(slots, 0)
  {
    SumAppend(slots, GAP, 0);
    assert forall i :: Live(slots + [GAP], i) ==> Live(slots, i);
  }

  /** A tuple placed just below the free end, in slot `k`. */
  lemma PlaceTuple(slots: seq<Slot>, end: nat, k: nat, len: nat)
    requires DirectoryOk(slots, end) && k < |slots| && 0 < len && SlotOffset(|slots|) + len <= end
    ensures var s := Slot(end - len, len, 0, 0);
      && DirectoryOk(slots[k := s], end - len)
      && CountFrom(slots[k := s], 0) == CountFrom(slots, 0) + 1 - One(slots[k])
  {
    var s := Slot(end - len, len, 0, 0);
    SumUpdate(slots, k, s, 0);
    assert forall i :: Live(slots[k := s], i) && i != k ==> Live(slots, i);
  }

  lemma DeleteSlot(slots: seq<Slot>, end: nat, k: nat)
    requires DirectoryOk(slots, end) && Live(slots, k)
    ensures DirectoryOk(slots[k := slots[k].MarkDeleted()], end)
    ensures CountFrom(slots[k := slots[k].MarkDeleted()], 0) == CountFrom(slots, 0) - 1
  {
    var s := slots[k].MarkDeleted();
    SumUpdate(slots, k, s, 0);
    assert forall i :: Live(slots[k := s], i) ==> Live(slots, i) && i != k;
  }

  // ---- Compaction --------------------------------------------------------

  /** Where compaction puts the tuple of slot `i`: packed from the end of the body,
      later slots first. */
  function PackedOffset(slots: seq<Slot>, i: nat): int
    requires i <= |slots|
  {
    BODY_SIZE - SumFrom(slots, i)
  }

  ghost function Packed(slots: seq<Slot>): (r: seq<Slot>)
    requires SumFrom(slots, 0) <= BODY_SIZE
    ensures |r| == |slots|
    ensures forall i :: 0 <= i < |r| ==>
      r[i] == if slots[i].Deleted() then slots[i] else slots[i].(offset := PackedAt(slots, i))
  {
    seq(|slots|, i requires 0 <= i < |slots| =>
      if slots[i].Deleted() then slots[i] else slots[i].(offset := PackedAt(slots, i)))
  }

  /** The packed offset never goes below zero. */
  ghost function PackedAt(slots: seq<Slot>, i: nat): (r: nat)
    requires i < |slots| && SumFrom(slots, 0) <= BODY_SIZE
    ensures r == PackedOffset(slots, i)
  {
    SumMonotone(slots, 0, i);
    BODY_SIZE - SumFrom(slots, i)
  }

  lemma {:induction false} PackedSums(slots: seq<Slot>, i: nat)
    requires i <= |slots| && SumFrom(slots, 0) <= BODY_SIZE
    ensures SumFrom(Packed(slots), i) == SumFrom(slots, i) && CountFrom(Packed(slots), i) == CountFrom(slots, i)
    decreases |slots| - i
  {
    if i < |slots| {
      PackedSums(slots, i + 1);
    }
  }

  /** Packing keeps the directory in order and leaves no byte unused. */
  lemma PackedOk(slots: seq<Slot>, end: nat)
    requires DirectoryOk(slots, end)
    ensures DirectoryOk(Packed(slots), BODY_SIZE - SumFrom(slots, 0))
    ensures CountFrom(Packed(slots), 0) == CountFrom(slots, 0)
  {
    var r := Packed(slots);
    PackedSums(slots, 0);
    forall i | Live(r, i)
      ensures 0 < r[i].length && BODY_SIZE - SumFrom(slots, 0) <= r[i].offset && r[i].offset + r[i].length <= BODY_SIZE
    {
      assert Live(slots, i);
      SumMonotone(slots, 0, i);
    }
    forall i, j | Live(r, i) && Live(r, j) && i != j
      ensures Apart(r[i], r[j])
    {
      if i < j {
        SumMonotone(slots, i, j);
      } else {
        SumMonotone(slots, j, i);
      }
    }
  }
}

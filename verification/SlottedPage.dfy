/** The slotted page: a partial map from slot ids to tuples, kept in one body. */
module SlottedPage {
  import opened Common
  import opened PageBytes
  import opened SlotDirectory

  function Gaps(m: nat): (r: seq<Slot>)
    ensures |r| == m
  {
    seq(m, _ => GAP)
  }

  /** `k` is the first slot id that stores nothing. */
  ghost predicate FirstFree(tuples: map<nat, seq<byte>>, k: nat) {
    k !in tuples && forall i: nat :: i < k ==> i in tuples
  }

  /** The bytes that inserting a tuple takes; a deleted slot is used again. */
  ghost function NeededBytes(slots: seq<Slot>, len: nat): nat {
    len + if exists i :: 0 <= i < |slots| && !Live(slots, i) then 0 else SLOT_SIZE
  }

  /** Deleted slots at the end of the directory change neither sums nor tuples. */
  lemma {:induction false} PadOk(slots: seq<Slot>, end: nat, m: nat)
    requires DirectoryOk(slots, end) && SlotOffset(|slots| + m) <= end
    ensures DirectoryOk(slots + Gaps(m), end)
    ensures CountFrom(slots + Gaps(m), 0) == CountFrom(slots, 0)
  {
    if m == 0 {
      assert slots + Gaps(0) == slots;
    } else {
      PadOk(slots, end, m - 1);
      AppendGap(slots + Gaps(m - 1), end);
      assert slots + Gaps(m - 1) + [GAP] == slots + Gaps(m);
    }
  }

  /** The layout after a tuple of `len` bytes was put below the free end, into slot `k`. */
  ghost predicate LayoutPlaced(h: Header, slots: seq<Slot>, h': Header, slots': seq<Slot>, k: nat, len: nat) {
    && |slots| <= |slots'| && k < |slots'| && 0 < len && SlotOffset(|slots'|) + len <= h.end
    && slots' == (slots + Gaps(|slots'| - |slots|))[k := Slot(h.end - len, len, 0, 0)]
    && h' == h.(tupleCount := h.tupleCount + 1 - (if k < |slots| then One(slots[k]) else 0),
                start := SlotOffset(|slots'|), end := h.end - len)
  }

  lemma LayoutPlacedOk(h: Header, slots: seq<Slot>, h': Header, slots': seq<Slot>, k: nat, len: nat)
    requires LayoutOk(h, slots) && LayoutPlaced(h, slots, h', slots', k, len)
    ensures LayoutOk(h', slots')
  {
    PadOk(slots, h.end, |slots'| - |slots|);
    PlaceTuple(slots + Gaps(|slots'| - |slots|), h.end, k, len);
  }

  /** Placing a tuple changes the contents of its own slot only. */
  lemma PlacedContents(b: seq<byte>, b': seq<byte>, slots: seq<Slot>, slots': seq<Slot>, end: nat, k: nat, t: seq<byte>)
    requires InBounds(slots, end) && |b| == |b'| == BODY_SIZE && |t| <= end <= BODY_SIZE
    requires b'[end - |t|..] == t + b[end..]
    requires |slots| <= |slots'| && k < |slots'| && slots'[k] == Slot(end - |t|, |t|, 0, 0)
    requires forall i :: 0 <= i < |slots'| && i != k ==> if i < |slots| then slots'[i] == slots[i] else slots'[i].Deleted()
    ensures Contents(b', slots') == Contents(b, slots)[k := t]
  {
    TailSame(b, b', end, t);
    forall i: nat | i < |slots| && i != k && Live(slots, i)
      ensures TupleAt(b', slots'[i]) == TupleAt(b, slots[i])
    {
      SameTuple(b, b', slots, end, i);
    }
  }

  lemma TailSame(b: seq<byte>, b': seq<byte>, end: nat, t: seq<byte>)
    requires |b| == |b'| == BODY_SIZE && |t| <= end <= BODY_SIZE && b'[end - |t|..] == t + b[end..]
    ensures b'[end - |t|..end] == t
    ensures forall x :: end <= x < BODY_SIZE ==> b'[x] == b[x]
  {
    var tail := t + b[end..];
    assert forall x :: end - |t| <= x < BODY_SIZE ==> b'[x] == tail[x - (end - |t|)];
  }

  /** The page after a tuple was put below the free end, into slot `k`. */
  ghost predicate Placed(b: seq<byte>, n: nat, b': seq<byte>, n': nat, k: nat, t: seq<byte>)
    requires PageOk(b, n)
  {
    && |b'| == BODY_SIZE && SlotOffset(n') <= BODY_SIZE
    && LayoutPlaced(ReadHeader(b), ReadSlots(b, n), ReadHeader(b'), ReadSlots(b', n'), k, |t|)
    && b'[ReadHeader(b).end - |t|..] == t + b[ReadHeader(b).end..]
  }

  lemma PlacedOk(b: seq<byte>, n: nat, b': seq<byte>, n': nat, k: nat, t: seq<byte>)
    requires PageOk(b, n) && Placed(b, n, b', n', k, t)
    ensures PageOk(b', n') && View(b', n') == View(b, n)[k := t]
  {
    LayoutPlacedOk(ReadHeader(b), ReadSlots(b, n), ReadHeader(b'), ReadSlots(b', n'), k, |t|);
    PlacedContents(b, b', ReadSlots(b, n), ReadSlots(b', n'), ReadHeader(b).end, k, t);
  }

  /** The tuple is copied and slot `k` exists; the slot and the header are still to be written. */
  ghost predicate Prepared(b: seq<byte>, n: nat, b2: seq<byte>, n': nat, k: nat, t: seq<byte>, count: nat) {
    && PageOk(b, n) && |b2| == BODY_SIZE
    && n <= n' && k < n' && 0 < |t| && SlotOffset(n') + |t| <= ReadHeader(b).end
    && ReadHeader(b2) == ReadHeader(b)
    && ReadSlots(b2, n') == ReadSlots(b, n) + Gaps(n' - n)
    && b2[ReadHeader(b).end - |t|..] == t + b[ReadHeader(b).end..]
    && count < 0x1_0000 && count == ReadHeader(b).tupleCount + 1 - if k < n then One(ReadSlots(b, n)[k]) else 0
  }

  /** The last two writes of a placement: the slot, then the header. */
  lemma FinishPlacement(b: seq<byte>, n: nat, b2: seq<byte>, n': nat, k: nat, t: seq<byte>, count: nat)
    requires Prepared(b, n, b2, n', k, t, count)
    ensures SlotOffset(k + 1) <= BODY_SIZE
    ensures var h := ReadHeader(b);
      var b3 := PutBytes(b2, SlotOffset(k), SlotBytes(Slot(h.end - |t|, |t|, 0, 0)));
      var h' := h.(start := SlotOffset(n'), end := h.end - |t|, tupleCount := count);
      var b4 := PutBytes(b3, 0, HeaderBytes(h'));
      PageOk(b4, n') && View(b4, n') == View(b, n)[k := t] && ReadHeader(b4) == h'
  {
    var h := ReadHeader(b);
    var newEnd := h.end - |t|;
    var s := Slot(newEnd, |t|, 0, 0);
    var h' := h.(start := SlotOffset(n'), end := newEnd, tupleCount := count);
    WriteSlotAndHeader(b2, k, s, h', n');
    var b4 := PutBytes(PutBytes(b2, SlotOffset(k), SlotBytes(s)), 0, HeaderBytes(h'));
    assert b4[newEnd..] == b2[newEnd..];
    PlacedOk(b, n, b4, n', k, t);
  }

  /** The page after its tuples were packed at the end of the body. */
  lemma CompactedOk(b: seq<byte>, n: nat, b': seq<byte>)
    requires PageOk(b, n) && |b'| == BODY_SIZE
    requires ReadSlots(b', n) == Packed(ReadSlots(b, n))
    requires ReadHeader(b') == ReadHeader(b).(end := BODY_SIZE - SumFrom(ReadSlots(b, n), 0))
    requires forall i :: Live(ReadSlots(b, n), i) ==>
      TupleAt(b', Packed(ReadSlots(b, n))[i]) == TupleAt(b, ReadSlots(b, n)[i])
    ensures PageOk(b', n) && View(b', n) == View(b, n)
  {
    PackedOk(ReadSlots(b, n), ReadHeader(b).end);
    PackedContents(b, b', ReadSlots(b, n));
  }

  lemma PackedContents(b: seq<byte>, b': seq<byte>, slots: seq<Slot>)
    requires SumFrom(slots, 0) <= BODY_SIZE
    requires forall i :: Live(slots, i) ==> TupleAt(b', Packed(slots)[i]) == TupleAt(b, slots[i])
    ensures Contents(b', Packed(slots)) == Contents(b, slots)
  {
    assert forall i :: Live(Packed(slots), i) <==> Live(slots, i);
  }

  /** Deleting a slot: its directory entry, then the live count. */
  lemma DeletedOk(b: seq<byte>, n: nat, k: nat)
    requires PageOk(b, n) && k < n && Live(ReadSlots(b, n), k)
    ensures SlotOffset(k + 1) <= BODY_SIZE && ReadSlots(b, n)[k].MarkDeleted().InRange() && ReadHeader(b).tupleCount > 0
    ensures var h := ReadHeader(b);
      var b1 := PutBytes(b, SlotOffset(k), SlotBytes(ReadSlots(b, n)[k].MarkDeleted()));
      var h' := h.(tupleCount := h.tupleCount - 1);
      var b2 := PutBytes(b1, 0, HeaderBytes(h'));
      PageOk(b2, n) && View(b2, n) == View(b, n) - {k} && ReadHeader(b2) == h' && ReadHeader(b1) == h
  {
    var h, slots := ReadHeader(b), ReadSlots(b, n);
    var s := slots[k].MarkDeleted();
    DeletedLayout(h, slots, k, s);
    var h' := h.(tupleCount := h.tupleCount - 1);
    WriteSlotAndHeader(b, k, s, h', n);
    var b2 := PutBytes(PutBytes(b, SlotOffset(k), SlotBytes(s)), 0, HeaderBytes(h'));
    DeletedContents(b, b2, slots, h.end, k, s);
  }

  lemma DeletedLayout(h: Header, slots: seq<Slot>, k: nat, s: Slot)
    requires LayoutOk(h, slots) && Live(slots, k) && s == slots[k].MarkDeleted()
    ensures h.tupleCount > 0 && s.Deleted()
    ensures LayoutOk(h.(tupleCount := h.tupleCount - 1), slots[k := s])
  {
    DeleteSlot(slots, h.end, k);
    CountBound(slots, 0);
  }

  lemma DeletedContents(b: seq<byte>, b': seq<byte>, slots: seq<Slot>, end: nat, k: nat, s: Slot)
    requires |b| == |b'| == BODY_SIZE && InBounds(slots, end) && Live(slots, k) && s.Deleted()
    requires forall x :: end <= x < BODY_SIZE ==> b'[x] == b[x]
    ensures Contents(b', slots[k := s]) == Contents(b, slots) - {k}
  {
    var slots' := slots[k := s];
    assert forall i :: Live(slots', i) <==> i != k && Live(slots, i);
    forall i: nat | i < |slots| && i != k && Live(slots, i)
      ensures TupleAt(b', slots'[i]) == TupleAt(b, slots[i])
    {
      SameTuple(b, b', slots, end, i);
    }
  }

  /** Writing the links changes no tuple. */
  lemma LinkedOk(b: seq<byte>, n: nat, prev: nat, next: nat)
    requires PageOk(b, n) && prev <= NO_PAGE && next <= NO_PAGE
    ensures var h' := ReadHeader(b).(prev := prev, next := next);
      var b' := PutBytes(b, 0, HeaderBytes(h'));
      PageOk(b', n) && View(b', n) == View(b, n) && ReadHeader(b') == h'
  {
    var h' := ReadHeader(b).(prev := prev, next := next);
    var b' := PutBytes(b, 0, HeaderBytes(h'));
    var slots := ReadSlots(b, n);
    WriteOneHeader(b, h', n);
    PutBytesAt(b, 0, HeaderBytes(h'));
    forall i: nat | i < n && Live(slots, i)
      ensures TupleAt(b', slots[i]) == TupleAt(b, slots[i])
    {
      SameTuple(b, b', slots, ReadHeader(b).end, i);
    }
  }

  /** Slot `j` has its tuple at its packed place in the scratch buffer. */
  ghost predicate Copied(scratch: seq<byte>, b: seq<byte>, slots: seq<Slot>, j: int)
    requires SumFrom(slots, 0) <= BODY_SIZE
  {
    Live(slots, j) ==> TupleAt(scratch, Packed(slots)[j]) == TupleAt(b, slots[j])
  }

  /** The directory while slots from `i` on are packed already. */
  ghost predicate HalfPacked(slots: seq<Slot>, i: nat, r: seq<Slot>)
    requires SumFrom(slots, 0) <= BODY_SIZE
  {
    && |r| == |slots|
    && (forall j :: 0 <= j < |r| ==> r[j] == if j < i then slots[j] else Packed(slots)[j])
  }

  /** Copying the tuple of slot `i` below the write pointer disturbs no other copy. */
  lemma CopiedMore(scratch: seq<byte>, b: seq<byte>, slots: seq<Slot>, end: nat, i: nat, at: nat)
    requires DirectoryOk(slots, end) && Live(slots, i) && |scratch| == |b| == BODY_SIZE
    requires at == PackedOffset(slots, i) && at + slots[i].length == PackedOffset(slots, i + 1) <= BODY_SIZE
    requires |TupleAt(b, slots[i])| == slots[i].length
    requires forall j :: i < j < |slots| ==> Copied(scratch, b, slots, j)
    ensures forall j :: i <= j < |slots| ==> Copied(PutBytes(scratch, at, TupleAt(b, slots[i])), b, slots, j)
  {
    var scratch' := PutBytes(scratch, at, TupleAt(b, slots[i]));
    PutBytesAt(scratch, at, TupleAt(b, slots[i]));
    forall j | i <= j < |slots| && Live(slots, j)
      ensures Copied(scratch', b, slots, j)
    {
      var s := Packed(slots)[j];
      if j > i {
        assert Copied(scratch, b, slots, j);
        SumMonotone(slots, i + 1, j);
        SumMonotone(slots, 0, j);
        assert s.offset >= at + slots[i].length;
        assert TupleAt(scratch', s) == TupleAt(scratch, s);
      } else {
        assert TupleAt(scratch', s) == TupleAt(b, slots[i]);
      }
    }
  }

  lemma PackedStep(slots: seq<Slot>, end: nat, i: nat)
    requires DirectoryOk(slots, end) && i < |slots|
    ensures end <= PackedOffset(slots, i) <= PackedOffset(slots, i + 1) <= BODY_SIZE
    ensures PackedOffset(slots, i) == PackedOffset(slots, i + 1) - Len(slots[i])
  {
    SumMonotone(slots, 0, i);
    SumMonotone(slots, 0, i + 1);
  }

  /** The body while slots from `i` on are packed already: their entries are
      redirected, and nothing behind the directory has changed. */
  ghost predicate Redirected(b: seq<byte>, slots: seq<Slot>, cur: seq<byte>, i: nat)
    requires SlotOffset(|slots|) <= BODY_SIZE && SumFrom(slots, 0) <= BODY_SIZE
  {
    && |cur| == |b| == BODY_SIZE
    && ReadHeader(cur) == ReadHeader(b)
    && HalfPacked(slots, i, ReadSlots(cur, |slots|))
    && (forall x :: SlotOffset(|slots|) <= x < BODY_SIZE ==> cur[x] == b[x])
  }

  /** The tuples of the slots from `i` on are in the scratch buffer. */
  ghost predicate CopiedFrom(scratch: seq<byte>, b: seq<byte>, slots: seq<Slot>, i: nat)
    requires SumFrom(slots, 0) <= BODY_SIZE
  {
    && |scratch| == BODY_SIZE
    && (forall j :: i <= j < |slots| ==> Copied(scratch, b, slots, j))
  }

  lemma RedirectSlot(b: seq<byte>, slots: seq<Slot>, cur: seq<byte>, i: nat)
    requires SlotOffset(|slots|) <= BODY_SIZE && SumFrom(slots, 0) <= BODY_SIZE
    requires i < |slots| && Live(slots, i) && Redirected(b, slots, cur, i + 1) && slots[i].InRange()
    ensures SlotOffset(i + 1) <= BODY_SIZE
    ensures Redirected(b, slots, PutBytes(cur, SlotOffset(i), SlotBytes(slots[i].(offset := PackedAt(slots, i)))), i)
  {
    var n, s' := |slots|, slots[i].(offset := PackedAt(slots, i));
    assert SlotOffset(i + 1) <= SlotOffset(n);
    WriteOneSlot(cur, i, s', n);
    var cur' := PutBytes(cur, SlotOffset(i), SlotBytes(s'));
    assert forall x :: SlotOffset(n) <= x < BODY_SIZE ==> cur'[x] == cur'[SlotOffset(n)..][x - SlotOffset(n)];
  }

  /** What the packing loop keeps, with the slots from `i` on done: `cur` is the
      body now, `b` the body it started from. */
  ghost predicate Packing(b: seq<byte>, n: nat, cur: seq<byte>, scratch: seq<byte>, writePtr: int, i: nat) {
    && PageOk(b, n) && i <= n
    && PackingOf(b, ReadSlots(b, n), ReadHeader(b).end, cur, scratch, writePtr, i)
  }

  ghost predicate PackingOf(b: seq<byte>, slots: seq<Slot>, end: nat, cur: seq<byte>, scratch: seq<byte>, writePtr: int, i: nat)
  {
    && DirectoryOk(slots, end) && i <= |slots|
    && (forall j :: 0 <= j < |slots| ==> slots[j].InRange())
    && Redirected(b, slots, cur, i)
    && CopiedFrom(scratch, b, slots, i)
    && writePtr == PackedOffset(slots, i)
  }

  lemma PackDeleted(b: seq<byte>, slots: seq<Slot>, end: nat, cur: seq<byte>, scratch: seq<byte>, writePtr: int, i: nat)
    requires i < |slots| && PackingOf(b, slots, end, cur, scratch, writePtr, i + 1) && slots[i].Deleted()
    ensures PackingOf(b, slots, end, cur, scratch, writePtr, i)
  {
  }

  /** Slot `s` is redirected to `at` in the body and its bytes are copied there in the scratch buffer. */
  ghost predicate TupleMoved(cur: seq<byte>, scratch: seq<byte>, cur': seq<byte>, scratch': seq<byte>, i: nat, s: Slot, at: nat)
  {
    && MoveFits(cur, scratch, i, s, at)
    && cur' == PutBytes(cur, SlotOffset(i), SlotBytes(s.(offset := at)))
    && scratch' == PutBytes(scratch, at, TupleAt(cur, s))
  }

  ghost predicate MoveFits(cur: seq<byte>, scratch: seq<byte>, i: nat, s: Slot, at: nat) {
    && |cur| == |scratch| == BODY_SIZE && SlotOffset(i + 1) <= BODY_SIZE && s.(offset := at).InRange()
    && s.offset + s.length <= BODY_SIZE && at + s.length <= BODY_SIZE
  }

  lemma MoveRoom(b: seq<byte>, slots: seq<Slot>, end: nat, cur: seq<byte>, scratch: seq<byte>, writePtr: nat, i: nat)
    requires i < |slots| && PackingOf(b, slots, end, cur, scratch, writePtr, i + 1) && Live(slots, i)
    ensures slots[i].length <= writePtr && MoveFits(cur, scratch, i, slots[i], writePtr - slots[i].length)
  {
    PackedStep(slots, end, i);
    assert SlotOffset(i + 1) <= SlotOffset(|slots|);
  }

  /** One live slot of the packing loop. */
  lemma PackLive(b: seq<byte>, slots: seq<Slot>, end: nat, cur: seq<byte>, scratch: seq<byte>, writePtr: nat, i: nat,
                 cur': seq<byte>, scratch': seq<byte>, at: nat)
    requires i < |slots| && PackingOf(b, slots, end, cur, scratch, writePtr, i + 1) && Live(slots, i)
    requires at == writePtr - slots[i].length && TupleMoved(cur, scratch, cur', scratch', i, slots[i], at)
    ensures PackingOf(b, slots, end, cur', scratch', at, i)
  {
    PackedStep(slots, end, i);
    PackLiveCopied(b, slots, end, cur, scratch, i, scratch', at);
    RedirectSlot(b, slots, cur, i);
  }

  lemma PackLiveCopied(b: seq<byte>, slots: seq<Slot>, end: nat, cur: seq<byte>, scratch: seq<byte>, i: nat,
                       scratch': seq<byte>, at: nat)
    requires DirectoryOk(slots, end) && i < |slots| && Live(slots, i) && at == PackedOffset(slots, i)
    requires Redirected(b, slots, cur, i + 1) && CopiedFrom(scratch, b, slots, i + 1)
    requires at + slots[i].length <= BODY_SIZE && slots[i].offset + slots[i].length <= BODY_SIZE
    requires scratch' == PutBytes(scratch, at, TupleAt(cur, slots[i]))
    ensures CopiedFrom(scratch', b, slots, i)
  {
    SameTuple(b, cur, slots, end, i);
    PackedStep(slots, end, i);
    CopiedMore(scratch, b, slots, end, i, at);
  }

  /** Copying the packed tuples back and writing the header ends a compaction. */
  lemma PackDone(b: seq<byte>, n: nat, cur: seq<byte>, scratch: seq<byte>, writePtr: nat)
    requires Packing(b, n, cur, scratch, writePtr, 0)
    ensures ReadHeader(b).end <= writePtr <= BODY_SIZE
    ensures var h' := ReadHeader(b).(end := writePtr);
      var cur' := PutBytes(PutBytes(cur, writePtr, scratch[writePtr..]), 0, HeaderBytes(h'));
      PageOk(cur', n) && View(cur', n) == View(b, n) && ReadHeader(cur') == h'
  {
    var slots, h' := ReadSlots(b, n), ReadHeader(b).(end := writePtr);
    var cur' := PutBytes(PutBytes(cur, writePtr, scratch[writePtr..]), 0, HeaderBytes(h'));
    BackAndHeader(cur, n, scratch, writePtr, h');
    assert ReadSlots(cur', n) == Packed(slots);
    forall j | Live(slots, j)
      ensures TupleAt(cur', Packed(slots)[j]) == TupleAt(b, slots[j])
    {
      assert Copied(scratch, b, slots, j);
      PackedAbove(slots, j);
      SameBytes(cur', scratch, writePtr, Packed(slots)[j]);
    }
    CompactedOk(b, n, cur');
  }

  lemma SameBytes(b: seq<byte>, c: seq<byte>, from: nat, s: Slot)
    requires |b| == |c| && from <= s.offset && s.offset + s.length <= |b|
    requires forall x :: from <= x < |b| ==> b[x] == c[x]
    ensures TupleAt(b, s) == TupleAt(c, s)
  {
  }

  lemma BackAndHeader(cur: seq<byte>, n: nat, scratch: seq<byte>, writePtr: nat, h: Header)
    requires |cur| == |scratch| == BODY_SIZE && SlotOffset(n) <= writePtr <= BODY_SIZE && h.InRange()
    ensures var r := PutBytes(PutBytes(cur, writePtr, scratch[writePtr..]), 0, HeaderBytes(h));
      && ReadHeader(r) == h && ReadSlots(r, n) == ReadSlots(cur, n)
      && forall x :: writePtr <= x < BODY_SIZE ==> r[x] == scratch[x]
  {
    var cur1 := PutBytes(cur, writePtr, scratch[writePtr..]);
    WriteBeyondDirectory(cur, writePtr, scratch[writePtr..], n);
    PutBytesAt(cur, writePtr, scratch[writePtr..]);
    WriteOneHeader(cur1, h, n);
    PutBytesAt(cur1, 0, HeaderBytes(h));
  }

  lemma PackedAbove(slots: seq<Slot>, j: nat)
    requires SumFrom(slots, 0) <= BODY_SIZE && Live(slots, j)
    ensures BODY_SIZE - SumFrom(slots, 0) <= Packed(slots)[j].offset
    ensures Packed(slots)[j].offset + Packed(slots)[j].length <= BODY_SIZE
  {
    SumMonotone(slots, 0, j);
  }

  class SlottedPage {
    const body: array<byte>
    var slotCount: nat

    ghost predicate Valid()
      reads this, body
    {
      PageOk(body[..], slotCount)
    }

    /** What the page stores. */
    ghost function Tuples(): map<nat, seq<byte>>
      requires Valid()
      reads this, body
    {
      View(body[..], slotCount)
    }

    ghost function Head(): Header
      requires body.Length == BODY_SIZE
      reads this, body
    {
      ReadHeader(body[..])
    }

    ghost function Slots(): seq<Slot>
      requires body.Length == BODY_SIZE && SlotOffset(slotCount) <= BODY_SIZE
      reads this, body
    {
      ReadSlots(body[..], slotCount)
    }

    constructor Load(b: seq<byte>, n: nat)
      requires |b| == BODY_SIZE
      ensures body[..] == b && slotCount == n && fresh(body)
    {
      body := new byte[BODY_SIZE](i requires 0 <= i < BODY_SIZE => b[i]);
      slotCount := n;
      new;
      assert body[..] == b;
    }

    /** The serialiser: copies `data` into the body at `off`. */
    method Store(off: nat, data: seq<byte>)
      requires off + |data| <= body.Length
      modifies body
      ensures body[..] == PutBytes(old(body[..]), off, data)
    {
      ghost var was := body[..];
      var i := 0;
      while i < |data|
        invariant i <= |data|
        invariant forall x :: 0 <= x < body.Length ==>
          body[x] == if off <= x < off + i then data[x - off] else was[x]
      {
        body[off + i] := data[i];
        i := i + 1;
      }
      assert body[..] == PutBytes(was, off, data);
    }

    method GetSlot(i: nat) returns (s: Slot)
      requires body.Length == BODY_SIZE && SlotOffset(i + 1) <= BODY_SIZE
      ensures s == ReadSlot(body[..], i)
    {
      s := ReadSlot(body[..], i);
    }

    /** Zeroes the body and writes an empty directory. */
    method Initialize()
      requires body.Length == BODY_SIZE
      modifies this`slotCount, body
      ensures Valid() && slotCount == 0 && Tuples() == map[]
      ensures Head() == Header(0, HEADER_SIZE, BODY_SIZE, 0, NO_PAGE, NO_PAGE)
      ensures forall x :: HEADER_SIZE <= x < BODY_SIZE ==> body[x] == 0
    {
      var i := 0;
      while i < BODY_SIZE
        invariant i <= BODY_SIZE && forall x :: 0 <= x < i ==> body[x] == 0
      {
        body[i] := 0;
        i := i + 1;
      }
      slotCount := 0;
      ghost var was := body[..];
      Store(0, HeaderBytes(Header(0, HEADER_SIZE, BODY_SIZE, 0, NO_PAGE, NO_PAGE)));
      HeaderRoundTrip(was, Header(0, HEADER_SIZE, BODY_SIZE, 0, NO_PAGE, NO_PAGE));
      forall x | HEADER_SIZE <= x < BODY_SIZE
        ensures body[x] == 0
      {
        assert body[..][x] == was[x];
      }
    }

    /** The first deleted slot, if there is one. */
    method FindDeleted() returns (found: bool, k: nat)
      requires Valid()
      ensures found <==> exists i :: 0 <= i < slotCount && !Live(Slots(), i)
      ensures found ==> k < slotCount && !Live(Slots(), k) && forall i :: 0 <= i < k ==> Live(Slots(), i)
    {
      k := 0;
      while k < slotCount
        invariant k <= slotCount && forall i :: 0 <= i < k ==> Live(Slots(), i)
      {
        assert SlotOffset(k + 1) <= SlotOffset(slotCount);
        var s := GetSlot(k);
        assert s == Slots()[k];
        if s.Deleted() {
          assert !Live(Slots(), k);
          return true, k;
        }
        k := k + 1;
      }
      found := false;
    }

    method FreeSpace() returns (r: nat)
      requires Valid()
      ensures r == Head().end - Head().start
    {
      var h := ReadHeader(body[..]);
      r := if h.end > h.start then h.end - h.start else 0;
    }

    /** The bytes that inserting a tuple takes. */
    ghost function Needed(len: nat): (bytes: nat)
      requires Valid()
      reads this, body
      ensures bytes == len + if forall i :: 0 <= i < slotCount ==> i in Tuples() then 8 else 0
    {
      assert forall i: nat :: i < slotCount ==> (i in Tuples() <==> Live(Slots(), i));
      NeededBytes(Slots(), len)
    }

    method IsFull(len: nat) returns (full: bool)
      requires Valid()
      ensures full <==> Needed(len) > Head().end - Head().start
    {
      var free := FreeSpace();
      var hasDeleted, k := FindDeleted();
      full := free < if hasDeleted then len else len + SLOT_SIZE;
    }

    method ReadTuple(k: nat) returns (status: Status, t: seq<byte>)
      requires Valid()
      ensures status == (if k >= slotCount then NotFound else if k in Tuples() then Ok else InvalidArg)
      ensures status == Ok ==> t == Tuples()[k]
    {
      if k >= slotCount {
        return NotFound, [];
      }
      assert SlotOffset(k + 1) <= SlotOffset(slotCount);
      var s := GetSlot(k);
      assert s == Slots()[k];
      if s.Deleted() {
        return InvalidArg, [];
      }
      return Ok, body[..][s.offset..s.offset + s.length];
    }

    /** Copies the tuple below the free end and makes sure that slot `k` exists. */
    method Prepare(k: nat, t: seq<byte>) returns (n': nat, count: nat)
      requires Valid() && 0 < |t|
      requires SlotOffset(if k < slotCount then slotCount else k + 1) + |t| <= Head().end
      modifies body
      ensures n' == if k < slotCount then slotCount else k + 1
      ensures Prepared(old(body[..]), slotCount, body[..], n', k, t, count)
    {
      ghost var b, slots := body[..], Slots();
      var h := ReadHeader(body[..]);
      var newEnd := h.end - |t|;
      CountBound(slots, 0);
      Store(newEnd, t);
      WriteBeyondDirectory(b, newEnd, t, slotCount);
      assert body[..][newEnd..] == t + b[h.end..];
      count := h.tupleCount + 1;
      n' := slotCount;
      if k >= slotCount {
        n' := k + 1;
        ghost var b1 := body[..];
        OpenSlots(k, newEnd);
        assert body[newEnd..] == body[..][newEnd..] && b1[newEnd..] == t + b[h.end..];
      } else {
        assert SlotOffset(k + 1) <= SlotOffset(slotCount);
        var s := GetSlot(k);
        assert s == slots[k];
        if !s.Deleted() {
          assert Live(slots, k);
          count := count - 1;
        }
        assert slots + Gaps(0) == slots;
      }
    }

    /** Writes the slot and the header of a prepared placement. */
    method Commit(ghost b: seq<byte>, n': nat, k: nat, t: seq<byte>, count: nat)
      requires Prepared(b, slotCount, body[..], n', k, t, count)
      modifies this`slotCount, body
      ensures Valid() && slotCount == n'
      ensures Tuples() == View(b, old(slotCount))[k := t]
      ensures Head() == ReadHeader(b).(start := SlotOffset(n'), end := ReadHeader(b).end - |t|, tupleCount := count)
    {
      var h := ReadHeader(body[..]);
      FinishPlacement(b, slotCount, body[..], n', k, t, count);
      var s := Slot(h.end - |t|, |t|, 0, 0);
      PutSlotAndHeader(k, s, h.(start := SlotOffset(n'), end := s.offset, tupleCount := count));
      slotCount := n';
    }

    /** The two writes that end every update of a slot. */
    method PutSlotAndHeader(k: nat, s: Slot, h: Header)
      requires body.Length == BODY_SIZE && SlotOffset(k + 1) <= BODY_SIZE && s.InRange() && h.InRange()
      modifies body
      ensures body[..] == PutBytes(PutBytes(old(body[..]), SlotOffset(k), SlotBytes(s)), 0, HeaderBytes(h))
    {
      Store(SlotOffset(k), SlotBytes(s));
      Store(0, HeaderBytes(h));
    }

    /** Writes the tuple, the slots up to `k` and the header, in that order. */
    method Place(k: nat, t: seq<byte>)
      requires Valid() && 0 < |t|
      requires SlotOffset(if k < slotCount then slotCount else k + 1) + |t| <= Head().end
      modifies this`slotCount, body
      ensures Valid() && slotCount == (if k < old(slotCount) then old(slotCount) else k + 1)
      ensures Tuples() == old(Tuples())[k := t]
      ensures Head().prev == old(Head().prev) && Head().next == old(Head().next)
      ensures Head().end == old(Head().end) - |t|
    {
      ghost var b := body[..];
      var n', count := Prepare(k, t);
      Commit(b, n', k, t, count);
    }

    /** Appends deleted slots up to and including slot `k`. */
    method OpenSlots(k: nat, limit: nat)
      requires body.Length == BODY_SIZE && slotCount <= k && SlotOffset(k + 1) <= limit <= BODY_SIZE
      modifies body
      ensures ReadHeader(body[..]) == old(Head())
      ensures SlotOffset(slotCount) <= BODY_SIZE
      ensures ReadSlots(body[..], k + 1) == ReadSlots(old(body[..]), slotCount) + Gaps(k + 1 - slotCount)
      ensures body[limit..] == old(body[limit..])
    {
      ghost var b := body[..];
      assert SlotOffset(slotCount) <= SlotOffset(k + 1);
      var i := slotCount;
      assert ReadSlots(b, slotCount) + Gaps(0) == ReadSlots(b, slotCount);
      while i <= k
        invariant slotCount <= i <= k + 1
        invariant ReadHeader(body[..]) == ReadHeader(b)
        invariant SlotOffset(i) <= BODY_SIZE
        invariant ReadSlots(body[..], i) == ReadSlots(b, slotCount) + Gaps(i - slotCount)
        invariant body[limit..] == b[limit..]
      {
        ghost var was := body[..];
        assert SlotOffset(i + 1) <= SlotOffset(k + 1);
        Store(SlotOffset(i), SlotBytes(GAP));
        WriteOneSlot(was, i, GAP, i + 1);
        assert body[..][limit..] == was[limit..];
        assert ReadSlots(body[..], i + 1) == ReadSlots(was, i) + [GAP];
        assert Gaps(i - slotCount) + [GAP] == Gaps(i + 1 - slotCount);
        i := i + 1;
      }
    }

    /** Stores a tuple in the first deleted slot, or in a new one. */
    method InsertTuple(t: seq<byte>) returns (status: Status, k: nat)
      requires Valid()
      modifies this`slotCount, body
      ensures Valid() && Head().prev == old(Head().prev) && Head().next == old(Head().next)
      ensures status == (if t == [] then InvalidArg
                         else if old(Needed(|t|)) > old(Head().end - Head().start) then IoError else Ok)
      ensures status != Ok ==> body[..] == old(body[..]) && slotCount == old(slotCount)
      ensures status == Ok ==> FirstFree(old(Tuples()), k) && Tuples() == old(Tuples())[k := t]
      ensures status == Ok ==> k <= old(slotCount) && slotCount == (if k < old(slotCount) then old(slotCount) else k + 1)
      ensures status == Ok ==> Head().end == old(Head().end) - |t|
    {
      if t == [] {
        return InvalidArg, 0;
      }
      var h := ReadHeader(body[..]);
      var reuse, at := FindDeleted();
      var needed := if reuse then |t| else |t| + SLOT_SIZE;
      assert needed == Needed(|t|);
      if needed > h.end - h.start {
        return IoError, 0;
      }
      k := if reuse then at else slotCount;
      assert forall i :: 0 <= i < k ==> Live(Slots(), i);
      Place(k, t);
      status := Ok;
    }

    /** Stores a tuple in a given slot; slots that come into being below it are deleted ones. */
    method InsertTupleAtSlot(k: nat, t: seq<byte>) returns (status: Status)
      requires Valid()
      modifies this`slotCount, body
      ensures Valid() && Head().prev == old(Head().prev) && Head().next == old(Head().next)
      ensures status == (if t == [] then InvalidArg
                         else if |t| + (if k < old(slotCount) then 0 else SLOT_SIZE * (k + 1 - old(slotCount)))
                                 > old(Head().end - Head().start) then IoError else Ok)
      ensures status != Ok ==> body[..] == old(body[..]) && slotCount == old(slotCount)
      ensures status == Ok ==>
        && Tuples() == old(Tuples())[k := t] && Head().end == old(Head().end) - |t|
        && slotCount == (if k < old(slotCount) then old(slotCount) else k + 1)
    {
      if t == [] {
        return InvalidArg;
      }
      var h := ReadHeader(body[..]);
      var needed := if k < slotCount then 0 else SLOT_SIZE * (k + 1 - slotCount);
      if |t| + needed > h.end - h.start {
        return IoError;
      }
      Place(k, t);
      status := Ok;
    }

    /** Gives a live slot a new tuple. */
    method UpdateTuple(k: nat, t: seq<byte>) returns (status: Status)
      requires Valid()
      modifies this`slotCount, body
      ensures Valid() && slotCount == old(slotCount)
      ensures Head().prev == old(Head().prev) && Head().next == old(Head().next)
      ensures status == (if t == [] then InvalidArg else if k >= slotCount then NotFound
                         else if k !in old(Tuples()) then InvalidArg
                         else if |t| > old(Head().end - Head().start) then IoError else Ok)
      ensures status != Ok ==> body[..] == old(body[..])
      ensures status == Ok ==> Tuples() == old(Tuples())[k := t] && Head().end == old(Head().end) - |t|
    {
      if t == [] {
        return InvalidArg;
      }
      if k >= slotCount {
        return NotFound;
      }
      assert SlotOffset(k + 1) <= SlotOffset(slotCount);
      var s := GetSlot(k);
      assert s == Slots()[k];
      if s.Deleted() {
        return InvalidArg;
      }
      var h := ReadHeader(body[..]);
      if |t| > h.end - h.start {
        return IoError;
      }
      Place(k, t);
      status := Ok;
    }

    /** Marks a slot deleted; its bytes stay until the page is compacted. */
    method DeleteTuple(k: nat) returns (status: Status)
      requires Valid()
      modifies body
      ensures Valid() && Head().prev == old(Head().prev) && Head().next == old(Head().next)
      ensures status == (if k >= slotCount then NotFound else if k in old(Tuples()) then Ok else InvalidArg)
      ensures status != Ok ==> body[..] == old(body[..])
      ensures status == Ok ==> Tuples() == old(Tuples()) - {k} && Head().end == old(Head().end)
    {
      if k >= slotCount {
        return NotFound;
      }
      assert SlotOffset(k + 1) <= SlotOffset(slotCount);
      var s := GetSlot(k);
      assert s == Slots()[k];
      if s.Deleted() {
        return InvalidArg;
      }
      EraseSlot(k, s);
      status := Ok;
    }

    method EraseSlot(k: nat, s: Slot)
      requires Valid() && k < slotCount && s == Slots()[k] && !s.Deleted()
      modifies body
      ensures Valid() && Tuples() == old(Tuples()) - {k}
      ensures Head().tupleCount + 1 == old(Head().tupleCount) && Head().end == old(Head().end)
      ensures Head().prev == old(Head().prev) && Head().next == old(Head().next)
    {
      DeletedOk(body[..], slotCount, k);
      var h := ReadHeader(body[..]);
      PutSlotAndHeader(k, s.MarkDeleted(), h.(tupleCount := h.tupleCount - 1));
    }

    method SetLinks(prev: nat, next: nat)
      requires Valid() && prev <= NO_PAGE && next <= NO_PAGE
      modifies body
      ensures Valid() && Tuples() == old(Tuples())
      ensures Head() == old(Head()).(prev := prev, next := next)
    {
      LinkedOk(body[..], slotCount, prev, next);
      var h := ReadHeader(body[..]);
      Store(0, HeaderBytes(h.(prev := prev, next := next)));
    }

    /** Copies the bytes of a slot into the scratch buffer. */
    method CopyTuple(scratch: array<byte>, at: nat, s: Slot)
      requires body.Length == scratch.Length == BODY_SIZE && scratch != body
      requires s.offset + s.length <= BODY_SIZE && at + s.length <= BODY_SIZE
      modifies scratch
      ensures scratch[..] == PutBytes(old(scratch[..]), at, body[..][s.offset..s.offset + s.length])
    {
      var i := 0;
      while i < s.length
        invariant i <= s.length
        invariant forall x :: 0 <= x < BODY_SIZE ==>
          scratch[x] == if at <= x < at + i then body[s.offset + (x - at)] else old(scratch[x])
      {
        scratch[at + i] := body[s.offset + i];
        i := i + 1;
      }
      assert scratch[..] == PutBytes(old(scratch[..]), at, body[..][s.offset..s.offset + s.length]);
    }

    /** One slot of the packing loop. */
    method PackSlot(ghost b: seq<byte>, scratch: array<byte>, writePtr: nat, i: nat) returns (writePtr': nat)
      requires i < slotCount && scratch != body && Packing(b, slotCount, body[..], scratch[..], writePtr, i + 1)
      modifies body, scratch
      ensures Packing(b, slotCount, body[..], scratch[..], writePtr', i)
    {
      ghost var slots, end := ReadSlots(b, slotCount), ReadHeader(b).end;
      assert SlotOffset(i + 1) <= SlotOffset(slotCount);
      var s := GetSlot(i);
      assert s == ReadSlots(body[..], slotCount)[i] == slots[i];
      if s.Deleted() {
        PackDeleted(b, slots, end, body[..], scratch[..], writePtr, i);
        return writePtr;
      }
      writePtr' := MoveTuple(b, slots, end, scratch, writePtr, i, s);
    }

    /** Copies a tuple to its packed place and redirects its slot. */
    method MoveBytes(scratch: array<byte>, at: nat, i: nat, s: Slot)
      requires scratch != body && MoveFits(body[..], scratch[..], i, s, at)
      modifies body, scratch
      ensures TupleMoved(old(body[..]), old(scratch[..]), body[..], scratch[..], i, s, at)
    {
      CopyTuple(scratch, at, s);
      Store(SlotOffset(i), SlotBytes(s.(offset := at)));
    }

    method MoveTuple(ghost b: seq<byte>, ghost slots: seq<Slot>, ghost end: nat, scratch: array<byte>, writePtr: nat, i: nat, s: Slot)
      returns (writePtr': nat)
      requires scratch != body && i < |slots| && Live(slots, i) && s == slots[i]
      requires PackingOf(b, slots, end, body[..], scratch[..], writePtr, i + 1)
      modifies body, scratch
      ensures PackingOf(b, slots, end, body[..], scratch[..], writePtr', i)
    {
      ghost var cur, was := body[..], scratch[..];
      MoveRoom(b, slots, end, cur, was, writePtr, i);
      writePtr' := writePtr - s.length;
      MoveBytes(scratch, writePtr', i, s);
      PackLive(b, slots, end, cur, was, writePtr, i, body[..], scratch[..], writePtr');
    }

    /** Copies the live tuples into the scratch buffer, from the last slot down. */
    method PackAll(scratch: array<byte>) returns (writePtr: nat)
      requires Valid() && scratch != body && scratch.Length == BODY_SIZE
      modifies body, scratch
      ensures Packing(old(body[..]), slotCount, body[..], scratch[..], writePtr, 0)
    {
      writePtr := BODY_SIZE;
      var i: nat := slotCount;
      while i > 0
        invariant i <= slotCount && Packing(old(body[..]), slotCount, body[..], scratch[..], writePtr, i)
      {
        writePtr := PackSlot(old(body[..]), scratch, writePtr, i - 1);
        i := i - 1;
      }
    }

    /** Packs the live tuples at the end of the body; slot ids stay. */
    method Compact() returns (reclaimed: nat)
      requires Valid()
      modifies body
      ensures Valid() && Tuples() == old(Tuples())
      ensures Head().end == BODY_SIZE - SumFrom(old(Slots()), 0)
      ensures reclaimed == Head().end - old(Head().end)
      ensures Head() == old(Head()).(end := Head().end)
    {
      ghost var b := body[..];
      var h := ReadHeader(body[..]);
      var scratch := new byte[BODY_SIZE](_ => 0);
      var writePtr := PackAll(scratch);
      reclaimed := if writePtr > h.end then writePtr - h.end else 0;
      PackDone(b, slotCount, body[..], scratch[..], writePtr);
      WriteBack(scratch, writePtr, h.(end := writePtr));
    }

    method WriteBack(scratch: array<byte>, writePtr: nat, h: Header)
      requires body.Length == scratch.Length == BODY_SIZE && writePtr <= BODY_SIZE && h.InRange()
      modifies body
      ensures body[..] == PutBytes(PutBytes(old(body[..]), writePtr, old(scratch[..])[writePtr..]), 0, HeaderBytes(h))
    {
      assert scratch[writePtr..] == scratch[..][writePtr..];
      Store(writePtr, scratch[writePtr..]);
      Store(0, HeaderBytes(h));
    }
  }
}

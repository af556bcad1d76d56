/** The table heap: slotted pages in a doubly linked chain on disk. */
module TableHeap {
  import opened Common
  import opened PageBytes
  import opened SlotDirectory
  import opened SlottedPage
  import opened HeapChain

  /** A page on disk: its body, and the slot count of its header. */
  datatype Image = Image(body: seq<byte>, slots: nat)

  type Pages = map<nat, Image>

  /** The longest tuple that fits into an empty page. */
  const MAX_TUPLE: nat := BODY_SIZE - HEADER_SIZE - SLOT_SIZE

  ghost predicate ImageOk(im: Image) {
    PageOk(im.body, im.slots)
  }

  function HeadOf(im: Image): Header
    requires |im.body| == BODY_SIZE
  {
    ReadHeader(im.body)
  }

  ghost function InfoOf(im: Image): PageInfo
    requires ImageOk(im)
  {
    PageInfo(HeadOf(im).prev, HeadOf(im).next, im.slots, View(im.body, im.slots))
  }

  /** `im` is a slotted page that says `info`. */
  ghost predicate Shows(im: Image, info: PageInfo) {
    ImageOk(im) && InfoOf(im) == info
  }

  // ---- One page ----------------------------------------------------------

  ghost predicate Fits(im: Image, len: nat)
    requires ImageOk(im)
  {
    NeededBytes(ReadSlots(im.body, im.slots), len) <= HeadOf(im).end - HeadOf(im).start
  }

  /** Inserts a tuple if the page is not full.  The test and the insertion agree. */
  method InsertInto(im: Image, t: Bytes) returns (ok: bool, k: nat, im': Image)
    requires ImageOk(im) && t != []
    ensures ok <==> Fits(im, |t|)
    ensures ok ==> ImageOk(im') && FirstFree(InfoOf(im).tuples, k)
    ensures ok ==> InfoOf(im') == InfoOf(im).(slots := im'.slots, tuples := InfoOf(im).tuples[k := t])
    ensures !ok ==> im' == im
  {
    var sp := new SlottedPage.Load(im.body, im.slots);
    var full := sp.IsFull(|t|);
    if !full {
      var status: Status;
      status, k := sp.InsertTuple(t);
      return status == Ok, k, Image(sp.body[..], sp.slotCount);
    }
    return false, 0, im;
  }

  method SetNext(im: Image, next: nat) returns (im': Image)
    requires ImageOk(im) && next <= NO_PAGE
    ensures Shows(im', InfoOf(im).(next := next))
  {
    var sp := new SlottedPage.Load(im.body, im.slots);
    sp.SetLinks(HeadOf(im).prev, next);
    im' := Image(sp.body[..], sp.slotCount);
  }

  /** An initialised page with one tuple. */
  method FreshPage(blank: seq<byte>, prev: nat, t: Bytes) returns (ok: bool, k: nat, im: Image)
    requires |blank| == BODY_SIZE && prev <= NO_PAGE && t != []
    ensures ok <==> |t| <= MAX_TUPLE
    ensures ok ==> k == 0 && Shows(im, PageInfo(prev, NO_PAGE, im.slots, map[k := t]))
  {
    var sp := new SlottedPage.Load(blank, 0);
    sp.Initialize();
    sp.SetLinks(prev, NO_PAGE);
    var status: Status;
    status, k := sp.InsertTuple(t);
    ok, im := status == Ok, Image(sp.body[..], sp.slotCount);
  }

  method EmptyPage(blank: seq<byte>) returns (im: Image)
    requires |blank| == BODY_SIZE
    ensures Shows(im, PageInfo(NO_PAGE, NO_PAGE, 0, map[]))
  {
    var sp := new SlottedPage.Load(blank, 0);
    sp.Initialize();
    im := Image(sp.body[..], sp.slotCount);
  }

  method ReadFrom(im: Image, k: nat) returns (status: Status, t: Bytes)
    requires ImageOk(im)
    ensures status == (if k in InfoOf(im).tuples then Ok else if k >= im.slots then NotFound else InvalidArg)
    ensures status == Ok ==> t == InfoOf(im).tuples[k]
  {
    var sp := new SlottedPage.Load(im.body, im.slots);
    status, t := sp.ReadTuple(k);
  }

  method DeleteFrom(im: Image, k: nat) returns (status: Status, im': Image)
    requires ImageOk(im)
    ensures status == (if k in InfoOf(im).tuples then Ok else if k >= im.slots then NotFound else InvalidArg)
    ensures status == Ok ==> Shows(im', InfoOf(im).(tuples := InfoOf(im).tuples - {k}))
    ensures status != Ok ==> im' == im
  {
    var sp := new SlottedPage.Load(im.body, im.slots);
    status := sp.DeleteTuple(k);
    im' := Image(sp.body[..], sp.slotCount);
  }

  // ---- The live count of a page ------------------------------------------

  ghost function LiveFrom(slots: seq<Slot>, i: nat): set<nat> {
    set k: nat | i <= k < |slots| && Live(slots, k)
  }

  lemma {:induction false} CountIsLive(slots: seq<Slot>, i: nat)
    requires i <= |slots|
    ensures |LiveFrom(slots, i)| == CountFrom(slots, i)
    decreases |slots| - i
  {
    if i < |slots| {
      CountIsLive(slots, i + 1);
      if Live(slots, i) {
        assert LiveFrom(slots, i) == LiveFrom(slots, i + 1) + {i};
      } else {
        assert LiveFrom(slots, i) == LiveFrom(slots, i + 1);
      }
    } else {
      assert LiveFrom(slots, i) == {};
    }
  }

  /** The count in the header is the number of tuples. */
  lemma HeaderCounts(im: Image)
    requires ImageOk(im)
    ensures HeadOf(im).tupleCount == |InfoOf(im).tuples|
  {
    var slots := ReadSlots(im.body, im.slots);
    CountIsLive(slots, 0);
    assert InfoOf(im).tuples.Keys == LiveFrom(slots, 0);
  }

  // ---- The disk ----------------------------------------------------------

  function BlankBody(): (b: seq<byte>)
    ensures |b| == BODY_SIZE && forall i :: 0 <= i < |b| ==> b[i] == 0
  {
    seq(BODY_SIZE, _ => 0)
  }

  /** A page that was allocated and never written. */
  function Blank(): Image {
    Image(BlankBody(), 0)
  }

  lemma BlankIsNoPage()
    ensures !ImageOk(Blank()) && HeadOf(Blank()).tupleCount == 0 && HeadOf(Blank()).next == 0
  {
    assert GetU16(BlankBody(), 2) == 0;
  }

  ghost function InsertedInfo(info: PageInfo, slots: nat, k: nat, t: Bytes): PageInfo {
    info.(slots := slots, tuples := info.tuples[k := t])
  }

  ghost function DeletedInfo(info: PageInfo, k: nat): PageInfo {
    info.(tuples := info.tuples - {k})
  }

  /** Page `p` of the disk is a slotted page that says what `slotted` holds for it,
      or is blank and `slotted` does not know it. */
  ghost predicate PageShown(pages: Pages, slotted: Infos, p: nat) {
    && (p in slotted <==> p in pages && ImageOk(pages[p]))
    && (p in slotted ==> slotted[p] == InfoOf(pages[p]))
    && (p in pages && p !in slotted ==> pages[p] == Blank())
  }

  /** How a slot of page `p` can be accessed. */
  ghost function SlotStatus(pages: Pages, slotted: Infos, p: nat, k: nat): Status
    requires p in pages
  {
    if p in slotted && k in slotted[p].tuples then Ok else if k >= pages[p].slots then NotFound else InvalidArg
  }

  /** How a record can be accessed: it is live on the page it names, of whatever heap. */
  ghost function RecordStatus(pages: Pages, slotted: Infos, rid: RID): Status {
    if rid.pageId == NO_PAGE then InvalidArg
    else if rid.pageId !in pages then NotFound
    else SlotStatus(pages, slotted, rid.pageId, rid.slotId)
  }

  /** Every page is shown. */
  ghost predicate AllShown(pages: Pages, slotted: Infos) {
    forall p {:trigger PageShown(pages, slotted, p)} :: PageShown(pages, slotted, p)
  }

  lemma BlankShown(pages: Pages, slotted: Infos, p: nat)
    requires AllShown(pages, slotted) && p !in pages
    ensures AllShown(pages[p := Blank()], slotted) && p !in slotted
  {
    BlankIsNoPage();
    var pages' := pages[p := Blank()];
    forall q
      ensures PageShown(pages', slotted, q)
    {
      assert PageShown(pages, slotted, q);
    }
    assert PageShown(pages, slotted, p);
  }

  lemma WriteShown(pages: Pages, slotted: Infos, p: nat, im: Image)
    requires AllShown(pages, slotted) && ImageOk(im)
    ensures AllShown(pages[p := im], slotted[p := InfoOf(im)])
  {
    var pages', slotted' := pages[p := im], slotted[p := InfoOf(im)];
    forall q
      ensures PageShown(pages', slotted', q)
    {
      assert PageShown(pages, slotted, q);
    }
  }

  /** No tuple stands behind the last slot. */
  lemma BeyondSlots(pages: Pages, slotted: Infos, p: nat, k: nat)
    requires p in pages && PageShown(pages, slotted, p) && k >= pages[p].slots
    ensures SlotStatus(pages, slotted, p, k) == NotFound
  {
  }

  class Disk {
    var pages: Pages
    var count: nat
    ghost var slotted: Infos

    ghost predicate Valid()
      reads this
    {
      && (forall p: nat :: p in pages <==> p < count)
      && AllShown(pages, slotted)
    }

    constructor Empty()
      ensures Valid() && count == 0
    {
      pages, count, slotted := map[], 0, map[];
      new;
      forall p
        ensures PageShown(pages, slotted, p)
      {
      }
    }

    /** A new page of zero bytes; identifiers are handed out in order. */
    method Allocate() returns (p: nat)
      requires Valid()
      modifies this`pages, this`count
      ensures Valid() && p == old(count) && count == p + 1 && p !in slotted && p in pages
    {
      p := count;
      count := count + 1;
      BlankShown(pages, slotted, p);
      pages := pages[p := Blank()];
    }

    method Write(p: nat, im: Image)
      requires Valid() && p in pages && ImageOk(im)
      modifies this`pages, this`slotted
      ensures Valid() && pages == old(pages)[p := im] && slotted == old(slotted)[p := InfoOf(im)]
    {
      WriteShown(pages, slotted, p, im);
      pages, slotted := pages[p := im], slotted[p := InfoOf(im)];
    }

    /** Reads a slotted page. */
    method Read(p: nat) returns (im: Image)
      requires Valid() && p in slotted
      ensures Shows(im, slotted[p]) && p in pages && im == pages[p]
    {
      assert PageShown(pages, slotted, p);
      im := pages[p];
    }

    /** Inserts into one page and writes it back, if there is room. */
    method InsertOn(p: nat, t: Bytes) returns (ok: bool, k: nat, ghost slots: nat)
      requires Valid() && p in slotted && t != []
      modifies this`pages, this`slotted
      ensures Valid() && (ok ==> |t| <= MAX_TUPLE) && (!ok ==> pages == old(pages) && slotted == old(slotted))
      ensures ok <==> RoomOn(old(pages), p, |t|)
      ensures ok ==> FirstFree(old(slotted)[p].tuples, k)
      ensures ok ==> slotted == old(slotted)[p := InsertedInfo(old(slotted)[p], slots, k, t)]
    {
      var im := Read(p);
      var im';
      ok, k, im' := InsertInto(im, t);
      if ok {
        FitsBound(im, |t|);
        Write(p, im');
      }
      slots := im'.slots;
    }

    /** Reads a slot of any page; a blank one has no slots. */
    method ReadOn(p: nat, k: nat) returns (status: Status, t: Bytes)
      requires Valid() && p in pages
      ensures status == SlotStatus(pages, slotted, p, k)
      ensures status == Ok ==> t == slotted[p].tuples[k]
    {
      assert PageShown(pages, slotted, p);
      if k >= pages[p].slots {
        BeyondSlots(pages, slotted, p, k);
        return NotFound, [];
      }
      status, t := ReadFrom(pages[p], k);
    }

    /** Deletes a slot of any page and writes the page back. */
    method DeleteOn(p: nat, k: nat) returns (status: Status)
      requires Valid() && p in pages
      modifies this`pages, this`slotted
      ensures Valid() && status == SlotStatus(old(pages), old(slotted), p, k)
      ensures status == Ok ==> slotted == old(slotted)[p := DeletedInfo(old(slotted)[p], k)]
      ensures status == Ok ==> p in pages && pages == old(pages)[p := pages[p]]
      ensures status != Ok ==> pages == old(pages) && slotted == old(slotted)
    {
      assert PageShown(pages, slotted, p);
      if k >= pages[p].slots {
        BeyondSlots(pages, slotted, p, k);
        return NotFound;
      }
      var im';
      status, im' := DeleteFrom(pages[p], k);
      if status == Ok {
        Write(p, im');
      }
    }

    /** Initialises page `p` with one tuple, if the tuple is not too long. */
    method WriteFresh(p: nat, prev: nat, t: Bytes) returns (ok: bool, k: nat, ghost slots: nat)
      requires Valid() && p in pages && prev <= NO_PAGE && t != []
      modifies this`pages, this`slotted
      ensures Valid() && (ok <==> |t| <= MAX_TUPLE) && (!ok ==> slotted == old(slotted))
      ensures ok ==> k == 0 && slotted == old(slotted)[p := PageInfo(prev, NO_PAGE, slots, map[k := t])]
    {
      var im;
      ok, k, im := FreshPage(BlankBody(), prev, t);
      if ok {
        Write(p, im);
      }
      slots := im.slots;
    }

    /** The live count and the next page that a page's header names; zeros on a blank page. */
    method HeaderOf(p: nat) returns (tuples: nat, next: nat)
      requires Valid() && p in pages
      ensures tuples == SizeOf(slotted, p) && next == NextAt(slotted, p)
    {
      assert PageShown(pages, slotted, p);
      var im := pages[p];
      if p in slotted {
        HeaderCounts(im);
      } else {
        BlankIsNoPage();
      }
      tuples, next := HeadOf(im).tupleCount, HeadOf(im).next;
    }

    method NextOf(p: nat) returns (next: nat)
      requires Valid() && p in slotted
      ensures next == slotted[p].next
    {
      assert PageShown(pages, slotted, p);
      next := HeadOf(pages[p]).next;
    }
  }

  /** The next page of `p`; a blank page names page 0. */
  ghost function NextAt(c: Infos, p: nat): nat {
    if p in c then c[p].next else 0
  }

  ghost predicate StepOk(pages: Pages, c: Infos, way: seq<nat>, i: int) {
    && 0 <= i < |way| && way[i] in pages && way[i] != NO_PAGE
    && (i + 1 < |way| ==> NextAt(c, way[i]) == way[i + 1])
  }

  ghost function WayEnd(c: Infos, way: seq<nat>, first: nat): nat {
    if way == [] then first else NextAt(c, way[|way| - 1])
  }

  /** The links from `first` lead along `way`, and then to no page or to one that cannot be read. */
  ghost predicate IsWay(pages: Pages, c: Infos, way: seq<nat>, first: nat) {
    && (way != [] ==> way[0] == first)
    && (forall i {:trigger StepOk(pages, c, way, i)} :: 0 <= i < |way| ==> StepOk(pages, c, way, i))
    && (WayEnd(c, way, first) == NO_PAGE || WayEnd(c, way, first) !in pages)
  }

  ghost predicate Kept(c: Infos, c': Infos, chain: seq<nat>, p: nat) {
    p in c && p !in chain ==> p in c' && c'[p] == c[p]
  }

  /** Pages outside the chain say what they said. */
  ghost predicate OthersKept(c: Infos, c': Infos, chain: seq<nat>) {
    forall p {:trigger Kept(c, c', chain, p)} :: Kept(c, c', chain, p)
  }

  ghost predicate RoomOn(pages: Pages, p: nat, len: nat) {
    p in pages && ImageOk(pages[p]) && Fits(pages[p], len)
  }

  /** No page before place `i` of the chain has room. */
  ghost predicate NoRoomBefore(pages: Pages, chain: seq<nat>, i: nat, len: nat)
    requires i <= |chain|
  {
    forall j {:trigger RoomOn(pages, chain[j], len)} :: 0 <= j < i ==> !RoomOn(pages, chain[j], len)
  }

  /** The counter is 64 bits wide and wraps. */
  function OneLess(n: nat): nat {
    if n == 0 then 0xFFFF_FFFF_FFFF_FFFF else n - 1
  }

  /** All slots below that of the record store something. */
  ghost predicate SlotsBelow(m: map<RID, Bytes>, rid: RID) {
    forall i: nat :: i < rid.slotId ==> RID(rid.pageId, i) in m
  }

  /** The slots below the first free one of a page are records of the heap. */
  lemma SlotsTaken(c: Infos, chain: seq<nat>, first: nat, m: map<RID, Bytes>, total: nat, i: nat, k: nat)
    requires HeapIs(c, chain, first, m, total) && LinkOk(c, chain, i) && FirstFree(c[chain[i]].tuples, k)
    ensures SlotsBelow(m, RID(chain[i], k))
  {
    forall j: nat | j < k
      ensures RID(chain[i], j) in m
    {
      assert RecordOk(c, chain, m, RID(chain[i], j));
    }
  }

  class TableHeap {
    const disk: Disk
    var first: nat
    var last: nat
    var pageCount: nat
    var tupleCount: nat
    ghost var chain: seq<nat>
    ghost var tuples: map<RID, Bytes>  // what the heap stores

    /** The cached fields describe the chain, and `tuples` is what its pages hold. */
    ghost predicate Valid()
      reads this, disk
    {
      && disk.Valid() && HeapIs(disk.slotted, chain, first, tuples, tupleCount)
      && last == chain[|chain| - 1] && pageCount == |chain|
    }

    /** The cached tuple count is the number of records. */
    lemma CountsRecords()
      requires Valid()
      ensures tupleCount == |tuples|
    {
      TotalCounts(disk.slotted, chain);
      RecordsAre(disk.slotted, chain, tuples);
      assert tuples.Keys == Records(disk.slotted, chain);
    }

    /** A heap of one empty page. */
    constructor Create(disk: Disk)
      requires disk.Valid() && disk.count < NO_PAGE
      modifies disk
      ensures Valid() && this.disk == disk && tuples == map[] && first == old(disk.count) && chain == [first]
      ensures disk.slotted == old(disk.slotted)[first := PageInfo(NO_PAGE, NO_PAGE, 0, map[])] && disk.count == first + 1
    {
      this.disk := disk;
      new;
      var p := disk.Allocate();
      var im := EmptyPage(BlankBody());
      ghost var c := disk.slotted;
      disk.Write(p, im);
      first, last, pageCount, tupleCount, chain, tuples := p, p, 1, 0, [p], map[];
      StartsEmpty(c, p);
    }

    constructor At(disk: Disk, first: nat, last: nat, pages: nat, tuples: nat, ghost chain: seq<nat>)
      ensures this.disk == disk && this.first == first && this.last == last && this.chain == chain
      ensures pageCount == pages && tupleCount == tuples && this.tuples == Flatten(disk.slotted, chain)
    {
      this.disk, this.first, this.last, this.chain := disk, first, last, chain;
      pageCount, tupleCount, this.tuples := pages, tuples, Flatten(disk.slotted, chain);
    }

    /** Walks the links from `first` and counts pages and tuples.  There is no heap if they
        lead to a page that cannot be read; a proper chain gives a proper heap. */
    static method Open(disk: Disk, first: nat, ghost way: seq<nat>) returns (heap: Option<TableHeap>)
      requires disk.Valid() && IsWay(disk.pages, disk.slotted, way, first)
      ensures heap.Some? <==> WayEnd(disk.slotted, way, first) == NO_PAGE
      ensures heap.Some? ==> fresh(heap.value) && heap.value.disk == disk && heap.value.first == first && heap.value.chain == way
      ensures heap.Some? ==> heap.value.pageCount == |way| && heap.value.tupleCount == Total(disk.slotted, way)
      ensures ChainOk(disk.slotted, way, first) ==> heap.Some? && heap.value.Valid()
    {
      var status, last, pages, tuples := Bootstrap(disk, first, way);
      if ChainOk(disk.slotted, way, first) {
        assert LinkOk(disk.slotted, way, |way| - 1);
      }
      if status != Ok {
        return None;
      }
      var h := new TableHeap.At(disk, first, last, pages, tuples, way);
      RecordsAre(disk.slotted, way, h.tuples);
      heap := Some(h);
    }

    /** Reads a record of any page.  It is one of this heap exactly if its page is. */
    method ReadTuple(rid: RID) returns (status: Status, t: Bytes)
      requires Valid()
      ensures status == RecordStatus(disk.pages, disk.slotted, rid)
      ensures status == Ok ==> t == disk.slotted[rid.pageId].tuples[rid.slotId]
      ensures rid in tuples <==> status == Ok && rid.pageId in chain
      ensures rid in tuples ==> t == tuples[rid]
    {
      NotInChain(disk.slotted, chain, first);
      assert RecordOk(disk.slotted, chain, tuples, rid);
      if rid.pageId == NO_PAGE {
        return InvalidArg, [];
      }
      if rid.pageId !in disk.pages {
        assert rid.pageId >= 0 ==> PageShown(disk.pages, disk.slotted, rid.pageId);
        return NotFound, [];
      }
      status, t := disk.ReadOn(rid.pageId, rid.slotId);
    }

    /** Deletes a record of any page, and counts it as one of this heap.  The heap stays
        right in everything but the count, and in the count exactly if the page is its own. */
    method DeleteTuple(rid: RID) returns (status: Status)
      requires Valid()
      modifies this`tupleCount, this`tuples, disk`pages, disk`slotted
      ensures disk.Valid() && status == RecordStatus(old(disk.pages), old(disk.slotted), rid)
      ensures status == Ok ==>
        disk.slotted == old(disk.slotted)[rid.pageId := DeletedInfo(old(disk.slotted)[rid.pageId], rid.slotId)]
      ensures status == Ok ==> rid.pageId in disk.pages && disk.pages == old(disk.pages)[rid.pageId := disk.pages[rid.pageId]]
      ensures status != Ok ==> disk.pages == old(disk.pages) && disk.slotted == old(disk.slotted)
      ensures tuples == old(tuples) - {rid} && HeapIs(disk.slotted, chain, first, tuples, Total(disk.slotted, chain))
      ensures tupleCount == if status == Ok then OneLess(old(tupleCount)) else old(tupleCount)
      ensures Valid() <==> status != Ok || rid.pageId in chain
    {
      NotInChain(disk.slotted, chain, first);
      assert RecordOk(disk.slotted, chain, tuples, rid);
      assert rid.pageId >= 0 ==> PageShown(disk.pages, disk.slotted, rid.pageId);
      if rid.pageId == NO_PAGE {
        return InvalidArg;
      }
      if rid.pageId !in disk.pages {
        return NotFound;
      }
      ghost var c := disk.slotted;
      status := disk.DeleteOn(rid.pageId, rid.slotId);
      if status == Ok {
        Forget(rid, c);
      }
    }

    /** Counts a record that was deleted on disk; `c` is what the pages said before. */
    method Forget(rid: RID, ghost c: Infos)
      requires disk.Valid() && HeapIs(c, chain, first, tuples, tupleCount)
      requires last == chain[|chain| - 1] && pageCount == |chain|
      requires rid.pageId >= 0 && rid.pageId in c && rid.slotId in c[rid.pageId].tuples
      requires disk.slotted == c[rid.pageId := DeletedInfo(c[rid.pageId], rid.slotId)]
      modifies this`tupleCount, this`tuples
      ensures tuples == old(tuples) - {rid} && tupleCount == OneLess(old(tupleCount))
      ensures HeapIs(disk.slotted, chain, first, tuples, Total(disk.slotted, chain))
      ensures Valid() <==> rid.pageId in chain
    {
      DeletedAnywhere(c, chain, first, tuples, tupleCount, rid.pageId, rid.slotId);
      tupleCount, tuples := OneLess(tupleCount), tuples - {rid};
    }

    /** Stores a tuple in the first page that has room, or in a new page at the end.
        A tuple too long for any page breaks the chain. */
    method InsertTuple(t: Bytes) returns (status: Status, rid: RID, ghost place: nat)
      requires Valid() && disk.count < NO_PAGE
      modifies this, disk
      ensures status == (if t == [] then InvalidArg else if |t| <= MAX_TUPLE then Ok else IoError)
      ensures status == InvalidArg ==> Valid() && tuples == old(tuples) && disk.pages == old(disk.pages)
      ensures status == Ok ==> Valid() && rid !in old(tuples) && tuples == old(tuples)[rid := t]
      ensures status == Ok ==> place <= |old(chain)| && NoRoomBefore(old(disk.pages), old(chain), place, |t|)
      ensures status == Ok ==> rid.pageId == if place < |old(chain)| then old(chain)[place] else old(disk.count)
      ensures status == Ok ==>
        && chain == (if place < |old(chain)| then old(chain) else old(chain) + [old(disk.count)])
        && disk.count == (if place < |old(chain)| then old(disk.count) else old(disk.count) + 1)
      ensures status == Ok ==> SlotsBelow(old(tuples), rid)
      ensures status == IoError ==> forall other :: !ChainOk(disk.slotted, other, first)
      ensures first == old(first) && OthersKept(old(disk.slotted), disk.slotted, old(chain))
    {
      if t == [] {
        return InvalidArg, RID(INVALID, 0), 0;
      }
      var ok;
      ok, rid, place := InsertInChain(t);
      if ok {
        return Ok, rid, place;
      }
      status, rid := Append(t);
    }

    /** Walks the chain to the first page that has room. */
    method InsertInChain(t: Bytes) returns (ok: bool, rid: RID, ghost place: nat)
      requires Valid() && t != []
      modifies this`tupleCount, this`tuples, disk`pages, disk`slotted
      ensures Valid() && place <= |chain| && NoRoomBefore(old(disk.pages), chain, place, |t|)
      ensures ok ==> |t| <= MAX_TUPLE && rid !in old(tuples) && tuples == old(tuples)[rid := t]
      ensures ok ==> place < |chain| && rid.pageId == chain[place]
      ensures ok ==> SlotsBelow(old(tuples), rid)
      ensures !ok ==> place == |chain| && tuples == old(tuples) && disk.pages == old(disk.pages) && disk.slotted == old(disk.slotted)
      ensures OthersKept(old(disk.slotted), disk.slotted, chain)
    {
      place := 0;
      var current := first;
      while true
        invariant place < |chain| && current == chain[place] && Valid()
        invariant tuples == old(tuples) && disk.pages == old(disk.pages) && disk.slotted == old(disk.slotted)
        invariant NoRoomBefore(disk.pages, chain, place, |t|)
        decreases |chain| - place
      {
        assert LinkOk(disk.slotted, chain, place);
        var k;
        ok, k := TryInsert(current, t, place);
        rid := RID(current, k);
        if ok {
          return;
        }
        current := Follow(current, place);
        place := place + 1;
        if current == NO_PAGE {
          return;
        }
      }
    }

    /** The page behind place `i` of the chain. */
    method Follow(p: nat, ghost i: nat) returns (next: nat)
      requires Valid() && i < |chain| && p == chain[i]
      ensures if i + 1 < |chain| then next == chain[i + 1] != NO_PAGE else next == NO_PAGE
    {
      assert LinkOk(disk.slotted, chain, i);
      next := disk.NextOf(p);
      assert i + 1 < |chain| ==> LinkOk(disk.slotted, chain, i + 1);
    }

    /** Inserts into one page of the chain. */
    method TryInsert(p: nat, t: Bytes, ghost i: nat) returns (ok: bool, k: nat)
      requires Valid() && LinkOk(disk.slotted, chain, i) && chain[i] == p && t != []
      modifies this`tupleCount, this`tuples, disk`pages, disk`slotted
      ensures Valid() && (ok <==> RoomOn(old(disk.pages), p, |t|))
      ensures !ok ==> tuples == old(tuples) && disk.pages == old(disk.pages) && disk.slotted == old(disk.slotted)
      ensures ok ==> |t| <= MAX_TUPLE && RID(p, k) !in old(tuples) && tuples == old(tuples)[RID(p, k) := t]
      ensures ok ==> SlotsBelow(old(tuples), RID(p, k))
      ensures OthersKept(old(disk.slotted), disk.slotted, chain)
    {
      ghost var c, slots := disk.slotted, 0;
      ok, k, slots := disk.InsertOn(p, t);
      if ok {
        SlotsTaken(c, chain, first, tuples, tupleCount, i, k);
        InsertedInto(c, disk.slotted, chain, first, tuples, tupleCount, i, InsertedInfo(c[p], slots, k, t), k, t);
        tupleCount, tuples := tupleCount + 1, tuples[RID(p, k) := t];
      }
    }

    /** Allocates a page behind the last one.  The link to it is written first. */
    method Append(t: Bytes) returns (status: Status, rid: RID)
      requires Valid() && disk.count < NO_PAGE && t != []
      modifies this, disk
      ensures status == if |t| <= MAX_TUPLE then Ok else IoError
      ensures status == Ok ==> Valid() && rid !in old(tuples) && tuples == old(tuples)[rid := t]
      ensures status == IoError ==> forall other :: !ChainOk(disk.slotted, other, first)
      ensures status == Ok ==> rid.pageId == old(disk.count) && rid.slotId == 0
      ensures status == Ok ==> chain == old(chain) + [old(disk.count)] && disk.count == old(disk.count) + 1
      ensures first == old(first) && OthersKept(old(disk.slotted), disk.slotted, old(chain))
    {
      ghost var c := disk.slotted;
      assert LinkOk(c, chain, |chain| - 1);
      var n := LinkNew();
      var ok, k, slots := disk.WriteFresh(n, last, t);
      if !ok {
        BrokenChain(c, chain, first, n, disk.slotted);
        return IoError, RID(INVALID, 0);
      }
      rid := RID(n, k);
      Adopt(n, c, slots, k, t);
      status := Ok;
    }

    /** Takes a linked page with one tuple into the chain. */
    method Adopt(n: nat, ghost c: Infos, ghost slots: nat, ghost k: nat, ghost t: Bytes)
      requires HeapIs(c, chain, first, tuples, tupleCount) && LinkOk(c, chain, |chain| - 1)
      requires last == chain[|chain| - 1] && pageCount == |chain| && disk.Valid() && n < NO_PAGE && n !in c
      requires disk.slotted == c[last := c[last].(next := n)][n := PageInfo(last, NO_PAGE, slots, map[k := t])]
      modifies this
      ensures Valid() && first == old(first)
      ensures RID(n, k) !in old(tuples) && tuples == old(tuples)[RID(n, k) := t] && chain == old(chain) + [n]
    {
      GrownBy(c, disk.slotted, chain, first, tuples, tupleCount, n, PageInfo(last, NO_PAGE, slots, map[k := t]), k, t);
      last, pageCount, tupleCount := n, pageCount + 1, tupleCount + 1;
      chain, tuples := chain + [n], tuples[RID(n, k) := t];
    }

    /** A new page, and the link from the last page to it. */
    method LinkNew() returns (n: nat)
      requires Valid() && disk.count < NO_PAGE && LinkOk(disk.slotted, chain, |chain| - 1)
      modifies disk
      ensures disk.Valid() && n == old(disk.count) && n !in old(disk.slotted) && n in disk.pages
      ensures disk.slotted == old(disk.slotted)[last := old(disk.slotted)[last].(next := n)] && disk.count == n + 1
    {
      n := disk.Allocate();
      var im := disk.Read(last);
      var im' := SetNext(im, n);
      disk.Write(last, im');
    }
  }

  /** A tuple that fits into any page fits into an empty one. */
  lemma FitsBound(im: Image, len: nat)
    requires ImageOk(im) && Fits(im, len)
    ensures len <= MAX_TUPLE
  {
    if im.slots > 0 {
      assert SlotOffset(1) <= SlotOffset(im.slots);
    }
  }

  /** Follows the links and counts pages and tuples, up to the end or to a page that
      cannot be read. */
  method Bootstrap(disk: Disk, first: nat, ghost way: seq<nat>)
    returns (status: Status, last: nat, pages: nat, tuples: nat)
    requires disk.Valid() && IsWay(disk.pages, disk.slotted, way, first)
    ensures status == if WayEnd(disk.slotted, way, first) == NO_PAGE then Ok else IoError
    ensures status == Ok ==> last == if way == [] then NO_PAGE else way[|way| - 1]
    ensures status == Ok ==> pages == |way| && tuples == Total(disk.slotted, way)
  {
    var current := first;
    status, last, pages, tuples := Ok, NO_PAGE, 0, 0;
    ghost var c := disk.slotted;
    while current != NO_PAGE
      invariant pages <= |way| && tuples == Total(c, way[..pages])
      invariant current == if pages < |way| then way[pages] else WayEnd(c, way, first)
      invariant pages > 0 ==> last == way[pages - 1]
      invariant pages == 0 ==> last == NO_PAGE
      decreases |way| - pages
    {
      assert pages < |way| ==> StepOk(disk.pages, c, way, pages);
      if current !in disk.pages {
        return IoError, last, pages, tuples;
      }
      var n, next := disk.HeaderOf(current);
      assert way[..pages + 1][..pages] == way[..pages];
      tuples := tuples + n;
      pages := pages + 1;
      last := current;
      current := next;
    }
    assert pages < |way| ==> StepOk(disk.pages, c, way, pages);
    assert way[..pages] == way;
  }

  /** A page chain is such a way, to its end. */
  lemma ChainIsWay(pages: Pages, c: Infos, chain: seq<nat>, first: nat)
    requires ChainOk(c, chain, first) && AllShown(pages, c)
    ensures IsWay(pages, c, chain, first) && WayEnd(c, chain, first) == NO_PAGE
  {
    forall i | 0 <= i < |chain|
      ensures StepOk(pages, c, chain, i)
    {
      assert LinkOk(c, chain, i) && PageShown(pages, c, chain[i]);
      assert i + 1 < |chain| ==> LinkOk(c, chain, i + 1);
    }
    assert LinkOk(c, chain, |chain| - 1);
  }

  /** Opening the first page of a heap again gives a heap with the same fields and records. */
  method Reopen(heap: TableHeap) returns (again: TableHeap)
    requires heap.Valid()
    ensures fresh(again) && again.Valid() && again.disk == heap.disk && again.first == heap.first && again.last == heap.last
    ensures again.pageCount == heap.pageCount && again.tupleCount == heap.tupleCount && again.tuples == heap.tuples
  {
    ChainIsWay(heap.disk.pages, heap.disk.slotted, heap.chain, heap.first);
    var found := TableHeap.Open(heap.disk, heap.first, heap.chain);
    again := found.value;
    RecordsAre(heap.disk.slotted, heap.chain, heap.tuples);
    RecordsAre(heap.disk.slotted, heap.chain, again.tuples);
  }

  /** The page that the loop is at after `k` rounds. */
  ghost function CurrentAfter(c: Infos, first: nat, k: nat): nat {
    if k == 0 then first else NextAt(c, CurrentAfter(c, first, k - 1))
  }

  /** The loop ends there. */
  ghost predicate Stops(pages: Pages, c: Infos, first: nat, k: nat) {
    CurrentAfter(c, first, k) == NO_PAGE || CurrentAfter(c, first, k) !in pages
  }

  lemma {:induction false} WayFollows(pages: Pages, c: Infos, way: seq<nat>, first: nat, k: nat)
    requires IsWay(pages, c, way, first) && k <= |way|
    ensures CurrentAfter(c, first, k) == if k < |way| then way[k] else WayEnd(c, way, first)
    decreases k
  {
    if k > 0 {
      WayFollows(pages, c, way, first, k - 1);
      assert StepOk(pages, c, way, k - 1);
    }
  }

  lemma {:induction false} FirstStop(pages: Pages, c: Infos, first: nat, k: nat) returns (n: nat)
    requires Stops(pages, c, first, k)
    ensures Stops(pages, c, first, n) && forall i :: 0 <= i < n ==> !Stops(pages, c, first, i)
    decreases k
  {
    if i: nat :| i < k && Stops(pages, c, first, i) {
      n := FirstStop(pages, c, first, i);
    } else {
      n := k;
    }
  }

  /** There is a way exactly when the loop that follows the links ends at all. */
  lemma WayExactly(pages: Pages, c: Infos, first: nat)
    ensures (exists way :: IsWay(pages, c, way, first)) <==> (exists k: nat :: Stops(pages, c, first, k))
  {
    if way :| IsWay(pages, c, way, first) {
      WayFollows(pages, c, way, first, |way|);
      assert Stops(pages, c, first, |way|);
    }
    if k: nat :| Stops(pages, c, first, k) {
      var n := FirstStop(pages, c, first, k);
      var way := seq(n, i requires i >= 0 => CurrentAfter(c, first, i));
      forall i | 0 <= i < n
        ensures StepOk(pages, c, way, i)
      {
        assert !Stops(pages, c, first, i);
      }
      assert IsWay(pages, c, way, first);
    }
  }

  /** Two heaps on one disk, the first empty and the second with one record. */
  method TwoHeaps() returns (a: TableHeap, b: TableHeap, rid: RID)
    ensures fresh(a) && fresh(b) && fresh(a.disk) && a != b && a.disk == b.disk && a.Valid() && b.Valid()
    ensures a.tuples == map[] && b.tuples == map[rid := [0]] && rid.pageId !in a.chain
  {
    var disk := new Disk.Empty();
    a := new TableHeap.Create(disk);
    ghost var c := disk.slotted;
    b := new TableHeap.Create(disk);
    ElsewhereKeeps(c, disk.slotted, a.chain, a.first, map[], 0);
    c := disk.slotted;
    var _, r, _ := b.InsertTuple([0]);
    assert Kept(c, disk.slotted, [b.first], a.first);
    ElsewhereKeeps(c, disk.slotted, a.chain, a.first, map[], 0);
    rid := r;
  }

  /** Deleting a record of one heap through another leaves both with wrong counts. */
  method DeleteAcross() returns (a: TableHeap, b: TableHeap)
    ensures a.disk == b.disk && !a.Valid() && !b.Valid()
    ensures a.tupleCount == 0xFFFF_FFFF_FFFF_FFFF && Total(a.disk.slotted, a.chain) == 0
    ensures b.tupleCount == 1 && Total(b.disk.slotted, b.chain) == 0
  {
    var rid;
    a, b, rid := TwoHeaps();
    a.CountsRecords();
    b.CountsRecords();
    ghost var c := a.disk.slotted;
    assert RecordOk(c, b.chain, b.tuples, rid);
    assert PageShown(a.disk.pages, c, rid.pageId);
    NotInChain(c, b.chain, b.first);
    DeletedAnywhere(c, b.chain, b.first, b.tuples, b.tupleCount, rid.pageId, rid.slotId);
    DeletedAnywhere(c, a.chain, a.first, a.tuples, a.tupleCount, rid.pageId, rid.slotId);
    var status := a.DeleteTuple(rid);
  }
}

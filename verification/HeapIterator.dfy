/** The iterator over the live tuples of a table heap. */
module HeapIterator {
  import opened Common
  import opened PageBytes
  import opened HeapChain
  import opened TableHeap

  /** The tuples still to come at place `i` of the chain, slot `from`. */
  ghost function Remaining(c: Infos, chain: seq<nat>, i: nat, from: nat): seq<Entry>
    requires i <= |chain|
  {
    if i == |chain| then []
    else (if chain[i] in c then PageEntries(chain[i], c[chain[i]], from) else []) + HeapEntries(c, chain, i + 1)
  }

  /** The first tuple to come is the one in slot `from`, if that slot is live. */
  lemma RemainingLive(c: Infos, chain: seq<nat>, i: nat, from: nat)
    requires i < |chain| && chain[i] in c && from < c[chain[i]].slots && from in c[chain[i]].tuples
    ensures Remaining(c, chain, i, from)
         == [Entry(RID(chain[i], from), c[chain[i]].tuples[from])] + Remaining(c, chain, i, from + 1)
  {
    var p := chain[i];
    var e, own, rest := Entry(RID(p, from), c[p].tuples[from]), PageEntries(p, c[p], from + 1), HeapEntries(c, chain, i + 1);
    assert PageEntries(p, c[p], from) == [e] + own;
    assert ([e] + own) + rest == [e] + (own + rest);
  }

  lemma RemainingDeleted(c: Infos, chain: seq<nat>, i: nat, from: nat)
    requires i < |chain| && chain[i] in c && from < c[chain[i]].slots && from !in c[chain[i]].tuples
    ensures Remaining(c, chain, i, from) == Remaining(c, chain, i, from + 1)
  {
  }

  lemma RemainingNext(c: Infos, chain: seq<nat>, i: nat, from: nat)
    requires i < |chain| && chain[i] in c && from >= c[chain[i]].slots
    ensures Remaining(c, chain, i, from) == Remaining(c, chain, i + 1, 0)
  {
  }

  class HeapIterator {
    const disk: Disk
    var pageId: nat
    var slotId: nat
    var cached: Option<Image>
    ghost const chain: seq<nat>
    ghost const first: nat
    ghost var place: nat
    ghost var rest: seq<Entry>  // the tuples still to come

    /** The iterator stands at `place` of the chain with a copy of that page, or at the end. */
    ghost predicate Valid()
      reads this, disk
    {
      && disk.Valid() && ChainOk(disk.slotted, chain, first) && place <= |chain|
      && pageId == (if place < |chain| then chain[place] else NO_PAGE)
      && (place < |chain| ==> pageId in disk.slotted && pageId in disk.pages && cached == Some(disk.pages[pageId]))
      && (place == |chain| ==> slotId == 0 && cached.None?)
      && rest == Remaining(disk.slotted, chain, place, slotId)
    }

    /** The iterator stands on a live tuple, or at the end. */
    ghost predicate Settled()
      requires Valid()
      reads this, disk
    {
      place < |chain| ==> slotId in disk.slotted[pageId].tuples && slotId < disk.slotted[pageId].slots
    }

    constructor (heap: TableHeap)
      requires heap.Valid()
      ensures Valid() && Settled() && disk == heap.disk && chain == heap.chain
      ensures rest == HeapEntries(disk.slotted, chain, 0)
    {
      disk, pageId, slotId, cached := heap.disk, heap.first, 0, None;
      chain, first, place := heap.chain, heap.first, 0;
      rest := HeapEntries(heap.disk.slotted, heap.chain, 0);
      new;
      Start();
    }

    /** Loads the first page and looks for the first live tuple. */
    method Start()
      requires disk.Valid() && ChainOk(disk.slotted, chain, first) && place == 0 && pageId == first && slotId == 0
      requires rest == HeapEntries(disk.slotted, chain, 0)
      modifies this
      ensures Valid() && Settled() && rest == old(rest)
    {
      assert LinkOk(disk.slotted, chain, 0) && PageShown(disk.pages, disk.slotted, pageId);
      LoadPage(pageId);
      AdvanceToNextValid();
    }

    /** Keeps a copy of a page; a page that cannot be read ends the scan. */
    method LoadPage(p: nat)
      requires pageId == p
      modifies this`cached, this`pageId
      ensures if p in disk.pages then pageId == p && cached == Some(disk.pages[p])
              else pageId == NO_PAGE && cached == None
    {
      if p in disk.pages {
        cached := Some(disk.pages[p]);
      } else {
        cached, pageId := None, NO_PAGE;
      }
    }

    method AdvanceToNextValid()
      requires Valid()
      modifies this`pageId, this`slotId, this`cached, this`place
      ensures Valid() && Settled()
    {
      while pageId != NO_PAGE && cached.Some?
        invariant Valid()
        decreases |chain| - place
      {
        assert place < |chain| ==> LinkOk(disk.slotted, chain, place);
        var found := SkipDeleted();
        if found {
          return;
        }
        NextPage();
      }
      assert place < |chain| ==> LinkOk(disk.slotted, chain, place);
    }

    method SlotCount() returns (n: nat)
      requires Valid() && place < |chain|
      ensures n == disk.slotted[pageId].slots
    {
      assert PageShown(disk.pages, disk.slotted, pageId);
      n := cached.value.slots;
    }

    /** Whether the current slot of the cached page can be read. */
    method IsLive() returns (live: bool)
      requires Valid() && place < |chain|
      ensures live <==> slotId in disk.slotted[pageId].tuples
    {
      assert PageShown(disk.pages, disk.slotted, pageId);
      var status, t := ReadFrom(cached.value, slotId);
      live := status == Ok;
    }

    /** Looks for a live slot of the cached page, from the current slot on. */
    method SkipDeleted() returns (found: bool)
      requires Valid() && place < |chain|
      modifies this`slotId
      ensures Valid()
      ensures if found then Settled() else slotId >= disk.slotted[pageId].slots
    {
      var slots := SlotCount();
      while slotId < slots
        invariant Valid()
      {
        var live := IsLive();
        if live {
          return true;
        }
        RemainingDeleted(disk.slotted, chain, place, slotId);
        slotId := slotId + 1;
      }
      found := false;
    }

    /** Moves on to the page that the cached one names as its successor. */
    method NextPage()
      requires Valid() && place < |chain| && slotId >= disk.slotted[pageId].slots
      modifies this`pageId, this`slotId, this`cached, this`place
      ensures Valid() && place == old(place) + 1
    {
      RemainingNext(disk.slotted, chain, place, slotId);
      assert LinkOk(disk.slotted, chain, place);
      assert place + 1 < |chain| ==> LinkOk(disk.slotted, chain, place + 1);
      assert PageShown(disk.pages, disk.slotted, pageId);
      pageId := HeadOf(cached.value).next;
      slotId := 0;
      place := place + 1;
      if pageId != NO_PAGE {
        assert PageShown(disk.pages, disk.slotted, pageId);
        LoadPage(pageId);
      } else {
        cached := None;
      }
    }

    /** Moves on to the next live tuple; at the end it stays there. */
    method Next()
      requires Valid() && Settled()
      modifies this
      ensures Valid() && Settled() && rest == if old(rest) == [] then [] else old(rest)[1..]
    {
      if pageId == NO_PAGE {
        AtEnd();
        return;
      }
      RemainingLive(disk.slotted, chain, place, slotId);
      slotId, rest := slotId + 1, rest[1..];
      AdvanceToNextValid();
    }

    lemma AtEnd()
      requires Valid() && pageId == NO_PAGE
      ensures place == |chain| && rest == []
    {
      assert place < |chain| ==> LinkOk(disk.slotted, chain, place);
    }

    /** The current record and its tuple. */
    method Current() returns (e: Entry)
      requires Valid() && Settled() && pageId != NO_PAGE
      ensures rest != [] && e == rest[0]
    {
      RemainingLive(disk.slotted, chain, place, slotId);
      assert PageShown(disk.pages, disk.slotted, pageId);
      var status, t := ReadFrom(cached.value, slotId);
      e := Entry(RID(pageId, slotId), t);
    }
  }

  /** Every slotted page counts a slot for every tuple. */
  lemma Covered(pages: Pages, slotted: Infos, p: nat)
    requires AllShown(pages, slotted) && p in slotted
    ensures SlotsCover(slotted[p])
  {
    assert PageShown(pages, slotted, p);
  }

  /** Steps the iterator from begin to end. */
  method Collect(heap: TableHeap) returns (out: seq<Entry>)
    requires heap.Valid()
    ensures out == HeapEntries(heap.disk.slotted, heap.chain, 0)
  {
    var it := new HeapIterator(heap);
    out := Drain(it);
  }

  lemma Taken(out: seq<Entry>, e: Entry, rest: seq<Entry>, all: seq<Entry>)
    requires rest != [] && rest[0] == e && out + rest == all
    ensures out + [e] + rest[1..] == all
  {
  }

  method Drain(it: HeapIterator) returns (out: seq<Entry>)
    requires it.Valid() && it.Settled()
    modifies it
    ensures out == old(it.rest)
  {
    out := [];
    while it.pageId != NO_PAGE
      invariant it.Valid() && it.Settled() && out + it.rest == old(it.rest)
      decreases |it.rest|
    {
      var e := it.Current();
      Taken(out, e, it.rest, old(it.rest));
      it.Next();
      out := out + [e];
    }
    it.AtEnd();
    assert out == out + it.rest;
  }

  /** From begin to end the iterator yields every record of the heap with its tuple, once. */
  method Scan(heap: TableHeap) returns (out: seq<Entry>)
    requires heap.Valid()
    ensures Distinct(out)
    ensures forall e :: e in out <==> e.rid in heap.tuples && heap.tuples[e.rid] == e.tuple
  {
    out := Collect(heap);
    ScanExact(heap);
  }

  lemma ScanExact(heap: TableHeap)
    requires heap.Valid()
    ensures var all := HeapEntries(heap.disk.slotted, heap.chain, 0);
      Distinct(all) && forall e :: e in all <==> e.rid in heap.tuples && heap.tuples[e.rid] == e.tuple
  {
    var c, chain := heap.disk.slotted, heap.chain;
    forall p | p in c
      ensures SlotsCover(c[p])
    {
      Covered(heap.disk.pages, c, p);
    }
    HeapEntriesExact(c, chain, 0);
    RecordsAre(c, chain, heap.tuples);
    assert chain[0..] == chain;
  }
}

/** The tuples of a table heap, page by page along a doubly linked chain. */
module HeapChain {
  import opened Common
  import opened PageBytes

  type Bytes = seq<byte>

  /** What a slotted page says: its neighbours, its slot count and its tuples by slot. */
  datatype PageInfo = PageInfo(prev: nat, next: nat, slots: nat, tuples: map<nat, Bytes>)

  /** The slotted pages of a disk. */
  type Infos = map<nat, PageInfo>

  ghost predicate Holds(c: Infos, chain: seq<nat>, r: RID) {
    r.pageId >= 0 && r.pageId in chain && r.pageId in c && r.slotId in c[r.pageId].tuples
  }

  ghost function Records(c: Infos, chain: seq<nat>): set<RID> {
    set p, k | p in chain && p in c && k in c[p].tuples :: RID(p, k)
  }

  /** Every record of the heap and its tuple. */
  ghost function Flatten(c: Infos, chain: seq<nat>): (m: map<RID, Bytes>)
    ensures forall r :: r in m <==> Holds(c, chain, r)
    ensures forall r :: Holds(c, chain, r) ==> m[r] == c[r.pageId].tuples[r.slotId]
  {
    map r | r in Records(c, chain) :: c[r.pageId].tuples[r.slotId]
  }

  ghost function SizeOf(c: Infos, p: nat): nat {
    if p in c then |c[p].tuples| else 0
  }

  /** The number of tuples of the pages of a chain. */
  ghost function Total(c: Infos, chain: seq<nat>): nat {
    if chain == [] then 0 else Total(c, chain[..|chain| - 1]) + SizeOf(c, chain[|chain| - 1])
  }

  ghost predicate Differ(chain: seq<nat>, i: int, j: int) {
    0 <= i < j < |chain| ==> chain[i] != chain[j]
  }

  ghost predicate NoRepeats(chain: seq<nat>) {
    forall i, j {:trigger Differ(chain, i, j)} :: Differ(chain, i, j)
  }

  /** A page stands at one place of the chain only. */
  lemma OnePlace(chain: seq<nat>, n: nat)
    requires NoRepeats(chain) && n < |chain|
    ensures chain[n] !in chain[..n] && chain[n] !in chain[n + 1..] && NoRepeats(chain[..n])
  {
    forall i | 0 <= i < |chain| && i != n
      ensures chain[i] != chain[n]
    {
      assert Differ(chain, i, n) && Differ(chain, n, i);
    }
    var front := chain[..n];
    forall i, j
      ensures Differ(front, i, j)
    {
      assert Differ(chain, i, j);
    }
  }

  /** Page `i` of the chain is a slotted page that names its neighbours. */
  ghost predicate LinkOk(c: Infos, chain: seq<nat>, i: int) {
    && 0 <= i < |chain| && chain[i] in c && chain[i] < NO_PAGE
    && c[chain[i]].prev == (if i > 0 then chain[i - 1] else NO_PAGE)
    && c[chain[i]].next == (if i + 1 < |chain| then chain[i + 1] else NO_PAGE)
  }

  /** The pages that the links lead through from `first` on. */
  ghost predicate ChainOk(c: Infos, chain: seq<nat>, first: nat) {
    && chain != [] && chain[0] == first && NoRepeats(chain)
    && (forall i {:trigger LinkOk(c, chain, i)} :: 0 <= i < |chain| ==> LinkOk(c, chain, i))
  }

  // ---- Changing one page -------------------------------------------------

  /** Storing a tuple in one slot of one page adds one record and disturbs no other. */
  lemma PutFlattens(c: Infos, chain: seq<nat>, p: nat, info: PageInfo, k: nat, t: Bytes)
    requires p in chain && p in c && info.tuples == c[p].tuples[k := t]
    ensures Flatten(c[p := info], chain) == Flatten(c, chain)[RID(p, k) := t]
  {
    var c' := c[p := info];
    var m, m' := Flatten(c, chain)[RID(p, k) := t], Flatten(c', chain);
    forall r
      ensures r in m' <==> r in m
      ensures r in m' ==> m'[r] == m[r]
    {
      PutHolds(c, chain, p, info, k, t, r);
    }
  }

  lemma PutHolds(c: Infos, chain: seq<nat>, p: nat, info: PageInfo, k: nat, t: Bytes, r: RID)
    requires p in chain && p in c && info.tuples == c[p].tuples[k := t]
    ensures Holds(c[p := info], chain, r) <==> Holds(c, chain, r) || r == RID(p, k)
    ensures Holds(c[p := info], chain, r) ==>
      c[p := info][r.pageId].tuples[r.slotId] == if r == RID(p, k) then t else c[r.pageId].tuples[r.slotId]
  {
  }

  lemma DeleteFlattens(c: Infos, chain: seq<nat>, p: nat, info: PageInfo, k: nat)
    requires p in chain && p in c && info.tuples == c[p].tuples - {k}
    ensures Flatten(c[p := info], chain) == Flatten(c, chain) - {RID(p, k)}
  {
    var c' := c[p := info];
    var m, m' := Flatten(c, chain) - {RID(p, k)}, Flatten(c', chain);
    forall r
      ensures r in m' <==> r in m
      ensures r in m' ==> m'[r] == m[r]
    {
      assert Holds(c', chain, r) <==> Holds(c, chain, r) && r != RID(p, k);
    }
  }

  lemma {:induction false} TotalOther(c: Infos, chain: seq<nat>, p: nat, info: PageInfo)
    requires p !in chain
    ensures Total(c[p := info], chain) == Total(c, chain)
  {
    if chain != [] {
      var n := |chain| - 1;
      assert p !in chain[..n] && chain[n] in chain;
      TotalOther(c, chain[..n], p, info);
    }
  }

  /** The total changes by what the one page changes. */
  lemma {:induction false} TotalPut(c: Infos, chain: seq<nat>, p: nat, info: PageInfo)
    requires NoRepeats(chain) && p in chain && p in c
    ensures Total(c[p := info], chain) + |c[p].tuples| == Total(c, chain) + |info.tuples|
  {
    var n := |chain| - 1;
    OnePlace(chain, n);
    if p == chain[n] {
      TotalOther(c, chain[..n], p, info);
    } else {
      assert p in chain[..n];
      TotalPut(c, chain[..n], p, info);
    }
  }

  /** The total is the number of records. */
  lemma {:induction false} TotalCounts(c: Infos, chain: seq<nat>)
    requires NoRepeats(chain)
    ensures Total(c, chain) == |Records(c, chain)|
  {
    if chain == [] {
      assert Records(c, chain) == {};
    } else {
      var n := |chain| - 1;
      OnePlace(chain, n);
      TotalCounts(c, chain[..n]);
      RecordsLast(c, chain);
    }
  }

  lemma RecordsLast(c: Infos, chain: seq<nat>)
    requires NoRepeats(chain) && chain != []
    ensures var n := |chain| - 1;
      |Records(c, chain)| == |Records(c, chain[..n])| + SizeOf(c, chain[n])
  {
    var n := |chain| - 1;
    var own := if chain[n] in c then c[chain[n]].tuples.Keys else {};
    assert chain == chain[..n] + [chain[n]];
    OnePlace(chain, n);
    RecordsSnoc(c, chain[..n], chain[n], own);
    RecordsOfPage(chain[n], own);
  }

  lemma RecordsSnoc(c: Infos, chain: seq<nat>, p: nat, own: set<nat>)
    requires p !in chain && own == if p in c then c[p].tuples.Keys else {}
    ensures Records(c, chain + [p]) == Records(c, chain) + OnPage(p, own)
    ensures Records(c, chain) !! OnPage(p, own)
  {
    var a, b := Records(c, chain + [p]), Records(c, chain) + OnPage(p, own);
    forall r
      ensures r in a <==> r in b
    {
      assert r.pageId in chain + [p] <==> r.pageId in chain || r.pageId == p;
    }
  }

  ghost function OnPage(p: nat, slots: set<nat>): set<RID> {
    set k | k in slots :: RID(p, k)
  }

  lemma {:induction false} RecordsOfPage(p: nat, slots: set<nat>)
    ensures |OnPage(p, slots)| == |slots|
    decreases |slots|
  {
    if slots == {} {
      assert OnPage(p, slots) == {};
    } else {
      var k :| k in slots;
      RecordsOfPage(p, slots - {k});
      assert OnPage(p, slots) == OnPage(p, slots - {k}) + {RID(p, k)};
    }
  }

  // ---- The chain ---------------------------------------------------------

  lemma PlaceInChain(c: Infos, chain: seq<nat>, first: nat, p: nat) returns (i: nat)
    requires ChainOk(c, chain, first) && p in chain
    ensures i < |chain| && chain[i] == p && LinkOk(c, chain, i)
  {
    i :| 0 <= i < |chain| && chain[i] == p;
    assert LinkOk(c, chain, i);
  }

  lemma NotInChain(c: Infos, chain: seq<nat>, first: nat)
    requires ChainOk(c, chain, first)
    ensures NO_PAGE !in chain
  {
    if NO_PAGE in chain {
      var i := PlaceInChain(c, chain, first, NO_PAGE);
    }
  }

  /** What a heap is: the chain, the records and their number. */
  ghost predicate HeapIs(c: Infos, chain: seq<nat>, first: nat, m: map<RID, Bytes>, total: nat) {
    && ChainOk(c, chain, first) && Total(c, chain) == total
    && (forall r {:trigger RecordOk(c, chain, m, r)} :: RecordOk(c, chain, m, r))
  }

  /** `m` has record `r` exactly when the pages hold it, with the same tuple. */
  ghost predicate RecordOk(c: Infos, chain: seq<nat>, m: map<RID, Bytes>, r: RID) {
    && (r in m <==> Holds(c, chain, r))
    && (r in m ==> m[r] == c[r.pageId].tuples[r.slotId])
  }

  /** The records of a heap are what its pages hold, and nothing else. */
  lemma RecordsAre(c: Infos, chain: seq<nat>, m: map<RID, Bytes>)
    ensures (forall r {:trigger RecordOk(c, chain, m, r)} :: RecordOk(c, chain, m, r)) <==> m == Flatten(c, chain)
  {
    if forall r {:trigger RecordOk(c, chain, m, r)} :: RecordOk(c, chain, m, r) {
      forall r
        ensures r in m <==> Holds(c, chain, r)
        ensures r in m ==> m[r] == c[r.pageId].tuples[r.slotId]
      {
        assert RecordOk(c, chain, m, r);
      }
    }
  }

  /** One empty page alone. */
  lemma StartsEmpty(c: Infos, p: nat)
    requires p < NO_PAGE
    ensures HeapIs(c[p := PageInfo(NO_PAGE, NO_PAGE, 0, map[])], [p], p, map[], 0)
  {
    var c' := c[p := PageInfo(NO_PAGE, NO_PAGE, 0, map[])];
    assert LinkOk(c', [p], 0);
    assert Total(c', [p]) == Total(c', [p][..0]) + SizeOf(c', p);
    assert forall r :: !Holds(c', [p], r);
    assert Flatten(c', [p]) == map[];
    RecordsAre(c', [p], map[]);
  }

  lemma PutKeepsChain(c: Infos, chain: seq<nat>, first: nat, i: nat, info: PageInfo)
    requires ChainOk(c, chain, first) && LinkOk(c, chain, i)
    requires info.prev == c[chain[i]].prev && info.next == c[chain[i]].next
    ensures ChainOk(c[chain[i] := info], chain, first)
  {
    var c' := c[chain[i] := info];
    forall j | 0 <= j < |chain|
      ensures LinkOk(c', chain, j)
    {
      assert LinkOk(c, chain, j) && Differ(chain, i, j) && Differ(chain, j, i);
    }
  }

  lemma WithOneMore(m: map<nat, Bytes>, k: nat, t: Bytes)
    requires k !in m
    ensures |m[k := t]| == |m| + 1
  {
    assert m[k := t].Keys == m.Keys + {k};
  }

  lemma WithoutOne(m: map<nat, Bytes>, k: nat)
    requires k in m
    ensures |m| == |m - {k}| + 1
  {
    assert m.Keys == (m - {k}).Keys + {k};
  }

  /** A page of the heap whose slot `k` was deleted. */
  lemma DeletedFrom(c: Infos, c': Infos, chain: seq<nat>, first: nat, m: map<RID, Bytes>, total: nat, i: nat, info: PageInfo, k: nat)
    requires HeapIs(c, chain, first, m, total) && LinkOk(c, chain, i) && c' == c[chain[i] := info]
    requires info.prev == c[chain[i]].prev && info.next == c[chain[i]].next
    requires k in c[chain[i]].tuples && info.tuples == c[chain[i]].tuples - {k}
    ensures RID(chain[i], k) in m && total > 0
    ensures HeapIs(c', chain, first, m - {RID(chain[i], k)}, total - 1)
  {
    var p := chain[i];
    RecordsAre(c, chain, m);
    RecordsAre(c', chain, m - {RID(p, k)});
    PutKeepsChain(c, chain, first, i, info);
    DeleteFlattens(c, chain, p, info, k);
    TotalPut(c, chain, p, info);
    WithoutOne(c[p].tuples, k);
    assert Holds(c, chain, RID(p, k));
  }

  /** A heap depends on the pages of its chain only. */
  lemma ElsewhereKeeps(c: Infos, c': Infos, chain: seq<nat>, first: nat, m: map<RID, Bytes>, total: nat)
    requires HeapIs(c, chain, first, m, total) && forall p :: p in chain ==> p in c && p in c' && c'[p] == c[p]
    ensures HeapIs(c', chain, first, m, total)
  {
    forall i | 0 <= i < |chain|
      ensures LinkOk(c', chain, i)
    {
      assert LinkOk(c, chain, i);
    }
    forall r
      ensures RecordOk(c', chain, m, r)
    {
      assert RecordOk(c, chain, m, r);
    }
    TotalSame(c, c', chain);
  }

  lemma {:induction false} TotalSame(c: Infos, c': Infos, chain: seq<nat>)
    requires forall p :: p in chain ==> p in c && p in c' && c'[p] == c[p]
    ensures Total(c', chain) == Total(c, chain)
  {
    if chain != [] {
      assert chain[|chain| - 1] in chain;
      TotalSame(c, c', chain[..|chain| - 1]);
    }
  }

  lemma ChainPages(c: Infos, chain: seq<nat>, first: nat)
    requires ChainOk(c, chain, first)
    ensures forall p :: p in chain ==> p in c
  {
    forall p | p in chain
      ensures p in c
    {
      var i := PlaceInChain(c, chain, first, p);
    }
  }

  /** Deleting a tuple of any page: the heap loses a record exactly if the page is its own. */
  lemma DeletedAnywhere(c: Infos, chain: seq<nat>, first: nat, m: map<RID, Bytes>, total: nat, p: nat, k: nat)
    requires HeapIs(c, chain, first, m, total) && p in c && k in c[p].tuples
    ensures var c' := c[p := c[p].(tuples := c[p].tuples - {k})];
      && (p in chain ==> total > 0 && HeapIs(c', chain, first, m - {RID(p, k)}, total - 1))
      && (p !in chain ==> HeapIs(c', chain, first, m - {RID(p, k)}, total))
  {
    var info := c[p].(tuples := c[p].tuples - {k});
    if p in chain {
      var i := PlaceInChain(c, chain, first, p);
      DeletedFrom(c, c[p := info], chain, first, m, total, i, info, k);
    } else {
      ChainPages(c, chain, first);
      ElsewhereKeeps(c, c[p := info], chain, first, m, total);
      assert RecordOk(c, chain, m, RID(p, k));
      assert m - {RID(p, k)} == m;
    }
  }

  /** A page of the heap whose slot `k` got a new tuple. */
  lemma InsertedInto(c: Infos, c': Infos, chain: seq<nat>, first: nat, m: map<RID, Bytes>, total: nat,
                     i: nat, info: PageInfo, k: nat, t: Bytes)
    requires HeapIs(c, chain, first, m, total) && LinkOk(c, chain, i) && c' == c[chain[i] := info]
    requires info.prev == c[chain[i]].prev && info.next == c[chain[i]].next
    requires k !in c[chain[i]].tuples && info.tuples == c[chain[i]].tuples[k := t]
    ensures RID(chain[i], k) !in m
    ensures HeapIs(c', chain, first, m[RID(chain[i], k) := t], total + 1)
  {
    var p := chain[i];
    RecordsAre(c, chain, m);
    RecordsAre(c', chain, m[RID(p, k) := t]);
    PutKeepsChain(c, chain, first, i, info);
    PutFlattens(c, chain, p, info, k, t);
    TotalPut(c, chain, p, info);
    WithOneMore(c[p].tuples, k, t);
    assert !Holds(c, chain, RID(p, k));
  }

  /** A new page at the end of the chain, linked both ways. */
  lemma GrowKeepsChain(c: Infos, chain: seq<nat>, first: nat, n: nat, info: PageInfo)
    requires ChainOk(c, chain, first) && n !in c && n < NO_PAGE && LinkOk(c, chain, |chain| - 1)
    requires info.prev == chain[|chain| - 1] && info.next == NO_PAGE
    ensures var last := chain[|chain| - 1];
      ChainOk(c[last := c[last].(next := n)][n := info], chain + [n], first)
    ensures n !in chain
  {
    var last, longer := chain[|chain| - 1], chain + [n];
    var c' := c[last := c[last].(next := n)][n := info];
    forall i | 0 <= i < |chain|
      ensures chain[i] in c
    {
      assert LinkOk(c, chain, i);
    }
    forall i | 0 <= i < |longer|
      ensures LinkOk(c', longer, i)
    {
      if i < |chain| {
        assert LinkOk(c, chain, i) && Differ(chain, i, |chain| - 1);
      }
    }
    forall i, j
      ensures Differ(longer, i, j)
    {
      assert Differ(chain, i, j);
    }
  }

  lemma GrowFlattens(c: Infos, chain: seq<nat>, n: nat, info: PageInfo, k: nat, t: Bytes)
    requires n !in c && n !in chain && info.tuples == map[k := t]
    ensures RID(n, k) !in Flatten(c, chain)
    ensures Flatten(c[n := info], chain + [n]) == Flatten(c, chain)[RID(n, k) := t]
  {
    var c' := c[n := info];
    var m, m' := Flatten(c, chain)[RID(n, k) := t], Flatten(c', chain + [n]);
    forall r
      ensures r in m' <==> r in m
      ensures r in m' ==> m'[r] == m[r]
    {
      assert Holds(c', chain + [n], r) <==> Holds(c, chain, r) || r == RID(n, k);
    }
  }

  lemma RelinkFlattens(c: Infos, chain: seq<nat>, p: nat, info: PageInfo)
    requires p in c && info.tuples == c[p].tuples
    ensures Flatten(c[p := info], chain) == Flatten(c, chain)
  {
    var c' := c[p := info];
    var m, m' := Flatten(c, chain), Flatten(c', chain);
    forall r
      ensures r in m' <==> r in m
      ensures r in m' ==> m'[r] == m[r]
    {
      assert Holds(c', chain, r) <==> Holds(c, chain, r);
    }
  }

  /** A new page with one tuple behind the last one. */
  lemma GrownBy(c: Infos, c': Infos, chain: seq<nat>, first: nat, m: map<RID, Bytes>, total: nat,
                n: nat, info: PageInfo, k: nat, t: Bytes)
    requires HeapIs(c, chain, first, m, total) && n !in c && n < NO_PAGE && LinkOk(c, chain, |chain| - 1)
    requires info.prev == chain[|chain| - 1] && info.next == NO_PAGE && info.tuples == map[k := t]
    requires c' == c[chain[|chain| - 1] := c[chain[|chain| - 1]].(next := n)][n := info]
    ensures RID(n, k) !in m
    ensures HeapIs(c', chain + [n], first, m[RID(n, k) := t], total + 1)
  {
    var last := chain[|chain| - 1];
    var linked := c[last].(next := n);
    var c1 := c[last := linked];
    RecordsAre(c, chain, m);
    RecordsAre(c', chain + [n], m[RID(n, k) := t]);
    GrowKeepsChain(c, chain, first, n, info);
    RelinkFlattens(c, chain, last, linked);
    GrowFlattens(c1, chain, n, info, k, t);
    TotalPut(c, chain, last, linked);
    TotalOther(c1, chain, n, info);
    assert (chain + [n])[..|chain|] == chain;
    assert info.tuples.Keys == {k};
  }

  // ---- A broken chain ----------------------------------------------------

  /** The links from `first` lead along `way` only. */
  lemma {:induction false} OnlyWay(c: Infos, way: seq<nat>, first: nat, other: seq<nat>, i: nat)
    requires way != [] && way[0] == first && ChainOk(c, other, first) && i < |way|
    requires forall j :: 0 <= j < |way| - 1 ==> way[j] in c && c[way[j]].next == Succ(way, j) < NO_PAGE
    ensures i < |other| && other[i] == way[i] && LinkOk(c, other, i)
  {
    if i > 0 {
      OnlyWay(c, way, first, other, i - 1);
      assert Succ(way, i - 1) == way[i];
    }
    assert LinkOk(c, other, i);
  }

  ghost function Succ(way: seq<nat>, j: nat): nat
    requires j + 1 < |way|
  {
    way[j + 1]
  }

  /** Linking the last page to one that is no slotted page leaves no chain at all. */
  lemma BrokenChain(c: Infos, chain: seq<nat>, first: nat, n: nat, c': Infos)
    requires ChainOk(c, chain, first) && n !in c && n < NO_PAGE && LinkOk(c, chain, |chain| - 1)
    requires c' == c[chain[|chain| - 1] := c[chain[|chain| - 1]].(next := n)]
    ensures forall other :: !ChainOk(c', other, first)
  {
    var last, way := chain[|chain| - 1], chain + [n];
    forall j | 0 <= j < |way| - 1
      ensures way[j] in c' && c'[way[j]].next == Succ(way, j) < NO_PAGE
    {
      assert LinkOk(c, chain, j);
      if j + 1 < |chain| {
        assert LinkOk(c, chain, j + 1);
      }
    }
    forall other
      ensures !ChainOk(c', other, first)
    {
      if ChainOk(c', other, first) {
        OnlyWay(c', way, first, other, |way| - 1);
      }
    }
  }

  // ---- Scanning ----------------------------------------------------------

  datatype Entry = Entry(rid: RID, tuple: Bytes)

  /** The tuples of a page, from slot `from` on. */
  ghost function PageEntries(p: nat, info: PageInfo, from: nat): seq<Entry>
    decreases info.slots - from
  {
    if from >= info.slots then []
    else (if from in info.tuples then [Entry(RID(p, from), info.tuples[from])] else []) + PageEntries(p, info, from + 1)
  }

  /** The tuples of the pages from place `i` of the chain on. */
  ghost function HeapEntries(c: Infos, chain: seq<nat>, i: nat): seq<Entry>
    requires i <= |chain|
    decreases |chain| - i
  {
    if i == |chain| then []
    else (if chain[i] in c then PageEntries(chain[i], c[chain[i]], 0) else []) + HeapEntries(c, chain, i + 1)
  }

  /** No record is listed twice. */
  ghost predicate Distinct(s: seq<Entry>) {
    forall i, j :: 0 <= i < j < |s| ==> s[i].rid != s[j].rid
  }

  /** Every tuple has a slot below the slot count. */
  ghost predicate SlotsCover(info: PageInfo) {
    forall k :: k in info.tuples ==> k < info.slots
  }

  /** An entry of page `p` at or after slot `from`. */
  ghost predicate OfPage(p: nat, info: PageInfo, from: nat, e: Entry) {
    e.rid.pageId == p && e.rid.slotId >= from && e.rid.slotId in info.tuples && e.tuple == info.tuples[e.rid.slotId]
  }

  lemma {:induction false} PageEntriesExact(p: nat, info: PageInfo, from: nat)
    requires SlotsCover(info)
    ensures Distinct(PageEntries(p, info, from))
    ensures forall e :: e in PageEntries(p, info, from) <==> OfPage(p, info, from, e)
    decreases info.slots - from
  {
    if from < info.slots {
      PageEntriesExact(p, info, from + 1);
      var first := if from in info.tuples then [Entry(RID(p, from), info.tuples[from])] else [];
      var rest := PageEntries(p, info, from + 1);
      forall e
        ensures OfPage(p, info, from, e) <==> e in first || OfPage(p, info, from + 1, e)
      {
      }
      DistinctConcat(first, rest);
    } else {
      forall e
        ensures !OfPage(p, info, from, e)
      {
      }
    }
  }

  lemma DistinctConcat(s: seq<Entry>, t: seq<Entry>)
    requires Distinct(s) && Distinct(t) && forall d, e :: d in s && e in t ==> d.rid != e.rid
    ensures Distinct(s + t)
  {
    var u := s + t;
    forall i, j | 0 <= i < j < |u|
      ensures u[i].rid != u[j].rid
    {
      if i < |s| && j >= |s| {
        assert s[i] in s && t[j - |s|] in t;
      }
    }
  }

  ghost predicate IsEntry(c: Infos, chain: seq<nat>, e: Entry) {
    Holds(c, chain, e.rid) && e.tuple == c[e.rid.pageId].tuples[e.rid.slotId]
  }

  /** The scan lists every record from place `i` of the chain on, once. */
  lemma {:induction false} HeapEntriesExact(c: Infos, chain: seq<nat>, i: nat)
    requires NoRepeats(chain) && i <= |chain| && forall p :: p in c ==> SlotsCover(c[p])
    ensures Distinct(HeapEntries(c, chain, i))
    ensures forall e :: e in HeapEntries(c, chain, i) <==> IsEntry(c, chain[i..], e)
    decreases |chain| - i
  {
    if i < |chain| {
      HeapEntriesExact(c, chain, i + 1);
      var p := chain[i];
      assert chain[i..] == [p] + chain[i + 1..];
      OnePlace(chain, i);
      var own := if p in c then PageEntries(p, c[p], 0) else [];
      if p in c {
        PageEntriesExact(p, c[p], 0);
      }
      DistinctConcat(own, HeapEntries(c, chain, i + 1));
    }
  }
}

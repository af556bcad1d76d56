/** Sorting with a limit: the bounded heap, and stable sort followed by a limit. */
module TopK {
  import opened Common
  import opened Expressions
  import opened JoinExecutors
  import opened SortOrder

  /** Counts are 64-bit unsigned, and their sums wrap. */
  const WORD: nat := 0x1_0000_0000_0000_0000

  type Count = n: nat | n < WORD

  /** At most `limit` elements from position `offset` on. */
  function Window<T>(s: seq<T>, offset: nat, limit: nat): (r: seq<T>)
    ensures |r| == if |s| <= offset then 0 else if |s| - offset < limit then |s| - offset else limit
    ensures forall i :: 0 <= i < |r| ==> r[i] == s[offset + i]
  {
    if |s| <= offset then [] else if |s| - offset < limit then s[offset..] else s[offset..offset + limit]
  }

  // ---- Stable sort -------------------------------------------------------

  /** `x` goes behind everything that is not after it. */
  function InsertOne(s: seq<Item>, x: Item, os: seq<Order>): seq<Item> {
    if s == [] then [x]
    else
      var n := |s| - 1;
      if Before(x.row, s[n].row, os) then InsertOne(s[..n], x, os) + [s[n]] else s + [x]
  }

  function StableSort(s: seq<Item>, os: seq<Order>): seq<Item> {
    if s == [] then [] else InsertOne(StableSort(s[..|s| - 1], os), s[|s| - 1], os)
  }

  lemma {:induction false} InsertOneContents(s: seq<Item>, x: Item, os: seq<Order>)
    ensures multiset(InsertOne(s, x, os)) == multiset(s) + multiset{x}
  {
    if s != [] {
      var n := |s| - 1;
      InsertOneContents(s[..n], x, os);
      assert s == s[..n] + [s[n]];
    }
  }

  lemma {:induction false} SortContents(s: seq<Item>, os: seq<Order>)
    ensures multiset(StableSort(s, os)) == multiset(s)
  {
    if s != [] {
      var n := |s| - 1;
      SortContents(s[..n], os);
      InsertOneContents(StableSort(s[..n], os), s[n], os);
      LastContents(s);
    }
  }

  lemma LastContents(s: seq<Item>)
    requires s != []
    ensures multiset(s) == multiset(s[..|s| - 1]) + multiset{s[|s| - 1]}
  {
    assert s == s[..|s| - 1] + [s[|s| - 1]];
  }

  lemma SortSize(s: seq<Item>, os: seq<Order>)
    ensures |StableSort(s, os)| == |s|
  {
    SortContents(s, os);
    assert |StableSort(s, os)| == |multiset(StableSort(s, os))| == |multiset(s)|;
  }

  /** Everything in `s` is at most `x`. */
  ghost predicate AllAtMost(s: seq<Item>, x: Item, os: seq<Order>) {
    forall i :: 0 <= i < |s| ==> ItemAtMost(s[i], x, os)
  }

  lemma OrderedAppend(s: seq<Item>, x: Item, os: seq<Order>)
    requires Ordered(s, os) && AllAtMost(s, x, os)
    ensures Ordered(s + [x], os)
  {
  }

  /** What is at most the last of an ordered sequence bounds all of it. */
  lemma LastBounds(s: seq<Item>, x: Item, os: seq<Order>)
    requires s != [] && Ordered(s, os) && Sortable(s + [x], os) && ItemAtMost(s[|s| - 1], x, os)
    ensures AllAtMost(s, x, os)
  {
    var last := s[|s| - 1];
    forall i | 0 <= i < |s| - 1
      ensures ItemAtMost(s[i], x, os)
    {
      assert SameItemKinds(s[i], last, os) && SameItemKinds(last, x, os);
      ItemsTransitive(s[i], last, x, os);
    }
  }

  lemma {:induction false} InsertOneOrdered(s: seq<Item>, x: Item, os: seq<Order>)
    requires Ordered(s, os) && Sortable(s + [x], os)
    ensures Ordered(InsertOne(s, x, os), os)
  {
    if s != [] {
      var n := |s| - 1;
      var before, last := s[..n], s[n];
      assert SameItemKinds(x, last, os) && SameItemKinds(last, x, os);
      ItemsTotal(x, last, os);
      ItemsTotal(last, x, os);
      if Before(x.row, last.row, os) {
        InsertOneOrdered(before, x, os);
        var r := InsertOne(before, x, os);
        InsertBounded(before, x, last, os);
        OrderedAppend(r, last, os);
      } else {
        LastBounds(s, x, os);
        OrderedAppend(s, x, os);
      }
    }
  }

  lemma InsertBounded(s: seq<Item>, x: Item, last: Item, os: seq<Order>)
    requires AllAtMost(s, last, os) && ItemAtMost(x, last, os)
    ensures AllAtMost(InsertOne(s, x, os), last, os)
  {
    InsertOneContents(s, x, os);
    var r := InsertOne(s, x, os);
    forall i | 0 <= i < |r|
      ensures ItemAtMost(r[i], last, os)
    {
      assert r[i] in multiset(r);
    }
  }

  lemma {:induction false} SortOrdered(s: seq<Item>, os: seq<Order>)
    requires Sortable(s, os)
    ensures Ordered(StableSort(s, os), os)
  {
    if s != [] {
      var n := |s| - 1;
      SortOrdered(s[..n], os);
      SortContents(s[..n], os);
      var t := StableSort(s[..n], os);
      forall a | a in t + [s[n]]
        ensures a in s
      {
        assert a in multiset(t) || a == s[n];
      }
      InsertOneOrdered(t, s[n], os);
    }
  }

  /** The rows of `s` with a given key, in order. */
  function WithKey(s: seq<Item>, key: Key, os: seq<Order>): seq<Item> {
    if s == [] then []
    else
      var n := |s| - 1;
      WithKey(s[..n], key, os) + if KeyOf(s[n].row, os) == key then [s[n]] else []
  }

  lemma WithKeyAppend(s: seq<Item>, x: Item, key: Key, os: seq<Order>)
    ensures WithKey(s + [x], key, os) == WithKey(s, key, os) + if KeyOf(x.row, os) == key then [x] else []
  {
    assert (s + [x])[..|s|] == s;
  }

  /** Rows with different keys may change places. */
  lemma WithKeySwap(s: seq<Item>, x: Item, y: Item, key: Key, os: seq<Order>)
    requires KeyOf(x.row, os) != KeyOf(y.row, os)
    ensures WithKey(s + [x] + [y], key, os) == WithKey(s + [y] + [x], key, os)
  {
    WithKeyAppend(s, x, key, os);
    WithKeyAppend(s, y, key, os);
    WithKeyAppend(s + [x], y, key, os);
    WithKeyAppend(s + [y], x, key, os);
  }

  lemma StableStep(s: seq<Item>, r: seq<Item>, last: Item, x: Item, key: Key, os: seq<Order>)
    requires KeyOf(last.row, os) != KeyOf(x.row, os) && WithKey(r, key, os) == WithKey(s + [x], key, os)
    ensures WithKey(r + [last], key, os) == WithKey(s + [last] + [x], key, os)
  {
    WithKeySwap(s, last, x, key, os);
    WithKeyAppend(r, last, key, os);
    WithKeyAppend(s + [x], last, key, os);
  }

  lemma {:induction false} InsertOneStable(s: seq<Item>, x: Item, key: Key, os: seq<Order>)
    requires Sortable(s + [x], os)
    ensures WithKey(InsertOne(s, x, os), key, os) == WithKey(s + [x], key, os)
  {
    var n := |s| - 1;
    if s != [] && Before(x.row, s[n].row, os) {
      var before, last := s[..n], s[n];
      PartSortable(s + [x], before + [x], os);
      InsertOneStable(before, x, key, os);
      assert SameItemKinds(last, x, os);
      KeysDiffer(x, last, os);
      StableStep(before, InsertOne(before, x, os), last, x, key, os);
      assert s == before + [last];
    }
  }

  /** Rows with equal keys stay in their order. */
  lemma {:induction false} SortStable(s: seq<Item>, key: Key, os: seq<Order>)
    requires Sortable(s, os)
    ensures WithKey(StableSort(s, os), key, os) == WithKey(s, key, os)
  {
    if s != [] {
      var n := |s| - 1;
      var t := StableSort(s[..n], os);
      SortStable(s[..n], key, os);
      SortContents(s[..n], os);
      forall a | a in t + [s[n]]
        ensures a in s
      {
        assert a in multiset(t) || a == s[n];
      }
      InsertOneStable(t, s[n], key, os);
      assert (t + [s[n]])[..|t|] == t;
    }
  }

  // ---- Executors ---------------------------------------------------------

  /** Sorted rows stand where ORDER BY wants them. */
  lemma SortedRows(rows: seq<Item>, os: seq<Order>)
    ensures AllComparable(rows, os) ==> OrderedRows(StableSort(rows, os), os)
  {
    if AllComparable(rows, os) {
      OrderedMeans(rows, os);
      SortOrdered(rows, os);
      SortContents(rows, os);
      PartComparable(rows, StableSort(rows, os), os);
      OrderedMeans(StableSort(rows, os), os);
    }
  }

  class OrderByExecutor {
    const child: Child
    const os: seq<Order>
    var sorted: seq<Item>
    var idx: nat

    constructor (child: Child, os: seq<Order>)
      requires child.Valid()
      ensures this.child == child && this.os == os
    {
      this.child, this.os := child, os;
      sorted, idx := [], 0;
    }

    method Next() returns (item: Option<Item>)
      modifies this`idx
      ensures if old(idx) >= |sorted| then item == None && idx == old(idx)
              else item == Some(sorted[old(idx)]) && idx == old(idx) + 1
    {
      if idx >= |sorted| {
        return None;
      }
      item := Some(sorted[idx]);
      idx := idx + 1;
    }

    method Init()
      modifies this, child
      ensures child.Valid() && sorted == StableSort(child.rows, os) && idx == 0
      ensures AllComparable(child.rows, os) ==> OrderedRows(sorted, os)
    {
      child.Init();
      sorted, idx := [], 0;
      while child.pos < |child.rows|
        invariant child.Valid() && sorted == child.rows[..child.pos] && idx == 0
        decreases |child.rows| - child.pos
      {
        var item := child.Next();
        sorted := sorted + [item.value];
      }
      assert child.rows[..child.pos] == child.rows;
      SortedRows(child.rows, os);
      sorted := StableSort(sorted, os);
    }
  }

  class LimitExecutor {
    const child: Child
    const limit: Count
    const offset: Count
    var count: nat

    constructor (child: Child, limit: Count, offset: Count)
      requires child.Valid()
      ensures this.child == child && this.limit == limit && this.offset == offset
    {
      this.child, this.limit, this.offset := child, limit, offset;
      count := 0;
    }

    /** What is still to be emitted. */
    ghost function Remaining(): seq<Item>
      requires child.Valid()
      reads this, child
    {
      if count >= limit then [] else Window(child.rows, child.pos, limit - count)
    }

    method Init()
      modifies this, child
      ensures child.Valid() && Remaining() == Window(child.rows, offset, limit)
    {
      child.Init();
      count := 0;
      var i := 0;
      while i < offset
        invariant child.Valid() && i <= offset && child.pos == if i <= |child.rows| then i else |child.rows|
        invariant count == 0
      {
        var item := child.Next();
        if item.None? {
          break;
        }
        i := i + 1;
      }
    }

    method Next() returns (item: Option<Item>)
      requires child.Valid()
      modifies this, child
      ensures child.Valid()
      ensures old(Remaining()) == if item.Some? then [item.value] + Remaining() else []
    {
      if count >= limit {
        return None;
      }
      item := child.Next();
      if item.Some? {
        count := count + 1;
      }
    }
  }

  /** The sort executor pulled to exhaustion. */
  method RunSort(rows: seq<Item>, os: seq<Order>) returns (out: seq<Item>)
    ensures out == StableSort(rows, os)
    ensures AllComparable(rows, os) ==> OrderedRows(out, os)
  {
    var source := new Child(rows);
    var order := new OrderByExecutor(source, os);
    order.Init();
    out := [];
    while true
      invariant fresh(order) && order.sorted == StableSort(rows, os)
      invariant order.idx <= |order.sorted| && out == order.sorted[..order.idx]
      decreases |order.sorted| - order.idx
    {
      var item := order.Next();
      if item.None? {
        break;
      }
      out := out + [item.value];
    }
  }

  /** The limit executor pulled to exhaustion. */
  method RunLimit(rows: seq<Item>, limit: Count, offset: Count) returns (out: seq<Item>)
    ensures out == Window(rows, offset, limit)
  {
    var child := new Child(rows);
    var lim := new LimitExecutor(child, limit, offset);
    lim.Init();
    out := [];
    while true
      invariant child.Valid() && lim.child == child && fresh(lim) && fresh(child)
      invariant out + lim.Remaining() == Window(rows, offset, limit)
      decreases |lim.Remaining()|
    {
      var item := lim.Next();
      if item.None? {
        return;
      }
      Appended(out, item.value, lim.Remaining(), Window(rows, offset, limit));
      out := out + [item.value];
    }
  }

  /** Stable sort, offset and limit, pulled to exhaustion. */
  method RunSortLimit(rows: seq<Item>, os: seq<Order>, limit: Count, offset: Count) returns (out: seq<Item>)
    ensures out == Window(StableSort(rows, os), offset, limit)
  {
    var sorted := RunSort(rows, os);
    out := RunLimit(sorted, limit, offset);
  }

  // ---- The bounded heap --------------------------------------------------

  /** Some element is at least every other. */
  lemma {:induction false} GreatestExists(s: seq<Item>, os: seq<Order>) returns (i: nat)
    requires s != [] && Sortable(s, os)
    ensures i < |s| && AllAtMost(s, s[i], os)
  {
    var n := |s| - 1;
    if n == 0 {
      assert SameItemKinds(s[0], s[0], os);
      ItemsTotal(s[0], s[0], os);
      return 0;
    }
    PartSortable(s, s[..n], os);
    i := GreatestExists(s[..n], os);
    i := GreaterOf(s, i, os);
  }

  lemma GreaterOf(s: seq<Item>, i: nat, os: seq<Order>) returns (k: nat)
    requires Sortable(s, os) && i < |s| - 1 && AllAtMost(s[..|s| - 1], s[i], os)
    ensures k < |s| && AllAtMost(s, s[k], os)
  {
    var n := |s| - 1;
    assert SameItemKinds(s[n], s[n], os) && SameItemKinds(s[i], s[n], os);
    ItemsTotal(s[n], s[n], os);
    ItemsTotal(s[i], s[n], os);
    k := if ItemAtMost(s[n], s[i], os) then i else n;
    forall j | 0 <= j < n
      ensures ItemAtMost(s[j], s[k], os)
    {
      assert s[..n][j] == s[j];
      if k == n {
        assert SameItemKinds(s[j], s[i], os);
        ItemsTransitive(s[j], s[i], s[n], os);
      }
    }
  }

  /** What is left without an element that is at least every other. */
  lemma Popped(heap: seq<Item>, i: nat, os: seq<Order>)
    requires i < |heap| && AllAtMost(heap, heap[i], os)
    ensures var rest := heap[..i] + heap[i + 1..];
      && multiset(heap) == multiset(rest) + multiset{heap[i]} && |rest| == |heap| - 1
      && AllAtMost(rest, heap[i], os)
  {
    var rest := heap[..i] + heap[i + 1..];
    RemoveOne(heap, i);
    assert heap[i] in multiset(heap);
    forall j | 0 <= j < |rest|
      ensures ItemAtMost(rest[j], heap[i], os)
    {
      assert rest[j] == heap[if j < i then j else j + 1];
    }
  }

  /** The comparator puts an element before no other exactly when it is at least each of them. */
  lemma GreatestMeans(heap: seq<Item>, i: nat, os: seq<Order>)
    requires i < |heap| && Sortable(heap, os)
    ensures AllAtMost(heap, heap[i], os) <==> forall j :: 0 <= j < |heap| ==> !Before(heap[i].row, heap[j].row, os)
  {
    forall j | 0 <= j < |heap|
      ensures ItemAtMost(heap[j], heap[i], os) <==> !Before(heap[i].row, heap[j].row, os)
    {
      assert SameItemKinds(heap[j], heap[i], os);
      ItemsTotal(heap[j], heap[i], os);
    }
  }

  /** Pops an element that the comparator puts before no other; which one of several, the
      heap decides. */
  method Pop(heap: seq<Item>, os: seq<Order>) returns (top: Item, rest: seq<Item>)
    requires heap != [] && Sortable(heap, os)
    ensures multiset(heap) == multiset(rest) + multiset{top} && |rest| == |heap| - 1
    ensures AllAtMost(rest, top, os)
  {
    ghost var g := GreatestExists(heap, os);
    GreatestMeans(heap, g, os);
    var i :| 0 <= i < |heap| && forall j :: 0 <= j < |heap| ==> !Before(heap[i].row, heap[j].row, os);
    GreatestMeans(heap, i, os);
    Popped(heap, i, os);
    top, rest := heap[i], heap[..i] + heap[i + 1..];
  }

  /** `heap` holds the first rows of `seen` in the order, at most `capacity` of them;
      `dropped` are the others. */
  ghost predicate Best(heap: seq<Item>, dropped: seq<Item>, seen: seq<Item>, capacity: nat, os: seq<Order>) {
    && multiset(heap) + multiset(dropped) == multiset(seen)
    && |heap| <= capacity && (dropped != [] ==> |heap| == capacity)
    && (forall a, d {:trigger ItemAtMost(a, d, os)} :: a in heap && d in dropped ==> ItemAtMost(a, d, os))
  }

  lemma BestSizes(heap: seq<Item>, dropped: seq<Item>, seen: seq<Item>, capacity: nat, os: seq<Order>)
    requires Best(heap, dropped, seen, capacity, os)
    ensures |heap| + |dropped| == |seen| && |heap| == if |seen| < capacity then |seen| else capacity
    ensures forall a :: a in heap || a in dropped <==> a in seen
  {
    assert |seen| == |multiset(seen)| == |multiset(heap)| + |multiset(dropped)|;
    assert forall a :: a in seen <==> a in multiset(seen);
    assert forall a :: a in heap <==> a in multiset(heap);
    assert forall a :: a in dropped <==> a in multiset(dropped);
  }

  lemma PushKeeps(heap: seq<Item>, dropped: seq<Item>, seen: seq<Item>, x: Item, capacity: nat, os: seq<Order>)
    requires Best(heap, dropped, seen, capacity, os) && |heap| < capacity
    ensures Best(heap + [x], dropped, seen + [x], capacity, os)
  {
  }

  /** Pushing a row into a full heap and popping the greatest keeps the best. */
  lemma PopKeeps(heap: seq<Item>, dropped: seq<Item>, seen: seq<Item>, x: Item, top: Item, rest: seq<Item>,
                 capacity: nat, os: seq<Order>)
    requires Best(heap, dropped, seen, capacity, os) && |heap| == capacity && Sortable(seen + [x], os)
    requires multiset(heap + [x]) == multiset(rest) + multiset{top} && |rest| == capacity && AllAtMost(rest, top, os)
    ensures Best(rest, dropped + [top], seen + [x], capacity, os)
  {
    BestSizes(heap, dropped, seen, capacity, os);
    assert multiset(heap + [x]) == multiset(heap) + multiset{x};
    assert multiset(dropped + [top]) == multiset(dropped) + multiset{top};
    assert multiset(seen + [x]) == multiset(seen) + multiset{x};
    Exchange(multiset(heap), multiset(rest), multiset(dropped), multiset{x}, multiset{top});
    forall a, d | a in rest && d in dropped + [top]
      ensures ItemAtMost(a, d, os)
    {
      if d in dropped && a !in heap {
        NewcomerFits(heap, dropped, seen, x, top, rest, capacity, os, a, d);
      }
    }
  }

  lemma Exchange(heap: multiset<Item>, rest: multiset<Item>, dropped: multiset<Item>, x: multiset<Item>, top: multiset<Item>)
    requires heap + x == rest + top
    ensures rest + (dropped + top) == heap + dropped + x
  {
    assert rest + (dropped + top) == (rest + top) + dropped;
  }

  /** A new row that stays in the heap is at most the popped one, hence at most all dropped ones. */
  lemma NewcomerFits(heap: seq<Item>, dropped: seq<Item>, seen: seq<Item>, x: Item, top: Item, rest: seq<Item>,
                     capacity: nat, os: seq<Order>, a: Item, d: Item)
    requires Best(heap, dropped, seen, capacity, os) && Sortable(seen + [x], os)
    requires multiset(heap + [x]) == multiset(rest) + multiset{top} && AllAtMost(rest, top, os)
    requires a in rest && a !in heap && d in dropped
    ensures ItemAtMost(a, d, os)
  {
    BestSizes(heap, dropped, seen, capacity, os);
    assert a in multiset(heap + [x]) && multiset(heap + [x])[a] == 1 && multiset(rest)[a] >= 1;
    assert a == x && top != a;
    assert top in multiset(heap + [x]) && top in heap;
    assert ItemAtMost(top, d, os);
    assert SameItemKinds(a, top, os) && SameItemKinds(top, d, os);
    ItemsTransitive(a, top, d, os);
  }

  /** The order of popping: each popped row is at least all that are left. */
  ghost predicate Draining(temp: seq<Item>, heap: seq<Item>, all: multiset<Item>, os: seq<Order>) {
    && multiset(temp) + multiset(heap) == all
    && (forall i, j :: 0 <= i < j < |temp| ==> ItemAtMost(temp[j], temp[i], os))
    && (forall i, a :: 0 <= i < |temp| && a in heap ==> ItemAtMost(a, temp[i], os))
  }

  lemma DrainStep(temp: seq<Item>, heap: seq<Item>, all: multiset<Item>, top: Item, rest: seq<Item>, os: seq<Order>)
    requires Draining(temp, heap, all, os)
    requires multiset(heap) == multiset(rest) + multiset{top} && AllAtMost(rest, top, os)
    ensures Draining(temp + [top], rest, all, os)
  {
    forall x | x in rest || x == top
      ensures x in heap
    {
      assert x in multiset(heap);
    }
    assert top in heap;
    var longer := temp + [top];
    forall i, j | 0 <= i < j < |longer|
      ensures ItemAtMost(longer[j], longer[i], os)
    {
      assert j < |temp| ==> ItemAtMost(temp[j], temp[i], os);
      assert j == |temp| ==> ItemAtMost(top, temp[i], os);
    }
    forall i, a | 0 <= i < |longer| && a in rest
      ensures ItemAtMost(a, longer[i], os)
    {
      assert i < |temp| ==> ItemAtMost(a, temp[i], os);
    }
  }

  function Reversed(s: seq<Item>): (r: seq<Item>)
    ensures |r| == |s| && forall i :: 0 <= i < |s| ==> r[i] == s[|s| - 1 - i]
  {
    seq(|s|, i requires 0 <= i < |s| => s[|s| - 1 - i])
  }

  lemma {:induction false} ReversedContents(s: seq<Item>)
    ensures multiset(Reversed(s)) == multiset(s)
  {
    if s != [] {
      var n := |s| - 1;
      ReversedContents(s[..n]);
      assert Reversed(s) == [s[n]] + Reversed(s[..n]);
      assert s == s[..n] + [s[n]];
    }
  }

  lemma PartOf(s: seq<Item>, rest: multiset<Item>, all: seq<Item>, os: seq<Order>)
    requires multiset(s) + rest == multiset(all) && Sortable(all, os)
    ensures Sortable(s, os)
  {
    forall a | a in s
      ensures a in all
    {
      assert a in multiset(s) && a in multiset(all);
    }
    PartSortable(all, s, os);
  }

  /** No row that was dropped had to stand before one that was kept. */
  ghost predicate KeptBefore(kept: seq<Item>, dropped: seq<Item>, os: seq<Order>) {
    forall a, d :: a in kept && d in dropped ==> InOrderBy(a.row, d.row, os)
  }

  lemma KeptRows(kept: seq<Item>, dropped: seq<Item>, rows: seq<Item>, os: seq<Order>, capacity: nat, offset: nat, limit: nat)
    requires Ordered(kept, os) && Best(kept, dropped, rows, capacity, os)
    ensures AllComparable(rows, os) ==> OrderedRows(Window(kept, offset, limit), os) && KeptBefore(kept, dropped, os)
  {
    if AllComparable(rows, os) {
      PartComparable(rows, kept, os);
      OrderedMeans(kept, os);
      BestSizes(kept, dropped, rows, capacity, os);
      forall a, d | a in kept && d in dropped
        ensures InOrderBy(a.row, d.row, os)
      {
        assert ItemAtMost(a, d, os);
        assert RowsComparable(a.row, d.row, os);
        ComparableKeys(a, d, os);
        ItemsTotal(a, d, os);
        AtMostMeans(a.row, d.row, os);
      }
    }
  }

  class TopKExecutor {
    const child: Child
    const os: seq<Order>
    const limit: Count
    const offset: Count
    var tuples: seq<Item>
    var idx: nat

    constructor (child: Child, os: seq<Order>, limit: Count, offset: Count)
      requires child.Valid()
      ensures this.child == child && this.os == os && this.limit == limit && this.offset == offset
    {
      this.child, this.os, this.limit, this.offset := child, os, limit, offset;
      tuples, idx := [], 0;
    }

    /** Keeps the best rows of the child, as many as `limit` and `offset` together ask
        for in 64 bits, in order, and cuts the offset off. */
    method Init() returns (ghost kept: seq<Item>, ghost dropped: seq<Item>)
      requires Sortable(child.rows, os)
      modifies this, child
      ensures idx == 0 && tuples == Window(kept, offset, limit)
      ensures limit == 0 || (Ordered(kept, os) && Best(kept, dropped, child.rows, (limit + offset) % WORD, os))
      ensures AllComparable(child.rows, os) ==> OrderedRows(tuples, os) && KeptBefore(kept, dropped, os)
    {
      child.Init();
      tuples, idx := [], 0;
      kept, dropped := [], [];
      if limit == 0 {
        return;
      }
      var heap;
      heap, dropped := Collect((limit + offset) % WORD);
      var temp := Drain(heap, os, child.rows, multiset(dropped));
      kept := temp;
      tuples := Cut(temp, limit, offset);
      SameBest(heap, temp, dropped, child.rows, (limit + offset) % WORD, os);
      KeptRows(kept, dropped, child.rows, os, (limit + offset) % WORD, offset, limit);
    }

    method Next() returns (item: Option<Item>)
      modifies this`idx
      ensures if old(idx) >= |tuples| then item == None && idx == old(idx)
              else item == Some(tuples[old(idx)]) && idx == old(idx) + 1
    {
      if idx >= |tuples| {
        return None;
      }
      item := Some(tuples[idx]);
      idx := idx + 1;
    }

    /** The bounded heap over all rows of the child. */
    method Collect(capacity: nat) returns (heap: seq<Item>, ghost dropped: seq<Item>)
      requires Sortable(child.rows, os) && child.pos == 0
      modifies child
      ensures Best(heap, dropped, child.rows, capacity, os)
    {
      heap, dropped := [], [];
      while child.pos < |child.rows|
        invariant child.Valid() && Best(heap, dropped, child.rows[..child.pos], capacity, os)
        decreases |child.rows| - child.pos
      {
        ghost var seen := child.rows[..child.pos];
        var item := child.Next();
        assert child.rows[..child.pos] == seen + [item.value];
        heap, dropped := PushBounded(heap, dropped, seen, item.value, capacity, os);
      }
      assert child.rows[..child.pos] == child.rows;
    }
  }

  method PushBounded(heap: seq<Item>, ghost dropped: seq<Item>, ghost seen: seq<Item>, x: Item, capacity: nat, os: seq<Order>)
    returns (heap': seq<Item>, ghost dropped': seq<Item>)
    requires Best(heap, dropped, seen, capacity, os) && Sortable(seen + [x], os)
    ensures Best(heap', dropped', seen + [x], capacity, os)
  {
    heap', dropped' := heap + [x], dropped;
    if |heap'| > capacity {
      assert multiset(heap') + multiset(dropped) == multiset(seen + [x]);
      PartOf(heap', multiset(dropped), seen + [x], os);
      var top, rest := Pop(heap', os);
      PopKeeps(heap, dropped, seen, x, top, rest, capacity, os);
      heap', dropped' := rest, dropped + [top];
    } else {
      PushKeeps(heap, dropped, seen, x, capacity, os);
    }
  }

  /** Empties the heap and reverses what came out of it. */
  method Drain(heap0: seq<Item>, os: seq<Order>, ghost all: seq<Item>, ghost others: multiset<Item>) returns (r: seq<Item>)
    requires multiset(heap0) + others == multiset(all) && Sortable(all, os)
    ensures Ordered(r, os) && multiset(r) == multiset(heap0)
  {
    var heap, temp: seq<Item> := heap0, [];
    while heap != []
      invariant Draining(temp, heap, multiset(heap0), os)
      decreases |heap|
    {
      assert multiset(heap) + (multiset(temp) + others) == multiset(all);
      PartOf(heap, multiset(temp) + others, all, os);
      var top, rest := Pop(heap, os);
      DrainStep(temp, heap, multiset(heap0), top, rest, os);
      temp, heap := temp + [top], rest;
    }
    ReversedContents(temp);
    r := Reversed(temp);
  }

  method Cut(temp: seq<Item>, limit: nat, offset: nat) returns (r: seq<Item>)
    ensures r == Window(temp, offset, limit)
  {
    r := [];
    var i, count := offset, 0;
    while i < |temp| && count < limit
      invariant i == offset + count && count <= limit && |r| == count && (i <= |temp| || count == 0)
      invariant forall k :: 0 <= k < count ==> r[k] == temp[offset + k]
      decreases |temp| - i
    {
      r := r + [temp[i]];
      i, count := i + 1, count + 1;
    }
  }

  lemma SameBest(heap: seq<Item>, temp: seq<Item>, dropped: seq<Item>, seen: seq<Item>, capacity: nat, os: seq<Order>)
    requires Best(heap, dropped, seen, capacity, os) && multiset(temp) == multiset(heap)
    ensures Best(temp, dropped, seen, capacity, os)
  {
    assert |temp| == |multiset(temp)| == |heap|;
    forall a, d | a in temp && d in dropped
      ensures ItemAtMost(a, d, os)
    {
      assert a in multiset(temp) && a in multiset(heap);
    }
  }

  // ---- The heap and the sort agree ----------------------------------------

  /** The best rows, in order, show the keys at the beginning of the sorted rows. */
  lemma BestIsPrefix(kept: seq<Item>, dropped: seq<Item>, rows: seq<Item>, capacity: nat, os: seq<Order>)
    requires Best(kept, dropped, rows, capacity, os) && Ordered(kept, os) && Sortable(rows, os)
    ensures |kept| <= |StableSort(rows, os)| == |rows|
    ensures Keys(kept, os) == Keys(StableSort(rows, os), os)[..|kept|]
  {
    BestSizes(kept, dropped, rows, capacity, os);
    var tail, sorted := StableSort(dropped, os), StableSort(rows, os);
    SortContents(dropped, os);
    SortContents(rows, os);
    assert |sorted| == |multiset(sorted)| == |rows|;
    PartOf(dropped, multiset(kept), rows, os);
    SortOrdered(dropped, os);
    SortOrdered(rows, os);
    KeptThenDropped(kept, tail, dropped, os);
    WholeAgrees(kept, tail, rows, sorted, os);
  }

  lemma WholeAgrees(kept: seq<Item>, tail: seq<Item>, rows: seq<Item>, sorted: seq<Item>, os: seq<Order>)
    requires Ordered(kept + tail, os) && Ordered(sorted, os) && Sortable(rows, os)
    requires multiset(kept) + multiset(tail) == multiset(rows) == multiset(sorted)
    ensures |kept| <= |sorted| && Keys(kept, os) == Keys(sorted, os)[..|kept|]
  {
    var whole := kept + tail;
    PartOf(whole, multiset{}, rows, os);
    OrderingsAgree(whole, sorted, os);
    assert Keys(kept, os) == Keys(whole, os)[..|kept|];
  }

  lemma KeptThenDropped(kept: seq<Item>, tail: seq<Item>, dropped: seq<Item>, os: seq<Order>)
    requires Ordered(kept, os) && Ordered(tail, os) && multiset(tail) == multiset(dropped)
    requires forall a, d {:trigger ItemAtMost(a, d, os)} :: a in kept && d in dropped ==> ItemAtMost(a, d, os)
    ensures Ordered(kept + tail, os)
  {
    forall d | d in tail
      ensures d in dropped
    {
      assert d in multiset(tail) && d in multiset(dropped);
    }
  }

  lemma WindowOfPrefix(ks: seq<Key>, n: nat, offset: nat, limit: nat)
    requires n <= |ks| && (n == |ks| || n == limit + offset)
    ensures Window(ks[..n], offset, limit) == Window(ks, offset, limit)
  {
  }

  lemma KeysOfWindow(s: seq<Item>, offset: nat, limit: nat, os: seq<Order>)
    ensures Keys(Window(s, offset, limit), os) == Window(Keys(s, os), offset, limit)
  {
  }

  lemma {:induction false} WindowContents(s: seq<Item>, offset: nat, limit: nat)
    ensures multiset(Window(s, offset, limit)) <= multiset(s)
  {
    if offset < |s| {
      var w := Window(s, offset, limit);
      assert s == s[..offset] + w + s[offset + |w|..];
    }
  }

  /** Where the two counts do not add up in 64 bits, the heap is too small for the offset. */
  lemma TopKOutput(kept: seq<Item>, dropped: seq<Item>, rows: seq<Item>, os: seq<Order>, limit: Count, offset: Count)
    requires Sortable(rows, os) && limit > 0
    requires Ordered(kept, os) && Best(kept, dropped, rows, (limit + offset) % WORD, os)
    ensures limit + offset < WORD ==>
      Keys(Window(kept, offset, limit), os) == Keys(Window(StableSort(rows, os), offset, limit), os)
    ensures limit + offset >= WORD ==> Window(kept, offset, limit) == []
  {
    BestSizes(kept, dropped, rows, (limit + offset) % WORD, os);
    if limit + offset < WORD {
      BestIsPrefix(kept, dropped, rows, limit + offset, os);
      KeysOfWindow(kept, offset, limit, os);
      KeysOfWindow(StableSort(rows, os), offset, limit, os);
      WindowOfPrefix(Keys(StableSort(rows, os), os), |kept|, offset, limit);
    } else {
      assert (limit + offset) % WORD == limit + offset - WORD;
    }
  }

  lemma TopKExact(kept: seq<Item>, dropped: seq<Item>, rows: seq<Item>, os: seq<Order>, limit: Count, offset: Count)
    requires Sortable(rows, os)
    requires limit == 0 || (Ordered(kept, os) && Best(kept, dropped, rows, (limit + offset) % WORD, os))
    ensures multiset(Window(kept, offset, limit)) <= multiset(rows)
    ensures Keys(Window(kept, offset, limit), os) == Keys(Window(StableSort(rows, os), offset, limit), os) <==>
      limit == 0 || limit + offset < WORD || |rows| <= offset
  {
    var top, reference := Window(kept, offset, limit), Window(StableSort(rows, os), offset, limit);
    SortSize(rows, os);
    if limit == 0 {
      assert top == [] && reference == [];
    } else {
      TopKOutput(kept, dropped, rows, os, limit, offset);
      WindowContents(kept, offset, limit);
      assert |Keys(top, os)| == |top| && |Keys(reference, os)| == |reference|;
    }
  }

  /** The bounded heap, pulled to exhaustion. */
  method RunTopK(rows: seq<Item>, os: seq<Order>, limit: Count, offset: Count)
    returns (out: seq<Item>, ghost kept: seq<Item>, ghost dropped: seq<Item>)
    requires Sortable(rows, os)
    ensures out == Window(kept, offset, limit)
    ensures limit == 0 || (Ordered(kept, os) && Best(kept, dropped, rows, (limit + offset) % WORD, os))
    ensures AllComparable(rows, os) ==> OrderedRows(out, os) && KeptBefore(kept, dropped, os)
  {
    var child := new Child(rows);
    var exec := new TopKExecutor(child, os, limit, offset);
    kept, dropped := exec.Init();
    var all := exec.tuples;
    out := [];
    while true
      invariant fresh(exec) && exec.tuples == all && exec.idx <= |all| && out == all[..exec.idx]
      decreases |all| - exec.idx
    {
      var item := exec.Next();
      if item.None? {
        return;
      }
      out := out + [item.value];
    }
  }

  /** Runs the bounded heap, and the sort with a limit, on the same rows.  The heap
      yields rows of the input, and they show the keys of the sorted rows exactly when
      `limit + offset` does not wrap, or there is nothing behind the offset anyway. */
  method RunBothLimits(rows: seq<Item>, os: seq<Order>, limit: Count, offset: Count)
    returns (top: seq<Item>, reference: seq<Item>)
    requires Sortable(rows, os)
    ensures reference == Window(StableSort(rows, os), offset, limit)
    ensures multiset(top) <= multiset(rows)
    ensures Keys(top, os) == Keys(reference, os) <==> limit == 0 || limit + offset < WORD || |rows| <= offset
    ensures AllComparable(rows, os) ==> OrderedRows(top, os) && OrderedRows(reference, os)
  {
    SortedRows(rows, os);
    reference := RunSortLimit(rows, os, limit, offset);
    ghost var kept, dropped;
    top, kept, dropped := RunTopK(rows, os, limit, offset);
    TopKExact(kept, dropped, rows, os, limit, offset);
  }
}

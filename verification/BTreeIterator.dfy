/** Iteration over the leaf chain, and the tree read as one ordered sequence. */
module BTreeIterator {
  import opened Common
  import opened BTreePages
  import opened BTreeShape
  import opened BPlusTree

  // ---- The in-order traversal of the page graph --------------------------

  /** The entries below page `p`, left to right, for a subtree of height `h`. */
  ghost function InOrder(pages: Pages, p: PageId, h: nat): seq<LeafEntry>
    decreases h, 0, 0
  {
    if p !in pages then []
    else match pages[p]
      case Leaf(_, _, _, _, s) => s
      case Internal(_, _, s) => if h == 0 then [] else InOrderFrom(pages, s, 0, h - 1)
  }

  ghost function InOrderFrom(pages: Pages, s: seq<InternalEntry>, i: nat, h: nat): seq<LeafEntry>
    requires i <= |s|
    decreases h, 1, |s| - i
  {
    if i == |s| then [] else InOrder(pages, s[i].child, h) + InOrderFrom(pages, s, i + 1, h)
  }

  ghost predicate Lists(s: seq<LeafEntry>, stored: set<LeafEntry>, lo: Option<int>, hi: Option<int>) {
    && Sorted(s)
    && (forall e :: e in s <==> e in stored && AtLeast(lo, e.key) && Under(e.key, hi))
  }

  /** The subtree below `p` holds exactly the stored entries of its interval, in order. */
  lemma {:induction false} InOrderLists(pages: Pages, shape: Shape, root: PageId, p: PageId)
    requires WellFormed(pages, shape, root) && p in shape
    ensures Lists(InOrder(pages, p, shape[p].level), Stored(pages, shape), shape[p].lo, shape[p].hi)
    decreases shape[p].level, 0, 0
  {
    assert NodeOk(pages, shape, root, INVALID, INVALID, p);
    if pages[p].Leaf? {
      var s := pages[p].leafEntries;
      forall e | e in Stored(pages, shape) && InRange(shape[p], e.key)
        ensures e in s
      {
        KeyInItsLeaf(pages, shape, root, p, e);
      }
      assert forall e :: e in s ==> e in Stored(pages, shape);
    } else {
      InOrderFromLists(pages, shape, root, p, 0);
    }
  }

  lemma {:induction false} InOrderFromLists(pages: Pages, shape: Shape, root: PageId, p: PageId, i: nat)
    requires WellFormed(pages, shape, root) && p in shape
    requires p in pages && pages[p].Internal? && i < |pages[p].entries| && shape[p].level > 0
    ensures Lists(InOrderFrom(pages, pages[p].entries, i, shape[p].level - 1), Stored(pages, shape),
                  ChildLo(shape[p], pages[p].entries, i), shape[p].hi)
    decreases shape[p].level - 1, 1, |pages[p].entries| - i
  {
    assert NodeOk(pages, shape, root, INVALID, INVALID, p);
    var s := pages[p].entries;
    var h := shape[p].level - 1;
    assert ChildOk(pages, shape, p, s, i);
    InOrderLists(pages, shape, root, s[i].child);
    var first, rest := InOrder(pages, s[i].child, h), InOrderFrom(pages, s, i + 1, h);
    if i + 1 < |s| {
      InOrderFromLists(pages, shape, root, p, i + 1);
      ListsConcat(first, rest, Stored(pages, shape), ChildLo(shape[p], s, i), s[i + 1].key, shape[p].hi);
    } else {
      assert first + rest == first;
    }
  }

  lemma ListsConcat(first: seq<LeafEntry>, rest: seq<LeafEntry>, stored: set<LeafEntry>,
                    lo: Option<int>, mid: int, hi: Option<int>)
    requires Lists(first, stored, lo, Some(mid)) && Lists(rest, stored, Some(mid), hi)
    requires Exceeds(lo, mid) && Under(mid, hi)
    ensures Lists(first + rest, stored, lo, hi)
  {
    assert forall i :: 0 <= i < |first| ==> first[i] in first;
    assert forall i :: 0 <= i < |rest| ==> rest[i] in rest;
    SortedConcat(first, rest);
  }

  /** A sorted sequence is determined by its elements. */
  lemma {:induction false} SortedUnique(s: seq<LeafEntry>, t: seq<LeafEntry>)
    requires Sorted(s) && Sorted(t) && forall e :: e in s <==> e in t
    ensures s == t
  {
    assert t != [] ==> t[0] in t;
    if s != [] {
      assert s[0] in t && t[0] in s;
      var i :| 0 <= i < |t| && t[i] == s[0];
      var j :| 0 <= j < |s| && s[j] == t[0];
      assert s[0] == t[0];
      forall e
        ensures e in s[1..] <==> e in t[1..]
      {
        assert e in s[1..] <==> e in s && e != s[0];
        assert e in t[1..] <==> e in t && e != t[0];
      }
      SortedUnique(s[1..], t[1..]);
    }
  }

  // ---- The leaf chain ----------------------------------------------------

  /** The leaves below page `p`, left to right, for a subtree of height `h`. */
  ghost function Leaves(pages: Pages, p: PageId, h: nat): seq<PageId>
    decreases h, 0, 0
  {
    if p !in pages then []
    else match pages[p]
      case Leaf(_, _, _, _, _) => [p]
      case Internal(_, _, s) => if h == 0 then [] else LeavesFrom(pages, s, 0, h - 1)
  }

  ghost function LeavesFrom(pages: Pages, s: seq<InternalEntry>, i: nat, h: nat): seq<PageId>
    requires i <= |s|
    decreases h, 1, |s| - i
  {
    if i == |s| then [] else Leaves(pages, s[i].child, h) + LeavesFrom(pages, s, i + 1, h)
  }

  ghost predicate IsLeaf(pages: Pages, shape: Shape, p: PageId) {
    p in shape && p in pages && pages[p].Leaf?
  }

  /** Leaf `q` follows leaf `p`: its interval begins where the other ends, and the two
      name each other. */
  ghost predicate Joined(pages: Pages, shape: Shape, p: PageId, q: PageId) {
    && IsLeaf(pages, shape, p) && IsLeaf(pages, shape, q) && shape[p].hi.Some?
    && shape[q].lo == shape[p].hi && pages[p].next == q && pages[q].prev == p
  }

  /** Leaves in a row, from `lo` to `hi`. */
  ghost predicate InRow(pages: Pages, shape: Shape, ids: seq<PageId>, lo: Option<int>, hi: Option<int>) {
    && ids != [] && (forall i :: 0 <= i < |ids| ==> IsLeaf(pages, shape, ids[i]))
    && shape[ids[0]].lo == lo && shape[ids[|ids| - 1]].hi == hi
    && (forall i, j {:trigger ids[i], ids[j]} :: 0 <= i && j == i + 1 < |ids| ==> Joined(pages, shape, ids[i], ids[j]))
  }

  /** A key at which a page is responsible. */
  function SomeKey(f: Info): int {
    if f.lo.Some? then f.lo.value else if f.hi.Some? then f.hi.value - 1 else 0
  }

  /** The leaf whose interval begins where another ends is the one it names. */
  lemma NextIsNeighbour(pages: Pages, shape: Shape, root: PageId, p: PageId, q: PageId)
    requires WellFormed(pages, shape, root) && IsLeaf(pages, shape, p) && IsLeaf(pages, shape, q)
    requires shape[p].hi.Some? && shape[q].lo == shape[p].hi
    ensures Joined(pages, shape, p, q)
  {
    var n := pages[p].next;
    assert NodeOk(pages, shape, root, INVALID, INVALID, p);
    assert NodeOk(pages, shape, root, INVALID, INVALID, q);
    assert NodeOk(pages, shape, root, INVALID, INVALID, n);
    UniqueOwner(pages, shape, root, INVALID, INVALID, shape[p].hi.value, n, q);
  }

  lemma RowConcat(pages: Pages, shape: Shape, root: PageId, a: seq<PageId>, b: seq<PageId>,
                  lo: Option<int>, mid: int, hi: Option<int>)
    requires WellFormed(pages, shape, root)
    requires InRow(pages, shape, a, lo, Some(mid)) && InRow(pages, shape, b, Some(mid), hi)
    ensures InRow(pages, shape, a + b, lo, hi)
  {
    var c, n := a + b, |a|;
    NextIsNeighbour(pages, shape, root, a[n - 1], b[0]);
    forall i, j | 0 <= i && j == i + 1 < |c|
      ensures Joined(pages, shape, c[i], c[j])
    {
      if j < n {
        assert c[i] == a[i] && c[j] == a[j];
      } else if i >= n {
        assert c[i] == b[i - n] && c[j] == b[j - n];
      }
    }
  }

  lemma {:induction false} LeavesInRow(pages: Pages, shape: Shape, root: PageId, p: PageId)
    requires WellFormed(pages, shape, root) && p in shape
    ensures InRow(pages, shape, Leaves(pages, p, shape[p].level), shape[p].lo, shape[p].hi)
    decreases shape[p].level, 0, 0
  {
    assert NodeOk(pages, shape, root, INVALID, INVALID, p);
    if pages[p].Internal? {
      LeavesFromInRow(pages, shape, root, p, 0);
    }
  }

  lemma {:induction false} LeavesFromInRow(pages: Pages, shape: Shape, root: PageId, p: PageId, i: nat)
    requires WellFormed(pages, shape, root) && p in shape
    requires p in pages && pages[p].Internal? && i < |pages[p].entries| && shape[p].level > 0
    ensures InRow(pages, shape, LeavesFrom(pages, pages[p].entries, i, shape[p].level - 1),
                  ChildLo(shape[p], pages[p].entries, i), shape[p].hi)
    decreases shape[p].level - 1, 1, |pages[p].entries| - i
  {
    assert NodeOk(pages, shape, root, INVALID, INVALID, p);
    var s, h := pages[p].entries, shape[p].level - 1;
    assert ChildOk(pages, shape, p, s, i);
    LeavesInRow(pages, shape, root, s[i].child);
    var first, rest := Leaves(pages, s[i].child, h), LeavesFrom(pages, s, i + 1, h);
    if i + 1 < |s| {
      LeavesFromInRow(pages, shape, root, p, i + 1);
      RowConcat(pages, shape, root, first, rest, ChildLo(shape[p], s, i), s[i + 1].key, shape[p].hi);
    } else {
      assert first + rest == first;
    }
  }

  /** Some leaf of a row is responsible for each key from `lo` to `hi`. */
  lemma {:induction false} RowCovers(pages: Pages, shape: Shape, ids: seq<PageId>, lo: Option<int>, hi: Option<int>, k: int)
    returns (i: nat)
    requires InRow(pages, shape, ids, lo, hi) && AtLeast(lo, k) && Under(k, hi)
    ensures i < |ids| && InRange(shape[ids[i]], k)
  {
    i := 0;
    if !Under(k, shape[ids[0]].hi) {
      assert |ids| > 1;
      assert Joined(pages, shape, ids[0], ids[1]);
      var rest := ids[1..];
      assert InRow(pages, shape, rest, shape[ids[0]].hi, hi);
      i := RowCovers(pages, shape, rest, shape[ids[0]].hi, hi, k);
      i := i + 1;
    }
  }

  /** Later leaves of a row have greater keys. */
  lemma {:induction false} RowAscends(pages: Pages, shape: Shape, root: PageId, ids: seq<PageId>, lo: Option<int>,
                                      hi: Option<int>, i: nat, j: nat)
    requires WellFormed(pages, shape, root) && InRow(pages, shape, ids, lo, hi) && i < j < |ids|
    ensures shape[ids[i]].hi.Some? && shape[ids[j]].lo.Some? && shape[ids[i]].hi.value <= shape[ids[j]].lo.value
  {
    assert Joined(pages, shape, ids[j - 1], ids[j]);
    if i < j - 1 {
      RowAscends(pages, shape, root, ids, lo, hi, i, j - 1);
      assert NodeOk(pages, shape, root, INVALID, INVALID, ids[j - 1]);
    }
  }

  /** The links lead through exactly these leaves: forwards along `next`, backwards along `prev`. */
  ghost predicate Linked(pages: Pages, shape: Shape, ids: seq<PageId>) {
    && ids != [] && (forall i :: 0 <= i < |ids| ==> IsLeaf(pages, shape, ids[i]))
    && (forall i :: 0 <= i < |ids| ==> pages[ids[i]].next == if i + 1 < |ids| then ids[i + 1] else INVALID)
    && (forall i :: 0 <= i < |ids| ==> pages[ids[i]].prev == if i > 0 then ids[i - 1] else INVALID)
  }

  /** Along `next` the leaf pages are the in-order list of all leaves of the tree, each
      once; along `prev` they are its reverse. */
  lemma LeafChain(pages: Pages, shape: Shape, root: PageId)
    requires WellFormed(pages, shape, root)
    ensures var ids := Leaves(pages, root, shape[root].level);
      && Linked(pages, shape, ids) && (forall q :: q in ids <==> IsLeaf(pages, shape, q))
      && (forall i, j :: 0 <= i < j < |ids| ==> ids[i] != ids[j])
  {
    var ids := Leaves(pages, root, shape[root].level);
    assert NodeOk(pages, shape, root, INVALID, INVALID, root);
    LeavesInRow(pages, shape, root, root);
    assert NodeOk(pages, shape, root, INVALID, INVALID, ids[0]);
    assert NodeOk(pages, shape, root, INVALID, INVALID, ids[|ids| - 1]);
    forall i | 0 <= i < |ids|
      ensures pages[ids[i]].next == if i + 1 < |ids| then ids[i + 1] else INVALID
      ensures pages[ids[i]].prev == if i > 0 then ids[i - 1] else INVALID
    {
      assert i + 1 < |ids| ==> Joined(pages, shape, ids[i], ids[i + 1]);
      assert i > 0 ==> Joined(pages, shape, ids[i - 1], ids[i]);
    }
    forall q | IsLeaf(pages, shape, q)
      ensures q in ids
    {
      LeafInRow(pages, shape, root, ids, q);
    }
    forall i, j | 0 <= i < j < |ids|
      ensures ids[i] != ids[j]
    {
      RowAscends(pages, shape, root, ids, None, None, i, j);
      assert NodeOk(pages, shape, root, INVALID, INVALID, ids[j]);
    }
  }

  lemma LeafInRow(pages: Pages, shape: Shape, root: PageId, ids: seq<PageId>, q: PageId)
    requires WellFormed(pages, shape, root) && InRow(pages, shape, ids, None, None) && IsLeaf(pages, shape, q)
    ensures q in ids
  {
    assert NodeOk(pages, shape, root, INVALID, INVALID, q);
    var k := SomeKey(shape[q]);
    var i := RowCovers(pages, shape, ids, None, None, k);
    assert NodeOk(pages, shape, root, INVALID, INVALID, ids[i]);
    UniqueOwner(pages, shape, root, INVALID, INVALID, k, ids[i], q);
  }

  // ---- One step of the leaf chain ----------------------------------------

  ghost predicate At(pages: Pages, shape: Shape, p: PageId, i: nat) {
    p in shape && p in pages && pages[p].Leaf? && i < |pages[p].leafEntries|
  }

  /** A position and its entry; no stored key lies in `[from, entry)`. */
  ghost predicate NextFrom(pages: Pages, shape: Shape, p: PageId, i: nat, from: Option<int>) {
    && At(pages, shape, p, i)
    && AtLeast(from, pages[p].leafEntries[i].key)
    && (forall e :: e in Stored(pages, shape) && AtLeast(from, e.key) ==> pages[p].leafEntries[i].key <= e.key)
  }

  ghost predicate NoneFrom(pages: Pages, shape: Shape, from: Option<int>) {
    forall e :: e in Stored(pages, shape) ==> !AtLeast(from, e.key)
  }

  /** Within a leaf, position `i` is the next one from any key between its neighbours. */
  lemma NextInLeaf(pages: Pages, shape: Shape, root: PageId, p: PageId, i: nat, from: Option<int>)
    requires WellFormed(pages, shape, root) && At(pages, shape, p, i)
    requires AtLeast(from, pages[p].leafEntries[i].key)
    requires i > 0 ==> from.Some? && pages[p].leafEntries[i - 1].key < from.value
    requires from.Some? ==> AtLeast(shape[p].lo, from.value)
    requires from.None? ==> shape[p].lo.None?
    ensures NextFrom(pages, shape, p, i, from)
  {
    assert NodeOk(pages, shape, root, INVALID, INVALID, p);
    var s := pages[p].leafEntries;
    forall e | e in Stored(pages, shape) && AtLeast(from, e.key)
      ensures s[i].key <= e.key
    {
      assert InRange(shape[p], s[i].key);
      if Under(e.key, shape[p].hi) {
        KeyInItsLeaf(pages, shape, root, p, e);
        var k :| 0 <= k < |s| && s[k] == e;
        assert k >= i;
      }
    }
  }

  /** Beyond the last key of a leaf at or after `from` comes the first entry of the next leaf. */
  lemma NextAcross(pages: Pages, shape: Shape, root: PageId, p: PageId, from: int)
    requires WellFormed(pages, shape, root) && p in shape && p in pages && pages[p].Leaf?
    requires AtLeast(shape[p].lo, from)
    requires forall i :: 0 <= i < |pages[p].leafEntries| ==> pages[p].leafEntries[i].key < from
    ensures pages[p].next == INVALID ==> NoneFrom(pages, shape, Some(from))
    ensures pages[p].next != INVALID && Under(from, shape[p].hi) ==>
      NextFrom(pages, shape, pages[p].next, 0, Some(from))
  {
    assert NodeOk(pages, shape, root, INVALID, INVALID, p);
    var n := pages[p].next;
    forall e | e in Stored(pages, shape) && from <= e.key
      ensures !Under(e.key, shape[p].hi)
    {
      if Under(e.key, shape[p].hi) {
        KeyInItsLeaf(pages, shape, root, p, e);
      }
    }
    if shape[p].hi.Some? {
      assert NodeOk(pages, shape, root, INVALID, INVALID, n);
      NextInLeaf(pages, shape, root, n, 0, shape[p].hi);
    }
  }

  class Iterator {
    const tree: BPlusTree
    var pageId: PageId
    var index: nat
    var leaf: Node

    ghost predicate IsAt(from: Option<int>)
      reads this, tree
    {
      if pageId == INVALID then tree.root == INVALID || NoneFrom(tree.pages, tree.shape, from)
      else
        && tree.root != INVALID
        && NextFrom(tree.pages, tree.shape, pageId, index, from)
        && leaf == tree.pages[pageId]
    }

    constructor (tree: BPlusTree, pageId: PageId, index: nat, ghost from: Option<int>)
      requires tree.Valid()
      requires pageId == INVALID ==> tree.root == INVALID || NoneFrom(tree.pages, tree.shape, from)
      requires pageId != INVALID ==> tree.root != INVALID && NextFrom(tree.pages, tree.shape, pageId, index, from)
      ensures this.tree == tree && IsAt(from)
    {
      this.tree, this.pageId, this.index := tree, pageId, index;
      leaf := if pageId != INVALID then tree.pages[pageId] else Leaf(INVALID, INVALID, INVALID, INVALID, []);
    }

    /** Moves on to the entry after the current one. */
    method Next(ghost from: Option<int>)
      requires tree.Valid() && IsAt(from)
      modifies this
      ensures old(pageId) == INVALID ==> pageId == INVALID
      ensures old(pageId) != INVALID ==> IsAt(Some(old(leaf.leafEntries[index].key) + 1))
    {
      if pageId == INVALID {
        return;
      }
      ghost var k := leaf.leafEntries[index].key;
      assert NodeOk(tree.pages, tree.shape, tree.root, INVALID, INVALID, pageId);
      assert InRange(tree.shape[pageId], k);
      if index + 1 < |leaf.leafEntries| {
        index := index + 1;
        NextInLeaf(tree.pages, tree.shape, tree.root, pageId, index, Some(k + 1));
      } else {
        ghost var p := pageId;
        AfterLast(tree.pages, tree.shape, tree.root, pageId);
        pageId := leaf.next;
        index := 0;
        if pageId != INVALID {
          leaf := tree.pages[pageId];
        }
      }
    }
  }

  /** What follows the last entry of a leaf. */
  lemma AfterLast(pages: Pages, shape: Shape, root: PageId, p: PageId)
    requires WellFormed(pages, shape, root) && p in shape && p in pages && pages[p].Leaf? && pages[p].leafEntries != []
    ensures var k := pages[p].leafEntries[|pages[p].leafEntries| - 1].key;
      if pages[p].next == INVALID then NoneFrom(pages, shape, Some(k + 1))
      else NextFrom(pages, shape, pages[p].next, 0, Some(k + 1))
  {
    assert NodeOk(pages, shape, root, INVALID, INVALID, p);
    var s := pages[p].leafEntries;
    var k := s[|s| - 1].key;
    assert InRange(shape[p], k);
    if shape[p].hi.Some? && k + 1 == shape[p].hi.value {
      assert NodeOk(pages, shape, root, INVALID, INVALID, pages[p].next);
      NextInLeaf(pages, shape, root, pages[p].next, 0, Some(k + 1));
    } else {
      NextAcross(pages, shape, root, p, k + 1);
    }
  }

  /** An iterator on the first entry. */
  method Begin(tree: BPlusTree) returns (it: Iterator)
    requires tree.Valid()
    ensures fresh(it) && it.tree == tree && it.IsAt(None)
  {
    if tree.root == INVALID {
      it := new Iterator(tree, INVALID, 0, None);
      return;
    }
    var p := tree.root;
    assert NodeOk(tree.pages, tree.shape, tree.root, INVALID, INVALID, p);
    while tree.pages[p].Internal?
      invariant p in tree.shape && p in tree.pages && tree.shape[p].lo.None?
      decreases tree.shape[p].level
    {
      assert NodeOk(tree.pages, tree.shape, tree.root, INVALID, INVALID, p);
      assert ChildOk(tree.pages, tree.shape, p, tree.pages[p].entries, 0);
      p := tree.pages[p].entries[0].child;
    }
    assert NodeOk(tree.pages, tree.shape, tree.root, INVALID, INVALID, p);
    NextInLeaf(tree.pages, tree.shape, tree.root, p, 0, None);
    it := new Iterator(tree, p, 0, None);
  }

  /** An iterator on the first entry with a key at or above `key`. */
  method BeginAt(tree: BPlusTree, key: int) returns (it: Iterator)
    requires tree.Valid()
    ensures fresh(it) && it.tree == tree && it.IsAt(Some(key))
  {
    if tree.root == INVALID {
      it := new Iterator(tree, INVALID, 0, Some(key));
      return;
    }
    var p := tree.FindLeaf(key);
    assert NodeOk(tree.pages, tree.shape, tree.root, INVALID, INVALID, p);
    var s := tree.pages[p].leafEntries;
    var index := 0;
    while index < |s| && s[index].key < key
      invariant index <= |s| && forall i :: 0 <= i < index ==> s[i].key < key
    {
      index := index + 1;
    }
    if index < |s| {
      NextInLeaf(tree.pages, tree.shape, tree.root, p, index, Some(key));
      it := new Iterator(tree, p, index, Some(key));
    } else {
      NextAcross(tree.pages, tree.shape, tree.root, p, key);
      it := new Iterator(tree, tree.pages[p].next, 0, Some(key));
    }
  }

  // ---- Whole scans -------------------------------------------------------

  ghost function AtOrAfter(stored: set<LeafEntry>, from: Option<int>): set<LeafEntry> {
    set e | e in stored && AtLeast(from, e.key)
  }

  /** Pulls an iterator to its end. */
  method Collect(it: Iterator, ghost start: Option<int>) returns (out: seq<LeafEntry>)
    requires it.tree.Valid() && it.IsAt(start)
    modifies it
    ensures Lists(out, Stored(it.tree.pages, it.tree.shape), start, None)
  {
    out := [];
    ghost var from := start;
    ghost var stored := Stored(it.tree.pages, it.tree.shape);
    while it.pageId != INVALID
      invariant it.IsAt(from)
      invariant Scanned(out, stored, start, from)
      decreases |AtOrAfter(stored, from)|
    {
      var e := it.leaf.leafEntries[it.index];
      NextEntry(it.tree.pages, it.tree.shape, it.tree.root, it.pageId, it.index, from);
      ScannedStep(out, stored, start, from, e);
      out := out + [e];
      it.Next(from);
      from := Some(e.key + 1);
    }
  }

  /** What a scan from `start` has yielded when it is at `from`. */
  ghost predicate Scanned(out: seq<LeafEntry>, stored: set<LeafEntry>, start: Option<int>, from: Option<int>) {
    && (forall k :: AtLeast(from, k) ==> AtLeast(start, k))
    && Sorted(out)
    && (forall e :: e in out <==> e in stored && AtLeast(start, e.key) && !AtLeast(from, e.key))
  }

  lemma ScannedStep(out: seq<LeafEntry>, stored: set<LeafEntry>, start: Option<int>, from: Option<int>, e: LeafEntry)
    requires Scanned(out, stored, start, from) && e in stored
    requires forall d :: d in stored ==> (AtLeast(from, d.key) && !AtLeast(Some(e.key + 1), d.key) <==> d == e)
    ensures Scanned(out + [e], stored, start, Some(e.key + 1))
    ensures |AtOrAfter(stored, Some(e.key + 1))| < |AtOrAfter(stored, from)|
  {
    assert AtLeast(from, e.key);
    assert forall i :: 0 <= i < |out| ==> out[i] in out;
    assert AtOrAfter(stored, Some(e.key + 1)) == AtOrAfter(stored, from) - {e};
  }

  /** The entry at the current position is the only stored one before the next position. */
  lemma NextEntry(pages: Pages, shape: Shape, root: PageId, p: PageId, i: nat, from: Option<int>)
    requires WellFormed(pages, shape, root) && NextFrom(pages, shape, p, i, from)
    ensures var e := pages[p].leafEntries[i];
      && e in Stored(pages, shape)
      && (forall d :: d in Stored(pages, shape) ==>
          (AtLeast(from, d.key) && !AtLeast(Some(e.key + 1), d.key) <==> d == e))
  {
    var e := pages[p].leafEntries[i];
    assert p in shape && p in pages && e in pages[p].leafEntries;
    forall d | d in Stored(pages, shape) && d.key == e.key
      ensures d == e
    {
      KeysDistinct(pages, shape, root, d, e);
    }
  }

  /** A scan from `begin()` yields the in-order traversal of the tree: every pair
      of the map once, in ascending key order. */
  method ScanAll(tree: BPlusTree) returns (out: seq<LeafEntry>)
    requires tree.Valid()
    ensures Sorted(out)
    ensures forall e :: e in out <==> e.key in tree.model && tree.model[e.key] == e.rid
    ensures tree.root != INVALID ==> out == InOrder(tree.pages, tree.root, tree.shape[tree.root].level)
  {
    var it := Begin(tree);
    out := Collect(it, None);
    if tree.root != INVALID {
      assert NodeOk(tree.pages, tree.shape, tree.root, INVALID, INVALID, tree.root);
      InOrderLists(tree.pages, tree.shape, tree.root, tree.root);
      SortedUnique(out, InOrder(tree.pages, tree.root, tree.shape[tree.root].level));
    }
  }

  /** A scan from `begin(key)` yields the pairs at or above `key`. */
  method ScanFrom(tree: BPlusTree, key: int) returns (out: seq<LeafEntry>)
    requires tree.Valid()
    ensures Sorted(out)
    ensures forall e :: e in out <==> e.key in tree.model && tree.model[e.key] == e.rid && key <= e.key
  {
    var it := BeginAt(tree, key);
    out := Collect(it, Some(key));
  }

  // ---- Whole runs --------------------------------------------------------

  datatype Op = Put(key: int, rid: RID) | Delete(key: int) | Get(key: int)

  datatype Outcome = Code(status: Status) | Found(value: Option<RID>)

  /** What a plain map answers to one operation, and the map afterwards. */
  function MapStep(m: map<int, RID>, op: Op): (map<int, RID>, Outcome) {
    match op
    case Put(k, rid) => if k in m then (m, Code(AlreadyExists)) else (m[k := rid], Code(Ok))
    case Delete(k) => (m - {k}, Code(if k in m then Ok else NotFound))
    case Get(k) => (m, Found(if k in m then Some(m[k]) else None))
  }

  function MapRun(m: map<int, RID>, ops: seq<Op>): (map<int, RID>, seq<Outcome>) {
    if ops == [] then (m, [])
    else
      var n := |ops| - 1;
      var (m', outs) := MapRun(m, ops[..n]);
      var (m'', out) := MapStep(m', ops[n]);
      (m'', outs + [out])
  }

  /** Every run of operations from an empty tree answers as a map does, and at its
      end a scan lists that map. */
  method RunFromEmpty(ops: seq<Op>) returns (outs: seq<Outcome>, listing: seq<LeafEntry>)
    ensures outs == MapRun(map[], ops).1
    ensures Sorted(listing)
    ensures var m := MapRun(map[], ops).0;
      forall e :: e in listing <==> e.key in m && m[e.key] == e.rid
  {
    var tree := new BPlusTree.Create(map[], 0);
    outs := [];
    var i := 0;
    while i < |ops|
      invariant i <= |ops| && fresh(tree)
      invariant tree.Valid() && (tree.model, outs) == MapRun(map[], ops[..i])
    {
      assert ops[..i + 1][..i] == ops[..i];
      match ops[i] {
        case Put(k, rid) =>
          var status := tree.Insert(k, rid);
          outs := outs + [Code(status)];
        case Delete(k) =>
          var status := tree.Remove(k);
          outs := outs + [Code(status)];
        case Get(k) =>
          var value := tree.GetValue(k);
          outs := outs + [Found(value)];
      }
      i := i + 1;
    }
    assert ops[..i] == ops;
    listing := ScanAll(tree);
  }
}

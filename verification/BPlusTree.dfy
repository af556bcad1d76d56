/** The B+ tree index over the page store. */
module BPlusTree {
  import opened Common
  import opened BTreePages
  import opened BTreeShape
  import opened BTreeInsert
  import opened BTreeRemove

  // ---- Sorted leaf entries -----------------------------------------------

  /** Inserting a new key at its lower bound keeps the entries sorted. */
  lemma InsertSorted(s: seq<LeafEntry>, key: int, rid: RID, pos: nat)
    requires Sorted(s) && LowerBound(s, key, pos) && !HasKey(s, key)
    ensures Sorted(InsertAt(s, pos, LeafEntry(key, rid)))
    ensures forall e :: e in InsertAt(s, pos, LeafEntry(key, rid)) <==> e in s || e == LeafEntry(key, rid)
  {
    var t := InsertAt(s, pos, LeafEntry(key, rid));
    assert forall i :: 0 <= i < pos ==> t[i] == s[i];
    assert forall i :: pos < i < |t| ==> t[i] == s[i - 1];
    assert t[pos] == LeafEntry(key, rid);
    assert forall e :: e in s ==> e in s[..pos] || e in s[pos..];
  }

  lemma RemoveSorted(s: seq<LeafEntry>, pos: nat)
    requires Sorted(s) && pos < |s|
    ensures Sorted(RemoveAt(s, pos))
    ensures forall e :: e in RemoveAt(s, pos) <==> e in s && e != s[pos]
  {
    var t := RemoveAt(s, pos);
    assert forall i :: 0 <= i < pos ==> t[i] == s[i];
    assert forall i :: pos <= i < |t| ==> t[i] == s[i + 1];
    forall e | e in s && e != s[pos]
      ensures e in t
    {
      var i :| 0 <= i < |s| && s[i] == e;
      assert t[if i < pos then i else i - 1] == e;
    }
  }

  /** A leaf without one of its entries. */
  lemma RemovedFromLeaf(pages: Pages, shape: Shape, root: PageId, p: PageId, pos: nat)
    requires WellFormed(pages, shape, root) && p in shape && p in pages && pages[p].Leaf? && pos < |pages[p].leafEntries|
    ensures var s := pages[p].leafEntries;
      var pages' := pages[p := pages[p].(leafEntries := RemoveAt(s, pos))];
      && (|s| > 1 ==> Repairing(pages', shape, root, INVALID, p))
      && Stored(pages', shape) == Stored(pages, shape) - {s[pos]}
  {
    assert NodeOk(pages, shape, root, INVALID, INVALID, p);
    var s := pages[p].leafEntries;
    var t := RemoveAt(s, pos);
    RemoveSorted(s, pos);
    assert forall i :: 0 <= i < |t| ==> t[i] in s;
    if |s| > 1 {
      ReplaceLeaf(pages, shape, root, p, t, p);
    }
    ReplacedLeafStores(pages, shape, root, p, t);
    assert forall e :: e in s ==> e in Stored(pages, shape);
  }

  /** Inserts an entry into a half-full page at the place its key routes to. */
  method InsertPending(page: InternalPage, key: int, child: PageId, ghost at: nat)
    requires page.Valid() && 0 < page.size < INTERNAL_MAX && Ascending(page.Contents())
    requires Routes(page.Contents(), key, at) && !HasSeparator(page.Contents(), key)
    modifies page`size, page.entries
    ensures page.Valid() && page.Contents() == InsertAt(old(page.Contents()), at + 1, InternalEntry(key, child))
  {
    ghost var s := page.Contents();
    var status, i := page.Insert(key, child);
    RouteUnique(s, key, at, i);
  }

  lemma SplitWithKeyLeft(s: seq<LeafEntry>, h: nat, key: int, rid: RID, pos: nat)
    requires Sorted(s) && !HasKey(s, key) && 1 <= h < |s| && key < s[h].key && LowerBound(s[..h], key, pos)
    ensures LowerBound(s, key, pos)
    ensures InsertAt(s[..h], pos, LeafEntry(key, rid)) + s[h..] == InsertAt(s, pos, LeafEntry(key, rid))
  {
    assert LowerBound(s, key, pos) by {
      assert forall i :: h <= i < |s| ==> s[h].key <= s[i].key;
      assert forall i :: 0 <= i < h ==> s[..h][i] == s[i];
    }
  }

  lemma SplitWithKeyRight(s: seq<LeafEntry>, h: nat, key: int, rid: RID, pos: nat)
    requires Sorted(s) && !HasKey(s, key) && 1 <= h < |s| && key >= s[h].key && LowerBound(s[h..], key, pos)
    ensures LowerBound(s, key, h + pos) && pos > 0
    ensures s[..h] + InsertAt(s[h..], pos, LeafEntry(key, rid)) == InsertAt(s, h + pos, LeafEntry(key, rid))
  {
    var t := s[h..];
    assert forall i :: 0 <= i < |t| ==> t[i] == s[h + i];
    assert t[0] == s[h];
    assert forall i :: 0 <= i < h ==> s[i].key < s[h].key;
    forall i | h <= i < |s|
      ensures i < h + pos <==> s[i].key < key
    {
      assert t[i - h] == s[i];
    }
  }

  /** Halving a sorted leaf and inserting into the half that the key belongs to. */
  lemma SplitWithKey(s: seq<LeafEntry>, h: nat, key: int, rid: RID, pos: nat)
    requires Sorted(s) && !HasKey(s, key) && 1 <= h < |s|
    requires if key < s[h].key then LowerBound(s[..h], key, pos) else LowerBound(s[h..], key, pos)
    ensures var e := LeafEntry(key, rid);
      var left := if key < s[h].key then InsertAt(s[..h], pos, e) else s[..h];
      var right := if key < s[h].key then s[h..] else InsertAt(s[h..], pos, e);
      && right[0].key == s[h].key
      && Sorted(left + right)
      && (forall d :: d in left + right <==> d in s || d == e)
  {
    var e := LeafEntry(key, rid);
    if key < s[h].key {
      SplitWithKeyLeft(s, h, key, rid, pos);
      InsertSorted(s, key, rid, pos);
    } else {
      SplitWithKeyRight(s, h, key, rid, pos);
      InsertSorted(s, key, rid, h + pos);
    }
  }

  /** A root leaf is the whole tree: without its only entry the map is empty. */
  lemma LastEntryGone(pages: Pages, shape: Shape, root: PageId, model: map<int, RID>, gone: LeafEntry)
    requires WellFormed(pages, shape, root) && Represents(Stored(pages, shape), model)
    requires root in pages && pages[root].Leaf? && |pages[root].leafEntries| == 1
    requires gone in pages[root].leafEntries
    ensures model - {gone.key} == map[]
  {
    forall k | k in model
      ensures k == gone.key
    {
      var e := LeafEntry(k, model[k]);
      var q :| q in shape && q in pages && pages[q].Leaf? && e in pages[q].leafEntries;
      assert NodeOk(pages, shape, root, INVALID, INVALID, q);
      assert NodeOk(pages, shape, root, INVALID, INVALID, root);
    }
  }

  // ---- Page bodies, read and written back --------------------------------

  /** The last entry of leaf `x` becomes the first of leaf `y`. */
  method ShiftLastEntry(x: Node, y: Node) returns (x': Node, y': Node)
    requires x.Leaf? && y.Leaf? && 0 < |x.leafEntries| <= LEAF_MAX && |y.leafEntries| < LEAF_MAX
    ensures var n := |x.leafEntries| - 1;
      && x' == x.(leafEntries := x.leafEntries[..n])
      && y' == y.(leafEntries := [x.leafEntries[n]] + y.leafEntries)
  {
    var sibling := new LeafPage.Deserialize(x);
    var node := new LeafPage.Deserialize(y);
    sibling.MoveLastToFrontOf(node);
    return sibling.ToNode(), node.ToNode();
  }

  /** The first entry of leaf `y` becomes the last of leaf `x`. */
  method ShiftFirstEntry(x: Node, y: Node) returns (x': Node, y': Node)
    requires x.Leaf? && y.Leaf? && 0 < |y.leafEntries| <= LEAF_MAX && |x.leafEntries| < LEAF_MAX
    ensures x' == x.(leafEntries := x.leafEntries + [y.leafEntries[0]])
    ensures y' == y.(leafEntries := y.leafEntries[1..])
  {
    var node := new LeafPage.Deserialize(x);
    var sibling := new LeafPage.Deserialize(y);
    sibling.MoveFirstToEndOf(node);
    return node.ToNode(), sibling.ToNode();
  }

  /** The last child of `x` becomes the first of `y`, with `middle` above the old first one. */
  method ShiftLastChild(x: Node, y: Node, middle: int) returns (x': Node, y': Node, newMiddle: int)
    requires x.Internal? && y.Internal? && 0 < |x.entries| <= INTERNAL_MAX && 0 < |y.entries| < INTERNAL_MAX
    ensures x' == x.(entries := x.entries[..|x.entries| - 1])
    ensures newMiddle == x.entries[|x.entries| - 1].key
    ensures y' == y.(entries := [InternalEntry(y.entries[0].key, x.entries[|x.entries| - 1].child),
                                 InternalEntry(middle, y.entries[0].child)] + y.entries[1..])
  {
    var sibling := new InternalPage.Deserialize(x);
    var node := new InternalPage.Deserialize(y);
    newMiddle := sibling.MoveLastToFrontOf(node, middle);
    return sibling.ToNode(), node.ToNode(), newMiddle;
  }

  /** The first child of `y` becomes the last of `x`, below `middle`. */
  method ShiftFirstChild(x: Node, y: Node, middle: int) returns (x': Node, y': Node, newMiddle: int)
    requires x.Internal? && y.Internal? && 2 <= |y.entries| <= INTERNAL_MAX && |x.entries| < INTERNAL_MAX
    ensures x' == x.(entries := x.entries + [InternalEntry(middle, y.entries[0].child)])
    ensures y' == y.(entries := y.entries[1..])
    ensures newMiddle == y.entries[1].key
  {
    var node := new InternalPage.Deserialize(x);
    var sibling := new InternalPage.Deserialize(y);
    newMiddle := sibling.MoveFirstToEndOf(node, middle);
    return node.ToNode(), sibling.ToNode(), newMiddle;
  }

  method SetSeparator(x: Node, j: nat, key: int) returns (x': Node)
    requires x.Internal? && j < |x.entries| <= INTERNAL_MAX
    ensures x' == x.(entries := x.entries[j := x.entries[j].(key := key)])
  {
    var parent := new InternalPage.Deserialize(x);
    parent.SetKeyAt(j, key);
    return parent.ToNode();
  }

  /** All entries of leaf `y` go to the end of leaf `x`, which takes over its right neighbour. */
  method MergeLeafBodies(x: Node, y: Node) returns (x': Node, y': Node)
    requires x.Leaf? && y.Leaf? && |x.leafEntries| + |y.leafEntries| <= LEAF_MAX
    ensures x' == x.(leafEntries := x.leafEntries + y.leafEntries, next := y.next)
    ensures y' == y.(leafEntries := [])
  {
    var left := new LeafPage.Deserialize(x);
    var right := new LeafPage.Deserialize(y);
    right.MoveAllTo(left);
    left.next := right.next;
    return left.ToNode(), right.ToNode();
  }

  method MergeInternalBodies(x: Node, y: Node, middle: int) returns (x': Node, y': Node)
    requires x.Internal? && y.Internal? && 0 < |y.entries| && |x.entries| + |y.entries| <= INTERNAL_MAX
    ensures x' == x.(entries := Joined(x.entries, middle, y.entries))
    ensures y' == y.(entries := [])
  {
    var left := new InternalPage.Deserialize(x);
    var right := new InternalPage.Deserialize(y);
    right.MoveAllTo(left, middle);
    return left.ToNode(), right.ToNode();
  }

  /** Removes the separator at index `j`, which the search for its key finds. */
  method RemoveSeparator(x: Node, j: nat) returns (x': Node)
    requires x.Internal? && 1 <= j < |x.entries| <= INTERNAL_MAX && Ascending(x.entries)
    ensures x' == x.(entries := RemoveAt(x.entries, j))
  {
    var parent := new InternalPage.Deserialize(x);
    var status, at := parent.Remove(parent.entries[j].key);
    assert at == j;
    return parent.ToNode();
  }

  /** Leaf `p` is responsible for the key. */
  ghost predicate LeafFor(pages: Pages, shape: Shape, p: PageId, key: int) {
    p in shape && p in pages && pages[p].Leaf? && InRange(shape[p], key)
  }

  lemma OnlyLeafFor(pages: Pages, shape: Shape, root: PageId, p: PageId, key: int)
    requires WellFormed(pages, shape, root) && LeafFor(pages, shape, p, key)
    ensures forall q :: LeafFor(pages, shape, q, key) ==> q == p
  {
    forall q | LeafFor(pages, shape, q, key)
      ensures q == p
    {
      assert NodeOk(pages, shape, root, INVALID, INVALID, p) && NodeOk(pages, shape, root, INVALID, INVALID, q);
      UniqueOwner(pages, shape, root, INVALID, INVALID, key, p, q);
    }
  }

  class BPlusTree {
    var pages: Pages
    var root: PageId
    var nextId: nat
    ghost var shape: Shape
    ghost var model: map<int, RID>

    /** Page identifiers are handed out in ascending order. */
    ghost predicate Allocated()
      reads this
    {
      && (forall p :: p in pages ==> 0 <= p < nextId)
      && shape.Keys <= pages.Keys
    }

    ghost predicate Valid()
      reads this
    {
      && Allocated()
      && if root == INVALID then shape == map[] && model == map[]
         else WellFormed(pages, shape, root) && Represents(Stored(pages, shape), model)
    }

    constructor Create(pages: Pages, nextId: nat)
      requires forall p :: p in pages ==> 0 <= p < nextId
      ensures Valid() && model == map[]
    {
      this.pages, this.nextId, root := pages, nextId, INVALID;
      shape, model := map[], map[];
    }

    /** The descent shared by lookup, insertion, removal and iteration. */
    method FindLeaf(key: int) returns (p: PageId)
      requires Allocated() && WellFormed(pages, shape, root)
      ensures p in shape && p in pages && pages[p].Leaf?
      ensures InRange(shape[p], key) && shape[p].level == 0
    {
      p := root;
      assert NodeOk(pages, shape, root, INVALID, INVALID, root);
      while pages[p].Internal?
        invariant p in shape && p in pages && InRange(shape[p], key)
        decreases shape[p].level
      {
        assert NodeOk(pages, shape, root, INVALID, INVALID, p);
        var internal := new InternalPage.Deserialize(pages[p]);
        ghost var s := pages[p].entries;
        var c, at := internal.Lookup(key);
        assert ChildOk(pages, shape, p, s, at);
        RoutedChild(shape[p], s, at, key);
        p := c;
      }
      assert NodeOk(pages, shape, root, INVALID, INVALID, p);
    }

    method GetValue(key: int) returns (r: Option<RID>)
      requires Valid()
      ensures r == if key in model then Some(model[key]) else None
    {
      if root == INVALID {
        return None;
      }
      var p := FindLeaf(key);
      assert NodeOk(pages, shape, root, INVALID, INVALID, p);
      var leaf := new LeafPage.Deserialize(pages[p]);
      r := leaf.Lookup(key);
      if r.Some? {
        assert LeafEntry(key, r.value) in Stored(pages, shape);
      } else if key in model {
        KeyInItsLeaf(pages, shape, root, p, LeafEntry(key, model[key]));
        assert false;
      }
    }

    /** Makes `page` the parent of its children from index `first` on. */
    method AdoptChildren(page: InternalPage, first: nat)
      requires page.Valid() && first <= page.size
      requires forall i :: first <= i < page.size ==> page.entries[i].child in pages
      modifies this`pages
      ensures pages == Reparent(old(pages), ChildSet(page.Contents()[first..]), page.id)
    {
      var i := first;
      ghost var was := pages;
      ghost var s := page.Contents();
      assert ChildSet(s[first..first]) == {};
      assert pages == Reparent(was, {}, page.id);
      while i < page.size
        invariant first <= i <= page.size
        invariant pages == Reparent(was, ChildSet(s[first..i]), page.id)
      {
        var c := page.entries[i].child;
        assert s[first..i + 1] == s[first..i] + [s[i]];
        assert ChildSet(s[first..i + 1]) == ChildSet(s[first..i]) + {c} by {
          ChildSetOfInsert(s[first..i], i - first, s[i]);
          assert InsertAt(s[first..i], i - first, s[i]) == s[first..i + 1];
        }
        pages := pages[c := pages[c].(parent := page.id)];
        i := i + 1;
      }
      assert s[first..page.size] == s[first..];
    }

    /** A new root above the two halves of the old one. */
    method GrowRoot(oldId: PageId, key: int, newId: PageId)
      requires Allocated() && root != INVALID
      requires Pending(pages, shape, root, oldId, key, newId, nextId, 0) && pages[oldId].parent == INVALID
      modifies this`pages, this`root, this`nextId, this`shape
      ensures Allocated() && root != INVALID && WellFormed(pages, shape, root)
      ensures Stored(pages, shape) == old(Stored(pages, shape))
    {
      RootGrown(pages, shape, root, oldId, key, newId, nextId, 0);
      root := WriteRoot(oldId, key, newId);
      shape := shape[root := Info(shape[oldId].level + 1, None, None)];
    }

    /** Writes a new root page above two pages. */
    method WriteRoot(oldId: PageId, key: int, newId: PageId) returns (r: PageId)
      requires Allocated() && oldId in pages && newId in pages && oldId != newId
      modifies this`pages, this`nextId
      ensures r == old(nextId) && nextId == r + 1
      ensures pages == old(pages)[r := Internal(r, INVALID, [InternalEntry(0, oldId), InternalEntry(key, newId)])]
                                 [oldId := old(pages)[oldId].(parent := r)][newId := old(pages)[newId].(parent := r)]
    {
      r := nextId;
      nextId := nextId + 1;
      var newRoot := new InternalPage.Init(r, INVALID);
      newRoot.PopulateNewRoot(oldId, key, newId);
      pages := pages[r := newRoot.ToNode()];
      pages := pages[oldId := pages[oldId].(parent := r)];
      pages := pages[newId := pages[newId].(parent := r)];
    }

    /** Halves the full page `parentId` and puts the pending entry in the right half of the two. */
    method HalveParent(parentId: PageId, key: int, newId: PageId, ghost at: nat)
      returns (median: int, n: PageId, ghost m: nat)
      requires Allocated() && parentId in pages && newId in pages && parentId != newId
      requires pages[parentId].Internal? && at < |pages[parentId].entries| == INTERNAL_MAX
      requires Ascending(InsertAt(pages[parentId].entries, at + 1, InternalEntry(key, newId)))
      requires forall i :: 0 <= i < |pages[parentId].entries| ==> pages[parentId].entries[i].child in pages
      modifies this`pages, this`nextId
      ensures n == old(nextId) && nextId == n + 1 && INTERNAL_MIN <= m <= INTERNAL_MIN + 1
      ensures median == WithEntry(old(pages), parentId, at, key, newId)[parentId].entries[m].key
      ensures pages == SplitInternalPages(WithEntry(old(pages), parentId, at, key, newId), parentId, n, m)
    {
      ghost var was, s := pages, pages[parentId].entries;
      var parent := new InternalPage.Deserialize(pages[parentId]);
      n := nextId;
      nextId := nextId + 1;
      var newInternal := new InternalPage.Init(n, parent.parent);
      median := parent.MoveHalfTo(newInternal);
      AdoptChildren(newInternal, 0);
      assert s[|s| / 2..] == newInternal.Contents()[0..];
      if key < median {
        PlaceLeft(was, parentId, parent, newInternal, key, newId, at);
        m := |s| / 2 + 1;
      } else {
        PlaceRight(was, parentId, parent, newInternal, key, newId, at);
        m := |s| / 2;
      }
    }

    /** The two halves of page `p` of `was`, whose upper children are adopted already. */
    ghost predicate Halved(was: Pages, p: PageId, parent: InternalPage, half: InternalPage, key: int, child: PageId, at: nat)
      reads this, parent, parent.entries, half, half.entries
    {
      && p in was && was[p].Internal? && half.id !in was && child in was && child != p
      && at < |was[p].entries| == INTERNAL_MAX
      && Ascending(InsertAt(was[p].entries, at + 1, InternalEntry(key, child)))
      && parent.Valid() && half.Valid() && parent != half && parent.entries != half.entries
      && parent.ToNode() == was[p].(entries := was[p].entries[..INTERNAL_MIN])
      && half.ToNode() == Internal(half.id, was[p].parent, was[p].entries[INTERNAL_MIN..])
      && pages == Reparent(was, ChildSet(was[p].entries[INTERNAL_MIN..]), half.id)
    }

    /** The pending entry goes into the lower half, and both halves are written. */
    method PlaceLeft(ghost was: Pages, p: PageId, parent: InternalPage, half: InternalPage, key: int, child: PageId, ghost at: nat)
      requires Halved(was, p, parent, half, key, child, at) && key < was[p].entries[INTERNAL_MIN].key
      modifies this`pages, parent`size, parent.entries
      ensures pages == SplitInternalPages(WithEntry(was, p, at, key, child), p, half.id, INTERNAL_MIN + 1)
      ensures was[p].entries[INTERNAL_MIN] == WithEntry(was, p, at, key, child)[p].entries[INTERNAL_MIN + 1]
    {
      SplitWritesLeft(was, p, half.id, at, key, child, INTERNAL_MIN);
      InsertPending(parent, key, child, at);
      pages := pages[p := parent.ToNode()];
      pages := pages[half.id := half.ToNode()];
    }

    /** The pending entry goes into the upper half, and both halves are written. */
    method PlaceRight(ghost was: Pages, p: PageId, parent: InternalPage, half: InternalPage, key: int, child: PageId, ghost at: nat)
      requires Halved(was, p, parent, half, key, child, at) && was[p].entries[INTERNAL_MIN].key <= key
      modifies this`pages, half`size, half.entries
      ensures pages == SplitInternalPages(WithEntry(was, p, at, key, child), p, half.id, INTERNAL_MIN)
      ensures was[p].entries[INTERNAL_MIN] == WithEntry(was, p, at, key, child)[p].entries[INTERNAL_MIN]
    {
      SplitWritesRight(was, p, half.id, at, key, child, INTERNAL_MIN);
      InsertPending(half, key, child, at - INTERNAL_MIN);
      pages := pages[child := pages[child].(parent := half.id)];
      pages := pages[p := parent.ToNode()];
      pages := pages[half.id := half.ToNode()];
    }

    /** Splits the full page `parentId` around its pending entry. */
    method SplitParent(parentId: PageId, ghost oldId: PageId, key: int, newId: PageId, ghost at: nat)
      returns (median: int, n: PageId, ghost upper: nat)
      requires Allocated() && Pending(pages, shape, root, oldId, key, newId, nextId, at)
      requires parentId == pages[oldId].parent != INVALID && |pages[parentId].entries| == INTERNAL_MAX
      modifies this`pages, this`nextId, this`shape
      ensures Allocated() && Pending(pages, shape, root, parentId, median, n, nextId, upper)
      ensures Stored(pages, shape) == old(Stored(pages, shape))
      ensures shape[root].level == old(shape[root].level) && shape[parentId].level == old(shape[parentId].level)
    {
      ghost var was := pages;
      ghost var virtual := WithEntry(pages, parentId, at, key, newId);
      assert NodeOk(virtual, shape, root, parentId, INVALID, parentId);
      PendingChildren(was, shape, root, parentId, at, key, newId);
      ghost var m;
      median, n, m := HalveParent(parentId, key, newId, at);
      WithEntryStores(was, shape, parentId, at, key, newId);
      SplitInternalStores(virtual, shape, parentId, n, m, median);
      upper := SplitInternal(virtual, shape, root, parentId, n, m, nextId);
      shape := SplitShape(shape, parentId, n, median);
    }

    /** Files the separator of a split in the parent, splitting upwards as needed. */
    method InsertIntoParent(oldId: PageId, key: int, newId: PageId, ghost at: nat) returns (status: Status)
      requires Allocated() && root != INVALID && Pending(pages, shape, root, oldId, key, newId, nextId, at)
      modifies this`pages, this`root, this`nextId, this`shape
      ensures status == Ok
      ensures Allocated() && root != INVALID && WellFormed(pages, shape, root)
      ensures Stored(pages, shape) == old(Stored(pages, shape))
      decreases shape[root].level - shape[oldId].level
    {
      var parentId := pages[oldId].parent;
      if parentId == INVALID {
        GrowRoot(oldId, key, newId);
        return Ok;
      }
      var parent := new InternalPage.Deserialize(pages[parentId]);
      if parent.size < INTERNAL_MAX {
        ghost var virtual := WithEntry(pages, parentId, at, key, newId);
        assert NodeOk(virtual, shape, root, parentId, INVALID, parentId);
        PendingPlace(pages[parentId].entries, at, key, newId);
        var inserted, i := parent.Insert(key, newId);
        RouteUnique(pages[parentId].entries, key, at, i);
        WithEntryStores(pages, shape, parentId, at, key, newId);
        pages := pages[parentId := parent.ToNode()];
        assert pages == virtual;
        NotOverfull(pages, shape, root, parentId);
        return Ok;
      }
      var median, n, upper := SplitParent(parentId, oldId, key, newId, at);
      status := InsertIntoParent(parentId, median, n, upper);
    }

    /** The first entry of an empty tree makes a root leaf. */
    method InsertFirst(key: int, rid: RID) returns (status: Status)
      requires Valid() && root == INVALID
      modifies this
      ensures Valid() && status == Ok && model == map[key := rid]
    {
      var p := nextId;
      nextId := nextId + 1;
      var leaf := new LeafPage.Init(p, INVALID);
      ghost var pos;
      status, pos := leaf.Insert(key, rid);
      pages := pages[p := leaf.ToNode()];
      root := p;
      shape, model := map[p := Info(0, None, None)], map[key := rid];
      assert pages[p].leafEntries == [LeafEntry(key, rid)];
      assert NodeOk(pages, shape, root, INVALID, INVALID, p);
      assert p in shape && p in pages && LeafEntry(key, rid) in pages[p].leafEntries;
    }

    /** Moves the upper half of a full leaf to `sibling` and inserts the new pair. */
    static method HalveEntries(leaf: LeafPage, sibling: LeafPage, key: int, rid: RID)
      requires leaf.Valid() && sibling.Valid() && leaf != sibling && leaf.entries != sibling.entries
      requires leaf.size == LEAF_MAX && Sorted(leaf.Contents()) && !HasKey(leaf.Contents(), key)
      modifies leaf`size, leaf.entries, sibling`size, sibling.entries
      ensures leaf.Valid() && sibling.Valid()
      ensures LEAF_MIN <= leaf.size && LEAF_MIN <= sibling.size
      ensures Sorted(leaf.Contents() + sibling.Contents())
      ensures forall e :: e in leaf.Contents() + sibling.Contents() <==>
                          e in old(leaf.Contents()) || e == LeafEntry(key, rid)
    {
      ghost var s := leaf.Contents();
      leaf.MoveHalfTo(sibling);
      ghost var pos, status;
      SortedConcat(s[..|s| / 2], s[|s| / 2..]);
      assert s[..|s| / 2] + s[|s| / 2..] == s;
      if key < sibling.entries[0].key {
        status, pos := leaf.Insert(key, rid);
      } else {
        status, pos := sibling.Insert(key, rid);
      }
      SplitWithKey(s, |s| / 2, key, rid, pos);
    }

    /** Halves the full leaf `p`, links the new half into the chain, and stores the
        new pair in the half it belongs to. */
    method HalveLeaf(p: PageId, leaf: LeafPage, key: int, rid: RID)
      returns (sep: int, n: PageId, ghost left: seq<LeafEntry>, ghost right: seq<LeafEntry>)
      requires Allocated() && p in pages && pages[p].Leaf? && Sorted(pages[p].leafEntries)
      requires var next := pages[p].next;
        next != INVALID ==> next in pages && pages[next].Leaf? && next != p
      requires pages[p].id == p
      requires leaf.Valid() && leaf.ToNode() == pages[p] && leaf.size == LEAF_MAX && !HasKey(leaf.Contents(), key)
      modifies this`pages, this`nextId, leaf, leaf.entries
      ensures n == old(nextId) && nextId == n + 1
      ensures LEAF_MIN <= |left| <= LEAF_MAX && LEAF_MIN <= |right| <= LEAF_MAX && sep == right[0].key
      ensures Sorted(left + right)
      ensures forall e :: e in left + right <==> e in old(pages)[p].leafEntries || e == LeafEntry(key, rid)
      ensures pages == SplitLeafPages(old(pages), p, n, left, right)
    {
      n := nextId;
      nextId := nextId + 1;
      var sibling := new LeafPage.Init(n, leaf.parent);
      HalveEntries(leaf, sibling, key, rid);
      left, right := leaf.Contents(), sibling.Contents();
      sibling.next := leaf.next;
      sibling.prev := p;
      leaf.next := n;
      if sibling.next != INVALID {
        pages := pages[sibling.next := pages[sibling.next].(prev := n)];
      }
      sep := sibling.entries[0].key;
      pages := pages[p := leaf.ToNode()];
      pages := pages[n := sibling.ToNode()];
    }

    method InsertWithSplit(p: PageId, leaf: LeafPage, key: int, rid: RID) returns (status: Status)
      requires Allocated() && root != INVALID && WellFormed(pages, shape, root)
      requires p in shape && p in pages && pages[p].Leaf? && InRange(shape[p], key)
      requires leaf.Valid() && leaf.ToNode() == pages[p] && leaf.size == LEAF_MAX && !HasKey(leaf.Contents(), key)
      modifies this`pages, this`root, this`nextId, this`shape, leaf, leaf.entries
      ensures status == Ok
      ensures Allocated() && root != INVALID && WellFormed(pages, shape, root)
      ensures Stored(pages, shape) == old(Stored(pages, shape)) + {LeafEntry(key, rid)}
    {
      ghost var was := pages;
      assert NodeOk(pages, shape, root, INVALID, INVALID, p);
      SplitLeafNext(pages, shape, root, p);
      var sep, n, left, right := HalveLeaf(p, leaf, key, rid);
      ghost var at := SplitLeafWithKey(was, shape, root, p, n, left, right, LeafEntry(key, rid), nextId);
      shape := SplitShape(shape, p, n, sep);
      status := InsertIntoParent(p, sep, n, at);
    }

    method InsertInPlace(p: PageId, leaf: LeafPage, key: int, rid: RID) returns (status: Status)
      requires Allocated() && WellFormed(pages, shape, root)
      requires p in shape && p in pages && pages[p].Leaf? && InRange(shape[p], key)
      requires leaf.Valid() && leaf.ToNode() == pages[p] && leaf.size < LEAF_MAX && !HasKey(leaf.Contents(), key)
      modifies this`pages, leaf, leaf.entries
      ensures status == Ok
      ensures Allocated() && WellFormed(pages, shape, root)
      ensures p in pages && pages == old(pages)[p := pages[p]]
      ensures Stored(pages, shape) == old(Stored(pages, shape)) + {LeafEntry(key, rid)}
    {
      ghost var s := pages[p].leafEntries;
      assert NodeOk(pages, shape, root, INVALID, INVALID, p);
      ghost var pos;
      status, pos := leaf.Insert(key, rid);
      InsertSorted(s, key, rid, pos);
      ReplaceLeaf(pages, shape, root, p, leaf.Contents(), INVALID);
      ReplacedLeafStores(pages, shape, root, p, leaf.Contents());
      assert Stored(pages, shape) >= set e | e in s;
      pages := pages[p := leaf.ToNode()];
    }

    /** Adds a pair, or reports that the key is there.  Pages split only if the leaf that the
        pair belongs to is full. */
    method Insert(key: int, rid: RID) returns (status: Status)
      requires Valid()
      modifies this
      ensures Valid()
      ensures status == (if key in old(model) then AlreadyExists else Ok)
      ensures model == (if key in old(model) then old(model) else old(model)[key := rid])
      ensures forall p :: LeafFor(old(pages), old(shape), p, key) && |old(pages)[p].leafEntries| < LEAF_MAX ==>
        && nextId == old(nextId) && root == old(root) && shape == old(shape)
        && p in pages && pages == old(pages)[p := pages[p]]
      ensures status != Ok ==> pages == old(pages) && root == old(root) && nextId == old(nextId)
    {
      if root == INVALID {
        status := InsertFirst(key, rid);
        return;
      }
      var p := FindLeaf(key);
      OnlyLeafFor(pages, shape, root, p, key);
      assert NodeOk(pages, shape, root, INVALID, INVALID, p);
      var leaf := new LeafPage.Deserialize(pages[p]);
      var found := leaf.Lookup(key);
      if found.Some? {
        assert LeafEntry(key, found.value) in Stored(pages, shape);
        assert pages[p := pages[p]] == pages;
        return AlreadyExists;
      }
      if key in model {
        KeyInItsLeaf(pages, shape, root, p, LeafEntry(key, model[key]));
        assert false;
      }
      status := StoreIn(p, leaf, key, rid);
      model := model[key := rid];
    }

    /** Stores a new pair in its leaf, which splits if it is full. */
    method StoreIn(p: PageId, leaf: LeafPage, key: int, rid: RID) returns (status: Status)
      requires Allocated() && root != INVALID && WellFormed(pages, shape, root) && LeafFor(pages, shape, p, key)
      requires leaf.Valid() && leaf.ToNode() == pages[p] && !HasKey(leaf.Contents(), key)
      modifies this`pages, this`root, this`nextId, this`shape, leaf, leaf.entries
      ensures status == Ok
      ensures Allocated() && root != INVALID && WellFormed(pages, shape, root)
      ensures Stored(pages, shape) == old(Stored(pages, shape)) + {LeafEntry(key, rid)}
      ensures |old(pages)[p].leafEntries| < LEAF_MAX ==>
        && nextId == old(nextId) && root == old(root) && shape == old(shape)
        && p in pages && pages == old(pages)[p := pages[p]]
    {
      if leaf.size >= LEAF_MAX {
        status := InsertWithSplit(p, leaf, key, rid);
      } else {
        assert NodeOk(pages, shape, root, INVALID, INVALID, root);
        status := InsertInPlace(p, leaf, key, rid);
      }
    }

    // ---- Underflow ---------------------------------------------------------

    /** The state between a removal and its repair: `under` is the page to refill. */
    ghost predicate Refilling(under: PageId)
      reads this
    {
      Allocated() && root != INVALID && Repairing(pages, shape, root, INVALID, under)
    }

    ghost predicate Repaired()
      reads this
    {
      Allocated() && root != INVALID && WellFormed(pages, shape, root)
    }

    /** Two pages and the page above them, as the repair finds them on disk. */
    ghost predicate Neighbours(p: PageId, j: nat, a: PageId, b: PageId)
      reads this
    {
      && p in pages && a in pages && b in pages && p != a && p != b && a != b
      && pages[a].id == a && pages[b].id == b
      && pages[p].Internal? && 1 <= j < |pages[p].entries| <= INTERNAL_MAX
      && SizeOf(pages[a]) <= MaxOf(pages[a]) && SizeOf(pages[b]) <= MaxOf(pages[b])
    }

    /** Leaf `b` takes the last entry of its left sibling `a`. */
    method BorrowLeafFromLeft(p: PageId, j: nat, a: PageId, b: PageId)
      returns (ghost left: seq<LeafEntry>, ghost right: seq<LeafEntry>)
      requires Neighbours(p, j, a, b) && pages[a].Leaf? && pages[b].Leaf?
      requires 0 < |pages[a].leafEntries| && |pages[b].leafEntries| < LEAF_MAX
      modifies this`pages
      ensures left + right == old(pages)[a].leafEntries + old(pages)[b].leafEntries
      ensures |left| == |old(pages)[a].leafEntries| - 1 && 0 < |right|
      ensures pages == RebalancedLeaves(old(pages), p, j, a, b, left, right)
    {
      var sibling, node := ShiftLastEntry(pages[a], pages[b]);
      var parent := SetSeparator(pages[p], j, node.leafEntries[0].key);
      left, right := sibling.leafEntries, node.leafEntries;
      pages := pages[b := node][a := sibling][p := parent];
    }

    /** Leaf `a` takes the first entry of its right sibling `b`. */
    method BorrowLeafFromRight(p: PageId, j: nat, a: PageId, b: PageId)
      returns (ghost left: seq<LeafEntry>, ghost right: seq<LeafEntry>)
      requires Neighbours(p, j, a, b) && pages[a].Leaf? && pages[b].Leaf?
      requires 1 < |pages[b].leafEntries| && |pages[a].leafEntries| < LEAF_MAX
      modifies this`pages
      ensures left + right == old(pages)[a].leafEntries + old(pages)[b].leafEntries
      ensures |left| == |old(pages)[a].leafEntries| + 1 && 0 < |right|
      ensures pages == RebalancedLeaves(old(pages), p, j, a, b, left, right)
    {
      var node, sibling := ShiftFirstEntry(pages[a], pages[b]);
      var parent := SetSeparator(pages[p], j, sibling.leafEntries[0].key);
      left, right := node.leafEntries, sibling.leafEntries;
      pages := pages[a := node][b := sibling][p := parent];
    }

    /** Internal page `b` takes the last child of its left sibling `a`. */
    method BorrowChildFromLeft(p: PageId, j: nat, a: PageId, b: PageId)
      returns (ghost left: seq<InternalEntry>, middle: int, ghost right: seq<InternalEntry>, moved: PageId)
      requires Neighbours(p, j, a, b) && pages[a].Internal? && pages[b].Internal?
      requires 1 < |pages[a].entries| && 0 < |pages[b].entries| < INTERNAL_MAX
      requires var c := pages[a].entries[|pages[a].entries| - 1].child; c in pages && c !in {p, a, b}
      modifies this`pages
      ensures moved in old(pages) && moved !in {p, a, b}
      ensures OneMoved(old(pages), p, j, a, b, left, middle, right, moved, b)
      ensures pages == RebalancedInternals(old(pages), p, j, a, b, left, middle, right, moved, b)
    {
      var sibling, node;
      sibling, node, middle := ShiftLastChild(pages[a], pages[b], pages[p].entries[j].key);
      var parent := SetSeparator(pages[p], j, middle);
      moved := node.entries[0].child;
      left, right := sibling.entries, node.entries;
      assert Joined(left, middle, right) == JoinedEntries(pages, p, j, a, b);
      pages := pages[moved := pages[moved].(parent := b)];
      pages := pages[b := node][a := sibling][p := parent];
    }

    /** Internal page `a` takes the first child of its right sibling `b`. */
    method BorrowChildFromRight(p: PageId, j: nat, a: PageId, b: PageId)
      returns (ghost left: seq<InternalEntry>, middle: int, ghost right: seq<InternalEntry>, moved: PageId)
      requires Neighbours(p, j, a, b) && pages[a].Internal? && pages[b].Internal?
      requires 1 < |pages[b].entries| && 0 < |pages[a].entries| < INTERNAL_MAX
      requires var c := pages[b].entries[0].child; c in pages && c !in {p, a, b}
      modifies this`pages
      ensures moved in old(pages) && moved !in {p, a, b}
      ensures OneMoved(old(pages), p, j, a, b, left, middle, right, moved, a)
      ensures pages == RebalancedInternals(old(pages), p, j, a, b, left, middle, right, moved, a)
    {
      var node, sibling;
      node, sibling, middle := ShiftFirstChild(pages[a], pages[b], pages[p].entries[j].key);
      var parent := SetSeparator(pages[p], j, middle);
      moved := node.entries[|node.entries| - 1].child;
      left, right := node.entries, sibling.entries;
      assert Joined(left, middle, right) == JoinedEntries(pages, p, j, a, b);
      pages := pages[moved := pages[moved].(parent := a)];
      pages := pages[a := node][b := sibling][p := parent];
    }

    /** Page `b` is refilled from its left sibling `a`. */
    method RefillFromLeft(p: PageId, j: nat, a: PageId, b: PageId)
      requires Refilling(b) && Siblings(pages, shape, root, b, p, j, a, b) && a in pages && b in pages
      requires SizeOf(pages[a]) > MinOf(pages[a]) && SizeOf(pages[b]) < MinOf(pages[b])
      modifies this`pages, this`shape
      ensures Repaired() && Stored(pages, shape) == old(Stored(pages, shape))
    {
      ghost var was := pages;
      SiblingFacts(pages, shape, root, b, p, j, a, b);
      if pages[b].Leaf? {
        var left, right := BorrowLeafFromLeft(p, j, a, b);
        RebalanceLeaves(was, shape, root, b, p, j, a, b, left, right);
        RebalancedLeavesStore(was, shape, root, b, p, j, a, b, left, right);
        shape := RebalancedShape(shape, a, b, right[0].key);
      } else {
        JoinedChild(was, shape, root, b, p, j, a, b, |was[a].entries| - 1);
        var left, middle, right, moved := BorrowChildFromLeft(p, j, a, b);
        RebalanceInternals(was, shape, root, b, p, j, a, b, left, middle, right, moved, b);
        RebalancedInternalsStore(was, shape, p, j, a, b, left, middle, right, moved, b);
        shape := RebalancedShape(shape, a, b, middle);
      }
    }

    /** Page `a` is refilled from its right sibling `b`. */
    method RefillFromRight(p: PageId, j: nat, a: PageId, b: PageId)
      requires Refilling(a) && Siblings(pages, shape, root, a, p, j, a, b) && a in pages && b in pages
      requires SizeOf(pages[b]) > MinOf(pages[b]) && SizeOf(pages[a]) < MinOf(pages[a])
      modifies this`pages, this`shape
      ensures Repaired() && Stored(pages, shape) == old(Stored(pages, shape))
    {
      ghost var was := pages;
      SiblingFacts(pages, shape, root, a, p, j, a, b);
      if pages[a].Leaf? {
        var left, right := BorrowLeafFromRight(p, j, a, b);
        RebalanceLeaves(was, shape, root, a, p, j, a, b, left, right);
        RebalancedLeavesStore(was, shape, root, a, p, j, a, b, left, right);
        shape := RebalancedShape(shape, a, b, right[0].key);
      } else {
        JoinedChild(was, shape, root, a, p, j, a, b, |was[a].entries|);
        var left, middle, right, moved := BorrowChildFromRight(p, j, a, b);
        RebalanceInternals(was, shape, root, a, p, j, a, b, left, middle, right, moved, a);
        RebalancedInternalsStore(was, shape, p, j, a, b, left, middle, right, moved, a);
        shape := RebalancedShape(shape, a, b, middle);
      }
    }

    /** Merges page `b` into its left sibling `a` and drops their separator. */
    method MergeSiblings(p: PageId, j: nat, a: PageId, b: PageId, ghost under: PageId)
      requires Refilling(under) && Siblings(pages, shape, root, under, p, j, a, b) && a in pages && b in pages
      requires pages[b].Leaf? ==> pages[a].Leaf? && LEAF_MIN <= SizeOf(pages[a]) + SizeOf(pages[b]) <= LEAF_MAX
      requires pages[b].Internal? ==>
        pages[a].Internal? && INTERNAL_MIN <= SizeOf(pages[a]) + SizeOf(pages[b]) <= INTERNAL_MAX
      modifies this`pages, this`shape
      ensures Refilling(p) && p in shape && p in pages && pages[p].Internal?
      ensures Stored(pages, shape) == old(Stored(pages, shape))
      ensures shape[root].level == old(shape[root].level) && shape[p].level == old(shape[p].level)
    {
      ghost var was := pages;
      SiblingFacts(pages, shape, root, under, p, j, a, b);
      var parent := RemoveSeparator(pages[p], j);
      if pages[b].Leaf? {
        MergeLeaves(was, shape, root, under, p, j, a, b);
        MergedLeavesStore(was, shape, root, under, p, j, a, b);
        NextOfSibling(was, shape, root, under, p, j, a, b);
        MergeLeafPages(p, j, a, b, parent);
      } else {
        MergeInternals(was, shape, root, under, p, j, a, b);
        MergedInternalsStore(was, shape, p, j, a, b);
        forall i | 0 <= i < |was[b].entries|
          ensures was[b].entries[i].child in was
        {
          assert ChildOk(was, shape, b, was[b].entries, i);
        }
        MergeInternalPages(p, j, a, b, parent);
      }
      shape := MergedShape(shape, a, b);
    }

    /** The page writes of a leaf merge. */
    method MergeLeafPages(p: PageId, j: nat, a: PageId, b: PageId, parent: Node)
      requires Neighbours(p, j, a, b) && pages[a].Leaf? && pages[b].Leaf?
      requires |pages[a].leafEntries| + |pages[b].leafEntries| <= LEAF_MAX
      requires pages[b].next != INVALID ==>
        pages[b].next in pages && pages[pages[b].next].Leaf? && pages[b].next !in {a, b, p}
      requires parent == pages[p].(entries := RemoveAt(pages[p].entries, j))
      modifies this`pages
      ensures pages == MergedLeafPages(old(pages), p, j, a, b)
    {
      var left, right := MergeLeafBodies(pages[a], pages[b]);
      if left.next != INVALID {
        pages := pages[left.next := pages[left.next].(prev := left.id)];
      }
      pages := pages[a := left][b := right][p := parent];
    }

    /** The page writes of an internal merge. */
    method MergeInternalPages(p: PageId, j: nat, a: PageId, b: PageId, parent: Node)
      requires Neighbours(p, j, a, b) && pages[a].Internal? && pages[b].Internal?
      requires 0 < |pages[b].entries| && |pages[a].entries| + |pages[b].entries| <= INTERNAL_MAX
      requires forall i :: 0 <= i < |pages[b].entries| ==> pages[b].entries[i].child in pages
      requires parent == pages[p].(entries := RemoveAt(pages[p].entries, j))
      modifies this`pages
      ensures pages == MergedInternalPages(old(pages), p, j, a, b)
    {
      var left, right := MergeInternalBodies(pages[a], pages[b], pages[p].entries[j].key);
      var moved := |pages[b].entries|;
      var page := new InternalPage.Deserialize(left);
      forall i | page.size - moved <= i < page.size
        ensures page.entries[i].child in pages
      {
        assert page.entries[i] == page.ToNode().entries[i] == left.entries[i];
        assert left.entries[i].child == pages[b].entries[i - (page.size - moved)].child;
      }
      AdoptChildren(page, page.size - moved);
      pages := pages[a := left][b := right][p := parent];
    }

    /** A root left with one child gives way to that child. */
    method ReplaceRoot() returns (status: Status)
      requires Refilling(root)
      modifies this`pages, this`root, this`shape
      ensures status == Ok && Repaired() && Stored(pages, shape) == old(Stored(pages, shape))
    {
      assert NodeOk(pages, shape, root, INVALID, root, root);
      if pages[root].Internal? && |pages[root].entries| == 1 {
        ShrinkRoot(pages, shape, root);
        var c := pages[root].entries[0].child;
        ShrunkRootStores(pages, shape, root, c);
        assert c != INVALID by {
          assert ChildOk(pages, shape, root, pages[root].entries, 0);
          assert NodeOk(pages, shape, root, INVALID, root, c);
        }
        pages := pages[c := pages[c].(parent := INVALID)];
        shape := shape - {root};
        root := c;
      } else {
        NotUnderfull(pages, shape, root, root);
      }
      status := Ok;
    }

    /** Refills page `pageId` from a sibling, or merges it and repairs the parent. */
    method HandleUnderflow(pageId: PageId) returns (status: Status)
      requires Refilling(pageId) && pageId in shape
      requires pageId != root ==> pageId in pages && SizeOf(pages[pageId]) < MinOf(pages[pageId])
      modifies this`pages, this`root, this`shape
      ensures status == Ok && Repaired() && Stored(pages, shape) == old(Stored(pages, shape))
      decreases shape[root].level - shape[pageId].level, 1
    {
      if pageId == root {
        status := ReplaceRoot();
        return;
      }
      ghost var at := SlotOf(pages, shape, root, INVALID, pageId, pageId);
      var parentId := pages[pageId].parent;
      assert NodeOk(pages, shape, root, INVALID, pageId, parentId);
      var parent := new InternalPage.Deserialize(pages[parentId]);
      assert parent.Contents()[at].child == pageId;
      var idx := parent.FindChildIndex(pageId);
      if idx == -1 {
        return Corruption;
      }
      assert parent.Contents()[idx].child == pageId;
      status := Refill(pageId, parentId, idx);
    }

    /** Borrows for child `idx` of the parent, or merges it with a sibling. */
    method Refill(pageId: PageId, parentId: PageId, idx: nat) returns (status: Status)
      requires Refilling(pageId) && pageId in shape && pageId in pages && SizeOf(pages[pageId]) < MinOf(pages[pageId])
      requires pageId != root && parentId in shape && parentId in pages && pages[parentId].Internal?
      requires idx < |pages[parentId].entries| && pages[parentId].entries[idx].child == pageId
      modifies this`pages, this`root, this`shape
      ensures status == Ok && Repaired() && Stored(pages, shape) == old(Stored(pages, shape))
      decreases shape[root].level - shape[pageId].level, 0
    {
      var entries := pages[parentId].entries;
      assert NodeOk(pages, shape, root, INVALID, pageId, parentId);
      assert NodeOk(pages, shape, root, INVALID, pageId, pageId);
      assert ChildOk(pages, shape, parentId, entries, idx);
      var leftId := if idx > 0 then entries[idx - 1].child else INVALID;
      var rightId := if idx < |entries| - 1 then entries[idx + 1].child else INVALID;
      if idx > 0 {
        SiblingFacts(pages, shape, root, pageId, parentId, idx, leftId, pageId);
      }
      if idx < |entries| - 1 {
        SiblingFacts(pages, shape, root, pageId, parentId, idx + 1, pageId, rightId);
      }
      if leftId != INVALID && SizeOf(pages[leftId]) > MinOf(pages[leftId]) {
        RefillFromLeft(parentId, idx, leftId, pageId);
        return Ok;
      }
      if rightId != INVALID && SizeOf(pages[rightId]) > MinOf(pages[rightId]) {
        RefillFromRight(parentId, idx + 1, pageId, rightId);
        return Ok;
      }
      if leftId != INVALID {
        MergeSiblings(parentId, idx, leftId, pageId, pageId);
      } else {
        MergeSiblings(parentId, idx + 1, pageId, rightId, pageId);
      }
      status := RepairParent(parentId);
    }

    method RepairParent(parentId: PageId) returns (status: Status)
      requires Refilling(parentId) && parentId in shape && parentId in pages && pages[parentId].Internal?
      modifies this`pages, this`root, this`shape
      ensures status == Ok && Repaired() && Stored(pages, shape) == old(Stored(pages, shape))
      decreases shape[root].level - shape[parentId].level, 2
    {
      var size := SizeOf(pages[parentId]);
      assert NodeOk(pages, shape, root, INVALID, parentId, parentId);
      if parentId == root && size == 1 {
        status := HandleUnderflow(parentId);
      } else if size < MinOf(pages[parentId]) && parentId != root {
        status := HandleUnderflow(parentId);
      } else {
        NotUnderfull(pages, shape, root, parentId);
        status := Ok;
      }
    }

    /** Takes the key out of leaf `p`, leaving the leaf at most one entry short. */
    method RemoveFromLeaf(p: PageId, key: int) returns (status: Status, size: nat, ghost gone: LeafEntry)
      requires Allocated() && WellFormed(pages, shape, root)
      requires p in shape && p in pages && pages[p].Leaf? && InRange(shape[p], key)
      modifies this`pages
      ensures status == if HasKey(old(pages)[p].leafEntries, key) then Ok else NotFound
      ensures status != Ok ==> pages == old(pages)
      ensures status == Ok ==>
        && gone in old(pages)[p].leafEntries && gone.key == key
        && p in pages && pages[p].Leaf? && size == |pages[p].leafEntries| == |old(pages)[p].leafEntries| - 1
        && (size > 0 ==> Repairing(pages, shape, root, INVALID, p))
        && Stored(pages, shape) == Stored(old(pages), shape) - {gone}
        && pages == old(pages)[p := pages[p]]
    {
      assert NodeOk(pages, shape, root, INVALID, INVALID, p);
      ghost var s := pages[p].leafEntries;
      var leaf := new LeafPage.Deserialize(pages[p]);
      ghost var pos;
      status, pos := leaf.Remove(key);
      size := leaf.size;
      if status != Ok {
        gone := LeafEntry(key, RID(INVALID, 0));
        return;
      }
      gone := s[pos];
      RemovedFromLeaf(pages, shape, root, p, pos);
      pages := pages[p := leaf.ToNode()];
    }

    /** Deletes a pair, or reports that there is none.  Pages are rearranged only if the leaf
        that held the pair falls below the minimum. */
    method Remove(key: int) returns (status: Status)
      requires Valid()
      modifies this
      ensures Valid()
      ensures status == (if key in old(model) then Ok else NotFound)
      ensures model == old(model) - {key}
      ensures forall p ::
        (LeafFor(old(pages), old(shape), p, key)
         && |old(pages)[p].leafEntries| > (if p == old(root) then 1 else LEAF_MIN)) ==>
        root == old(root) && shape == old(shape) && p in pages && pages == old(pages)[p := pages[p]]
      ensures status != Ok ==> pages == old(pages) && root == old(root)
      ensures nextId == old(nextId)
    {
      if root == INVALID {
        return NotFound;
      }
      var p := FindLeaf(key);
      OnlyLeafFor(pages, shape, root, p, key);
      assert pages[p := pages[p]] == pages;
      assert NodeOk(pages, shape, root, INVALID, INVALID, p);
      assert NodeOk(pages, shape, root, INVALID, INVALID, root);
      if key in model {
        KeyInItsLeaf(pages, shape, root, p, LeafEntry(key, model[key]));
      }
      ghost var was := pages;
      ghost var gone;
      var size;
      status, size, gone := RemoveFromLeaf(p, key);
      if status != Ok {
        return;
      }
      assert gone in Stored(was, shape);
      ghost var kept := Stored(pages, shape);
      if p == root && size == 0 {
        LastEntryGone(was, shape, root, model, gone);
        root, shape, model := INVALID, map[], map[];
        return;
      }
      if size < LEAF_MIN && p != root {
        status := HandleUnderflow(p);
      } else {
        NotUnderfull(pages, shape, root, p);
      }
      model := model - {key};
      assert Represents(kept, model);
    }
  }
}

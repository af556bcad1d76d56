/** What a page split does to the page graph, one step at a time. */
module BTreeInsert {
  import opened Common
  import opened BTreePages
  import opened BTreeShape

  /** The parent as it will be once the pending separator is in. */
  ghost function WithEntry(pages: Pages, parent: PageId, at: nat, key: int, child: PageId): Pages
    requires parent in pages && pages[parent].Internal? && at < |pages[parent].entries|
  {
    pages[parent := pages[parent].(entries :=
      InsertAt(pages[parent].entries, at + 1, InternalEntry(key, child)))]
  }

  /** The pages once a new root `r` sits above the two halves of the old root. */
  function WithRoot(pages: Pages, r: PageId, left: PageId, key: int, right: PageId): Pages {
    Reparent(pages, {left, right}, r)[
      r := Internal(r, INVALID, [InternalEntry(0, left), InternalEntry(key, right)])]
  }

  /** Page `old` was split into `old` and `fresh` at `key`, and only the entry in
      the parent is missing: with it, the tree is well formed, except that the
      parent may hold one entry too many.  `r` is the page a new root would get. */
  ghost predicate Pending(pages: Pages, shape: Shape, root: PageId, old_: PageId, key: int, fresh_: PageId,
                          r: PageId, at: nat)
  {
    && old_ in pages && fresh_ in pages && old_ in shape && fresh_ in shape && root in shape
    && pages[fresh_].parent == pages[old_].parent
    && shape[old_].level == shape[fresh_].level
    && r !in shape && r != INVALID && old_ != fresh_
    && var parent := pages[old_].parent;
      if parent == INVALID then
        && old_ == root
        && WellFormed(WithRoot(pages, r, old_, key, fresh_),
                      shape[r := Info(shape[old_].level + 1, None, None)], r)
      else
        && parent in pages && pages[parent].Internal? && at < |pages[parent].entries|
        && parent != old_ && parent != fresh_ && parent in shape
        && shape[old_].level < shape[parent].level <= shape[root].level
        && |pages[parent].entries| <= INTERNAL_MAX
        && Repairing(WithEntry(pages, parent, at, key, fresh_), shape, root, parent, INVALID)
  }

  /** Replacing the entries of one leaf by sorted entries of its interval. */
  lemma ReplaceLeaf(pages: Pages, shape: Shape, root: PageId, p: PageId, s: seq<LeafEntry>, under: PageId)
    requires WellFormed(pages, shape, root)
    requires p in shape && p in pages && pages[p].Leaf?
    requires Sorted(s) && forall i :: 0 <= i < |s| ==> InRange(shape[p], s[i].key)
    requires SizeOk(pages[p].(leafEntries := s), root, INVALID, under, p)
    requires under == INVALID || under == p
    ensures Repairing(pages[p := pages[p].(leafEntries := s)], shape, root, INVALID, under)
  {
    var pages' := pages[p := pages[p].(leafEntries := s)];
    forall q | q in shape
      ensures NodeOk(pages', shape, root, INVALID, under, q)
    {
      assert NodeOk(pages, shape, root, INVALID, INVALID, q);
      if pages[q].Internal? {
        forall i | 0 <= i < |pages[q].entries|
          ensures ChildOk(pages', shape, q, pages[q].entries, i)
        {
          assert ChildOk(pages, shape, q, pages[q].entries, i);
        }
      }
    }
  }

  // ---- Splitting a leaf --------------------------------------------------

  function SplitLeafPages(pages: Pages, p: PageId, n: PageId, left: seq<LeafEntry>, right: seq<LeafEntry>): Pages
    requires p in pages && pages[p].Leaf?
    requires pages[p].next != INVALID ==> pages[p].next in pages && pages[pages[p].next].Leaf?
  {
    var leaf := pages[p];
    var split := pages[p := leaf.(next := n, leafEntries := left)]
                      [n := Leaf(n, leaf.parent, p, leaf.next, right)];
    if leaf.next == INVALID then split else split[leaf.next := pages[leaf.next].(prev := n)]
  }

  ghost function SplitShape(shape: Shape, p: PageId, n: PageId, sep: int): Shape
    requires p in shape
  {
    shape[p := shape[p].(hi := Some(sep))][n := Info(shape[p].level, Some(sep), shape[p].hi)]
  }

  ghost predicate CanSplitLeaf(pages: Pages, shape: Shape, root: PageId, p: PageId, n: PageId,
                               left: seq<LeafEntry>, right: seq<LeafEntry>)
  {
    && WellFormed(pages, shape, root)
    && p in shape && p in pages && pages[p].Leaf?
    && n !in shape && n != INVALID
    && LEAF_MIN <= |left| <= LEAF_MAX && LEAF_MIN <= |right| <= LEAF_MAX
    && Sorted(left + right)
    && (forall i :: 0 <= i < |left| ==> InRange(shape[p], left[i].key))
    && (forall i :: 0 <= i < |right| ==> InRange(shape[p], right[i].key))
  }

  lemma SplitLeafNext(pages: Pages, shape: Shape, root: PageId, p: PageId)
    requires WellFormed(pages, shape, root)
    requires p in shape && p in pages && pages[p].Leaf?
    ensures pages[p].next != INVALID ==>
      && pages[p].next in pages && pages[pages[p].next].Leaf? && pages[p].next in shape
      && pages[p].next != p && pages[pages[p].next].prev == p
      && shape[pages[p].next].lo == shape[p].hi && shape[p].hi.Some?
    ensures pages[p].next == INVALID <==> shape[p].hi.None?
    ensures pages[p].prev != p
  {
    assert NodeOk(pages, shape, root, INVALID, INVALID, p);
    if shape[p].hi.Some? {
      assert NodeOk(pages, shape, root, INVALID, INVALID, pages[p].next);
    }
  }

  /** The two halves of a split leaf: entries in their intervals, chained to each other. */
  lemma SplitLeafHalves(pages: Pages, shape: Shape, root: PageId, p: PageId, n: PageId,
                        left: seq<LeafEntry>, right: seq<LeafEntry>)
    requires CanSplitLeaf(pages, shape, root, p, n, left, right)
    requires pages[p].next != INVALID ==> pages[p].next in pages && pages[pages[p].next].Leaf?
    ensures var pages', shape' := SplitLeafPages(pages, p, n, left, right), SplitShape(shape, p, n, right[0].key);
      && BodyOk(pages', shape', p) && NonEmptyRange(shape'[p])
      && BodyOk(pages', shape', n) && NonEmptyRange(shape'[n])
  {
    SplitLeafNext(pages, shape, root, p);
    assert NodeOk(pages, shape, root, INVALID, INVALID, p);
    SortedConcat(left, right);
    assert InRange(shape[p], left[0].key) && left[0].key < right[0].key;
  }

  /** Every other leaf keeps its body; the right neighbour is chained to the new half. */
  lemma SplitLeafOthers(pages: Pages, shape: Shape, root: PageId, p: PageId, n: PageId,
                        left: seq<LeafEntry>, right: seq<LeafEntry>, q: PageId)
    requires CanSplitLeaf(pages, shape, root, p, n, left, right)
    requires pages[p].next != INVALID ==> pages[p].next in pages && pages[pages[p].next].Leaf?
    requires q in shape && q in pages && pages[q].Leaf? && q != p
    ensures BodyOk(SplitLeafPages(pages, p, n, left, right), SplitShape(shape, p, n, right[0].key), q)
  {
    SplitLeafNext(pages, shape, root, p);
    SplitLeafNext(pages, shape, root, q);
    assert NodeOk(pages, shape, root, INVALID, INVALID, p);
    assert NodeOk(pages, shape, root, INVALID, INVALID, q);
  }

  // ---- The parent of a split page ----------------------------------------

  /** `after` differs from `before` only in links of pages other than `p` and in
      the parents of the children of `p`. */
  ghost predicate SplitFrame(before: Pages, after: Pages, shape: Shape, p: PageId, n: PageId) {
    && n in after && after[n].id == n && n !in shape && n != INVALID
    && p in before && p in after && p in shape && after[p].id == p
    && after[p].parent == before[p].parent == after[n].parent
    && (forall q :: q in shape && q != p && q in before ==>
        && q in after && after[q].id == before[q].id
        && (before[q].Internal? ==> after[q].Internal? && after[q].entries == before[q].entries)
        && (before[q].Leaf? ==> after[q].Leaf? && after[q].leafEntries == before[q].leafEntries)
        && (before[q].parent != p ==> after[q].parent == before[q].parent))
  }

  lemma InsertedSeparator(f: Info, s: seq<InternalEntry>, at: nat, sep: int, n: PageId)
    requires SeparatorsOk(f, s) && at < |s|
    requires Exceeds(ChildLo(f, s, at), sep) && Under(sep, ChildHi(f, s, at))
    ensures SeparatorsOk(f, InsertAt(s, at + 1, InternalEntry(sep, n)))
    ensures Routes(s, sep, at) && !HasSeparator(s, sep)
  {
    var t := InsertAt(s, at + 1, InternalEntry(sep, n));
    forall i | 1 <= i < |s|
      ensures if i <= at then s[i].key < sep else sep < s[i].key
    {
      assert i < at ==> s[i].key < s[at].key;
      assert at + 1 < i ==> s[at + 1].key < s[i].key;
    }
    forall i | 0 <= i < |t|
      ensures t[i] == if i <= at then s[i] else if i == at + 1 then InternalEntry(sep, n) else s[i - 1]
    {
    }
    assert Exceeds(f.lo, sep) && Under(sep, f.hi);
  }

  /** Each child of the parent once the new half is among its entries. */
  lemma InsertedChild(before: Pages, after: Pages, shape: Shape, root: PageId, over: PageId,
                      p: PageId, n: PageId, sep: int, parent: PageId, at: nat, i: nat)
    requires Repairing(before, shape, root, over, INVALID) && SplitFrame(before, after, shape, p, n)
    requires parent == before[p].parent && parent in shape && parent in before && parent != p
    requires before[parent].Internal? && at < |before[parent].entries|
    requires before[parent].entries[at].child == p
    requires i <= |before[parent].entries|
    ensures ChildOk(after, SplitShape(shape, p, n, sep), parent,
                    InsertAt(before[parent].entries, at + 1, InternalEntry(sep, n)), i)
  {
    var was := before[parent].entries;
    var s := InsertAt(was, at + 1, InternalEntry(sep, n));
    assert NodeOk(before, shape, root, over, INVALID, parent);
    assert ChildOk(before, shape, parent, was, at);
    assert s[at] == was[at] && s[at + 1] == InternalEntry(sep, n);
    if i < at {
      assert s[i] == was[i] && s[i + 1] == was[i + 1];
      assert ChildOk(before, shape, parent, was, i);
      ChildrenApart(before, shape, parent, was, at, i);
    } else if i > at + 1 {
      assert s[i] == was[i - 1] && (i + 1 < |s| ==> s[i + 1] == was[i]);
      assert ChildOk(before, shape, parent, was, i - 1);
      ChildrenApart(before, shape, parent, was, at, i - 1);
    } else {
      assert at + 2 < |s| ==> s[at + 2] == was[at + 1];
    }
  }

  /** The bodies after a split: the halves, every other leaf, and the children of
      the split page, each of which has a half as its parent. */
  ghost predicate SplitBodies(before: Pages, after: Pages, shape: Shape, shape': Shape, p: PageId, n: PageId)
    requires SplitFrame(before, after, shape, p, n)
  {
    && shape'.Keys == shape.Keys + {n}
    && (forall q :: q in {p, n} ==>
        && BodyOk(after, shape', q) && NonEmptyRange(shape'[q])
        && MinOf(after[q]) <= SizeOf(after[q]) <= MaxOf(after[q]))
    && (forall q {:trigger BodyOk(after, shape', q)} ::
        q in shape && q != p && q in before && before[q].Leaf? ==> BodyOk(after, shape', q))
    && (forall c {:trigger after[c].parent} :: c in shape && c in before && c != p && before[c].parent == p ==>
        && after[c].parent in {p, n} && after[after[c].parent].Internal?
        && HasChild(after[after[c].parent].entries, c))
  }

  /** A page other than the halves and their parent keeps its body. */
  lemma SplitBystander(before: Pages, after: Pages, shape: Shape, root: PageId, over: PageId,
                       p: PageId, n: PageId, sep: int, q: PageId)
    requires Repairing(before, shape, root, over, INVALID) && SplitFrame(before, after, shape, p, n)
    requires SplitBodies(before, after, shape, SplitShape(shape, p, n, sep), p, n)
    requires q in shape && q != p && q != before[p].parent
    ensures q in before && q in after && BodyOk(after, SplitShape(shape, p, n, sep), q)
  {
    var shape' := SplitShape(shape, p, n, sep);
    assert NodeOk(before, shape, root, over, INVALID, q);
    if before[q].Leaf? {
      assert BodyOk(after, shape', q);
    } else {
      var s := before[q].entries;
      forall i | 0 <= i < |s|
        ensures ChildOk(after, shape', q, s, i)
      {
        assert ChildOk(before, shape, q, s, i);
      }
    }
  }

  ghost predicate SplitDone(before: Pages, after: Pages, shape: Shape, root: PageId, over: PageId,
                            p: PageId, n: PageId, sep: int)
  {
    && Repairing(before, shape, root, over, INVALID) && (over == p || over == INVALID)
    && SplitFrame(before, after, shape, p, n)
    && SplitBodies(before, after, shape, SplitShape(shape, p, n, sep), p, n)
    && Exceeds(shape[p].lo, sep) && Under(sep, shape[p].hi)
  }

  lemma SplitParentNode(before: Pages, after: Pages, shape: Shape, root: PageId, over: PageId,
                        p: PageId, n: PageId, sep: int, parent: PageId, at: nat)
    requires SplitDone(before, after, shape, root, over, p, n, sep) && IsSlot(before, shape, p, parent, at)
    ensures IsSlot(after, shape, p, parent, at)
    ensures NodeOk(WithEntry(after, parent, at, sep, n), SplitShape(shape, p, n, sep), root, parent, INVALID, parent)
  {
    var shape' := SplitShape(shape, p, n, sep);
    assert NodeOk(before, shape, root, over, INVALID, parent);
    var was := before[parent].entries;
    var virtual := WithEntry(after, parent, at, sep, n);
    var s := virtual[parent].entries;
    assert ChildOk(before, shape, parent, was, at);
    InsertedSeparator(shape[parent], was, at, sep, n);
    forall i | 0 <= i < |s|
      ensures ChildOk(virtual, shape', parent, s, i)
    {
      InsertedChild(before, after, shape, root, over, p, n, sep, parent, at, i);
    }
    assert BodyOk(virtual, shape', parent);
    assert NodeOk(before, shape, root, over, INVALID, p);
    if parent != root {
      var j := SlotOf(before, shape, root, over, INVALID, parent);
    }
  }

  lemma SplitUnderParent(before: Pages, after: Pages, shape: Shape, root: PageId, over: PageId,
                         p: PageId, n: PageId, sep: int, parent: PageId, at: nat)
    requires SplitDone(before, after, shape, root, over, p, n, sep) && IsSlot(before, shape, p, parent, at)
    ensures IsSlot(after, shape, p, parent, at)
    ensures Repairing(WithEntry(after, parent, at, sep, n), SplitShape(shape, p, n, sep), root, parent, INVALID)
  {
    SplitParentNode(before, after, shape, root, over, p, n, sep, parent, at);
    var shape' := SplitShape(shape, p, n, sep);
    var virtual := WithEntry(after, parent, at, sep, n);
    forall q | q in shape'
      ensures NodeOk(virtual, shape', root, parent, INVALID, q)
    {
      if q == p || q == n {
        SplitHalfNode(before, after, shape, root, over, p, n, sep, parent, at, q);
      } else if q != parent {
        SplitOtherNode(before, after, shape, root, over, p, n, sep, parent, at, q);
      }
    }
  }

  lemma SplitHalfNode(before: Pages, after: Pages, shape: Shape, root: PageId, over: PageId,
                      p: PageId, n: PageId, sep: int, parent: PageId, at: nat, q: PageId)
    requires SplitDone(before, after, shape, root, over, p, n, sep) && IsSlot(before, shape, p, parent, at)
    requires IsSlot(after, shape, p, parent, at) && (q == p || q == n)
    ensures NodeOk(WithEntry(after, parent, at, sep, n), SplitShape(shape, p, n, sep), root, parent, INVALID, q)
  {
    var shape' := SplitShape(shape, p, n, sep);
    var virtual := WithEntry(after, parent, at, sep, n);
    var s := virtual[parent].entries;
    assert s[at].child == p && s[at + 1].child == n;
    assert NodeOk(before, shape, root, over, INVALID, p);
    assert NodeOk(before, shape, root, over, INVALID, parent);
    assert BodyOk(after, shape', q);
    SameBody(after, virtual, shape', q);
  }

  lemma SplitOtherNode(before: Pages, after: Pages, shape: Shape, root: PageId, over: PageId,
                       p: PageId, n: PageId, sep: int, parent: PageId, at: nat, q: PageId)
    requires SplitDone(before, after, shape, root, over, p, n, sep) && IsSlot(before, shape, p, parent, at)
    requires IsSlot(after, shape, p, parent, at) && q in shape && q != p && q != n && q != parent
    ensures NodeOk(WithEntry(after, parent, at, sep, n), SplitShape(shape, p, n, sep), root, parent, INVALID, q)
  {
    var shape' := SplitShape(shape, p, n, sep);
    var virtual := WithEntry(after, parent, at, sep, n);
    assert NodeOk(before, shape, root, over, INVALID, p);
    assert NodeOk(before, shape, root, over, INVALID, q);
    SplitBystander(before, after, shape, root, over, p, n, sep, q);
    SameBody(after, virtual, shape', q);
    assert ParentOk(virtual, shape', root, q) by {
      if q != root && before[q].parent == parent {
        StillChild(before[parent].entries, at, InternalEntry(sep, n), q);
      }
    }
  }

  /** Inserting an entry removes no child. */
  lemma StillChild(s: seq<InternalEntry>, at: nat, e: InternalEntry, c: PageId)
    requires at < |s| && HasChild(s, c)
    ensures HasChild(InsertAt(s, at + 1, e), c)
  {
    var i :| 0 <= i < |s| && s[i].child == c;
    assert InsertAt(s, at + 1, e)[if i <= at then i else i + 1].child == c;
  }

  /** Changing the entries of some other page does not touch a page's body. */
  lemma SameBody(pages: Pages, pages': Pages, shape: Shape, q: PageId)
    requires q in pages && q in shape && BodyOk(pages, shape, q)
    requires pages'.Keys >= pages.Keys && pages'[q] == pages[q]
    requires forall c :: c in pages ==>
      && pages'[c].parent == pages[c].parent
      && (pages[c].Leaf? ==> pages'[c] == pages[c])
    ensures BodyOk(pages', shape, q)
  {
    if pages[q].Internal? {
      forall i | 0 <= i < |pages[q].entries|
        ensures ChildOk(pages', shape, q, pages[q].entries, i)
      {
        assert ChildOk(pages, shape, q, pages[q].entries, i);
      }
    }
  }

  /** Splitting the root: the two halves become the children of a new root `r`. */
  lemma SplitUnderRoot(before: Pages, after: Pages, shape: Shape, root: PageId, over: PageId,
                       n: PageId, sep: int, r: PageId)
    requires SplitDone(before, after, shape, root, over, root, n, sep)
    requires r !in shape && r != n && r != INVALID
    ensures WellFormed(WithRoot(after, r, root, sep, n),
                       SplitShape(shape, root, n, sep)[r := Info(shape[root].level + 1, None, None)], r)
  {
    var split := SplitShape(shape, root, n, sep);
    var shape' := split[r := Info(shape[root].level + 1, None, None)];
    var pages' := WithRoot(after, r, root, sep, n);
    assert NodeOk(before, shape, root, over, INVALID, root);
    forall q | q in shape'
      ensures NodeOk(pages', shape', r, INVALID, INVALID, q)
    {
      if q == r {
        var s := pages'[r].entries;
        assert ChildOk(pages', shape', r, s, 0) && ChildOk(pages', shape', r, s, 1);
      } else if q == root || q == n {
        HalvedRootNode(before, after, shape, root, over, n, sep, r, q);
      } else {
        BelowNewRootNode(before, after, shape, root, over, n, sep, r, q);
      }
    }
  }

  lemma HalvedRootNode(before: Pages, after: Pages, shape: Shape, root: PageId, over: PageId,
                       n: PageId, sep: int, r: PageId, q: PageId)
    requires SplitDone(before, after, shape, root, over, root, n, sep)
    requires r !in shape && r != n && r != INVALID && (q == root || q == n)
    ensures NodeOk(WithRoot(after, r, root, sep, n),
                   SplitShape(shape, root, n, sep)[r := Info(shape[root].level + 1, None, None)], r, INVALID, INVALID, q)
  {
    var split := SplitShape(shape, root, n, sep);
    var pages' := WithRoot(after, r, root, sep, n);
    assert pages'[r].entries[if q == root then 0 else 1].child == q;
    assert NodeOk(before, shape, root, over, INVALID, root);
    assert BodyOk(after, split, q);
    LiftBody(after, pages', split, split[r := Info(shape[root].level + 1, None, None)], {root, n}, r, q);
  }

  lemma BelowNewRootBody(before: Pages, after: Pages, shape: Shape, root: PageId, over: PageId,
                         n: PageId, sep: int, r: PageId, q: PageId)
    requires SplitDone(before, after, shape, root, over, root, n, sep)
    requires r !in shape && r != n && r != INVALID && q in shape && q != root && q != n
    ensures q in after && q in WithRoot(after, r, root, sep, n)
    ensures BodyOk(WithRoot(after, r, root, sep, n),
                   SplitShape(shape, root, n, sep)[r := Info(shape[root].level + 1, None, None)], q)
  {
    var split := SplitShape(shape, root, n, sep);
    assert NodeOk(before, shape, root, over, INVALID, root);
    assert NodeOk(before, shape, root, over, INVALID, q);
    SplitBystander(before, after, shape, root, over, root, n, sep, q);
    LiftBody(after, WithRoot(after, r, root, sep, n), split,
             split[r := Info(shape[root].level + 1, None, None)], {root, n}, r, q);
  }

  lemma BelowNewRootNode(before: Pages, after: Pages, shape: Shape, root: PageId, over: PageId,
                         n: PageId, sep: int, r: PageId, q: PageId)
    requires SplitDone(before, after, shape, root, over, root, n, sep)
    requires r !in shape && r != n && r != INVALID && q in shape && q != root && q != n
    ensures NodeOk(WithRoot(after, r, root, sep, n),
                   SplitShape(shape, root, n, sep)[r := Info(shape[root].level + 1, None, None)], r, INVALID, INVALID, q)
  {
    BelowNewRootBody(before, after, shape, root, over, n, sep, r, q);
    assert NodeOk(before, shape, root, over, INVALID, root);
    assert NodeOk(before, shape, root, over, INVALID, q);
  }

  /** A body survives giving the pages `tops` a new parent `r`, if none of them is a child. */
  lemma LiftBody(pages: Pages, pages': Pages, shape: Shape, shape': Shape, tops: set<PageId>, r: PageId, q: PageId)
    requires q in pages && q in shape && BodyOk(pages, shape, q) && r !in shape
    requires forall c :: c in shape ==> c in shape' && shape'[c] == shape[c]
    requires forall c :: c in pages && c != r ==>
      c in pages' && pages'[c] == if c in tops then pages[c].(parent := r) else pages[c]
    requires forall c :: c in tops && c in shape ==> shape[q].level <= shape[c].level
    ensures BodyOk(pages', shape', q)
  {
    if pages[q].Internal? {
      var s := pages[q].entries;
      forall i | 0 <= i < |s|
        ensures ChildOk(pages', shape', q, s, i)
      {
        assert ChildOk(pages, shape, q, s, i);
      }
    }
  }

  /** After a split, and before its parent knows, the tree is pending exactly one entry. */
  lemma SplitIsPending(before: Pages, after: Pages, shape: Shape, root: PageId, over: PageId,
                       p: PageId, n: PageId, sep: int, r: PageId) returns (at: nat)
    requires SplitDone(before, after, shape, root, over, p, n, sep)
    requires r !in shape && r != n && r != INVALID
    ensures Pending(after, SplitShape(shape, p, n, sep), root, p, sep, n, r, at)
  {
    at := 0;
    assert NodeOk(before, shape, root, over, INVALID, p);
    if p == root {
      SplitUnderRoot(before, after, shape, root, over, n, sep, r);
    } else {
      at := SlotOf(before, shape, root, over, INVALID, p);
      var parent := before[p].parent;
      assert NodeOk(before, shape, root, over, INVALID, parent);
      SplitUnderParent(before, after, shape, root, over, p, n, sep, parent, at);
    }
  }

  lemma LeafHasNoChildren(pages: Pages, shape: Shape, root: PageId, p: PageId, c: PageId)
    requires WellFormed(pages, shape, root) && p in shape && p in pages && pages[p].Leaf?
    requires c in shape && c in pages
    ensures pages[c].parent != p
  {
    assert NodeOk(pages, shape, root, INVALID, INVALID, c);
    assert NodeOk(pages, shape, root, INVALID, INVALID, p);
    if c != root {
      var at := SlotOf(pages, shape, root, INVALID, INVALID, c);
    }
  }

  /** Splitting a leaf at `right[0].key` leaves the tree pending that separator. */
  lemma SplitLeaf(pages: Pages, shape: Shape, root: PageId, p: PageId, n: PageId,
                  left: seq<LeafEntry>, right: seq<LeafEntry>, r: PageId) returns (at: nat)
    requires CanSplitLeaf(pages, shape, root, p, n, left, right)
    requires r !in shape && r != n && r != INVALID
    ensures pages[p].next != INVALID ==> pages[p].next in pages && pages[pages[p].next].Leaf?
    ensures Pending(SplitLeafPages(pages, p, n, left, right), SplitShape(shape, p, n, right[0].key),
                    root, p, right[0].key, n, r, at)
  {
    SplitLeafNext(pages, shape, root, p);
    var pages' := SplitLeafPages(pages, p, n, left, right);
    var sep := right[0].key;
    var shape' := SplitShape(shape, p, n, sep);
    SplitLeafHalves(pages, shape, root, p, n, left, right);
    forall q | q in shape && q != p && q in pages && pages[q].Leaf?
      ensures BodyOk(pages', shape', q)
    {
      SplitLeafOthers(pages, shape, root, p, n, left, right, q);
    }
    assert NodeOk(pages, shape, root, INVALID, INVALID, p);
    assert SplitFrame(pages, pages', shape, p, n);
    forall c | c in shape && c in pages
      ensures pages[c].parent != p
    {
      LeafHasNoChildren(pages, shape, root, p, c);
    }
    SortedConcat(left, right);
    assert InRange(shape[p], left[0].key) && left[0].key < sep;
    at := SplitIsPending(pages, pages', shape, root, INVALID, p, n, sep, r);
  }

  // ---- Splitting an internal page ----------------------------------------

  ghost function SplitInternalPages(pages: Pages, p: PageId, n: PageId, m: nat): Pages
    requires p in pages && pages[p].Internal? && m < |pages[p].entries|
  {
    var node := pages[p];
    Reparent(pages, ChildSet(node.entries[m..]), n)
      [p := node.(entries := node.entries[..m])]
      [n := Internal(n, node.parent, node.entries[m..])]
  }

  ghost predicate CanSplitInternal(pages: Pages, shape: Shape, root: PageId, p: PageId, n: PageId, m: nat) {
    && Repairing(pages, shape, root, p, INVALID)
    && p in shape && p in pages && pages[p].Internal?
    && n !in shape && n != INVALID
    && INTERNAL_MIN <= m <= INTERNAL_MAX
    && INTERNAL_MIN <= |pages[p].entries| - m <= INTERNAL_MAX
  }

  /** The halves of an internal page hold the children they are the parents of. */
  lemma SplitInternalHalves(pages: Pages, shape: Shape, root: PageId, p: PageId, n: PageId, m: nat)
    requires CanSplitInternal(pages, shape, root, p, n, m)
    ensures var pages' := SplitInternalPages(pages, p, n, m);
      var shape' := SplitShape(shape, p, n, pages[p].entries[m].key);
      && BodyOk(pages', shape', p) && NonEmptyRange(shape'[p])
      && BodyOk(pages', shape', n) && NonEmptyRange(shape'[n])
  {
    var s := pages[p].entries;
    var pages' := SplitInternalPages(pages, p, n, m);
    var shape' := SplitShape(shape, p, n, s[m].key);
    assert NodeOk(pages, shape, root, p, INVALID, p);
    forall i | 0 <= i < m
      ensures ChildOk(pages', shape', p, s[..m], i)
    {
      SplitInternalChild(pages, shape, root, p, n, m, i);
    }
    forall i | 0 <= i < |s| - m
      ensures ChildOk(pages', shape', n, s[m..], i)
    {
      SplitInternalChild(pages, shape, root, p, n, m, m + i);
    }
  }

  lemma SplitInternalChild(pages: Pages, shape: Shape, root: PageId, p: PageId, n: PageId, m: nat, i: nat)
    requires CanSplitInternal(pages, shape, root, p, n, m) && i < |pages[p].entries|
    ensures var s := pages[p].entries;
      var pages' := SplitInternalPages(pages, p, n, m);
      var shape' := SplitShape(shape, p, n, s[m].key);
      if i < m then ChildOk(pages', shape', p, s[..m], i) else ChildOk(pages', shape', n, s[m..], i - m)
  {
    var s := pages[p].entries;
    assert NodeOk(pages, shape, root, p, INVALID, p);
    assert ChildOk(pages, shape, p, s, i);
    if i < m {
      forall j | 0 <= j < |s[m..]|
        ensures s[m..][j].child != s[i].child
      {
        assert ChildOk(pages, shape, p, s, m + j);
        ChildrenApart(pages, shape, p, s, i, m + j);
      }
    } else {
      assert s[m..][i - m] == s[i];
    }
  }

  /** Splitting an overfull internal page at index `m` moves the repair one level up. */
  lemma SplitInternal(pages: Pages, shape: Shape, root: PageId, p: PageId, n: PageId, m: nat, r: PageId)
    returns (at: nat)
    requires CanSplitInternal(pages, shape, root, p, n, m)
    requires r !in shape && r != n && r != INVALID
    ensures Pending(SplitInternalPages(pages, p, n, m), SplitShape(shape, p, n, pages[p].entries[m].key),
                    root, p, pages[p].entries[m].key, n, r, at)
  {
    var s := pages[p].entries;
    var sep := s[m].key;
    var pages' := SplitInternalPages(pages, p, n, m);
    var shape' := SplitShape(shape, p, n, sep);
    assert NodeOk(pages, shape, root, p, INVALID, p);
    SplitInternalHalves(pages, shape, root, p, n, m);
    forall q | q in shape && q != p && q in pages
      ensures pages[q].Leaf? ==> BodyOk(pages', shape', q)
      ensures pages[q].parent != p ==> pages'[q].parent == pages[q].parent
      ensures pages[q].parent == p ==>
        && pages'[q].parent in {p, n} && HasChild(pages'[pages'[q].parent].entries, q)
    {
      SplitInternalOther(pages, shape, root, p, n, m, q);
    }
    at := SplitIsPending(pages, pages', shape, root, p, p, n, sep, r);
  }

  lemma SplitInternalOther(pages: Pages, shape: Shape, root: PageId, p: PageId, n: PageId, m: nat, q: PageId)
    requires CanSplitInternal(pages, shape, root, p, n, m)
    requires q in shape && q != p && q in pages
    ensures var pages' := SplitInternalPages(pages, p, n, m);
      var shape' := SplitShape(shape, p, n, pages[p].entries[m].key);
      && (pages[q].Leaf? ==> BodyOk(pages', shape', q))
      && (pages[q].parent != p ==> pages'[q].parent == pages[q].parent)
      && (pages[q].parent == p ==>
          pages'[q].parent in {p, n} && HasChild(pages'[pages'[q].parent].entries, q))
  {
    var s := pages[p].entries;
    var pages' := SplitInternalPages(pages, p, n, m);
    assert NodeOk(pages, shape, root, p, INVALID, q);
    assert NodeOk(pages, shape, root, p, INVALID, p);
    if q in ChildSet(s[m..]) {
      var j :| 0 <= j < |s[m..]| && s[m..][j].child == q;
      assert ChildOk(pages, shape, p, s, m + j);
      assert pages'[n].entries[j].child == q;
    } else if pages[q].parent == p {
      var i := SlotOf(pages, shape, root, p, INVALID, q);
      assert pages'[p].entries[i].child == q;
    }
  }

  // ---- What the leaves store ---------------------------------------------

  lemma ReplacedLeafStores(pages: Pages, shape: Shape, root: PageId, p: PageId, s: seq<LeafEntry>)
    requires WellFormed(pages, shape, root)
    requires p in shape && p in pages && pages[p].Leaf?
    ensures Stored(pages[p := pages[p].(leafEntries := s)], shape) ==
            (set e | e in Stored(pages, shape) && e !in pages[p].leafEntries) + (set e | e in s)
  {
    var pages' := pages[p := pages[p].(leafEntries := s)];
    forall e | e in Stored(pages, shape) && e !in pages[p].leafEntries
      ensures e in Stored(pages', shape)
    {
      var q :| q in shape && q in pages && pages[q].Leaf? && e in pages[q].leafEntries;
      assert pages'[q] == pages[q];
    }
    assert NodeOk(pages, shape, root, INVALID, INVALID, p);
    forall e | e in Stored(pages', shape) && e !in s
      ensures e in Stored(pages, shape) && e !in pages[p].leafEntries
    {
      var q :| q in shape && q in pages' && pages'[q].Leaf? && e in pages'[q].leafEntries;
      assert NodeOk(pages, shape, root, INVALID, INVALID, q);
      if e in pages[p].leafEntries {
        UniqueOwner(pages, shape, root, INVALID, INVALID, e.key, p, q);
      }
    }
    forall e | e in s
      ensures e in Stored(pages', shape)
    {
      assert pages'[p].leafEntries == s;
    }
  }

  /** The halves together store what the one leaf would store. */
  lemma SplitLeafWithKey(pages: Pages, shape: Shape, root: PageId, p: PageId, n: PageId, left: seq<LeafEntry>,
                         right: seq<LeafEntry>, e: LeafEntry, r: PageId) returns (at: nat)
    requires WellFormed(pages, shape, root) && p in shape && p in pages && pages[p].Leaf? && InRange(shape[p], e.key)
    requires pages[p].next != INVALID ==> pages[p].next in pages && pages[pages[p].next].Leaf?
    requires LEAF_MIN <= |left| <= LEAF_MAX && LEAF_MIN <= |right| <= LEAF_MAX && Sorted(left + right)
    requires forall d :: d in left + right <==> d in pages[p].leafEntries || d == e
    requires n !in shape && n != INVALID && r !in shape && r != n && r != INVALID
    ensures var pages', shape' := SplitLeafPages(pages, p, n, left, right), SplitShape(shape, p, n, right[0].key);
      && Pending(pages', shape', root, p, right[0].key, n, r, at)
      && Stored(pages', shape') == Stored(pages, shape) + {e}
  {
    assert NodeOk(pages, shape, root, INVALID, INVALID, p);
    assert forall i :: 0 <= i < |left| ==> left[i] in left + right;
    assert forall i :: 0 <= i < |right| ==> right[i] in left + right;
    at := SplitLeaf(pages, shape, root, p, n, left, right, r);
    SplitLeafStores(pages, shape, root, p, n, left, right);
    ReplacedLeafStores(pages, shape, root, p, left + right);
    assert Stored(pages, shape) >= set d | d in pages[p].leafEntries;
  }

  lemma SplitLeafStores(pages: Pages, shape: Shape, root: PageId, p: PageId, n: PageId,
                        left: seq<LeafEntry>, right: seq<LeafEntry>)
    requires CanSplitLeaf(pages, shape, root, p, n, left, right)
    requires pages[p].next != INVALID ==> pages[p].next in pages && pages[pages[p].next].Leaf?
    ensures Stored(SplitLeafPages(pages, p, n, left, right), SplitShape(shape, p, n, right[0].key)) ==
            Stored(pages[p := pages[p].(leafEntries := left + right)], shape)
  {
    var pages' := SplitLeafPages(pages, p, n, left, right);
    var shape' := SplitShape(shape, p, n, right[0].key);
    var whole := pages[p := pages[p].(leafEntries := left + right)];
    SplitLeafNext(pages, shape, root, p);
    assert pages'[p].leafEntries == left && pages'[n].leafEntries == right;
    forall e | e in Stored(whole, shape)
      ensures e in Stored(pages', shape')
    {
      var q :| q in shape && q in whole && whole[q].Leaf? && e in whole[q].leafEntries;
      if q == p {
        assert if e in left then e in pages'[p].leafEntries else e in pages'[n].leafEntries;
      } else {
        assert e in pages'[q].leafEntries;
      }
    }
    forall e | e in Stored(pages', shape')
      ensures e in Stored(whole, shape)
    {
      var q :| q in shape' && q in pages' && pages'[q].Leaf? && e in pages'[q].leafEntries;
      if q == p || q == n {
        assert e in whole[p].leafEntries;
      } else {
        assert e in whole[q].leafEntries;
      }
    }
  }

  // ---- From the parent's own entries to the pending ones -----------------

  lemma RouteUnique(s: seq<InternalEntry>, key: int, i: int, j: int)
    requires Ascending(s) && Routes(s, key, i) && Routes(s, key, j)
    ensures i == j
  {
  }

  /** If the pending entry makes the separators ascend, it is where a search for its key ends. */
  lemma PendingPlace(s: seq<InternalEntry>, at: nat, key: int, child: PageId)
    requires at < |s| && Ascending(InsertAt(s, at + 1, InternalEntry(key, child)))
    ensures Ascending(s) && Routes(s, key, at) && !HasSeparator(s, key)
  {
    var t := InsertAt(s, at + 1, InternalEntry(key, child));
    assert forall i :: 0 <= i <= at ==> t[i] == s[i];
    assert forall i :: at < i < |s| ==> t[i + 1] == s[i];
    assert t[at + 1].key == key;
  }

  /** Halving first and then inserting to the left is inserting first and then cutting at `h + 1`. */
  lemma InsertIntoLeftHalf(s: seq<InternalEntry>, at: nat, key: int, child: PageId, h: nat)
    requires at < |s| && 1 <= h < |s| && key < s[h].key
    requires Ascending(InsertAt(s, at + 1, InternalEntry(key, child)))
    ensures at < h && Ascending(s[..h]) && Routes(s[..h], key, at) && !HasSeparator(s[..h], key)
    ensures var e := InternalEntry(key, child);
      var t := InsertAt(s, at + 1, e);
      InsertAt(s[..h], at + 1, e) == t[..h + 1] && s[h..] == t[h + 1..] && s[h] == t[h + 1]
  {
    PendingPlace(s, at, key, child);
    assert at < h;
    var e := InternalEntry(key, child);
    var t, u := InsertAt(s, at + 1, e), InsertAt(s[..h], at + 1, e);
    forall i | 0 <= i <= h
      ensures u[i] == t[i]
    {
    }
    assert t[h + 1..] == s[h..];
  }

  /** Halving first and then inserting to the right is inserting first and then cutting at `h`. */
  lemma InsertIntoRightHalf(s: seq<InternalEntry>, at: nat, key: int, child: PageId, h: nat)
    requires at < |s| && 1 <= h < |s| && s[h].key <= key
    requires Ascending(InsertAt(s, at + 1, InternalEntry(key, child)))
    ensures h <= at && Ascending(s[h..]) && Routes(s[h..], key, at - h) && !HasSeparator(s[h..], key)
    ensures var e := InternalEntry(key, child);
      var t := InsertAt(s, at + 1, e);
      InsertAt(s[h..], at - h + 1, e) == t[h..] && s[..h] == t[..h] && s[h] == t[h]
  {
    PendingPlace(s, at, key, child);
    assert h <= at;
    var u := s[h..];
    assert forall i :: 0 <= i < |u| ==> u[i] == s[h + i];
    assert u[at - h + 1..] == s[at + 1..];
  }

  lemma ChildSetOfInsert(s: seq<InternalEntry>, at: nat, e: InternalEntry)
    requires at <= |s|
    ensures ChildSet(InsertAt(s, at, e)) == ChildSet(s) + {e.child}
  {
    var t := InsertAt(s, at, e);
    forall c | c in ChildSet(s)
      ensures c in ChildSet(t)
    {
      var i :| 0 <= i < |s| && s[i].child == c;
      assert t[if i < at then i else i + 1].child == c;
    }
    assert t[at] == e;
  }

  /** A page that is not overfull after all needs no repair. */
  lemma NotOverfull(pages: Pages, shape: Shape, root: PageId, over: PageId)
    requires Repairing(pages, shape, root, over, INVALID)
    requires over in pages && SizeOf(pages[over]) <= MaxOf(pages[over])
    ensures WellFormed(pages, shape, root)
  {
    forall q | q in shape
      ensures NodeOk(pages, shape, root, INVALID, INVALID, q)
    {
      assert NodeOk(pages, shape, root, over, INVALID, q);
    }
  }

  /** The three page writes that install a new root. */
  lemma RootWrites(pages: Pages, r: PageId, left: PageId, key: int, right: PageId)
    requires left in pages && right in pages && r !in pages && left != right
    ensures
      var top := Internal(r, INVALID, [InternalEntry(0, left), InternalEntry(key, right)]);
      pages[r := top][left := pages[left].(parent := r)][right := pages[right].(parent := r)]
        == WithRoot(pages, r, left, key, right)
  {
  }

  lemma RootStores(pages: Pages, shape: Shape, r: PageId, left: PageId, key: int, right: PageId, f: Info)
    requires r !in pages && shape.Keys <= pages.Keys
    ensures Stored(WithRoot(pages, r, left, key, right), shape[r := f]) == Stored(pages, shape)
  {
    var pages', shape' := WithRoot(pages, r, left, key, right), shape[r := f];
    assert forall q :: q in pages ==> pages'[q] == if q in {left, right} then pages[q].(parent := r) else pages[q];
    SameLeaves(pages, shape, pages', shape');
  }

  /** A new root above two halves completes the split of the old one. */
  lemma RootGrown(pages: Pages, shape: Shape, root: PageId, left: PageId, key: int, right: PageId, r: PageId, at: nat)
    requires Pending(pages, shape, root, left, key, right, r, at) && pages[left].parent == INVALID
    requires r !in pages && shape.Keys <= pages.Keys
    ensures var pages' := pages[r := Internal(r, INVALID, [InternalEntry(0, left), InternalEntry(key, right)])]
                               [left := pages[left].(parent := r)][right := pages[right].(parent := r)];
      var shape' := shape[r := Info(shape[left].level + 1, None, None)];
      && WellFormed(pages', shape', r) && Stored(pages', shape') == Stored(pages, shape)
      && pages'.Keys == pages.Keys + {r}
  {
    RootWrites(pages, r, left, key, right);
    RootStores(pages, shape, r, left, key, right, Info(shape[left].level + 1, None, None));
  }

  /** Splitting a full parent and putting the pending entry in its left half. */
  lemma SplitWritesLeft(pages: Pages, p: PageId, n: PageId, at: nat, key: int, child: PageId, h: nat)
    requires p in pages && pages[p].Internal? && n !in pages && child in pages && child != p
    requires at < |pages[p].entries| && 1 <= h < |pages[p].entries| && key < pages[p].entries[h].key
    requires Ascending(InsertAt(pages[p].entries, at + 1, InternalEntry(key, child)))
    ensures at < h
    ensures var s := pages[p].entries;
      && Ascending(s[..h]) && Routes(s[..h], key, at) && !HasSeparator(s[..h], key)
      && s[h] == WithEntry(pages, p, at, key, child)[p].entries[h + 1]
    ensures var s := pages[p].entries;
      Reparent(pages, ChildSet(s[h..]), n)
        [p := Internal(pages[p].id, pages[p].parent, InsertAt(s[..h], at + 1, InternalEntry(key, child)))]
        [n := Internal(n, pages[p].parent, s[h..])]
      == SplitInternalPages(WithEntry(pages, p, at, key, child), p, n, h + 1)
  {
    InsertIntoLeftHalf(pages[p].entries, at, key, child, h);
  }

  /** Splitting a full parent and putting the pending entry in its right half. */
  lemma SplitWritesRight(pages: Pages, p: PageId, n: PageId, at: nat, key: int, child: PageId, h: nat)
    requires p in pages && pages[p].Internal? && n !in pages && child in pages && child != p
    requires at < |pages[p].entries| && 1 <= h < |pages[p].entries| && pages[p].entries[h].key <= key
    requires Ascending(InsertAt(pages[p].entries, at + 1, InternalEntry(key, child)))
    ensures h <= at
    ensures var s := pages[p].entries;
      && Ascending(s[h..]) && Routes(s[h..], key, at - h) && !HasSeparator(s[h..], key)
      && s[h] == WithEntry(pages, p, at, key, child)[p].entries[h]
    ensures var s := pages[p].entries;
      var adopted := Reparent(pages, ChildSet(s[h..]), n);
      adopted[child := adopted[child].(parent := n)]
        [p := Internal(pages[p].id, pages[p].parent, s[..h])]
        [n := Internal(n, pages[p].parent, InsertAt(s[h..], at - h + 1, InternalEntry(key, child)))]
      == SplitInternalPages(WithEntry(pages, p, at, key, child), p, n, h)
  {
    var s := pages[p].entries;
    InsertIntoRightHalf(s, at, key, child, h);
    ChildSetOfInsert(s[h..], at - h + 1, InternalEntry(key, child));
  }

  lemma SplitInternalStores(pages: Pages, shape: Shape, p: PageId, n: PageId, m: nat, sep: int)
    requires p in pages && pages[p].Internal? && m < |pages[p].entries| && p in shape
    requires n !in pages && shape.Keys <= pages.Keys
    ensures Stored(SplitInternalPages(pages, p, n, m), SplitShape(shape, p, n, sep)) == Stored(pages, shape)
  {
    SameLeaves(pages, shape, SplitInternalPages(pages, p, n, m), SplitShape(shape, p, n, sep));
  }

  lemma WithEntryStores(pages: Pages, shape: Shape, p: PageId, at: nat, key: int, child: PageId)
    requires p in pages && pages[p].Internal? && at < |pages[p].entries|
    ensures Stored(WithEntry(pages, p, at, key, child), shape) == Stored(pages, shape)
  {
    SameLeaves(pages, shape, WithEntry(pages, p, at, key, child), shape);
  }

  lemma PendingChildren(pages: Pages, shape: Shape, root: PageId, p: PageId, at: nat, key: int, child: PageId)
    requires p in pages && pages[p].Internal? && at < |pages[p].entries| && p in shape
    requires Repairing(WithEntry(pages, p, at, key, child), shape, root, p, INVALID)
    ensures forall i :: 0 <= i < |pages[p].entries| ==> pages[p].entries[i].child in pages
  {
    var virtual := WithEntry(pages, p, at, key, child);
    assert NodeOk(virtual, shape, root, p, INVALID, p);
    var s, t := pages[p].entries, virtual[p].entries;
    forall i | 0 <= i < |s|
      ensures s[i].child in pages
    {
      var j := if i <= at then i else i + 1;
      assert t[j] == s[i];
      assert ChildOk(virtual, shape, p, t, j);
    }
  }
}

/** Well-formedness of the page graph of a B+ tree.

    Beside the page map stands a ghost `Shape`: for every page that is part of
    the tree its level (0 for leaves) and the half-open key interval it is
    responsible for.  Every condition is local to one page, its children and
    its neighbours; that the pages form one balanced search tree follows. */
module BTreeShape {
  import opened Common
  import opened BTreePages

  datatype Info = Info(level: nat, lo: Option<int>, hi: Option<int>)

  type Pages = map<PageId, Node>
  type Shape = map<PageId, Info>

  ghost predicate AtLeast(lo: Option<int>, k: int) {
    lo.Some? ==> lo.value <= k
  }

  ghost predicate Exceeds(lo: Option<int>, k: int) {
    lo.Some? ==> lo.value < k
  }

  ghost predicate Under(k: int, hi: Option<int>) {
    hi.Some? ==> k < hi.value
  }

  ghost predicate InRange(f: Info, k: int) {
    AtLeast(f.lo, k) && Under(k, f.hi)
  }

  ghost function ChildLo(f: Info, s: seq<InternalEntry>, i: nat): Option<int>
    requires i < |s|
  {
    if i == 0 then f.lo else Some(s[i].key)
  }

  ghost function ChildHi(f: Info, s: seq<InternalEntry>, i: nat): Option<int>
    requires i < |s|
  {
    if i + 1 == |s| then f.hi else Some(s[i + 1].key)
  }

  /** Child `i` of page `p` names `p` as its parent, is one level down and is
      responsible for exactly the keys between its two separators. */
  ghost predicate ChildOk(pages: Pages, shape: Shape, p: PageId, s: seq<InternalEntry>, i: nat)
    requires p in shape && i < |s|
  {
    var c := s[i].child;
    && c in shape && c in pages
    && pages[c].parent == p
    && shape[c].level + 1 == shape[p].level
    && shape[c].lo == ChildLo(shape[p], s, i)
    && shape[c].hi == ChildHi(shape[p], s, i)
  }

  ghost predicate SeparatorsOk(f: Info, s: seq<InternalEntry>) {
    && Ascending(s)
    && (forall i :: 1 <= i < |s| ==> Exceeds(f.lo, s[i].key) && Under(s[i].key, f.hi))
  }

  /** The sibling links of a leaf name the leaves that own the adjacent intervals. */
  ghost predicate ChainOk(pages: Pages, shape: Shape, p: PageId)
    requires p in pages && p in shape && pages[p].Leaf?
  {
    var n := pages[p];
    && (if shape[p].hi.None? then n.next == INVALID
        else
          && n.next in shape && n.next in pages && pages[n.next].Leaf?
          && shape[n.next].lo == shape[p].hi && pages[n.next].prev == p)
    && (if shape[p].lo.None? then n.prev == INVALID
        else
          && n.prev in shape && n.prev in pages && pages[n.prev].Leaf?
          && shape[n.prev].hi == shape[p].lo && pages[n.prev].next == p)
  }

  /** Occupancy.  `over` and `under` name the one page, if any, that a repair in
      progress still has to split or refill. */
  ghost predicate SizeOk(n: Node, root: PageId, over: PageId, under: PageId, p: PageId) {
    && SizeOf(n) <= MaxOf(n) + (if p == over then 1 else 0)
    && (if p == root then (if n.Leaf? || p == under then 1 else 2) <= SizeOf(n)
        else MinOf(n) <= SizeOf(n) + (if p == under then 1 else 0))
  }

  /** The root has no parent; any other page is a child of the page it names. */
  ghost predicate ParentOk(pages: Pages, shape: Shape, root: PageId, p: PageId)
    requires root in shape && p in pages && p in shape
  {
    if p == root then
      && pages[p].parent == INVALID
      && shape[p].lo.None? && shape[p].hi.None?
    else
      var q := pages[p].parent;
      && shape[p].level < shape[root].level
      && q in shape && q in pages && pages[q].Internal?
      && HasChild(pages[q].entries, p)
  }

  ghost predicate BodyOk(pages: Pages, shape: Shape, p: PageId)
    requires p in pages && p in shape
  {
    match pages[p]
    case Leaf(_, _, _, _, s) =>
      && shape[p].level == 0
      && Sorted(s)
      && (forall i :: 0 <= i < |s| ==> InRange(shape[p], s[i].key))
      && ChainOk(pages, shape, p)
    case Internal(_, _, s) =>
      && shape[p].level > 0
      && SeparatorsOk(shape[p], s)
      && (forall i :: 0 <= i < |s| ==> ChildOk(pages, shape, p, s, i))
  }

  ghost predicate NonEmptyRange(f: Info) {
    f.lo.Some? && f.hi.Some? ==> f.lo.value < f.hi.value
  }

  ghost predicate NodeOk(pages: Pages, shape: Shape, root: PageId, over: PageId, under: PageId, p: PageId)
    requires root in shape && p in shape
  {
    && p != INVALID
    && p in pages
    && pages[p].id == p
    && NonEmptyRange(shape[p])
    && SizeOk(pages[p], root, over, under, p)
    && ParentOk(pages, shape, root, p)
    && BodyOk(pages, shape, p)
  }

  ghost predicate Repairing(pages: Pages, shape: Shape, root: PageId, over: PageId, under: PageId) {
    && root in shape
    && (forall p {:trigger NodeOk(pages, shape, root, over, under, p)} ::
         p in shape ==> NodeOk(pages, shape, root, over, under, p))
  }

  /** The tree is well formed: no page is waiting for repair. */
  ghost predicate WellFormed(pages: Pages, shape: Shape, root: PageId) {
    Repairing(pages, shape, root, INVALID, INVALID)
  }

  /** Every entry of every leaf of the tree. */
  ghost function Stored(pages: Pages, shape: Shape): set<LeafEntry> {
    set p, e | p in shape && p in pages && pages[p].Leaf? && e in pages[p].leafEntries :: e
  }

  /** The entry set is the graph of the finite map `m`. */
  ghost predicate Represents(stored: set<LeafEntry>, m: map<int, RID>) {
    && (forall e :: e in stored ==> e.key in m && m[e.key] == e.rid)
    && (forall k :: k in m ==> LeafEntry(k, m[k]) in stored)
  }

  function Reparent(pages: Pages, ids: set<PageId>, parent: PageId): Pages {
    map q | q in pages :: if q in ids then pages[q].(parent := parent) else pages[q]
  }

  ghost function ChildSet(s: seq<InternalEntry>): set<PageId> {
    set i | 0 <= i < |s| :: s[i].child
  }

  // ---- Consequences ------------------------------------------------------

  /** Two children of one page that are responsible for a common key are one child. */
  lemma SameSlot(f: Info, s: seq<InternalEntry>, i: nat, j: nat, k: int)
    requires SeparatorsOk(f, s) && i < |s| && j < |s|
    requires AtLeast(ChildLo(f, s, i), k) && Under(k, ChildHi(f, s, i))
    requires AtLeast(ChildLo(f, s, j), k) && Under(k, ChildHi(f, s, j))
    ensures i == j
  {
  }

  /** On each level at most one page is responsible for a key. */
  lemma {:induction false} UniqueOwner(pages: Pages, shape: Shape, root: PageId, over: PageId, under: PageId,
                                       k: int, p: PageId, q: PageId)
    requires Repairing(pages, shape, root, over, under)
    requires p in shape && q in shape
    requires shape[p].level == shape[q].level
    requires InRange(shape[p], k) && InRange(shape[q], k)
    ensures p == q
    decreases shape[root].level - shape[p].level
  {
    assert NodeOk(pages, shape, root, over, under, p);
    assert NodeOk(pages, shape, root, over, under, q);
    if p != root && q != root {
      var pp, qq := pages[p].parent, pages[q].parent;
      assert NodeOk(pages, shape, root, over, under, pp);
      assert NodeOk(pages, shape, root, over, under, qq);
      var i :| 0 <= i < |pages[pp].entries| && pages[pp].entries[i].child == p;
      var j :| 0 <= j < |pages[qq].entries| && pages[qq].entries[j].child == q;
      assert ChildOk(pages, shape, pp, pages[pp].entries, i);
      assert ChildOk(pages, shape, qq, pages[qq].entries, j);
      WiderThanChild(shape[pp], pages[pp].entries, i, k);
      WiderThanChild(shape[qq], pages[qq].entries, j, k);
      assert shape[pp].level == shape[p].level + 1;
      assert shape[pp].level <= shape[root].level;
      UniqueOwner(pages, shape, root, over, under, k, pp, qq);
      SameSlot(shape[pp], pages[pp].entries, i, j, k);
    }
  }

  /** A page is responsible for everything its children are responsible for. */
  lemma WiderThanChild(f: Info, s: seq<InternalEntry>, i: nat, k: int)
    requires SeparatorsOk(f, s) && i < |s|
    requires AtLeast(ChildLo(f, s, i), k) && Under(k, ChildHi(f, s, i))
    ensures InRange(f, k)
  {
  }

  /** The child that routes a key is responsible for it. */
  lemma RoutedChild(f: Info, s: seq<InternalEntry>, i: nat, k: int)
    requires Routes(s, k, i) && InRange(f, k)
    ensures AtLeast(ChildLo(f, s, i), k) && Under(k, ChildHi(f, s, i))
  {
  }

  /** A key of the tree is stored in the one leaf that is responsible for it. */
  lemma KeyInItsLeaf(pages: Pages, shape: Shape, root: PageId, p: PageId, e: LeafEntry)
    requires WellFormed(pages, shape, root)
    requires e in Stored(pages, shape)
    requires p in shape && shape[p].level == 0 && InRange(shape[p], e.key)
    ensures p in pages && pages[p].Leaf? && e in pages[p].leafEntries
  {
    var q :| q in shape && q in pages && pages[q].Leaf? && e in pages[q].leafEntries;
    assert NodeOk(pages, shape, root, INVALID, INVALID, q);
    assert NodeOk(pages, shape, root, INVALID, INVALID, p);
    UniqueOwner(pages, shape, root, INVALID, INVALID, e.key, p, q);
  }

  /** No key is stored twice. */
  lemma KeysDistinct(pages: Pages, shape: Shape, root: PageId, d: LeafEntry, e: LeafEntry)
    requires WellFormed(pages, shape, root)
    requires d in Stored(pages, shape) && e in Stored(pages, shape) && d.key == e.key
    ensures d == e
  {
    var q :| q in shape && q in pages && pages[q].Leaf? && e in pages[q].leafEntries;
    assert NodeOk(pages, shape, root, INVALID, INVALID, q);
    KeyInItsLeaf(pages, shape, root, q, d);
  }

  /** The children of a page are pairwise distinct. */
  lemma DistinctChildren(pages: Pages, shape: Shape, p: PageId, s: seq<InternalEntry>, i: nat, j: nat)
    requires p in shape && SeparatorsOk(shape[p], s)
    requires i < |s| && j < |s| && s[i].child == s[j].child
    requires ChildOk(pages, shape, p, s, i) && ChildOk(pages, shape, p, s, j)
    ensures i == j
  {
  }

  lemma ChildrenApart(pages: Pages, shape: Shape, p: PageId, s: seq<InternalEntry>, i: nat, j: nat)
    requires p in shape && SeparatorsOk(shape[p], s)
    requires i < |s| && j < |s| && i != j
    requires ChildOk(pages, shape, p, s, i) && ChildOk(pages, shape, p, s, j)
    ensures s[i].child != s[j].child
  {
  }

  /** The slot that page `p` has in its parent. */
  ghost predicate IsSlot(pages: Pages, shape: Shape, p: PageId, parent: PageId, at: nat) {
    && p in pages && parent == pages[p].parent && parent in shape && parent in pages && parent != p
    && pages[parent].Internal? && at < |pages[parent].entries|
    && pages[parent].entries[at].child == p
  }

  /** A page below the root has a slot in its parent, one level up. */
  lemma SlotOf(pages: Pages, shape: Shape, root: PageId, over: PageId, under: PageId, p: PageId) returns (at: nat)
    requires Repairing(pages, shape, root, over, under) && p in shape && p != root
    ensures p in pages && IsSlot(pages, shape, p, pages[p].parent, at)
    ensures shape[pages[p].parent].level == shape[p].level + 1
    ensures pages[p].parent != INVALID
    ensures ChildOk(pages, shape, pages[p].parent, pages[pages[p].parent].entries, at)
  {
    assert NodeOk(pages, shape, root, over, under, p);
    var q := pages[p].parent;
    assert NodeOk(pages, shape, root, over, under, q);
    at :| 0 <= at < |pages[q].entries| && pages[q].entries[at].child == p;
    assert ChildOk(pages, shape, q, pages[q].entries, at);
  }

  /** The page that `n` parent pointers lead to. */
  ghost function Climb(pages: Pages, p: PageId, n: nat): PageId
    decreases n
  {
    if n == 0 then p else if p in pages then Climb(pages, pages[p].parent, n - 1) else INVALID
  }

  /** From every page the parent pointers lead to the root, in as many steps as its
      level is below that of the root. */
  lemma {:induction false} ParentsLeadToRoot(pages: Pages, shape: Shape, root: PageId, p: PageId)
    requires WellFormed(pages, shape, root) && p in shape
    ensures shape[p].level <= shape[root].level
    ensures Climb(pages, p, shape[root].level - shape[p].level) == root
    decreases shape[root].level - shape[p].level
  {
    assert NodeOk(pages, shape, root, INVALID, INVALID, p);
    if p != root {
      var at := SlotOf(pages, shape, root, INVALID, INVALID, p);
      ParentsLeadToRoot(pages, shape, root, pages[p].parent);
    }
  }

  /** All leaves are at the same distance from the root. */
  lemma LeavesAtOneDepth(pages: Pages, shape: Shape, root: PageId, p: PageId)
    requires WellFormed(pages, shape, root) && p in shape && p in pages
    ensures pages[p].Leaf? <==> shape[p].level == 0
    ensures pages[p].Leaf? ==> Climb(pages, p, shape[root].level) == root
  {
    assert NodeOk(pages, shape, root, INVALID, INVALID, p);
    ParentsLeadToRoot(pages, shape, root, p);
  }

  /** The stored entries depend on the leaf entries of the live pages only. */
  lemma SameLeaves(pages: Pages, shape: Shape, pages': Pages, shape': Shape)
    requires forall p :: p in shape && p in pages && pages[p].Leaf? ==>
      p in shape' && p in pages' && pages'[p].Leaf? && pages'[p].leafEntries == pages[p].leafEntries
    requires forall p :: p in shape' && p in pages' && pages'[p].Leaf? ==>
      p in shape && p in pages && pages[p].Leaf?
    ensures Stored(pages', shape') == Stored(pages, shape)
  {
  }

  lemma SortedConcat(s: seq<LeafEntry>, t: seq<LeafEntry>)
    ensures Sorted(s + t) <==>
      Sorted(s) && Sorted(t) && forall i, j :: 0 <= i < |s| && 0 <= j < |t| ==> s[i].key < t[j].key
  {
    var u := s + t;
    assert forall i :: 0 <= i < |s| ==> u[i] == s[i];
    assert forall i :: 0 <= i < |t| ==> u[|s| + i] == t[i];
    if Sorted(u) {
      forall i, j | 0 <= i < |t| && i < j < |t|
        ensures t[i].key < t[j].key
      {
        assert u[|s| + i].key < u[|s| + j].key;
      }
      forall i, j | 0 <= i < |s| && 0 <= j < |t|
        ensures s[i].key < t[j].key
      {
        assert u[i].key < u[|s| + j].key;
      }
    }
  }
}

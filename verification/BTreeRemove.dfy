/** What refilling, merging and shrinking do to the page graph. */
module BTreeRemove {
  import opened Common
  import opened BTreePages
  import opened BTreeShape

  /** Pages `a` and `b` are the children left and right of separator `j` of `p`. */
  ghost predicate Siblings(pages: Pages, shape: Shape, root: PageId, under: PageId,
                           p: PageId, j: nat, a: PageId, b: PageId)
  {
    && Repairing(pages, shape, root, INVALID, under)
    && p in shape && p in pages && pages[p].Internal?
    && 1 <= j < |pages[p].entries|
    && a == pages[p].entries[j - 1].child && b == pages[p].entries[j].child
    && (under == a || under == b)
  }

  lemma SiblingFacts(pages: Pages, shape: Shape, root: PageId, under: PageId, p: PageId, j: nat, a: PageId, b: PageId)
    requires Siblings(pages, shape, root, under, p, j, a, b)
    ensures a in shape && b in shape && a in pages && b in pages
    ensures a != b && a != p && b != p && a != root && b != root
    ensures pages[a].parent == p && pages[b].parent == p && pages[p].id == p && pages[a].id == a && pages[b].id == b
    ensures p != INVALID && a != INVALID && b != INVALID
    ensures shape[a].level == shape[b].level && shape[a].level + 1 == shape[p].level
    ensures shape[a].hi == shape[b].lo == Some(pages[p].entries[j].key)
    ensures pages[a].Leaf? <==> pages[b].Leaf?
    ensures NodeOk(pages, shape, root, INVALID, under, a) && NodeOk(pages, shape, root, INVALID, under, b)
    ensures NodeOk(pages, shape, root, INVALID, under, p)
  {
    var s := pages[p].entries;
    assert NodeOk(pages, shape, root, INVALID, under, p);
    assert ChildOk(pages, shape, p, s, j - 1);
    assert ChildOk(pages, shape, p, s, j);
    assert NodeOk(pages, shape, root, INVALID, under, a);
    assert NodeOk(pages, shape, root, INVALID, under, b);
    if a == b {
      DistinctChildren(pages, shape, p, s, j - 1, j);
    }
  }

  /** Sibling leaves are neighbours in the chain. */
  lemma SiblingLeavesLinked(pages: Pages, shape: Shape, root: PageId, under: PageId,
                            p: PageId, j: nat, a: PageId, b: PageId)
    requires Siblings(pages, shape, root, under, p, j, a, b) && a in pages && pages[a].Leaf?
    ensures b in pages && pages[b].Leaf? && pages[a].next == b && pages[b].prev == a
  {
    SiblingFacts(pages, shape, root, under, p, j, a, b);
    var n := pages[a].next;
    assert NodeOk(pages, shape, root, INVALID, under, n);
    UniqueOwner(pages, shape, root, INVALID, under, pages[p].entries[j].key, n, b);
  }

  // ---- Moving entries between siblings -----------------------------------

  ghost function RebalancedShape(shape: Shape, a: PageId, b: PageId, sep: int): Shape
    requires a in shape && b in shape
  {
    shape[a := shape[a].(hi := Some(sep))][b := shape[b].(lo := Some(sep))]
  }

  /** Only the siblings, their separator and the parents of their children changed. */
  ghost predicate RebalanceFrame(before: Pages, after: Pages, shape: Shape, p: PageId, j: nat,
                                 a: PageId, b: PageId, sep: int)
    requires p in before && before[p].Internal? && j < |before[p].entries|
    requires a in before && b in before
  {
    && p in after && a in after && b in after
    && after[p] == before[p].(entries := before[p].entries[j := before[p].entries[j].(key := sep)])
    && after[a].id == a && after[b].id == b && after[a].parent == p && after[b].parent == p
    && (before[a].Leaf? ==> after[a].Leaf? && after[a].prev == before[a].prev && after[a].next == before[a].next)
    && (before[b].Leaf? ==> after[b].Leaf? && after[b].prev == before[b].prev && after[b].next == before[b].next)
    && (forall q :: q in shape && q !in {p, a, b} && q in before ==>
        && q in after && after[q].(parent := before[q].parent) == before[q]
        && (before[q].parent !in {a, b} ==> after[q].parent == before[q].parent))
  }

  ghost predicate RebalanceBodies(before: Pages, after: Pages, shape: Shape, shape': Shape, a: PageId, b: PageId)
    requires shape'.Keys == shape.Keys
  {
    && (forall q :: q in {a, b} ==>
        && q in shape' && q in after && BodyOk(after, shape', q) && NonEmptyRange(shape'[q])
        && MinOf(after[q]) <= SizeOf(after[q]) <= MaxOf(after[q]))
    && (forall c {:trigger after[c].parent} :: c in shape && c in before && before[c].parent in {a, b} ==>
        && c in after && after[c].parent in {a, b} && after[c].parent in after
        && after[after[c].parent].Internal? && HasChild(after[after[c].parent].entries, c))
  }

  ghost predicate RebalanceDone(before: Pages, after: Pages, shape: Shape, root: PageId, under: PageId,
                                p: PageId, j: nat, a: PageId, b: PageId, sep: int)
  {
    && Siblings(before, shape, root, under, p, j, a, b)
    && a in shape && b in shape && a in before && b in before
    && RebalanceFrame(before, after, shape, p, j, a, b, sep)
    && RebalanceBodies(before, after, shape, RebalancedShape(shape, a, b, sep), a, b)
    && Exceeds(shape[a].lo, sep) && Under(sep, shape[b].hi)
  }

  lemma NewSeparator(f: Info, s: seq<InternalEntry>, j: nat, sep: int)
    requires SeparatorsOk(f, s) && 1 <= j < |s|
    requires Exceeds(ChildLo(f, s, j - 1), sep) && Under(sep, ChildHi(f, s, j))
    ensures SeparatorsOk(f, s[j := s[j].(key := sep)])
  {
  }

  /** The parent of two rebalanced siblings. */
  lemma RebalancedParent(before: Pages, after: Pages, shape: Shape, root: PageId, under: PageId,
                         p: PageId, j: nat, a: PageId, b: PageId, sep: int)
    requires RebalanceDone(before, after, shape, root, under, p, j, a, b, sep)
    ensures BodyOk(after, RebalancedShape(shape, a, b, sep), p)
  {
    SiblingFacts(before, shape, root, under, p, j, a, b);
    var s, t := before[p].entries, after[p].entries;
    var shape' := RebalancedShape(shape, a, b, sep);
    assert ChildOk(before, shape, p, s, j - 1) && ChildOk(before, shape, p, s, j);
    NewSeparator(shape[p], s, j, sep);
    forall i | 0 <= i < |t|
      ensures ChildOk(after, shape', p, t, i)
    {
      assert ChildOk(before, shape, p, s, i);
      if s[i].child == a {
        DistinctChildren(before, shape, p, s, i, j - 1);
      } else if s[i].child == b {
        DistinctChildren(before, shape, p, s, i, j);
      } else {
        assert NodeOk(before, shape, root, INVALID, under, s[i].child);
      }
    }
  }

  /** Any other page keeps its body. */
  lemma RebalanceBystander(before: Pages, after: Pages, shape: Shape, root: PageId, under: PageId,
                           p: PageId, j: nat, a: PageId, b: PageId, sep: int, q: PageId)
    requires RebalanceDone(before, after, shape, root, under, p, j, a, b, sep)
    requires q in shape && q !in {p, a, b}
    ensures q in after && BodyOk(after, RebalancedShape(shape, a, b, sep), q)
  {
    SiblingFacts(before, shape, root, under, p, j, a, b);
    assert NodeOk(before, shape, root, INVALID, under, q);
    var shape' := RebalancedShape(shape, a, b, sep);
    match before[q] {
      case Leaf(_, _, _, _, _) =>
        if before[a].Leaf? {
          SiblingLeavesLinked(before, shape, root, under, p, j, a, b);
        }
      case Internal(_, _, s) =>
        forall i | 0 <= i < |s|
          ensures ChildOk(after, shape', q, s, i)
        {
          assert ChildOk(before, shape, q, s, i);
        }
    }
  }

  /** Refilling a page from its sibling restores a well-formed tree. */
  lemma Rebalanced(before: Pages, after: Pages, shape: Shape, root: PageId, under: PageId,
                   p: PageId, j: nat, a: PageId, b: PageId, sep: int)
    requires RebalanceDone(before, after, shape, root, under, p, j, a, b, sep)
    ensures WellFormed(after, RebalancedShape(shape, a, b, sep), root)
  {
    SiblingFacts(before, shape, root, under, p, j, a, b);
    var shape' := RebalancedShape(shape, a, b, sep);
    var s, t := before[p].entries, after[p].entries;
    assert t[j - 1].child == a && t[j].child == b;
    RebalancedParent(before, after, shape, root, under, p, j, a, b, sep);
    forall q | q in shape'
      ensures NodeOk(after, shape', root, INVALID, INVALID, q)
    {
      assert NodeOk(before, shape, root, INVALID, under, q);
      if q == a || q == b {
        assert BodyOk(after, shape', q);
      } else {
        if q != p {
          RebalanceBystander(before, after, shape, root, under, p, j, a, b, sep, q);
        }
        if q != root {
          RebalancedLink(before, after, shape, root, under, p, j, a, b, sep, q);
        }
      }
    }
  }

  lemma RebalancedLink(before: Pages, after: Pages, shape: Shape, root: PageId, under: PageId,
                       p: PageId, j: nat, a: PageId, b: PageId, sep: int, q: PageId)
    requires RebalanceDone(before, after, shape, root, under, p, j, a, b, sep)
    requires q in shape && q !in {a, b} && q != root
    ensures q in after && ParentOk(after, RebalancedShape(shape, a, b, sep), root, q)
  {
    SiblingFacts(before, shape, root, under, p, j, a, b);
    var i := SlotOf(before, shape, root, INVALID, under, q);
    var r := before[q].parent;
    assert NodeOk(before, shape, root, INVALID, under, q);
    assert NodeOk(before, shape, root, INVALID, under, r);
    if r == p {
      assert after[p].entries[i].child == q;
    }
  }

  // ---- Leaves ------------------------------------------------------------

  function RebalancedLeaves(pages: Pages, p: PageId, j: nat, a: PageId, b: PageId,
                            left: seq<LeafEntry>, right: seq<LeafEntry>): Pages
    requires p in pages && pages[p].Internal? && j < |pages[p].entries| && 0 < |right|
    requires a in pages && b in pages && pages[a].Leaf? && pages[b].Leaf?
  {
    pages[a := pages[a].(leafEntries := left)]
         [b := pages[b].(leafEntries := right)]
         [p := pages[p].(entries := pages[p].entries[j := pages[p].entries[j].(key := right[0].key)])]
  }

  /** The entries of two sibling leaves, in order. */
  lemma JoinedLeaves(pages: Pages, shape: Shape, root: PageId, under: PageId, p: PageId, j: nat, a: PageId, b: PageId)
    requires Siblings(pages, shape, root, under, p, j, a, b) && a in pages && pages[a].Leaf?
    ensures b in pages && pages[b].Leaf? && a in shape && b in shape
    ensures Sorted(pages[a].leafEntries + pages[b].leafEntries)
    ensures forall e :: e in pages[a].leafEntries + pages[b].leafEntries ==>
      InRange(Info(0, shape[a].lo, shape[b].hi), e.key)
  {
    SiblingFacts(pages, shape, root, under, p, j, a, b);
    SortedConcat(pages[a].leafEntries, pages[b].leafEntries);
    assert forall e :: e in pages[a].leafEntries ==> InRange(shape[a], e.key);
    assert forall e :: e in pages[b].leafEntries ==> InRange(shape[b], e.key);
  }

  /** Moving the boundary between two sibling leaves. */
  lemma RebalanceLeaves(pages: Pages, shape: Shape, root: PageId, under: PageId, p: PageId, j: nat,
                        a: PageId, b: PageId, left: seq<LeafEntry>, right: seq<LeafEntry>)
    requires Siblings(pages, shape, root, under, p, j, a, b) && a in pages && pages[a].Leaf?
    requires b in pages && pages[b].Leaf? && a in shape && b in shape
    requires left + right == pages[a].leafEntries + pages[b].leafEntries
    requires LEAF_MIN <= |left| <= LEAF_MAX && LEAF_MIN <= |right| <= LEAF_MAX
    ensures WellFormed(RebalancedLeaves(pages, p, j, a, b, left, right),
                       RebalancedShape(shape, a, b, right[0].key), root)
  {
    var after := RebalancedLeaves(pages, p, j, a, b, left, right);
    var sep := right[0].key;
    var shape' := RebalancedShape(shape, a, b, sep);
    SiblingFacts(pages, shape, root, under, p, j, a, b);
    SiblingLeavesLinked(pages, shape, root, under, p, j, a, b);
    RebalancedLeafBodies(pages, shape, root, under, p, j, a, b, left, right);
    forall c | c in shape && c in pages
      ensures pages[c].parent !in {a, b}
    {
      NoLeafParent(pages, shape, root, under, a, c);
      NoLeafParent(pages, shape, root, under, b, c);
    }
    Rebalanced(pages, after, shape, root, under, p, j, a, b, sep);
  }

  lemma NoLeafParent(pages: Pages, shape: Shape, root: PageId, under: PageId, p: PageId, c: PageId)
    requires Repairing(pages, shape, root, INVALID, under) && p in shape && p in pages && pages[p].Leaf?
    requires c in shape && c in pages
    ensures pages[c].parent != p
  {
    assert NodeOk(pages, shape, root, INVALID, under, c);
    assert NodeOk(pages, shape, root, INVALID, under, p);
    if c != root {
      var at := SlotOf(pages, shape, root, INVALID, under, c);
    }
  }

  lemma RebalancedLeafBodies(pages: Pages, shape: Shape, root: PageId, under: PageId, p: PageId, j: nat,
                             a: PageId, b: PageId, left: seq<LeafEntry>, right: seq<LeafEntry>)
    requires Siblings(pages, shape, root, under, p, j, a, b) && a in pages && pages[a].Leaf?
    requires b in pages && pages[b].Leaf? && a in shape && b in shape && 0 < |left| && 0 < |right|
    requires left + right == pages[a].leafEntries + pages[b].leafEntries
    ensures Exceeds(shape[a].lo, right[0].key) && Under(right[0].key, shape[b].hi)
    ensures var after := RebalancedLeaves(pages, p, j, a, b, left, right);
      var shape' := RebalancedShape(shape, a, b, right[0].key);
      && BodyOk(after, shape', a) && NonEmptyRange(shape'[a])
      && BodyOk(after, shape', b) && NonEmptyRange(shape'[b])
  {
    SiblingFacts(pages, shape, root, under, p, j, a, b);
    SiblingLeavesLinked(pages, shape, root, under, p, j, a, b);
    JoinedLeaves(pages, shape, root, under, p, j, a, b);
    CutLeaves(Info(0, shape[a].lo, shape[b].hi), left, right);
  }

  /** A boundary anywhere in a sorted run of entries. */
  lemma CutLeaves(f: Info, left: seq<LeafEntry>, right: seq<LeafEntry>)
    requires Sorted(left + right) && (forall e :: e in left + right ==> InRange(f, e.key))
    requires 0 < |left| && 0 < |right|
    ensures Sorted(left) && Sorted(right) && Exceeds(f.lo, right[0].key) && Under(right[0].key, f.hi)
    ensures forall i :: 0 <= i < |left| ==> InRange(f.(hi := Some(right[0].key)), left[i].key)
    ensures forall i :: 0 <= i < |right| ==> InRange(f.(lo := Some(right[0].key)), right[i].key)
  {
    SortedConcat(left, right);
    assert forall i :: 0 <= i < |left| ==> left[i] in left + right;
    assert forall i :: 0 <= i < |right| ==> right[i] in left + right;
    assert left[0] in left + right && left[0].key < right[0].key;
  }

  // ---- Internal pages ----------------------------------------------------

  /** The entries of two siblings as one page: the separator between them comes
      down to the first child of the right one. */
  function Joined(left: seq<InternalEntry>, key: int, right: seq<InternalEntry>): (r: seq<InternalEntry>)
    requires 0 < |right|
    ensures |r| == |left| + |right|
  {
    left + [InternalEntry(key, right[0].child)] + right[1..]
  }

  /** What two sibling pages are responsible for together. */
  ghost function Span(shape: Shape, a: PageId, b: PageId): Info
    requires a in shape && b in shape
  {
    Info(shape[a].level, shape[a].lo, shape[b].hi)
  }

  ghost predicate SpanChild(pages: Pages, shape: Shape, f: Info, s: seq<InternalEntry>, i: nat)
    requires i < |s|
  {
    var c := s[i].child;
    && c in shape && c in pages
    && shape[c].level + 1 == f.level
    && shape[c].lo == ChildLo(f, s, i)
    && shape[c].hi == ChildHi(f, s, i)
  }

  ghost predicate InternalSiblings(pages: Pages, shape: Shape, root: PageId, under: PageId,
                                   p: PageId, j: nat, a: PageId, b: PageId)
  {
    && Siblings(pages, shape, root, under, p, j, a, b)
    && a in pages && b in pages && a in shape && b in shape
    && pages[a].Internal? && pages[b].Internal? && 0 < |pages[b].entries| && 0 < |pages[a].entries|
  }

  ghost function JoinedEntries(pages: Pages, p: PageId, j: nat, a: PageId, b: PageId): seq<InternalEntry>
    requires a in pages && b in pages && pages[a].Internal? && pages[b].Internal? && 0 < |pages[b].entries|
    requires p in pages && pages[p].Internal? && j < |pages[p].entries|
  {
    Joined(pages[a].entries, pages[p].entries[j].key, pages[b].entries)
  }

  lemma JoinedSeparators(f: Info, g: Info, left: seq<InternalEntry>, key: int, right: seq<InternalEntry>)
    requires SeparatorsOk(f, left) && SeparatorsOk(g, right) && 0 < |right| && 0 < |left|
    requires f.hi == g.lo == Some(key) && NonEmptyRange(f) && NonEmptyRange(g) && f.level == g.level
    ensures SeparatorsOk(Info(f.level, f.lo, g.hi), Joined(left, key, right))
  {
    var s := Joined(left, key, right);
    assert forall i :: 0 <= i < |left| ==> s[i] == left[i];
    assert forall i :: 1 <= i < |right| ==> s[|left| + i] == right[i];
    assert s[|left|].key == key;
  }

  lemma JoinedChild(pages: Pages, shape: Shape, root: PageId, under: PageId,
                    p: PageId, j: nat, a: PageId, b: PageId, i: nat)
    requires InternalSiblings(pages, shape, root, under, p, j, a, b)
    requires i < |pages[a].entries| + |pages[b].entries|
    ensures SpanChild(pages, shape, Span(shape, a, b), JoinedEntries(pages, p, j, a, b), i)
    ensures pages[JoinedEntries(pages, p, j, a, b)[i].child].parent == if i < |pages[a].entries| then a else b
  {
    SiblingFacts(pages, shape, root, under, p, j, a, b);
    var left, right := pages[a].entries, pages[b].entries;
    if i < |left| {
      assert ChildOk(pages, shape, a, left, i);
    } else {
      assert ChildOk(pages, shape, b, right, i - |left|);
      assert i > |left| ==> JoinedEntries(pages, p, j, a, b)[i] == right[i - |left|];
    }
  }

  lemma JoinedOk(pages: Pages, shape: Shape, root: PageId, under: PageId, p: PageId, j: nat, a: PageId, b: PageId)
    requires InternalSiblings(pages, shape, root, under, p, j, a, b)
    ensures SeparatorsOk(Span(shape, a, b), JoinedEntries(pages, p, j, a, b))
    ensures forall i :: 0 <= i < |JoinedEntries(pages, p, j, a, b)| ==>
      SpanChild(pages, shape, Span(shape, a, b), JoinedEntries(pages, p, j, a, b), i)
  {
    SiblingFacts(pages, shape, root, under, p, j, a, b);
    JoinedSeparators(shape[a], shape[b], pages[a].entries, pages[p].entries[j].key, pages[b].entries);
    forall i | 0 <= i < |JoinedEntries(pages, p, j, a, b)|
      ensures SpanChild(pages, shape, Span(shape, a, b), JoinedEntries(pages, p, j, a, b), i)
    {
      JoinedChild(pages, shape, root, under, p, j, a, b, i);
    }
  }

  /** Cutting the joined entries of two siblings elsewhere. */
  lemma CutJoined(f: Info, s: seq<InternalEntry>, left: seq<InternalEntry>, sep: int, right: seq<InternalEntry>)
    requires SeparatorsOk(f, s) && 0 < |left| && 0 < |right| && s == Joined(left, sep, right)
    ensures SeparatorsOk(f.(hi := Some(sep)), left) && SeparatorsOk(f.(lo := Some(sep)), right)
    ensures Exceeds(f.lo, sep) && Under(sep, f.hi)
    ensures forall i :: 0 <= i < |left| ==>
      && left[i].child == s[i].child
      && ChildLo(f.(hi := Some(sep)), left, i) == ChildLo(f, s, i)
      && ChildHi(f.(hi := Some(sep)), left, i) == ChildHi(f, s, i)
    ensures forall i :: 0 <= i < |right| ==>
      && right[i].child == s[|left| + i].child
      && ChildLo(f.(lo := Some(sep)), right, i) == ChildLo(f, s, |left| + i)
      && ChildHi(f.(lo := Some(sep)), right, i) == ChildHi(f, s, |left| + i)
  {
    assert forall i :: 0 <= i < |left| ==> s[i] == left[i];
    assert forall i :: 1 <= i < |right| ==> s[|left| + i] == right[i];
    assert s[|left|].key == sep && s[|left|].child == right[0].child;
  }

  /** Two siblings after child `moved` went over to page `t`. */
  function RebalancedInternals(pages: Pages, p: PageId, j: nat, a: PageId, b: PageId,
                               left: seq<InternalEntry>, sep: int, right: seq<InternalEntry>,
                               moved: PageId, t: PageId): Pages
    requires p in pages && pages[p].Internal? && j < |pages[p].entries| && moved in pages
    requires a in pages && b in pages && pages[a].Internal? && pages[b].Internal?
  {
    pages[moved := pages[moved].(parent := t)]
         [a := pages[a].(entries := left)]
         [b := pages[b].(entries := right)]
         [p := pages[p].(entries := pages[p].entries[j := pages[p].entries[j].(key := sep)])]
  }

  /** One child, the one at the boundary, goes to the other sibling. */
  ghost predicate OneMoved(pages: Pages, p: PageId, j: nat, a: PageId, b: PageId,
                           left: seq<InternalEntry>, sep: int, right: seq<InternalEntry>,
                           moved: PageId, t: PageId)
    requires a in pages && b in pages && pages[a].Internal? && pages[b].Internal? && 0 < |pages[b].entries|
    requires p in pages && pages[p].Internal? && j < |pages[p].entries|
  {
    && 0 < |left| && 0 < |right| && 0 < |pages[a].entries|
    && Joined(left, sep, right) == JoinedEntries(pages, p, j, a, b)
    && (|| (|left| == |pages[a].entries| - 1 && t == b && moved == pages[a].entries[|left|].child)
        || (|left| == |pages[a].entries| + 1 && t == a && moved == pages[b].entries[0].child))
  }

  lemma SpanChildrenDistinct(pages: Pages, shape: Shape, f: Info, s: seq<InternalEntry>, i: nat, k: nat)
    requires SeparatorsOk(f, s) && i < |s| && k < |s|
    requires SpanChild(pages, shape, f, s, i) && SpanChild(pages, shape, f, s, k)
    requires s[i].child == s[k].child
    ensures i == k
  {
  }

  /** After the move every joined child names the sibling it is in. */
  lemma MovedParents(pages: Pages, shape: Shape, root: PageId, under: PageId, p: PageId, j: nat, a: PageId, b: PageId,
                     left: seq<InternalEntry>, sep: int, right: seq<InternalEntry>, moved: PageId, t: PageId, i: nat)
    requires InternalSiblings(pages, shape, root, under, p, j, a, b)
    requires OneMoved(pages, p, j, a, b, left, sep, right, moved, t) && moved in pages
    requires i < |left| + |right|
    ensures var after := RebalancedInternals(pages, p, j, a, b, left, sep, right, moved, t);
      var c := JoinedEntries(pages, p, j, a, b)[i].child;
      && c in pages && c in shape && c !in {p, a, b} && shape[c].level < shape[a].level
      && after[c] == pages[c].(parent := if i < |left| then a else b)
  {
    SiblingFacts(pages, shape, root, under, p, j, a, b);
    JoinedOk(pages, shape, root, under, p, j, a, b);
    var s := JoinedEntries(pages, p, j, a, b);
    var m := if t == b then |left| else |pages[a].entries|;
    assert s[m].child == moved;
    JoinedChild(pages, shape, root, under, p, j, a, b, i);
    JoinedChild(pages, shape, root, under, p, j, a, b, m);
    if s[i].child == moved {
      SpanChildrenDistinct(pages, shape, Span(shape, a, b), s, i, m);
    }
  }

  lemma RebalancedInternalBodies(pages: Pages, shape: Shape, root: PageId, under: PageId, p: PageId, j: nat,
                                 a: PageId, b: PageId, left: seq<InternalEntry>, sep: int, right: seq<InternalEntry>,
                                 moved: PageId, t: PageId)
    requires InternalSiblings(pages, shape, root, under, p, j, a, b)
    requires OneMoved(pages, p, j, a, b, left, sep, right, moved, t) && moved in pages
    ensures var after := RebalancedInternals(pages, p, j, a, b, left, sep, right, moved, t);
      var shape' := RebalancedShape(shape, a, b, sep);
      && after[a].Internal? && after[b].Internal? && after[a].entries == left && after[b].entries == right
      && BodyOk(after, shape', a) && NonEmptyRange(shape'[a])
      && BodyOk(after, shape', b) && NonEmptyRange(shape'[b])
    ensures Exceeds(shape[a].lo, sep) && Under(sep, shape[b].hi)
  {
    SiblingFacts(pages, shape, root, under, p, j, a, b);
    JoinedOk(pages, shape, root, under, p, j, a, b);
    CutJoined(Span(shape, a, b), JoinedEntries(pages, p, j, a, b), left, sep, right);
    RebalancedChildren(pages, shape, root, under, p, j, a, b, left, sep, right, moved, t);
  }

  lemma RebalancedChildren(pages: Pages, shape: Shape, root: PageId, under: PageId, p: PageId, j: nat,
                           a: PageId, b: PageId, left: seq<InternalEntry>, sep: int, right: seq<InternalEntry>,
                           moved: PageId, t: PageId)
    requires InternalSiblings(pages, shape, root, under, p, j, a, b)
    requires OneMoved(pages, p, j, a, b, left, sep, right, moved, t) && moved in pages
    ensures var after := RebalancedInternals(pages, p, j, a, b, left, sep, right, moved, t);
      var shape' := RebalancedShape(shape, a, b, sep);
      && (forall i :: 0 <= i < |left| ==> ChildOk(after, shape', a, left, i))
      && (forall i :: 0 <= i < |right| ==> ChildOk(after, shape', b, right, i))
  {
    var after := RebalancedInternals(pages, p, j, a, b, left, sep, right, moved, t);
    var shape' := RebalancedShape(shape, a, b, sep);
    SiblingFacts(pages, shape, root, under, p, j, a, b);
    JoinedOk(pages, shape, root, under, p, j, a, b);
    var f, s := Span(shape, a, b), JoinedEntries(pages, p, j, a, b);
    forall i | 0 <= i < |left|
      ensures ChildOk(after, shape', a, left, i)
    {
      MovedParents(pages, shape, root, under, p, j, a, b, left, sep, right, moved, t, i);
      RebalancedChild(pages, after, shape, a, b, f, s, left, sep, right, i);
    }
    forall i | 0 <= i < |right|
      ensures ChildOk(after, shape', b, right, i)
    {
      MovedParents(pages, shape, root, under, p, j, a, b, left, sep, right, moved, t, |left| + i);
      RebalancedChild(pages, after, shape, a, b, f, s, left, sep, right, |left| + i);
    }
  }

  /** A child of the two siblings belongs to one of them on either side of the boundary. */
  lemma RebalancedChild(pages: Pages, after: Pages, shape: Shape, a: PageId, b: PageId, f: Info, s: seq<InternalEntry>,
                        left: seq<InternalEntry>, sep: int, right: seq<InternalEntry>, i: nat)
    requires 0 < |left| && 0 < |right| && s == Joined(left, sep, right) && SeparatorsOk(f, s) && i < |s|
    requires a in shape && b in shape && a != b && f == Span(shape, a, b) && shape[a].level == shape[b].level == f.level
    requires SpanChild(pages, shape, f, s, i) && s[i].child in after && s[i].child !in {a, b}
    requires after[s[i].child].parent == if i < |left| then a else b
    ensures if i < |left| then ChildOk(after, RebalancedShape(shape, a, b, sep), a, left, i)
            else ChildOk(after, RebalancedShape(shape, a, b, sep), b, right, i - |left|)
  {
    CutJoined(f, s, left, sep, right);
  }

  /** Moving the boundary between two sibling internal pages by one child. */
  lemma RebalanceInternals(pages: Pages, shape: Shape, root: PageId, under: PageId, p: PageId, j: nat,
                           a: PageId, b: PageId, left: seq<InternalEntry>, sep: int, right: seq<InternalEntry>,
                           moved: PageId, t: PageId)
    requires InternalSiblings(pages, shape, root, under, p, j, a, b)
    requires OneMoved(pages, p, j, a, b, left, sep, right, moved, t) && moved in pages
    requires INTERNAL_MIN <= |left| <= INTERNAL_MAX && INTERNAL_MIN <= |right| <= INTERNAL_MAX
    ensures WellFormed(RebalancedInternals(pages, p, j, a, b, left, sep, right, moved, t),
                       RebalancedShape(shape, a, b, sep), root)
  {
    var after := RebalancedInternals(pages, p, j, a, b, left, sep, right, moved, t);
    SiblingFacts(pages, shape, root, under, p, j, a, b);
    RebalancedInternalBodies(pages, shape, root, under, p, j, a, b, left, sep, right, moved, t);
    var m := if t == b then |left| else |pages[a].entries|;
    MovedParents(pages, shape, root, under, p, j, a, b, left, sep, right, moved, t, m);
    JoinedChild(pages, shape, root, under, p, j, a, b, m);
    assert moved == JoinedEntries(pages, p, j, a, b)[m].child;
    forall c | c in shape && c in pages && pages[c].parent in {a, b}
      ensures after[c].parent in {a, b} && HasChild(after[after[c].parent].entries, c)
    {
      MovedLink(pages, shape, root, under, p, j, a, b, left, sep, right, moved, t, c);
    }
    Rebalanced(pages, after, shape, root, under, p, j, a, b, sep);
  }

  lemma MovedLink(pages: Pages, shape: Shape, root: PageId, under: PageId, p: PageId, j: nat, a: PageId, b: PageId,
                  left: seq<InternalEntry>, sep: int, right: seq<InternalEntry>, moved: PageId, t: PageId, c: PageId)
    requires InternalSiblings(pages, shape, root, under, p, j, a, b)
    requires OneMoved(pages, p, j, a, b, left, sep, right, moved, t) && moved in pages
    requires c in shape && c in pages && pages[c].parent in {a, b}
    ensures var after := RebalancedInternals(pages, p, j, a, b, left, sep, right, moved, t);
      after[c].parent in {a, b} && HasChild(after[after[c].parent].entries, c)
  {
    var after := RebalancedInternals(pages, p, j, a, b, left, sep, right, moved, t);
    SiblingFacts(pages, shape, root, under, p, j, a, b);
    var s := JoinedEntries(pages, p, j, a, b);
    assert NodeOk(pages, shape, root, INVALID, under, c);
    var i := SlotOf(pages, shape, root, INVALID, under, c);
    var k := if pages[c].parent == a then i else |pages[a].entries| + i;
    assert s[k].child == c;
    MovedParents(pages, shape, root, under, p, j, a, b, left, sep, right, moved, t, k);
    if k < |left| {
      assert after[a].entries[k].child == c;
    } else {
      assert after[b].entries[k - |left|].child == c;
    }
  }

  // ---- Merging siblings --------------------------------------------------

  ghost function MergedShape(shape: Shape, a: PageId, b: PageId): Shape
    requires a in shape && b in shape
  {
    (shape - {b})[a := Span(shape, a, b)]
  }

  /** Page `b` goes away; its children and its right neighbour in the chain turn to `a`. */
  ghost predicate MergeFrame(before: Pages, after: Pages, shape: Shape, p: PageId, j: nat, a: PageId, b: PageId)
    requires p in before && before[p].Internal? && j < |before[p].entries|
  {
    && p in after && after[p] == before[p].(entries := RemoveAt(before[p].entries, j))
    && a in after && after[a].id == a && after[a].parent == p
    && (forall q :: q in shape && q !in {p, a, b} && q in before ==>
        && q in after && after[q].id == before[q].id
        && (before[q].Internal? ==> after[q].Internal? && after[q].entries == before[q].entries)
        && (before[q].Leaf? ==> after[q].Leaf? && after[q].leafEntries == before[q].leafEntries)
        && (before[q].parent !in {a, b} ==> after[q].parent == before[q].parent))
  }

  ghost predicate MergeBodies(before: Pages, after: Pages, shape: Shape, shape': Shape, a: PageId, b: PageId) {
    && a in shape' && a in after && BodyOk(after, shape', a) && NonEmptyRange(shape'[a])
    && MinOf(after[a]) <= SizeOf(after[a]) <= MaxOf(after[a])
    && (forall q {:trigger BodyOk(after, shape', q)} ::
        q in shape && q !in {a, b} && q in before && before[q].Leaf? ==>
        q in after && q in shape' && BodyOk(after, shape', q))
    && (forall c {:trigger after[c].parent} :: c in shape && c in before && before[c].parent in {a, b} ==>
        && c in after && after[c].parent == a && after[a].Internal? && HasChild(after[a].entries, c))
  }

  ghost predicate MergeDone(before: Pages, after: Pages, shape: Shape, root: PageId, under: PageId,
                            p: PageId, j: nat, a: PageId, b: PageId)
  {
    && Siblings(before, shape, root, under, p, j, a, b) && a in shape && b in shape && a != b
    && MergeFrame(before, after, shape, p, j, a, b)
    && MergeBodies(before, after, shape, MergedShape(shape, a, b), a, b)
  }

  /** An entry behind a removed separator, and the interval of its child. */
  lemma RemovedEntry(f: Info, s: seq<InternalEntry>, j: nat, i: nat)
    requires 1 <= j < |s| && i < |s| - 1
    ensures var t, k := RemoveAt(s, j), if i < j then i else i + 1;
      && t[i] == s[k] && ChildLo(f, t, i) == ChildLo(f, s, k)
      && ChildHi(f, t, i) == ChildHi(f, s, if i + 1 == j then j else k)
  {
    var t := RemoveAt(s, j);
    if i + 1 < |t| {
      assert t[i + 1] == s[if i + 1 < j then i + 1 else i + 2];
    }
  }

  lemma RemovedSeparator(f: Info, s: seq<InternalEntry>, j: nat)
    requires SeparatorsOk(f, s) && 1 <= j < |s|
    ensures SeparatorsOk(f, RemoveAt(s, j))
  {
    var t := RemoveAt(s, j);
    assert forall i :: 0 <= i < j ==> t[i] == s[i];
    assert forall i :: j <= i < |t| ==> t[i] == s[i + 1];
    forall i | 1 <= i < |t|
      ensures Exceeds(f.lo, t[i].key) && Under(t[i].key, f.hi)
      ensures forall k :: 1 <= k < i ==> t[k].key < t[i].key
    {
      assert t[i] == s[if i < j then i else i + 1];
    }
  }

  /** The other children of the parent stay as they were. */
  lemma MergeKeepsChild(before: Pages, after: Pages, shape: Shape, root: PageId, under: PageId,
                        p: PageId, j: nat, a: PageId, b: PageId, c: PageId)
    requires MergeDone(before, after, shape, root, under, p, j, a, b)
    requires c in shape && c in before && c !in {a, b} && before[c].parent == p && c != p
    ensures c in after && after[c].parent == p && c in MergedShape(shape, a, b) && MergedShape(shape, a, b)[c] == shape[c]
  {
    SiblingFacts(before, shape, root, under, p, j, a, b);
  }

  /** A child of the merged parent: the merged page itself, or one that stays as it was. */
  lemma MergedParentChild(before: Pages, after: Pages, shape: Shape, root: PageId, under: PageId,
                          p: PageId, j: nat, a: PageId, b: PageId, i: nat)
    requires MergeDone(before, after, shape, root, under, p, j, a, b)
    requires i < |before[p].entries| - 1
    ensures p in MergedShape(shape, a, b) && ChildOk(after, MergedShape(shape, a, b), p, after[p].entries, i)
  {
    SiblingFacts(before, shape, root, under, p, j, a, b);
    var s, k := before[p].entries, if i < j then i else i + 1;
    RemovedEntry(shape[p], s, j, i);
    assert ChildOk(before, shape, p, s, j - 1) && ChildOk(before, shape, p, s, j) && ChildOk(before, shape, p, s, k);
    if i + 1 != j {
      ChildrenApart(before, shape, p, s, k, j - 1);
      ChildrenApart(before, shape, p, s, k, j);
      MergeKeepsChild(before, after, shape, root, under, p, j, a, b, s[k].child);
    }
  }

  lemma MergedParent(before: Pages, after: Pages, shape: Shape, root: PageId, under: PageId,
                     p: PageId, j: nat, a: PageId, b: PageId)
    requires MergeDone(before, after, shape, root, under, p, j, a, b)
    ensures p in MergedShape(shape, a, b) && BodyOk(after, MergedShape(shape, a, b), p)
  {
    SiblingFacts(before, shape, root, under, p, j, a, b);
    RemovedSeparator(shape[p], before[p].entries, j);
    forall i | 0 <= i < |after[p].entries|
      ensures ChildOk(after, MergedShape(shape, a, b), p, after[p].entries, i)
    {
      MergedParentChild(before, after, shape, root, under, p, j, a, b, i);
    }
  }

  lemma MergeBystander(before: Pages, after: Pages, shape: Shape, root: PageId, under: PageId,
                       p: PageId, j: nat, a: PageId, b: PageId, q: PageId)
    requires MergeDone(before, after, shape, root, under, p, j, a, b)
    requires q in shape && q !in {p, a, b}
    ensures q in after && q in MergedShape(shape, a, b) && BodyOk(after, MergedShape(shape, a, b), q)
  {
    SiblingFacts(before, shape, root, under, p, j, a, b);
    var shape' := MergedShape(shape, a, b);
    assert NodeOk(before, shape, root, INVALID, under, q);
    if before[q].Leaf? {
      assert BodyOk(after, shape', q);
    } else {
      var s := before[q].entries;
      forall i | 0 <= i < |s|
        ensures ChildOk(after, shape', q, s, i)
      {
        assert ChildOk(before, shape, q, s, i);
      }
    }
  }

  lemma StillListed(s: seq<InternalEntry>, j: nat, i: nat)
    requires i < |s| && j < |s| && i != j
    ensures HasChild(RemoveAt(s, j), s[i].child)
  {
    assert RemoveAt(s, j)[if i < j then i else i - 1].child == s[i].child;
  }

  lemma MergedLink(before: Pages, after: Pages, shape: Shape, root: PageId, under: PageId,
                   p: PageId, j: nat, a: PageId, b: PageId, q: PageId)
    requires MergeDone(before, after, shape, root, under, p, j, a, b)
    requires q in shape && q !in {a, b} && q != root
    ensures root in MergedShape(shape, a, b) && q in after && ParentOk(after, MergedShape(shape, a, b), root, q)
  {
    SiblingFacts(before, shape, root, under, p, j, a, b);
    var i := SlotOf(before, shape, root, INVALID, under, q);
    var r := before[q].parent;
    assert NodeOk(before, shape, root, INVALID, under, q);
    assert NodeOk(before, shape, root, INVALID, under, r);
    if r == p {
      StillListed(before[p].entries, j, i);
    } else if r == a || r == b {
      assert after[q].parent == a && HasChild(after[a].entries, q);
    } else {
      assert after[r].entries == before[r].entries;
    }
  }

  /** Merging leaves at most the parent underfull. */
  lemma Merged(before: Pages, after: Pages, shape: Shape, root: PageId, under: PageId,
               p: PageId, j: nat, a: PageId, b: PageId)
    requires MergeDone(before, after, shape, root, under, p, j, a, b)
    ensures Repairing(after, MergedShape(shape, a, b), root, INVALID, p)
  {
    SiblingFacts(before, shape, root, under, p, j, a, b);
    var shape' := MergedShape(shape, a, b);
    MergedParent(before, after, shape, root, under, p, j, a, b);
    assert after[p].entries[j - 1].child == a;
    forall q | q in shape'
      ensures NodeOk(after, shape', root, INVALID, p, q)
    {
      assert NodeOk(before, shape, root, INVALID, under, q);
      if q != a {
        if q != p {
          MergeBystander(before, after, shape, root, under, p, j, a, b, q);
        }
        if q != root {
          MergedLink(before, after, shape, root, under, p, j, a, b, q);
        }
      }
    }
  }

  function MergedLeafPages(pages: Pages, p: PageId, j: nat, a: PageId, b: PageId): Pages
    requires p in pages && pages[p].Internal? && j < |pages[p].entries|
    requires a in pages && b in pages && pages[a].Leaf? && pages[b].Leaf?
    requires pages[b].next != INVALID ==> pages[b].next in pages && pages[pages[b].next].Leaf?
  {
    var n := pages[b].next;
    var merged := pages[a := pages[a].(leafEntries := pages[a].leafEntries + pages[b].leafEntries, next := n)]
                       [b := pages[b].(leafEntries := [])]
                       [p := pages[p].(entries := RemoveAt(pages[p].entries, j))];
    if n == INVALID then merged else merged[n := pages[n].(prev := a)]
  }

  /** The right neighbour of the right sibling. */
  lemma NextOfSibling(pages: Pages, shape: Shape, root: PageId, under: PageId, p: PageId, j: nat, a: PageId, b: PageId)
    requires Siblings(pages, shape, root, under, p, j, a, b) && a in pages && pages[a].Leaf?
    ensures b in pages && pages[b].Leaf? && b in shape
    ensures pages[b].next == INVALID <==> shape[b].hi.None?
    ensures pages[b].next != INVALID ==>
      var n := pages[b].next;
      && n in pages && n in shape && pages[n].Leaf? && n !in {a, b, p}
      && pages[n].prev == b && shape[n].lo == shape[b].hi
  {
    SiblingFacts(pages, shape, root, under, p, j, a, b);
    SiblingLeavesLinked(pages, shape, root, under, p, j, a, b);
    if shape[b].hi.Some? {
      assert NodeOk(pages, shape, root, INVALID, under, pages[b].next);
    }
  }

  lemma MergedLeafBody(pages: Pages, shape: Shape, root: PageId, under: PageId, p: PageId, j: nat, a: PageId, b: PageId)
    requires Siblings(pages, shape, root, under, p, j, a, b) && a in pages && pages[a].Leaf?
    requires b in pages && pages[b].Leaf? && a in shape && b in shape
    requires pages[b].next != INVALID ==> pages[b].next in pages && pages[pages[b].next].Leaf?
    ensures a in MergedShape(shape, a, b) && BodyOk(MergedLeafPages(pages, p, j, a, b), MergedShape(shape, a, b), a)
    ensures NonEmptyRange(MergedShape(shape, a, b)[a])
  {
    SiblingFacts(pages, shape, root, under, p, j, a, b);
    NextOfSibling(pages, shape, root, under, p, j, a, b);
    JoinedLeaves(pages, shape, root, under, p, j, a, b);
    SiblingLeavesLinked(pages, shape, root, under, p, j, a, b);
    var s := pages[a].leafEntries + pages[b].leafEntries;
    forall i | 0 <= i < |s|
      ensures InRange(Span(shape, a, b), s[i].key)
    {
      assert s[i] in s;
    }
  }

  lemma MergedOtherLeaf(pages: Pages, shape: Shape, root: PageId, under: PageId, p: PageId, j: nat,
                        a: PageId, b: PageId, q: PageId)
    requires Siblings(pages, shape, root, under, p, j, a, b) && a in pages && pages[a].Leaf?
    requires b in pages && pages[b].Leaf? && a in shape && b in shape
    requires pages[b].next != INVALID ==> pages[b].next in pages && pages[pages[b].next].Leaf?
    requires q in shape && q in pages && pages[q].Leaf? && q !in {a, b}
    ensures q in MergedShape(shape, a, b) && BodyOk(MergedLeafPages(pages, p, j, a, b), MergedShape(shape, a, b), q)
  {
    SiblingFacts(pages, shape, root, under, p, j, a, b);
    NextOfSibling(pages, shape, root, under, p, j, a, b);
    SiblingLeavesLinked(pages, shape, root, under, p, j, a, b);
    assert NodeOk(pages, shape, root, INVALID, under, q);
    if shape[q].hi.Some? {
      assert NodeOk(pages, shape, root, INVALID, under, pages[q].next);
    }
  }

  /** Merging two sibling leaves. */
  lemma MergeLeaves(pages: Pages, shape: Shape, root: PageId, under: PageId, p: PageId, j: nat, a: PageId, b: PageId)
    requires Siblings(pages, shape, root, under, p, j, a, b) && a in pages && pages[a].Leaf?
    requires b in pages && pages[b].Leaf?
    requires LEAF_MIN <= |pages[a].leafEntries| + |pages[b].leafEntries| <= LEAF_MAX
    ensures a in shape && b in shape
    ensures pages[b].next != INVALID ==> pages[b].next in pages && pages[pages[b].next].Leaf?
    ensures Repairing(MergedLeafPages(pages, p, j, a, b), MergedShape(shape, a, b), root, INVALID, p)
  {
    SiblingFacts(pages, shape, root, under, p, j, a, b);
    NextOfSibling(pages, shape, root, under, p, j, a, b);
    var after, shape' := MergedLeafPages(pages, p, j, a, b), MergedShape(shape, a, b);
    MergedLeafBody(pages, shape, root, under, p, j, a, b);
    forall q | q in shape && q !in {a, b} && q in pages && pages[q].Leaf?
      ensures q in after && q in shape' && BodyOk(after, shape', q)
    {
      MergedOtherLeaf(pages, shape, root, under, p, j, a, b, q);
    }
    forall c | c in shape && c in pages
      ensures pages[c].parent !in {a, b}
    {
      NoLeafParent(pages, shape, root, under, a, c);
      NoLeafParent(pages, shape, root, under, b, c);
    }
    Merged(pages, after, shape, root, under, p, j, a, b);
  }

  ghost function MergedInternalPages(pages: Pages, p: PageId, j: nat, a: PageId, b: PageId): Pages
    requires p in pages && pages[p].Internal? && j < |pages[p].entries|
    requires a in pages && b in pages && pages[a].Internal? && pages[b].Internal? && 0 < |pages[b].entries|
  {
    var s := JoinedEntries(pages, p, j, a, b);
    Reparent(pages, ChildSet(s[|pages[a].entries|..]), a)
      [a := pages[a].(entries := s)]
      [b := pages[b].(entries := [])]
      [p := pages[p].(entries := RemoveAt(pages[p].entries, j))]
  }

  /** After merging, every joined child names the merged page. */
  lemma MergedChild(pages: Pages, shape: Shape, root: PageId, under: PageId, p: PageId, j: nat,
                    a: PageId, b: PageId, i: nat)
    requires InternalSiblings(pages, shape, root, under, p, j, a, b)
    requires i < |pages[a].entries| + |pages[b].entries|
    ensures ChildOk(MergedInternalPages(pages, p, j, a, b), MergedShape(shape, a, b), a,
                    JoinedEntries(pages, p, j, a, b), i)
  {
    var s := JoinedEntries(pages, p, j, a, b);
    SiblingFacts(pages, shape, root, under, p, j, a, b);
    JoinedChild(pages, shape, root, under, p, j, a, b, i);
    if i >= |pages[a].entries| {
      assert s[|pages[a].entries|..][i - |pages[a].entries|] == s[i];
    }
  }

  lemma MergedInternalOther(pages: Pages, shape: Shape, root: PageId, under: PageId, p: PageId, j: nat,
                            a: PageId, b: PageId, c: PageId)
    requires InternalSiblings(pages, shape, root, under, p, j, a, b)
    requires c in shape && c in pages && c !in {a, b}
    ensures var after := MergedInternalPages(pages, p, j, a, b);
      && c in after && c in MergedShape(shape, a, b)
      && (pages[c].parent in {a, b} ==> after[c].parent == a && HasChild(after[a].entries, c))
      && (pages[c].parent !in {a, b} ==> after[c].parent == pages[c].parent)
      && (pages[c].Leaf? ==> BodyOk(after, MergedShape(shape, a, b), c))
  {
    var after := MergedInternalPages(pages, p, j, a, b);
    var s := JoinedEntries(pages, p, j, a, b);
    SiblingFacts(pages, shape, root, under, p, j, a, b);
    assert NodeOk(pages, shape, root, INVALID, under, c);
    if pages[c].parent in {a, b} {
      var i := SlotOf(pages, shape, root, INVALID, under, c);
      var k := if pages[c].parent == a then i else |pages[a].entries| + i;
      assert s[k].child == c;
      MergedChild(pages, shape, root, under, p, j, a, b, k);
      assert after[a].entries[k].child == c;
    } else if c in ChildSet(s[|pages[a].entries|..]) {
      var i :| 0 <= i < |s[|pages[a].entries|..]| && s[|pages[a].entries|..][i].child == c;
      JoinedChild(pages, shape, root, under, p, j, a, b, |pages[a].entries| + i);
    }
  }

  /** Merging two sibling internal pages. */
  lemma MergeInternals(pages: Pages, shape: Shape, root: PageId, under: PageId, p: PageId, j: nat, a: PageId, b: PageId)
    requires InternalSiblings(pages, shape, root, under, p, j, a, b)
    requires INTERNAL_MIN <= |pages[a].entries| + |pages[b].entries| <= INTERNAL_MAX
    ensures Repairing(MergedInternalPages(pages, p, j, a, b), MergedShape(shape, a, b), root, INVALID, p)
  {
    SiblingFacts(pages, shape, root, under, p, j, a, b);
    var after, shape' := MergedInternalPages(pages, p, j, a, b), MergedShape(shape, a, b);
    var s := JoinedEntries(pages, p, j, a, b);
    JoinedOk(pages, shape, root, under, p, j, a, b);
    forall i | 0 <= i < |s|
      ensures ChildOk(after, shape', a, s, i)
    {
      MergedChild(pages, shape, root, under, p, j, a, b, i);
    }
    assert BodyOk(after, shape', a);
    forall c | c in shape && c in pages && c !in {a, b}
      ensures c in after && c in shape'
      ensures pages[c].parent in {a, b} ==> after[c].parent == a && HasChild(after[a].entries, c)
      ensures pages[c].parent !in {a, b} ==> after[c].parent == pages[c].parent
      ensures pages[c].Leaf? ==> BodyOk(after, shape', c)
    {
      MergedInternalOther(pages, shape, root, under, p, j, a, b, c);
    }
    MergedInternalOther(pages, shape, root, under, p, j, a, b, p);
    Merged(pages, after, shape, root, under, p, j, a, b);
  }

  // ---- The end of a repair -----------------------------------------------

  /** A page that is not underfull after all needs no repair. */
  lemma NotUnderfull(pages: Pages, shape: Shape, root: PageId, under: PageId)
    requires Repairing(pages, shape, root, INVALID, under)
    requires under in pages && SizeOk(pages[under], root, INVALID, INVALID, under)
    ensures WellFormed(pages, shape, root)
  {
    forall q | q in shape
      ensures NodeOk(pages, shape, root, INVALID, INVALID, q)
    {
      assert NodeOk(pages, shape, root, INVALID, under, q);
    }
  }

  /** A root with a single child is replaced by that child. */
  lemma ShrinkRoot(pages: Pages, shape: Shape, root: PageId)
    requires Repairing(pages, shape, root, INVALID, root)
    requires root in pages && pages[root].Internal? && |pages[root].entries| == 1
    ensures pages[root].entries[0].child in pages
    ensures var c := pages[root].entries[0].child;
      WellFormed(pages[c := pages[c].(parent := INVALID)], shape - {root}, c)
  {
    var s := pages[root].entries;
    var c := s[0].child;
    assert NodeOk(pages, shape, root, INVALID, root, root);
    assert ChildOk(pages, shape, root, s, 0);
    var pages', shape' := pages[c := pages[c].(parent := INVALID)], shape - {root};
    forall q | q in shape'
      ensures NodeOk(pages', shape', c, INVALID, INVALID, q)
    {
      assert NodeOk(pages, shape, root, INVALID, root, q);
      var at := SlotOf(pages, shape, root, INVALID, root, q);
      if q != c && shape[q].level == shape[c].level {
        var k := if shape[q].lo.Some? then shape[q].lo.value
                 else if shape[q].hi.Some? then shape[q].hi.value - 1 else 0;
        UniqueOwner(pages, shape, root, INVALID, root, k, q, c);
      }
      if pages[q].Internal? {
        forall i | 0 <= i < |pages[q].entries|
          ensures ChildOk(pages', shape', q, pages[q].entries, i)
        {
          assert ChildOk(pages, shape, q, pages[q].entries, i);
        }
      }
    }
  }

  // ---- What the leaves store ---------------------------------------------

  lemma RebalancedLeavesStore(pages: Pages, shape: Shape, root: PageId, under: PageId, p: PageId, j: nat,
                              a: PageId, b: PageId, left: seq<LeafEntry>, right: seq<LeafEntry>)
    requires Siblings(pages, shape, root, under, p, j, a, b) && a in pages && pages[a].Leaf?
    requires b in pages && pages[b].Leaf? && a in shape && b in shape && 0 < |right|
    requires left + right == pages[a].leafEntries + pages[b].leafEntries
    ensures Stored(RebalancedLeaves(pages, p, j, a, b, left, right), RebalancedShape(shape, a, b, right[0].key))
            == Stored(pages, shape)
  {
    SiblingFacts(pages, shape, root, under, p, j, a, b);
    var after := RebalancedLeaves(pages, p, j, a, b, left, right);
    var shape' := RebalancedShape(shape, a, b, right[0].key);
    assert forall e :: e in left || e in right <==> e in left + right;
    assert forall e :: e in pages[a].leafEntries || e in pages[b].leafEntries <==>
                       e in pages[a].leafEntries + pages[b].leafEntries;
    forall e | e in Stored(pages, shape)
      ensures e in Stored(after, shape')
    {
      var q :| q in shape && q in pages && pages[q].Leaf? && e in pages[q].leafEntries;
      var t := if q !in {a, b} then q else if e in left then a else b;
      assert t in shape' && t in after && after[t].Leaf? && e in after[t].leafEntries;
    }
    forall e | e in Stored(after, shape')
      ensures e in Stored(pages, shape)
    {
      var q :| q in shape' && q in after && after[q].Leaf? && e in after[q].leafEntries;
      var t := if q !in {a, b} then q else if e in pages[a].leafEntries then a else b;
      assert t in shape && t in pages && pages[t].Leaf? && e in pages[t].leafEntries;
    }
  }

  lemma MergedLeavesStore(pages: Pages, shape: Shape, root: PageId, under: PageId, p: PageId, j: nat,
                          a: PageId, b: PageId)
    requires Siblings(pages, shape, root, under, p, j, a, b) && a in pages && pages[a].Leaf?
    requires b in pages && pages[b].Leaf? && a in shape && b in shape
    requires pages[b].next != INVALID ==> pages[b].next in pages && pages[pages[b].next].Leaf?
    ensures Stored(MergedLeafPages(pages, p, j, a, b), MergedShape(shape, a, b)) == Stored(pages, shape)
  {
    SiblingFacts(pages, shape, root, under, p, j, a, b);
    NextOfSibling(pages, shape, root, under, p, j, a, b);
    var after, shape' := MergedLeafPages(pages, p, j, a, b), MergedShape(shape, a, b);
    forall e | e in Stored(pages, shape)
      ensures e in Stored(after, shape')
    {
      var q :| q in shape && q in pages && pages[q].Leaf? && e in pages[q].leafEntries;
      var t := if q == b then a else q;
      assert t in shape' && t in after && after[t].Leaf? && e in after[t].leafEntries;
    }
    forall e | e in Stored(after, shape')
      ensures e in Stored(pages, shape)
    {
      var q :| q in shape' && q in after && after[q].Leaf? && e in after[q].leafEntries;
      var t := if q == a && e !in pages[a].leafEntries then b else q;
      assert t in shape && t in pages && pages[t].Leaf? && e in pages[t].leafEntries;
    }
  }

  lemma RebalancedInternalsStore(pages: Pages, shape: Shape, p: PageId, j: nat, a: PageId, b: PageId,
                                 left: seq<InternalEntry>, sep: int, right: seq<InternalEntry>, moved: PageId, t: PageId)
    requires p in pages && pages[p].Internal? && j < |pages[p].entries| && moved in pages
    requires a in pages && b in pages && pages[a].Internal? && pages[b].Internal? && a in shape && b in shape
    requires moved !in {a, b, p}
    ensures Stored(RebalancedInternals(pages, p, j, a, b, left, sep, right, moved, t),
                   RebalancedShape(shape, a, b, sep)) == Stored(pages, shape)
  {
    SameLeaves(pages, shape, RebalancedInternals(pages, p, j, a, b, left, sep, right, moved, t),
               RebalancedShape(shape, a, b, sep));
  }

  lemma MergedInternalsStore(pages: Pages, shape: Shape, p: PageId, j: nat, a: PageId, b: PageId)
    requires p in pages && pages[p].Internal? && j < |pages[p].entries| && a in shape && b in shape
    requires a in pages && b in pages && pages[a].Internal? && pages[b].Internal? && 0 < |pages[b].entries|
    ensures Stored(MergedInternalPages(pages, p, j, a, b), MergedShape(shape, a, b)) == Stored(pages, shape)
  {
    SameLeaves(pages, shape, MergedInternalPages(pages, p, j, a, b), MergedShape(shape, a, b));
  }

  lemma ShrunkRootStores(pages: Pages, shape: Shape, root: PageId, c: PageId)
    requires root in pages && pages[root].Internal? && c in pages
    ensures Stored(pages[c := pages[c].(parent := INVALID)], shape - {root}) == Stored(pages, shape)
  {
    SameLeaves(pages, shape, pages[c := pages[c].(parent := INVALID)], shape - {root});
  }
}

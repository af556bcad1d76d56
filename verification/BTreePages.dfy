/** The two kinds of B+ tree page, as in-memory pages over a fixed entry array.
    Every operation is specified by what it does to the sequence of live entries. */
module BTreePages {
  import opened Common

  // A page body is 4072 bytes; headers take 24 and 16 bytes, entries 14 and 12.
  const LEAF_MAX: nat := 289
  const LEAF_MIN: nat := LEAF_MAX / 2
  const INTERNAL_MAX: nat := 338
  const INTERNAL_MIN: nat := (INTERNAL_MAX + 1) / 2

  datatype LeafEntry = LeafEntry(key: int, rid: RID)

  /** A separator and the child to its right; the key of entry 0 is never read. */
  datatype InternalEntry = InternalEntry(key: int, child: PageId)

  /** What a page holds once serialised. */
  datatype Node =
    | Leaf(id: PageId, parent: PageId, prev: PageId, next: PageId, leafEntries: seq<LeafEntry>)
    | Internal(id: PageId, parent: PageId, entries: seq<InternalEntry>)

  function SizeOf(n: Node): nat {
    if n.Leaf? then |n.leafEntries| else |n.entries|
  }

  function MinOf(n: Node): nat {
    if n.Leaf? then LEAF_MIN else INTERNAL_MIN
  }

  function MaxOf(n: Node): nat {
    if n.Leaf? then LEAF_MAX else INTERNAL_MAX
  }

  // ---- Leaf sequences ----------------------------------------------------

  ghost predicate Sorted(s: seq<LeafEntry>) {
    forall i, j :: 0 <= i < j < |s| ==> s[i].key < s[j].key
  }

  ghost predicate HasKey(s: seq<LeafEntry>, key: int) {
    exists i :: 0 <= i < |s| && s[i].key == key
  }

  /** Position `p` splits `s` into keys below and keys at or above `key`. */
  ghost predicate LowerBound(s: seq<LeafEntry>, key: int, p: int) {
    && 0 <= p <= |s|
    && (forall i :: 0 <= i < p ==> s[i].key < key)
    && (forall i :: p <= i < |s| ==> key <= s[i].key)
  }

  function InsertAt<T>(s: seq<T>, p: nat, e: T): seq<T>
    requires p <= |s|
  {
    s[..p] + [e] + s[p..]
  }

  /** The entries from `p` on stand one place further right, and `e` at `p`. */
  lemma ShiftedIn<T>(t: seq<T>, s: seq<T>, p: nat, e: T)
    requires p <= |s| && |t| == |s| + 1 && t[p] == e
    requires forall i :: 0 <= i < p ==> t[i] == s[i]
    requires forall i :: p < i <= |s| ==> t[i] == s[i - 1]
    ensures t == InsertAt(s, p, e)
  {
  }

  function RemoveAt<T>(s: seq<T>, p: nat): seq<T>
    requires p < |s|
  {
    s[..p] + s[p + 1..]
  }

  // ---- Internal sequences ------------------------------------------------

  /** Separators, which start at index 1, are strictly ascending. */
  ghost predicate Ascending(s: seq<InternalEntry>) {
    forall i, j :: 1 <= i < j < |s| ==> s[i].key < s[j].key
  }

  ghost predicate HasSeparator(s: seq<InternalEntry>, key: int) {
    exists i :: 1 <= i < |s| && s[i].key == key
  }

  /** Child `i` is the one whose separators bracket `key`. */
  ghost predicate Routes(s: seq<InternalEntry>, key: int, i: int) {
    && 0 <= i < |s|
    && (0 < i ==> s[i].key <= key)
    && (i + 1 < |s| ==> key < s[i + 1].key)
  }

  ghost predicate HasChild(s: seq<InternalEntry>, c: PageId) {
    exists i :: 0 <= i < |s| && s[i].child == c
  }

  class LeafPage {
    var id: PageId
    var parent: PageId
    var prev: PageId
    var next: PageId
    var size: nat
    const entries: array<LeafEntry>

    ghost predicate Valid()
      reads this
    {
      size <= LEAF_MAX == entries.Length
    }

    ghost function Contents(): seq<LeafEntry>
      requires Valid()
      reads this, entries
    {
      entries[..size]
    }

    /** Serialisation keeps the header, the sibling links and the live entries. */
    function ToNode(): (n: Node)
      requires Valid()
      reads this, entries
    {
      Leaf(id, parent, prev, next, entries[..size])
    }

    constructor Init(id: PageId, parent: PageId)
      ensures Valid() && fresh(entries)
      ensures ToNode() == Leaf(id, parent, INVALID, INVALID, [])
    {
      this.id, this.parent := id, parent;
      prev, next, size := INVALID, INVALID, 0;
      entries := new LeafEntry[LEAF_MAX](_ => LeafEntry(0, RID(INVALID, 0)));
    }

    constructor Deserialize(n: Node)
      requires n.Leaf? && |n.leafEntries| <= LEAF_MAX
      ensures Valid() && fresh(entries) && ToNode() == n
    {
      id, parent, prev, next := n.id, n.parent, n.prev, n.next;
      size := |n.leafEntries|;
      entries := new LeafEntry[LEAF_MAX](i =>
        if 0 <= i < |n.leafEntries| then n.leafEntries[i] else LeafEntry(0, RID(INVALID, 0)));
      new;
      assert entries[..size] == n.leafEntries;
    }

    /** Binary search over the live entries. */
    method FindIndex(key: int) returns (r: int)
      requires Valid() && Sorted(Contents())
      ensures r == -1 ==> !HasKey(Contents(), key)
      ensures r != -1 ==> 0 <= r < size && entries[r].key == key
    {
      var lo, hi := 0, size - 1;
      while lo <= hi
        invariant 0 <= lo <= hi + 1 <= size
        invariant forall i :: 0 <= i < lo ==> Contents()[i].key < key
        invariant forall i :: hi < i < size ==> key < Contents()[i].key
      {
        var mid := lo + (hi - lo) / 2;
        var k := entries[mid].key;
        assert k == Contents()[mid].key;
        if k == key {
          return mid;
        }
        if k < key {
          lo := mid + 1;
        } else {
          hi := mid - 1;
        }
      }
      r := -1;
    }

    method Lookup(key: int) returns (r: Option<RID>)
      requires Valid() && Sorted(Contents())
      ensures r.None? ==> !HasKey(Contents(), key)
      ensures r.Some? ==> LeafEntry(key, r.value) in Contents()
    {
      var idx := FindIndex(key);
      if idx < 0 {
        return None;
      }
      assert Contents()[idx] == entries[idx];
      r := Some(entries[idx].rid);
    }

    method LowerBoundOf(key: int) returns (lo: nat)
      requires Valid() && Sorted(Contents())
      ensures LowerBound(Contents(), key, lo)
    {
      ghost var was := Contents();
      lo := 0;
      var hi := size;
      while lo < hi
        invariant 0 <= lo <= hi <= size
        invariant forall i :: 0 <= i < lo ==> was[i].key < key
        invariant forall i :: hi <= i < size ==> key <= was[i].key
      {
        var mid := lo + (hi - lo) / 2;
        assert was[mid] == entries[mid];
        if entries[mid].key < key {
          lo := mid + 1;
        } else {
          hi := mid;
        }
      }
    }

    /** Shifts the entries from `pos` on one place to the right and stores `e`. */
    method ShiftIn(pos: nat, e: LeafEntry)
      requires Valid() && pos <= size < LEAF_MAX
      modifies this`size, entries
      ensures Valid() && Contents() == InsertAt(old(Contents()), pos, e)
    {
      ghost var was := Contents();
      var i := size;
      while i > pos
        modifies entries
        invariant pos <= i <= size
        invariant forall j :: 0 <= j < i ==> entries[j] == was[j]
        invariant forall j :: i < j <= size ==> entries[j] == was[j - 1]
      {
        entries[i] := entries[i - 1];
        i := i - 1;
      }
      entries[pos] := e;
      size := size + 1;
      ShiftedIn(Contents(), was, pos, e);
    }

    /** Lower-bound search, duplicate check, then a right-to-left shift. */
    method Insert(key: int, rid: RID) returns (status: Status, ghost pos: nat)
      requires Valid() && Sorted(Contents())
      modifies this`size, entries
      ensures Valid()
      ensures status == (if old(size) >= LEAF_MAX then InvalidArg
                         else if HasKey(old(Contents()), key) then AlreadyExists else Ok)
      ensures status != Ok ==> Contents() == old(Contents())
      ensures status == Ok ==>
        && LowerBound(old(Contents()), key, pos)
        && Contents() == InsertAt(old(Contents()), pos, LeafEntry(key, rid))
    {
      pos := 0;
      if size >= LEAF_MAX {
        return InvalidArg, 0;
      }
      ghost var was := Contents();
      var lo := LowerBoundOf(key);
      pos := lo;
      assert lo < size ==> was[lo] == entries[lo];
      if lo < size && entries[lo].key == key {
        return AlreadyExists, pos;
      }
      ShiftIn(lo, LeafEntry(key, rid));
      status := Ok;
    }

    method Remove(key: int) returns (status: Status, ghost pos: nat)
      requires Valid() && Sorted(Contents())
      modifies this`size, entries
      ensures Valid()
      ensures status == (if HasKey(old(Contents()), key) then Ok else NotFound)
      ensures status != Ok ==> Contents() == old(Contents())
      ensures status == Ok ==>
        && pos < |old(Contents())| && old(Contents())[pos].key == key
        && Contents() == RemoveAt(old(Contents()), pos)
    {
      ghost var was := Contents();
      var idx := FindIndex(key);
      if idx < 0 {
        return NotFound, 0;
      }
      assert was[idx] == entries[idx];
      var i := idx;
      while i < size - 1
        modifies entries
        invariant idx <= i <= size - 1
        invariant forall j :: 0 <= j < idx ==> entries[j] == was[j]
        invariant forall j :: idx <= j < i ==> entries[j] == was[j + 1]
        invariant forall j :: i <= j < size ==> entries[j] == was[j]
      {
        entries[i] := entries[i + 1];
        i := i + 1;
      }
      size := size - 1;
      assert Contents() == RemoveAt(was, idx);
      return Ok, idx;
    }

    method MoveHalfTo(recipient: LeafPage)
      requires Valid() && recipient.Valid() && recipient != this && recipient.entries != entries
      modifies this`size, recipient`size, recipient.entries
      ensures Valid() && recipient.Valid()
      ensures Contents() == old(Contents())[..old(size) / 2]
      ensures recipient.Contents() == old(Contents())[old(size) / 2..]
    {
      ghost var was := Contents();
      var half := size / 2;
      var moveCount := size - half;
      var i := 0;
      while i < moveCount
        modifies recipient.entries
        invariant 0 <= i <= moveCount
        invariant forall j :: 0 <= j < i ==> recipient.entries[j] == was[half + j]
        invariant entries[..size] == was
      {
        assert entries[half + i] == was[half + i];
        recipient.entries[i] := entries[half + i];
        i := i + 1;
      }
      recipient.size := moveCount;
      size := half;
      assert recipient.Contents() == was[half..];
    }

    method MoveFirstToEndOf(recipient: LeafPage)
      requires Valid() && recipient.Valid() && recipient != this && recipient.entries != entries
      requires 0 < size && recipient.size < LEAF_MAX
      modifies this`size, entries, recipient`size, recipient.entries
      ensures Valid() && recipient.Valid()
      ensures Contents() == old(Contents())[1..]
      ensures recipient.Contents() == old(recipient.Contents()) + [old(Contents())[0]]
    {
      ghost var was := Contents();
      recipient.entries[recipient.size] := entries[0];
      recipient.size := recipient.size + 1;
      ghost var got := recipient.Contents();
      var i := 0;
      while i < size - 1
        modifies entries
        invariant 0 <= i <= size - 1
        invariant forall j :: 0 <= j < i ==> entries[j] == was[j + 1]
        invariant forall j :: i <= j < size ==> entries[j] == was[j]
        invariant recipient.Contents() == got
      {
        entries[i] := entries[i + 1];
        i := i + 1;
      }
      size := size - 1;
      assert Contents() == was[1..];
    }

    method MoveLastToFrontOf(recipient: LeafPage)
      requires Valid() && recipient.Valid() && recipient != this && recipient.entries != entries
      requires 0 < size && recipient.size < LEAF_MAX
      modifies this`size, recipient`size, recipient.entries
      ensures Valid() && recipient.Valid()
      ensures Contents() == old(Contents())[..old(size) - 1]
      ensures recipient.Contents() == [old(Contents())[old(size) - 1]] + old(recipient.Contents())
    {
      ghost var was, had := Contents(), recipient.Contents();
      var i := recipient.size;
      while i > 0
        modifies recipient.entries
        invariant 0 <= i <= recipient.size
        invariant forall j :: 0 <= j < i ==> recipient.entries[j] == had[j]
        invariant forall j :: i < j <= recipient.size ==> recipient.entries[j] == had[j - 1]
        invariant entries[..size] == was
      {
        recipient.entries[i] := recipient.entries[i - 1];
        i := i - 1;
      }
      assert entries[size - 1] == was[size - 1];
      recipient.entries[0] := entries[size - 1];
      recipient.size := recipient.size + 1;
      size := size - 1;
      assert recipient.Contents() == [was[|was| - 1]] + had;
    }

    method MoveAllTo(recipient: LeafPage)
      requires Valid() && recipient.Valid() && recipient != this && recipient.entries != entries
      requires recipient.size + size <= LEAF_MAX
      modifies this`size, recipient`size, recipient.entries
      ensures Valid() && recipient.Valid()
      ensures Contents() == []
      ensures recipient.Contents() == old(recipient.Contents()) + old(Contents())
    {
      ghost var was, had := Contents(), recipient.Contents();
      var recSize := recipient.size;
      var i := 0;
      while i < size
        modifies recipient.entries
        invariant 0 <= i <= size
        invariant forall j :: 0 <= j < recSize ==> recipient.entries[j] == had[j]
        invariant forall j :: 0 <= j < i ==> recipient.entries[recSize + j] == was[j]
        invariant entries[..size] == was
      {
        assert entries[i] == was[i];
        recipient.entries[recSize + i] := entries[i];
        i := i + 1;
      }
      recipient.size := recSize + size;
      size := 0;
      assert recipient.Contents() == had + was;
    }
  }

  class InternalPage {
    var id: PageId
    var parent: PageId
    var size: nat
    const entries: array<InternalEntry>

    ghost predicate Valid()
      reads this
    {
      size <= INTERNAL_MAX == entries.Length
    }

    ghost function Contents(): seq<InternalEntry>
      requires Valid()
      reads this, entries
    {
      entries[..size]
    }

    function ToNode(): (n: Node)
      requires Valid()
      reads this, entries
    {
      Internal(id, parent, entries[..size])
    }

    constructor Init(id: PageId, parent: PageId)
      ensures Valid() && fresh(entries)
      ensures ToNode() == Internal(id, parent, [])
      ensures entries[0] == InternalEntry(0, INVALID)
    {
      this.id, this.parent, size := id, parent, 0;
      entries := new InternalEntry[INTERNAL_MAX](_ => InternalEntry(0, INVALID));
    }

    constructor Deserialize(n: Node)
      requires n.Internal? && |n.entries| <= INTERNAL_MAX
      ensures Valid() && fresh(entries) && ToNode() == n
    {
      id, parent, size := n.id, n.parent, |n.entries|;
      entries := new InternalEntry[INTERNAL_MAX](i =>
        if 0 <= i < |n.entries| then n.entries[i] else InternalEntry(0, INVALID));
      new;
      assert entries[..size] == n.entries;
    }

    /** Binary search for the last separator at or below `key`. */
    method Lookup(key: int) returns (c: PageId, ghost at: int)
      requires Valid() && Ascending(Contents())
      ensures size == 0 ==> c == INVALID
      ensures 0 < size ==> Routes(Contents(), key, at) && c == Contents()[at].child
    {
      if size == 0 {
        return INVALID, 0;
      }
      ghost var was := Contents();
      var left, right, ans := 1, size - 1, size;
      while left <= right
        invariant 1 <= left <= right + 1 <= size
        invariant ans == right + 1
        invariant forall i :: 1 <= i < left ==> was[i].key <= key
        invariant forall i :: ans <= i < size ==> key < was[i].key
      {
        var mid := left + (right - left) / 2;
        assert was[mid] == entries[mid];
        if entries[mid].key > key {
          ans := mid;
          right := mid - 1;
        } else {
          left := mid + 1;
        }
      }
      assert was[ans - 1] == entries[ans - 1];
      return entries[ans - 1].child, ans - 1;
    }

    method PopulateNewRoot(leftChild: PageId, key: int, rightChild: PageId)
      requires Valid()
      modifies this`size, entries
      ensures Valid()
      ensures Contents() == [InternalEntry(old(entries[0].key), leftChild), InternalEntry(key, rightChild)]
    {
      entries[0] := entries[0].(child := leftChild);
      entries[1] := InternalEntry(key, rightChild);
      size := 2;
    }

    /** Binary search for the place of a new separator, or -1 if it is there already. */
    method PlaceOf(key: int) returns (idx: int)
      requires Valid() && Ascending(Contents())
      ensures idx == -1 <==> HasSeparator(Contents(), key)
      ensures idx != -1 && size == 0 ==> idx == 0
      ensures idx != -1 && 0 < size ==> 1 <= idx <= size && Routes(Contents(), key, idx - 1)
    {
      ghost var was := Contents();
      var left, right := 1, size - 1;
      idx := size;
      while left <= right
        invariant 1 <= left
        invariant 0 < size ==> left <= right + 1 <= size && idx == right + 1
        invariant size == 0 ==> idx == 0 && left == 1 && right == -1
        invariant forall i :: 1 <= i < left && i < size ==> was[i].key < key
        invariant forall i :: idx <= i < size && 1 <= i ==> key < was[i].key
        decreases right - left
      {
        var mid := left + (right - left) / 2;
        assert was[mid] == entries[mid];
        if entries[mid].key == key {
          return -1;
        }
        if entries[mid].key > key {
          idx := mid;
          right := mid - 1;
        } else {
          left := mid + 1;
        }
      }
    }

    method ShiftIn(pos: nat, e: InternalEntry)
      requires Valid() && pos <= size < INTERNAL_MAX
      modifies this`size, entries
      ensures Valid() && Contents() == InsertAt(old(Contents()), pos, e)
    {
      ghost var was := Contents();
      var i := size;
      while i > pos
        modifies entries
        invariant pos <= i <= size
        invariant forall j :: 0 <= j < i ==> entries[j] == was[j]
        invariant forall j :: i < j <= size ==> entries[j] == was[j - 1]
      {
        entries[i] := entries[i - 1];
        i := i - 1;
      }
      entries[pos] := e;
      size := size + 1;
      ShiftedIn(Contents(), was, pos, e);
    }

    /** Rejects a full page and a repeated separator; otherwise the entry goes
        right after the child that routes `key`. */
    method Insert(key: int, child: PageId) returns (status: Status, ghost at: int)
      requires Valid() && Ascending(Contents())
      modifies this`size, entries
      ensures Valid()
      ensures status == (if old(size) >= INTERNAL_MAX then InvalidArg
                         else if HasSeparator(old(Contents()), key) then AlreadyExists else Ok)
      ensures status != Ok ==> Contents() == old(Contents())
      ensures status == Ok && old(size) == 0 ==> Contents() == [InternalEntry(key, child)]
      ensures status == Ok && 0 < old(size) ==>
        && Routes(old(Contents()), key, at)
        && Contents() == InsertAt(old(Contents()), at + 1, InternalEntry(key, child))
    {
      if size >= INTERNAL_MAX {
        return InvalidArg, 0;
      }
      var idx := PlaceOf(key);
      if idx == -1 {
        return AlreadyExists, 0;
      }
      ShiftIn(idx, InternalEntry(key, child));
      return Ok, idx - 1;
    }

    method Remove(key: int) returns (status: Status, ghost at: int)
      requires Valid() && Ascending(Contents())
      modifies this`size, entries
      ensures Valid()
      ensures status == (if HasSeparator(old(Contents()), key) then Ok else NotFound)
      ensures status != Ok ==> Contents() == old(Contents())
      ensures status == Ok ==>
        && 1 <= at < old(size) && old(Contents())[at].key == key
        && Contents() == RemoveAt(old(Contents()), at)
    {
      var target := FindSeparator(key);
      if target == -1 {
        return NotFound, 0;
      }
      ShiftOut(target);
      return Ok, target;
    }

    /** The binary search of a removal; -1 when no separator is `key`. */
    method FindSeparator(key: int) returns (target: int)
      requires Valid() && Ascending(Contents())
      ensures target == -1 || 1 <= target < size
      ensures target == -1 <==> !HasSeparator(Contents(), key)
      ensures target != -1 ==> Contents()[target].key == key
    {
      if size == 0 {
        return -1;
      }
      ghost var was := Contents();
      var left, right := 1, size - 1;
      while left <= right
        invariant 1 <= left <= right + 1 <= size
        invariant forall i :: 1 <= i < left ==> was[i].key < key
        invariant forall i :: right < i < size ==> key < was[i].key
      {
        var mid := left + (right - left) / 2;
        assert was[mid] == entries[mid];
        if entries[mid].key == key {
          return mid;
        }
        if entries[mid].key > key {
          right := mid - 1;
        } else {
          left := mid + 1;
        }
      }
      return -1;
    }

    /** Closes the gap that entry `target` leaves. */
    method ShiftOut(target: nat)
      requires Valid() && target < size
      modifies this`size, entries
      ensures Valid() && Contents() == RemoveAt(old(Contents()), target)
    {
      ghost var was := Contents();
      var i := target;
      while i < size - 1
        modifies entries
        invariant target <= i <= size - 1
        invariant forall j :: 0 <= j < target ==> entries[j] == was[j]
        invariant forall j :: target <= j < i ==> entries[j] == was[j + 1]
        invariant forall j :: i <= j < size ==> entries[j] == was[j]
      {
        entries[i] := entries[i + 1];
        i := i + 1;
      }
      size := size - 1;
      assert Contents() == RemoveAt(was, target);
    }

    method SetKeyAt(index: nat, key: int)
      requires Valid() && index < size
      modifies entries
      ensures Contents() == old(Contents())[index := old(Contents())[index].(key := key)]
    {
      entries[index] := entries[index].(key := key);
      assert Contents() == old(Contents())[index := old(Contents())[index].(key := key)];
    }

    method MoveHalfTo(recipient: InternalPage) returns (median: int)
      requires Valid() && recipient.Valid() && recipient != this && recipient.entries != entries
      requires 0 < size
      modifies this`size, recipient`size, recipient.entries
      ensures Valid() && recipient.Valid()
      ensures median == old(Contents())[old(size) / 2].key
      ensures Contents() == old(Contents())[..old(size) / 2]
      ensures recipient.Contents() == old(Contents())[old(size) / 2..]
    {
      ghost var was := Contents();
      var start := size / 2;
      assert was[start] == entries[start];
      median := entries[start].key;
      var i, j := start, 0;
      while i < size
        modifies recipient.entries
        invariant start <= i <= size && j == i - start
        invariant forall m :: 0 <= m < j ==> recipient.entries[m] == was[start + m]
        invariant entries[..size] == was
      {
        assert entries[i] == was[i];
        recipient.entries[j] := entries[i];
        j := j + 1;
        i := i + 1;
      }
      recipient.size := j;
      size := start;
      assert recipient.Contents() == was[start..];
    }

    method MoveFirstToEndOf(recipient: InternalPage, middle: int) returns (newMiddle: int)
      requires Valid() && recipient.Valid() && recipient != this && recipient.entries != entries
      requires 2 <= size && recipient.size < INTERNAL_MAX
      modifies this`size, entries, recipient`size, recipient.entries
      ensures Valid() && recipient.Valid()
      ensures newMiddle == old(Contents())[1].key
      ensures Contents() == old(Contents())[1..]
      ensures recipient.Contents() ==
              old(recipient.Contents()) + [InternalEntry(middle, old(Contents())[0].child)]
    {
      ghost var was := Contents();
      recipient.entries[recipient.size] := InternalEntry(middle, entries[0].child);
      recipient.size := recipient.size + 1;
      newMiddle := entries[1].key;
      ghost var got := recipient.Contents();
      var i := 0;
      while i < size - 1
        modifies entries
        invariant 0 <= i <= size - 1
        invariant forall j :: 0 <= j < i ==> entries[j] == was[j + 1]
        invariant forall j :: i <= j < size ==> entries[j] == was[j]
        invariant recipient.Contents() == got
      {
        entries[i] := entries[i + 1];
        i := i + 1;
      }
      size := size - 1;
      assert Contents() == was[1..];
    }

    method MoveLastToFrontOf(recipient: InternalPage, middle: int) returns (newMiddle: int)
      requires Valid() && recipient.Valid() && recipient != this && recipient.entries != entries
      requires 0 < size && 0 < recipient.size < INTERNAL_MAX
      modifies this`size, recipient`size, recipient.entries
      ensures Valid() && recipient.Valid()
      ensures newMiddle == old(Contents())[old(size) - 1].key
      ensures Contents() == old(Contents())[..old(size) - 1]
      ensures recipient.Contents() ==
              var had := old(recipient.Contents());
              [InternalEntry(had[0].key, old(Contents())[old(size) - 1].child),
               InternalEntry(middle, had[0].child)] + had[1..]
    {
      ghost var was, had := Contents(), recipient.Contents();
      assert entries[size - 1] == was[size - 1];
      newMiddle := entries[size - 1].key;
      var child := entries[size - 1].child;
      var i := recipient.size;
      while i > 0
        modifies recipient.entries
        invariant 0 <= i <= recipient.size
        invariant forall j :: 0 <= j < i ==> recipient.entries[j] == had[j]
        invariant forall j :: i < j <= recipient.size ==> recipient.entries[j] == had[j - 1]
        invariant i < recipient.size ==> recipient.entries[0] == had[0]
        invariant entries[..size] == was
      {
        recipient.entries[i] := recipient.entries[i - 1];
        i := i - 1;
      }
      recipient.entries[1] := recipient.entries[1].(key := middle);
      recipient.entries[0] := recipient.entries[0].(child := child);
      recipient.size := recipient.size + 1;
      size := size - 1;
      assert recipient.Contents() ==
             [InternalEntry(had[0].key, child), InternalEntry(middle, had[0].child)] + had[1..];
    }

    method MoveAllTo(recipient: InternalPage, middle: int)
      requires Valid() && recipient.Valid() && recipient != this && recipient.entries != entries
      requires 0 < size && recipient.size + size <= INTERNAL_MAX
      modifies this`size, recipient`size, recipient.entries
      ensures Valid() && recipient.Valid()
      ensures Contents() == []
      ensures recipient.Contents() ==
              old(recipient.Contents()) + [InternalEntry(middle, old(Contents())[0].child)] + old(Contents())[1..]
    {
      ghost var was, had := Contents(), recipient.Contents();
      assert entries[0] == was[0];
      recipient.entries[recipient.size] := InternalEntry(middle, entries[0].child);
      var start := recipient.size + 1;
      var i := 1;
      while i < size
        modifies recipient.entries
        invariant 1 <= i <= size
        invariant forall j :: 0 <= j < |had| ==> recipient.entries[j] == had[j]
        invariant recipient.entries[|had|] == InternalEntry(middle, was[0].child)
        invariant forall j :: 1 <= j < i ==> recipient.entries[|had| + j] == was[j]
        invariant entries[..size] == was
      {
        assert entries[i] == was[i];
        recipient.entries[start + i - 1] := entries[i];
        i := i + 1;
      }
      recipient.size := recipient.size + size;
      size := 0;
      assert recipient.Contents() == had + [InternalEntry(middle, was[0].child)] + was[1..];
    }

    method FindChildIndex(child: PageId) returns (r: int)
      requires Valid()
      ensures r == -1 ==> !HasChild(Contents(), child)
      ensures r != -1 ==> 0 <= r < size && entries[r].child == child
    {
      var i := 0;
      while i < size
        invariant 0 <= i <= size
        invariant forall j :: 0 <= j < i ==> Contents()[j].child != child
      {
        if entries[i].child == child {
          return i;
        }
        assert Contents()[i] == entries[i];
        i := i + 1;
      }
      r := -1;
    }
  }
}

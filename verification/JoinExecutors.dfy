/** The two join executors, pulled row by row. */
module JoinExecutors {
  import opened Common
  import opened Expressions
  import opened Plans
  import opened Conjuncts

  /** A tuple and the record it came from. */
  datatype Item = Item(row: Row, rid: RID)

  /** The answer to a pull: a tuple, the end, or an exception. */
  datatype Pull = Got(item: Item) | End | Threw

  /** A child executor; it yields the same rows again after every `Init`. */
  class Child {
    const rows: seq<Item>
    var pos: nat

    ghost predicate Valid()
      reads this
    {
      pos <= |rows|
    }

    constructor (rows: seq<Item>)
      ensures Valid() && this.rows == rows
    {
      this.rows, pos := rows, 0;
    }

    method Init()
      modifies this
      ensures Valid() && pos == 0
    {
      pos := 0;
    }

    method Next() returns (item: Option<Item>)
      requires Valid()
      modifies this
      ensures Valid()
      ensures if old(pos) == |rows| then item == None && pos == old(pos)
              else item == Some(rows[old(pos)]) && pos == old(pos) + 1
    {
      if pos == |rows| {
        return None;
      }
      item := Some(rows[pos]);
      pos := pos + 1;
    }
  }

  function Combined(l: Item, r: Row): Item {
    Item(l.row + r, l.rid)
  }

  lemma TailStep<T>(s: seq<T>, i: nat)
    requires i < |s|
    ensures s[i..] == [s[i]] + s[i + 1..] && s[i..][0] == s[i] && s[i..][1..] == s[i + 1..]
  {
  }

  // ---- Nested loop join --------------------------------------------------

  function JoinTruth(on: Option<Expr>, l: Item, r: Item): Option<bool> {
    if on.None? then Some(true) else Truth(Eval(on.value, Sides(Some(l.row), Some(r.row))))
  }

  function LoopRow(l: Item, rights: seq<Item>, on: Option<Expr>): seq<Item> {
    if rights == [] then []
    else (if JoinTruth(on, l, rights[0]) == Some(true) then [Combined(l, rights[0].row)] else [])
         + LoopRow(l, rights[1..], on)
  }

  function LoopAll(lefts: seq<Item>, rights: seq<Item>, on: Option<Expr>): seq<Item> {
    if lefts == [] then [] else LoopRow(lefts[0], rights, on) + LoopAll(lefts[1..], rights, on)
  }

  /** The predicate can be evaluated on the pairs of a row and on those of a side. */
  ghost predicate RowClean(l: Item, rights: seq<Item>, on: Option<Expr>) {
    forall j :: 0 <= j < |rights| ==> JoinTruth(on, l, rights[j]).Some?
  }

  ghost predicate AllClean(lefts: seq<Item>, rights: seq<Item>, on: Option<Expr>) {
    forall i :: 0 <= i < |lefts| ==> RowClean(lefts[i], rights, on)
  }

  class NestedLoopJoinExecutor {
    const left: Child
    const right: Child
    const on: Option<Expr>
    var leftHasMore: bool
    var current: Item

    ghost predicate Valid()
      reads this, left, right
    {
      left.Valid() && right.Valid() && left != right
    }

    /** What is still to be emitted. */
    ghost function Remaining(): seq<Item>
      requires Valid()
      reads this, left, right
    {
      if !leftHasMore then []
      else LoopRow(current, right.rows[right.pos..], on) + LoopAll(left.rows[left.pos..], right.rows, on)
    }

    /** None of the evaluations still to come raises. */
    ghost predicate Clean()
      requires Valid()
      reads this, left, right
    {
      leftHasMore ==>
        RowClean(current, right.rows[right.pos..], on) && AllClean(left.rows[left.pos..], right.rows, on)
    }

    constructor (left: Child, right: Child, on: Option<Expr>)
      requires left.Valid() && right.Valid() && left != right
      ensures Valid() && this.left == left && this.right == right && this.on == on
    {
      this.left, this.right, this.on := left, right, on;
      leftHasMore, current := false, Item([], RID(INVALID, 0));
    }

    method Init()
      requires Valid()
      modifies this, left, right
      ensures Valid() && Remaining() == LoopAll(left.rows, right.rows, on)
      ensures Clean() <==> AllClean(left.rows, right.rows, on)
    {
      left.Init();
      right.Init();
      assert right.rows[0..] == right.rows && left.rows[0..] == left.rows;
      NextLeft();
    }

    /** The next left row; what it leaves is stated for a right child at its beginning. */
    method NextLeft()
      requires Valid()
      modifies this, left
      ensures Valid()
      ensures if old(left.pos) == |left.rows| then !leftHasMore && left.pos == old(left.pos)
              else leftHasMore && left.pos == old(left.pos) + 1
      ensures right.pos == 0 || !leftHasMore ==>
        && Remaining() == LoopAll(old(left.rows[left.pos..]), right.rows, on)
        && (Clean() <==> AllClean(old(left.rows[left.pos..]), right.rows, on))
      ensures leftHasMore ==>
        && LoopRow(current, right.rows, on) + LoopAll(left.rows[left.pos..], right.rows, on)
           == LoopAll(old(left.rows[left.pos..]), right.rows, on)
        && (AllClean(old(left.rows[left.pos..]), right.rows, on) <==>
            RowClean(current, right.rows, on) && AllClean(left.rows[left.pos..], right.rows, on))
    {
      ghost var at := left.pos;
      var item := left.Next();
      leftHasMore := item.Some?;
      if item.Some? {
        current := item.value;
        TailStep(left.rows, at);
        assert right.rows[0..] == right.rows;
        CleanStep(left.rows[at..], right.rows, on);
      }
    }

    /** Goes on to the next left row and to the first right row. */
    method AdvanceLeft()
      requires Valid()
      modifies this, left, right
      ensures Valid() && Remaining() == LoopAll(old(left.rows[left.pos..]), right.rows, on)
      ensures Clean() <==> AllClean(old(left.rows[left.pos..]), right.rows, on)
      ensures if old(left.pos) == |left.rows| then !leftHasMore && left.pos == old(left.pos)
              else leftHasMore && left.pos == old(left.pos) + 1
    {
      NextLeft();
      if leftHasMore {
        right.Init();
        assert right.rows[0..] == right.rows;
      }
    }

    method Next() returns (out: Pull)
      requires Valid()
      modifies this, left, right
      ensures Valid()
      ensures out.Got? ==> old(Remaining()) == [out.item] + Remaining() && (Clean() <==> old(Clean()))
      ensures out.End? ==> old(Remaining()) == [] && Remaining() == [] && old(Clean())
      ensures out.Threw? ==> !old(Clean())
    {
      while leftHasMore
        invariant Valid() && Remaining() == old(Remaining()) && (Clean() <==> old(Clean()))
        decreases |left.rows| - left.pos, leftHasMore
      {
        out := ScanRight();
        if out.Got? {
          Regroup(out.item, LoopRow(current, right.rows[right.pos..], on), LoopAll(left.rows[left.pos..], right.rows, on));
          return;
        }
        if out.Threw? {
          return;
        }
        AdvanceLeft();
      }
      out := End;
    }

    /** The next partner of the current left row on the rest of the right side. */
    method ScanRight() returns (out: Pull)
      requires Valid()
      modifies right
      ensures right.Valid()
      ensures out.Got? ==>
        && LoopRow(current, old(right.rows[right.pos..]), on) == [out.item] + LoopRow(current, right.rows[right.pos..], on)
        && (RowClean(current, old(right.rows[right.pos..]), on) <==> RowClean(current, right.rows[right.pos..], on))
      ensures out.End? ==>
        && right.pos == |right.rows| && LoopRow(current, old(right.rows[right.pos..]), on) == []
        && RowClean(current, old(right.rows[right.pos..]), on)
      ensures out.Threw? ==> !RowClean(current, old(right.rows[right.pos..]), on)
    {
      ghost var tail := right.rows[right.pos..];
      while right.pos < |right.rows|
        invariant right.Valid()
        invariant LoopRow(current, right.rows[right.pos..], on) == LoopRow(current, tail, on)
        invariant RowClean(current, right.rows[right.pos..], on) <==> RowClean(current, tail, on)
        decreases |right.rows| - right.pos
      {
        LoopStep(current, right.rows, right.pos, on);
        var item := right.Next();
        var truth := JoinTruth(on, current, item.value);
        if truth.None? {
          return Threw;
        }
        if truth.value {
          return Got(Combined(current, item.value.row));
        }
      }
      out := End;
    }
  }

  lemma Regroup(item: Item, a: seq<Item>, rest: seq<Item>)
    ensures ([item] + a) + rest == [item] + (a + rest)
  {
  }

  /** One pair of the inner loop. */
  lemma LoopStep(l: Item, rights: seq<Item>, at: nat, on: Option<Expr>)
    requires at < |rights|
    ensures LoopRow(l, rights[at..], on) ==
      (if JoinTruth(on, l, rights[at]) == Some(true) then [Combined(l, rights[at].row)] else [])
      + LoopRow(l, rights[at + 1..], on)
    ensures RowClean(l, rights[at..], on) <==> JoinTruth(on, l, rights[at]).Some? && RowClean(l, rights[at + 1..], on)
  {
    TailStep(rights, at);
    RowCleanStep(l, rights[at..], on);
  }

  lemma RowCleanStep(l: Item, rights: seq<Item>, on: Option<Expr>)
    requires rights != []
    ensures RowClean(l, rights, on) <==> JoinTruth(on, l, rights[0]).Some? && RowClean(l, rights[1..], on)
  {
    assert forall j :: 1 <= j < |rights| ==> rights[j] == rights[1..][j - 1];
  }

  lemma CleanStep(lefts: seq<Item>, rights: seq<Item>, on: Option<Expr>)
    requires lefts != []
    ensures AllClean(lefts, rights, on) <==> RowClean(lefts[0], rights, on) && AllClean(lefts[1..], rights, on)
  {
    assert forall j :: 1 <= j < |lefts| ==> lefts[j] == lefts[1..][j - 1];
  }

  /** Pulls a nested loop join to exhaustion. */
  method RunNestedLoop(lefts: seq<Item>, rights: seq<Item>, on: Option<Expr>) returns (out: Option<seq<Item>>)
    ensures out.Some? <==> AllClean(lefts, rights, on)
    ensures out.Some? ==> out.value == LoopAll(lefts, rights, on)
  {
    var left := new Child(lefts);
    var right := new Child(rights);
    var join := new NestedLoopJoinExecutor(left, right, on);
    join.Init();
    var rows := [];
    while true
      invariant join.Valid() && join.left == left && join.right == right && fresh(join) && fresh(left) && fresh(right)
      invariant rows + join.Remaining() == LoopAll(lefts, rights, on)
      invariant join.Clean() <==> AllClean(lefts, rights, on)
      decreases |join.Remaining()|
    {
      var pull := join.Next();
      match pull {
        case Got(item) =>
          Appended(rows, item, join.Remaining(), LoopAll(lefts, rights, on));
          rows := rows + [item];
        case End => return Some(rows);
        case Threw => return None;
      }
    }
  }

  lemma Appended(done: seq<Item>, item: Item, rest: seq<Item>, all: seq<Item>)
    requires done + ([item] + rest) == all
    ensures done + [item] + rest == all
  {
  }

  // ---- Hash join ---------------------------------------------------------

  function LeftKeyOf(lk: Expr, l: Item): Outcome {
    Eval(lk, Sides(Some(l.row), None))
  }

  function RightKeyOf(rk: Expr, r: Item): Outcome {
    Eval(rk, Sides(None, Some(r.row)))
  }

  /** The right rows with key `v`, in order. */
  function Bucket(rights: seq<Item>, rk: Expr, v: Value): seq<Row> {
    if rights == [] then []
    else
      var n := |rights| - 1;
      BucketNext(Bucket(rights[..n], rk, v), rights[n], rk, v)
  }

  function BucketNext(rows: seq<Row>, r: Item, rk: Expr, v: Value): seq<Row> {
    if RightKeyOf(rk, r) == Val(v) then rows + [r.row] else rows
  }

  type HashTable = map<Value, seq<Row>>

  /** The table files every row of `rights` with a key that is not NULL. */
  ghost predicate TableOk(table: HashTable, rights: seq<Item>, rk: Expr) {
    && Null !in table
    && (forall v :: v in table ==> table[v] == Bucket(rights, rk, v))
    && (forall v :: v !in table && v != Null ==> Bucket(rights, rk, v) == [])
  }

  function MatchesOf(l: Item, rights: seq<Item>, lk: Expr, rk: Expr): seq<Row> {
    var key := LeftKeyOf(lk, l);
    if key.Val? && !key.value.Null? then Bucket(rights, rk, key.value) else []
  }

  function CombinedAll(l: Item, rows: seq<Row>): (r: seq<Item>)
    ensures |r| == |rows|
  {
    seq(|rows|, i requires 0 <= i < |rows| => Combined(l, rows[i]))
  }

  function ProbeAll(lefts: seq<Item>, rights: seq<Item>, lk: Expr, rk: Expr): seq<Item> {
    if lefts == [] then []
    else CombinedAll(lefts[0], MatchesOf(lefts[0], rights, lk, rk)) + ProbeAll(lefts[1..], rights, lk, rk)
  }

  ghost predicate LeftKeysClean(lefts: seq<Item>, lk: Expr) {
    forall i :: 0 <= i < |lefts| ==> LeftKeyOf(lk, lefts[i]).Val?
  }

  ghost predicate RightKeysClean(rights: seq<Item>, rk: Expr) {
    forall i :: 0 <= i < |rights| ==> RightKeyOf(rk, rights[i]).Val?
  }

  /** Filing one more right row. */
  lemma TableStep(table: HashTable, rights: seq<Item>, at: nat, rk: Expr)
    requires at < |rights| && TableOk(table, rights[..at], rk) && RightKeyOf(rk, rights[at]).Val?
    ensures var v, row := RightKeyOf(rk, rights[at]).value, rights[at].row;
      TableOk(if v.Null? then table else table[v := (if v in table then table[v] else []) + [row]], rights[..at + 1], rk)
  {
    forall w
      ensures Bucket(rights[..at + 1], rk, w) == BucketNext(Bucket(rights[..at], rk, w), rights[at], rk, w)
    {
      assert rights[..at + 1][..at] == rights[..at];
    }
  }

  class HashJoinExecutor {
    const left: Child
    const right: Child
    const leftKey: Expr
    const rightKey: Expr
    var table: HashTable
    var leftHasMore: bool
    var current: Item
    var matchIdx: nat

    ghost predicate Valid()
      reads this, left, right
    {
      && left.Valid() && right.Valid() && left != right
    }

    /** The table is built, and the current left row has `matchIdx` of its partners behind it. */
    ghost predicate Probing()
      reads this, left, right
    {
      && Valid() && TableOk(table, right.rows, rightKey)
      && (leftHasMore ==> matchIdx <= |MatchesOf(current, right.rows, leftKey, rightKey)|)
    }

    /** What is still to be emitted. */
    ghost function Remaining(): seq<Item>
      requires Probing()
      reads this, left, right
    {
      if !leftHasMore then []
      else CombinedAll(current, MatchesOf(current, right.rows, leftKey, rightKey)[matchIdx..])
           + ProbeAll(left.rows[left.pos..], right.rows, leftKey, rightKey)
    }

    ghost predicate Clean()
      requires Probing()
      reads this, left, right
    {
      leftHasMore ==> LeftKeyOf(leftKey, current).Val? && LeftKeysClean(left.rows[left.pos..], leftKey)
    }

    constructor (left: Child, right: Child, leftKey: Expr, rightKey: Expr)
      requires left.Valid() && right.Valid() && left != right
      ensures Valid() && this.left == left && this.right == right && this.leftKey == leftKey && this.rightKey == rightKey
    {
      this.left, this.right, this.leftKey, this.rightKey := left, right, leftKey, rightKey;
      table, leftHasMore, current, matchIdx := map[], false, Item([], RID(INVALID, 0)), 0;
    }

    /** Builds the table from the right side and fetches the first left row. */
    method Init() returns (threw: bool)
      requires Valid()
      modifies this, left, right
      ensures Valid() && (threw <==> !RightKeysClean(right.rows, rightKey))
      ensures !threw ==>
        && Probing() && Remaining() == ProbeAll(left.rows, right.rows, leftKey, rightKey)
        && (Clean() <==> LeftKeysClean(left.rows, leftKey))
    {
      left.Init();
      threw := Build();
      if threw {
        return;
      }
      assert left.rows[0..] == left.rows;
      NextLeft();
    }

    method Build() returns (threw: bool)
      requires Valid()
      modifies this`table, right
      ensures right.Valid() && (threw <==> !RightKeysClean(right.rows, rightKey))
      ensures !threw ==> TableOk(table, right.rows, rightKey)
    {
      right.Init();
      table := map[];
      while right.pos < |right.rows|
        invariant right.Valid() && TableOk(table, right.rows[..right.pos], rightKey)
        invariant forall i :: 0 <= i < right.pos ==> RightKeyOf(rightKey, right.rows[i]).Val?
        decreases |right.rows| - right.pos
      {
        ghost var at := right.pos;
        var item := right.Next();
        var key := RightKeyOf(rightKey, item.value);
        if key.Raised? {
          return true;
        }
        TableStep(table, right.rows, at, rightKey);
        if !key.value.Null? {
          table := table[key.value := (if key.value in table then table[key.value] else []) + [item.value.row]];
        }
      }
      assert right.rows[..right.pos] == right.rows;
      threw := false;
    }

    /** The next left row, none of whose partners is emitted yet. */
    method NextLeft()
      requires Valid() && TableOk(table, right.rows, rightKey)
      modifies this`leftHasMore, this`current, this`matchIdx, left
      ensures Probing() && Remaining() == ProbeAll(old(left.rows[left.pos..]), right.rows, leftKey, rightKey)
      ensures Clean() <==> LeftKeysClean(old(left.rows[left.pos..]), leftKey)
      ensures if old(left.pos) == |left.rows| then !leftHasMore && left.pos == old(left.pos)
              else leftHasMore && left.pos == old(left.pos) + 1
    {
      ghost var at := left.pos;
      var item := left.Next();
      leftHasMore := item.Some?;
      matchIdx := 0;
      if item.Some? {
        current := item.value;
        TailStep(left.rows, at);
        LeftKeysStep(left.rows[at..], leftKey);
        ghost var ms := MatchesOf(current, right.rows, leftKey, rightKey);
        assert ms[0..] == ms;
      }
    }

    method Next() returns (out: Pull)
      requires Probing()
      modifies this`leftHasMore, this`current, this`matchIdx, left
      ensures Probing()
      ensures out.Got? ==> old(Remaining()) == [out.item] + Remaining() && (Clean() <==> old(Clean()))
      ensures out.End? ==> old(Remaining()) == [] && Remaining() == [] && old(Clean())
      ensures out.Threw? ==> !old(Clean())
    {
      while leftHasMore
        invariant Probing() && Remaining() == old(Remaining()) && (Clean() <==> old(Clean()))
        decreases |left.rows| - left.pos, leftHasMore
      {
        var key := LeftKeyOf(leftKey, current);
        if key.Raised? {
          return Threw;
        }
        var partner := Pick(key.value);
        if partner.Some? {
          return Got(Combined(current, partner.value));
        }
        NextLeft();
      }
      out := End;
    }

    /** The next partner of the current left row, and what is still to be emitted then. */
    method Pick(key: Value) returns (partner: Option<Row>)
      requires Probing() && leftHasMore && LeftKeyOf(leftKey, current) == Val(key)
      modifies this`matchIdx
      ensures Probing() && (Clean() <==> old(Clean()))
      ensures old(Remaining()) ==
        if partner.Some? then [Combined(current, partner.value)] + Remaining()
        else ProbeAll(left.rows[left.pos..], right.rows, leftKey, rightKey)
    {
      ghost var ms, at := MatchesOf(current, right.rows, leftKey, rightKey), matchIdx;
      ghost var rest := ProbeAll(left.rows[left.pos..], right.rows, leftKey, rightKey);
      assert Remaining() == CombinedAll(current, ms[at..]) + rest;
      PartnersLeft(current, ms, at, rest);
      partner := Probe(key);
      assert partner.Some? ==> Remaining() == CombinedAll(current, ms[at + 1..]) + rest;
    }

    /** The next row of the bucket of the current left row, unless all are behind. */
    method Probe(key: Value) returns (partner: Option<Row>)
      requires Probing() && leftHasMore && LeftKeyOf(leftKey, current) == Val(key)
      modifies this`matchIdx
      ensures Probing()
      ensures var ms := MatchesOf(current, right.rows, leftKey, rightKey);
        if old(matchIdx) < |ms| then partner == Some(ms[old(matchIdx)]) && matchIdx == old(matchIdx) + 1
        else partner == None && matchIdx == old(matchIdx)
    {
      if !key.Null? && key in table && matchIdx < |table[key]| {
        partner := Some(table[key][matchIdx]);
        matchIdx := matchIdx + 1;
        return;
      }
      partner := None;
    }
  }

  /** The partners from place `at` on, and then the rest. */
  lemma PartnersLeft(l: Item, ms: seq<Row>, at: nat, rest: seq<Item>)
    requires at <= |ms|
    ensures CombinedAll(l, ms[at..]) + rest ==
      if at < |ms| then [Combined(l, ms[at])] + (CombinedAll(l, ms[at + 1..]) + rest) else rest
  {
    if at < |ms| {
      ProbeStep(l, ms, at);
      Regroup(Combined(l, ms[at]), CombinedAll(l, ms[at + 1..]), rest);
    } else {
      assert CombinedAll(l, ms[at..]) == [];
    }
  }

  lemma LeftKeysStep(lefts: seq<Item>, lk: Expr)
    requires lefts != []
    ensures LeftKeysClean(lefts, lk) <==> LeftKeyOf(lk, lefts[0]).Val? && LeftKeysClean(lefts[1..], lk)
  {
    assert forall j :: 1 <= j < |lefts| ==> lefts[j] == lefts[1..][j - 1];
  }

  lemma ProbeStep(l: Item, rows: seq<Row>, at: nat)
    requires at < |rows|
    ensures CombinedAll(l, rows[at..]) == [Combined(l, rows[at])] + CombinedAll(l, rows[at + 1..])
  {
    TailStep(rows, at);
  }

  /** Pulls a hash join to exhaustion. */
  method RunHashJoin(lefts: seq<Item>, rights: seq<Item>, lk: Expr, rk: Expr) returns (out: Option<seq<Item>>)
    ensures out.Some? <==> LeftKeysClean(lefts, lk) && RightKeysClean(rights, rk)
    ensures out.Some? ==> out.value == ProbeAll(lefts, rights, lk, rk)
  {
    var left := new Child(lefts);
    var right := new Child(rights);
    var join := new HashJoinExecutor(left, right, lk, rk);
    var threw := join.Init();
    if threw {
      return None;
    }
    var rows := [];
    while true
      invariant join.Probing() && join.left == left && join.right == right && fresh(join) && fresh(left) && fresh(right)
      invariant rows + join.Remaining() == ProbeAll(lefts, rights, lk, rk)
      invariant join.Clean() <==> LeftKeysClean(lefts, lk)
      decreases |join.Remaining()|
    {
      var pull := join.Next();
      match pull {
        case Got(item) =>
          Appended(rows, item, join.Remaining(), ProbeAll(lefts, rights, lk, rk));
          rows := rows + [item];
        case End => return Some(rows);
        case Threw => return None;
      }
    }
  }

  // ---- The two joins agree -----------------------------------------------

  /** The predicate of the nested loop join that a hash join replaces. */
  function KeyEquality(lk: Expr, rk: Expr): Expr {
    Binary(Compare(Equal), OnSide(lk, LeftSide), OnSide(rk, RightSide))
  }

  lemma PairAgrees(l: Item, r: Item, lk: Expr, rk: Expr)
    requires LeftKeyOf(lk, l).Val? && RightKeyOf(rk, r).Val?
    ensures var a, b := LeftKeyOf(lk, l).value, RightKeyOf(rk, r).value;
      JoinTruth(Some(KeyEquality(lk, rk)), l, r) == Some(!a.Null? && a == b)
  {
    OnSideMeansAlone(lk, l.row, r.row);
    OnSideMeansAlone(rk, l.row, r.row);
  }

  lemma {:induction false} LoopRowConcat(l: Item, a: seq<Item>, b: seq<Item>, on: Option<Expr>)
    ensures LoopRow(l, a + b, on) == LoopRow(l, a, on) + LoopRow(l, b, on)
  {
    if a == [] {
      assert a + b == b;
    } else {
      assert (a + b)[0] == a[0] && (a + b)[1..] == a[1..] + b;
      LoopRowConcat(l, a[1..], b, on);
    }
  }

  /** For one left row, the loop over all right rows emits its bucket. */
  lemma {:induction false} RowAgrees(l: Item, rights: seq<Item>, lk: Expr, rk: Expr)
    requires LeftKeyOf(lk, l).Val? && RightKeysClean(rights, rk)
    ensures LoopRow(l, rights, Some(KeyEquality(lk, rk))) == CombinedAll(l, MatchesOf(l, rights, lk, rk))
  {
    if rights != [] {
      var n, on := |rights| - 1, Some(KeyEquality(lk, rk));
      var before, last := rights[..n], rights[n];
      RowAgrees(l, before, lk, rk);
      PairAgrees(l, last, lk, rk);
      assert rights == before + [last];
      LoopRowConcat(l, before, [last], on);
      assert [last][1..] == [];
      assert LoopRow(l, [last], on) == if JoinTruth(on, l, last) == Some(true) then [Combined(l, last.row)] else [];
    }
  }

  /** Both joins emit the same sequence, with duplicates, NULL keys and empty sides. */
  lemma {:induction false} JoinsAgree(lefts: seq<Item>, rights: seq<Item>, lk: Expr, rk: Expr)
    requires LeftKeysClean(lefts, lk) && RightKeysClean(rights, rk)
    ensures LoopAll(lefts, rights, Some(KeyEquality(lk, rk))) == ProbeAll(lefts, rights, lk, rk)
    ensures AllClean(lefts, rights, Some(KeyEquality(lk, rk)))
  {
    if lefts != [] {
      LeftKeysStep(lefts, lk);
      RowAgrees(lefts[0], rights, lk, rk);
      JoinsAgree(lefts[1..], rights, lk, rk);
      forall j | 0 <= j < |rights|
        ensures JoinTruth(Some(KeyEquality(lk, rk)), lefts[0], rights[j]).Some?
      {
        PairAgrees(lefts[0], rights[j], lk, rk);
      }
      CleanStep(lefts, rights, Some(KeyEquality(lk, rk)));
    }
  }

  /** If the loop can evaluate the equality on every pair, and there are pairs, the
      hash join can evaluate every key. */
  lemma CleanBack(lefts: seq<Item>, rights: seq<Item>, lk: Expr, rk: Expr)
    requires lefts != [] && rights != [] && Unsided(lk) && Unsided(rk)
    requires AllClean(lefts, rights, Some(KeyEquality(lk, rk)))
    ensures LeftKeysClean(lefts, lk) && RightKeysClean(rights, rk)
  {
    forall i, j | 0 <= i < |lefts| && 0 <= j < |rights|
      ensures LeftKeyOf(lk, lefts[i]).Val? && RightKeyOf(rk, rights[j]).Val?
    {
      assert RowClean(lefts[i], rights, Some(KeyEquality(lk, rk)));
      assert JoinTruth(Some(KeyEquality(lk, rk)), lefts[i], rights[j]).Some?;
      OnSideOfUnsided(lk, lefts[i].row, rights[j].row);
      OnSideOfUnsided(rk, lefts[i].row, rights[j].row);
    }
    assert LeftKeyOf(lk, lefts[0]).Val? && RightKeyOf(rk, rights[0]).Val?;
  }

  /** Runs both executors on the same inputs.  Where the hash join raises nothing the
      nested loop join emits the same sequence; the hash join can raise alone only
      when a side is empty. */
  method RunBoth(lefts: seq<Item>, rights: seq<Item>, lk: Expr, rk: Expr)
    returns (hash: Option<seq<Item>>, loop: Option<seq<Item>>)
    ensures hash.Some? ==> loop == hash
    ensures loop.Some? && lefts != [] && rights != [] && Unsided(lk) && Unsided(rk) ==> hash == loop
  {
    hash := RunHashJoin(lefts, rights, lk, rk);
    loop := RunNestedLoop(lefts, rights, Some(KeyEquality(lk, rk)));
    if hash.Some? {
      JoinsAgree(lefts, rights, lk, rk);
    } else if loop.Some? && lefts != [] && rights != [] && Unsided(lk) && Unsided(rk) {
      CleanBack(lefts, rights, lk, rk);
    }
  }

  // ---- The executors and the meaning of plans -----------------------------

  function RowsOf(items: seq<Item>): (rows: seq<Row>)
    ensures |rows| == |items| && forall i :: 0 <= i < |items| ==> rows[i] == items[i].row
  {
    seq(|items|, i requires 0 <= i < |items| => items[i].row)
  }

  lemma RowsOfConcat(a: seq<Item>, b: seq<Item>)
    ensures RowsOf(a + b) == RowsOf(a) + RowsOf(b)
  {
  }

  /** What one pair contributes, as rows. */
  lemma PairRows(l: Item, rights: seq<Item>, keep: bool, rest: seq<Item>)
    requires rights != []
    ensures RowsOf(rights)[0] == rights[0].row && RowsOf(rights)[1..] == RowsOf(rights[1..])
    ensures RowsOf((if keep then [Combined(l, rights[0].row)] else []) + rest) ==
      (if keep then [l.row + rights[0].row] else []) + RowsOf(rest)
  {
    var first := if keep then [Combined(l, rights[0].row)] else [];
    assert RowsOf(first) == if keep then [l.row + rights[0].row] else [];
    RowsOfConcat(first, rest);
  }

  lemma {:induction false} LoopRowDenotes(l: Item, rights: seq<Item>, on: Option<Expr>, m: Match)
    requires forall j :: 0 <= j < |rights| ==> (JoinTruth(on, l, rights[j]) == Some(true) <==> Matches(m, l.row, rights[j].row))
    ensures RowsOf(LoopRow(l, rights, on)) == JoinRow(l.row, RowsOf(rights), m)
  {
    if rights != [] {
      var rest := rights[1..];
      assert forall j :: 0 <= j < |rest| ==> rest[j] == rights[j + 1];
      LoopRowDenotes(l, rest, on, m);
      PairRows(l, rights, JoinTruth(on, l, rights[0]) == Some(true), LoopRow(l, rest, on));
    }
  }

  lemma {:induction false} LoopDenotes(lefts: seq<Item>, rights: seq<Item>, on: Option<Expr>, m: Match)
    requires forall i, j :: 0 <= i < |lefts| && 0 <= j < |rights| ==>
      (JoinTruth(on, lefts[i], rights[j]) == Some(true) <==> Matches(m, lefts[i].row, rights[j].row))
    ensures RowsOf(LoopAll(lefts, rights, on)) == Join(RowsOf(lefts), RowsOf(rights), m)
  {
    if lefts != [] {
      var rest := lefts[1..];
      assert forall i :: 0 <= i < |rest| ==> rest[i] == lefts[i + 1];
      LoopDenotes(rest, rights, on, m);
      LoopRowDenotes(lefts[0], rights, on, m);
      assert RowsOf(lefts)[1..] == RowsOf(rest);
      RowsOfConcat(LoopRow(lefts[0], rights, on), LoopAll(rest, rights, on));
    }
  }

  /** The nested loop executor, given a predicate whose columns name their side,
      emits the rows that the plan node with concatenated positions denotes. */
  lemma NestedLoopDenotes(lefts: seq<Item>, rights: seq<Item>, e: Expr, n: nat)
    requires HasWidth(RowsOf(lefts), n)
    ensures RowsOf(LoopAll(lefts, rights, Some(Sided(e, n)))) == Join(RowsOf(lefts), RowsOf(rights), OnAll([e]))
  {
    forall i, j | 0 <= i < |lefts| && 0 <= j < |rights|
      ensures JoinTruth(Some(Sided(e, n)), lefts[i], rights[j]) == Some(true)
         <==> Matches(OnAll([e]), lefts[i].row, rights[j].row)
    {
      assert RowsOf(lefts)[i] == lefts[i].row;
      SidedMeansConcatenated(e, lefts[i].row, rights[j].row);
      assert e in [e];
    }
    LoopDenotes(lefts, rights, Some(Sided(e, n)), OnAll([e]));
  }

  /** The hash join executor emits the rows that its plan node denotes. */
  lemma HashJoinDenotes(lefts: seq<Item>, rights: seq<Item>, lk: Expr, rk: Expr)
    requires Unsided(lk) && Unsided(rk) && LeftKeysClean(lefts, lk) && RightKeysClean(rights, rk)
    ensures RowsOf(ProbeAll(lefts, rights, lk, rk)) == Join(RowsOf(lefts), RowsOf(rights), OnKeys(lk, rk))
  {
    var on := Some(KeyEquality(lk, rk));
    forall i, j | 0 <= i < |lefts| && 0 <= j < |rights|
      ensures JoinTruth(on, lefts[i], rights[j]) == Some(true) <==> Matches(OnKeys(lk, rk), lefts[i].row, rights[j].row)
    {
      PairAgrees(lefts[i], rights[j], lk, rk);
      UnsidedMeansRow(lk, lefts[i].row);
      UnsidedMeansRow(rk, rights[j].row);
    }
    JoinsAgree(lefts, rights, lk, rk);
    LoopDenotes(lefts, rights, on, OnKeys(lk, rk));
  }

  // ---- Where the rows of a join come from ------------------------------------

  /** A joined row is a left row followed by a right row, under the record of the left one. */
  ghost predicate JoinedFromPair(x: Item, l: Item, r: Item) {
    x.row == l.row + r.row && x.rid == l.rid
  }

  lemma {:induction false} LoopRowItems(l: Item, rights: seq<Item>, on: Option<Expr>)
    ensures forall x :: x in LoopRow(l, rights, on) <==>
      exists r :: r in rights && JoinTruth(on, l, r) == Some(true) && JoinedFromPair(x, l, r)
  {
    if rights != [] {
      LoopRowItems(l, rights[1..], on);
      assert forall r :: r in rights[1..] ==> r in rights;
      assert forall r :: r in rights ==> r == rights[0] || r in rights[1..];
      assert rights[0] in rights;
    }
  }

  /** The nested loops emit exactly the pairs on which the predicate is true. */
  lemma {:induction false} LoopItems(lefts: seq<Item>, rights: seq<Item>, on: Option<Expr>)
    ensures forall x :: x in LoopAll(lefts, rights, on) <==>
      exists l, r :: l in lefts && r in rights && JoinTruth(on, l, r) == Some(true) && JoinedFromPair(x, l, r)
  {
    if lefts != [] {
      LoopRowItems(lefts[0], rights, on);
      LoopItems(lefts[1..], rights, on);
      assert forall l :: l in lefts[1..] ==> l in lefts;
      assert forall l :: l in lefts ==> l == lefts[0] || l in lefts[1..];
      assert lefts[0] in lefts;
    }
  }

  // ---- The executors and the runs of plans ---------------------------------

  lemma {:induction false} LoopRowRuns(l: Item, rights: seq<Item>, on: Option<Expr>)
    ensures RunJoinRow(l.row, RowsOf(rights), OnAll(Conjunct(on))) ==
      if RowClean(l, rights, on) then Some(RowsOf(LoopRow(l, rights, on))) else None
  {
    if rights != [] {
      LoopRowRuns(l, rights[1..], on);
      RowCleanStep(l, rights, on);
      PairRows(l, rights, JoinTruth(on, l, rights[0]) == Some(true), LoopRow(l, rights[1..], on));
    }
  }

  /** The run of a nested loop join is what its executor does, whatever its predicate. */
  lemma {:induction false} LoopRuns(lefts: seq<Item>, rights: seq<Item>, on: Option<Expr>)
    ensures RunJoin(RowsOf(lefts), RowsOf(rights), OnAll(Conjunct(on))) ==
      if AllClean(lefts, rights, on) then Some(RowsOf(LoopAll(lefts, rights, on))) else None
  {
    if lefts != [] {
      LoopRowRuns(lefts[0], rights, on);
      LoopRuns(lefts[1..], rights, on);
      CleanStep(lefts, rights, on);
      assert RowsOf(lefts)[1..] == RowsOf(lefts[1..]);
      RowsOfConcat(LoopRow(lefts[0], rights, on), LoopAll(lefts[1..], rights, on));
    }
  }

  /** The run of a hash join is what its executor does. */
  lemma HashRuns(lefts: seq<Item>, rights: seq<Item>, lk: Expr, rk: Expr)
    requires Unsided(lk) && Unsided(rk)
    ensures RunJoin(RowsOf(lefts), RowsOf(rights), OnKeys(lk, rk)) ==
      if LeftKeysClean(lefts, lk) && RightKeysClean(rights, rk) then Some(RowsOf(ProbeAll(lefts, rights, lk, rk)))
      else None
  {
    var ls, rs := RowsOf(lefts), RowsOf(rights);
    forall i | 0 <= i < |lefts|
      ensures LeftKeyOf(lk, lefts[i]) == Eval(lk, OneRow(ls[i])) && ls[i] in ls
    {
      UnsidedMeansRow(lk, lefts[i].row);
    }
    forall i | 0 <= i < |rights|
      ensures RightKeyOf(rk, rights[i]) == Eval(rk, OneRow(rs[i])) && rs[i] in rs
    {
      UnsidedMeansRow(rk, rights[i].row);
    }
    RunJoinExactly(ls, rs, OnKeys(lk, rk));
    if LeftKeysClean(lefts, lk) && RightKeysClean(rights, rk) {
      HashJoinDenotes(lefts, rights, lk, rk);
      RunJoinIsJoin(ls, rs, OnKeys(lk, rk));
    }
  }

  /** The nested loop executor on a predicate as the planner hands it over, whose columns are
      positions in the joined row and name no side: it raises nothing exactly when there is
      no pair, or all columns are left ones and it can be read on every left row; then it
      emits the rows that the plan node denotes. */
  lemma UnsidedLoopExactly(lefts: seq<Item>, rights: seq<Item>, e: Expr, n: nat)
    requires Unsided(e) && HasWidth(RowsOf(lefts), n)
    ensures AllClean(lefts, rights, Some(e)) <==>
      lefts == [] || rights == [] || (AllLeft(e, n) && forall l :: l in RowsOf(lefts) ==> Readable(e, l))
    ensures AllClean(lefts, rights, Some(e)) ==>
      RowsOf(LoopAll(lefts, rights, Some(e))) == Join(RowsOf(lefts), RowsOf(rights), OnAll([e]))
  {
    LoopRuns(lefts, rights, Some(e));
    RunJoinExactly(RowsOf(lefts), RowsOf(rights), OnAll([e]));
    LoopsReadExactly(RowsOf(lefts), RowsOf(rights), e, n);
    assert lefts == [] <==> RowsOf(lefts) == [];
    assert rights == [] <==> RowsOf(rights) == [];
    if AllClean(lefts, rights, Some(e)) {
      RunJoinIsJoin(RowsOf(lefts), RowsOf(rights), OnAll([e]));
    }
  }
}

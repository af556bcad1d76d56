/** Predicate pushdown: conjuncts of a filter move into the inputs of a join. */
module PredicatePushdown {
  import opened Common
  import opened Expressions
  import opened Plans
  import opened Conjuncts

  function LeftOf(cs: seq<Expr>, n: nat): seq<Expr> {
    if cs == [] then []
    else LeftOf(cs[..|cs| - 1], n) + if GoesLeft(cs[|cs| - 1], n) then [cs[|cs| - 1]] else []
  }

  function RightOf(cs: seq<Expr>, n: nat): seq<Expr> {
    if cs == [] then []
    else RightOf(cs[..|cs| - 1], n) + if GoesRight(cs[|cs| - 1], n) then [Shift(cs[|cs| - 1], n)] else []
  }

  function RestOf(cs: seq<Expr>, n: nat): seq<Expr> {
    if cs == [] then []
    else
      var c := cs[|cs| - 1];
      RestOf(cs[..|cs| - 1], n) + if GoesLeft(c, n) || GoesRight(c, n) then [] else [c]
  }

  function Pushdown(p: Plan): Plan
    decreases Size(p), 0
  {
    if !p.Filter? then p
    else
      assert Size(p) == 1 + Size(p.child);
      match p.child
      case SeqScan(_, _, e, _, _) =>
        p.child.(scan := Some(if e.Some? then Both(e.value, p.pred) else p.pred))
      case NestedLoopJoin(w, on, l, r) =>
        var cs, n := Split(p.pred), l.width;
        OnTop(p.width, RestOf(cs, n), NestedLoopJoin(w, on, PushInto(l, LeftOf(cs, n)), PushInto(r, RightOf(cs, n))))
      case HashJoin(w, lk, rk, l, r) =>
        var cs, n := Split(p.pred), l.width;
        OnTop(p.width, RestOf(cs, n), HashJoin(w, lk, rk, PushInto(l, LeftOf(cs, n)), PushInto(r, RightOf(cs, n))))
      case Leaf(_, _) => p
      case Unary(_, _, _) => p
      case Filter(_, _, _) => p
  }

  /** Pushes conjuncts into an input; the rule is applied to the filter this makes. */
  function PushInto(p: Plan, cs: seq<Expr>): Plan
    decreases Size(p) + 1, 1
  {
    if cs == [] then p else Pushdown(Filter(p.width, Combine(cs), p))
  }

  // ---- The rule as the optimizer runs it ----------------------------------

  /** Where one more conjunct goes. */
  lemma ClassifyNext(cs: seq<Expr>, i: nat, n: nat)
    requires i < |cs|
    ensures LeftOf(cs[..i + 1], n) == LeftOf(cs[..i], n) + if GoesLeft(cs[i], n) then [cs[i]] else []
    ensures RightOf(cs[..i + 1], n) == RightOf(cs[..i], n) + if GoesRight(cs[i], n) then [Shift(cs[i], n)] else []
    ensures RestOf(cs[..i + 1], n) ==
      RestOf(cs[..i], n) + if GoesLeft(cs[i], n) || GoesRight(cs[i], n) then [] else [cs[i]]
    ensures !(GoesLeft(cs[i], n) && GoesRight(cs[i], n))
  {
    assert cs[..i + 1][..i] == cs[..i];
    assert GoesLeft(cs[i], n) ==> Columns(cs[i])[0] in Columns(cs[i]);
  }

  lemma LastOf(a: seq<Expr>, b: seq<Expr>)
    requires b != []
    ensures var c := a + b;
      c != [] && c[..|c| - 1] == a + b[..|b| - 1] && c[|c| - 1] == b[|b| - 1]
  {
  }

  lemma {:induction false} LeftInOrder(a: seq<Expr>, b: seq<Expr>, n: nat)
    ensures LeftOf(a + b, n) == LeftOf(a, n) + LeftOf(b, n)
  {
    if b == [] {
      assert a + b == a;
    } else {
      LastOf(a, b);
      LeftInOrder(a, b[..|b| - 1], n);
    }
  }

  lemma {:induction false} RightInOrder(a: seq<Expr>, b: seq<Expr>, n: nat)
    ensures RightOf(a + b, n) == RightOf(a, n) + RightOf(b, n)
  {
    if b == [] {
      assert a + b == a;
    } else {
      LastOf(a, b);
      RightInOrder(a, b[..|b| - 1], n);
    }
  }

  lemma {:induction false} RestInOrder(a: seq<Expr>, b: seq<Expr>, n: nat)
    ensures RestOf(a + b, n) == RestOf(a, n) + RestOf(b, n)
  {
    if b == [] {
      assert a + b == a;
    } else {
      LastOf(a, b);
      RestInOrder(a, b[..|b| - 1], n);
    }
  }

  /** Conjuncts keep their order, wherever they go. */
  lemma ClassifyInOrder(a: seq<Expr>, b: seq<Expr>, n: nat)
    ensures LeftOf(a + b, n) == LeftOf(a, n) + LeftOf(b, n)
    ensures RightOf(a + b, n) == RightOf(a, n) + RightOf(b, n)
    ensures RestOf(a + b, n) == RestOf(a, n) + RestOf(b, n)
  {
    LeftInOrder(a, b, n);
    RightInOrder(a, b, n);
    RestInOrder(a, b, n);
  }

  /** Each conjunct goes to exactly one place. */
  lemma {:induction false} ClassifyAll(cs: seq<Expr>, n: nat)
    ensures |LeftOf(cs, n)| + |RightOf(cs, n)| + |RestOf(cs, n)| == |cs|
  {
    if cs != [] {
      ClassifyAll(cs[..|cs| - 1], n);
      ClassifyNext(cs, |cs| - 1, n);
      assert cs[..|cs|] == cs;
    }
  }

  method Classify(cs: seq<Expr>, n: nat) returns (left: seq<Expr>, right: seq<Expr>, rest: seq<Expr>)
    ensures left == LeftOf(cs, n) && right == RightOf(cs, n) && rest == RestOf(cs, n)
  {
    left, right, rest := [], [], [];
    var i := 0;
    while i < |cs|
      invariant i <= |cs|
      invariant left == LeftOf(cs[..i], n) && right == RightOf(cs[..i], n) && rest == RestOf(cs[..i], n)
    {
      var c := cs[i];
      var allLeft, allRight := TestSides(c, n);
      ClassifyNext(cs, i, n);
      if allLeft && Columns(c) != [] {
        left := left + [c];
      } else if allRight && Columns(c) != [] {
        right := right + [Shift(c, n)];
      } else {
        rest := rest + [c];
      }
      i := i + 1;
    }
    assert cs[..i] == cs;
  }

  method Apply(p: Plan) returns (r: Plan)
    ensures r == Pushdown(p)
    decreases Size(p), 0
  {
    if !p.Filter? {
      return p;
    }
    var child := p.child;
    if child.SeqScan? {
      return child.(scan := Some(if child.scan.Some? then Both(child.scan.value, p.pred) else p.pred));
    }
    if !child.NestedLoopJoin? && !child.HashJoin? {
      return p;
    }
    assert Size(p) == 1 + Size(child);
    var left, right, rest := Classify(Split(p.pred), child.left.width);
    var l, r' := child.left, child.right;
    var pred := CombineConjuncts(left);
    if pred.Some? {
      l := Apply(Filter(l.width, pred.value, l));
    }
    pred := CombineConjuncts(right);
    if pred.Some? {
      r' := Apply(Filter(r'.width, pred.value, r'));
    }
    var join := if child.NestedLoopJoin? then NestedLoopJoin(child.width, child.on, l, r')
                else HashJoin(child.width, child.leftKey, child.rightKey, l, r');
    pred := CombineConjuncts(rest);
    return if pred.Some? then Filter(p.width, pred.value, join) else join;
  }

  // ---- Pushdown preserves the rows ----------------------------------------

  lemma {:induction false} ClassifyKeeps(cs: seq<Expr>, l: Row, r: Row)
    ensures KeepsAll(cs, l + r) <==>
      KeepsAll(LeftOf(cs, |l|), l) && KeepsAll(RightOf(cs, |l|), r) && KeepsAll(RestOf(cs, |l|), l + r)
  {
    if cs != [] {
      var k, n := |cs| - 1, |l|;
      var c, before := cs[k], cs[..k];
      ClassifyKeeps(before, l, r);
      ClassifyNext(cs, k, n);
      assert cs == before + [c] && cs[..k + 1] == cs;
      KeepsConcat(before, [c], l + r);
      KeepsSingle(c, l + r);
      if GoesLeft(c, n) {
        LeftLocal(c, l, r);
        KeepsSingle(c, l);
        KeepsConcat(LeftOf(before, n), [c], l);
      } else if GoesRight(c, n) {
        RightLocal(c, l, r);
        KeepsSingle(Shift(c, n), r);
        KeepsConcat(RightOf(before, n), [Shift(c, n)], r);
      } else {
        KeepsConcat(RestOf(before, n), [c], l + r);
      }
    }
  }

  lemma FilterIntoScan(p: Plan, db: Database)
    requires p.Filter? && p.child.SeqScan? && NoScanLimits(p)
    ensures Rows(Pushdown(p), db) == Rows(p, db)
  {
    var scan := p.child;
    var rows, had := db.tables(scan.table), Conjunct(scan.scan);
    SelectTwice(rows, had, [p.pred]);
    if scan.scan.Some? {
      var e := scan.scan.value;
      assert had + [p.pred] == [e, p.pred];
      forall row
        ensures Keeps(Both(e, p.pred), row) <==> KeepsAll([e, p.pred], row)
      {
        assert e in [e, p.pred] && p.pred in [e, p.pred];
        KeepsBoth(e, p.pred, row);
      }
      SelectOne(rows, Both(e, p.pred), [e, p.pred]);
    } else {
      SelectNone(rows);
      assert had + [p.pred] == [p.pred];
    }
  }

  /** Conjuncts of a filter on a join of `lefts` and `rights`, sorted to where they belong. */
  lemma ClassifiedJoin(lefts: seq<Row>, rights: seq<Row>, m: Match, e: Expr, n: nat)
    requires HasWidth(lefts, n)
    ensures var cs := Split(e);
      Select(Join(lefts, rights, m), [e]) ==
      Select(Join(Select(lefts, LeftOf(cs, n)), Select(rights, RightOf(cs, n)), m), RestOf(cs, n))
  {
    var cs := Split(e);
    SelectSplit(Join(lefts, rights, m), e);
    forall i, j | 0 <= i < |lefts| && 0 <= j < |rights|
      ensures Equivalent(lefts[i], rights[j], m, cs, LeftOf(cs, n), RightOf(cs, n), m, RestOf(cs, n))
    {
      ClassifyKeeps(cs, lefts[i], rights[j]);
    }
    PushIntoJoin(lefts, rights, m, cs, LeftOf(cs, n), RightOf(cs, n), m, RestOf(cs, n));
  }

  /** For every plan whose declared widths are right and whose scans have no limit,
      the rewritten plan denotes the same rows in the same order. */
  lemma {:induction false} PushdownKeepsRows(p: Plan, db: Database)
    requires Typed(p, db) && NoScanLimits(p)
    ensures Kept(p, Pushdown(p), db)
    decreases Size(p), 0
  {
    if p.Filter? {
      var c := p.child;
      assert Size(p) == 1 + Size(c);
      if c.SeqScan? {
        FilterIntoScan(p, db);
      } else if c.NestedLoopJoin? || c.HashJoin? {
        var cs, n := Split(p.pred), c.left.width;
        ClassifiedJoin(Rows(c.left, db), Rows(c.right, db), MatchOf(c), p.pred, n);
        PushIntoRows(c.left, LeftOf(cs, n), db);
        PushIntoRows(c.right, RightOf(cs, n), db);
        SelectWidth(Rows(c.left, db), LeftOf(cs, n), n);
        var l, r := PushInto(c.left, LeftOf(cs, n)), PushInto(c.right, RightOf(cs, n));
        var join := if c.NestedLoopJoin? then NestedLoopJoin(c.width, c.on, l, r)
                    else HashJoin(c.width, c.leftKey, c.rightKey, l, r);
        OnTopRows(p.width, RestOf(cs, n), join, db);
      }
    }
  }

  lemma {:induction false} PushIntoRows(p: Plan, cs: seq<Expr>, db: Database)
    requires Typed(p, db) && NoScanLimits(p)
    ensures var p' := PushInto(p, cs);
      Rows(p', db) == Select(Rows(p, db), cs) && Typed(p', db) && NoScanLimits(p') && p'.width == p.width
    decreases Size(p) + 1, 1
  {
    if cs == [] {
      SelectNone(Rows(p, db));
    } else {
      PushdownKeepsRows(Filter(p.width, Combine(cs), p), db);
      SelectCombine(Rows(p, db), cs);
    }
  }

  // ---- What pushdown leaves on top ------------------------------------------

  /** No filter of the plan stands on a scan, and none on a join has a conjunct for one input alone. */
  predicate Settled(p: Plan) {
    match p
    case SeqScan(_, _, _, _, _) => true
    case Leaf(_, _) => true
    case Unary(_, _, c) => Settled(c)
    case Filter(_, e, c) =>
      && Settled(c) && !c.SeqScan?
      && (c.NestedLoopJoin? || c.HashJoin? ==>
            forall x :: x in Split(e) ==> !GoesLeft(x, c.left.width) && !GoesRight(x, c.left.width))
    case NestedLoopJoin(_, _, l, r) => Settled(l) && Settled(r)
    case HashJoin(_, _, _, l, r) => Settled(l) && Settled(r)
  }

  lemma {:induction false} RestStays(cs: seq<Expr>, n: nat)
    ensures forall c :: c in RestOf(cs, n) ==> c in cs && !GoesLeft(c, n) && !GoesRight(c, n)
  {
    if cs != [] {
      RestStays(cs[..|cs| - 1], n);
    }
  }

  lemma OnTopSettled(width: nat, e: Expr, join: Plan)
    requires (join.NestedLoopJoin? || join.HashJoin?) && Settled(join)
    ensures Settled(OnTop(width, RestOf(Split(e), join.left.width), join))
  {
    var rest := RestOf(Split(e), join.left.width);
    RestStays(Split(e), join.left.width);
    if rest != [] {
      forall c | c in rest
        ensures Split(c) == [c]
      {
        SplitParts(e, c);
      }
      SplitCombine(rest);
    }
  }

  lemma {:induction false} PushIntoSettles(p: Plan, cs: seq<Expr>)
    requires Settled(p)
    ensures Settled(PushInto(p, cs)) && PushInto(p, cs).width == p.width
    decreases Size(p) + 1, 1
  {
    if cs != [] {
      PushdownSettles(Combine(cs), p, p.width);
    }
  }

  /** Over a settled plan a filter is pushed as far as it goes, conjunct by conjunct. */
  lemma {:induction false} PushdownSettles(e: Expr, c: Plan, width: nat)
    requires Settled(c)
    ensures Settled(Pushdown(Filter(width, e, c))) && (width == c.width ==> Pushdown(Filter(width, e, c)).width == c.width)
    decreases Size(c) + 1, 0
  {
    if c.NestedLoopJoin? || c.HashJoin? {
      var cs, n := Split(e), c.left.width;
      PushIntoSettles(c.left, LeftOf(cs, n));
      PushIntoSettles(c.right, RightOf(cs, n));
      var l, r := PushInto(c.left, LeftOf(cs, n)), PushInto(c.right, RightOf(cs, n));
      OnTopSettled(width, e, if c.NestedLoopJoin? then NestedLoopJoin(c.width, c.on, l, r)
                             else HashJoin(c.width, c.leftKey, c.rightKey, l, r));
    }
  }

  // ---- When the rewritten plan raises --------------------------------------

  /** A filter `e` merged into a scan: where the scan's own predicate rejects the row,
      `e` need only have a value, of whatever type. */
  predicate ScanSafe(scan: Option<Expr>, e: Expr, row: Row) {
    if scan.Some? && !Keeps(scan.value, row) then Eval(e, OneRow(row)).Val? else Readable(e, row)
  }

  /** The rows of two inputs that pass their conjuncts, joined. */
  function JoinedRows(e: Expr, l: Plan, r: Plan, m: Match, db: Database): seq<Row> {
    var cs, n := Split(e), l.width;
    Join(Select(Rows(l, db), LeftOf(cs, n)), Select(Rows(r, db), RightOf(cs, n)), m)
  }

  /** A filter `e` can be pushed into `c` and raise nothing: the conjuncts sent to one
      input can be read on all rows of that input, joined or not, those left over on the
      joined rows that passed the others, and those that reach a scan on its table. */
  ghost predicate PushSafe(e: Expr, c: Plan, db: Database)
    decreases c
  {
    match c
    case SeqScan(t, _, scan, limit, _) => limit == Some(0) || forall row :: row in db.tables(t) ==> ScanSafe(scan, e, row)
    case NestedLoopJoin(_, on, l, r) =>
      var cs, n := Split(e), l.width;
      && (LeftOf(cs, n) != [] ==> PushSafe(Combine(LeftOf(cs, n)), l, db))
      && (RightOf(cs, n) != [] ==> PushSafe(Combine(RightOf(cs, n)), r, db))
      && RestSafe(RestOf(cs, n), JoinedRows(e, l, r, OnAll(Conjunct(on)), db))
    case HashJoin(_, lk, rk, l, r) =>
      var cs, n := Split(e), l.width;
      && (LeftOf(cs, n) != [] ==> PushSafe(Combine(LeftOf(cs, n)), l, db))
      && (RightOf(cs, n) != [] ==> PushSafe(Combine(RightOf(cs, n)), r, db))
      && RestSafe(RestOf(cs, n), JoinedRows(e, l, r, OnKeys(lk, rk), db))
    case Leaf(_, _) => forall row :: row in Rows(c, db) ==> Readable(e, row)
    case Unary(_, _, _) => forall row :: row in Rows(c, db) ==> Readable(e, row)
    case Filter(_, _, _) => forall row :: row in Rows(c, db) ==> Readable(e, row)
  }

  /** The guard of the rewrite, which can be evaluated before it. */
  ghost predicate PushdownSafe(p: Plan, db: Database) {
    p.Filter? ==> PushSafe(p.pred, p.child, db)
  }

  /** The merged predicate of a scan that raises nothing by itself. */
  lemma MergedReadable(e: Expr, e': Expr, row: Row)
    requires Readable(e, row)
    ensures Readable(Both(e, e'), row) <==> ScanSafe(Some(e), e', row)
  {
  }

  lemma PushIntoScanRuns(e: Expr, c: Plan, db: Database)
    requires c.SeqScan? && NoScanLimits(c) && Run(c, db).Some?
    ensures Run(Pushdown(Filter(c.width, e, c)), db).Some? <==> PushSafe(e, c, db)
  {
    if c.limit != Some(0) {
      var rows, merged := db.tables(c.table), if c.scan.Some? then Both(c.scan.value, e) else e;
      RunScanExactly(rows, c.scan, c.limit);
      RunScanExactly(rows, Some(merged), c.limit);
      forall row | row in rows
        ensures Readable(merged, row) <==> ScanSafe(c.scan, e, row)
      {
        if c.scan.Some? {
          MergedReadable(c.scan.value, e, row);
        }
      }
    }
  }

  /** The rule leaves the predicates of the joins alone. */
  lemma {:induction false} PushdownUnsided(p: Plan)
    requires UnsidedLoops(p)
    ensures UnsidedLoops(Pushdown(p))
    decreases Size(p), 0
  {
    if p.Filter? && (p.child.NestedLoopJoin? || p.child.HashJoin?) {
      var cs, n := Split(p.pred), p.child.left.width;
      assert Size(p) == 1 + Size(p.child);
      PushIntoUnsided(p.child.left, LeftOf(cs, n));
      PushIntoUnsided(p.child.right, RightOf(cs, n));
    }
  }

  lemma {:induction false} PushIntoUnsided(p: Plan, cs: seq<Expr>)
    requires UnsidedLoops(p)
    ensures UnsidedLoops(PushInto(p, cs))
    decreases Size(p) + 1, 1
  {
    if cs != [] {
      PushdownUnsided(Filter(p.width, Combine(cs), p));
    }
  }

  /** One input of the join. */
  lemma {:induction false} PushIntoRuns(p: Plan, cs: seq<Expr>, db: Database)
    requires Typed(p, db) && NoScanLimits(p) && UnsidedLoops(p) && Run(p, db).Some?
    ensures Run(PushInto(p, cs), db).Some? <==> (cs != [] ==> PushSafe(Combine(cs), p, db))
    ensures Run(PushInto(p, cs), db).Some? ==> Run(PushInto(p, cs), db).value == Select(Rows(p, db), cs)
    decreases Size(p), 1
  {
    PushIntoRows(p, cs, db);
    PushIntoUnsided(p, cs);
    if cs != [] {
      PushRunsExactly(Combine(cs), p, db);
    }
    if Run(PushInto(p, cs), db).Some? {
      RunIsRows(PushInto(p, cs), db);
    }
  }

  lemma {:induction false} PushRunsExactly(e: Expr, c: Plan, db: Database)
    requires Typed(c, db) && NoScanLimits(c) && UnsidedLoops(c) && Run(c, db).Some?
    ensures Run(Pushdown(Filter(c.width, e, c)), db).Some? <==> PushSafe(e, c, db)
    decreases Size(c), 0
  {
    if c.SeqScan? {
      PushIntoScanRuns(e, c, db);
    } else if c.NestedLoopJoin? || c.HashJoin? {
      var cs, n := Split(e), c.left.width;
      var l, r := PushInto(c.left, LeftOf(cs, n)), PushInto(c.right, RightOf(cs, n));
      var join := if c.NestedLoopJoin? then NestedLoopJoin(c.width, c.on, l, r)
                  else HashJoin(c.width, c.leftKey, c.rightKey, l, r);
      PushIntoUnsided(c.left, LeftOf(cs, n));
      PushIntoUnsided(c.right, RightOf(cs, n));
      PushIntoRows(c.left, LeftOf(cs, n), db);
      PushIntoRows(c.right, RightOf(cs, n), db);
      JoinRunsExactly(c, db);
      PushIntoRuns(c.left, LeftOf(cs, n), db);
      PushIntoRuns(c.right, RightOf(cs, n), db);
      SelectedReadable(Rows(c.left, db), Rows(c.right, db), MatchOf(c), LeftOf(cs, n), RightOf(cs, n));
      JoinRunsExactly(join, db);
      assert Rows(join, db) == JoinedRows(e, c.left, c.right, MatchOf(c), db);
      OnTopRuns(c.width, RestOf(cs, n), join, db);
    } else {
      RunIsRows(c, db);
      RunSelectIsSelect(Rows(c, db), e);
    }
  }

  /** A plan that raises nothing yields the same rows after the rewrite exactly when the
      guard holds, and otherwise the rewritten plan raises. */
  lemma PushdownRunsExactly(p: Plan, db: Database)
    requires Typed(p, db) && NoScanLimits(p) && UnsidedLoops(p) && Run(p, db).Some?
    ensures Run(Pushdown(p), db) == if PushdownSafe(p, db) then Run(p, db) else None
  {
    PushdownKeepsRows(p, db);
    PushdownUnsided(p);
    RunIsRows(p, db);
    if p.Filter? {
      PushRunsExactly(p.pred, p.child, db);
    }
    if Run(Pushdown(p), db).Some? {
      RunIsRows(Pushdown(p), db);
    }
  }

  // ---- Where the rule is not exact ----------------------------------------

  function Falses(k: nat): (rows: seq<Row>)
    ensures |rows| == k
  {
    if k == 0 then [] else [[Boolean(false)]] + Falses(k - 1)
  }

  lemma {:induction false} SelectFalses(k: nat, e: Expr)
    requires e == Column(0, None)
    ensures Select(Falses(k), [e]) == []
    ensures Select(Falses(k) + [[Boolean(true)]], [e]) == [[Boolean(true)]]
  {
    var t := [[Boolean(true)]];
    KeepsSingle(e, [Boolean(false)]);
    KeepsSingle(e, [Boolean(true)]);
    assert t[0] == [Boolean(true)] && t[1..] == [];
    if k == 0 {
      assert Falses(0) + t == t;
      assert Select(t, [e]) == [t[0]] + Select(t[1..], [e]);
    } else {
      SelectFalses(k - 1, e);
      var f := Falses(k);
      assert f[0] == [Boolean(false)] && f[1..] == Falses(k - 1);
      assert (f + t)[0] == f[0] && (f + t)[1..] == Falses(k - 1) + t;
    }
  }

  /** A scan that stops early or skips rows, and a filter that tells the difference. */
  lemma LimitedScanDiffers(limit: Option<nat>, offset: nat) returns (p: Plan, db: Database)
    requires !AllOrNothing(limit, offset)
    ensures p.Filter? && p.child.SeqScan? && p.child.limit == limit && p.child.offset == offset
    ensures Rows(Pushdown(p), db) != Rows(p, db)
  {
    var e, t := Column(0, None), [[Boolean(true)]];
    var k := if offset > 0 then offset else limit.value;
    var table := Falses(k) + t;
    p := Filter(1, e, SeqScan("t", 1, None, limit, offset));
    db := Database(_ => table, _ => [], (_, rows) => rows);
    SelectNone(table);
    SelectFalses(k, e);
    SliceDiffers(limit, offset, k);
    assert Rows(Pushdown(p), db) == Slice(t, offset, limit);
    assert Rows(p, db) == Select(Slice(table, offset, limit), [e]);
  }

  lemma SliceDiffers(limit: Option<nat>, offset: nat, k: nat)
    requires !AllOrNothing(limit, offset) && k == if offset > 0 then offset else limit.value
    ensures var t := [[Boolean(true)]];
      Slice(t, offset, limit) != Select(Slice(Falses(k) + t, offset, limit), [Column(0, None)])
  {
    var t := [[Boolean(true)]];
    var table := Falses(k) + t;
    if offset > 0 {
      assert table[offset..] == t;
      SelectFalses(0, Column(0, None));
      assert Falses(0) + t == t;
    } else {
      assert table[0..] == table && table[..k] == Falses(k);
      SelectFalses(k, Column(0, None));
    }
  }

  /** A filter may go into a scan, whatever the table and the predicate, exactly
      when the scan yields all of its rows or none. */
  lemma ScanPushdownExact(limit: Option<nat>, offset: nat)
    ensures AllOrNothing(limit, offset) <==>
      forall p: Plan, db: Database :: p.Filter? && p.child.SeqScan? && p.child.limit == limit && p.child.offset == offset ==>
        Rows(Pushdown(p), db) == Rows(p, db)
  {
    if AllOrNothing(limit, offset) {
      forall p: Plan, db: Database | p.Filter? && p.child.SeqScan? && p.child.limit == limit && p.child.offset == offset
        ensures Rows(Pushdown(p), db) == Rows(p, db)
      {
        FilterIntoScan(p, db);
      }
    } else {
      var p, db := LimitedScanDiffers(limit, offset);
    }
  }

  lemma {:induction false} JoinNothing(lefts: seq<Row>, m: Match)
    ensures Join(lefts, [], m) == []
  {
    if lefts != [] {
      JoinNothing(lefts[1..], m);
    }
  }

  lemma SentLeft(e: Expr)
    requires e == Not(Column(0, None))
    ensures Split(e) == [e] && LeftOf([e], 1) == [e]
  {
    var cs := [e];
    assert cs[..1] == cs && cs[..0] == [] && Columns(e) == [0];
    ClassifyNext(cs, 0, 1);
  }

  lemma NoPartners(p: Plan, db: Database)
    requires p.Filter? && p.child.NestedLoopJoin? && p.child.on.None? && p.child.left.Leaf? && p.child.right.Leaf?
    requires Rows(p.child.right, db) == []
    ensures Run(p, db) == Some([])
  {
    RunJoinExactly(Rows(p.child.left, db), [], OnAll([]));
    RunIsRows(p.child, db);
    JoinNothing(Rows(p.child.left, db), OnAll([]));
  }

  /** An exception can appear: a pushed conjunct is evaluated on rows that have no partner. */
  lemma PushdownCanRaise() returns (p: Plan, db: Database)
    ensures Typed(p, db) && NoScanLimits(p) && Run(p, db) == Some([]) && Run(Pushdown(p), db) == None
  {
    var e := Not(Column(0, None));
    var l: Row := [Integer(1)];
    p := Filter(2, e, NestedLoopJoin(2, None, Leaf("l", 1), Leaf("r", 1)));
    db := Database(_ => [], name => if name == "l" then [l] else [], (_, rows) => rows);
    NoPartners(p, db);
    SentLeft(e);
    assert l in Rows(p.child.left, db) && !Readable(e, l);
    assert !PushSafe(Combine([e]), p.child.left, db);
    PushdownRunsExactly(p, db);
  }

  lemma SplitColumns(a: Expr, b: Expr)
    requires a == Column(0, None) && b == Column(1, None)
    ensures Split(Both(a, b)) == [a, b] && RightOf([a, b], 1) == [Column(0, None)]
  {
    var cs := [a, b];
    assert Split(a) == [a] && Split(b) == [b] && [a] + [b] == cs;
    assert Columns(a) == [0] && Columns(b) == [1];
    assert !GoesRight(a, 1) && GoesRight(b, 1) by {
      assert 0 in Columns(a);
    }
    ClassifyNext(cs, 0, 1);
    ClassifyNext(cs, 1, 1);
    assert cs[..2] == cs && cs[..1] == [a] && cs[..0] == [];
    assert RightOf([], 1) == [];
    assert Shift(b, 1) == Column(0, None);
  }

  /** One joined row that a filter rejects without raising. */
  lemma RejectedRow(p: Plan, l: Row, r: Row, db: Database)
    requires p.Filter? && p.child.NestedLoopJoin? && p.child.on.None? && p.child.left.Leaf? && p.child.right.Leaf?
    requires Rows(p.child.left, db) == [l] && Rows(p.child.right, db) == [r]
    requires Eval(p.pred, OneRow(l + r)) == Val(Boolean(false))
    ensures Rows(p.child, db) == [l + r] && Run(p, db) == Some([])
  {
    var lefts, rights, rows := [l], [r], [l + r];
    assert lefts[1..] == [] && rights[1..] == [] && rows[1..] == [];
    assert KeepsAll([], l + r) && JoinRow(l, rights, OnAll([])) == rows + JoinRow(l, [], OnAll([])) == rows;
    assert Join(lefts, rights, OnAll([])) == rows + Join([], rights, OnAll([])) == rows;
    RunJoinExactly(lefts, rights, OnAll([]));
    RunIsRows(p.child, db);
    RunSelectIsSelect(rows, p.pred);
    KeepsSingle(p.pred, rows[0]);
  }

  /** Partners do not help: a conjunct that is no truth value was hidden by a false one
      of the other input. */
  lemma PushdownCanRaiseMatched() returns (p: Plan, db: Database)
    ensures Typed(p, db) && NoScanLimits(p) && Run(p, db) == Some([]) && Run(Pushdown(p), db) == None
    ensures Rows(p.child, db) == [[Boolean(false), Integer(5)]]
  {
    var a, b := Column(0, None), Column(1, None);
    var l: Row, r: Row := [Boolean(false)], [Integer(5)];
    p := Filter(2, Both(a, b), NestedLoopJoin(2, None, Leaf("l", 1), Leaf("r", 1)));
    db := Database(_ => [], name => if name == "l" then [l] else [r], (_, rows) => rows);
    RejectedRow(p, l, r, db);
    assert l + r == [Boolean(false), Integer(5)];
    SplitColumns(a, b);
    assert r in Rows(p.child.right, db) && !Readable(Column(0, None), r);
    assert !PushSafe(Combine([Column(0, None)]), p.child.right, db);
    PushdownRunsExactly(p, db);
  }
}

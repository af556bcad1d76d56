/** The cost-based join rule, and what it still finds to do after join selection. */
module CostBasedJoin {
  import opened Common
  import opened Expressions
  import opened Plans
  import opened Conjuncts
  import opened JoinSelection
  import PP = PredicatePushdown

  /** The first equality of two bare columns, one of each input. */
  function ExtractEquiKeys(e: Expr, n: nat): Option<(Expr, Expr)> {
    if !e.Binary? then None
    else if e.op.Logic? then
      if e.op == Logic(And) then
        var keys := ExtractEquiKeys(e.left, n);
        if keys.Some? then keys else ExtractEquiKeys(e.right, n)
      else None
    else if e.op != Compare(Equal) || Columns(e.left) == [] || Columns(e.right) == [] then None
    else if AllLeft(e.left, n) && AllRight(e.right, n) && e.left.Column? && e.right.Column? then
      assert e.right.index in Columns(e.right);
      Some((Column(e.left.index, None), Column(e.right.index - n, None)))
    else if AllRight(e.left, n) && AllLeft(e.right, n) && e.left.Column? && e.right.Column? then
      assert e.left.index in Columns(e.left);
      Some((Column(e.right.index, None), Column(e.left.index - n, None)))
    else None
  }

  /** Promotes a nested loop join whose predicate has such an equality, if the cost
      model says so; the other conjuncts are not looked at again. */
  function CostBased(p: Plan, cheaper: Plan -> bool): Plan {
    match p
    case SeqScan(_, _, _, _, _) => p
    case Leaf(_, _) => p
    case Unary(name, w, c) => Unary(name, w, CostBased(c, cheaper))
    case Filter(w, e, c) => Filter(w, e, CostBased(c, cheaper))
    case HashJoin(w, lk, rk, l, r) => HashJoin(w, lk, rk, CostBased(l, cheaper), CostBased(r, cheaper))
    case NestedLoopJoin(w, on, l, r) =>
      var join := NestedLoopJoin(w, on, CostBased(l, cheaper), CostBased(r, cheaper));
      var keys := if on.Some? then ExtractEquiKeys(on.value, join.left.width) else None;
      if keys.Some? && cheaper(join) then HashJoin(w, keys.value.0, keys.value.1, join.left, join.right)
      else join
  }

  /** No nested loop join has an equality between its inputs among its conjuncts. */
  predicate NoEquiLeft(p: Plan) {
    match p
    case SeqScan(_, _, _, _, _) => true
    case Leaf(_, _) => true
    case Unary(_, _, c) => NoEquiLeft(c)
    case Filter(_, _, c) => NoEquiLeft(c)
    case HashJoin(_, _, _, l, r) => NoEquiLeft(l) && NoEquiLeft(r)
    case NestedLoopJoin(_, on, l, r) =>
      NoEquiLeft(l) && NoEquiLeft(r) && forall c :: c in ConjunctsOf(on) ==> !IsEqui(c, l.width)
  }

  /** Join selection leaves no such equality behind. */
  lemma {:induction false} JoinSelectTakesAll(p: Plan)
    ensures NoEquiLeft(JoinSelect(p))
  {
    match p {
      case SeqScan(_, _, _, _, _) =>
      case Leaf(_, _) =>
      case Unary(_, _, c) => JoinSelectTakesAll(c);
      case Filter(_, _, c) => JoinSelectTakesAll(c);
      case HashJoin(_, _, _, l, r) =>
        JoinSelectTakesAll(l);
        JoinSelectTakesAll(r);
      case NestedLoopJoin(_, on, l, r) =>
        JoinSelectTakesAll(l);
        JoinSelectTakesAll(r);
        var cs, n := ConjunctsOf(on), JoinSelect(l).width;
        if FirstEqui(cs, n) == |cs| && cs != [] {
          forall c | c in cs
            ensures Split(c) == [c] && !IsEqui(c, n)
          {
            SplitParts(on.value, c);
            var i :| 0 <= i < |cs| && cs[i] == c;
          }
          SplitCombine(cs);
        }
    }
  }

  /** Extraction finds nothing where no conjunct is an equality between the inputs. */
  lemma {:induction false} NothingToExtract(e: Expr, n: nat)
    requires forall c :: c in Split(e) ==> !IsEqui(c, n)
    ensures ExtractEquiKeys(e, n).None?
  {
    if e.Binary? && e.op == Logic(And) {
      assert forall c :: c in Split(e.left) || c in Split(e.right) ==> c in Split(e);
      NothingToExtract(e.left, n);
      NothingToExtract(e.right, n);
    } else {
      assert e in Split(e);
    }
  }

  lemma {:induction false} CostBasedIdle(p: Plan, cheaper: Plan -> bool)
    requires NoEquiLeft(p)
    ensures CostBased(p, cheaper) == p
  {
    match p {
      case SeqScan(_, _, _, _, _) =>
      case Leaf(_, _) =>
      case Unary(_, _, c) => CostBasedIdle(c, cheaper);
      case Filter(_, _, c) => CostBasedIdle(c, cheaper);
      case HashJoin(_, _, _, l, r) =>
        CostBasedIdle(l, cheaper);
        CostBasedIdle(r, cheaper);
      case NestedLoopJoin(_, on, l, r) =>
        CostBasedIdle(l, cheaper);
        CostBasedIdle(r, cheaper);
        if on.Some? {
          NothingToExtract(on.value, l.width);
        }
    }
  }

  /** After join selection the cost-based rule returns every plan unchanged,
      whatever the cost model says. */
  lemma CostBasedAfterSelection(p: Plan, cheaper: Plan -> bool)
    ensures CostBased(JoinSelect(p), cheaper) == JoinSelect(p)
  {
    JoinSelectTakesAll(p);
    CostBasedIdle(JoinSelect(p), cheaper);
  }

  // ---- The rule on its own -------------------------------------------------

  /** The extracted keys are those of some conjunct, up to the side their columns name. */
  lemma {:induction false} ExtractedConjunct(e: Expr, n: nat) returns (k: nat)
    requires ExtractEquiKeys(e, n).Some?
    ensures k < |Split(e)| && IsEqui(Split(e)[k], n)
    ensures var (a, b), (lk, rk) := KeysOf(Split(e)[k], n), ExtractEquiKeys(e, n).value;
      a.Column? && b.Column? && lk == Column(a.index, None) && rk == Column(b.index, None)
  {
    if e.op == Logic(And) {
      if ExtractEquiKeys(e.left, n).Some? {
        k := ExtractedConjunct(e.left, n);
      } else {
        k := ExtractedConjunct(e.right, n);
        k := |Split(e.left)| + k;
      }
    } else {
      k := 0;
    }
  }

  /** Keys are extracted exactly if some conjunct is an equality of two bare columns, one of each input. */
  lemma {:induction false} ExtractExactly(e: Expr, n: nat)
    ensures ExtractEquiKeys(e, n).Some? <==> exists c :: c in Split(e) && IsEqui(c, n) && c.left.Column? && c.right.Column?
  {
    if e.Binary? && e.op == Logic(And) {
      ExtractExactly(e.left, n);
      ExtractExactly(e.right, n);
      assert forall c :: c in Split(e) <==> c in Split(e.left) || c in Split(e.right);
    } else {
      assert e in Split(e);
      if e.Binary? && e.left.Column? && e.right.Column? {
        assert Columns(e.left) == [e.left.index] && Columns(e.right) == [e.right.index];
      }
    }
  }

  /** The rule promotes where the cost model says so, and nowhere else. */
  lemma {:induction false} CostDecides(p: Plan, cheaper: Plan -> bool)
    ensures (forall q :: !cheaper(q)) ==> CostBased(p, cheaper) == p
    ensures (forall q :: cheaper(q)) ==> NothingExtractable(CostBased(p, cheaper))
  {
    match p {
      case SeqScan(_, _, _, _, _) =>
      case Leaf(_, _) =>
      case Unary(_, _, c) => CostDecides(c, cheaper);
      case Filter(_, _, c) => CostDecides(c, cheaper);
      case HashJoin(_, _, _, l, r) =>
        CostDecides(l, cheaper);
        CostDecides(r, cheaper);
      case NestedLoopJoin(_, _, l, r) =>
        CostDecides(l, cheaper);
        CostDecides(r, cheaper);
    }
  }

  predicate NothingExtractable(p: Plan) {
    match p
    case SeqScan(_, _, _, _, _) => true
    case Leaf(_, _) => true
    case Unary(_, _, c) => NothingExtractable(c)
    case Filter(_, _, c) => NothingExtractable(c)
    case HashJoin(_, _, _, l, r) => NothingExtractable(l) && NothingExtractable(r)
    case NestedLoopJoin(_, on, l, r) =>
      NothingExtractable(l) && NothingExtractable(r) && (on.Some? ==> ExtractEquiKeys(on.value, l.width).None?)
  }

  /** The nested loops are the hash join on the extracted keys, filtered by their predicate. */
  lemma PromotedJoin(lefts: seq<Row>, rights: seq<Row>, on: Expr, n: nat)
    requires HasWidth(lefts, n) && ExtractEquiKeys(on, n).Some?
    ensures var (lk, rk) := ExtractEquiKeys(on, n).value;
      Join(lefts, rights, OnAll([on])) == Select(Join(lefts, rights, OnKeys(lk, rk)), [on])
  {
    var (lk, rk) := ExtractEquiKeys(on, n).value;
    var k := ExtractedConjunct(on, n);
    forall i, j | 0 <= i < |lefts| && 0 <= j < |rights|
      ensures Equivalent(lefts[i], rights[j], OnAll([on]), [], [], [], OnKeys(lk, rk), [on])
    {
      var row := lefts[i] + rights[j];
      KeepsSingle(on, row);
      SplitKeeps(on, row);
      EquiMeansKeys(Split(on)[k], lefts[i], rights[j]);
      assert Split(on)[k] in Split(on);
    }
    SameJoin(lefts, rights, OnAll([on]), OnKeys(lk, rk), [on]);
  }

  /** The keys of a join's predicate say all that the predicate says. */
  ghost predicate KeysSuffice(on: Expr, n: nat, lefts: seq<Row>, rights: seq<Row>)
    requires ExtractEquiKeys(on, n).Some?
  {
    var (lk, rk) := ExtractEquiKeys(on, n).value;
    forall row :: row in Join(lefts, rights, OnKeys(lk, rk)) ==> Keeps(on, row)
  }

  /** A promoted join keeps its rows exactly when the whole predicate holds of every
      pair that the keys join. */
  lemma PromotionExact(w: nat, on: Expr, l: Plan, r: Plan, db: Database)
    requires HasWidth(Rows(l, db), l.width) && ExtractEquiKeys(on, l.width).Some?
    ensures var (lk, rk) := ExtractEquiKeys(on, l.width).value;
      Rows(HashJoin(w, lk, rk, l, r), db) == Rows(NestedLoopJoin(w, Some(on), l, r), db) <==>
      KeysSuffice(on, l.width, Rows(l, db), Rows(r, db))
  {
    var (lk, rk) := ExtractEquiKeys(on, l.width).value;
    var rows := Join(Rows(l, db), Rows(r, db), OnKeys(lk, rk));
    PromotedJoin(Rows(l, db), Rows(r, db), on, l.width);
    SelectsAll(rows, [on]);
    forall row
      ensures KeepsAll([on], row) <==> Keeps(on, row)
    {
      KeepsSingle(on, row);
    }
  }

  /** The guard that the rule does not have, on every join it could promote. */
  ghost predicate PromotionSafe(p: Plan, db: Database) {
    match p
    case SeqScan(_, _, _, _, _) => true
    case Leaf(_, _) => true
    case Unary(_, _, c) => PromotionSafe(c, db)
    case Filter(_, _, c) => PromotionSafe(c, db)
    case HashJoin(_, _, _, l, r) => PromotionSafe(l, db) && PromotionSafe(r, db)
    case NestedLoopJoin(_, on, l, r) =>
      && PromotionSafe(l, db) && PromotionSafe(r, db)
      && (on.Some? && ExtractEquiKeys(on.value, l.width).Some? ==>
            KeysSuffice(on.value, l.width, Rows(l, db), Rows(r, db)))
  }

  /** Under the guard the rule alone keeps rows and order, whatever the cost model says. */
  lemma {:induction false} CostBasedKeepsRows(p: Plan, db: Database, cheaper: Plan -> bool)
    requires Typed(p, db) && PromotionSafe(p, db)
    ensures Kept(p, CostBased(p, cheaper), db)
  {
    match p {
      case SeqScan(_, _, _, _, _) =>
      case Leaf(_, _) =>
      case Unary(_, _, c) => CostBasedKeepsRows(c, db, cheaper);
      case Filter(_, _, c) => CostBasedKeepsRows(c, db, cheaper);
      case HashJoin(_, _, _, l, r) =>
        CostBasedKeepsRows(l, db, cheaper);
        CostBasedKeepsRows(r, db, cheaper);
      case NestedLoopJoin(w, on, l, r) =>
        CostBasedKeepsRows(l, db, cheaper);
        CostBasedKeepsRows(r, db, cheaper);
        if on.Some? && ExtractEquiKeys(on.value, l.width).Some? {
          PromotionExact(w, on.value, CostBased(l, cheaper), CostBased(r, cheaper), db);
        }
    }
  }

  /** Every join that the rule could promote has a single conjunct. */
  predicate SingleConjuncts(p: Plan) {
    match p
    case SeqScan(_, _, _, _, _) => true
    case Leaf(_, _) => true
    case Unary(_, _, c) => SingleConjuncts(c)
    case Filter(_, _, c) => SingleConjuncts(c)
    case HashJoin(_, _, _, l, r) => SingleConjuncts(l) && SingleConjuncts(r)
    case NestedLoopJoin(_, on, l, r) =>
      && SingleConjuncts(l) && SingleConjuncts(r)
      && (on.Some? && ExtractEquiKeys(on.value, l.width).Some? ==> Split(on.value) == [on.value])
  }

  /** A single equality is all in its keys. */
  lemma SingleSuffices(on: Expr, n: nat, lefts: seq<Row>, rights: seq<Row>)
    requires HasWidth(lefts, n) && ExtractEquiKeys(on, n).Some? && Split(on) == [on]
    ensures KeysSuffice(on, n, lefts, rights)
  {
    var (lk, rk) := ExtractEquiKeys(on, n).value;
    var k := ExtractedConjunct(on, n);
    forall row | row in Join(lefts, rights, OnKeys(lk, rk))
      ensures Keeps(on, row)
    {
      var l, r := JoinedFrom(lefts, rights, OnKeys(lk, rk), row);
      EquiMeansKeys(on, l, r);
    }
  }

  /** With single conjuncts the rule alone keeps rows, order and widths on every database. */
  lemma CostBasedSingle(p: Plan, db: Database, cheaper: Plan -> bool)
    requires Typed(p, db) && SingleConjuncts(p)
    ensures Kept(p, CostBased(p, cheaper), db)
  {
    SinglesSafe(p, db);
    CostBasedKeepsRows(p, db, cheaper);
  }

  lemma {:induction false} SinglesSafe(p: Plan, db: Database)
    requires Typed(p, db) && SingleConjuncts(p)
    ensures PromotionSafe(p, db)
  {
    match p {
      case SeqScan(_, _, _, _, _) =>
      case Leaf(_, _) =>
      case Unary(_, _, c) => SinglesSafe(c, db);
      case Filter(_, _, c) => SinglesSafe(c, db);
      case HashJoin(_, _, _, l, r) =>
        SinglesSafe(l, db);
        SinglesSafe(r, db);
      case NestedLoopJoin(_, on, l, r) =>
        SinglesSafe(l, db);
        SinglesSafe(r, db);
        if on.Some? && ExtractEquiKeys(on.value, l.width).Some? {
          SingleSuffices(on.value, l.width, Rows(l, db), Rows(r, db));
        }
    }
  }

  /** On its own the rule loses the other conjuncts. */
  lemma CostBasedAlone() returns (p: Plan, db: Database)
    ensures Typed(p, db) && NoScanLimits(p) && Rows(p, db) == [] && Rows(CostBased(p, _ => true), db) != []
  {
    var equal := Binary(Compare(Equal), Column(0, None), Column(1, None));
    var never := Constant(Boolean(false));
    var row: Row := [Integer(7)];
    p := NestedLoopJoin(2, Some(Both(equal, never)), Leaf("l", 1), Leaf("r", 1));
    db := Database(_ => [], _ => [row], (_, rows) => rows);
    assert ExtractEquiKeys(equal, 1) == Some((Column(0, None), Column(0, None)));
    var q := CostBased(p, _ => true);
    assert q == HashJoin(2, Column(0, None), Column(0, None), Leaf("l", 1), Leaf("r", 1));
    var rows: seq<Row> := [row];
    assert rows[1..] == [];
    KeepsSingle(Both(equal, never), row + row);
    KeepsBoth(equal, never, row + row);
    assert JoinRow(row, rows, OnAll([Both(equal, never)])) == [];
    assert JoinRow(row, rows, OnKeys(Column(0, None), Column(0, None))) == [row + row];
  }

  // ---- The three rules in the optimizer's order ---------------------------

  /** The plan with its inputs optimized, which the rules see at its root. */
  function WithOptimizedInputs(p: Plan, cheaper: Plan -> bool): Plan
    decreases p, 0
  {
    match p
    case SeqScan(_, _, _, _, _) => p
    case Leaf(_, _) => p
    case Unary(name, w, c) => Unary(name, w, Optimize(c, cheaper))
    case Filter(w, e, c) => Filter(w, e, Optimize(c, cheaper))
    case HashJoin(w, lk, rk, l, r) => HashJoin(w, lk, rk, Optimize(l, cheaper), Optimize(r, cheaper))
    case NestedLoopJoin(w, on, l, r) => NestedLoopJoin(w, on, Optimize(l, cheaper), Optimize(r, cheaper))
  }

  /** Children first, then the rules one after the other at the node itself. */
  function Optimize(p: Plan, cheaper: Plan -> bool): Plan
    decreases p, 1
  {
    CostBased(JoinSelect(PP.Pushdown(WithOptimizedInputs(p, cheaper))), cheaper)
  }

  lemma RulesKeepRows(q: Plan, db: Database, cheaper: Plan -> bool)
    requires Typed(q, db) && NoScanLimits(q)
    ensures Kept(q, CostBased(JoinSelect(PP.Pushdown(q)), cheaper), db)
  {
    var pushed := PP.Pushdown(q);
    PP.PushdownKeepsRows(q, db);
    JoinSelectKeepsRows(pushed, db);
    CostBasedAfterSelection(pushed, cheaper);
  }

  /** The whole pass over a plan keeps its rows and their order. */
  lemma {:induction false} OptimizeKeepsRows(p: Plan, db: Database, cheaper: Plan -> bool)
    requires Typed(p, db) && NoScanLimits(p)
    ensures Kept(p, Optimize(p, cheaper), db)
  {
    match p {
      case SeqScan(_, _, _, _, _) =>
      case Leaf(_, _) =>
      case Unary(_, _, c) => OptimizeKeepsRows(c, db, cheaper);
      case Filter(_, _, c) => OptimizeKeepsRows(c, db, cheaper);
      case HashJoin(_, _, _, l, r) =>
        OptimizeKeepsRows(l, db, cheaper);
        OptimizeKeepsRows(r, db, cheaper);
      case NestedLoopJoin(_, _, l, r) =>
        OptimizeKeepsRows(l, db, cheaper);
        OptimizeKeepsRows(r, db, cheaper);
    }
    RulesKeepRows(WithOptimizedInputs(p, cheaper), db, cheaper);
  }

  // ---- When the optimized plan raises ---------------------------------------

  /** Filter `e` pushed into the join `c`: the join, rewritten, runs on the rows that passed,
      and the conjuncts left over can be read on what it yields. */
  ghost predicate PushedJoinRuns(e: Expr, c: Plan, db: Database)
    requires c.NestedLoopJoin? || c.HashJoin?
  {
    var cs, n := Split(e), c.left.width;
    var lefts := Select(Rows(c.left, db), PP.LeftOf(cs, n));
    var rights := Select(Rows(c.right, db), PP.RightOf(cs, n));
    RewrittenRuns(c, lefts, rights) && RestSafe(PP.RestOf(cs, n), Join(lefts, rights, MatchOf(c)))
  }

  /** A filter `e`, pushed into `c` and followed by join selection, raises nothing: the two
      conditions composed, told from the rows that `c` and its inputs denote. */
  ghost predicate PushSelectRuns(e: Expr, c: Plan, db: Database)
    decreases c
  {
    match c
    case SeqScan(t, _, scan, limit, _) =>
      limit == Some(0) ||
      forall row :: row in db.tables(t) ==> Readable(if scan.Some? then Both(scan.value, e) else e, row)
    case NestedLoopJoin(_, _, l, r) =>
      var left, right := PP.LeftOf(Split(e), l.width), PP.RightOf(Split(e), l.width);
      && (if left == [] then SelectRuns(l, db) else PushSelectRuns(Combine(left), l, db))
      && (if right == [] then SelectRuns(r, db) else PushSelectRuns(Combine(right), r, db))
      && PushedJoinRuns(e, c, db)
    case HashJoin(_, _, _, l, r) =>
      var left, right := PP.LeftOf(Split(e), l.width), PP.RightOf(Split(e), l.width);
      && (if left == [] then SelectRuns(l, db) else PushSelectRuns(Combine(left), l, db))
      && (if right == [] then SelectRuns(r, db) else PushSelectRuns(Combine(right), r, db))
      && PushedJoinRuns(e, c, db)
    case Leaf(_, _) => forall row :: row in Rows(c, db) ==> Readable(e, row)
    case Unary(_, _, _) => SelectRuns(c, db) && forall row :: row in Rows(c, db) ==> Readable(e, row)
    case Filter(_, _, _) => SelectRuns(c, db) && forall row :: row in Rows(c, db) ==> Readable(e, row)
  }

  lemma OnTopSelectRuns(width: nat, cs: seq<Expr>, p: Plan, db: Database)
    ensures SelectRuns(OnTop(width, cs, p), db) <==> SelectRuns(p, db) && RestSafe(cs, Rows(p, db))
  {
  }

  lemma {:induction false} PushIntoSelectRuns(p: Plan, cs: seq<Expr>, db: Database)
    requires Typed(p, db) && NoScanLimits(p)
    ensures SelectRuns(PP.PushInto(p, cs), db) <==>
      if cs == [] then SelectRuns(p, db) else PushSelectRuns(Combine(cs), p, db)
    decreases Size(p), 1
  {
    if cs != [] {
      PushedSelectRuns(Combine(cs), p, db);
    }
  }

  /** The join between pushed inputs `l` and `r`. */
  function PushedJoin(c: Plan, l: Plan, r: Plan): Plan
    requires c.NestedLoopJoin? || c.HashJoin?
  {
    if c.NestedLoopJoin? then NestedLoopJoin(c.width, c.on, l, r) else HashJoin(c.width, c.leftKey, c.rightKey, l, r)
  }

  lemma PushedJoinSelects(e: Expr, c: Plan, db: Database, l: Plan, r: Plan)
    requires (c.NestedLoopJoin? || c.HashJoin?) && l.width == c.left.width
    requires Rows(l, db) == Select(Rows(c.left, db), PP.LeftOf(Split(e), c.left.width))
    requires Rows(r, db) == Select(Rows(c.right, db), PP.RightOf(Split(e), c.left.width))
    ensures SelectRuns(OnTop(c.width, PP.RestOf(Split(e), c.left.width), PushedJoin(c, l, r)), db) <==>
      SelectRuns(l, db) && SelectRuns(r, db) && PushedJoinRuns(e, c, db)
  {
    var join := PushedJoin(c, l, r);
    OnTopSelectRuns(c.width, PP.RestOf(Split(e), c.left.width), join, db);
    assert Rows(join, db) == Join(Rows(l, db), Rows(r, db), MatchOf(c));
    assert RewrittenRuns(join, Rows(l, db), Rows(r, db)) <==> RewrittenRuns(c, Rows(l, db), Rows(r, db));
  }

  lemma {:induction false} PushedSelectRuns(e: Expr, c: Plan, db: Database)
    requires Typed(c, db) && NoScanLimits(c)
    ensures SelectRuns(PP.Pushdown(Filter(c.width, e, c)), db) <==> PushSelectRuns(e, c, db)
    decreases Size(c), 0
  {
    if c.SeqScan? {
      RunScanExactly(db.tables(c.table), Some(if c.scan.Some? then Both(c.scan.value, e) else e), c.limit);
    } else if c.NestedLoopJoin? || c.HashJoin? {
      var cs, n := Split(e), c.left.width;
      PushIntoSelectRuns(c.left, PP.LeftOf(cs, n), db);
      PushIntoSelectRuns(c.right, PP.RightOf(cs, n), db);
      PP.PushIntoRows(c.left, PP.LeftOf(cs, n), db);
      PP.PushIntoRows(c.right, PP.RightOf(cs, n), db);
      var l, r := PP.PushInto(c.left, PP.LeftOf(cs, n)), PP.PushInto(c.right, PP.RightOf(cs, n));
      PushedJoinSelects(e, c, db, l, r);
      assert PP.Pushdown(Filter(c.width, e, c)) == OnTop(c.width, PP.RestOf(cs, n), PushedJoin(c, l, r));
    }
  }

  /** The exact condition for a whole plan, composed bottom-up from those of the rules. */
  ghost predicate OptimizeRuns(p: Plan, db: Database, cheaper: Plan -> bool) {
    match p
    case SeqScan(_, _, _, _, _) => Run(p, db).Some?
    case Leaf(_, _) => true
    case Unary(_, _, c) => OptimizeRuns(c, db, cheaper)
    case Filter(_, e, c) => PushSelectRuns(e, Optimize(c, cheaper), db)
    case NestedLoopJoin(_, _, l, r) =>
      OptimizeRuns(l, db, cheaper) && OptimizeRuns(r, db, cheaper) && RewrittenRuns(p, Rows(l, db), Rows(r, db))
    case HashJoin(_, _, _, l, r) =>
      OptimizeRuns(l, db, cheaper) && OptimizeRuns(r, db, cheaper) && RewrittenRuns(p, Rows(l, db), Rows(r, db))
  }

  /** Join selection leaves nothing for itself to do. */
  lemma {:induction false} JoinSelectIdempotent(p: Plan)
    ensures JoinSelect(JoinSelect(p)) == JoinSelect(p)
  {
    match p {
      case SeqScan(_, _, _, _, _) =>
      case Leaf(_, _) =>
      case Unary(_, _, c) => JoinSelectIdempotent(c);
      case Filter(_, _, c) => JoinSelectIdempotent(c);
      case HashJoin(_, _, _, l, r) =>
        JoinSelectIdempotent(l);
        JoinSelectIdempotent(r);
      case NestedLoopJoin(w, on, l, r) =>
        JoinSelectIdempotent(l);
        JoinSelectIdempotent(r);
        var cs := ConjunctsOf(on);
        if FirstEqui(cs, JoinSelect(l).width) == |cs| && cs != [] {
          forall c | c in cs
            ensures Split(c) == [c]
          {
            SplitParts(on.value, c);
          }
          SplitCombine(cs);
        }
    }
  }

  /** What the pass returns is selected already, and its joins name no side. */
  lemma {:induction false} OptimizeSelected(p: Plan, cheaper: Plan -> bool)
    requires UnsidedLoops(p)
    ensures JoinSelect(Optimize(p, cheaper)) == Optimize(p, cheaper) && UnsidedLoops(Optimize(p, cheaper))
  {
    match p {
      case SeqScan(_, _, _, _, _) =>
      case Leaf(_, _) =>
      case Unary(_, _, c) => OptimizeSelected(c, cheaper);
      case Filter(_, _, c) => OptimizeSelected(c, cheaper);
      case HashJoin(_, _, _, l, r) =>
        OptimizeSelected(l, cheaper);
        OptimizeSelected(r, cheaper);
      case NestedLoopJoin(_, _, l, r) =>
        OptimizeSelected(l, cheaper);
        OptimizeSelected(r, cheaper);
    }
    var pushed := PP.Pushdown(WithOptimizedInputs(p, cheaper));
    PP.PushdownUnsided(WithOptimizedInputs(p, cheaper));
    JoinSelectUnsided(pushed);
    CostBasedAfterSelection(pushed, cheaper);
    JoinSelectIdempotent(pushed);
  }

  /** Whatever the original plan does, the optimized one yields the rows that the original
      denotes exactly under the composed condition, and otherwise raises. */
  lemma {:induction false} OptimizeRunsExactly(p: Plan, db: Database, cheaper: Plan -> bool)
    requires Typed(p, db) && NoScanLimits(p) && UnsidedLoops(p)
    ensures Run(Optimize(p, cheaper), db) == if OptimizeRuns(p, db, cheaper) then Some(Rows(p, db)) else None
    decreases p, 0
  {
    match p {
      case SeqScan(_, _, _, _, _) =>
      case Leaf(_, _) =>
      case Unary(_, _, c) => OptimizedInput(c, db, cheaper);
      case Filter(_, e, c) =>
        OptimizedInput(c, db, cheaper);
        PushedSelectRuns(e, Optimize(c, cheaper), db);
      case HashJoin(_, _, _, l, r) =>
        OptimizedInput(l, db, cheaper);
        OptimizedInput(r, db, cheaper);
      case NestedLoopJoin(_, _, l, r) =>
        OptimizedInput(l, db, cheaper);
        OptimizedInput(r, db, cheaper);
    }
    var q := WithOptimizedInputs(p, cheaper);
    PP.PushdownKeepsRows(q, db);
    PP.PushdownUnsided(q);
    CostBasedAfterSelection(PP.Pushdown(q), cheaper);
    JoinSelectRunsExactly(PP.Pushdown(q), db);
  }

  /** The condition on an optimized input is that it runs. */
  lemma {:induction false} OptimizedInput(c: Plan, db: Database, cheaper: Plan -> bool)
    requires Typed(c, db) && NoScanLimits(c) && UnsidedLoops(c)
    ensures Kept(c, Optimize(c, cheaper), db) && UnsidedLoops(Optimize(c, cheaper))
    ensures SelectRuns(Optimize(c, cheaper), db) <==> OptimizeRuns(c, db, cheaper)
    decreases c, 1
  {
    OptimizeKeepsRows(c, db, cheaper);
    OptimizeSelected(c, cheaper);
    OptimizeRunsExactly(c, db, cheaper);
    SelectRunsExactly(Optimize(c, cheaper), db);
  }
}

/** Constant folding of the expressions of a whole plan. */
module PlanFolding {
  import opened Common
  import opened Expressions
  import opened ConstantFolding
  import opened Plans

  /** The expressions that a node carries. */
  function ExpressionsOf(p: Plan): seq<Expr> {
    match p
    case SeqScan(_, _, e, _, _) => Conjunct(e)
    case Leaf(_, _) => []
    case Unary(_, _, _) => []
    case Filter(_, e, _) => [e]
    case NestedLoopJoin(_, e, _, _) => Conjunct(e)
    case HashJoin(_, lk, rk, _, _) => [lk, rk]
  }

  function FoldOption(e: Option<Expr>): Option<Option<Expr>> {
    if e.None? then Some(None)
    else if FoldExpression(e.value).Some? then Some(FoldExpression(e.value))
    else None
  }

  /** The plan with every predicate and key folded; `None` when the rule throws. */
  function FoldPlan(p: Plan): Option<Plan> {
    match p
    case SeqScan(_, _, e, _, _) => if FoldOption(e).Some? then Some(p.(scan := FoldOption(e).value)) else None
    case Leaf(_, _) => Some(p)
    case Unary(name, w, c) => if FoldPlan(c).Some? then Some(Unary(name, w, FoldPlan(c).value)) else None
    case Filter(w, e, c) =>
      if FoldPlan(c).Some? && FoldExpression(e).Some? then Some(Filter(w, FoldExpression(e).value, FoldPlan(c).value))
      else None
    case NestedLoopJoin(w, e, l, r) =>
      if FoldPlan(l).Some? && FoldPlan(r).Some? && FoldOption(e).Some? then
        Some(NestedLoopJoin(w, FoldOption(e).value, FoldPlan(l).value, FoldPlan(r).value))
      else None
    case HashJoin(w, lk, rk, l, r) =>
      if FoldPlan(l).Some? && FoldPlan(r).Some? && FoldExpression(lk).Some? && FoldExpression(rk).Some? then
        Some(HashJoin(w, FoldExpression(lk).value, FoldExpression(rk).value, FoldPlan(l).value, FoldPlan(r).value))
      else None
  }

  /** The expressions of a plan and of its inputs. */
  function AllExpressions(p: Plan): seq<Expr> {
    ExpressionsOf(p) +
    match p
    case SeqScan(_, _, _, _, _) => []
    case Leaf(_, _) => []
    case Unary(_, _, c) => AllExpressions(c)
    case Filter(_, _, c) => AllExpressions(c)
    case NestedLoopJoin(_, _, l, r) => AllExpressions(l) + AllExpressions(r)
    case HashJoin(_, _, _, l, r) => AllExpressions(l) + AllExpressions(r)
  }

  ghost predicate ClashFree(p: Plan) {
    forall e :: e in AllExpressions(p) ==> !Clashes(e)
  }

  ghost predicate AllUndecided(p: Plan) {
    forall e :: e in AllExpressions(p) ==> Undecided(e)
  }

  /** The expressions of the inputs are among those of the plan. */
  lemma Inputs(p: Plan)
    ensures forall e :: e in ExpressionsOf(p) ==> e in AllExpressions(p)
    ensures p.Unary? || p.Filter? ==> forall e :: e in AllExpressions(p.child) ==> e in AllExpressions(p)
    ensures p.NestedLoopJoin? || p.HashJoin? ==>
      forall e :: e in AllExpressions(p.left) || e in AllExpressions(p.right) ==> e in AllExpressions(p)
    ensures forall e :: e in AllExpressions(p) ==>
      || e in ExpressionsOf(p)
      || ((p.Unary? || p.Filter?) && e in AllExpressions(p.child))
      || ((p.NestedLoopJoin? || p.HashJoin?) && (e in AllExpressions(p.left) || e in AllExpressions(p.right)))
  {
  }

  /** The node itself folds exactly when its own expressions do. */
  lemma NodeFolds(p: Plan)
    ensures (forall e :: e in ExpressionsOf(p) ==> FoldExpression(e).Some?) <==>
      match p
      case SeqScan(_, _, e, _, _) => FoldOption(e).Some?
      case Leaf(_, _) => true
      case Unary(_, _, _) => true
      case Filter(_, e, _) => FoldExpression(e).Some?
      case NestedLoopJoin(_, e, _, _) => FoldOption(e).Some?
      case HashJoin(_, lk, rk, _, _) => FoldExpression(lk).Some? && FoldExpression(rk).Some?
  {
    match p {
      case SeqScan(_, _, e, _, _) => assert e.Some? ==> e.value in ExpressionsOf(p);
      case Leaf(_, _) =>
      case Unary(_, _, _) =>
      case Filter(_, e, _) => assert e in ExpressionsOf(p);
      case NestedLoopJoin(_, e, _, _) => assert e.Some? ==> e.value in ExpressionsOf(p);
      case HashJoin(_, lk, rk, _, _) => assert lk in ExpressionsOf(p) && rk in ExpressionsOf(p);
    }
  }

  /** Folding a plan throws exactly when one of its expressions has a clash. */
  lemma {:induction false} FoldPlanThrowsExactly(p: Plan)
    ensures FoldPlan(p).Some? <==> ClashFree(p)
  {
    Inputs(p);
    NodeFolds(p);
    forall e | e in ExpressionsOf(p)
      ensures FoldExpression(e).Some? <==> !Clashes(e)
    {
      FoldThrowsExactly(e);
    }
    match p {
      case SeqScan(_, _, _, _, _) =>
      case Leaf(_, _) =>
      case Unary(_, _, c) => FoldPlanThrowsExactly(c);
      case Filter(_, _, c) => FoldPlanThrowsExactly(c);
      case NestedLoopJoin(_, _, l, r) =>
        FoldPlanThrowsExactly(l);
        FoldPlanThrowsExactly(r);
      case HashJoin(_, _, _, l, r) =>
        FoldPlanThrowsExactly(l);
        FoldPlanThrowsExactly(r);
    }
  }

  // ---- What the folded plan is ---------------------------------------------

  /** The plan without its expressions: nodes, tables, names, widths, limits and offsets. */
  function Skeleton(p: Plan): Plan {
    var hole := Constant(Null);
    match p
    case SeqScan(t, w, e, limit, offset) => SeqScan(t, w, if e.Some? then Some(hole) else None, limit, offset)
    case Leaf(name, w) => Leaf(name, w)
    case Unary(name, w, c) => Unary(name, w, Skeleton(c))
    case Filter(w, _, c) => Filter(w, hole, Skeleton(c))
    case NestedLoopJoin(w, e, l, r) => NestedLoopJoin(w, if e.Some? then Some(hole) else None, Skeleton(l), Skeleton(r))
    case HashJoin(w, _, _, l, r) => HashJoin(w, hole, hole, Skeleton(l), Skeleton(r))
  }

  /** One by one, the folded expressions. */
  ghost predicate FoldsOf(es: seq<Expr>, es': seq<Expr>) {
    |es'| == |es| && forall i :: 0 <= i < |es| ==> FoldExpression(es[i]) == Some(es'[i])
  }

  lemma FoldsConcat(a: seq<Expr>, a': seq<Expr>, b: seq<Expr>, b': seq<Expr>)
    requires FoldsOf(a, a') && FoldsOf(b, b')
    ensures FoldsOf(a + b, a' + b')
  {
  }

  /** The folded plan is the plan with its expressions folded, and nothing else. */
  lemma {:induction false} FoldPlanShape(p: Plan)
    requires FoldPlan(p).Some?
    ensures Skeleton(FoldPlan(p).value) == Skeleton(p)
    ensures FoldsOf(AllExpressions(p), AllExpressions(FoldPlan(p).value))
  {
    var p' := FoldPlan(p).value;
    assert FoldsOf(ExpressionsOf(p), ExpressionsOf(p'));
    match p {
      case SeqScan(_, _, _, _, _) => FoldsConcat(ExpressionsOf(p), ExpressionsOf(p'), [], []);
      case Leaf(_, _) =>
      case Unary(_, _, c) =>
        FoldPlanShape(c);
        FoldsConcat([], [], AllExpressions(c), AllExpressions(p'.child));
      case Filter(_, _, c) =>
        FoldPlanShape(c);
        FoldsConcat(ExpressionsOf(p), ExpressionsOf(p'), AllExpressions(c), AllExpressions(p'.child));
      case NestedLoopJoin(_, _, l, r) =>
        FoldPlanShape(l);
        FoldPlanShape(r);
        FoldsConcat(AllExpressions(l), AllExpressions(p'.left), AllExpressions(r), AllExpressions(p'.right));
        FoldsConcat(ExpressionsOf(p), ExpressionsOf(p'), AllExpressions(l) + AllExpressions(r),
                    AllExpressions(p'.left) + AllExpressions(p'.right));
      case HashJoin(_, _, _, l, r) =>
        FoldPlanShape(l);
        FoldPlanShape(r);
        FoldsConcat(AllExpressions(l), AllExpressions(p'.left), AllExpressions(r), AllExpressions(p'.right));
        FoldsConcat(ExpressionsOf(p), ExpressionsOf(p'), AllExpressions(l) + AllExpressions(r),
                    AllExpressions(p'.left) + AllExpressions(p'.right));
    }
  }

  // ---- The rows of the folded plan -----------------------------------------

  /** Short evaluation of the original predicate is true of the row. */
  predicate ShortKeeps(e: Option<Expr>, row: Row) {
    e.Some? ==> ShortEval(e.value, OneRow(row)).Holds()
  }

  function ShortSelect(rows: seq<Row>, e: Option<Expr>): seq<Row> {
    if rows == [] then []
    else (if ShortKeeps(e, rows[0]) then [rows[0]] else []) + ShortSelect(rows[1..], e)
  }

  predicate ShortJoins(p: Plan, l: Row, r: Row)
    requires p.NestedLoopJoin? || p.HashJoin?
  {
    if p.NestedLoopJoin? then ShortKeeps(p.on, l + r)
    else
      var a, b := ShortEval(p.leftKey, OneRow(l)), ShortEval(p.rightKey, OneRow(r));
      a.Val? && b.Val? && !a.value.Null? && a == b
  }

  function ShortJoinRow(p: Plan, l: Row, rights: seq<Row>): seq<Row>
    requires p.NestedLoopJoin? || p.HashJoin?
  {
    if rights == [] then []
    else (if ShortJoins(p, l, rights[0]) then [l + rights[0]] else []) + ShortJoinRow(p, l, rights[1..])
  }

  function ShortJoin(p: Plan, lefts: seq<Row>, rights: seq<Row>): seq<Row>
    requires p.NestedLoopJoin? || p.HashJoin?
  {
    if lefts == [] then [] else ShortJoinRow(p, lefts[0], rights) + ShortJoin(p, lefts[1..], rights)
  }

  /** The rows of the original plan if its expressions are evaluated short. */
  function ShortRows(p: Plan, db: Database): seq<Row> {
    match p
    case SeqScan(t, _, e, limit, offset) => Slice(ShortSelect(db.tables(t), e), offset, limit)
    case Leaf(name, _) => db.leaves(name)
    case Unary(name, _, c) => db.operators(name, ShortRows(c, db))
    case Filter(_, e, c) => ShortSelect(ShortRows(c, db), Some(e))
    case NestedLoopJoin(_, _, l, r) => ShortJoin(p, ShortRows(l, db), ShortRows(r, db))
    case HashJoin(_, _, _, l, r) => ShortJoin(p, ShortRows(l, db), ShortRows(r, db))
  }

  lemma FoldedKeeps(e: Option<Expr>, row: Row)
    requires FoldOption(e).Some?
    ensures KeepsAll(Conjunct(FoldOption(e).value), row) <==> ShortKeeps(e, row)
  {
    if e.Some? {
      FoldThrowsExactly(e.value);
      FoldMeans(e.value, OneRow(row));
      KeepsSingle(FoldExpression(e.value).value, row);
    }
  }

  lemma {:induction false} FoldedSelect(rows: seq<Row>, e: Option<Expr>)
    requires FoldOption(e).Some?
    ensures Select(rows, Conjunct(FoldOption(e).value)) == ShortSelect(rows, e)
  {
    if rows != [] {
      FoldedKeeps(e, rows[0]);
      FoldedSelect(rows[1..], e);
    }
  }

  lemma FoldedMatch(p: Plan, l: Row, r: Row)
    requires (p.NestedLoopJoin? || p.HashJoin?) && FoldPlan(p).Some?
    ensures Matches(MatchOf(FoldPlan(p).value), l, r) <==> ShortJoins(p, l, r)
  {
    if p.NestedLoopJoin? {
      FoldedKeeps(p.on, l + r);
    } else {
      FoldThrowsExactly(p.leftKey);
      FoldThrowsExactly(p.rightKey);
      FoldMeans(p.leftKey, OneRow(l));
      FoldMeans(p.rightKey, OneRow(r));
    }
  }

  lemma {:induction false} FoldedJoinRow(p: Plan, l: Row, rights: seq<Row>)
    requires (p.NestedLoopJoin? || p.HashJoin?) && FoldPlan(p).Some?
    ensures JoinRow(l, rights, MatchOf(FoldPlan(p).value)) == ShortJoinRow(p, l, rights)
  {
    if rights != [] {
      FoldedMatch(p, l, rights[0]);
      FoldedJoinRow(p, l, rights[1..]);
    }
  }

  lemma {:induction false} FoldedJoin(p: Plan, lefts: seq<Row>, rights: seq<Row>)
    requires (p.NestedLoopJoin? || p.HashJoin?) && FoldPlan(p).Some?
    ensures Join(lefts, rights, MatchOf(FoldPlan(p).value)) == ShortJoin(p, lefts, rights)
  {
    if lefts != [] {
      FoldedJoinRow(p, lefts[0], rights);
      FoldedJoin(p, lefts[1..], rights);
    }
  }

  /** The rows of every folded plan, deciding constants or not: filters, scans and joins keep
      exactly the rows of which short evaluation of the original expression is true. */
  lemma {:induction false} FoldPlanRows(p: Plan, db: Database)
    requires FoldPlan(p).Some?
    ensures Rows(FoldPlan(p).value, db) == ShortRows(p, db)
  {
    match p {
      case SeqScan(t, _, e, _, _) => FoldedSelect(db.tables(t), e);
      case Leaf(_, _) =>
      case Unary(_, _, c) => FoldPlanRows(c, db);
      case Filter(_, e, c) =>
        FoldPlanRows(c, db);
        FoldedSelect(ShortRows(c, db), Some(e));
      case NestedLoopJoin(_, _, l, r) =>
        FoldPlanRows(l, db);
        FoldPlanRows(r, db);
        FoldedJoin(p, ShortRows(l, db), ShortRows(r, db));
      case HashJoin(_, _, _, l, r) =>
        FoldPlanRows(l, db);
        FoldPlanRows(r, db);
        FoldedJoin(p, ShortRows(l, db), ShortRows(r, db));
    }
  }

  // ---- Runs --------------------------------------------------------------

  /** The same value wherever the first has one. */
  ghost predicate Refines(e: Expr, e': Expr) {
    forall s: Scope :: Eval(e, s).Val? ==> Eval(e', s) == Eval(e, s)
  }

  lemma FoldedRefines(e: Expr)
    requires Undecided(e) && !Clashes(e)
    ensures FoldExpression(e).Some? && Refines(e, FoldExpression(e).value)
  {
    FoldThrowsExactly(e);
    forall s: Scope | Eval(e, s).Val?
      ensures Eval(FoldExpression(e).value, s) == Eval(e, s)
    {
      FoldExact(e, s);
    }
  }

  lemma {:induction false} RefinedSelect(rows: seq<Row>, e: Expr, e': Expr)
    requires Refines(e, e') && RunSelect(rows, e).Some?
    ensures RunSelect(rows, e') == RunSelect(rows, e)
  {
    if rows != [] {
      RefinedSelect(rows[1..], e, e');
    }
  }

  ghost predicate RefinesOption(e: Option<Expr>, e': Option<Expr>) {
    (e.None? && e'.None?) || (e.Some? && e'.Some? && Refines(e.value, e'.value))
  }

  lemma {:induction false} RefinedScan(rows: seq<Row>, e: Option<Expr>, e': Option<Expr>, offset: nat, limit: Option<nat>)
    requires RefinesOption(e, e') && RunScan(rows, e, offset, limit).Some?
    ensures RunScan(rows, e', offset, limit) == RunScan(rows, e, offset, limit)
  {
    if rows != [] && limit != Some(0) {
      var t := if e.Some? then Truth(Eval(e.value, OneRow(rows[0]))) else Some(true);
      if !t.value {
        RefinedScan(rows[1..], e, e', offset, limit);
      } else if offset > 0 {
        RefinedScan(rows[1..], e, e', offset - 1, limit);
      } else {
        RefinedScan(rows[1..], e, e', 0, if limit.Some? then Some(limit.value - 1) else None);
      }
    }
  }

  ghost predicate RefinesMatch(m: Match, m': Match) {
    match (m, m')
    case (OnAll(cs), OnAll(cs')) => |cs| == |cs'| <= 1 && (|cs| == 1 ==> Refines(cs[0], cs'[0]))
    case (OnKeys(lk, rk), OnKeys(lk', rk')) => Refines(lk, lk') && Refines(rk, rk')
    case _ => false
  }

  lemma {:induction false} RefinedJoinRow(l: Row, rights: seq<Row>, m: Match, m': Match)
    requires RefinesMatch(m, m') && RunJoinRow(l, rights, m).Some?
    ensures RunJoinRow(l, rights, m') == RunJoinRow(l, rights, m)
  {
    if rights != [] {
      RefinedJoinRow(l, rights[1..], m, m');
    }
  }

  lemma {:induction false} RefinedJoin(lefts: seq<Row>, rights: seq<Row>, m: Match, m': Match)
    requires RefinesMatch(m, m') && RunJoin(lefts, rights, m).Some?
    ensures RunJoin(lefts, rights, m') == RunJoin(lefts, rights, m)
  {
    if lefts != [] {
      RefinedJoinRow(lefts[0], rights, m, m');
      RefinedJoin(lefts[1..], rights, m, m');
    }
  }

  /** Folding the expressions of a plan without deciding constants and clashes changes
      no row of a run that raises nothing, NULLs included. */
  lemma {:induction false} FoldPlanKeepsRuns(p: Plan, db: Database)
    requires AllUndecided(p) && ClashFree(p) && Run(p, db).Some?
    ensures FoldPlan(p).Some? && Run(FoldPlan(p).value, db) == Run(p, db)
  {
    Inputs(p);
    FoldPlanThrowsExactly(p);
    forall e | e in ExpressionsOf(p)
      ensures FoldExpression(e).Some? && Refines(e, FoldExpression(e).value)
    {
      FoldedRefines(e);
    }
    match p {
      case SeqScan(t, _, e, limit, offset) =>
        assert e.Some? ==> e.value in ExpressionsOf(p);
        RefinedScan(db.tables(t), e, FoldOption(e).value, offset, limit);
      case Leaf(_, _) =>
      case Unary(_, _, c) => FoldPlanKeepsRuns(c, db);
      case Filter(_, e, c) =>
        assert e in ExpressionsOf(p);
        FoldPlanKeepsRuns(c, db);
        RefinedSelect(Run(c, db).value, e, FoldExpression(e).value);
      case NestedLoopJoin(_, e, l, r) =>
        assert e.Some? ==> e.value in ExpressionsOf(p);
        FoldPlanKeepsRuns(l, db);
        FoldPlanKeepsRuns(r, db);
        RefinedJoin(Run(l, db).value, Run(r, db).value, OnAll(Conjunct(e)), OnAll(Conjunct(FoldOption(e).value)));
      case HashJoin(_, lk, rk, l, r) =>
        assert lk in ExpressionsOf(p) && rk in ExpressionsOf(p);
        FoldPlanKeepsRuns(l, db);
        FoldPlanKeepsRuns(r, db);
        RefinedJoin(Run(l, db).value, Run(r, db).value, OnKeys(lk, rk),
                    OnKeys(FoldExpression(lk).value, FoldExpression(rk).value));
    }
  }
}

/** Column types: plans that pass a static check never raise, optimized or not. */
module TypedPlans {
  import opened Common
  import opened Expressions
  import opened Plans
  import opened Conjuncts
  import opened PredicatePushdown
  import opened JoinSelection
  import opened CostBasedJoin

  datatype Type = IntegerType | BooleanType | VarcharType

  type Schema = seq<Type>

  /** NULL has every type. */
  predicate HasType(v: Value, t: Type) {
    match v
    case Null => true
    case Integer(_) => t == IntegerType
    case Boolean(_) => t == BooleanType
    case Varchar(_) => t == VarcharType
  }

  predicate Conforms(row: Row, sch: Schema) {
    |row| == |sch| && forall i :: 0 <= i < |row| ==> HasType(row[i], sch[i])
  }

  ghost predicate AllConform(rows: seq<Row>, sch: Schema) {
    forall row :: row in rows ==> Conforms(row, sch)
  }

  // ---- Expressions -------------------------------------------------------

  function AllTypes(): set<Type> {
    {IntegerType, BooleanType, VarcharType}
  }

  /** The types of an expression over columns of the given types; none if it fails the
      check.  Arithmetic has none, since it can overflow. */
  function TypesOf(e: Expr, sch: Schema): set<Type> {
    match e
    case Column(i, _) => if i < |sch| then {sch[i]} else {}
    case Constant(v) => set t | t in AllTypes() && HasType(v, t)
    case Parameter(bound) => if bound.Some? then set t | t in AllTypes() && HasType(bound.value, t) else {}
    case Not(x) => TypesOf(x, sch) * {BooleanType}
    case Binary(op, l, r) =>
      var a, b := TypesOf(l, sch), TypesOf(r, sch);
      match op
      case Arith(_) => {}
      case Logic(_) => a * b * {BooleanType}
      case Compare(c) =>
        if a != {} && b != {} && (c == Equal || c == NotEqual || a * b != {}) then {BooleanType} else {}
  }

  predicate TypeChecks(e: Expr, sch: Schema) {
    TypesOf(e, sch) != {}
  }

  predicate OfType(e: Expr, sch: Schema, t: Type) {
    t in TypesOf(e, sch)
  }

  /** An expression that passes the check has a value of its types on every row that conforms. */
  lemma {:induction false} TypeSound(e: Expr, sch: Schema, row: Row)
    requires TypeChecks(e, sch) && Conforms(row, sch)
    ensures Eval(e, OneRow(row)).Val? && forall t :: OfType(e, sch, t) ==> HasType(Eval(e, OneRow(row)).value, t)
  {
    match e {
      case Column(_, _) =>
      case Constant(_) =>
      case Parameter(_) =>
      case Not(x) =>
        assert BooleanType in TypesOf(e, sch) && OfType(x, sch, BooleanType);
        TypeSound(x, sch, row);
      case Binary(op, l, r) =>
        assert BooleanType in TypesOf(e, sch);
        TypeSound(l, sch, row);
        TypeSound(r, sch, row);
        if op.Logic? {
          assert OfType(l, sch, BooleanType) && OfType(r, sch, BooleanType);
        } else if op.c != Equal && op.c != NotEqual {
          var t :| t in TypesOf(l, sch) * TypesOf(r, sch);
          assert OfType(l, sch, t) && OfType(r, sch, t);
        }
    }
  }

  lemma TypedReadable(e: Expr, sch: Schema, row: Row)
    requires OfType(e, sch, BooleanType) && Conforms(row, sch)
    ensures Readable(e, row)
  {
    TypeSound(e, sch, row);
  }

  ghost predicate AllOfType(cs: seq<Expr>, sch: Schema, t: Type) {
    forall c :: c in cs ==> OfType(c, sch, t)
  }

  lemma {:induction false} SplitOfType(e: Expr, sch: Schema)
    requires OfType(e, sch, BooleanType)
    ensures AllOfType(Split(e), sch, BooleanType)
  {
    if e.Binary? && e.op == Logic(And) {
      SplitOfType(e.left, sch);
      SplitOfType(e.right, sch);
    }
  }

  lemma {:induction false} CombineOfType(cs: seq<Expr>, sch: Schema)
    requires cs != [] && AllOfType(cs, sch, BooleanType)
    ensures OfType(Combine(cs), sch, BooleanType)
  {
    assert cs[|cs| - 1] in cs;
    if |cs| > 1 {
      CombineOfType(cs[..|cs| - 1], sch);
    }
  }

  /** An expression on left columns is typed by the left schema alone. */
  lemma {:induction false} LeftTypes(e: Expr, left: Schema, right: Schema)
    requires AllLeft(e, |left|)
    ensures TypesOf(e, left + right) == TypesOf(e, left)
  {
    PartColumns(e);
    match e {
      case Column(i, _) => assert i in Columns(e);
      case Constant(_) =>
      case Parameter(_) =>
      case Not(x) => LeftTypes(x, left, right);
      case Binary(_, a, b) =>
        LeftTypes(a, left, right);
        LeftTypes(b, left, right);
    }
  }

  /** A re-based expression is typed by the right schema alone. */
  lemma {:induction false} RightTypes(e: Expr, left: Schema, right: Schema)
    requires AllRight(e, |left|)
    ensures TypesOf(e, left + right) == TypesOf(Shift(e, |left|), right)
  {
    PartColumns(e);
    match e {
      case Column(i, _) => assert i in Columns(e);
      case Constant(_) =>
      case Parameter(_) =>
      case Not(x) => RightTypes(x, left, right);
      case Binary(_, a, b) =>
        RightTypes(a, left, right);
        RightTypes(b, left, right);
    }
  }

  // ---- Plans -------------------------------------------------------------

  /** The column types of tables and leaves, and of what an operator makes of its input. */
  datatype Types = Types(tables: string -> Schema, leaves: string -> Schema, operators: (string, Schema) -> Schema)

  ghost predicate DatabaseConforms(db: Database, ts: Types) {
    && (forall name :: AllConform(db.tables(name), ts.tables(name)))
    && (forall name :: AllConform(db.leaves(name), ts.leaves(name)))
    && (forall name, rows, sch :: AllConform(rows, sch) ==> AllConform(db.operators(name, rows), ts.operators(name, sch)))
  }

  function SchemaOf(p: Plan, ts: Types): Schema {
    match p
    case SeqScan(t, _, _, _, _) => ts.tables(t)
    case Leaf(name, _) => ts.leaves(name)
    case Unary(name, _, c) => ts.operators(name, SchemaOf(c, ts))
    case Filter(_, _, c) => SchemaOf(c, ts)
    case NestedLoopJoin(_, _, l, r) => SchemaOf(l, ts) + SchemaOf(r, ts)
    case HashJoin(_, _, _, l, r) => SchemaOf(l, ts) + SchemaOf(r, ts)
  }

  /** Predicates are truth-valued, those of nested loops name no side, keys have a type, and
      declared widths are those of the schemas. */
  predicate WellTyped(p: Plan, ts: Types) {
    && p.width == |SchemaOf(p, ts)|
    && match p
       case SeqScan(_, _, e, _, _) => e.Some? ==> OfType(e.value, SchemaOf(p, ts), BooleanType)
       case Leaf(_, _) => true
       case Unary(_, _, c) => WellTyped(c, ts)
       case Filter(_, e, c) => WellTyped(c, ts) && OfType(e, SchemaOf(c, ts), BooleanType)
       case NestedLoopJoin(_, e, l, r) =>
         && WellTyped(l, ts) && WellTyped(r, ts)
         && (e.Some? ==> OfType(e.value, SchemaOf(p, ts), BooleanType) && Unsided(e.value))
       case HashJoin(_, lk, rk, l, r) =>
         WellTyped(l, ts) && WellTyped(r, ts) && TypeChecks(lk, SchemaOf(l, ts)) && TypeChecks(rk, SchemaOf(r, ts))
  }

  lemma {:induction false} JoinConforms(lefts: seq<Row>, rights: seq<Row>, m: Match, left: Schema, right: Schema)
    requires AllConform(lefts, left) && AllConform(rights, right)
    ensures AllConform(Join(lefts, rights, m), left + right)
  {
    forall row | row in Join(lefts, rights, m)
      ensures Conforms(row, left + right)
    {
      var l, r := JoinedFrom(lefts, rights, m, row);
    }
  }

  lemma SliceFrom(rows: seq<Row>, offset: nat, limit: Option<nat>)
    ensures forall row :: row in Slice(rows, offset, limit) ==> row in rows
  {
  }

  lemma ConformingWidth(rows: seq<Row>, sch: Schema)
    requires AllConform(rows, sch)
    ensures HasWidth(rows, |sch|)
  {
    forall i | 0 <= i < |rows|
      ensures |rows[i]| == |sch|
    {
      assert rows[i] in rows;
    }
  }

  /** The rows of a well-typed plan conform to its schema. */
  lemma {:induction false} WellTypedRows(p: Plan, db: Database, ts: Types)
    requires WellTyped(p, ts) && DatabaseConforms(db, ts)
    ensures AllConform(Rows(p, db), SchemaOf(p, ts)) && Typed(p, db) && UnsidedLoops(p)
  {
    match p {
      case SeqScan(t, _, e, limit, offset) =>
        SelectedFrom(db.tables(t), Conjunct(e));
        SliceFrom(Select(db.tables(t), Conjunct(e)), offset, limit);
      case Leaf(_, _) =>
      case Unary(_, _, c) => WellTypedRows(c, db, ts);
      case Filter(_, e, c) =>
        WellTypedRows(c, db, ts);
        SelectedFrom(Rows(c, db), [e]);
      case NestedLoopJoin(_, _, l, r) =>
        WellTypedRows(l, db, ts);
        WellTypedRows(r, db, ts);
        ConformingWidth(Rows(l, db), SchemaOf(l, ts));
        JoinConforms(Rows(l, db), Rows(r, db), MatchOf(p), SchemaOf(l, ts), SchemaOf(r, ts));
      case HashJoin(_, _, _, l, r) =>
        WellTypedRows(l, db, ts);
        WellTypedRows(r, db, ts);
        ConformingWidth(Rows(l, db), SchemaOf(l, ts));
        JoinConforms(Rows(l, db), Rows(r, db), MatchOf(p), SchemaOf(l, ts), SchemaOf(r, ts));
    }
  }

  /** Hash keys that pass the check have values on all rows. */
  lemma KeysRun(lefts: seq<Row>, rights: seq<Row>, lk: Expr, rk: Expr, left: Schema, right: Schema)
    requires AllConform(lefts, left) && AllConform(rights, right) && TypeChecks(lk, left) && TypeChecks(rk, right)
    ensures !KeysRaise(lefts, rights, lk, rk)
  {
    forall l | l in lefts
      ensures Eval(lk, OneRow(l)).Val?
    {
      TypeSound(lk, left, l);
    }
    forall r | r in rights
      ensures Eval(rk, OneRow(r)).Val?
    {
      TypeSound(rk, right, r);
    }
  }

  /** The nested loops run a typed predicate exactly when there is no pair or it has left
      columns only. */
  lemma LoopsRun(lefts: seq<Row>, rights: seq<Row>, e: Expr, left: Schema, right: Schema)
    requires AllConform(lefts, left) && AllConform(rights, right)
    requires OfType(e, left + right, BooleanType) && Unsided(e)
    ensures JoinReadable(lefts, rights, OnAll([e])) <==> lefts == [] || rights == [] || AllLeft(e, |left|)
  {
    ConformingWidth(lefts, left);
    LoopsReadExactly(lefts, rights, e, |left|);
    if AllLeft(e, |left|) {
      LeftTypes(e, left, right);
      forall l | l in lefts
        ensures Readable(e, l)
      {
        TypedReadable(e, left, l);
      }
    }
  }

  lemma {:induction false} ScanRuns(rows: seq<Row>, e: Option<Expr>, offset: nat, limit: Option<nat>, sch: Schema)
    requires AllConform(rows, sch) && (e.Some? ==> OfType(e.value, sch, BooleanType))
    ensures RunScan(rows, e, offset, limit).Some?
  {
    if rows != [] && limit != Some(0) {
      FirstAndRest(rows);
      var less := if limit.Some? then Some(limit.value - 1) else None;
      ScanRuns(rows[1..], e, offset, limit, sch);
      ScanRuns(rows[1..], e, 0, less, sch);
      if offset > 0 {
        ScanRuns(rows[1..], e, offset - 1, limit, sch);
      }
      if e.Some? {
        TypedReadable(e.value, sch, rows[0]);
      }
    }
  }

  /** Every nested loop join that meets two inputs with rows has left columns only in its predicate. */
  ghost predicate LeftOnly(p: Plan, db: Database) {
    match p
    case SeqScan(_, _, _, _, _) => true
    case Leaf(_, _) => true
    case Unary(_, _, c) => LeftOnly(c, db)
    case Filter(_, _, c) => LeftOnly(c, db)
    case HashJoin(_, _, _, l, r) => LeftOnly(l, db) && LeftOnly(r, db)
    case NestedLoopJoin(_, on, l, r) =>
      && LeftOnly(l, db) && LeftOnly(r, db)
      && (on.Some? && Rows(l, db) != [] && Rows(r, db) != [] ==> AllLeft(on.value, l.width))
  }

  lemma {:induction false} TypedRuns(p: Plan, db: Database, ts: Types)
    requires WellTyped(p, ts) && DatabaseConforms(db, ts)
    ensures Run(p, db).Some? <==> LeftOnly(p, db)
  {
    WellTypedRows(p, db, ts);
    match p {
      case SeqScan(t, _, e, limit, offset) => ScanRuns(db.tables(t), e, offset, limit, ts.tables(t));
      case Leaf(_, _) =>
      case Unary(_, _, c) => TypedRuns(c, db, ts);
      case Filter(_, e, c) =>
        TypedRuns(c, db, ts);
        WellTypedRows(c, db, ts);
        OnTopRuns(p.width, [e], c, db);
        forall row | row in Rows(c, db)
          ensures Readable(e, row)
        {
          TypedReadable(e, SchemaOf(c, ts), row);
        }
      case NestedLoopJoin(_, on, l, r) =>
        TypedRuns(l, db, ts);
        TypedRuns(r, db, ts);
        WellTypedRows(l, db, ts);
        WellTypedRows(r, db, ts);
        JoinRunsExactly(p, db);
        if on.Some? {
          LoopsRun(Rows(l, db), Rows(r, db), on.value, SchemaOf(l, ts), SchemaOf(r, ts));
        }
      case HashJoin(_, lk, rk, l, r) =>
        TypedRuns(l, db, ts);
        TypedRuns(r, db, ts);
        WellTypedRows(l, db, ts);
        WellTypedRows(r, db, ts);
        JoinRunsExactly(p, db);
        KeysRun(Rows(l, db), Rows(r, db), lk, rk, SchemaOf(l, ts), SchemaOf(r, ts));
    }
  }

  /** A well-typed plan over a database that conforms yields its rows exactly when no nested
      loop join meets a right column, and otherwise raises. */
  lemma WellTypedRuns(p: Plan, db: Database, ts: Types)
    requires WellTyped(p, ts) && DatabaseConforms(db, ts)
    ensures Run(p, db) == if LeftOnly(p, db) then Some(Rows(p, db)) else None
    ensures AllConform(Rows(p, db), SchemaOf(p, ts))
  {
    TypedRuns(p, db, ts);
    WellTypedRows(p, db, ts);
    if Run(p, db).Some? {
      RunIsRows(p, db);
    }
  }

  // ---- The rules keep plans well typed -------------------------------------

  ghost predicate SameSchema(p: Plan, p': Plan, ts: Types) {
    WellTyped(p', ts) && SchemaOf(p', ts) == SchemaOf(p, ts)
  }

  /** Each conjunct is typed where it is sent. */
  lemma {:induction false} ClassifyTyped(cs: seq<Expr>, left: Schema, right: Schema)
    requires AllOfType(cs, left + right, BooleanType)
    ensures AllOfType(LeftOf(cs, |left|), left, BooleanType)
    ensures AllOfType(RightOf(cs, |left|), right, BooleanType)
    ensures AllOfType(RestOf(cs, |left|), left + right, BooleanType)
  {
    if cs != [] {
      var c, n := cs[|cs| - 1], |left|;
      assert c in cs;
      ClassifyTyped(cs[..|cs| - 1], left, right);
      if GoesLeft(c, n) {
        LeftTypes(c, left, right);
      }
      if GoesRight(c, n) {
        RightTypes(c, left, right);
      }
    }
  }

  lemma OnTopTyped(width: nat, cs: seq<Expr>, p: Plan, ts: Types)
    requires WellTyped(p, ts) && width == p.width && AllOfType(cs, SchemaOf(p, ts), BooleanType)
    ensures SameSchema(p, OnTop(width, cs, p), ts)
  {
    if cs != [] {
      CombineOfType(cs, SchemaOf(p, ts));
    }
  }

  lemma {:induction false} PushdownTyped(p: Plan, ts: Types)
    requires WellTyped(p, ts)
    ensures SameSchema(p, Pushdown(p), ts)
    decreases Size(p), 0
  {
    if p.Filter? && (p.child.NestedLoopJoin? || p.child.HashJoin?) {
      var c := p.child;
      var cs, n := Split(p.pred), c.left.width;
      assert Size(p) == 1 + Size(c);
      SplitOfType(p.pred, SchemaOf(c, ts));
      ClassifyTyped(cs, SchemaOf(c.left, ts), SchemaOf(c.right, ts));
      PushIntoTyped(c.left, LeftOf(cs, n), ts);
      PushIntoTyped(c.right, RightOf(cs, n), ts);
      var l, r := PushInto(c.left, LeftOf(cs, n)), PushInto(c.right, RightOf(cs, n));
      var join := if c.NestedLoopJoin? then NestedLoopJoin(c.width, c.on, l, r)
                  else HashJoin(c.width, c.leftKey, c.rightKey, l, r);
      OnTopTyped(p.width, RestOf(cs, n), join, ts);
    }
  }

  lemma {:induction false} PushIntoTyped(p: Plan, cs: seq<Expr>, ts: Types)
    requires WellTyped(p, ts) && AllOfType(cs, SchemaOf(p, ts), BooleanType)
    ensures SameSchema(p, PushInto(p, cs), ts)
    decreases Size(p) + 1, 1
  {
    if cs != [] {
      CombineOfType(cs, SchemaOf(p, ts));
      PushdownTyped(Filter(p.width, Combine(cs), p), ts);
    }
  }

  /** The keys of an equality are typed by the schema of their input. */
  lemma KeysTyped(e: Expr, left: Schema, right: Schema)
    requires IsEqui(e, |left|) && OfType(e, left + right, BooleanType)
    ensures var (lk, rk) := KeysOf(e, |left|); TypeChecks(lk, left) && TypeChecks(rk, right)
  {
    if GoesLeft(e.left, |left|) && GoesRight(e.right, |left|) {
      LeftTypes(e.left, left, right);
      RightTypes(e.right, left, right);
    } else {
      RightTypes(e.left, left, right);
      LeftTypes(e.right, left, right);
    }
  }

  lemma SelectJoinTyped(width: nat, on: Option<Expr>, l: Plan, r: Plan, ts: Types)
    requires WellTyped(NestedLoopJoin(width, on, l, r), ts)
    ensures SameSchema(NestedLoopJoin(width, on, l, r), SelectJoin(width, on, l, r), ts)
  {
    var cs, n := ConjunctsOf(on), l.width;
    var k, sch := FirstEqui(cs, n), SchemaOf(l, ts) + SchemaOf(r, ts);
    if on.Some? {
      SplitOfType(on.value, sch);
      SplitUnsided(on.value);
      CombineUnsided(cs);
    }
    if k < |cs| {
      assert cs[k] in cs;
      KeysTyped(cs[k], SchemaOf(l, ts), SchemaOf(r, ts));
      OnTopTyped(width, Without(cs, k), HashJoin(width, KeysOf(cs[k], n).0, KeysOf(cs[k], n).1, l, r), ts);
    } else if cs != [] {
      CombineOfType(cs, sch);
    }
  }

  lemma {:induction false} JoinSelectTyped(p: Plan, ts: Types)
    requires WellTyped(p, ts)
    ensures SameSchema(p, JoinSelect(p), ts)
  {
    match p {
      case SeqScan(_, _, _, _, _) =>
      case Leaf(_, _) =>
      case Unary(_, _, c) => JoinSelectTyped(c, ts);
      case Filter(_, _, c) => JoinSelectTyped(c, ts);
      case HashJoin(_, _, _, l, r) =>
        JoinSelectTyped(l, ts);
        JoinSelectTyped(r, ts);
      case NestedLoopJoin(w, on, l, r) =>
        JoinSelectTyped(l, ts);
        JoinSelectTyped(r, ts);
        SelectJoinTyped(w, on, JoinSelect(l), JoinSelect(r), ts);
    }
  }

  /** The whole pass keeps plans well typed. */
  lemma {:induction false} OptimizeTyped(p: Plan, ts: Types, cheaper: Plan -> bool)
    requires WellTyped(p, ts)
    ensures SameSchema(p, Optimize(p, cheaper), ts)
  {
    match p {
      case SeqScan(_, _, _, _, _) =>
      case Leaf(_, _) =>
      case Unary(_, _, c) => OptimizeTyped(c, ts, cheaper);
      case Filter(_, _, c) => OptimizeTyped(c, ts, cheaper);
      case HashJoin(_, _, _, l, r) =>
        OptimizeTyped(l, ts, cheaper);
        OptimizeTyped(r, ts, cheaper);
      case NestedLoopJoin(_, _, l, r) =>
        OptimizeTyped(l, ts, cheaper);
        OptimizeTyped(r, ts, cheaper);
    }
    var q := WithOptimizedInputs(p, cheaper);
    PushdownTyped(q, ts);
    JoinSelectTyped(Pushdown(q), ts);
    CostBasedAfterSelection(Pushdown(q), cheaper);
  }

  // ---- What the rules make of plans that cannot be run ----------------------

  /** Some conjunct is an equality between the inputs, or all columns are left ones. */
  predicate Joinable(on: Expr, n: nat) {
    FirstEqui(Split(on), n) < |Split(on)| || AllLeft(on, n)
  }

  /** Every nested loop join that meets two inputs with rows is joinable. */
  ghost predicate Executable(p: Plan, db: Database) {
    match p
    case SeqScan(_, _, _, _, _) => true
    case Leaf(_, _) => true
    case Unary(_, _, c) => Executable(c, db)
    case Filter(_, _, c) => Executable(c, db)
    case HashJoin(_, _, _, l, r) => Executable(l, db) && Executable(r, db)
    case NestedLoopJoin(_, on, l, r) =>
      && Executable(l, db) && Executable(r, db)
      && (on.Some? && Rows(l, db) != [] && Rows(r, db) != [] ==> Joinable(on.value, l.width))
  }

  lemma OnTopLeftOnly(width: nat, cs: seq<Expr>, p: Plan, db: Database)
    ensures LeftOnly(OnTop(width, cs, p), db) <==> LeftOnly(p, db)
  {
  }

  lemma SelectJoinLeftOnly(width: nat, on: Option<Expr>, l: Plan, r: Plan, db: Database)
    ensures LeftOnly(SelectJoin(width, on, l, r), db) <==>
      && LeftOnly(l, db) && LeftOnly(r, db)
      && (on.Some? && Rows(l, db) != [] && Rows(r, db) != [] ==> Joinable(on.value, l.width))
  {
    var cs, n := ConjunctsOf(on), l.width;
    var k := FirstEqui(cs, n);
    if k < |cs| {
      var join := HashJoin(width, KeysOf(cs[k], n).0, KeysOf(cs[k], n).1, l, r);
      assert SelectJoin(width, on, l, r) == OnTop(width, Without(cs, k), join);
      OnTopLeftOnly(width, Without(cs, k), join, db);
    } else if on.Some? {
      RecombinedColumns(on.value, n);
      assert SelectJoin(width, on, l, r) == NestedLoopJoin(width, Some(Combine(cs)), l, r);
      assert Joinable(on.value, n) <==> AllLeft(Combine(cs), n);
    } else {
      assert SelectJoin(width, on, l, r) == NestedLoopJoin(width, None, l, r);
    }
  }

  lemma {:induction false} SelectedLeftOnly(p: Plan, db: Database)
    requires Typed(p, db)
    ensures LeftOnly(JoinSelect(p), db) <==> Executable(p, db)
  {
    match p {
      case SeqScan(_, _, _, _, _) =>
      case Leaf(_, _) =>
      case Unary(_, _, c) => SelectedLeftOnly(c, db);
      case Filter(_, _, c) => SelectedLeftOnly(c, db);
      case HashJoin(_, _, _, l, r) =>
        SelectedLeftOnly(l, db);
        SelectedLeftOnly(r, db);
      case NestedLoopJoin(w, on, l, r) =>
        SelectedLeftOnly(l, db);
        SelectedLeftOnly(r, db);
        JoinSelectKeepsRows(l, db);
        JoinSelectKeepsRows(r, db);
        SelectJoinLeftOnly(w, on, JoinSelect(l), JoinSelect(r), db);
    }
  }

  /** After join selection a well-typed plan yields its rows exactly when each of its nested
      loop joins that meets two inputs with rows has an equality between them, or left
      columns only. */
  lemma SelectedTypedRuns(p: Plan, db: Database, ts: Types)
    requires WellTyped(p, ts) && DatabaseConforms(db, ts)
    ensures Run(JoinSelect(p), db) == if Executable(p, db) then Some(Rows(p, db)) else None
  {
    WellTypedRows(p, db, ts);
    JoinSelectTyped(p, ts);
    WellTypedRuns(JoinSelect(p), db, ts);
    JoinSelectKeepsRows(p, db);
    SelectedLeftOnly(p, db);
  }

  /** The check without a database: every nested loop join is joinable. */
  predicate AllJoinable(p: Plan) {
    match p
    case SeqScan(_, _, _, _, _) => true
    case Leaf(_, _) => true
    case Unary(_, _, c) => AllJoinable(c)
    case Filter(_, _, c) => AllJoinable(c)
    case HashJoin(_, _, _, l, r) => AllJoinable(l) && AllJoinable(r)
    case NestedLoopJoin(_, on, l, r) =>
      AllJoinable(l) && AllJoinable(r) && (on.Some? ==> Joinable(on.value, l.width))
  }

  lemma {:induction false} PushdownJoinable(p: Plan, ts: Types)
    requires WellTyped(p, ts) && AllJoinable(p)
    ensures AllJoinable(Pushdown(p))
    decreases Size(p), 0
  {
    if p.Filter? && (p.child.NestedLoopJoin? || p.child.HashJoin?) {
      var c := p.child;
      var cs, n := Split(p.pred), c.left.width;
      assert Size(p) == 1 + Size(c);
      SplitOfType(p.pred, SchemaOf(c, ts));
      ClassifyTyped(cs, SchemaOf(c.left, ts), SchemaOf(c.right, ts));
      PushIntoJoinable(c.left, LeftOf(cs, n), ts);
      PushIntoJoinable(c.right, RightOf(cs, n), ts);
    }
  }

  lemma {:induction false} PushIntoJoinable(p: Plan, cs: seq<Expr>, ts: Types)
    requires WellTyped(p, ts) && AllJoinable(p) && AllOfType(cs, SchemaOf(p, ts), BooleanType)
    ensures AllJoinable(PushInto(p, cs)) && PushInto(p, cs).width == p.width
    decreases Size(p) + 1, 1
  {
    PushIntoTyped(p, cs, ts);
    if cs != [] {
      CombineOfType(cs, SchemaOf(p, ts));
      PushdownJoinable(Filter(p.width, Combine(cs), p), ts);
    }
  }

  lemma {:induction false} SelectJoinable(p: Plan, ts: Types)
    requires WellTyped(p, ts) && AllJoinable(p)
    ensures AllJoinable(JoinSelect(p))
  {
    match p {
      case SeqScan(_, _, _, _, _) =>
      case Leaf(_, _) =>
      case Unary(_, _, c) => SelectJoinable(c, ts);
      case Filter(_, _, c) => SelectJoinable(c, ts);
      case HashJoin(_, _, _, l, r) =>
        SelectJoinable(l, ts);
        SelectJoinable(r, ts);
      case NestedLoopJoin(_, on, l, r) =>
        SelectJoinable(l, ts);
        SelectJoinable(r, ts);
        JoinSelectTyped(l, ts);
        if on.Some? {
          RecombinedColumns(on.value, l.width);
        }
    }
  }

  lemma {:induction false} OptimizeJoinable(p: Plan, ts: Types, cheaper: Plan -> bool)
    requires WellTyped(p, ts) && AllJoinable(p)
    ensures AllJoinable(Optimize(p, cheaper))
    decreases p, 0
  {
    match p {
      case SeqScan(_, _, _, _, _) =>
      case Leaf(_, _) =>
      case Unary(_, _, c) => OptimizedJoinable(c, ts, cheaper);
      case Filter(_, _, c) => OptimizedJoinable(c, ts, cheaper);
      case HashJoin(_, _, _, l, r) =>
        OptimizedJoinable(l, ts, cheaper);
        OptimizedJoinable(r, ts, cheaper);
      case NestedLoopJoin(_, _, l, r) =>
        OptimizedJoinable(l, ts, cheaper);
        OptimizedJoinable(r, ts, cheaper);
    }
    var q := WithOptimizedInputs(p, cheaper);
    PushdownTyped(q, ts);
    PushdownJoinable(q, ts);
    SelectJoinable(Pushdown(q), ts);
    CostBasedAfterSelection(Pushdown(q), cheaper);
  }

  lemma {:induction false} OptimizedJoinable(c: Plan, ts: Types, cheaper: Plan -> bool)
    requires WellTyped(c, ts) && AllJoinable(c)
    ensures AllJoinable(Optimize(c, cheaper)) && SameSchema(c, Optimize(c, cheaper), ts)
    decreases c, 1
  {
    OptimizeJoinable(c, ts, cheaper);
    OptimizeTyped(c, ts, cheaper);
  }

  lemma {:induction false} JoinableExecutes(p: Plan, db: Database)
    requires AllJoinable(p)
    ensures Executable(p, db)
  {
    match p {
      case SeqScan(_, _, _, _, _) =>
      case Leaf(_, _) =>
      case Unary(_, _, c) => JoinableExecutes(c, db);
      case Filter(_, _, c) => JoinableExecutes(c, db);
      case HashJoin(_, _, _, l, r) =>
        JoinableExecutes(l, db);
        JoinableExecutes(r, db);
      case NestedLoopJoin(_, _, l, r) =>
        JoinableExecutes(l, db);
        JoinableExecutes(r, db);
    }
  }

  /** Optimized, a well-typed plan yields its rows exactly when no nested loop join that is
      left meets a right column; it always does if every nested loop join of the original
      has an equality between its inputs, or left columns only. */
  lemma OptimizedTypedRuns(p: Plan, db: Database, ts: Types, cheaper: Plan -> bool)
    requires WellTyped(p, ts) && DatabaseConforms(db, ts) && NoScanLimits(p)
    ensures Run(Optimize(p, cheaper), db) == if LeftOnly(Optimize(p, cheaper), db) then Some(Rows(p, db)) else None
    ensures AllJoinable(p) ==> Run(Optimize(p, cheaper), db) == Some(Rows(p, db))
  {
    var q := Optimize(p, cheaper);
    WellTypedRows(p, db, ts);
    OptimizeTyped(p, ts, cheaper);
    WellTypedRuns(q, db, ts);
    WellTypedRows(q, db, ts);
    OptimizeKeepsRows(p, db, cheaper);
    if AllJoinable(p) {
      OptimizeJoinable(p, ts, cheaper);
      JoinableExecutes(q, db);
      OptimizeSelected(p, cheaper);
      SelectedLeftOnly(q, db);
    }
  }

  lemma LeavesConform(db: Database, ts: Types)
    requires forall name :: db.tables(name) == [] && ts.leaves(name) == [IntegerType]
    requires forall name :: db.leaves(name) == [[Integer(1)]] || db.leaves(name) == [[Integer(2)]]
    requires forall name, rows :: db.operators(name, rows) == []
    ensures DatabaseConforms(db, ts)
  {
    forall name
      ensures AllConform(db.leaves(name), ts.leaves(name))
    {
      assert Conforms([Integer(1)], [IntegerType]) && Conforms([Integer(2)], [IntegerType]);
    }
  }

  /** `c0 < c1` over one row on each side: well typed and with a row to find, but neither the
      plan nor what the pass makes of it can be run. */
  lemma LessThanRaises(cheaper: Plan -> bool) returns (p: Plan, db: Database, ts: Types)
    ensures WellTyped(p, ts) && DatabaseConforms(db, ts) && NoScanLimits(p)
    ensures Rows(p, db) == [[Integer(1), Integer(2)]] && Run(p, db) == None && Run(Optimize(p, cheaper), db) == None
  {
    var less := Binary(Compare(LessThan), Column(0, None), Column(1, None));
    p := NestedLoopJoin(2, Some(less), Leaf("l", 1), Leaf("r", 1));
    db := Database(_ => [], name => if name == "l" then [[Integer(1)]] else [[Integer(2)]], (_, _) => []);
    ts := Types(_ => [], _ => [IntegerType], (_, _) => []);
    LeavesConform(db, ts);
    LessTyped(less);
    LessRun(p, db, ts);
    LessStays(less, cheaper);
  }

  lemma LessRun(p: Plan, db: Database, ts: Types)
    requires WellTyped(p, ts) && DatabaseConforms(db, ts)
    requires p.NestedLoopJoin? && p.on == Some(Binary(Compare(LessThan), Column(0, None), Column(1, None)))
    requires p.left.Leaf? && p.right.Leaf? && p.left.width == 1
    requires Rows(p.left, db) == [[Integer(1)]] && Rows(p.right, db) == [[Integer(2)]]
    ensures Rows(p, db) == [[Integer(1), Integer(2)]] && Run(p, db) == None
  {
    var l: Row, r: Row := [Integer(1)], [Integer(2)];
    assert l + r == [Integer(1), Integer(2)];
    OneOfTwo(p, l, r, db);
    LessTyped(p.on.value);
    WellTypedRuns(p, db, ts);
  }

  lemma LessTyped(less: Expr)
    requires less == Binary(Compare(LessThan), Column(0, None), Column(1, None))
    ensures OfType(less, [IntegerType] + [IntegerType], BooleanType) && Unsided(less) && !AllLeft(less, 1)
  {
    var sch := [IntegerType] + [IntegerType];
    assert sch[0] == sch[1] == IntegerType;
    assert IntegerType in TypesOf(less.left, sch) * TypesOf(less.right, sch);
    assert 1 in Columns(less);
  }

  /** The only pair of two rows. */
  lemma OneOfTwo(p: Plan, l: Row, r: Row, db: Database)
    requires p.NestedLoopJoin? && p.on.Some? && Rows(p.left, db) == [l] && Rows(p.right, db) == [r] && Keeps(p.on.value, l + r)
    ensures Rows(p, db) == [l + r]
  {
    var lefts, rights, m := [l], [r], OnAll([p.on.value]);
    assert lefts[1..] == [] && rights[1..] == [];
    KeepsSingle(p.on.value, l + r);
    assert JoinRow(l, rights, m) == [l + r] + JoinRow(l, [], m);
    assert Join(lefts, rights, m) == JoinRow(l, rights, m) + Join([], rights, m);
  }

  /** No rule changes that join. */
  lemma LessStays(less: Expr, cheaper: Plan -> bool)
    requires less == Binary(Compare(LessThan), Column(0, None), Column(1, None))
    ensures var p := NestedLoopJoin(2, Some(less), Leaf("l", 1), Leaf("r", 1)); Optimize(p, cheaper) == p
  {
    assert Optimize(Leaf("l", 1), cheaper) == Leaf("l", 1) && Optimize(Leaf("r", 1), cheaper) == Leaf("r", 1);
    assert Split(less) == [less] && !IsEqui(less, 1);
  }
}

/** Logical plans and the rows they denote. */
module Plans {
  import opened Common
  import opened Expressions

  /** A plan node; `width` is the column count of its declared schema.  Leaves and
      unary operators that no rule looks into are known by name only. */
  datatype Plan =
    | SeqScan(table: string, width: nat, scan: Option<Expr>, limit: Option<nat>, offset: nat)
    | Leaf(name: string, width: nat)
    | Unary(name: string, width: nat, child: Plan)
    | Filter(width: nat, pred: Expr, child: Plan)
    | NestedLoopJoin(width: nat, on: Option<Expr>, left: Plan, right: Plan)
    | HashJoin(width: nat, leftKey: Expr, rightKey: Expr, left: Plan, right: Plan)

  datatype Database = Database(tables: string -> seq<Row>, leaves: string -> seq<Row>,
                               operators: (string, seq<Row>) -> seq<Row>)

  function Size(p: Plan): nat {
    match p
    case SeqScan(_, _, _, _, _) => 1
    case Leaf(_, _) => 1
    case Unary(_, _, c) => 1 + Size(c)
    case Filter(_, _, c) => 1 + Size(c)
    case NestedLoopJoin(_, _, l, r) => 1 + Size(l) + Size(r)
    case HashJoin(_, _, _, l, r) => 1 + Size(l) + Size(r)
  }

  // ---- Selections and joins on row sequences ------------------------------

  predicate KeepsAll(cs: seq<Expr>, row: Row) {
    forall c :: c in cs ==> Keeps(c, row)
  }

  /** The rows of which every expression of `cs` is true, in order. */
  function Select(rows: seq<Row>, cs: seq<Expr>): seq<Row> {
    if rows == [] then []
    else (if KeepsAll(cs, rows[0]) then [rows[0]] else []) + Select(rows[1..], cs)
  }

  /** What makes two rows join: the conjuncts on the concatenated row, or equal keys. */
  datatype Match = OnAll(cs: seq<Expr>) | OnKeys(leftKey: Expr, rightKey: Expr)

  predicate Matches(m: Match, l: Row, r: Row) {
    match m
    case OnAll(cs) => KeepsAll(cs, l + r)
    case OnKeys(lk, rk) =>
      var a, b := Eval(lk, OneRow(l)), Eval(rk, OneRow(r));
      a.Val? && b.Val? && !a.value.Null? && a == b
  }

  function JoinRow(l: Row, rights: seq<Row>, m: Match): seq<Row> {
    if rights == [] then []
    else (if Matches(m, l, rights[0]) then [l + rights[0]] else []) + JoinRow(l, rights[1..], m)
  }

  function Join(lefts: seq<Row>, rights: seq<Row>, m: Match): seq<Row> {
    if lefts == [] then [] else JoinRow(lefts[0], rights, m) + Join(lefts[1..], rights, m)
  }

  function Conjunct(e: Option<Expr>): seq<Expr> {
    if e.Some? then [e.value] else []
  }

  /** Offset and limit of a scan count the rows that pass its predicate. */
  function Slice(rows: seq<Row>, offset: nat, limit: Option<nat>): seq<Row> {
    var rest := if offset < |rows| then rows[offset..] else [];
    if limit.Some? && limit.value < |rest| then rest[..limit.value] else rest
  }

  /** The rows that a plan denotes.  A predicate that raises drops its row here;
      `Run` tells such plans apart. */
  function Rows(p: Plan, db: Database): seq<Row> {
    match p
    case SeqScan(t, _, e, limit, offset) => Slice(Select(db.tables(t), Conjunct(e)), offset, limit)
    case Leaf(name, _) => db.leaves(name)
    case Unary(name, _, c) => db.operators(name, Rows(c, db))
    case Filter(_, e, c) => Select(Rows(c, db), [e])
    case NestedLoopJoin(_, e, l, r) => Join(Rows(l, db), Rows(r, db), OnAll(Conjunct(e)))
    case HashJoin(_, lk, rk, l, r) => Join(Rows(l, db), Rows(r, db), OnKeys(lk, rk))
  }

  // ---- Exceptions --------------------------------------------------------

  /** What the executors make of a predicate value; anything but a truth value or NULL throws. */
  function Truth(o: Outcome): Option<bool> {
    if o.Raised? then None
    else if o.value.Null? then Some(false)
    else if o.value.Boolean? then Some(o.value.b)
    else None
  }

  /** The predicate can be read on the row: it is true, false or NULL there. */
  predicate Readable(e: Expr, row: Row) {
    Truth(Eval(e, OneRow(row))).Some?
  }

  /** The nested loops can read the predicate on a pair of rows. */
  predicate PairReadable(e: Expr, l: Row, r: Row) {
    Truth(Eval(e, Sides(Some(l), Some(r)))).Some?
  }

  function RunSelect(rows: seq<Row>, e: Expr): Option<seq<Row>> {
    if rows == [] then Some([])
    else
      var t, rest := Truth(Eval(e, OneRow(rows[0]))), RunSelect(rows[1..], e);
      if t.None? || rest.None? then None else Some((if t.value then [rows[0]] else []) + rest.value)
  }

  /** A scan skips `offset` rows that pass its predicate, and looks at no further row
      once it has emitted `limit` of them. */
  function RunScan(rows: seq<Row>, e: Option<Expr>, offset: nat, limit: Option<nat>): Option<seq<Row>> {
    if rows == [] || limit == Some(0) then Some([])
    else
      var t := if e.Some? then Truth(Eval(e.value, OneRow(rows[0]))) else Some(true);
      if t.None? then None
      else if !t.value then RunScan(rows[1..], e, offset, limit)
      else if offset > 0 then RunScan(rows[1..], e, offset - 1, limit)
      else
        var rest := RunScan(rows[1..], e, 0, if limit.Some? then Some(limit.value - 1) else None);
        if rest.None? then None else Some([rows[0]] + rest.value)
  }

  /** The nested loops evaluate their predicate on the pair, not on the joined row. */
  function RunJoinRow(l: Row, rights: seq<Row>, m: Match): Option<seq<Row>>
    requires m.OnAll? ==> |m.cs| <= 1
  {
    if rights == [] then Some([])
    else
      var rest := RunJoinRow(l, rights[1..], m);
      if rest.None? then None
      else match m
        case OnAll(cs) =>
          var t := if cs == [] then Some(true) else Truth(Eval(cs[0], Sides(Some(l), Some(rights[0]))));
          if t.None? then None else Some((if t.value then [l + rights[0]] else []) + rest.value)
        case OnKeys(lk, rk) =>
          var a, b := Eval(lk, OneRow(l)), Eval(rk, OneRow(rights[0]));
          if a.Raised? || b.Raised? then None
          else Some((if !a.value.Null? && a == b then [l + rights[0]] else []) + rest.value)
  }

  /** Keys are evaluated on every row of their side, whether it has a partner or not. */
  predicate KeysRaise(lefts: seq<Row>, rights: seq<Row>, lk: Expr, rk: Expr) {
    || (exists l :: l in lefts && Eval(lk, OneRow(l)).Raised?)
    || (exists r :: r in rights && Eval(rk, OneRow(r)).Raised?)
  }

  function RunJoin(lefts: seq<Row>, rights: seq<Row>, m: Match): Option<seq<Row>>
    requires m.OnAll? ==> |m.cs| <= 1
  {
    if m.OnKeys? && KeysRaise(lefts, rights, m.leftKey, m.rightKey) then None
    else if lefts == [] then Some([])
    else
      var first, rest := RunJoinRow(lefts[0], rights, m), RunJoin(lefts[1..], rights, m);
      if first.None? || rest.None? then None else Some(first.value + rest.value)
  }

  /** The rows of a plan whose inputs are pulled to exhaustion, or `None` if an evaluation throws. */
  function Run(p: Plan, db: Database): Option<seq<Row>> {
    match p
    case SeqScan(t, _, e, limit, offset) => RunScan(db.tables(t), e, offset, limit)
    case Leaf(name, _) => Some(db.leaves(name))
    case Unary(name, _, c) =>
      var rows := Run(c, db);
      if rows.None? then None else Some(db.operators(name, rows.value))
    case Filter(_, e, c) =>
      var rows := Run(c, db);
      if rows.None? then None else RunSelect(rows.value, e)
    case NestedLoopJoin(_, e, l, r) =>
      var ls, rs := Run(l, db), Run(r, db);
      if ls.None? || rs.None? then None else RunJoin(ls.value, rs.value, OnAll(Conjunct(e)))
    case HashJoin(_, lk, rk, l, r) =>
      var ls, rs := Run(l, db), Run(r, db);
      if ls.None? || rs.None? then None else RunJoin(ls.value, rs.value, OnKeys(lk, rk))
  }

  lemma {:induction false} SelectNone(rows: seq<Row>)
    ensures Select(rows, []) == rows
  {
    if rows != [] {
      SelectNone(rows[1..]);
    }
  }

  lemma KeepsSingle(e: Expr, row: Row)
    ensures KeepsAll([e], row) <==> Keeps(e, row)
  {
    assert e in [e];
  }

  lemma FirstAndRest(rows: seq<Row>)
    requires rows != []
    ensures rows[0] in rows && forall row :: row in rows[1..] ==> row in rows
    ensures forall row :: row in rows ==> row == rows[0] || row in rows[1..]
  {
  }

  /** Selection raises exactly when some row cannot be read. */
  lemma {:induction false} RunSelectIsSelect(rows: seq<Row>, e: Expr)
    ensures RunSelect(rows, e).Some? <==> forall row :: row in rows ==> Readable(e, row)
    ensures RunSelect(rows, e).Some? ==> RunSelect(rows, e).value == Select(rows, [e])
  {
    if rows != [] {
      RunSelectIsSelect(rows[1..], e);
      KeepsSingle(e, rows[0]);
      FirstAndRest(rows);
    }
  }

  /** Row `i` of a window is row `offset + i`, and it ends at the limit or with the rows. */
  lemma SliceRows(rows: seq<Row>, offset: nat, limit: Option<nat>)
    ensures var r := Slice(rows, offset, limit);
      && (forall i :: 0 <= i < |r| ==> offset + i < |rows| && r[i] == rows[offset + i])
      && (limit.Some? ==> |r| <= limit.value)
      && (offset + |r| < |rows| ==> limit == Some(|r|)) && |r| <= |rows|
  {
  }

  /** One more row at the front is skipped or emitted. */
  lemma SliceFront(row: Row, rest: seq<Row>, offset: nat, limit: Option<nat>)
    requires limit != Some(0)
    ensures Slice([row] + rest, offset, limit) ==
      if offset > 0 then Slice(rest, offset - 1, limit)
      else [row] + Slice(rest, 0, if limit.Some? then Some(limit.value - 1) else None)
  {
    var all := [row] + rest;
    if offset > 0 {
      assert offset <= |all| ==> all[offset..] == rest[offset - 1..];
    } else {
      assert all[0..] == all && rest[0..] == rest;
    }
  }

  lemma {:induction false} RunScanIsSlice(rows: seq<Row>, e: Option<Expr>, offset: nat, limit: Option<nat>)
    requires RunScan(rows, e, offset, limit).Some?
    ensures RunScan(rows, e, offset, limit).value == Slice(Select(rows, Conjunct(e)), offset, limit)
  {
    if rows != [] && limit != Some(0) {
      if e.Some? {
        KeepsSingle(e.value, rows[0]);
      }
      SliceFront(rows[0], Select(rows[1..], Conjunct(e)), offset, limit);
      if !KeepsAll(Conjunct(e), rows[0]) {
        RunScanIsSlice(rows[1..], e, offset, limit);
      } else if offset > 0 {
        RunScanIsSlice(rows[1..], e, offset - 1, limit);
      } else {
        RunScanIsSlice(rows[1..], e, 0, if limit.Some? then Some(limit.value - 1) else None);
      }
    }
  }

  /** A scan that yields all its rows raises exactly when some row cannot be read; one
      that yields none looks at no row. */
  lemma {:induction false} RunScanExactly(rows: seq<Row>, e: Option<Expr>, limit: Option<nat>)
    requires limit.None? || limit == Some(0)
    ensures RunScan(rows, e, 0, limit).Some? <==>
      (limit.None? && e.Some? ==> forall row :: row in rows ==> Readable(e.value, row))
  {
    if rows != [] {
      RunScanExactly(rows[1..], e, limit);
      FirstAndRest(rows);
    }
  }

  /** Every evaluation of a join condition comes to something that can be read. */
  ghost predicate JoinReadable(lefts: seq<Row>, rights: seq<Row>, m: Match)
    requires m.OnAll? ==> |m.cs| <= 1
  {
    match m
    case OnAll(cs) => cs == [] || forall l, r :: l in lefts && r in rights ==> PairReadable(cs[0], l, r)
    case OnKeys(lk, rk) => !KeysRaise(lefts, rights, lk, rk)
  }

  lemma {:induction false} RunJoinRowExactly(l: Row, rights: seq<Row>, m: Match)
    requires (m.OnAll? ==> |m.cs| <= 1) && (m.OnKeys? ==> !KeysRaise([l], rights, m.leftKey, m.rightKey))
    ensures RunJoinRow(l, rights, m).Some? <==>
      (m.OnAll? && m.cs != [] ==> forall r :: r in rights ==> PairReadable(m.cs[0], l, r))
  {
    if rights != [] {
      FirstAndRest(rights);
      if m.OnKeys? {
        assert l in [l] && rights[0] in rights;
      }
      RunJoinRowExactly(l, rights[1..], m);
    }
  }

  /** A join raises exactly when one of those evaluations does not. */
  lemma {:induction false} RunJoinExactly(lefts: seq<Row>, rights: seq<Row>, m: Match)
    requires m.OnAll? ==> |m.cs| <= 1
    ensures RunJoin(lefts, rights, m).Some? <==> JoinReadable(lefts, rights, m)
  {
    if lefts != [] && !(m.OnKeys? && KeysRaise(lefts, rights, m.leftKey, m.rightKey)) {
      FirstAndRest(lefts);
      RunJoinRowExactly(lefts[0], rights, m);
      RunJoinExactly(lefts[1..], rights, m);
    }
  }

  /** The columns of a join predicate name no side: what the planner builds. */
  predicate UnsidedMatch(m: Match) {
    m.OnAll? && m.cs != [] ==> Unsided(m.cs[0])
  }

  /** The nested loops keep a pair, without raising, only if the joined row passes. */
  lemma PairMeansRow(e: Expr, l: Row, r: Row)
    requires Unsided(e) && PairReadable(e, l, r)
    ensures Truth(Eval(e, Sides(Some(l), Some(r)))) == Some(Keeps(e, l + r))
  {
    UnsidedReadsLeft(e, l, r);
    ValueExtends(e, l, r);
  }

  lemma {:induction false} RunJoinRowIsJoinRow(l: Row, rights: seq<Row>, m: Match)
    requires (m.OnAll? ==> |m.cs| <= 1) && UnsidedMatch(m) && RunJoinRow(l, rights, m).Some?
    ensures RunJoinRow(l, rights, m).value == JoinRow(l, rights, m)
  {
    if rights != [] {
      RunJoinRowIsJoinRow(l, rights[1..], m);
      if m.OnAll? && m.cs != [] {
        PairMeansRow(m.cs[0], l, rights[0]);
        assert m.cs == [m.cs[0]];
        KeepsSingle(m.cs[0], l + rights[0]);
      }
    }
  }

  lemma {:induction false} RunJoinIsJoin(lefts: seq<Row>, rights: seq<Row>, m: Match)
    requires (m.OnAll? ==> |m.cs| <= 1) && UnsidedMatch(m) && RunJoin(lefts, rights, m).Some?
    ensures RunJoin(lefts, rights, m).value == Join(lefts, rights, m)
  {
    if lefts != [] {
      RunJoinRowIsJoinRow(lefts[0], rights, m);
      RunJoinIsJoin(lefts[1..], rights, m);
    }
  }

  /** No predicate of a nested loop join names a side. */
  predicate UnsidedLoops(p: Plan) {
    match p
    case SeqScan(_, _, _, _, _) => true
    case Leaf(_, _) => true
    case Unary(_, _, c) => UnsidedLoops(c)
    case Filter(_, _, c) => UnsidedLoops(c)
    case NestedLoopJoin(_, on, l, r) => UnsidedLoops(l) && UnsidedLoops(r) && (on.Some? ==> Unsided(on.value))
    case HashJoin(_, _, _, l, r) => UnsidedLoops(l) && UnsidedLoops(r)
  }

  /** A run without exceptions yields the rows that the plan denotes. */
  lemma {:induction false} RunIsRows(p: Plan, db: Database)
    requires UnsidedLoops(p) && Run(p, db).Some?
    ensures Run(p, db).value == Rows(p, db)
  {
    match p {
      case SeqScan(t, _, e, limit, offset) => RunScanIsSlice(db.tables(t), e, offset, limit);
      case Leaf(_, _) =>
      case Unary(_, _, c) => RunIsRows(c, db);
      case Filter(_, e, c) =>
        RunIsRows(c, db);
        RunSelectIsSelect(Rows(c, db), e);
      case NestedLoopJoin(_, e, l, r) =>
        RunIsRows(l, db);
        RunIsRows(r, db);
        RunJoinIsJoin(Rows(l, db), Rows(r, db), OnAll(Conjunct(e)));
      case HashJoin(_, lk, rk, l, r) =>
        RunIsRows(l, db);
        RunIsRows(r, db);
        RunJoinIsJoin(Rows(l, db), Rows(r, db), OnKeys(lk, rk));
    }
  }

  /** How a join plan matches its rows. */
  function MatchOf(p: Plan): (m: Match)
    requires p.NestedLoopJoin? || p.HashJoin?
    ensures m.OnAll? ==> |m.cs| <= 1
  {
    if p.NestedLoopJoin? then OnAll(Conjunct(p.on)) else OnKeys(p.leftKey, p.rightKey)
  }

  /** A join plan raises exactly when an input does, or its condition cannot be read
      somewhere on the rows of the inputs. */
  lemma JoinRunsExactly(p: Plan, db: Database)
    requires (p.NestedLoopJoin? || p.HashJoin?) && UnsidedLoops(p)
    ensures Run(p, db).Some? <==>
      Run(p.left, db).Some? && Run(p.right, db).Some? && JoinReadable(Rows(p.left, db), Rows(p.right, db), MatchOf(p))
  {
    if Run(p.left, db).Some? && Run(p.right, db).Some? {
      RunIsRows(p.left, db);
      RunIsRows(p.right, db);
      assert Run(p, db) == RunJoin(Rows(p.left, db), Rows(p.right, db), MatchOf(p));
      RunJoinExactly(Rows(p.left, db), Rows(p.right, db), MatchOf(p));
    }
  }

  // ---- Schemas -----------------------------------------------------------

  ghost predicate HasWidth(rows: seq<Row>, n: nat) {
    forall i :: 0 <= i < |rows| ==> |rows[i]| == n
  }

  /** The declared column count of every left input of a join is the width of its
      rows, and a filter declares the columns of its input. */
  ghost predicate Typed(p: Plan, db: Database) {
    match p
    case SeqScan(_, _, _, _, _) => true
    case Leaf(_, _) => true
    case Unary(_, _, c) => Typed(c, db)
    case Filter(w, _, c) => Typed(c, db) && w == c.width
    case NestedLoopJoin(_, _, l, r) => Typed(l, db) && Typed(r, db) && HasWidth(Rows(l, db), l.width)
    case HashJoin(_, _, _, l, r) => Typed(l, db) && Typed(r, db) && HasWidth(Rows(l, db), l.width)
  }

  /** The scan yields all rows that pass its predicate, or none at all. */
  predicate AllOrNothing(limit: Option<nat>, offset: nat) {
    (limit.None? && offset == 0) || limit == Some(0)
  }

  /** No scan stops early or skips rows. */
  predicate NoScanLimits(p: Plan) {
    match p
    case SeqScan(_, _, _, limit, offset) => AllOrNothing(limit, offset)
    case Leaf(_, _) => true
    case Unary(_, _, c) => NoScanLimits(c)
    case Filter(_, _, c) => NoScanLimits(c)
    case NestedLoopJoin(_, _, l, r) => NoScanLimits(l) && NoScanLimits(r)
    case HashJoin(_, _, _, l, r) => NoScanLimits(l) && NoScanLimits(r)
  }

  // ---- Laws of selections and joins ---------------------------------------

  lemma {:induction false} SelectConcat(a: seq<Row>, b: seq<Row>, cs: seq<Expr>)
    ensures Select(a + b, cs) == Select(a, cs) + Select(b, cs)
  {
    if a == [] {
      assert a + b == b;
    } else {
      assert (a + b)[0] == a[0] && (a + b)[1..] == a[1..] + b;
      SelectConcat(a[1..], b, cs);
    }
  }

  /** Only what the expressions say about the rows at hand matters. */
  lemma {:induction false} SelectSame(rows: seq<Row>, cs: seq<Expr>, ds: seq<Expr>)
    requires forall i :: 0 <= i < |rows| ==> (KeepsAll(cs, rows[i]) <==> KeepsAll(ds, rows[i]))
    ensures Select(rows, cs) == Select(rows, ds)
  {
    if rows != [] {
      assert forall i :: 0 <= i < |rows[1..]| ==> rows[1..][i] == rows[i + 1];
      SelectSame(rows[1..], cs, ds);
    }
  }

  /** Two selections, one after the other, are one. */
  lemma {:induction false} SelectTwice(rows: seq<Row>, cs: seq<Expr>, ds: seq<Expr>)
    ensures Select(Select(rows, cs), ds) == Select(rows, cs + ds)
  {
    if rows != [] {
      SelectTwice(rows[1..], cs, ds);
      var first := if KeepsAll(cs, rows[0]) then [rows[0]] else [];
      SelectConcat(first, Select(rows[1..], cs), ds);
      assert KeepsAll(cs + ds, rows[0]) <==> KeepsAll(cs, rows[0]) && KeepsAll(ds, rows[0]);
    }
  }

  lemma {:induction false} SelectedFrom(rows: seq<Row>, cs: seq<Expr>)
    ensures forall row :: row in Select(rows, cs) ==> row in rows && KeepsAll(cs, row)
  {
    if rows != [] {
      SelectedFrom(rows[1..], cs);
      FirstAndRest(rows);
    }
  }

  /** A selection keeps all rows exactly when it holds of each. */
  lemma {:induction false} SelectsAll(rows: seq<Row>, cs: seq<Expr>)
    ensures |Select(rows, cs)| <= |rows|
    ensures Select(rows, cs) == rows <==> forall row :: row in rows ==> KeepsAll(cs, row)
  {
    if rows != [] {
      SelectsAll(rows[1..], cs);
      FirstAndRest(rows);
      if Select(rows, cs) == rows {
        assert Select(rows, cs)[1..] == rows[1..];
      }
    }
  }

  /** A join that raises nothing does not raise on fewer rows either. */
  lemma SelectedReadable(lefts: seq<Row>, rights: seq<Row>, m: Match, cl: seq<Expr>, cr: seq<Expr>)
    requires (m.OnAll? ==> |m.cs| <= 1) && JoinReadable(lefts, rights, m)
    ensures JoinReadable(Select(lefts, cl), Select(rights, cr), m)
  {
    SelectedFrom(lefts, cl);
    SelectedFrom(rights, cr);
  }

  lemma {:induction false} SelectWidth(rows: seq<Row>, cs: seq<Expr>, n: nat)
    requires HasWidth(rows, n)
    ensures HasWidth(Select(rows, cs), n)
  {
    if rows != [] {
      assert forall i :: 0 <= i < |rows[1..]| ==> rows[1..][i] == rows[i + 1];
      SelectWidth(rows[1..], cs, n);
    }
  }

  /** Selecting after a join or before it: what must hold of every pair of rows. */
  ghost predicate Equivalent(l: Row, r: Row, m: Match, cs: seq<Expr>, cl: seq<Expr>, cr: seq<Expr>, m': Match, cs': seq<Expr>) {
    (Matches(m, l, r) && KeepsAll(cs, l + r)) <==>
    (KeepsAll(cl, l) && KeepsAll(cr, r) && Matches(m', l, r) && KeepsAll(cs', l + r))
  }

  lemma {:induction false} PushIntoRow(l: Row, rights: seq<Row>, m: Match, cs: seq<Expr>,
                                       cl: seq<Expr>, cr: seq<Expr>, m': Match, cs': seq<Expr>)
    requires forall j :: 0 <= j < |rights| ==> Equivalent(l, rights[j], m, cs, cl, cr, m', cs')
    ensures Select(JoinRow(l, rights, m), cs) ==
            if KeepsAll(cl, l) then Select(JoinRow(l, Select(rights, cr), m'), cs') else []
  {
    if rights != [] {
      var r, rest := rights[0], rights[1..];
      assert forall j :: 0 <= j < |rest| ==> rest[j] == rights[j + 1];
      PushIntoRow(l, rest, m, cs, cl, cr, m', cs');
      SelectConcat(if Matches(m, l, r) then [l + r] else [], JoinRow(l, rest, m), cs);
      JoinRowConcat(l, if KeepsAll(cr, r) then [r] else [], Select(rest, cr), m');
      var kept := JoinRow(l, if KeepsAll(cr, r) then [r] else [], m');
      SelectConcat(kept, JoinRow(l, Select(rest, cr), m'), cs');
      assert Equivalent(l, r, m, cs, cl, cr, m', cs');
      SelectPair(l, r, m, cs);
      SelectPair(l, r, m', cs');
    }
  }

  lemma SelectPair(l: Row, r: Row, m: Match, cs: seq<Expr>)
    ensures JoinRow(l, [r], m) == if Matches(m, l, r) then [l + r] else []
    ensures Select(JoinRow(l, [r], m), cs) == if Matches(m, l, r) && KeepsAll(cs, l + r) then [l + r] else []
  {
    assert [r][1..] == [] && [l + r][1..] == [];
    assert Select([l + r], cs) == (if KeepsAll(cs, l + r) then [l + r] else []) + Select([], cs);
  }

  lemma {:induction false} JoinRowConcat(l: Row, a: seq<Row>, b: seq<Row>, m: Match)
    ensures JoinRow(l, a + b, m) == JoinRow(l, a, m) + JoinRow(l, b, m)
  {
    if a == [] {
      assert a + b == b;
    } else {
      assert (a + b)[0] == a[0] && (a + b)[1..] == a[1..] + b;
      JoinRowConcat(l, a[1..], b, m);
    }
  }

  /** Conjuncts move into the inputs of a join if they are equivalent pair by pair;
      the order of the rows stays. */
  lemma {:induction false} PushIntoJoin(lefts: seq<Row>, rights: seq<Row>, m: Match, cs: seq<Expr>,
                                        cl: seq<Expr>, cr: seq<Expr>, m': Match, cs': seq<Expr>)
    requires forall i, j :: 0 <= i < |lefts| && 0 <= j < |rights| ==>
      Equivalent(lefts[i], rights[j], m, cs, cl, cr, m', cs')
    ensures Select(Join(lefts, rights, m), cs) == Select(Join(Select(lefts, cl), Select(rights, cr), m'), cs')
  {
    if lefts != [] {
      var l, rest := lefts[0], lefts[1..];
      assert forall i :: 0 <= i < |rest| ==> rest[i] == lefts[i + 1];
      PushIntoJoin(rest, rights, m, cs, cl, cr, m', cs');
      PushIntoRow(l, rights, m, cs, cl, cr, m', cs');
      SelectConcat(JoinRow(l, rights, m), Join(rest, rights, m), cs);
      JoinFirst(if KeepsAll(cl, l) then [l] else [], Select(rest, cl), Select(rights, cr), m', cs');
    }
  }

  /** A join of at most one row and then others. */
  lemma JoinFirst(first: seq<Row>, rest: seq<Row>, rights: seq<Row>, m: Match, cs: seq<Expr>)
    requires |first| <= 1
    ensures Select(Join(first + rest, rights, m), cs) ==
      (if first == [] then [] else Select(JoinRow(first[0], rights, m), cs)) + Select(Join(rest, rights, m), cs)
  {
    if first == [] {
      assert first + rest == rest;
    } else {
      assert (first + rest)[0] == first[0] && (first + rest)[1..] == rest;
      SelectConcat(JoinRow(first[0], rights, m), Join(rest, rights, m), cs);
    }
  }

  lemma {:induction false} JoinedFromRow(l: Row, rights: seq<Row>, m: Match, row: Row) returns (r: Row)
    requires row in JoinRow(l, rights, m)
    ensures r in rights && Matches(m, l, r) && row == l + r
  {
    r := rights[0];
    if !(Matches(m, l, r) && row == l + r) {
      r := JoinedFromRow(l, rights[1..], m, row);
    }
  }

  /** Every joined row comes from a pair that matches. */
  lemma {:induction false} JoinedFrom(lefts: seq<Row>, rights: seq<Row>, m: Match, row: Row) returns (l: Row, r: Row)
    requires row in Join(lefts, rights, m)
    ensures l in lefts && r in rights && Matches(m, l, r) && row == l + r
  {
    if row in JoinRow(lefts[0], rights, m) {
      l := lefts[0];
      r := JoinedFromRow(l, rights, m, row);
    } else {
      l, r := JoinedFrom(lefts[1..], rights, m, row);
    }
  }
}

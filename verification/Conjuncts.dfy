/** Splitting predicates into conjuncts and re-basing their columns. */
module Conjuncts {
  import opened Common
  import opened Expressions
  import opened Plans

  function Both(a: Expr, b: Expr): Expr {
    Binary(Logic(And), a, b)
  }

  function Split(e: Expr): (cs: seq<Expr>)
    ensures cs != []
  {
    if e.Binary? && e.op == Logic(And) then Split(e.left) + Split(e.right) else [e]
  }

  /** The conjunction of `cs`, nested to the left. */
  function Combine(cs: seq<Expr>): Expr
    requires cs != []
  {
    if |cs| == 1 then cs[0] else Both(Combine(cs[..|cs| - 1]), cs[|cs| - 1])
  }

  method CombineConjuncts(cs: seq<Expr>) returns (e: Option<Expr>)
    ensures e == if cs == [] then None else Some(Combine(cs))
  {
    if cs == [] {
      return None;
    }
    var result := cs[0];
    var i := 1;
    while i < |cs|
      invariant 1 <= i <= |cs| && result == Combine(cs[..i])
    {
      assert cs[..i + 1][..i] == cs[..i];
      result := Both(result, cs[i]);
      i := i + 1;
    }
    assert cs[..i] == cs;
    return Some(result);
  }

  predicate AllLeft(e: Expr, n: nat) {
    forall c :: c in Columns(e) ==> c < n
  }

  predicate AllRight(e: Expr, n: nat) {
    forall c :: c in Columns(e) ==> c >= n
  }

  predicate GoesLeft(e: Expr, n: nat) {
    Columns(e) != [] && AllLeft(e, n)
  }

  predicate GoesRight(e: Expr, n: nat) {
    Columns(e) != [] && AllRight(e, n)
  }

  /** Which inputs of a join an expression can be evaluated on. */
  method TestSides(e: Expr, n: nat) returns (allLeft: bool, allRight: bool)
    ensures allLeft <==> AllLeft(e, n)
    ensures allRight <==> AllRight(e, n)
  {
    var cols := Columns(e);
    allLeft, allRight := true, true;
    var k := 0;
    while k < |cols|
      invariant k <= |cols|
      invariant allLeft <==> forall j :: 0 <= j < k ==> cols[j] < n
      invariant allRight <==> forall j :: 0 <= j < k ==> cols[j] >= n
    {
      if cols[k] >= n {
        allLeft := false;
      }
      if cols[k] < n {
        allRight := false;
      }
      k := k + 1;
    }
    assert forall j :: 0 <= j < |cols| ==> cols[j] in Columns(e);
  }

  /** The operands of an expression have no other columns. */
  lemma PartColumns(e: Expr)
    ensures e.Not? ==> Columns(e.arg) == Columns(e)
    ensures e.Binary? ==> forall c :: c in Columns(e.left) || c in Columns(e.right) <==> c in Columns(e)
  {
    if e.Binary? {
      assert Columns(e) == Columns(e.left) + Columns(e.right);
    }
  }

  /** The expression for the right input alone, whose columns start at position `n`. */
  function Shift(e: Expr, n: nat): Expr
    requires AllRight(e, n)
  {
    PartColumns(e);
    match e
    case Column(i, _) => assert i in Columns(e); Column(i - n, None)
    case Constant(_) => e
    case Parameter(_) => e
    case Not(x) => Not(Shift(x, n))
    case Binary(op, l, r) => Binary(op, Shift(l, n), Shift(r, n))
  }

  // ---- What splitting and re-basing preserve ------------------------------

  lemma KeepsConcat(a: seq<Expr>, b: seq<Expr>, row: Row)
    ensures KeepsAll(a + b, row) <==> KeepsAll(a, row) && KeepsAll(b, row)
  {
    assert forall c :: c in a || c in b ==> c in a + b;
  }

  /** A conjunction is true exactly when both parts are, even under strict NULL. */
  lemma KeepsBoth(a: Expr, b: Expr, row: Row)
    ensures Keeps(Both(a, b), row) <==> Keeps(a, row) && Keeps(b, row)
  {
  }

  lemma {:induction false} SplitKeeps(e: Expr, row: Row)
    ensures KeepsAll(Split(e), row) <==> Keeps(e, row)
  {
    if e.Binary? && e.op == Logic(And) {
      SplitKeeps(e.left, row);
      SplitKeeps(e.right, row);
      KeepsConcat(Split(e.left), Split(e.right), row);
      KeepsBoth(e.left, e.right, row);
    } else {
      KeepsSingle(e, row);
    }
  }

  lemma {:induction false} CombineKeeps(cs: seq<Expr>, row: Row)
    requires cs != []
    ensures Keeps(Combine(cs), row) <==> KeepsAll(cs, row)
  {
    var n := |cs| - 1;
    KeepsSingle(cs[n], row);
    if n > 0 {
      CombineKeeps(cs[..n], row);
      assert cs == cs[..n] + [cs[n]];
      KeepsConcat(cs[..n], [cs[n]], row);
    } else {
      assert cs == [cs[0]];
    }
  }

  /** A predicate that has a value has conjuncts that do. */
  lemma {:induction false} SplitEvaluates(e: Expr, row: Row)
    requires Eval(e, OneRow(row)).Val?
    ensures forall c :: c in Split(e) ==> Eval(c, OneRow(row)).Val?
  {
    if e.Binary? && e.op == Logic(And) {
      SplitEvaluates(e.left, row);
      SplitEvaluates(e.right, row);
    }
  }

  /** A predicate has left columns only exactly when its conjuncts have. */
  lemma {:induction false} SplitLeft(e: Expr, n: nat)
    ensures AllLeft(e, n) <==> forall c :: c in Split(e) ==> AllLeft(c, n)
  {
    if e.Binary? && e.op == Logic(And) {
      SplitLeft(e.left, n);
      SplitLeft(e.right, n);
      BothLeft(e.left, e.right, n);
    } else {
      assert e in Split(e);
    }
  }

  lemma BothLeft(a: Expr, b: Expr, n: nat)
    ensures AllLeft(Both(a, b), n) <==> AllLeft(a, n) && AllLeft(b, n)
  {
    PartColumns(Both(a, b));
  }

  lemma {:induction false} CombineLeft(cs: seq<Expr>, n: nat)
    requires cs != []
    ensures AllLeft(Combine(cs), n) <==> forall c :: c in cs ==> AllLeft(c, n)
  {
    var k := |cs| - 1;
    assert cs[k] in cs;
    if k > 0 {
      CombineLeft(cs[..k], n);
      assert cs == cs[..k] + [cs[k]];
      BothLeft(Combine(cs[..k]), cs[k], n);
    } else {
      assert cs == [cs[0]];
    }
  }

  lemma RecombinedColumns(e: Expr, n: nat)
    ensures AllLeft(Combine(Split(e)), n) <==> AllLeft(e, n)
  {
    SplitLeft(e, n);
    CombineLeft(Split(e), n);
  }

  lemma {:induction false} SplitUnsided(e: Expr)
    requires Unsided(e)
    ensures forall c :: c in Split(e) ==> Unsided(c)
  {
    if e.Binary? && e.op == Logic(And) {
      SplitUnsided(e.left);
      SplitUnsided(e.right);
    }
  }

  lemma {:induction false} CombineUnsided(cs: seq<Expr>)
    requires cs != [] && forall c :: c in cs ==> Unsided(c)
    ensures Unsided(Combine(cs))
  {
    assert cs[|cs| - 1] in cs;
    if |cs| > 1 {
      CombineUnsided(cs[..|cs| - 1]);
    }
  }

  /** Splitting undoes combining, as long as no part is a conjunction itself. */
  lemma {:induction false} SplitCombine(cs: seq<Expr>)
    requires cs != [] && forall c :: c in cs ==> Split(c) == [c]
    ensures Split(Combine(cs)) == cs
  {
    var n := |cs| - 1;
    assert cs[n] in cs;
    if n > 0 {
      SplitCombine(cs[..n]);
      assert cs == cs[..n] + [cs[n]];
    }
  }

  lemma {:induction false} SplitParts(e: Expr, c: Expr)
    requires c in Split(e)
    ensures Split(c) == [c]
  {
    if e.Binary? && e.op == Logic(And) {
      if c in Split(e.left) {
        SplitParts(e.left, c);
      } else {
        SplitParts(e.right, c);
      }
    }
  }

  /** A predicate on left columns does not see the right row. */
  lemma {:induction false} LeftLocal(e: Expr, l: Row, r: Row)
    requires AllLeft(e, |l|)
    ensures Eval(e, OneRow(l + r)) == Eval(e, OneRow(l))
  {
    PartColumns(e);
    match e {
      case Column(i, _) => assert i in Columns(e);
      case Constant(_) =>
      case Parameter(_) =>
      case Not(x) => LeftLocal(x, l, r);
      case Binary(_, a, b) =>
        LeftLocal(a, l, r);
        LeftLocal(b, l, r);
    }
  }

  /** A re-based predicate means on the right row what it meant on the joined row. */
  lemma {:induction false} RightLocal(e: Expr, l: Row, r: Row)
    requires AllRight(e, |l|)
    ensures Eval(e, OneRow(l + r)) == Eval(Shift(e, |l|), OneRow(r))
  {
    PartColumns(e);
    match e {
      case Column(i, _) => assert i in Columns(e);
      case Constant(_) =>
      case Parameter(_) =>
      case Not(x) => RightLocal(x, l, r);
      case Binary(_, a, b) =>
        RightLocal(a, l, r);
        RightLocal(b, l, r);
    }
  }

  /** The nested loops can read an unsided predicate on all pairs exactly when there is no
      pair, or it has left columns only and can be read on every left row. */
  lemma LoopsReadExactly(lefts: seq<Row>, rights: seq<Row>, e: Expr, n: nat)
    requires Unsided(e) && HasWidth(lefts, n)
    ensures JoinReadable(lefts, rights, OnAll([e])) <==>
      lefts == [] || rights == [] || (AllLeft(e, n) && forall l :: l in lefts ==> Readable(e, l))
  {
    forall l, r
      ensures PairReadable(e, l, r) <==> Readable(e, l)
    {
      UnsidedReadsLeft(e, l, r);
    }
    if lefts != [] && rights != [] {
      assert lefts[0] in lefts && rights[0] in rights;
      if JoinReadable(lefts, rights, OnAll([e])) {
        assert PairReadable(e, lefts[0], rights[0]);
        forall c | c in Columns(e)
          ensures c < n
        {
          if c >= n {
            BeyondRaises(e, lefts[0], c);
          }
        }
      }
    }
  }

  // ---- Conjuncts over a plan ---------------------------------------------

  /** A filter with the conjuncts that are left, if there are any. */
  function OnTop(width: nat, cs: seq<Expr>, p: Plan): Plan {
    if cs == [] then p else Filter(width, Combine(cs), p)
  }

  lemma SelectOne(rows: seq<Row>, e: Expr, cs: seq<Expr>)
    requires forall row :: Keeps(e, row) <==> KeepsAll(cs, row)
    ensures Select(rows, [e]) == Select(rows, cs)
  {
    forall i | 0 <= i < |rows|
      ensures KeepsAll([e], rows[i]) <==> KeepsAll(cs, rows[i])
    {
      KeepsSingle(e, rows[i]);
      assert Keeps(e, rows[i]) <==> KeepsAll(cs, rows[i]);
    }
    SelectSame(rows, [e], cs);
  }

  lemma SelectSplit(rows: seq<Row>, e: Expr)
    ensures Select(rows, [e]) == Select(rows, Split(e))
  {
    forall row
      ensures Keeps(e, row) <==> KeepsAll(Split(e), row)
    {
      SplitKeeps(e, row);
    }
    SelectOne(rows, e, Split(e));
  }

  lemma SelectCombine(rows: seq<Row>, cs: seq<Expr>)
    requires cs != []
    ensures Select(rows, [Combine(cs)]) == Select(rows, cs)
  {
    forall row
      ensures Keeps(Combine(cs), row) <==> KeepsAll(cs, row)
    {
      CombineKeeps(cs, row);
    }
    SelectOne(rows, Combine(cs), cs);
  }

  lemma OnTopRows(width: nat, cs: seq<Expr>, p: Plan, db: Database)
    ensures Rows(OnTop(width, cs, p), db) == Select(Rows(p, db), cs)
  {
    if cs == [] {
      SelectNone(Rows(p, db));
    } else {
      SelectCombine(Rows(p, db), cs);
    }
  }

  /** What conjuncts left over are evaluated on can be read. */
  ghost predicate RestSafe(cs: seq<Expr>, rows: seq<Row>) {
    cs == [] || forall row :: row in rows ==> Readable(Combine(cs), row)
  }

  lemma OnTopRuns(width: nat, cs: seq<Expr>, p: Plan, db: Database)
    requires UnsidedLoops(p)
    ensures Run(OnTop(width, cs, p), db).Some? <==> Run(p, db).Some? && RestSafe(cs, Rows(p, db))
  {
    if Run(p, db).Some? {
      RunIsRows(p, db);
      if cs != [] {
        RunSelectIsSelect(Rows(p, db), Combine(cs));
      }
    }
  }

  /** What a rule keeps: the rows and their order, the declared width, and the
      conditions that the next rule needs. */
  ghost predicate Kept(p: Plan, p': Plan, db: Database) {
    Rows(p', db) == Rows(p, db) && Typed(p', db) && p'.width == p.width && (NoScanLimits(p) ==> NoScanLimits(p'))
  }
}

/** Join selection: nested loops with an equality between the inputs become hash joins. */
module JoinSelection {
  import opened Common
  import opened Expressions
  import opened Plans
  import opened Conjuncts

  /** An equality between an expression of the left and one of the right input. */
  predicate IsEqui(e: Expr, n: nat) {
    && e.Binary? && e.op == Compare(Equal)
    && ((GoesLeft(e.left, n) && GoesRight(e.right, n)) || (GoesRight(e.left, n) && GoesLeft(e.right, n)))
  }

  /** The key of the left input and the re-based key of the right input. */
  function KeysOf(e: Expr, n: nat): (Expr, Expr)
    requires IsEqui(e, n)
  {
    if GoesLeft(e.left, n) && GoesRight(e.right, n) then (e.left, Shift(e.right, n)) else (e.right, Shift(e.left, n))
  }

  function FirstEqui(cs: seq<Expr>, n: nat): (k: nat)
    ensures k <= |cs| && (k < |cs| ==> IsEqui(cs[k], n))
    ensures forall i :: 0 <= i < k ==> !IsEqui(cs[i], n)
  {
    if cs == [] then 0
    else if IsEqui(cs[0], n) then 0
    else
      var k := FirstEqui(cs[1..], n);
      assert forall i :: 1 <= i < 1 + k ==> cs[i] == cs[1..][i - 1];
      1 + k
  }

  function ConjunctsOf(on: Option<Expr>): seq<Expr> {
    if on.Some? then Split(on.value) else []
  }

  function Without(cs: seq<Expr>, k: nat): seq<Expr>
    requires k < |cs|
  {
    cs[..k] + cs[k + 1..]
  }

  /** One nested loop join whose inputs are rewritten already. */
  function SelectJoin(width: nat, on: Option<Expr>, l: Plan, r: Plan): Plan {
    var cs, n := ConjunctsOf(on), l.width;
    var k := FirstEqui(cs, n);
    if k < |cs| then
      OnTop(width, Without(cs, k), HashJoin(width, KeysOf(cs[k], n).0, KeysOf(cs[k], n).1, l, r))
    else NestedLoopJoin(width, if cs == [] then None else Some(Combine(cs)), l, r)
  }

  function JoinSelect(p: Plan): Plan {
    match p
    case SeqScan(_, _, _, _, _) => p
    case Leaf(_, _) => p
    case Unary(name, w, c) => Unary(name, w, JoinSelect(c))
    case Filter(w, e, c) => Filter(w, e, JoinSelect(c))
    case NestedLoopJoin(w, on, l, r) => SelectJoin(w, on, JoinSelect(l), JoinSelect(r))
    case HashJoin(w, lk, rk, l, r) => HashJoin(w, lk, rk, JoinSelect(l), JoinSelect(r))
  }

  // ---- The rule as the optimizer runs it ----------------------------------

  /** Takes the first equality between the inputs out of the conjuncts. */
  method TakeEquiKey(cs: seq<Expr>, n: nat) returns (keys: Option<(Expr, Expr)>, rest: seq<Expr>)
    ensures var k := FirstEqui(cs, n);
      if k < |cs| then keys == Some(KeysOf(cs[k], n)) && rest == Without(cs, k) else keys == None && rest == cs
  {
    var k := 0;
    while k < |cs|
      invariant k <= |cs| && k <= FirstEqui(cs, n)
    {
      if cs[k].Binary? && cs[k].op == Compare(Equal) {
        var a, b := cs[k].left, cs[k].right;
        var aLeft, aRight := TestSides(a, n);
        var bLeft, bRight := TestSides(b, n);
        if aLeft && bRight && Columns(a) != [] && Columns(b) != [] {
          return Some((a, Shift(b, n))), Without(cs, k);
        }
        if aRight && bLeft && Columns(a) != [] && Columns(b) != [] {
          return Some((b, Shift(a, n))), Without(cs, k);
        }
      }
      k := k + 1;
    }
    return None, cs;
  }

  method Apply(p: Plan) returns (r: Plan)
    ensures r == JoinSelect(p)
    decreases p
  {
    match p {
      case SeqScan(_, _, _, _, _) => r := p;
      case Leaf(_, _) => r := p;
      case Unary(name, w, c) =>
        var c' := Apply(c);
        r := Unary(name, w, c');
      case Filter(w, e, c) =>
        var c' := Apply(c);
        r := Filter(w, e, c');
      case HashJoin(w, lk, rk, left, right) =>
        var l := Apply(left);
        var r' := Apply(right);
        r := HashJoin(w, lk, rk, l, r');
      case NestedLoopJoin(w, on, left, right) =>
        var l := Apply(left);
        var r' := Apply(right);
        var keys, rest := TakeEquiKey(ConjunctsOf(on), l.width);
        var pred := CombineConjuncts(rest);
        if keys.Some? {
          var join := HashJoin(w, keys.value.0, keys.value.1, l, r');
          r := if pred.Some? then Filter(w, pred.value, join) else join;
        } else {
          r := NestedLoopJoin(w, pred, l, r');
        }
    }
  }

  // ---- Join selection preserves the rows ----------------------------------

  /** The equality is true of a joined row exactly when the two keys are equal and not NULL. */
  lemma EquiMeansKeys(e: Expr, l: Row, r: Row)
    requires IsEqui(e, |l|)
    ensures Keeps(e, l + r) <==> Matches(OnKeys(KeysOf(e, |l|).0, KeysOf(e, |l|).1), l, r)
  {
    if GoesLeft(e.left, |l|) && GoesRight(e.right, |l|) {
      LeftLocal(e.left, l, r);
      RightLocal(e.right, l, r);
    } else {
      LeftLocal(e.right, l, r);
      RightLocal(e.left, l, r);
    }
  }

  lemma ConjunctsMean(on: Option<Expr>, row: Row)
    ensures KeepsAll(ConjunctsOf(on), row) <==> KeepsAll(Conjunct(on), row)
  {
    if on.Some? {
      SplitKeeps(on.value, row);
      KeepsSingle(on.value, row);
    }
  }

  lemma KeepsWithout(cs: seq<Expr>, k: nat, row: Row)
    requires k < |cs|
    ensures KeepsAll(cs, row) <==> Keeps(cs[k], row) && KeepsAll(Without(cs, k), row)
  {
    assert cs == cs[..k] + [cs[k]] + cs[k + 1..];
    KeepsConcat(cs[..k], cs[k + 1..], row);
    KeepsConcat(cs[..k] + [cs[k]], cs[k + 1..], row);
    KeepsConcat(cs[..k], [cs[k]], row);
    KeepsSingle(cs[k], row);
  }

  /** The inputs of a join, with a match and a residual that say the same. */
  lemma SameJoin(lefts: seq<Row>, rights: seq<Row>, m: Match, m': Match, rest: seq<Expr>)
    requires forall i, j :: 0 <= i < |lefts| && 0 <= j < |rights| ==>
      Equivalent(lefts[i], rights[j], m, [], [], [], m', rest)
    ensures Join(lefts, rights, m) == Select(Join(lefts, rights, m'), rest)
  {
    PushIntoJoin(lefts, rights, m, [], [], [], m', rest);
    SelectNone(lefts);
    SelectNone(rights);
    SelectNone(Join(lefts, rights, m));
  }

  /** Hashing on one equality and filtering by the other conjuncts. */
  lemma HashedJoin(lefts: seq<Row>, rights: seq<Row>, on: Option<Expr>, n: nat, k: nat)
    requires HasWidth(lefts, n) && k < |ConjunctsOf(on)| && IsEqui(ConjunctsOf(on)[k], n)
    ensures var cs := ConjunctsOf(on);
      Join(lefts, rights, OnAll(Conjunct(on))) ==
      Select(Join(lefts, rights, OnKeys(KeysOf(cs[k], n).0, KeysOf(cs[k], n).1)), Without(cs, k))
  {
    var cs := ConjunctsOf(on);
    var m, m' := OnAll(Conjunct(on)), OnKeys(KeysOf(cs[k], n).0, KeysOf(cs[k], n).1);
    forall i, j | 0 <= i < |lefts| && 0 <= j < |rights|
      ensures Equivalent(lefts[i], rights[j], m, [], [], [], m', Without(cs, k))
    {
      ConjunctsMean(on, lefts[i] + rights[j]);
      KeepsWithout(cs, k, lefts[i] + rights[j]);
      EquiMeansKeys(cs[k], lefts[i], rights[j]);
    }
    SameJoin(lefts, rights, m, m', Without(cs, k));
  }

  /** Putting the conjuncts together again, nested to the left. */
  lemma RecombinedJoin(lefts: seq<Row>, rights: seq<Row>, on: Option<Expr>)
    requires ConjunctsOf(on) != []
    ensures Join(lefts, rights, OnAll(Conjunct(on))) == Join(lefts, rights, OnAll([Combine(ConjunctsOf(on))]))
  {
    var cs := ConjunctsOf(on);
    var m, m' := OnAll(Conjunct(on)), OnAll([Combine(cs)]);
    forall i, j | 0 <= i < |lefts| && 0 <= j < |rights|
      ensures Equivalent(lefts[i], rights[j], m, [], [], [], m', [])
    {
      ConjunctsMean(on, lefts[i] + rights[j]);
      CombineKeeps(cs, lefts[i] + rights[j]);
      KeepsSingle(Combine(cs), lefts[i] + rights[j]);
    }
    SameJoin(lefts, rights, m, m', []);
    SelectNone(Join(lefts, rights, m'));
  }

  lemma SelectJoinKeeps(width: nat, on: Option<Expr>, l: Plan, r: Plan, db: Database)
    requires Typed(l, db) && Typed(r, db) && HasWidth(Rows(l, db), l.width)
    ensures Kept(NestedLoopJoin(width, on, l, r), SelectJoin(width, on, l, r), db)
  {
    var cs, n := ConjunctsOf(on), l.width;
    var k := FirstEqui(cs, n);
    if k < |cs| {
      var join := HashJoin(width, KeysOf(cs[k], n).0, KeysOf(cs[k], n).1, l, r);
      HashedJoin(Rows(l, db), Rows(r, db), on, n, k);
      assert Rows(NestedLoopJoin(width, on, l, r), db) == Select(Rows(join, db), Without(cs, k));
      OnTopKeeps(width, Without(cs, k), join, db);
    } else if cs != [] {
      RecombinedJoin(Rows(l, db), Rows(r, db), on);
    }
  }

  lemma OnTopKeeps(width: nat, cs: seq<Expr>, p: Plan, db: Database)
    requires Typed(p, db) && p.width == width
    ensures var p' := OnTop(width, cs, p);
      Rows(p', db) == Select(Rows(p, db), cs) && Typed(p', db) && p'.width == width && (NoScanLimits(p) ==> NoScanLimits(p'))
  {
    OnTopRows(width, cs, p, db);
  }

  /** For every plan whose declared widths are right, the rewritten plan denotes the
      same rows in the same order. */
  lemma {:induction false} JoinSelectKeepsRows(p: Plan, db: Database)
    requires Typed(p, db)
    ensures Kept(p, JoinSelect(p), db)
  {
    match p {
      case SeqScan(_, _, _, _, _) =>
      case Leaf(_, _) =>
      case Unary(_, _, c) => JoinSelectKeepsRows(c, db);
      case Filter(_, _, c) => JoinSelectKeepsRows(c, db);
      case HashJoin(_, _, _, l, r) =>
        JoinSelectKeepsRows(l, db);
        JoinSelectKeepsRows(r, db);
      case NestedLoopJoin(w, on, l, r) =>
        JoinSelectKeepsRows(l, db);
        JoinSelectKeepsRows(r, db);
        SelectJoinKeeps(w, on, JoinSelect(l), JoinSelect(r), db);
    }
  }

  // ---- When the rewritten plan raises --------------------------------------

  /** A nested loop join, rewritten, raises nothing on these inputs.  With an equality
      between the inputs: its keys have values on all rows of their input, and the other
      conjuncts, nested to the left, can be read on the rows that the keys join.  Without
      one: there is no predicate or no pair, or the predicate has left columns only and,
      nested to the left, can be read on every left row. */
  ghost predicate SelectedJoinRuns(on: Option<Expr>, n: nat, lefts: seq<Row>, rights: seq<Row>) {
    var cs := ConjunctsOf(on);
    var k := FirstEqui(cs, n);
    if k < |cs| then
      var (lk, rk) := KeysOf(cs[k], n);
      !KeysRaise(lefts, rights, lk, rk) && RestSafe(Without(cs, k), Join(lefts, rights, OnKeys(lk, rk)))
    else
      || on.None? || lefts == [] || rights == []
      || (AllLeft(on.value, n) && forall l :: l in lefts ==> Readable(Combine(cs), l))
  }

  /** A join of either kind, rewritten, raises nothing on these inputs. */
  ghost predicate RewrittenRuns(p: Plan, lefts: seq<Row>, rights: seq<Row>)
    requires p.NestedLoopJoin? || p.HashJoin?
  {
    if p.NestedLoopJoin? then SelectedJoinRuns(p.on, p.left.width, lefts, rights)
    else !KeysRaise(lefts, rights, p.leftKey, p.rightKey)
  }

  /** The condition on a whole plan, told from the rows that its nodes denote. */
  ghost predicate SelectRuns(p: Plan, db: Database) {
    match p
    case SeqScan(_, _, _, _, _) => Run(p, db).Some?
    case Leaf(_, _) => true
    case Unary(_, _, c) => SelectRuns(c, db)
    case Filter(_, e, c) => SelectRuns(c, db) && forall row :: row in Rows(c, db) ==> Readable(e, row)
    case NestedLoopJoin(_, _, l, r) => SelectRuns(l, db) && SelectRuns(r, db) && RewrittenRuns(p, Rows(l, db), Rows(r, db))
    case HashJoin(_, _, _, l, r) => SelectRuns(l, db) && SelectRuns(r, db) && RewrittenRuns(p, Rows(l, db), Rows(r, db))
  }

  lemma SelectJoinUnsided(width: nat, on: Option<Expr>, l: Plan, r: Plan)
    requires UnsidedLoops(NestedLoopJoin(width, on, l, r))
    ensures UnsidedLoops(SelectJoin(width, on, l, r))
  {
    var cs := ConjunctsOf(on);
    if on.Some? {
      SplitUnsided(on.value);
      CombineUnsided(cs);
    }
  }

  lemma {:induction false} JoinSelectUnsided(p: Plan)
    requires UnsidedLoops(p)
    ensures UnsidedLoops(JoinSelect(p))
  {
    match p {
      case SeqScan(_, _, _, _, _) =>
      case Leaf(_, _) =>
      case Unary(_, _, c) => JoinSelectUnsided(c);
      case Filter(_, _, c) => JoinSelectUnsided(c);
      case HashJoin(_, _, _, l, r) =>
        JoinSelectUnsided(l);
        JoinSelectUnsided(r);
      case NestedLoopJoin(w, on, l, r) =>
        JoinSelectUnsided(l);
        JoinSelectUnsided(r);
        SelectJoinUnsided(w, on, JoinSelect(l), JoinSelect(r));
    }
  }

  /** What stays a nested loop join reads the left rows only. */
  lemma LoopsLeftRun(on: Option<Expr>, n: nat, lefts: seq<Row>, rights: seq<Row>)
    requires HasWidth(lefts, n) && (on.Some? ==> Unsided(on.value))
    ensures var cs := ConjunctsOf(on);
      JoinReadable(lefts, rights, OnAll(if cs == [] then [] else [Combine(cs)])) <==>
      || on.None? || lefts == [] || rights == []
      || (AllLeft(on.value, n) && forall l :: l in lefts ==> Readable(Combine(cs), l))
  {
    if on.Some? {
      SplitUnsided(on.value);
      CombineUnsided(Split(on.value));
      RecombinedColumns(on.value, n);
      LoopsReadExactly(lefts, rights, Combine(Split(on.value)), n);
    }
  }

  lemma SelectJoinRuns(width: nat, on: Option<Expr>, l: Plan, r: Plan, db: Database)
    requires HasWidth(Rows(l, db), l.width) && UnsidedLoops(NestedLoopJoin(width, on, l, r))
    ensures Run(SelectJoin(width, on, l, r), db).Some? <==>
      Run(l, db).Some? && Run(r, db).Some? && SelectedJoinRuns(on, l.width, Rows(l, db), Rows(r, db))
  {
    var cs := ConjunctsOf(on);
    var k := FirstEqui(cs, l.width);
    SelectJoinUnsided(width, on, l, r);
    if k < |cs| {
      var join := HashJoin(width, KeysOf(cs[k], l.width).0, KeysOf(cs[k], l.width).1, l, r);
      JoinRunsExactly(join, db);
      OnTopRuns(width, Without(cs, k), join, db);
    } else {
      JoinRunsExactly(SelectJoin(width, on, l, r), db);
      LoopsLeftRun(on, l.width, Rows(l, db), Rows(r, db));
    }
  }

  lemma {:induction false} SelectRunsExactly(p: Plan, db: Database)
    requires Typed(p, db) && UnsidedLoops(p)
    ensures Run(JoinSelect(p), db).Some? <==> SelectRuns(p, db)
  {
    match p {
      case SeqScan(_, _, _, _, _) =>
      case Leaf(_, _) =>
      case Unary(_, _, c) => SelectRunsExactly(c, db);
      case Filter(_, e, c) =>
        SelectRunsExactly(c, db);
        JoinSelectKeepsRows(c, db);
        JoinSelectUnsided(c);
        OnTopRuns(p.width, [e], JoinSelect(c), db);
      case HashJoin(_, _, _, l, r) =>
        SelectRunsExactly(l, db);
        SelectRunsExactly(r, db);
        JoinSelectKeepsRows(l, db);
        JoinSelectKeepsRows(r, db);
        JoinSelectUnsided(p);
        JoinRunsExactly(JoinSelect(p), db);
      case NestedLoopJoin(w, on, l, r) =>
        SelectRunsExactly(l, db);
        SelectRunsExactly(r, db);
        JoinSelectKeepsRows(l, db);
        JoinSelectKeepsRows(r, db);
        JoinSelectUnsided(l);
        JoinSelectUnsided(r);
        SelectJoinRuns(w, on, JoinSelect(l), JoinSelect(r), db);
    }
  }

  /** Whatever the original plan does, the rewritten one yields the rows that the original
      denotes exactly under the condition, and otherwise raises. */
  lemma JoinSelectRunsExactly(p: Plan, db: Database)
    requires Typed(p, db) && UnsidedLoops(p)
    ensures Run(JoinSelect(p), db) == if SelectRuns(p, db) then Some(Rows(p, db)) else None
  {
    SelectRunsExactly(p, db);
    JoinSelectKeepsRows(p, db);
    JoinSelectUnsided(p);
    if Run(JoinSelect(p), db).Some? {
      RunIsRows(JoinSelect(p), db);
    }
  }

  /** An equality between the inputs has a right column. */
  lemma EquiIsNotLeft(on: Expr, n: nat, k: nat)
    requires k < |Split(on)| && IsEqui(Split(on)[k], n)
    ensures !AllLeft(on, n)
  {
    var e := Split(on)[k];
    SplitLeft(on, n);
    PartColumns(e);
    var x := if GoesLeft(e.left, n) && GoesRight(e.right, n) then e.right else e.left;
    assert Columns(x)[0] in Columns(x);
    assert Columns(x)[0] in Columns(e) && e in Split(on);
  }

  /** The nested loops raise on every predicate with a right column, if both inputs have rows. */
  lemma RightColumnRaises(p: Plan, db: Database)
    requires p.NestedLoopJoin? && p.on.Some? && UnsidedLoops(p) && HasWidth(Rows(p.left, db), p.left.width)
    requires !AllLeft(p.on.value, p.left.width) && Rows(p.left, db) != [] && Rows(p.right, db) != []
    ensures Run(p, db) == None
  {
    var lefts, rights := Rows(p.left, db), Rows(p.right, db);
    LoopsReadExactly(lefts, rights, p.on.value, p.left.width);
    assert !JoinReadable(lefts, rights, MatchOf(p));
    JoinRunsExactly(p, db);
  }

  /** So an equality between two inputs that have rows can be run only after the rewrite. */
  lemma EquiLoopsRaise(p: Plan, db: Database, k: nat)
    requires p.NestedLoopJoin? && p.on.Some? && UnsidedLoops(p) && HasWidth(Rows(p.left, db), p.left.width)
    requires k < |Split(p.on.value)| && IsEqui(Split(p.on.value)[k], p.left.width)
    requires Rows(p.left, db) != [] && Rows(p.right, db) != []
    ensures Run(p, db) == None
  {
    EquiIsNotLeft(p.on.value, p.left.width, k);
    RightColumnRaises(p, db);
  }

  // ---- Predicates nested to the left ---------------------------------------

  /** Beside a true operand, AND has the value of the other one, if it has one at all. */
  lemma BothWithTrue(a: Expr, b: Expr, row: Row)
    requires Eval(Both(a, b), OneRow(row)).Val?
    ensures Keeps(a, row) ==> Eval(b, OneRow(row)) == Eval(Both(a, b), OneRow(row))
    ensures Keeps(b, row) ==> Eval(a, OneRow(row)) == Eval(Both(a, b), OneRow(row))
    ensures Eval(a, OneRow(row)).Val?
  {
  }

  lemma BothSame(a: Expr, a': Expr, b: Expr, row: Row)
    requires Eval(a, OneRow(row)) == Eval(a', OneRow(row))
    ensures Eval(Both(a, b), OneRow(row)) == Eval(Both(a', b), OneRow(row))
  {
  }

  lemma WithoutFront(cs: seq<Expr>, k: nat)
    requires k < |cs| - 1 && |cs| > 2
    ensures var n := |cs| - 1; Combine(Without(cs, k)) == Both(Combine(Without(cs[..n], k)), cs[n])
  {
    var n := |cs| - 1;
    var w := Without(cs, k);
    assert w[..n - 1] == Without(cs[..n], k) && w[n - 1] == cs[n];
  }

  /** A conjunct that is true can be taken out of a conjunction that has a value. */
  lemma {:induction false} TrueConjunctDrops(cs: seq<Expr>, k: nat, row: Row)
    requires k < |cs| && |cs| > 1 && Keeps(cs[k], row) && Eval(Combine(cs), OneRow(row)).Val?
    ensures Eval(Combine(Without(cs, k)), OneRow(row)) == Eval(Combine(cs), OneRow(row))
  {
    var n := |cs| - 1;
    var front := cs[..n];
    BothWithTrue(Combine(front), cs[n], row);
    if k == n {
      assert Without(cs, k) == front;
    } else if n == 1 {
      assert Without(cs, k) == [cs[1]] && front == [cs[0]];
    } else {
      assert front[k] == cs[k];
      TrueConjunctDrops(front, k, row);
      WithoutFront(cs, k);
      BothSame(Combine(front), Combine(Without(front, k)), cs[n], row);
    }
  }

  /** Hash keys are evaluated on the rows of their input even if the other input is empty. */
  ghost predicate LonelyKeysSafe(lefts: seq<Row>, rights: seq<Row>, lk: Expr, rk: Expr) {
    && (rights == [] ==> forall l :: l in lefts ==> Eval(lk, OneRow(l)).Val?)
    && (lefts == [] ==> forall r :: r in rights ==> Eval(rk, OneRow(r)).Val?)
  }

  /** Where the equality has a value the keys have. */
  lemma EquiEvaluates(e: Expr, l: Row, r: Row)
    requires IsEqui(e, |l|) && Eval(e, OneRow(l + r)).Val?
    ensures Eval(KeysOf(e, |l|).0, OneRow(l)).Val? && Eval(KeysOf(e, |l|).1, OneRow(r)).Val?
  {
    if GoesLeft(e.left, |l|) && GoesRight(e.right, |l|) {
      LeftLocal(e.left, l, r);
      RightLocal(e.right, l, r);
    } else {
      LeftLocal(e.right, l, r);
      RightLocal(e.left, l, r);
    }
  }

  /** Where the predicate can be read on every joined row, only keys without partner can raise. */
  lemma KeysRaiseExactly(lefts: seq<Row>, rights: seq<Row>, on: Expr, n: nat, k: nat)
    requires HasWidth(lefts, n) && k < |Split(on)| && IsEqui(Split(on)[k], n)
    requires forall l, r :: l in lefts && r in rights ==> Readable(on, l + r)
    ensures var (lk, rk) := KeysOf(Split(on)[k], n);
      !KeysRaise(lefts, rights, lk, rk) <==> LonelyKeysSafe(lefts, rights, lk, rk)
  {
    var c := Split(on)[k];
    forall l, r | l in lefts && r in rights
      ensures Eval(KeysOf(c, n).0, OneRow(l)).Val? && Eval(KeysOf(c, n).1, OneRow(r)).Val?
    {
      assert Readable(on, l + r);
      SplitEvaluates(on, l + r);
      assert c in Split(on);
      EquiEvaluates(c, l, r);
    }
    if lefts != [] && rights != [] {
      assert lefts[0] in lefts && rights[0] in rights;
    }
  }

  /** A predicate nested to the left, with an equality between the inputs, that can be read
      on every joined row: rewritten, only keys without partner can raise. */
  lemma NestedJoinSafe(on: Expr, n: nat, lefts: seq<Row>, rights: seq<Row>)
    requires HasWidth(lefts, n) && Combine(Split(on)) == on && FirstEqui(Split(on), n) < |Split(on)|
    requires forall l, r :: l in lefts && r in rights ==> Readable(on, l + r)
    ensures var (lk, rk) := KeysOf(Split(on)[FirstEqui(Split(on), n)], n);
      SelectedJoinRuns(Some(on), n, lefts, rights) <==> LonelyKeysSafe(lefts, rights, lk, rk)
  {
    var cs := Split(on);
    var k := FirstEqui(cs, n);
    KeysRaiseExactly(lefts, rights, on, n, k);
    if |cs| > 1 {
      var (lk, rk) := KeysOf(cs[k], n);
      forall row | row in Join(lefts, rights, OnKeys(lk, rk))
        ensures Readable(Combine(Without(cs, k)), row)
      {
        var l, r := JoinedFrom(lefts, rights, OnKeys(lk, rk), row);
        EquiMeansKeys(cs[k], l, r);
        assert Readable(on, l + r);
        TrueConjunctDrops(cs, k, row);
      }
    }
  }

  // ---- Where the rule raises -----------------------------------------------

  /** A key is evaluated on a left row although there is no right row. */
  lemma LonelyKeyCanRaise() returns (p: Plan, db: Database)
    ensures Typed(p, db) && UnsidedLoops(p) && Run(p, db) == Some([]) && Run(JoinSelect(p), db) == None
  {
    var a, b := Not(Column(0, None)), Column(1, None);
    var equal := Binary(Compare(Equal), a, b);
    var l: Row := [Integer(1)];
    p := NestedLoopJoin(2, Some(equal), Leaf("l", 1), Leaf("r", 1));
    db := Database(_ => [], name => if name == "l" then [l] else [], (_, rows) => rows);
    var lefts: seq<Row> := [l];
    assert lefts[1..] == [] && Rows(p.left, db) == lefts && Rows(p.right, db) == [];
    assert RunJoinRow(l, [], OnAll([equal])) == Some([]);
    assert Split(equal) == [equal];
    assert IsEqui(equal, 1) && KeysOf(equal, 1).0 == a by {
      assert Columns(a) == [0] && Columns(b) == [1] && 0 in Columns(a) && 1 in Columns(b);
    }
    assert l in lefts && Eval(a, OneRow(l)).Raised?;
    JoinSelectRunsExactly(p, db);
  }

  /** One pair of rows that the loops reject without raising. */
  lemma RejectedPair(p: Plan, l: Row, r: Row, db: Database)
    requires p.NestedLoopJoin? && p.on.Some? && Unsided(p.on.value) && p.left.Leaf? && p.right.Leaf?
    requires Rows(p.left, db) == [l] && Rows(p.right, db) == [r] && Eval(p.on.value, OneRow(l)) == Val(Null)
    ensures Run(p, db) == Some([])
  {
    var lefts, rights, m := [l], [r], OnAll([p.on.value]);
    assert lefts[1..] == [] && rights[1..] == [];
    UnsidedReadsLeft(p.on.value, l, r);
    ValueExtends(p.on.value, l, r);
    RunJoinExactly(lefts, rights, m);
    KeepsSingle(p.on.value, l + r);
    assert JoinRow(l, rights, m) == [] + JoinRow(l, [], m) == [];
    assert Join(lefts, rights, m) == [] + Join([], rights, m) == [];
    RunIsRows(p, db);
  }

  lemma NestedFive(five: Expr, a: Expr, b: Expr)
    requires five == Constant(Integer(5)) && a == Column(0, None) && b == Column(1, None)
    ensures Split(Both(five, Both(a, b))) == [five, a, b] && Combine([five, a, b]) == Both(Both(five, a), b)
    ensures FirstEqui([five, a, b], 2) == 3
  {
    var one, two, cs := [five], [five, a], [five, a, b];
    assert Split(five) == [five] && Split(a) == [a] && Split(b) == [b];
    assert Split(Both(a, b)) == [a] + [b];
    assert Split(Both(five, Both(a, b))) == [five] + [a, b] == cs;
    assert two[..1] == one && cs[..2] == two && Combine(one) == five;
    assert Combine(two) == Both(Combine(two[..1]), two[1]);
    assert Combine(cs) == Both(Combine(cs[..2]), cs[2]);
  }

  lemma FiveUnsafe(five: Expr, a: Expr, b: Expr, l: Row, r: Row)
    requires five == Constant(Integer(5)) && a == Column(0, None) && b == Column(1, None)
    requires l == [Boolean(true), Null]
    ensures Eval(Both(five, Both(a, b)), OneRow(l)) == Val(Null)
    ensures !SelectedJoinRuns(Some(Both(five, Both(a, b))), 2, [l], [r])
  {
    NestedFive(five, a, b);
    assert l in [l];
    assert Eval(a, OneRow(l)) == Val(Boolean(true)) && Eval(b, OneRow(l)) == Val(Null);
    assert Eval(Both(a, b), OneRow(l)) == Val(Null) && Eval(Both(five, a), OneRow(l)) == Raised;
    assert !Readable(Combine([five, a, b]), l);
  }

  /** Nested to the left, `5 AND (x AND y)` raises also where y is NULL. */
  lemma NestingCanRaise() returns (p: Plan, db: Database)
    ensures Typed(p, db) && UnsidedLoops(p) && Run(p, db) == Some([]) && Run(JoinSelect(p), db) == None
  {
    var five, a, b := Constant(Integer(5)), Column(0, None), Column(1, None);
    var l: Row, r: Row := [Boolean(true), Null], [];
    p := NestedLoopJoin(2, Some(Both(five, Both(a, b))), Leaf("l", 2), Leaf("r", 0));
    db := Database(_ => [], name => if name == "l" then [l] else [r], (_, rows) => rows);
    FiveUnsafe(five, a, b, l, r);
    RejectedPair(p, l, r, db);
    assert !SelectRuns(p, db);
    JoinSelectRunsExactly(p, db);
  }
}

/** Constant folding of expressions. */
module ConstantFolding {
  import opened Common
  import opened Expressions

  predicate IsConstant(e: Expr) {
    match e
    case Constant(_) => true
    case Column(_, _) => false
    case Parameter(_) => false
    case Not(x) => IsConstant(x)
    case Binary(_, l, r) => IsConstant(l) && IsConstant(r)
  }

  function OrNull(o: Outcome): Value {
    if o.Val? then o.value else Null
  }

  /** Evaluates a constant expression; an exception becomes NULL. */
  function SafeEvaluate(e: Expr): Value {
    OrNull(Eval(e, OneRow([])))
  }

  /** A constant operand `v` of AND or OR beside `other`.  The three results of
      the source: the folded expression, nothing to fold, or an exception
      because `v` is not a truth value. */
  datatype Shortcut = Fold(e: Expr) | Keep | Fails

  function ShortcutOf(op: LogicOp, v: Value, other: Expr): Shortcut {
    if v.Null? then Keep
    else if !v.Boolean? then Fails
    else if v.b == (op == Or) then Fold(Constant(v))
    else Fold(other)
  }

  function FoldLogic(op: LogicOp, l: Expr, r: Expr): Option<Expr> {
    var whole := Binary(Logic(op), l, r);
    if IsConstant(l) && IsConstant(r) then Some(Constant(SafeEvaluate(whole)))
    else if IsConstant(l) || IsConstant(r) then
      match ShortcutOf(op, SafeEvaluate(if IsConstant(l) then l else r), if IsConstant(l) then r else l)
      case Fold(e) => Some(e)
      case Keep => Some(whole)
      case Fails => None
    else Some(whole)
  }

  /** A node whose children are folded already. */
  function FoldNode(e: Expr): Option<Expr> {
    match e
    case Column(_, _) => Some(e)
    case Constant(_) => Some(e)
    case Parameter(_) => Some(e)
    case Not(x) => if IsConstant(x) then Some(Constant(SafeEvaluate(e))) else Some(e)
    case Binary(op, l, r) =>
      if op.Logic? then FoldLogic(op.l, l, r)
      else if IsConstant(l) && IsConstant(r) then Some(Constant(SafeEvaluate(e)))
      else Some(e)
  }

  /** The folded expression; `None` when the rule throws on a constant operand of
      AND or OR that is no truth value. */
  function FoldExpression(e: Expr): Option<Expr> {
    match e
    case Column(_, _) => Some(e)
    case Constant(_) => Some(e)
    case Parameter(_) => Some(e)
    case Not(x) =>
      var x' := FoldExpression(x);
      if x'.None? then None else FoldNode(Not(x'.value))
    case Binary(op, l, r) =>
      var l', r' := FoldExpression(l), FoldExpression(r);
      if l'.None? || r'.None? then None else FoldNode(Binary(op, l'.value, r'.value))
  }

  /** A constant expression has the same value on every row. */
  lemma {:induction false} ConstantEverywhere(e: Expr, s: Scope, t: Scope)
    requires IsConstant(e)
    ensures Eval(e, s) == Eval(e, t)
  {
    match e {
      case Constant(_) =>
      case Not(x) => ConstantEverywhere(x, s, t);
      case Binary(_, _, _) =>
        ConstantEverywhere(e.left, s, t);
        ConstantEverywhere(e.right, s, t);
    }
  }

  // ---- What folds to a constant --------------------------------------------

  /** The operand that decides AND or OR by itself. */
  predicate Decides(op: LogicOp, v: Value) {
    v == Boolean(op == Or)
  }

  /** The constant that an expression comes to on every row, read off its operands:
      both are constant, or one is and decides an AND or OR. */
  function ConstOf(e: Expr): Option<Value> {
    match e
    case Column(_, _) => None
    case Constant(v) => Some(v)
    case Parameter(_) => None
    case Not(x) => if ConstOf(x).Some? then Some(OrNull(Negate(ConstOf(x).value))) else None
    case Binary(op, l, r) =>
      var a, b := ConstOf(l), ConstOf(r);
      if a.Some? && b.Some? then Some(OrNull(Operate(op, a.value, b.value)))
      else if op.Logic? && a.Some? && Decides(op.l, a.value) then a
      else if op.Logic? && b.Some? && Decides(op.l, b.value) then b
      else None
  }

  /** A value that is neither NULL nor a truth value. */
  predicate NoTruthValue(v: Value) {
    !v.Null? && !v.Boolean?
  }

  lemma NullIsStrict(op: Operator, a: Value, b: Value)
    ensures a.Null? || b.Null? ==> Operate(op, a, b) == Val(Null)
  {
  }

  /** A constant expression comes to its value, or to NULL where evaluating it raises. */
  lemma {:induction false} ConstOfConstant(e: Expr)
    requires IsConstant(e)
    ensures ConstOf(e) == Some(SafeEvaluate(e))
  {
    match e {
      case Constant(_) =>
      case Not(x) => ConstOfConstant(x);
      case Binary(op, l, r) =>
        ConstOfConstant(l);
        ConstOfConstant(r);
        NullIsStrict(op, SafeEvaluate(l), SafeEvaluate(r));
    }
  }

  /** Only a constant expression comes to a constant that is no truth value. */
  lemma {:induction false} NoTruthValueIsConstant(e: Expr)
    requires ConstOf(e).Some? && NoTruthValue(ConstOf(e).value)
    ensures IsConstant(e)
  {
    if e.Binary? && e.op.Arith? {
      NoTruthValueIsConstant(e.left);
      NoTruthValueIsConstant(e.right);
    }
  }

  // ---- When the rule throws -----------------------------------------------

  /** A constant expression that AND and OR cannot read. */
  predicate Unreadable(e: Expr) {
    IsConstant(e) && NoTruthValue(SafeEvaluate(e))
  }

  /** Somewhere in `e` an AND or OR has a constant operand that is no truth value,
      beside one that comes to no constant. */
  predicate Clashes(e: Expr) {
    match e
    case Column(_, _) => false
    case Constant(_) => false
    case Parameter(_) => false
    case Not(x) => Clashes(x)
    case Binary(op, l, r) =>
      || Clashes(l) || Clashes(r)
      || (op.Logic? && Unreadable(l) && ConstOf(r).None?)
      || (op.Logic? && Unreadable(r) && ConstOf(l).None?)
  }

  lemma UnreadableExactly(e: Expr)
    ensures Unreadable(e) <==> ConstOf(e).Some? && NoTruthValue(ConstOf(e).value)
  {
    if IsConstant(e) {
      ConstOfConstant(e);
    } else if ConstOf(e).Some? && NoTruthValue(ConstOf(e).value) {
      NoTruthValueIsConstant(e);
    }
  }

  /** The rule throws on an expression exactly when it has a clash; what it folds to a
      constant, and to which, can be read off the expression. */
  lemma {:induction false} FoldThrowsExactly(e: Expr)
    ensures FoldExpression(e).None? <==> Clashes(e)
    ensures !Clashes(e) ==> (IsConstant(FoldExpression(e).value) <==> ConstOf(e).Some?)
    ensures !Clashes(e) && ConstOf(e).Some? ==> FoldExpression(e).value == Constant(ConstOf(e).value)
  {
    match e {
      case Column(_, _) =>
      case Constant(_) =>
      case Parameter(_) =>
      case Not(x) =>
        FoldThrowsExactly(x);
        if ConstOf(x).Some? {
          FoldedConstants(Not(x), ConstOf(x).value, Null);
        }
      case Binary(op, l, r) =>
        FoldThrowsExactly(l);
        FoldThrowsExactly(r);
        UnreadableExactly(l);
        UnreadableExactly(r);
        var a, b := ConstOf(l), ConstOf(r);
        FoldedConstants(e, if a.Some? then a.value else Null, if b.Some? then b.value else Null);
    }
  }

  /** Operators on constants, evaluated. */
  lemma FoldedConstants(e: Expr, a: Value, b: Value)
    ensures SafeEvaluate(Constant(a)) == a && SafeEvaluate(Constant(b)) == b
    ensures e.Not? ==> SafeEvaluate(Not(Constant(a))) == OrNull(Negate(a))
    ensures e.Binary? ==> SafeEvaluate(Binary(e.op, Constant(a), Constant(b))) == OrNull(Operate(e.op, a, b))
  {
    assert Eval(Constant(a), OneRow([])) == Val(a) && Eval(Constant(b), OneRow([])) == Val(b);
  }

  /** No AND or OR has a constant operand whose value is no truth value. */
  predicate TruthOperands(e: Expr) {
    match e
    case Column(_, _) => true
    case Constant(_) => true
    case Parameter(_) => true
    case Not(x) => TruthOperands(x)
    case Binary(op, l, r) => TruthOperands(l) && TruthOperands(r) && (op.Logic? ==> !Unreadable(l) && !Unreadable(r))
  }

  /** Where no constant operand of AND and OR is out of place, the rule does not throw. */
  lemma {:induction false} TruthOperandsFold(e: Expr)
    requires TruthOperands(e)
    ensures FoldExpression(e).Some?
  {
    FoldThrowsExactly(e);
    match e {
      case Column(_, _) =>
      case Constant(_) =>
      case Parameter(_) =>
      case Not(x) =>
        TruthOperandsFold(x);
        FoldThrowsExactly(x);
      case Binary(_, l, r) =>
        TruthOperandsFold(l);
        TruthOperandsFold(r);
        FoldThrowsExactly(l);
        FoldThrowsExactly(r);
    }
  }

  /** `x AND 5` has a value where x is false, and the rule throws on it. */
  lemma FoldThrowsOnValue()
    ensures var e := Binary(Logic(And), Column(0, None), Constant(Integer(5)));
      Eval(e, OneRow([Boolean(false)])) == Val(Boolean(false)) && FoldExpression(e) == None
  {
  }

  // ---- What the folded expression means ------------------------------------

  /** The constant operand that AND or OR passes over. */
  predicate Neutral(op: LogicOp, e: Expr) {
    ConstOf(e) == Some(Boolean(op == And))
  }

  /** The value of the folded expression, told from the original one: constants that
      raise are NULL, a constant that decides hides the other operand, and a constant
      that does not decide leaves the other operand as it is. */
  function ShortEval(e: Expr, s: Scope): Outcome {
    if ConstOf(e).Some? then Val(ConstOf(e).value)
    else match e
      case Column(i, side) => Lookup(s, i, side)
      case Constant(v) => Val(v)
      case Parameter(bound) => if bound.Some? then Val(bound.value) else Raised
      case Not(x) =>
        var v := ShortEval(x, s);
        if v.Raised? then Raised else Negate(v.value)
      case Binary(op, l, r) =>
        var a, b := ShortEval(l, s), ShortEval(r, s);
        if op.Logic? && Neutral(op.l, l) then b
        else if op.Logic? && Neutral(op.l, r) then a
        else if a.Raised? || b.Raised? then Raised
        else Operate(op, a.value, b.value)
  }

  /** On every row, values, NULLs and exceptions of the folded expression are those. */
  lemma {:induction false} FoldMeans(e: Expr, s: Scope)
    requires !Clashes(e)
    ensures FoldExpression(e).Some? && Eval(FoldExpression(e).value, s) == ShortEval(e, s)
  {
    FoldThrowsExactly(e);
    match e {
      case Column(_, _) =>
      case Constant(_) =>
      case Parameter(_) =>
      case Not(x) =>
        FoldMeans(x, s);
        FoldThrowsExactly(x);
      case Binary(op, l, r) =>
        FoldMeans(l, s);
        FoldMeans(r, s);
        FoldThrowsExactly(l);
        FoldThrowsExactly(r);
        UnreadableExactly(l);
        UnreadableExactly(r);
        var a, b := ConstOf(l), ConstOf(r);
        FoldedConstants(e, if a.Some? then a.value else Null, if b.Some? then b.value else Null);
    }
  }

  /** Short evaluation finds every value there is, NULL only excepted. */
  lemma {:induction false} ShortEvalRefines(e: Expr, s: Scope)
    requires Eval(e, s).Val? && !Eval(e, s).value.Null?
    ensures ShortEval(e, s) == Eval(e, s)
  {
    match e {
      case Column(_, _) =>
      case Constant(_) =>
      case Parameter(_) =>
      case Not(x) => ShortEvalRefines(x, s);
      case Binary(op, l, r) =>
        NullIsStrict(op, Eval(l, s).value, Eval(r, s).value);
        ShortEvalRefines(l, s);
        ShortEvalRefines(r, s);
    }
  }

  /** Whenever an expression has a non-null value on a row, the folded expression has
      that value on the row; folding gives one unless the expression has a clash. */
  lemma FoldRefines(e: Expr, s: Scope)
    requires Eval(e, s).Val? && !Eval(e, s).value.Null?
    ensures FoldExpression(e).Some? <==> !Clashes(e)
    ensures FoldExpression(e).Some? ==> Eval(FoldExpression(e).value, s) == Eval(e, s)
  {
    FoldThrowsExactly(e);
    if !Clashes(e) {
      FoldMeans(e, s);
      ShortEvalRefines(e, s);
    }
  }

  /** No AND or OR has a constant operand that decides, beside one that is not constant. */
  predicate Undecided(e: Expr) {
    match e
    case Column(_, _) => true
    case Constant(_) => true
    case Parameter(_) => true
    case Not(x) => Undecided(x)
    case Binary(op, l, r) =>
      && Undecided(l) && Undecided(r)
      && (op.Logic? && IsConstant(l) && Decides(op.l, SafeEvaluate(l)) ==> IsConstant(r))
      && (op.Logic? && IsConstant(r) && Decides(op.l, SafeEvaluate(r)) ==> IsConstant(l))
  }

  /** Without such operands only constant expressions come to a constant. */
  lemma {:induction false} UndecidedConstants(e: Expr)
    requires Undecided(e)
    ensures ConstOf(e).Some? <==> IsConstant(e)
  {
    if IsConstant(e) {
      ConstOfConstant(e);
    } else if e.Not? {
      UndecidedConstants(e.arg);
    } else if e.Binary? {
      UndecidedConstants(e.left);
      UndecidedConstants(e.right);
      if IsConstant(e.left) {
        ConstOfConstant(e.left);
      } else if IsConstant(e.right) {
        ConstOfConstant(e.right);
      }
    }
  }

  lemma {:induction false} ShortEvalExact(e: Expr, s: Scope)
    requires Undecided(e) && Eval(e, s).Val?
    ensures ShortEval(e, s) == Eval(e, s)
  {
    UndecidedConstants(e);
    if IsConstant(e) {
      ConstOfConstant(e);
      ConstantEverywhere(e, s, OneRow([]));
    } else if e.Not? {
      ShortEvalExact(e.arg, s);
    } else if e.Binary? {
      ShortEvalExact(e.left, s);
      ShortEvalExact(e.right, s);
      UndecidedConstants(e.left);
      UndecidedConstants(e.right);
    }
  }

  /** An expression without deciding constants keeps all its values when folded, NULL included. */
  lemma FoldExact(e: Expr, s: Scope)
    requires Undecided(e) && !Clashes(e) && Eval(e, s).Val?
    ensures FoldExpression(e).Some? && Eval(FoldExpression(e).value, s) == Eval(e, s)
  {
    FoldMeans(e, s);
    ShortEvalExact(e, s);
  }

  /** An AND or OR decided by its constant left operand: folding forgets the right one,
      and is right about a row exactly when that one has a value there other than NULL. */
  lemma DecidedLeft(op: LogicOp, l: Expr, r: Expr, s: Scope)
    requires IsConstant(l) && Decides(op, SafeEvaluate(l)) && ConstOf(r).None? && !Clashes(r)
    ensures var e := Binary(Logic(op), l, r);
      && FoldExpression(e).Some? && Eval(FoldExpression(e).value, s) == Val(Boolean(op == Or))
      && (Eval(FoldExpression(e).value, s) == Eval(e, s) <==> Eval(r, s).Val? && !Eval(r, s).value.Null?)
  {
    var e := Binary(Logic(op), l, r);
    ConstOfConstant(l);
    ConstantEverywhere(l, s, OneRow([]));
    ConstantFolds(l);
    UnreadableExactly(r);
    FoldMeans(e, s);
  }

  /** The same on the other side, where the left operand must be a truth value. */
  lemma DecidedRight(op: LogicOp, l: Expr, r: Expr, s: Scope)
    requires IsConstant(r) && Decides(op, SafeEvaluate(r)) && ConstOf(l).None? && !Clashes(l)
    ensures var e := Binary(Logic(op), l, r);
      && FoldExpression(e).Some? && Eval(FoldExpression(e).value, s) == Val(Boolean(op == Or))
      && (Eval(FoldExpression(e).value, s) == Eval(e, s) <==> Eval(l, s).Val? && Eval(l, s).value.Boolean?)
  {
    var e := Binary(Logic(op), l, r);
    ConstOfConstant(r);
    ConstantEverywhere(r, s, OneRow([]));
    ConstantFolds(r);
    UnreadableExactly(l);
    FoldMeans(e, s);
  }

  /** A filter or join predicate keeps the same rows when folded, if it has no deciding
      constant or is not NULL there. */
  lemma FoldKeeps(e: Expr, row: Row)
    requires Eval(e, OneRow(row)).Val? && !Clashes(e) && (Undecided(e) || Eval(e, OneRow(row)) != Val(Null))
    ensures FoldExpression(e).Some? && (Keeps(FoldExpression(e).value, row) <==> Keeps(e, row))
  {
    if Undecided(e) {
      FoldExact(e, OneRow(row));
    } else {
      FoldRefines(e, OneRow(row));
    }
  }

  /** Folding leaves nothing to fold. */
  lemma {:induction false} FoldIdempotent(e: Expr)
    requires FoldExpression(e).Some?
    ensures FoldExpression(FoldExpression(e).value) == FoldExpression(e)
  {
    match e {
      case Column(_, _) =>
      case Constant(_) =>
      case Parameter(_) =>
      case Not(x) => FoldIdempotent(x);
      case Binary(_, _, _) =>
        FoldIdempotent(e.left);
        FoldIdempotent(e.right);
    }
  }

  /** A constant expression has no clash and folds to one constant: its value, or NULL
      where evaluating it raises. */
  lemma {:induction false} ConstantFolds(e: Expr)
    requires IsConstant(e)
    ensures !Clashes(e) && FoldExpression(e) == Some(Constant(SafeEvaluate(e)))
  {
    ConstOfConstant(e);
    FoldThrowsExactly(e);
    match e {
      case Constant(_) =>
      case Not(x) => ConstantFolds(x);
      case Binary(_, l, r) =>
        ConstantFolds(l);
        ConstantFolds(r);
        ConstOfConstant(l);
        ConstOfConstant(r);
    }
  }

  /** A constant expression that cannot be evaluated folds to NULL and not to an exception. */
  lemma RaisingConstantFolds(e: Expr)
    requires IsConstant(e) && Eval(e, OneRow([])) == Raised
    ensures FoldExpression(e) == Some(Constant(Null))
  {
    ConstantFolds(e);
  }

  /** On NULL the two differ: `true OR x` folds to true, and the evaluator gives NULL. */
  lemma FoldChangesNull()
    ensures var e := Binary(Logic(Or), Constant(Boolean(true)), Column(0, None));
      && Eval(e, OneRow([Null])) == Val(Null)
      && FoldExpression(e) == Some(Constant(Boolean(true)))
      && Keeps(FoldExpression(e).value, [Null]) && !Keeps(e, [Null])
  {
  }

  /** An exception may fold away too: `false AND x` no longer looks at x. */
  lemma FoldHidesErrors()
    ensures var e := Binary(Logic(And), Constant(Boolean(false)), Column(7, None));
      Eval(e, OneRow([])) == Raised && FoldExpression(e) == Some(Constant(Boolean(false)))
  {
  }
}

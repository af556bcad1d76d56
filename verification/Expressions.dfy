/** Values, expressions and their strict evaluation. */
module Expressions {
  import opened Common

  /** A value; integers are 32-bit. */
  datatype Value = Null | Integer(i: int) | Boolean(b: bool) | Varchar(s: string)

  type Row = seq<Value>

  /** What an evaluation comes to: a value, or an exception. */
  datatype Outcome = Val(value: Value) | Raised {
    /** How filters and joins read a predicate: NULL does not count as true. */
    predicate Holds() {
      this == Val(Boolean(true))
    }
  }

  datatype ArithOp = Add | Subtract | Multiply | Divide | Modulo

  datatype CompareOp = Equal | NotEqual | LessThan | LessEqual | GreaterThan | GreaterEqual

  datatype LogicOp = And | Or

  datatype Operator = Arith(a: ArithOp) | Compare(c: CompareOp) | Logic(l: LogicOp)

  /** The child of a join that a column reads from. */
  datatype Side = LeftSide | RightSide

  datatype Expr =
    | Column(index: nat, side: Option<Side>)
    | Constant(value: Value)
    | Parameter(bound: Option<Value>)
    | Not(arg: Expr)
    | Binary(op: Operator, left: Expr, right: Expr)

  /** The tuples that columns are read from: one row, whose positions count, or
      the two sides of a join. */
  datatype Scope = OneRow(row: Row) | Sides(left: Option<Row>, right: Option<Row>)

  // ---- Values ------------------------------------------------------------

  /** Division of the source language: toward zero. */
  function TruncDiv(a: int, b: int): (q: int)
    requires b != 0
    ensures var r := a - q * b;
      -(if b < 0 then -b else b) < r < (if b < 0 then -b else b) && (a >= 0 ==> r >= 0) && (a <= 0 ==> r <= 0)
  {
    if a >= 0 then a / b else -((-a) / b)
  }

  /** Results outside 32 bits are undefined in the source; here they raise. */
  function Checked(i: int): Outcome {
    if -0x8000_0000 <= i < 0x8000_0000 then Val(Integer(i)) else Raised
  }

  function Calculate(op: ArithOp, a: Value, b: Value): Outcome {
    if a.Null? || b.Null? then Val(Null)
    else if !(a.Integer? && b.Integer?) then Raised
    else match op
      case Add => Checked(a.i + b.i)
      case Subtract => Checked(a.i - b.i)
      case Multiply => Checked(a.i * b.i)
      case Divide => if b.i == 0 then Raised else Checked(TruncDiv(a.i, b.i))
      case Modulo =>
        if b.i == 0 || Checked(TruncDiv(a.i, b.i)).Raised? then Raised else Checked(a.i - TruncDiv(a.i, b.i) * b.i)
  }

  predicate SameType(a: Value, b: Value) {
    || (a.Null? && b.Null?) || (a.Integer? && b.Integer?) || (a.Boolean? && b.Boolean?) || (a.Varchar? && b.Varchar?)
  }

  /** Lexicographic order of strings. */
  predicate StringLess(s: string, t: string) {
    t != [] && (s == [] || s[0] < t[0] || (s[0] == t[0] && StringLess(s[1..], t[1..])))
  }

  predicate Less(a: Value, b: Value) {
    match (a, b)
    case (Integer(x), Integer(y)) => x < y
    case (Boolean(x), Boolean(y)) => !x && y
    case (Varchar(x), Varchar(y)) => StringLess(x, y)
    case _ => false
  }

  function Comparison(op: CompareOp, a: Value, b: Value): Outcome {
    if a.Null? || b.Null? then Val(Null)
    else match op
      case Equal => Val(Boolean(a == b))
      case NotEqual => Val(Boolean(a != b))
      case _ =>
        if !SameType(a, b) then Raised
        else Val(Boolean(if op == LessThan then Less(a, b)
                         else if op == LessEqual then !Less(b, a)
                         else if op == GreaterThan then Less(b, a)
                         else !Less(a, b)))
  }

  /** Both operands are evaluated, and NULL on either side gives NULL; the type of
      the right operand matters only if the left one does not decide. */
  function Connect(op: LogicOp, a: Value, b: Value): Outcome {
    if a.Null? || b.Null? then Val(Null)
    else if !a.Boolean? then Raised
    else if a.b == (op == Or) then Val(a)
    else if b.Boolean? then Val(b)
    else Raised
  }

  function Negate(a: Value): Outcome {
    if a.Null? then Val(Null) else if a.Boolean? then Val(Boolean(!a.b)) else Raised
  }

  function Operate(op: Operator, a: Value, b: Value): Outcome {
    match op
    case Arith(o) => Calculate(o, a, b)
    case Compare(o) => Comparison(o, a, b)
    case Logic(o) => Connect(o, a, b)
  }

  // ---- Evaluation --------------------------------------------------------

  function At(row: Row, i: nat): Outcome {
    if i < |row| then Val(row[i]) else Raised
  }

  function Lookup(sc: Scope, i: nat, side: Option<Side>): Outcome {
    match sc
    case OneRow(row) => At(row, i)
    case Sides(l, r) =>
      var from := if side == Some(LeftSide) then l else if side == Some(RightSide) then r
                  else if l.Some? then l else r;
      if from.Some? then At(from.value, i) else Raised
  }

  function Eval(e: Expr, sc: Scope): Outcome {
    match e
    case Column(i, side) => Lookup(sc, i, side)
    case Constant(v) => Val(v)
    case Parameter(bound) => if bound.Some? then Val(bound.value) else Raised
    case Not(x) =>
      var v := Eval(x, sc);
      if v.Raised? then Raised else Negate(v.value)
    case Binary(op, l, r) =>
      var a, b := Eval(l, sc), Eval(r, sc);
      if a.Raised? || b.Raised? then Raised else Operate(op, a.value, b.value)
  }

  /** The predicate is true of the row. */
  predicate Keeps(e: Expr, row: Row) {
    Eval(e, OneRow(row)).Holds()
  }

  function Columns(e: Expr): (cols: seq<nat>) {
    match e
    case Column(i, _) => [i]
    case Constant(_) => []
    case Parameter(_) => []
    case Not(x) => Columns(x)
    case Binary(_, l, r) => Columns(l) + Columns(r)
  }

  /** Every column names no side. */
  predicate Unsided(e: Expr) {
    match e
    case Column(_, side) => side.None?
    case Constant(_) => true
    case Parameter(_) => true
    case Not(x) => Unsided(x)
    case Binary(_, l, r) => Unsided(l) && Unsided(r)
  }

  /** The same expression with every column read from one side. */
  function OnSide(e: Expr, side: Side): Expr {
    match e
    case Column(i, _) => Column(i, Some(side))
    case Constant(_) => e
    case Parameter(_) => e
    case Not(x) => Not(OnSide(x, side))
    case Binary(op, l, r) => Binary(op, OnSide(l, side), OnSide(r, side))
  }

  /** The same expression over the two sides of a join whose left rows have `n` columns. */
  function Sided(e: Expr, n: nat): Expr {
    match e
    case Column(i, _) => if i < n then Column(i, Some(LeftSide)) else Column(i - n, Some(RightSide))
    case Constant(_) => e
    case Parameter(_) => e
    case Not(x) => Not(Sided(x, n))
    case Binary(op, l, r) => Binary(op, Sided(l, n), Sided(r, n))
  }

  /** Positions in the concatenated row are the same columns of the two sides. */
  lemma {:induction false} SidedMeansConcatenated(e: Expr, l: Row, r: Row)
    ensures Eval(Sided(e, |l|), Sides(Some(l), Some(r))) == Eval(e, OneRow(l + r))
  {
    match e {
      case Column(_, _) =>
      case Constant(_) =>
      case Parameter(_) =>
      case Not(x) => SidedMeansConcatenated(x, l, r);
      case Binary(_, _, _) =>
        SidedMeansConcatenated(e.left, l, r);
        SidedMeansConcatenated(e.right, l, r);
    }
  }

  /** A tuple evaluated on its own is read by position. */
  lemma {:induction false} UnsidedMeansRow(e: Expr, row: Row)
    requires Unsided(e)
    ensures Eval(e, Sides(Some(row), None)) == Eval(e, OneRow(row)) == Eval(e, Sides(None, Some(row)))
  {
    match e {
      case Column(_, _) =>
      case Constant(_) =>
      case Parameter(_) =>
      case Not(x) => UnsidedMeansRow(x, row);
      case Binary(_, _, _) =>
        UnsidedMeansRow(e.left, row);
        UnsidedMeansRow(e.right, row);
    }
  }

  /** A key that can be evaluated on one child alone has the same value in the join. */
  lemma {:induction false} OnSideMeansAlone(e: Expr, l: Row, r: Row)
    ensures var alone := Eval(e, Sides(Some(l), None));
      alone.Val? ==> Eval(OnSide(e, LeftSide), Sides(Some(l), Some(r))) == alone
    ensures var alone := Eval(e, Sides(None, Some(r)));
      alone.Val? ==> Eval(OnSide(e, RightSide), Sides(Some(l), Some(r))) == alone
  {
    match e {
      case Column(_, _) =>
      case Constant(_) =>
      case Parameter(_) =>
      case Not(x) => OnSideMeansAlone(x, l, r);
      case Binary(_, _, _) =>
        OnSideMeansAlone(e.left, l, r);
        OnSideMeansAlone(e.right, l, r);
    }
  }

  /** Columns that name no side read from the one tuple there is. */
  lemma {:induction false} OnSideOfUnsided(e: Expr, l: Row, r: Row)
    requires Unsided(e)
    ensures Eval(OnSide(e, LeftSide), Sides(Some(l), Some(r))) == Eval(e, Sides(Some(l), None))
    ensures Eval(OnSide(e, RightSide), Sides(Some(l), Some(r))) == Eval(e, Sides(None, Some(r)))
  {
    match e {
      case Column(_, _) =>
      case Constant(_) =>
      case Parameter(_) =>
      case Not(x) => OnSideOfUnsided(x, l, r);
      case Binary(_, _, _) =>
        OnSideOfUnsided(e.left, l, r);
        OnSideOfUnsided(e.right, l, r);
    }
  }

  /** On a pair of rows, columns that name no side read from the left row. */
  lemma {:induction false} UnsidedReadsLeft(e: Expr, l: Row, r: Row)
    requires Unsided(e)
    ensures Eval(e, Sides(Some(l), Some(r))) == Eval(e, OneRow(l))
  {
    match e {
      case Column(_, _) =>
      case Constant(_) =>
      case Parameter(_) =>
      case Not(x) => UnsidedReadsLeft(x, l, r);
      case Binary(_, _, _) =>
        UnsidedReadsLeft(e.left, l, r);
        UnsidedReadsLeft(e.right, l, r);
    }
  }

  /** A column beyond the row raises, wherever it stands in the expression. */
  lemma {:induction false} BeyondRaises(e: Expr, row: Row, c: nat)
    requires c in Columns(e) && c >= |row|
    ensures Eval(e, OneRow(row)) == Raised
  {
    match e {
      case Column(_, _) =>
      case Not(x) => BeyondRaises(x, row, c);
      case Binary(_, _, _) =>
        if c in Columns(e.left) {
          BeyondRaises(e.left, row, c);
        } else {
          BeyondRaises(e.right, row, c);
        }
    }
  }

  /** A value is the same on every longer row. */
  lemma {:induction false} ValueExtends(e: Expr, l: Row, r: Row)
    requires Eval(e, OneRow(l)).Val?
    ensures Eval(e, OneRow(l + r)) == Eval(e, OneRow(l))
  {
    match e {
      case Column(_, _) =>
      case Constant(_) =>
      case Parameter(_) =>
      case Not(x) => ValueExtends(x, l, r);
      case Binary(_, _, _) =>
        ValueExtends(e.left, l, r);
        ValueExtends(e.right, l, r);
    }
  }
}

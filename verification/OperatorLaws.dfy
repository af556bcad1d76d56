/** What the operators compute, told by laws between their results. */
module OperatorLaws {
  import opened Common
  import opened Expressions

  /** The outcome of an operator on two values. */
  function Of(op: Operator, a: Value, b: Value): Outcome {
    Eval(Binary(op, Constant(a), Constant(b)), OneRow([]))
  }

  lemma OfOperate(op: Operator, a: Value, b: Value)
    ensures Of(op, a, b) == Operate(op, a, b)
  {
    assert Eval(Constant(a), OneRow([])) == Val(a) && Eval(Constant(b), OneRow([])) == Val(b);
  }

  /** An operator sees the values of its operands only; an exception of either is its own. */
  lemma OperandsDecide(op: Operator, l: Expr, r: Expr, s: Scope)
    ensures var a, b := Eval(l, s), Eval(r, s);
      Eval(Binary(op, l, r), s) == if a.Raised? || b.Raised? then Raised else Of(op, a.value, b.value)
  {
    if Eval(l, s).Val? && Eval(r, s).Val? {
      OfOperate(op, Eval(l, s).value, Eval(r, s).value);
    }
  }

  /** Columns, constants and bound parameters. */
  lemma LeavesRead(row: Row, l: Row, r: Row, i: nat, v: Value)
    ensures Eval(Column(i, None), OneRow(row)) == if i < |row| then Val(row[i]) else Raised
    ensures Eval(Column(i, Some(LeftSide)), Sides(Some(l), Some(r))) == if i < |l| then Val(l[i]) else Raised
    ensures Eval(Column(i, Some(RightSide)), Sides(Some(l), Some(r))) == if i < |r| then Val(r[i]) else Raised
    ensures Eval(Constant(v), OneRow(row)) == Eval(Parameter(Some(v)), OneRow(row)) == Val(v)
    ensures Eval(Parameter(None), OneRow(row)) == Raised
  {
  }

  /** NULL on either side gives NULL, whatever stands on the other. */
  lemma NullOperand(op: Operator, v: Value)
    ensures Of(op, Null, v) == Of(op, v, Null) == Val(Null) == Eval(Not(Constant(Null)), OneRow([]))
  {
    OfOperate(op, Null, v);
    OfOperate(op, v, Null);
  }

  // ---- Comparisons -------------------------------------------------------

  predicate Says(o: Outcome, truth: bool) {
    o == Val(Boolean(truth))
  }

  /** Values other than NULL are equal or not, of whatever types. */
  lemma EqualityLaws(a: Value, b: Value)
    requires !a.Null? && !b.Null?
    ensures Says(Of(Compare(Equal), a, b), a == b) && Says(Of(Compare(NotEqual), a, b), a != b)
  {
    OfOperate(Compare(Equal), a, b);
    OfOperate(Compare(NotEqual), a, b);
  }

  /** The four orderings are one: exactly one of less, equal and greater holds, and the
      others follow from it.  Values of different types are not ordered. */
  lemma OrderLaws(a: Value, b: Value)
    requires !a.Null? && !b.Null?
    ensures SameType(a, b) ==> exists less: bool, more: bool ::
      && Says(Of(Compare(LessThan), a, b), less) && Says(Of(Compare(GreaterThan), a, b), more)
      && Says(Of(Compare(LessEqual), a, b), less || a == b) && Says(Of(Compare(GreaterEqual), a, b), more || a == b)
      && Of(Compare(LessThan), b, a) == Of(Compare(GreaterThan), a, b)
      && !(less && more) && (a != b ==> less || more) && (a == b ==> !less && !more)
    ensures !SameType(a, b) ==> forall op :: op in {LessThan, LessEqual, GreaterThan, GreaterEqual} ==> Of(Compare(op), a, b) == Raised
  {
    forall op: CompareOp
      ensures Of(Compare(op), a, b) == Comparison(op, a, b) && Of(Compare(op), b, a) == Comparison(op, b, a)
    {
      OfOperate(Compare(op), a, b);
      OfOperate(Compare(op), b, a);
    }
    if SameType(a, b) {
      if a.Varchar? {
        TextOrder(a.s, b.s);
      }
      assert Says(Of(Compare(LessThan), a, b), Less(a, b)) && Says(Of(Compare(GreaterThan), a, b), Less(b, a));
      assert Says(Of(Compare(LessEqual), a, b), Less(a, b) || a == b) && Says(Of(Compare(GreaterEqual), a, b), Less(b, a) || a == b);
    }
  }

  lemma {:induction false} TextOrder(s: string, t: string)
    ensures StringLess(s, t) || StringLess(t, s) || s == t
    ensures !(StringLess(s, t) && StringLess(t, s)) && (s == t ==> !StringLess(s, t))
  {
    if s != [] && t != [] && s[0] == t[0] {
      TextOrder(s[1..], t[1..]);
      assert s == [s[0]] + s[1..] && t == [t[0]] + t[1..];
    }
  }

  /** Integers are in their usual order, false stands before true. */
  lemma NumbersAndTruth(x: int, y: int, p: bool, q: bool)
    ensures Says(Of(Compare(LessThan), Integer(x), Integer(y)), x < y)
    ensures Says(Of(Compare(LessThan), Boolean(p), Boolean(q)), p == false && q == true)
  {
    OfOperate(Compare(LessThan), Integer(x), Integer(y));
    OfOperate(Compare(LessThan), Boolean(p), Boolean(q));
  }

  /** `s` stands before `t`: at the first difference, or as a proper prefix. */
  ghost predicate Precedes(s: string, t: string) {
    exists k :: 0 <= k <= |s| && k < |t| && s[..k] == t[..k] && (k == |s| || s[k] < t[k])
  }

  lemma TextLaws(s: string, t: string)
    ensures Says(Of(Compare(LessThan), Varchar(s), Varchar(t)), Precedes(s, t))
  {
    PrecedesExactly(s, t);
    OfOperate(Compare(LessThan), Varchar(s), Varchar(t));
  }

  lemma PrefixOf(s: string, k: nat)
    requires 0 < k <= |s|
    ensures s[..k] == [s[0]] + s[1..][..k - 1]
  {
  }

  lemma {:induction false} PrecedesExactly(s: string, t: string)
    ensures StringLess(s, t) <==> Precedes(s, t)
  {
    if t != [] && (s == [] || s[0] < t[0]) {
      assert s[..0] == t[..0];
    } else if s != [] && t != [] && s[0] == t[0] {
      PrecedesExactly(s[1..], t[1..]);
      if k :| 0 <= k <= |s[1..]| && k < |t[1..]| && s[1..][..k] == t[1..][..k] && (k == |s[1..]| || s[1..][k] < t[1..][k]) {
        PrefixOf(s, k + 1);
        PrefixOf(t, k + 1);
        assert s[..k + 1] == t[..k + 1] && (k + 1 == |s| || s[k + 1] < t[k + 1]);
      }
      if k :| 0 <= k <= |s| && k < |t| && s[..k] == t[..k] && (k == |s| || s[k] < t[k]) {
        assert k > 0;
        assert s[1..][..k - 1] == s[..k][1..] && t[1..][..k - 1] == t[..k][1..];
      }
    }
  }

  // ---- Arithmetic --------------------------------------------------------

  predicate Fits(i: int) {
    -0x8000_0000 <= i < 0x8000_0000
  }

  function OfInts(op: ArithOp, x: int, y: int): Outcome {
    Of(Arith(op), Integer(x), Integer(y))
  }

  lemma OfCalculate()
    ensures forall op: ArithOp, x: int, y: int :: OfInts(op, x, y) == Calculate(op, Integer(x), Integer(y))
  {
    forall op: ArithOp, x: int, y: int
      ensures OfInts(op, x, y) == Calculate(op, Integer(x), Integer(y))
    {
      OfOperate(Arith(op), Integer(x), Integer(y));
    }
  }

  /** Sums: 0 is neutral, each successor of an operand adds one, and a result out of range raises. */
  lemma SumLaws(x: int, y: int, z: int)
    requires Fits(x)
    ensures OfInts(Add, x, 0) == OfInts(Add, 0, x) == Val(Integer(x))
    ensures OfInts(Add, x, y) == Val(Integer(z)) && Fits(z + 1) ==> OfInts(Add, x, y + 1) == Val(Integer(z + 1))
    ensures OfInts(Add, x, y) == Val(Integer(z)) && Fits(z - 1) ==> OfInts(Add, x, y - 1) == Val(Integer(z - 1))
    ensures OfInts(Add, 0x7FFF_FFFF, 1) == OfInts(Add, -0x8000_0000, -1) == Raised
  {
    OfCalculate();
  }

  /** What is taken away and added again was not taken away. */
  lemma DifferenceLaws(x: int, y: int, d: int)
    requires Fits(x)
    ensures OfInts(Subtract, x, y) == Val(Integer(d)) ==> OfInts(Add, d, y) == Val(Integer(x))
    ensures OfInts(Subtract, x, y) == Raised && Fits(d) ==> OfInts(Add, d, y) != Val(Integer(x))
  {
    OfCalculate();
  }

  /** Products: 0 absorbs, 1 is neutral, each successor of an operand adds the other one. */
  lemma ProductLaws(x: int, y: int, z: int)
    requires Fits(x)
    ensures OfInts(Multiply, x, 0) == Val(Integer(0)) && OfInts(Multiply, x, 1) == Val(Integer(x))
    ensures OfInts(Multiply, x, y) == Val(Integer(z)) ==> OfInts(Multiply, x, y + 1) == OfInts(Add, z, x)
    ensures OfInts(Multiply, x, y) == Val(Integer(z)) ==> OfInts(Multiply, x, y - 1) == OfInts(Subtract, z, x)
    ensures OfInts(Multiply, x, y) == OfInts(Multiply, y, x)
  {
    OfOperate(Arith(Multiply), Integer(x), Integer(0));
    OfOperate(Arith(Multiply), Integer(x), Integer(1));
    OfOperate(Arith(Multiply), Integer(x), Integer(y));
    OfOperate(Arith(Multiply), Integer(y), Integer(x));
    OfOperate(Arith(Multiply), Integer(x), Integer(y + 1));
    OfOperate(Arith(Multiply), Integer(x), Integer(y - 1));
    OfOperate(Arith(Add), Integer(z), Integer(x));
    OfOperate(Arith(Subtract), Integer(z), Integer(x));
    assert x * (y + 1) == x * y + x && x * (y - 1) == x * y - x && x * y == y * x;
  }

  predicate IsDivision(x: int, y: int, q: int, r: int) {
    && x == q * y + r && (if r < 0 then -r else r) < (if y < 0 then -y else y)
    && (x >= 0 ==> r >= 0) && (x <= 0 ==> r <= 0)
  }

  /** Quotient and remainder of 32-bit integers: division by zero raises, and so does the one
      quotient out of range; the remainder is smaller than the divisor and has the sign of
      the dividend. */
  lemma QuotientLaws(x: int, y: int)
    requires Fits(x) && Fits(y)
    ensures OfInts(Divide, x, y) == Raised <==> y == 0 || (x == -0x8000_0000 && y == -1)
    ensures OfInts(Modulo, x, y) == Raised <==> OfInts(Divide, x, y) == Raised
    ensures OfInts(Divide, x, y) != Raised ==> exists q, r ::
      IsDivision(x, y, q, r) && OfInts(Divide, x, y) == Val(Integer(q)) && OfInts(Modulo, x, y) == Val(Integer(r))
  {
    OfCalculate();
    if y != 0 {
      var q := TruncDiv(x, y);
      var r := x - q * y;
      assert IsDivision(x, y, q, r);
      QuotientRange(x, y, q, r);
    }
  }

  /** Only the smallest integer divided by -1 leaves the range. */
  lemma QuotientRange(x: int, y: int, q: int, r: int)
    requires Fits(x) && Fits(y) && y != 0 && IsDivision(x, y, q, r)
    ensures Fits(q) <==> !(x == -0x8000_0000 && y == -1)
    ensures Fits(r)
  {
    if y == 1 || y == -1 {
      assert r == 0;
    } else if q != 0 {
      ProductGrows(q, y);
    }
  }

  lemma ProductGrows(q: int, y: int)
    requires q != 0 && (y >= 2 || y <= -2)
    ensures var n, m := if q < 0 then -q else q, if y < 0 then -y else y;
      (q * y >= 2 * n && q * y >= m) || (q * y <= -2 * n && q * y <= -m)
  {
    TimesAtLeast(if q < 0 then -q else q, if y < 0 then -y else y);
    assert (-q) * (-y) == q * y && (-q) * y == -(q * y) && q * (-y) == -(q * y);
  }

  lemma {:induction false} TimesAtLeast(n: nat, m: nat)
    requires n >= 1 && m >= 2
    ensures n * m >= 2 * n && n * m >= m
  {
    if m > 2 {
      TimesAtLeast(n, m - 1);
      assert n * m == n * (m - 1) + n;
    }
  }

  /** Arithmetic takes integers only. */
  lemma ArithmeticOnOthers(op: ArithOp, a: Value, b: Value)
    requires !a.Null? && !b.Null? && !(a.Integer? && b.Integer?)
    ensures Of(Arith(op), a, b) == Raised
  {
    OfOperate(Arith(op), a, b);
  }

  // ---- Logic -------------------------------------------------------------

  function OfTruths(op: LogicOp, p: bool, q: bool): Outcome {
    Of(Logic(op), Boolean(p), Boolean(q))
  }

  function NotOf(v: Value): Outcome {
    Eval(Not(Constant(v)), OneRow([]))
  }

  /** NOT turns truth around and takes nothing else; AND and OR are dual to each other. */
  lemma LogicLaws(p: bool, q: bool)
    ensures NotOf(Boolean(true)) == Val(Boolean(false)) && NotOf(Boolean(false)) == Val(Boolean(true))
    ensures Eval(Not(Not(Constant(Boolean(p)))), OneRow([])) == Val(Boolean(p))
    ensures OfTruths(And, true, q) == OfTruths(And, q, true) == Val(Boolean(q))
    ensures OfTruths(And, false, q) == OfTruths(And, q, false) == Val(Boolean(false))
    ensures Eval(Not(Binary(Logic(Or), Constant(Boolean(p)), Constant(Boolean(q)))), OneRow([])) == OfTruths(And, !p, !q)
  {
    forall op: LogicOp, p: bool, q: bool
      ensures OfTruths(op, p, q) == Connect(op, Boolean(p), Boolean(q))
    {
      OfOperate(Logic(op), Boolean(p), Boolean(q));
    }
    assert Eval(Not(Constant(Boolean(p))), OneRow([])) == Val(Boolean(!p));
  }

  /** Operands that are neither NULL nor truth values: on the left they raise, on the right only
      if the left one does not decide. */
  lemma LogicOnOthers(op: LogicOp, v: Value, w: Value, p: bool)
    requires !v.Null? && !v.Boolean? && !w.Null?
    ensures NotOf(v) == Raised && Of(Logic(op), v, w) == Raised
    ensures Of(Logic(op), Boolean(p), v) == if p == (op == Or) then Val(Boolean(p)) else Raised
  {
    OfOperate(Logic(op), v, w);
    OfOperate(Logic(op), Boolean(p), v);
    assert Eval(Constant(v), OneRow([])) == Val(v);
  }
}

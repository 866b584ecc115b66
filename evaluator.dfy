/**
 * The constant evaluator `calculateValue`: it folds a condition to an exact integer,
 * with booleans encoded as 0 and 1, under a map that pins selected nodes (by
 * identity) to fixed truth values.  Beside it, `ValueUnder` is the reference
 * semantics used to judge the analysis: the same arithmetic, but with every
 * reference bound to an integer.
 */
module Evaluator {
  import opened Syntax

  /** The `ArithmeticException`s that `java.math.BigInteger` raises here. */
  datatype ArithError = NegativeExponent | DivideByZero

  /** What evaluating a node gives: a value, no value (Kotlin's `null`), or an exception. */
  datatype Eval = Val(n: int) | NoValue | Raised(error: ArithError)

  /** `Boolean.toBigInteger()` of the source: a truth value encoded as 0 or 1, which
      `ToBool` reads back as the same truth value. */
  function BoolToInt(b: bool): (n: int)
    ensures n == 0 || n == 1
    ensures ToBool(n) == b
  {
    if b then 1 else 0
  }

  /** `BigInteger.toBoolean()` of the source: anything but zero is true. */
  function ToBool(n: int): bool {
    n != 0
  }

  function Abs(x: int): nat {
    if x < 0 then -x else x
  }

  /** `BigInteger.divide`, which is what Kotlin's `/` on BigInteger means: the
      quotient is truncated toward zero (not floored as Python's `//` is). */
  function TruncDiv(a: int, b: int): int
    requires b != 0
  {
    var q := Abs(a) / Abs(b);
    if (a < 0) == (b < 0) then q else -q
  }

  /** `BigInteger.rem`, Kotlin's `%`: the remainder of the truncated division. */
  function TruncRem(a: int, b: int): int
    requires b != 0
  {
    a - b * TruncDiv(a, b)
  }

  /** Truncating division and its remainder: the quotient's magnitude is the quotient
      of the magnitudes, the remainder is smaller than the divisor and never has the
      opposite sign of the dividend. */
  lemma TruncatedDivision(a: int, b: int)
    requires b != 0
    ensures Abs(TruncDiv(a, b)) == Abs(a) / Abs(b)
    ensures Abs(TruncRem(a, b)) == Abs(a) % Abs(b) < Abs(b)
    ensures TruncRem(a, b) == 0 || (TruncRem(a, b) < 0 <==> a < 0)
  {
    TruncRemValue(a, b);
    var aa: int, bb: int := Abs(a), Abs(b);
    var q: int, m: int := aa / bb, aa % bb;
    assert 0 <= m < bb;
    assert TruncDiv(a, b) == q || TruncDiv(a, b) == -q;
    NonNegativeQuotient(aa, bb);
  }

  lemma NonNegativeQuotient(x: int, y: int)
    requires 0 <= x && 0 < y
    ensures 0 <= x / y
  {
  }

  lemma TruncRemValue(a: int, b: int)
    requires b != 0
    ensures TruncRem(a, b) == if a < 0 then -(Abs(a) % Abs(b)) else Abs(a) % Abs(b)
  {
    var aa: int, bb: int := Abs(a), Abs(b);
    var q: int, m: int := aa / bb, aa % bb;
    var p := bb * q;
    assert aa == p + m;
    MulSigns(bb, q);
    var s := TruncDiv(a, b);
    if b < 0 {
      assert b == -bb;
      if a < 0 {
        assert s == q && b * s == -p;
      } else {
        assert s == -q && b * s == p;
      }
    } else {
      assert b == bb;
      if a < 0 {
        assert s == -q && b * s == -p;
      } else {
        assert s == q && b * s == p;
      }
    }
  }

  lemma MulSigns(x: int, y: int)
    ensures (-x) * y == -(x * y) && x * (-y) == -(x * y) && (-x) * (-y) == x * y
  {
  }

  /** `BigInteger.pow` for a non-negative exponent. */
  function Power(a: int, e: nat): int {
    if e == 0 then 1 else a * Power(a, e - 1)
  }

  /** The `when (operator)` of `calculateValue` applied to two operand values. */
  function Apply(op: Op, a: int, b: int): (res: Eval)
    ensures IsComparison(op) || op.AndKeyword? || op.OrKeyword? ==> res == Val(0) || res == Val(1)
    ensures op.FloorDiv? ==> (res.NoValue? <==> b == 0)
    ensures op.Exp? ==> (res.Raised? <==> b < 0) && (res.Raised? ==> res.error == NegativeExponent)
    ensures op.Perc? ==> (res.Raised? <==> b == 0) && (res.Raised? ==> res.error == DivideByZero)
    ensures op.Perc? && b != 0 ==> res == Val(TruncRem(a, b))
  {
    match op
    case EqEq => Val(BoolToInt(a == b))
    case Ne => Val(BoolToInt(a != b))
    case Lt => Val(BoolToInt(a < b))
    case Gt => Val(BoolToInt(a > b))
    case Le => Val(BoolToInt(a <= b))
    case Ge => Val(BoolToInt(a >= b))
    case Plus => Val(a + b)
    case Minus => Val(a - b)
    case Mult => Val(a * b)
    case FloorDiv => if b == 0 then NoValue else Val(TruncDiv(a, b))
    case Exp => if b < 0 then Raised(NegativeExponent) else Val(Power(a, b))
    case Perc => if b == 0 then Raised(DivideByZero) else Val(TruncRem(a, b))
    case AndKeyword => Val(BoolToInt(ToBool(a) && ToBool(b)))
    case OrKeyword => Val(BoolToInt(ToBool(a) || ToBool(b)))
    case Unsupported => NoValue
  }

  /** Nodes whose value, when they have one, is a truth value encoded as 0 or 1. */
  predicate BooleanValued(e: Expr) {
    match e
    case Bool(_, _) => true
    case Bin(_, op, _, _) => IsComparison(op) || op.AndKeyword? || op.OrKeyword?
    case Not(_, _) => true
    case Paren(_, x) => BooleanValued(x)
    case _ => false
  }

  /** `calculateValue(predefinedExpr)`.  A pinned node gives its truth value whatever it
      is; the left operand is evaluated first and, when it gives no value or throws, the
      right one is not evaluated at all. */
  function CalculateValue(e: Expr, predefined: map<int, bool>): (res: Eval)
    ensures res.Val? && (e.id in predefined || BooleanValued(e)) ==> res.n == 0 || res.n == 1
  {
    if e.id in predefined then Val(BoolToInt(predefined[e.id]))
    else
      match e
      case Bin(_, op, l, r) =>
        var lv := CalculateValue(l, predefined);
        if !lv.Val? then lv
        else
          var rv := CalculateValue(r, predefined);
          if !rv.Val? then rv else Apply(op, lv.n, rv.n)
      case Not(_, x) =>
        var v := CalculateValue(x, predefined);
        if v.Val? then Val(BoolToInt(!ToBool(v.n))) else v
      case Paren(_, x) => CalculateValue(x, predefined)
      case Int(_, k) => Val(k)
      case Bool(_, b) => Val(BoolToInt(b))
      case Ref(_, _) => NoValue
      case Other(_) => NoValue
  }

  /** The value of `e` once every reference is bound to an integer by `env`,
      with the evaluator's own arithmetic. */
  function ValueUnder(e: Expr, env: string -> int): (res: Eval)
    ensures res.Val? && BooleanValued(e) ==> res.n == 0 || res.n == 1
  {
    match e
    case Bin(_, op, l, r) =>
      var lv := ValueUnder(l, env);
      if !lv.Val? then lv
      else
        var rv := ValueUnder(r, env);
        if !rv.Val? then rv else Apply(op, lv.n, rv.n)
    case Not(_, x) =>
      var v := ValueUnder(x, env);
      if v.Val? then Val(BoolToInt(!ToBool(v.n))) else v
    case Paren(_, x) => ValueUnder(x, env)
    case Int(_, k) => Val(k)
    case Bool(_, b) => Val(BoolToInt(b))
    case Ref(_, name) => Val(env(name))
    case Other(_) => NoValue
  }

  /** Every node of `e` that `m` pins really has, under `env`, the truth value `m`
      gives it. */
  predicate Pinned(e: Expr, m: map<int, bool>, env: string -> int) {
    && (e.id in m ==> ValueUnder(e, env) == Val(BoolToInt(m[e.id])))
    && match e
       case Bin(_, _, l, r) => Pinned(l, m, env) && Pinned(r, m, env)
       case Not(_, x) => Pinned(x, m, env)
       case Paren(_, x) => Pinned(x, m, env)
       case _ => true
  }

  /** Substitution is sound: when the pinned truth values are the real ones, a value
      obtained under the pins is the real value. */
  lemma {:induction false} PinnedEvaluation(e: Expr, m: map<int, bool>, env: string -> int)
    requires Pinned(e, m, env)
    requires CalculateValue(e, m).Val?
    ensures ValueUnder(e, env) == CalculateValue(e, m)
  {
    if e.id !in m {
      match e
      case Bin(_, _, l, r) =>
        PinnedEvaluation(l, m, env);
        PinnedEvaluation(r, m, env);
      case Not(_, x) => PinnedEvaluation(x, m, env);
      case Paren(_, x) => PinnedEvaluation(x, m, env);
      case _ =>
    }
  }

  /** A map that pins no node of `e` pins it correctly. */
  lemma {:induction false} PinnedWithoutKeys(e: Expr, m: map<int, bool>, env: string -> int)
    requires forall i :: i in Ids(e) ==> i !in m
    ensures Pinned(e, m, env)
  {
    assert e.id in Ids(e) && e.id !in m;
    match e
    case Bin(id, _, l, r) =>
      assert Ids(e) == multiset{id} + Ids(l) + Ids(r);
      PinnedWithoutKeys(l, m, env);
      PinnedWithoutKeys(r, m, env);
    case Not(id, x) =>
      assert Ids(e) == multiset{id} + Ids(x);
      PinnedWithoutKeys(x, m, env);
    case Paren(id, x) =>
      assert Ids(e) == multiset{id} + Ids(x);
      PinnedWithoutKeys(x, m, env);
    case _ =>
  }

  /** A node that folds without any pin has that value whatever its references are. */
  lemma ClosedValue(e: Expr, env: string -> int)
    requires CalculateValue(e, map[]).Val?
    ensures ValueUnder(e, env) == CalculateValue(e, map[])
  {
    PinnedWithoutKeys(e, map[], env);
    PinnedEvaluation(e, map[], env);
  }

  /** The pin map is consulted before anything else; an unpinned reference or
      unsupported node has no value. */
  lemma PinsAndLeaves(e: Expr, m: map<int, bool>)
    ensures e.id in m ==> CalculateValue(e, m) == Val(BoolToInt(m[e.id]))
    ensures e.id !in m && (e.Ref? || e.Other?) ==> CalculateValue(e, m) == NoValue
  {
  }

  /** A binary node fails as its first failing operand fails, `//` by zero gives no value,
      and parentheses are transparent. */
  lemma OperandRules(id: int, op: Op, l: Expr, r: Expr, m: map<int, bool>)
    requires id !in m
    ensures var res := CalculateValue(Bin(id, op, l, r), m);
      && (!CalculateValue(l, m).Val? ==> res == CalculateValue(l, m))
      && (CalculateValue(l, m).Val? && !CalculateValue(r, m).Val? ==> res == CalculateValue(r, m))
      && (op.FloorDiv? && CalculateValue(l, m).Val? && CalculateValue(r, m) == Val(0) ==> res == NoValue)
    ensures CalculateValue(Paren(id, l), m) == CalculateValue(l, m)
  {
  }

  /** `e` reaches a reference named `n` through nodes none of which `m` pins. */
  predicate Exposed(e: Expr, m: map<int, bool>, n: string) {
    e.id !in m &&
    match e
    case Ref(_, name) => name == n
    case Bin(_, _, l, r) => Exposed(l, m, n) || Exposed(r, m, n)
    case Not(_, x) => Exposed(x, m, n)
    case Paren(_, x) => Exposed(x, m, n)
    case _ => false
  }

  /** Evaluation is strict: a reference reached through unpinned nodes leaves the whole
      condition without a value (or with the exception an earlier operand threw). */
  lemma {:induction false} ExposedNoValue(e: Expr, m: map<int, bool>, n: string)
    requires Exposed(e, m, n)
    ensures !CalculateValue(e, m).Val?
  {
    match e
    case Bin(_, _, l, r) =>
      if Exposed(l, m, n) {
        ExposedNoValue(l, m, n);
      } else {
        ExposedNoValue(r, m, n);
      }
    case Not(_, x) => ExposedNoValue(x, m, n);
    case Paren(_, x) => ExposedNoValue(x, m, n);
    case Ref(_, _) =>
  }
}

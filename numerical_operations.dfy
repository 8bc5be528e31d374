/**
 * The arithmetic operators of the expression language (NumericalOperations.kt):
 * Add, Subtract, Multiply, Divide and Power over sub-expressions, with the
 * sign guarantee and the return type each one derives from its operands,
 * its long value and its text.
 *
 * Leaves stand for the expressions this model does not cover (a field
 * reference, a register decoder): a name, a declared return type and sign
 * guarantee, and a value looked up by name.
 */
module NumericalOperations {
  import opened Wrappers
  import opened Text

  /** ValueGuarantee: POSITIVE means "0 or higher", NEGATIVE means "below 0". */
  datatype Guarantee = NoGuarantee | Positive | Negative

  datatype ReturnType = Unknown | Boolean | Long | Double | String | StringList

  datatype Expr =
    | Constant(value: int)
    | Leaf(name: string, returnType: ReturnType, guarantee: Guarantee)
    | Add(left: Expr, right: Expr)
    | Subtract(left: Expr, right: Expr)
    | Multiply(left: Expr, right: Expr)
    | Divide(left: Expr, right: Expr)
    | Power(left: Expr, right: Expr)

  /** The values of the leaves; a name without a value reads as null. */
  type Env = map<string, int>

  const LONG_MIN: int := -0x8000_0000_0000_0000
  const LONG_MAX: int := 0x7FFF_FFFF_FFFF_FFFF

  /** 2^53: every integer up to this magnitude is a double. */
  const DOUBLE_EXACT: int := 0x20_0000_0000_0000

  predicate InLongRange(x: int)
  {
    LONG_MIN <= x <= LONG_MAX
  }

  /** What a guarantee promises about a value. */
  predicate Holds(g: Guarantee, v: int)
  {
    match g
    case NoGuarantee => true
    case Positive => v >= 0
    case Negative => v < 0
  }

  // ---------------------------------------------------------------------------
  // Sign guarantees

  /** LongConstant.getGuarantee */
  function ConstantGuarantee(v: int): (r: Guarantee)
    ensures Holds(r, v) && r != NoGuarantee
  {
    if v >= 0 then Positive else Negative
  }

  function AddGuarantee(l: Guarantee, r: Guarantee): Guarantee
  {
    if l == Positive && r == Positive then Positive
    else if l == Negative && r == Negative then Negative
    else NoGuarantee
  }

  function SubtractGuarantee(l: Guarantee, r: Guarantee): Guarantee
  {
    if l == Positive && r == Negative then Positive
    else if l == Negative && r == Positive then Negative
    else NoGuarantee
  }

  /** Multiply.getGuarantee as written: a product of a POSITIVE and a NEGATIVE operand is called NEGATIVE. */
  function MultiplyGuaranteeAsWritten(l: Guarantee, r: Guarantee): Guarantee
  {
    if l == Positive && r == Positive then Positive
    else if l == Negative && r == Positive then Negative
    else if l == Positive && r == Negative then Negative
    else if l == Negative && r == Negative then Positive
    else NoGuarantee
  }

  /** POSITIVE admits 0, and 0 times a negative number is 0, which is not negative. */
  lemma MultiplyGuaranteeAsWrittenUnsound()
    ensures Holds(Positive, 0) && Holds(Negative, -3)
    ensures MultiplyGuaranteeAsWritten(Positive, Negative) == Negative && !Holds(Negative, 0 * -3)
    ensures MultiplyGuaranteeAsWritten(Negative, Positive) == Negative && !Holds(Negative, -3 * 0)
  {
  }

  /**
   * Multiply's guarantee with a zero operand kept in mind: mixed signs give no
   * guarantee, equal signs still give POSITIVE.
   */
  function MultiplyGuarantee(l: Guarantee, r: Guarantee): (g: Guarantee)
    ensures forall a: int, b: int :: Holds(l, a) && Holds(r, b) ==> Holds(g, a * b)
  {
    MultiplyGuaranteeSound(l, r);
    if l == Positive && r == Positive then Positive
    else if l == Negative && r == Negative then Positive
    else NoGuarantee
  }

  lemma MultiplyGuaranteeSound(l: Guarantee, r: Guarantee)
    ensures forall a: int, b: int :: Holds(l, a) && Holds(r, b) && l == r && l != NoGuarantee ==> a * b >= 0
  {
    forall a: int, b: int | Holds(l, a) && Holds(r, b) && l == r && l != NoGuarantee
      ensures a * b >= 0
    {
      if l == Negative {
        assert a * b == (-a) * (-b);
      }
    }
  }

  /** Divide.getGuarantee: the sign rule of a quotient (of doubles, which this model does not evaluate). */
  function DivideGuarantee(l: Guarantee, r: Guarantee): Guarantee
  {
    if l == Positive && r == Positive then Positive
    else if l == Positive && r == Negative then Negative
    else if l == Negative && r == Positive then Negative
    else if l == Negative && r == Negative then Positive
    else NoGuarantee
  }

  /** Power.getGuarantee: a non-negative base keeps the result non-negative, whatever the exponent's sign. */
  function PowerGuarantee(l: Guarantee, r: Guarantee): Guarantee
  {
    if l == Positive && (r == Positive || r == Negative) then Positive else NoGuarantee
  }

  /** getGuarantee of an expression, with Multiply's table as written (Divide works on doubles only). */
  function GuaranteeOf(e: Expr): Guarantee
  {
    match e
    case Constant(v) => ConstantGuarantee(v)
    case Leaf(_, _, g) => g
    case Add(l, r) => AddGuarantee(GuaranteeOf(l), GuaranteeOf(r))
    case Subtract(l, r) => SubtractGuarantee(GuaranteeOf(l), GuaranteeOf(r))
    case Multiply(l, r) => MultiplyGuaranteeAsWritten(GuaranteeOf(l), GuaranteeOf(r))
    case Divide(l, r) => DivideGuarantee(GuaranteeOf(l), GuaranteeOf(r))
    case Power(l, r) => PowerGuarantee(GuaranteeOf(l), GuaranteeOf(r))
  }

  /** getGuarantee of an expression with Multiply's corrected table. */
  function GuaranteeOfIntended(e: Expr): Guarantee
  {
    match e
    case Constant(v) => ConstantGuarantee(v)
    case Leaf(_, _, g) => g
    case Add(l, r) => AddGuarantee(GuaranteeOfIntended(l), GuaranteeOfIntended(r))
    case Subtract(l, r) => SubtractGuarantee(GuaranteeOfIntended(l), GuaranteeOfIntended(r))
    case Multiply(l, r) => MultiplyGuarantee(GuaranteeOfIntended(l), GuaranteeOfIntended(r))
    case Divide(l, r) => DivideGuarantee(GuaranteeOfIntended(l), GuaranteeOfIntended(r))
    case Power(l, r) => PowerGuarantee(GuaranteeOfIntended(l), GuaranteeOfIntended(r))
  }

  /** Wherever the corrected guarantee promises a sign, the guarantee as written promises the same one. */
  lemma {:induction false} GuaranteeIntendedAgrees(e: Expr)
    ensures GuaranteeOfIntended(e) != NoGuarantee ==> GuaranteeOf(e) == GuaranteeOfIntended(e)
  {
    match e
    case Constant(_) =>
    case Leaf(_, _, _) =>
    case Add(l, r) =>
      GuaranteeIntendedAgrees(l);
      GuaranteeIntendedAgrees(r);
    case Subtract(l, r) =>
      GuaranteeIntendedAgrees(l);
      GuaranteeIntendedAgrees(r);
    case Multiply(l, r) =>
      GuaranteeIntendedAgrees(l);
      GuaranteeIntendedAgrees(r);
    case Divide(l, r) =>
      GuaranteeIntendedAgrees(l);
      GuaranteeIntendedAgrees(r);
    case Power(l, r) =>
      GuaranteeIntendedAgrees(l);
      GuaranteeIntendedAgrees(r);
  }

  // ---------------------------------------------------------------------------
  // Return types

  /** getReturnType: a Power is LONG only when both operands are and the exponent is guaranteed POSITIVE. */
  function ReturnTypeOf(e: Expr): ReturnType
  {
    match e
    case Constant(_) => Long
    case Leaf(_, t, _) => t
    case Add(l, r) => if ReturnTypeOf(l) == Long && ReturnTypeOf(r) == Long then Long else Double
    case Subtract(l, r) => if ReturnTypeOf(l) == Long && ReturnTypeOf(r) == Long then Long else Double
    case Multiply(l, r) => if ReturnTypeOf(l) == Long && ReturnTypeOf(r) == Long then Long else Double
    case Divide(_, _) => Double
    case Power(l, r) =>
      if ReturnTypeOf(l) == Long && ReturnTypeOf(r) == Long && GuaranteeOf(r) == Positive then Long else Double
  }

  /** getReturnType with the corrected guarantees. */
  function ReturnTypeOfIntended(e: Expr): ReturnType
  {
    match e
    case Constant(_) => Long
    case Leaf(_, t, _) => t
    case Add(l, r) => if ReturnTypeOfIntended(l) == Long && ReturnTypeOfIntended(r) == Long then Long else Double
    case Subtract(l, r) => if ReturnTypeOfIntended(l) == Long && ReturnTypeOfIntended(r) == Long then Long else Double
    case Multiply(l, r) => if ReturnTypeOfIntended(l) == Long && ReturnTypeOfIntended(r) == Long then Long else Double
    case Divide(_, _) => Double
    case Power(l, r) =>
      if ReturnTypeOfIntended(l) == Long && ReturnTypeOfIntended(r) == Long && GuaranteeOfIntended(r) == Positive then Long else Double
  }

  /** An expression the corrected guarantees type LONG is typed LONG as written too. */
  lemma {:induction false} ReturnTypeIntendedAgrees(e: Expr)
    ensures ReturnTypeOfIntended(e) == Long ==> ReturnTypeOf(e) == Long
  {
    match e
    case Constant(_) =>
    case Leaf(_, _, _) =>
    case Add(l, r) =>
      ReturnTypeIntendedAgrees(l);
      ReturnTypeIntendedAgrees(r);
    case Subtract(l, r) =>
      ReturnTypeIntendedAgrees(l);
      ReturnTypeIntendedAgrees(r);
    case Multiply(l, r) =>
      ReturnTypeIntendedAgrees(l);
      ReturnTypeIntendedAgrees(r);
    case Divide(_, _) =>
    case Power(l, r) =>
      ReturnTypeIntendedAgrees(l);
      ReturnTypeIntendedAgrees(r);
      GuaranteeIntendedAgrees(r);
  }

  /**
   * Where the two tables part at the level of a whole expression: x * -1
   * with x POSITIVE is NEGATIVE as written, so 0 - x * -1 is POSITIVE and
   * b ^ (0 - x * -1) is LONG; with the corrected table the product has no
   * guarantee and the power is DOUBLE. As written, x * -1 is called
   * NEGATIVE although it is 0 for x = 0.
   */
  lemma ReturnTypeAsWrittenDiffers(b: Expr, x: Expr)
    requires b == Leaf("b", Long, NoGuarantee) && x == Leaf("x", Long, Positive)
    ensures var e := Power(b, Subtract(Constant(0), Multiply(x, Constant(-1))));
      ReturnTypeOf(e) == Long && ReturnTypeOfIntended(e) == Double
    ensures GuaranteeOf(Multiply(x, Constant(-1))) == Negative
    ensures LongValue(Multiply(x, Constant(-1)), map["x" := 0]) == Some(0) && !Holds(Negative, 0)
    ensures GuaranteeOfIntended(Multiply(x, Constant(-1))) == NoGuarantee
  {
    assert Wrap64(0 * -1) == 0;
  }

  // ---------------------------------------------------------------------------
  // Long values

  /** Kotlin's Long arithmetic: the exact result wrapped into 64 bits. */
  function Wrap64(x: int): (r: int)
    ensures InLongRange(r)
    ensures InLongRange(x) ==> r == x
  {
    ((x + 0x8000_0000_0000_0000) % 0x1_0000_0000_0000_0000) - 0x8000_0000_0000_0000
  }

  function IntPow(b: int, e: nat): int
  {
    if e == 0 then 1 else b * IntPow(b, e - 1)
  }

  /** `Double.toLong()` of an integral value: saturates at the ends of the long range. */
  function Saturate(x: int): (r: int)
    ensures InLongRange(r)
  {
    if x > LONG_MAX then LONG_MAX else if x < LONG_MIN then LONG_MIN else x
  }

  /**
   * Power's long value, `base.toDouble().pow(exponent).toLong()`: the integer
   * power for a non-negative exponent; for a negative one, 1/base^n truncated
   * toward zero, with 0^-n infinite and so the largest long.
   */
  function PowerLong(b: int, e: int): (r: int)
    ensures InLongRange(r)
  {
    if e >= 0 then Saturate(IntPow(b, e))
    else if b == 0 then LONG_MAX
    else if b == 1 then 1
    else if b == -1 then (if e % 2 == 0 then 1 else -1)
    else 0
  }

  /** The long arithmetic of the four operators that have a long value. */
  datatype LongOp = Plus | Minus | Times | Raise

  /** The mathematical result, before any wrapping. */
  function ExactResult(op: LongOp, a: int, b: int): int
    requires op != Raise
  {
    match op
    case Plus => a + b
    case Minus => a - b
    case Times => a * b
  }

  function ApplyLong(op: LongOp, a: int, b: int): (r: int)
    ensures InLongRange(r)
  {
    if op == Raise then PowerLong(a, b) else Wrap64(ExactResult(op, a, b))
  }

  /** getValueAsLong: null when an operand is null; Divide has no long value. */
  function LongValue(e: Expr, env: Env): Option<int>
  {
    match e
    case Constant(v) => Some(v)
    case Leaf(name, _, _) => if name in env then Some(env[name]) else None
    case Add(l, r) => Combine(Plus, LongValue(l, env), LongValue(r, env))
    case Subtract(l, r) => Combine(Minus, LongValue(l, env), LongValue(r, env))
    case Multiply(l, r) => Combine(Times, LongValue(l, env), LongValue(r, env))
    case Divide(_, _) => None
    case Power(l, r) => Combine(Raise, LongValue(l, env), LongValue(r, env))
  }

  /** `val left = ... ?: return null; val right = ... ?: return null` */
  function Combine(op: LongOp, l: Option<int>, r: Option<int>): (v: Option<int>)
    ensures v.Some? <==> l.Some? && r.Some?
    ensures v.Some? ==> v.value == ApplyLong(op, l.value, r.value) && InLongRange(v.value)
  {
    if l.None? then None else if r.None? then None else Some(ApplyLong(op, l.value, r.value))
  }

  /** A null operand gives a null result for every operator. */
  lemma NullOperand(e: Expr, env: Env)
    requires !e.Constant? && !e.Leaf?
    requires LongValue(e.left, env).None? || LongValue(e.right, env).None?
    ensures LongValue(e, env).None?
  {
  }

  // ---------------------------------------------------------------------------
  // Soundness of the guarantees

  /** Every leaf's value is a long that keeps the leaf's declared guarantee, and every constant is a long. */
  predicate Honest(e: Expr, env: Env)
  {
    match e
    case Constant(v) => InLongRange(v)
    case Leaf(name, _, g) => name in env ==> InLongRange(env[name]) && Holds(g, env[name])
    case Add(l, r) => Honest(l, env) && Honest(r, env)
    case Subtract(l, r) => Honest(l, env) && Honest(r, env)
    case Multiply(l, r) => Honest(l, env) && Honest(r, env)
    case Divide(l, r) => Honest(l, env) && Honest(r, env)
    case Power(l, r) => Honest(l, env) && Honest(r, env)
  }

  /** No sum, difference or product along the way leaves the long range. */
  predicate NoOverflow(e: Expr, env: Env)
  {
    match e
    case Constant(_) => true
    case Leaf(_, _, _) => true
    case Add(l, r) => NoOverflow(l, env) && NoOverflow(r, env) && Exact(Plus, LongValue(l, env), LongValue(r, env))
    case Subtract(l, r) => NoOverflow(l, env) && NoOverflow(r, env) && Exact(Minus, LongValue(l, env), LongValue(r, env))
    case Multiply(l, r) => NoOverflow(l, env) && NoOverflow(r, env) && Exact(Times, LongValue(l, env), LongValue(r, env))
    case Divide(l, r) => NoOverflow(l, env) && NoOverflow(r, env)
    case Power(l, r) => NoOverflow(l, env) && NoOverflow(r, env)
  }

  predicate Exact(op: LongOp, l: Option<int>, r: Option<int>)
    requires op != Raise
  {
    l.Some? && r.Some? ==> InLongRange(ExactResult(op, l.value, r.value))
  }

  /** What a guarantee as written can be trusted with: NEGATIVE only promises a value of at most 0. */
  predicate HoldsWeakly(g: Guarantee, v: int)
  {
    match g
    case NoGuarantee => true
    case Positive => v >= 0
    case Negative => v <= 0
  }

  /**
   * As written, whenever an expression has a long value and nothing
   * overflows, a POSITIVE guarantee holds and a NEGATIVE one holds but for
   * the value 0.
   */
  lemma {:induction false} GuaranteeSoundAsWritten(e: Expr, env: Env)
    requires Honest(e, env) && NoOverflow(e, env)
    ensures LongValue(e, env).Some? ==> HoldsWeakly(GuaranteeOf(e), LongValue(e, env).value)
  {
    match e
    case Constant(_) =>
    case Leaf(_, _, _) =>
    case Add(l, r) =>
      GuaranteeSoundAsWritten(l, env);
      GuaranteeSoundAsWritten(r, env);
    case Subtract(l, r) =>
      GuaranteeSoundAsWritten(l, env);
      GuaranteeSoundAsWritten(r, env);
    case Multiply(l, r) =>
      GuaranteeSoundAsWritten(l, env);
      GuaranteeSoundAsWritten(r, env);
      if LongValue(e, env).Some? {
        ProductSign(GuaranteeOf(l), GuaranteeOf(r), LongValue(l, env).value, LongValue(r, env).value);
      }
    case Divide(_, _) =>
    case Power(l, r) =>
      GuaranteeSoundAsWritten(l, env);
      GuaranteeSoundAsWritten(r, env);
      if LongValue(e, env).Some? && GuaranteeOf(e) == Positive {
        var b := LongValue(l, env).value;
        var x := LongValue(r, env).value;
        if x >= 0 {
          IntPowNonNegative(b, x);
        }
      }
  }

  /** The sign table of Multiply as written, read with NEGATIVE as "at most 0". */
  lemma ProductSign(l: Guarantee, r: Guarantee, a: int, b: int)
    requires HoldsWeakly(l, a) && HoldsWeakly(r, b)
    ensures HoldsWeakly(MultiplyGuaranteeAsWritten(l, r), a * b)
  {
    if l == Negative && r == Negative {
      assert a * b == (-a) * (-b);
    } else if l == Negative && r == Positive {
      assert a * b == -((-a) * b);
    } else if l == Positive && r == Negative {
      assert a * b == -(a * (-b));
    }
  }

  /**
   * With the corrected table, whenever an expression has a long value and
   * nothing overflows, the value keeps the expression's guarantee.
   */
  lemma {:induction false} GuaranteeSound(e: Expr, env: Env)
    requires Honest(e, env) && NoOverflow(e, env)
    ensures LongValue(e, env).Some? ==> Holds(GuaranteeOfIntended(e), LongValue(e, env).value)
  {
    match e
    case Constant(_) =>
    case Leaf(_, _, _) =>
    case Add(l, r) =>
      GuaranteeSound(l, env);
      GuaranteeSound(r, env);
    case Subtract(l, r) =>
      GuaranteeSound(l, env);
      GuaranteeSound(r, env);
    case Multiply(l, r) =>
      GuaranteeSound(l, env);
      GuaranteeSound(r, env);
    case Divide(_, _) =>
    case Power(l, r) =>
      GuaranteeSound(l, env);
      GuaranteeSound(r, env);
      if LongValue(e, env).Some? && GuaranteeOfIntended(e) == Positive {
        var b := LongValue(l, env).value;
        var x := LongValue(r, env).value;
        if x >= 0 {
          IntPowNonNegative(b, x);
        }
      }
  }

  lemma {:induction false} IntPowNonNegative(b: int, e: nat)
    requires b >= 0
    ensures IntPow(b, e) >= 0
  {
    if e > 0 {
      IntPowNonNegative(b, e - 1);
    }
  }

  /** Without the no-overflow premise the guarantee fails: the largest long plus one wraps to the smallest. */
  lemma AddOverflowBreaksGuarantee()
    ensures var e := Add(Constant(LONG_MAX), Constant(1));
      GuaranteeOf(e) == Positive && LongValue(e, map[]) == Some(LONG_MIN)
  {
  }

  /** An expression typed LONG contains no division, so with every leaf valued it has a long value. */
  lemma {:induction false} LongTypedHasValue(e: Expr, env: Env)
    requires ReturnTypeOf(e) == Long
    requires forall name :: name in LeafNames(e) ==> name in env
    ensures LongValue(e, env).Some?
  {
    match e
    case Constant(_) =>
    case Leaf(_, _, _) =>
    case Add(l, r) =>
      LongTypedHasValue(l, env);
      LongTypedHasValue(r, env);
    case Subtract(l, r) =>
      LongTypedHasValue(l, env);
      LongTypedHasValue(r, env);
    case Multiply(l, r) =>
      LongTypedHasValue(l, env);
      LongTypedHasValue(r, env);
    case Divide(_, _) =>
    case Power(l, r) =>
      LongTypedHasValue(l, env);
      LongTypedHasValue(r, env);
  }

  /**
   * A Power typed LONG has a non-negative exponent, so its value is the
   * integer power whenever a double holds that power exactly (Math.pow of
   * two integers is exact when the result is representable).
   */
  lemma PowerLongIsExact(e: Expr, env: Env)
    requires e.Power? && ReturnTypeOf(e) == Long && Honest(e, env) && NoOverflow(e, env)
    requires LongValue(e.left, env).Some? && LongValue(e.right, env).Some?
    ensures LongValue(e.right, env).value >= 0
    ensures var p := IntPow(LongValue(e.left, env).value, LongValue(e.right, env).value);
      -DOUBLE_EXACT <= p <= DOUBLE_EXACT ==> LongValue(e, env) == Some(p)
  {
    GuaranteeSoundAsWritten(e.right, env);
  }

  function LeafNames(e: Expr): set<string>
  {
    match e
    case Constant(_) => {}
    case Leaf(name, _, _) => {name}
    case Add(l, r) => LeafNames(l) + LeafNames(r)
    case Subtract(l, r) => LeafNames(l) + LeafNames(r)
    case Multiply(l, r) => LeafNames(l) + LeafNames(r)
    case Divide(l, r) => LeafNames(l) + LeafNames(r)
    case Power(l, r) => LeafNames(l) + LeafNames(r)
  }

  // ---------------------------------------------------------------------------
  // Text

  function OperatorSymbol(e: Expr): string
    requires !e.Constant? && !e.Leaf?
  {
    match e
    case Add(_, _) => "+"
    case Subtract(_, _) => "-"
    case Multiply(_, _) => "*"
    case Divide(_, _) => "/"
    case Power(_, _) => "^"
  }

  /** Long.toString */
  function LongText(v: int): string
  {
    if v < 0 then "-" + Decimal(-v) else Decimal(v)
  }

  /** toString(isTop): operands are printed as non-top, and a non-top operator is wrapped in parentheses. */
  function ToText(e: Expr, isTop: bool): string
    decreases e, if isTop then 0 else 1
  {
    match e
    case Constant(v) => LongText(v)
    case Leaf(name, _, _) => name
    case _ =>
      if isTop then ToText(e.left, false) + OperatorSymbol(e) + ToText(e.right, false)
      else "(" + ToText(e, true) + ")"
  }

  /** An operator below the top is enclosed in parentheses; at the top it is not, and its symbol sits between its operands. */
  lemma ToTextParenthesised(e: Expr)
    requires !e.Constant? && !e.Leaf?
    ensures var t := ToText(e, false);
      |t| >= 2 && t[0] == '(' && t[|t| - 1] == ')' && t[1..|t| - 1] == ToText(e, true)
    ensures ToText(e, true) == ToText(e.left, false) + OperatorSymbol(e) + ToText(e.right, false)
  {
  }

  /** (1+2)*3 */
  lemma ToTextExample()
    ensures ToText(Multiply(Add(Constant(1), Constant(2)), Constant(3)), true) == "(1+2)*3"
  {
    assert Decimal(1) == "1" && Decimal(2) == "2" && Decimal(3) == "3";
  }
}

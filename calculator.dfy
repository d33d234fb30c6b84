/**
 * The calculator utilities: `add`, `subtract`, `multiply` and `divide`,
 * each guarded by a run-time type check, and `divide` also by a zero check.
 * Numbers are idealised as reals: the lemmas below say nothing about IEEE-754
 * rounding, NaN, infinities or negative zero.
 */
module Calculator {
  import opened Js

  const NOT_NUMBERS_MESSAGE: string := "Both arguments must be numbers"
  const DIVIDE_BY_ZERO_MESSAGE: string := "Cannot divide by zero"

  /** The error thrown when either argument is not a number. */
  const NotNumbers: JsError := JsError(TypeError, NOT_NUMBERS_MESSAGE)

  /** The error thrown when the divisor is zero. */
  const DivideByZero: JsError := JsError(GenericError, DIVIDE_BY_ZERO_MESSAGE)

  /** `typeof a === 'number' && typeof b === 'number'`. */
  predicate BothNumbers(a: JsValue, b: JsValue) {
    a.Num? && b.Num?
  }

  function Add(a: JsValue, b: JsValue): (r: Result<real>)
    ensures r.Ok? <==> BothNumbers(a, b)
    ensures r.Throw? ==> r.error == NotNumbers
  {
    if !BothNumbers(a, b) then Throw(NotNumbers) else Ok(a.n + b.n)
  }

  function Subtract(a: JsValue, b: JsValue): (r: Result<real>)
    ensures r.Ok? <==> BothNumbers(a, b)
    ensures r.Throw? ==> r.error == NotNumbers
  {
    if !BothNumbers(a, b) then Throw(NotNumbers) else Ok(a.n - b.n)
  }

  function Multiply(a: JsValue, b: JsValue): (r: Result<real>)
    ensures r.Ok? <==> BothNumbers(a, b)
    ensures r.Throw? ==> r.error == NotNumbers
  {
    if !BothNumbers(a, b) then Throw(NotNumbers) else Ok(a.n * b.n)
  }

  function Divide(a: JsValue, b: JsValue): (r: Result<real>)
    ensures r.Ok? <==> BothNumbers(a, b) && b.n != 0.0
    ensures !BothNumbers(a, b) ==> r == Throw(NotNumbers)
    ensures BothNumbers(a, b) && b.n == 0.0 ==> r == Throw(DivideByZero)
  {
    if !BothNumbers(a, b) then Throw(NotNumbers)
    else if b.n == 0.0 then Throw(DivideByZero)
    else Ok(a.n / b.n)
  }

  /** A non-number makes every operation throw the same type error, whatever the other argument is. */
  lemma NonNumberThrowsTypeError(a: JsValue, b: JsValue)
    requires !a.Num? || !b.Num?
    ensures Add(a, b) == Subtract(a, b) == Multiply(a, b) == Divide(a, b) == Throw(NotNumbers)
  {
  }

  /** The type check comes first: a non-number dividend with a zero divisor is a type error, not a division by zero. */
  lemma TypeCheckPrecedesZeroCheck(a: JsValue)
    requires !a.Num?
    ensures Divide(a, Num(0.0)) == Throw(NotNumbers)
    ensures Divide(a, Num(0.0)) != Throw(DivideByZero)
  {
  }

  /** With two numbers nothing is thrown and the idealised sum, difference and product are returned. */
  lemma NumbersGiveResults(x: real, y: real)
    ensures Add(Num(x), Num(y)) == Ok(x + y)
    ensures Subtract(Num(x), Num(y)) == Ok(x - y)
    ensures Multiply(Num(x), Num(y)) == Ok(x * y)
  {
    assert Multiply(Num(x), Num(y)).value == x * y;
  }

  /** Two numbers divide to the idealised quotient, unless the divisor is zero. */
  lemma DivideNumbers(x: real, y: real)
    ensures y != 0.0 ==> Divide(Num(x), Num(y)) == Ok(x / y)
    ensures y == 0.0 ==> Divide(Num(x), Num(y)) == Throw(DivideByZero)
  {
  }

  /** Every test case that compares exactly, in the real-number idealisation. */
  lemma CalculatorScenarios(x: real)
    ensures Add(Num(2.0), Num(3.0)) == Ok(5.0)
    ensures Add(Num(10.0), Num(20.0)) == Ok(30.0)
    ensures Add(Num(-5.0), Num(-3.0)) == Ok(-8.0)
    ensures Add(Num(-10.0), Num(5.0)) == Ok(-5.0)
    ensures Add(Num(1.5), Num(2.5)) == Ok(4.0)
    ensures Add(Num(0.0), Num(5.0)) == Ok(5.0)
    ensures Add(Num(5.0), Num(0.0)) == Ok(5.0)
    ensures Add(Num(0.0), Num(0.0)) == Ok(0.0)
    ensures Add(Num(x), Num(0.0)) == Ok(x) && Add(Num(0.0), Num(x)) == Ok(x)
    ensures Add(Str("a"), Num(5.0)) == Throw(NotNumbers)
    ensures Add(Num(5.0), Null) == Throw(NotNumbers)
    ensures Add(Undefined, Num(5.0)) == Throw(NotNumbers)
    ensures Subtract(Num(5.0), Num(3.0)) == Ok(2.0)
    ensures Subtract(Num(10.0), Num(7.0)) == Ok(3.0)
    ensures Subtract(Num(3.0), Num(5.0)) == Ok(-2.0)
    ensures Subtract(Num(0.0), Num(10.0)) == Ok(-10.0)
    ensures Subtract(Str("a"), Num(5.0)) == Throw(NotNumbers)
    ensures Subtract(Num(5.0), Obj) == Throw(NotNumbers)
    ensures Multiply(Num(2.0), Num(3.0)) == Ok(6.0)
    ensures Multiply(Num(5.0), Num(4.0)) == Ok(20.0)
    ensures Multiply(Num(5.0), Num(0.0)) == Ok(0.0)
    ensures Multiply(Num(0.0), Num(10.0)) == Ok(0.0)
    ensures Multiply(Num(-2.0), Num(3.0)) == Ok(-6.0)
    ensures Multiply(Num(-2.0), Num(-3.0)) == Ok(6.0)
    ensures Multiply(Arr, Num(5.0)) == Throw(NotNumbers)
    ensures Divide(Num(6.0), Num(2.0)) == Ok(3.0)
    ensures Divide(Num(10.0), Num(5.0)) == Ok(2.0)
    ensures Divide(Num(5.0), Num(2.0)) == Ok(2.5)
    ensures Divide(Num(5.0), Num(0.0)) == Throw(DivideByZero)
    ensures Divide(Str("10"), Num(2.0)) == Throw(NotNumbers)
    ensures Divide(Num(10.0), Str("2")) == Throw(NotNumbers)
    ensures Add(Num(999999999.0), Num(1.0)) == Ok(1000000000.0)
    ensures Multiply(Num(999999999.0), Num(2.0)) == Ok(1999999998.0)
  {
  }
}

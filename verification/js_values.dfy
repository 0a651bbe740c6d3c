/**
 * JavaScript numbers and the loosely typed field values the pages keep in their state.
 *
 * Numbers are exact reals extended with NaN and the two infinities; signed zero and
 * IEEE-754 rounding are not modelled. Conversions from text (`Number`, `parseInt`,
 * `parseFloat`) are parameters, since their exact grammar is outside the model.
 */
module JsValues {
  import opened Wrappers

  /** A JavaScript number: a finite value, NaN, or an infinity. */
  datatype Num = Fin(v: real) | NaN | Inf(negative: bool)

  /** A form or record field: either the text typed into an input, or a number. */
  datatype Value = Str(s: string) | N(n: Num)

  /** A text-to-number conversion such as `Number(s)`; `None` stands for NaN. */
  type Parser = string -> Option<real>

  /** JavaScript truthiness of a field value: the falsy ones are the empty text, 0 and NaN. */
  function Truthy(x: Value): (r: bool)
    ensures !r <==> x == Str("") || x == N(Fin(0.0)) || x == N(NaN)
  {
    match x
    case Str(s) => s != ""
    case N(Fin(v)) => v != 0.0
    case N(NaN) => false
    case N(Inf(_)) => true
  }

  predicate IsNaN(n: Num) {
    n.NaN?
  }

  /** `Number(x)`: text goes through the parser, a number is kept as it is. */
  function ToNumber(parse: Parser, x: Value): (r: Num)
    ensures x.N? ==> r == x.n
    ensures x.Str? ==> !r.Inf? && (r.NaN? <==> parse(x.s).None?)
    ensures x.Str? && parse(x.s).Some? ==> r == Fin(parse(x.s).value)
  {
    match x
    case N(n) => n
    case Str(s) => match parse(s)
      case Some(v) => Fin(v)
      case None => NaN
  }

  /** Whether a number lies below zero; NaN does not. */
  predicate IsNegative(n: Num) {
    match n
    case Fin(v) => v < 0.0
    case NaN => false
    case Inf(negative) => negative
  }

  /** Multiplication of JavaScript numbers. */
  function Mul(a: Num, b: Num): (r: Num)
    ensures a.Fin? && b.Fin? ==> r == Fin(a.v * b.v)
    ensures b == Fin(1.0) ==> r == a
    ensures a.NaN? || b.NaN? ==> r.NaN?
    ensures (a == Fin(0.0) && b.Inf?) || (a.Inf? && b == Fin(0.0)) ==> r.NaN?
    ensures r.Inf? ==> r.negative == (IsNegative(a) != IsNegative(b))
  {
    match (a, b)
    case (Fin(x), Fin(y)) => assert y == 1.0 ==> x * y == x; Fin(a.v * b.v)
    case (NaN, _) => NaN
    case (_, NaN) => NaN
    case (Fin(x), Inf(s)) => if x == 0.0 then NaN else Inf(s != (x < 0.0))
    case (Inf(s), Fin(y)) => if y == 0.0 then NaN else Inf(s != (y < 0.0))
    case (Inf(s), Inf(t)) => Inf(s != t)
  }

  /** Division of JavaScript numbers; a zero divisor is taken to be +0. */
  function Div(a: Num, b: Num): (r: Num)
    ensures a.Fin? && b.Fin? && b.v != 0.0 ==> r.Fin? && r.v * b.v == a.v
    ensures a.Fin? && a.v > 0.0 && b == Fin(0.0) ==> r == Inf(false)
    ensures a == Fin(0.0) && b == Fin(0.0) ==> r.NaN?
    ensures r.Inf? ==> r.negative == (IsNegative(a) != IsNegative(b))
  {
    match (a, b)
    case (Fin(x), Fin(y)) =>
      if y != 0.0 then Fin(x / y) else if x == 0.0 then NaN else Inf(x < 0.0)
    case (NaN, _) => NaN
    case (_, NaN) => NaN
    case (Fin(_), Inf(_)) => Fin(0.0)
    case (Inf(s), Fin(y)) => if y == 0.0 then Inf(s) else Inf(s != (y < 0.0))
    case (Inf(_), Inf(_)) => NaN
  }

  /** `n || 0` on a number: every falsy number (0 and NaN) becomes 0. */
  function OrZero(n: Num): (r: Num)
    ensures !r.NaN?
    ensures Truthy(N(n)) ==> r == n
    ensures !Truthy(N(n)) ==> r == Fin(0.0)
  {
    if n.NaN? || n == Fin(0.0) then Fin(0.0) else n
  }

  /** A real is a whole number of hundredths. */
  predicate IsCents(x: real) {
    (x * 100.0).Floor as real == x * 100.0
  }

  /** Rounding of a non-negative real to hundredths, ties upwards. */
  function RoundCentsUp(x: real): real
    requires x >= 0.0
  {
    (x * 100.0 + 0.5).Floor as real / 100.0
  }

  /**
   * The value of `x.toFixed(2)` for a finite `x`, computed on the exact real:
   * the magnitude is rounded to the nearest hundredth, ties away from zero.
   */
  function Round2(x: real): (r: real)
    ensures IsCents(r)
    ensures x >= 0.0 ==> -0.005 < r - x <= 0.005
    ensures x < 0.0 ==> -0.005 <= r - x < 0.005
    ensures Abs(r - x) == 0.005 ==> Abs(r) > Abs(x)
    ensures x >= 0.0 ==> r >= 0.0
  {
    var r := if x < 0.0 then -RoundCentsUp(-x) else RoundCentsUp(x);
    CentsUpFacts(if x < 0.0 then -x else x);
    r
  }

  lemma CentsUpFacts(y: real)
    requires y >= 0.0
    ensures IsCents(RoundCentsUp(y)) && IsCents(-RoundCentsUp(y))
    ensures -0.005 < RoundCentsUp(y) - y <= 0.005
    ensures RoundCentsUp(y) >= 0.0
  {
    var k := (y * 100.0 + 0.5).Floor;
    assert k as real <= y * 100.0 + 0.5 < k as real + 1.0;
    assert k >= 0;
    var r := RoundCentsUp(y);
    assert r == k as real / 100.0;
    assert r * 100.0 == k as real;
    assert (r * 100.0).Floor == k;
    assert (-r) * 100.0 == (-k) as real;
    assert ((-r) * 100.0).Floor == -k;
    assert r - y == (k as real - y * 100.0) / 100.0;
  }

  /** `toFixed(2)` lifted to JavaScript numbers: NaN and the infinities are left alone. */
  function ToFixed2(n: Num): (r: Num)
    ensures r.Fin? <==> n.Fin?
    ensures r.Fin? ==> IsCents(r.v) && -0.005 <= r.v - n.v <= 0.005
    ensures r.Fin? && Abs(r.v - n.v) == 0.005 ==> Abs(r.v) > Abs(n.v)
    ensures !n.Fin? ==> r == n
  {
    match n
    case Fin(v) => Fin(Round2(v))
    case _ => n
  }

  /** `Math.round`: the nearest whole number, halves upwards. */
  function MathRound(n: Num): (r: Num)
    ensures r.Fin? <==> n.Fin?
    ensures r.Fin? ==> r.v.Floor as real == r.v && -0.5 < r.v - n.v <= 0.5
    ensures !n.Fin? ==> r == n
  {
    match n
    case Fin(v) => Fin((v + 0.5).Floor as real)
    case _ => n
  }

  /**
   * `toFixed(2)` picks the hundredth closest to its argument: no whole number of
   * hundredths is nearer to `x` than `Round2(x)`.
   */
  lemma {:induction false} Round2IsNearest(x: real, n: int)
    ensures Abs(Round2(x) - x) <= Abs(n as real / 100.0 - x)
  {
    var y := if x < 0.0 then -x else x;
    var k := (y * 100.0 + 0.5).Floor;
    assert RoundCentsUp(y) == k as real / 100.0;
    // k - 100y lies in (-1/2, 1/2], so no other whole number is nearer to 100y
    var m := if x < 0.0 then -n else n;
    assert Abs(k as real - y * 100.0) <= Abs(m as real - y * 100.0) by {
      if m > k {
        assert m as real >= k as real + 1.0;
      } else if m < k {
        assert m as real <= k as real - 1.0;
      }
    }
    assert Abs(RoundCentsUp(y) - y) <= Abs(m as real / 100.0 - y);
  }

  /** Rounding a whole number of hundredths to hundredths changes nothing. */
  lemma {:induction false} Round2OfCents(x: real)
    requires IsCents(x)
    ensures Round2(x) == x
  {
    var k := (x * 100.0).Floor;
    var j := if k < 0 then -k else k;
    var y := if x < 0.0 then -x else x;
    assert y * 100.0 == j as real;
    assert (y * 100.0 + 0.5).Floor == j;
  }

  /** Multiplication of JavaScript numbers is commutative, NaN and infinities included. */
  lemma MulCommutes(a: Num, b: Num)
    ensures Mul(a, b) == Mul(b, a)
  {
  }

  function Abs(x: real): real {
    if x < 0.0 then -x else x
  }
}

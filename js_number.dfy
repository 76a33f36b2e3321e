/**
  The slice of JavaScript number semantics that the leaderboard's score
  arithmetic touches: coercion of a JSON mark to a number, division with
  IEEE-754 special values, the `|| 0` falsy fallback, and
  `Number(x.toFixed(2))`. Doubles are modelled by unbounded reals, so there is
  no rounding error in sums and quotients and no signed zero.
*/
module JsNumber {

  /** A JavaScript number: a finite value or one of the three special values. */
  datatype Number = Finite(value: real) | NaN | PosInfinity | NegInfinity

  /** A mark field of a score record as it arrives from JSON. */
  datatype Mark = Undefined | Null | Num(v: real)

  /** Coercion of an operand of `/`: `undefined` is NaN, `null` is 0. */
  function ToNumber(m: Mark): Number
  {
    match m
    case Undefined => NaN
    case Null => Finite(0.0)
    case Num(v) => Finite(v)
  }

  /**
    `a / b` on JavaScript numbers (with +0 for every zero). A finite quotient
    times the divisor gives back the dividend; NaN arises exactly from a NaN
    operand, 0/0 or infinity over infinity; a non-zero finite value over 0 is
    an infinity of the same sign.
  */
  function Divide(a: Number, b: Number): (q: Number)
    ensures q.Finite? && b.Finite? ==> a.Finite? && q.value * b.value == a.value
    ensures a.Finite? && b.Finite? ==> (q.Finite? <==> b.value != 0.0)
    ensures q.NaN? <==> a.NaN? || b.NaN? || (a == Finite(0.0) && b == Finite(0.0)) || (!a.Finite? && !b.Finite?)
    ensures a.Finite? && a.value != 0.0 && b == Finite(0.0) ==>
              !q.Finite? && !q.NaN? && (q.PosInfinity? <==> a.value > 0.0)
  {
    if a.NaN? || b.NaN? then NaN
    else if a.Finite? && b.Finite? then
      if b.value != 0.0 then
        var x, y := a.value, b.value;
        assert x / y * y == x;
        Finite(x / y)
      else if a.value > 0.0 then PosInfinity
      else if a.value < 0.0 then NegInfinity
      else NaN
    else if a.Finite? then Finite(0.0)
    else if b.Finite? then (if b.value < 0.0 then Negate(a) else a)
    else NaN
  }

  function Negate(a: Number): Number
  {
    match a
    case Finite(x) => Finite(-x)
    case NaN => NaN
    case PosInfinity => NegInfinity
    case NegInfinity => PosInfinity
  }

  /** `a * 100`. */
  function Times100(a: Number): Number
  {
    match a
    case Finite(x) => Finite(x * 100.0)
    case _ => a
  }

  /** ToBoolean on a number: NaN and zero are falsy, every other value is truthy. */
  predicate Truthy(a: Number)
  {
    !a.NaN? && a != Finite(0.0)
  }

  /** `a || b`: the left operand when it is truthy, otherwise the right one. */
  function LogicalOr(a: Number, b: Number): Number
  {
    if Truthy(a) then a else b
  }

  /**
    `a || 0`. The fallback never yields NaN and keeps the truthiness of `a`;
    the only values it changes are falsy ones, and those become 0. Infinities
    are truthy and pass through.
  */
  function OrZero(a: Number): (r: Number)
    ensures !r.NaN?
    ensures Truthy(r) == Truthy(a)
    ensures r != a ==> a.NaN? && r == Finite(0.0)
  {
    LogicalOr(a, Finite(0.0))
  }

  /** Rounds a non-negative value to the nearest multiple of 1/100, taking the larger one on a tie. */
  function RoundHalfUp2(x: real): (r: real)
    requires x >= 0.0
    ensures -1.0 / 200.0 <= r - x <= 1.0 / 200.0
    ensures r >= 0.0
    ensures (r * 100.0).Floor as real == r * 100.0
  {
    var n := (x * 100.0 + 0.5).Floor;
    assert n as real <= x * 100.0 + 0.5 < n as real + 1.0;
    assert n >= 0;
    assert (n as real / 100.0) * 100.0 == n as real;
    n as real / 100.0
  }

  /**
    `Number(x.toFixed(2))` for a finite x. `toFixed` rounds |x| to two decimals,
    choosing the larger candidate on a tie, and puts the sign back in front.
  */
  function ToFixed2(x: real): (r: real)
    ensures -1.0 / 200.0 <= r - x <= 1.0 / 200.0
    ensures (r * 100.0).Floor as real == r * 100.0
    ensures x >= 0.0 ==> r >= 0.0
    ensures x <= 0.0 ==> r <= 0.0
  {
    if x < 0.0 then
      var m := RoundHalfUp2(-x);
      var k := (m * 100.0).Floor;
      assert m * 100.0 == k as real;
      assert (-m) * 100.0 == -(m * 100.0);
      assert ((-k) as real).Floor == -k;
      -m
    else
      RoundHalfUp2(x)
  }

  lemma RoundHalfUp2Monotone(x: real, y: real)
    requires 0.0 <= x <= y
    ensures RoundHalfUp2(x) <= RoundHalfUp2(y)
  {
    var a, b := (x * 100.0 + 0.5).Floor, (y * 100.0 + 0.5).Floor;
    assert a as real <= x * 100.0 + 0.5 <= y * 100.0 + 0.5 < b as real + 1.0;
    assert a <= b;
  }

  /** Rounding never reverses the order of two scores. */
  lemma ToFixed2Monotone(x: real, y: real)
    requires x <= y
    ensures ToFixed2(x) <= ToFixed2(y)
  {
    if 0.0 <= x {
      RoundHalfUp2Monotone(x, y);
    } else if y < 0.0 {
      RoundHalfUp2Monotone(-y, -x);
    }
  }

  /** A value that already has two decimals is left as it is. */
  lemma ToFixed2OfTwoDecimals(n: int)
    ensures ToFixed2(n as real / 100.0) == n as real / 100.0
  {
    var x := n as real / 100.0;
    if n < 0 {
      assert (-x * 100.0 + 0.5).Floor == -n;
    } else {
      assert (x * 100.0 + 0.5).Floor == n;
    }
  }

  /** Rounding keeps a percentage inside [0, 100]. */
  lemma ToFixed2Percent(x: real)
    requires 0.0 <= x <= 100.0
    ensures 0.0 <= ToFixed2(x) <= 100.0
  {
    ToFixed2Monotone(x, 100.0);
    ToFixed2OfTwoDecimals(10000);
  }
}

/** `util.round`: rounding a value to a number of decimal places in one of
    four modes. The library shifts the decimal point by building an
    exponent string (`value + 'e' + decimals`), rounds to an integer with
    `Math.round`, `Math.ceil` or `Math.floor`, and shifts back. Here values
    are exact reals, so the shift is a multiplication by a power of ten and
    the IEEE double effects of the string round trip are not modelled. */
module Rounding {
  import opened Common

  const RoundHalfUp: int := 0
  const RoundHalfDown: int := 1
  const RoundAwayFromZero: int := 2
  const RoundTowardsZero: int := 3

  function Pow10(d: nat): (p: nat)
    ensures 1 <= p
  {
    if d == 0 then 1 else 10 * Pow10(d - 1)
  }

  /** `Math.floor`. */
  function Floor(x: real): int
  {
    x.Floor
  }

  /** `Math.ceil`. */
  function Ceil(x: real): int
  {
    -((-x).Floor)
  }

  /** `value` with its decimal point moved `decimals` places to the right. */
  function Shift(value: real, decimals: nat): real
  {
    value * Pow10(decimals) as real
  }

  /** The integer `k` for which `util.round` returns `k / 10^decimals`, or
      the Error for an unknown mode. An absent mode (`undefined`) is half-up.
      `Math.round` rounds halves up (towards positive infinity); half-down
      subtracts half a unit and takes the ceiling; the other two modes take
      the floor or the ceiling depending on the sign flag the caller passes. */
  function RoundScaled(value: real, decimals: nat, isNeg: bool, mode: Option<int>): (r: Result<int>)
    ensures r.Success? <==> mode.None? || RoundHalfUp <= mode.value <= RoundTowardsZero
    ensures r.Failure? ==> r.error == UnknownRoundingMode
    ensures r.Success? && (mode.None? || mode.value == RoundHalfUp) ==>
              Shift(value, decimals) - 1.0 / 2.0 < r.value as real <= Shift(value, decimals) + 1.0 / 2.0
    ensures r.Success? && mode == Some(RoundHalfDown) ==>
              Shift(value, decimals) - 1.0 / 2.0 <= r.value as real < Shift(value, decimals) + 1.0 / 2.0
    ensures r.Success? && mode == Some(RoundAwayFromZero) ==>
              if isNeg then r.value as real <= Shift(value, decimals) < r.value as real + 1.0
              else r.value as real - 1.0 < Shift(value, decimals) <= r.value as real
    ensures r.Success? && mode == Some(RoundTowardsZero) ==>
              if isNeg then r.value as real - 1.0 < Shift(value, decimals) <= r.value as real
              else r.value as real <= Shift(value, decimals) < r.value as real + 1.0
  {
    var y := Shift(value, decimals);
    var m := if mode.None? then RoundHalfUp else mode.value;
    if m == RoundHalfUp then Success(Floor(y + 1.0 / 2.0))
    else if m == RoundHalfDown then Success(Ceil(y - 1.0 / 2.0))
    else if m == RoundAwayFromZero then Success(if isNeg then Floor(y) else Ceil(y))
    else if m == RoundTowardsZero then Success(if isNeg then Ceil(y) else Floor(y))
    else Failure(UnknownRoundingMode)
  }

  /** `util.round`. */
  function Round(value: real, decimals: nat, isNeg: bool, mode: Option<int>): (r: Result<real>)
    ensures r.Success? <==> RoundScaled(value, decimals, isNeg, mode).Success?
    ensures r.Success? ==> r.value * Pow10(decimals) as real == RoundScaled(value, decimals, isNeg, mode).value as real
  {
    var k := RoundScaled(value, decimals, isNeg, mode);
    if k.Failure? then Failure(k.error)
    else
      var p := Pow10(decimals) as real;
      DivThenMul(k.value as real, p);
      Success(k.value as real / p)
  }

  lemma DivThenMul(x: real, p: real)
    requires p != 0.0
    ensures (x / p) * p == x
  {
  }

  /** A value that already has at most `decimals` places is left unchanged
      by every mode. */
  lemma RoundExact(k: int, decimals: nat, isNeg: bool, mode: Option<int>)
    requires mode.None? || RoundHalfUp <= mode.value <= RoundTowardsZero
    ensures Round(k as real / Pow10(decimals) as real, decimals, isNeg, mode) == Success(k as real / Pow10(decimals) as real)
  {
    var p := Pow10(decimals) as real;
    var v := k as real / p;
    assert Shift(v, decimals) == k as real;
    var r := RoundScaled(v, decimals, isNeg, mode);
    assert r.value == k;
  }

  /** Half-up and half-down agree except on an exact half. */
  lemma HalfModesAgree(value: real, decimals: nat, isNeg: bool)
    requires Shift(value, decimals) - Floor(Shift(value, decimals)) as real != 1.0 / 2.0
    ensures RoundScaled(value, decimals, isNeg, Some(RoundHalfUp)) == RoundScaled(value, decimals, isNeg, Some(RoundHalfDown))
  {
    var y := Shift(value, decimals);
    var f := Floor(y);
    if y - f as real < 1.0 / 2.0 {
      assert Floor(y + 1.0 / 2.0) == f;
      assert Ceil(y - 1.0 / 2.0) == f;
    } else {
      assert Floor(y + 1.0 / 2.0) == f + 1;
      assert Ceil(y - 1.0 / 2.0) == f + 1;
    }
  }

  /** On an exact half, half-up goes up and half-down goes down. */
  lemma HalfModesOnTie(k: int, decimals: nat, isNeg: bool)
    ensures var v := (k as real + 1.0 / 2.0) / Pow10(decimals) as real;
            RoundScaled(v, decimals, isNeg, Some(RoundHalfUp)) == Success(k + 1)
            && RoundScaled(v, decimals, isNeg, Some(RoundHalfDown)) == Success(k)
  {
    var v := (k as real + 1.0 / 2.0) / Pow10(decimals) as real;
    assert Shift(v, decimals) == k as real + 1.0 / 2.0;
  }
}

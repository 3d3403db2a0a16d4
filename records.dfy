/** Rows of the wine dataset, the values a statistic can take in JavaScript,
    and the rounding applied to every reported statistic. */
module Records {

  /** One row of the dataset: its Alcohol class (the grouping key) and its
      named numeric measurements ("Ash", "Hue", "Magnesium", "Flavanoids", ...).
      The Gamma enrichment adds the measurement "Gamma". */
  datatype Record = Record(alcohol: int, attrs: map<string, real>)

  /** What a statistic evaluates to: a number, NaN, or a thrown TypeError. */
  datatype Outcome = Num(value: real) | NaN | TypeError

  datatype Option<T> = None | Some(value: T)

  /** Every record carries the measurement `field`. */
  predicate HasField(data: seq<Record>, field: string)
  {
    forall i :: 0 <= i < |data| ==> field in data[i].attrs
  }

  /** The values `entry[field]` of the records, in record order. */
  function Column(data: seq<Record>, field: string): seq<real>
    requires HasField(data, field)
  {
    seq(|data|, i requires 0 <= i < |data| => data[i].attrs[field])
  }

  function Abs(x: real): real
  {
    if x < 0.0 then -x else x
  }

  /** Rounding to three decimal places as `roundToThree` means it: shift the
      decimal point three places, apply `Math.round` (nearest integer, halves
      toward +infinity), shift back. The result is the unique multiple of
      1/1000 in the half-open window (x - 1/2000, x + 1/2000]. */
  function RoundToThree(x: real): (r: real)
    ensures x - 1.0 / 2000.0 < r <= x + 1.0 / 2000.0
    ensures (r * 1000.0).Floor as real == r * 1000.0
  {
    (x * 1000.0 + 0.5).Floor as real / 1000.0
  }

  /** Rounding twice is rounding once. */
  lemma RoundToThreeIdempotent(x: real)
    ensures RoundToThree(RoundToThree(x)) == RoundToThree(x)
  {
    var r := RoundToThree(x);
    var n := (r * 1000.0).Floor;
    assert r * 1000.0 == n as real;
    assert (r * 1000.0 + 0.5).Floor == n;
  }

  /** JavaScript's Number-to-String conversion writes a non-zero number in
      exponential notation exactly when its magnitude is below 1e-6 or at
      least 1e21 (ECMAScript Number::toString). */
  predicate PrintsExponential(x: real)
  {
    x != 0.0 && (Abs(x) < 1.0e-6 || Abs(x) >= 1.0e21)
  }

  /** `roundToThree` as written: it appends "e+3" to the decimal string of
      the number, so a number printed in exponential notation ("1e-7e+3")
      parses to NaN; the same happens to the rounded integer when "e-3" is
      appended to it. */
  function RoundToThreeAsWritten(x: real): (r: Outcome)
    ensures r != TypeError
    ensures r.Num? ==> r.value == RoundToThree(x)
  {
    if PrintsExponential(x) then NaN
    else
      var k := (x * 1000.0 + 0.5).Floor;
      if PrintsExponential(k as real) then NaN else Num(k as real / 1000.0)
  }

  /** A small positive number rounds to NaN instead of 0. */
  lemma TinyValueRoundsToNaN()
    ensures RoundToThreeAsWritten(1.0e-7) == NaN
    ensures RoundToThree(1.0e-7) == 0.0
  {
    assert (1.0e-7 * 1000.0 + 0.5).Floor == 0;
  }

  /** On zero and on every magnitude from 1e-6 up to (but excluding) 1e17 the
      code as written agrees with exact decimal rounding. */
  lemma AsWrittenAgreesInPlainRange(x: real)
    requires x == 0.0 || 1.0e-6 <= Abs(x) < 1.0e17
    ensures RoundToThreeAsWritten(x) == Num(RoundToThree(x))
  {
    var k := (x * 1000.0 + 0.5).Floor;
    assert k as real <= x * 1000.0 + 0.5;
    assert x * 1000.0 + 0.5 < k as real + 1.0;
    assert -1.0e21 < k as real < 1.0e21 by {
      assert -1.0e17 < x < 1.0e17;
      assert -1.0e20 < x * 1000.0 < 1.0e20;
    }
    assert !PrintsExponential(k as real);
  }
}

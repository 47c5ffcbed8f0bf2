/**
 * The two numeric argument parsers of the command line: `positive(typ)`,
 * which clamps its result at 1, and `in_range(typ, low, high)`, which accepts
 * exactly a closed interval whatever the order of its bounds.
 *
 * Both parse their argument with `float(arg)` and then convert it with `typ`.
 * The model starts from the parsed real number; `typ` is `int` (truncation
 * toward zero) or `float` (no change).
 */
module Numeric {
  import opened Wrappers

  /** The `typ` argument of both parsers. */
  datatype Kind = IntKind | FloatKind

  predicate IsIntegral(x: real) {
    x.Floor as real == x
  }

  /** Python's `int(x)` on a finite float: the integer part, rounding toward zero. */
  function Truncate(x: real): (n: int)
    ensures 0.0 <= x ==> 0 <= n && n as real <= x < n as real + 1.0
    ensures x < 0.0 ==> n <= 0 && n as real - 1.0 < x <= n as real
  {
    if x >= 0.0 then x.Floor else -((-x).Floor)
  }

  /** `typ(v)` for the two kinds the command line uses. */
  function Convert(kind: Kind, x: real): (v: real)
    ensures kind == FloatKind ==> v == x
    ensures kind == IntKind ==> IsIntegral(v) && (x < 1.0 <==> v < 1.0)
    ensures kind == IntKind && x >= 1.0 ==> v == x.Floor as real
  {
    match kind
    case IntKind => Truncate(x) as real
    case FloatKind => x
  }

  /**
   * `positive(typ)(arg)`: `max(1, typ(float(arg)))`. Any value below 1 becomes 1;
   * for `int`, values of at least 1 lose their fractional part.
   */
  function Positive(kind: Kind, x: real): (r: real)
    ensures r >= 1.0
    ensures kind == FloatKind ==> r == if x < 1.0 then 1.0 else x
    ensures kind == IntKind ==> r == if x < 1.0 then 1.0 else x.Floor as real
    ensures kind == IntKind ==> IsIntegral(r)
  {
    var v := Convert(kind, x);
    if v < 1.0 then 1.0 else v
  }

  /** Feeding a result of `positive` back into it leaves it unchanged. */
  lemma PositiveIdempotent(kind: Kind, x: real)
    ensures Positive(kind, Positive(kind, x)) == Positive(kind, x)
  {
    var r := Positive(kind, x);
    if kind == IntKind {
      assert r.Floor as real == r;
    }
  }

  /** A larger input never yields a smaller result. */
  lemma PositiveMonotonic(kind: Kind, x: real, y: real)
    requires x <= y
    ensures Positive(kind, x) <= Positive(kind, y)
  {
    if kind == IntKind && x >= 1.0 {
      assert x.Floor <= y.Floor;
    }
  }

  /** `positive(int)("0.4")` is 1 and `positive(int)("3.7")` is 3. */
  lemma PositiveExamples()
    ensures Positive(IntKind, 0.4) == 1.0
    ensures Positive(IntKind, -5.0) == 1.0
    ensures Positive(IntKind, 3.7) == 3.0
    ensures Positive(FloatKind, 2.5) == 2.5
  {
    assert (3.7).Floor == 3;
  }

  /** The error `in_range` raises: the converted value and the sorted bounds. */
  datatype RangeError = OutOfRange(value: real, low: real, high: real)

  /** `sorted((low, high))` */
  function Sorted(low: real, high: real): (b: (real, real))
    ensures b.0 <= b.1
    ensures (b.0 == low && b.1 == high) || (b.0 == high && b.1 == low)
  {
    if low <= high then (low, high) else (high, low)
  }

  function Min(a: real, b: real): real { if a <= b then a else b }

  function Max(a: real, b: real): real { if a <= b then b else a }

  /** `in_range(typ, low, high)(arg)`: sort the bounds, convert, and check the closed interval. */
  function InRange(kind: Kind, low: real, high: real, x: real): (r: Result<real, RangeError>)
    ensures r.Ok? <==> Min(low, high) <= Convert(kind, x) <= Max(low, high)
    ensures r.Ok? ==> r.value == Convert(kind, x)
    ensures r.Err? ==> r.error == OutOfRange(Convert(kind, x), Min(low, high), Max(low, high))
  {
    var (lo, hi) := Sorted(low, high);
    var v := Convert(kind, x);
    if !(lo <= v <= hi) then Err(OutOfRange(v, lo, hi)) else Ok(v)
  }

  /** The order of the bounds does not matter. */
  lemma InRangeSymmetric(kind: Kind, low: real, high: real, x: real)
    ensures InRange(kind, low, high, x) == InRange(kind, high, low, x)
  {
  }

  /**
   * The contrast thresholds are parsed with `in_range(float, 1, 21)`: exactly the
   * values from 1 to 21 inclusive are accepted, and unchanged.
   */
  lemma ContrastThresholdRange(x: real)
    ensures InRange(FloatKind, 1.0, 21.0, x).Ok? <==> 1.0 <= x <= 21.0
    ensures InRange(FloatKind, 1.0, 21.0, x).Ok? ==> InRange(FloatKind, 1.0, 21.0, x).value == x
    ensures InRange(FloatKind, 21.0, 1.0, x) == InRange(FloatKind, 1.0, 21.0, x)
  {
  }
}

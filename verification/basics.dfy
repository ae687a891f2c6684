/** Shared building blocks: optional values (pandas NaN / a missing key),
    results with an error side (the source's sys.exit and exceptions), and
    decimal rounding. */
module Basics {

  /** A value that may be absent: NaN, None or a missing column in the source. */
  datatype Option<+T> = None | Some(value: T)

  /** The outcome of a step that can abort. */
  datatype Result<+T, +E> = Ok(value: T) | Err(error: E)

  function Pow10(n: nat): (p: nat)
    ensures p >= 1
  {
    if n == 0 then 1 else 10 * Pow10(n - 1)
  }

  /** x expressed in units of the n-th decimal place. */
  function Scaled(x: real, n: nat): real
  {
    x * Pow10(n) as real
  }

  /** Rounding to n decimal places, halves rounded up: the scaled value is
      moved to the nearest integer and scaled back. The result is a whole
      number of units of the n-th place, and x lies within half a unit of it
      (a half below it counts, a half above it does not). */
  function Round(x: real, n: nat): (r: real)
    ensures Scaled(r, n) == Scaled(r, n).Floor as real
    ensures r - 0.5 / Pow10(n) as real <= x < r + 0.5 / Pow10(n) as real
  {
    var f := (Scaled(x, n) + 0.5).Floor;
    RoundNearest(x, n, f);
    (f as real) / (Pow10(n) as real)
  }

  lemma RoundNearest(x: real, n: nat, f: int)
    requires f == (Scaled(x, n) + 0.5).Floor
    ensures Scaled((f as real) / (Pow10(n) as real), n) == f as real
    ensures var r, p := (f as real) / (Pow10(n) as real), Pow10(n) as real;
      r - 0.5 / p <= x < r + 0.5 / p
  {
    var p := Pow10(n) as real;
    var y := Scaled(x, n);
    assert f as real - 0.5 <= y < f as real + 0.5;
    ScaleBack(f as real, p);
    ScaleBack(x, p);
    DivideMonotone(f as real - 0.5, y, p);
    DivideStrict(y, f as real + 0.5, p);
    DivideShift(f as real, 0.5, p);
  }

  lemma ScaleBack(a: real, p: real)
    requires p > 0.0
    ensures (a / p) * p == a && (a * p) / p == a
  {
  }

  lemma DivideShift(a: real, b: real, p: real)
    requires p > 0.0
    ensures (a - b) / p == a / p - b / p && (a + b) / p == a / p + b / p
  {
  }

  lemma DivideStrict(a: real, b: real, p: real)
    requires a < b && p > 0.0
    ensures a / p < b / p
  {
    assert b / p - a / p == (b - a) / p;
  }

  /** .round(2) of a value that may be NaN: NaN stays NaN, any other value
      moves to a multiple of 0.01 less than half a hundredth away. */
  function RoundOption(x: Option<real>): (r: Option<real>)
    ensures r.None? <==> x.None?
    ensures x.Some? ==> r.value - 0.005 <= x.value < r.value + 0.005
  {
    if x.None? then None else Some(Round(x.value, 2))
  }

  lemma DivideMonotone(a: real, b: real, p: real)
    requires a <= b && p > 0.0
    ensures a / p <= b / p
  {
    assert b / p - a / p == (b - a) / p;
  }

  lemma FloorMonotone(a: real, b: real)
    requires a <= b
    ensures a.Floor <= b.Floor
  {
  }

  lemma ScaledMonotone(x: real, y: real, n: nat)
    requires x <= y
    ensures Scaled(x, n) <= Scaled(y, n)
  {
    var p := Pow10(n) as real;
    assert y * p - x * p == (y - x) * p;
  }

  /** Rounding never reverses the order of two values. */
  lemma RoundMonotone(x: real, y: real, n: nat)
    requires x <= y
    ensures Round(x, n) <= Round(y, n)
  {
    ScaledMonotone(x, y, n);
    FloorMonotone(Scaled(x, n) + 0.5, Scaled(y, n) + 0.5);
    DivideMonotone((Scaled(x, n) + 0.5).Floor as real, (Scaled(y, n) + 0.5).Floor as real, Pow10(n) as real);
  }

  /** A whole number is left unchanged by rounding. */
  lemma RoundWhole(k: int, n: nat)
    ensures Round(k as real, n) == k as real
  {
    var p := Pow10(n);
    assert Scaled(k as real, n) == (k * p) as real;
    assert (Scaled(k as real, n) + 0.5).Floor == k * p;
    assert ((k * p) as real) / (p as real) == k as real;
  }
}

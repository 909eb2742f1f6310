/** Scalar values as they travel through the pipeline: IFC nominal values,
    table cells and spreadsheet cells, with Python's `str` rendering. */
module Values {

  /** A property value or a cell. `Empty` is Python's None: a cell nothing was
      written to, or a value that is absent. */
  datatype Value = Str(s: string) | Int(i: int) | Bool(b: bool) | Empty

  function DigitChar(d: nat): char
    requires d < 10
  {
    ('0' as int + d) as char
  }

  predicate IsDigit(c: char) {
    '0' <= c <= '9'
  }

  /** The decimal numeral of `n`, as `str(n)` writes it for `n >= 0`. */
  function Decimal(n: nat): (s: string)
    ensures |s| >= 1
    ensures forall k :: 0 <= k < |s| ==> IsDigit(s[k])
    ensures |s| > 1 ==> s[0] != '0'
    decreases n
  {
    if n < 10 then [DigitChar(n)] else Decimal(n / 10) + [DigitChar(n % 10)]
  }

  /** The number a string of decimal digits denotes (the reading `int(s)` does). */
  function NumeralValue(s: string): nat
    requires forall k :: 0 <= k < |s| ==> IsDigit(s[k])
  {
    if |s| == 0 then 0
    else NumeralValue(s[..|s| - 1]) * 10 + DigitValue(s[|s| - 1])
  }

  function DigitValue(c: char): nat
    requires IsDigit(c)
  {
    c as int - '0' as int
  }

  /** Python's `str(v)`: strings as they are, integers in decimal with a leading
      minus sign when negative, booleans as `True`/`False`, None as `None`. */
  function Render(v: Value): string {
    match v
    case Str(s) => s
    case Int(i) => if i < 0 then "-" + Decimal(-i) else Decimal(i)
    case Bool(b) => if b then "True" else "False"
    case Empty => "None"
  }

  /** An integer's text starts with a minus sign exactly when it is negative;
      every other character is a decimal digit. */
  lemma RenderInt(i: int)
    ensures var r := Render(Int(i));
      && |r| >= 1 && (r[0] == '-' <==> i < 0)
      && forall k :: (if i < 0 then 1 else 0) <= k < |r| ==> IsDigit(r[k])
  {
    if i < 0 {
      var r := Render(Int(i));
      assert forall k :: 1 <= k < |r| ==> r[k] == Decimal(-i)[k - 1];
    }
  }

  /** Reading back the decimal rendering of a natural number gives the number. */
  lemma {:induction false} DecimalRoundTrip(n: nat)
    ensures NumeralValue(Decimal(n)) == n
    decreases n
  {
    if n >= 10 {
      DecimalRoundTrip(n / 10);
      var s := Decimal(n / 10) + [DigitChar(n % 10)];
      assert s[..|s| - 1] == Decimal(n / 10);
    }
  }

  /** The rendering of an integer determines the integer. */
  lemma RenderIntInjective(i: int, j: int)
    requires Render(Int(i)) == Render(Int(j))
    ensures i == j
  {
    if i < 0 && j < 0 {
      assert Decimal(-i) == Render(Int(i))[1..];
      DecimalRoundTrip(-i);
      DecimalRoundTrip(-j);
    } else if i >= 0 && j >= 0 {
      DecimalRoundTrip(i);
      DecimalRoundTrip(j);
    }
  }
}

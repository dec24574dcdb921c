/**
 * Decimal numerals: how pandas' integer column labels print (`str(i)`) and
 * how Python's `int(s)` reads a base-10 literal.
 */
module Numbers {
  import opened Wrappers
  import opened Text

  function DigitValue(c: char): nat
    requires IsDigit(c)
  {
    c as int - '0' as int
  }

  function DigitChar(d: nat): (c: char)
    requires d < 10
    ensures IsDigit(c) && DigitValue(c) == d
  {
    ('0' as int + d) as char
  }

  predicate AllDigits(s: string)
  {
    forall i :: 0 <= i < |s| ==> IsDigit(s[i])
  }

  /** The value of a string of decimal digits, most significant first. */
  function DigitsValue(s: string): nat
    requires AllDigits(s)
  {
    if |s| == 0 then 0 else 10 * DigitsValue(s[..|s| - 1]) + DigitValue(s[|s| - 1])
  }

  /** `str(n)` for a non-negative integer. */
  function Decimal(n: nat): (r: string)
    ensures |r| > 0 && AllDigits(r)
  {
    if n < 10 then [DigitChar(n)] else Decimal(n / 10) + [DigitChar(n % 10)]
  }

  lemma {:induction false} DecimalValue(n: nat)
    ensures DigitsValue(Decimal(n)) == n
    decreases n
  {
    var r := Decimal(n);
    if n >= 10 {
      DecimalValue(n / 10);
      assert r[..|r| - 1] == Decimal(n / 10);
    }
  }

  /** Digit groups joined by single underscores, as in `1_000`. */
  predicate IsDigitGroups(s: string)
  {
    && |s| > 0 && IsDigit(s[0]) && IsDigit(s[|s| - 1])
    && (forall i :: 0 <= i < |s| ==> IsDigit(s[i]) || s[i] == '_')
    && (forall i :: 0 <= i < |s| - 1 ==> s[i] != '_' || s[i + 1] != '_')
  }

  /**
   * Python's `int(s)` in base 10: surrounding whitespace, an optional sign,
   * and digit groups; `None` stands for the `ValueError`.
   */
  function ParseInt(s: string): Option<int>
  {
    var t := Trim(s);
    if |t| > 0 && (t[0] == '+' || t[0] == '-') then
      if IsDigitGroups(t[1..]) then
        RemoveUnderscores(t[1..]);
        var v: int := DigitsValue(Remove(t[1..], '_'));
        Some(if t[0] == '-' then -v else v)
      else None
    else if IsDigitGroups(t) then
      RemoveUnderscores(t);
      Some(DigitsValue(Remove(t, '_')))
    else None
  }

  lemma {:induction false} RemoveUnderscores(s: string)
    requires forall i :: 0 <= i < |s| ==> IsDigit(s[i]) || s[i] == '_'
    ensures AllDigits(Remove(s, '_'))
    decreases |s|
  {
    if |s| > 0 {
      RemoveUnderscores(s[1..]);
    }
  }

  /** Round trip: `int(str(n)) == n`. */
  lemma DecimalRoundTrip(n: nat)
    ensures ParseInt(Decimal(n)) == Some(n)
  {
    var r := Decimal(n);
    assert !IsSpace(r[0]) && !IsSpace(r[|r| - 1]);
    TrimOfTrimmed(r);
    assert r[0] != '+' && r[0] != '-';
    assert '_' !in r;
    assert IsDigitGroups(r);
    RemoveAbsent(r, '_');
    DecimalValue(n);
  }

  /** Text ending in a letter is not an integer: `int("3A")` raises. */
  lemma LetterEndNotInt(s: string)
    requires s != [] && IsLetter(s[|s| - 1])
    ensures ParseInt(s) == None
  {
    var i := TrimSlice(s);
    var t := Trim(s);
    assert !IsSpace(s[|s| - 1]);
    assert i + |t| == |s|;
    assert t != [] && t[|t| - 1] == s[|s| - 1];
  }

  // ---------------------------------------------------------------------------
  // Proof helpers
  // ---------------------------------------------------------------------------

  /*
   * Two facts of integer arithmetic, used where a float threshold is
   * written as a cross-multiplication; they state no property of the package.
   */

  lemma MulMono(a: int, b: int, n: nat)
    requires a <= b
    ensures a * n <= b * n
  {
  }

  lemma MulPos(a: int, b: int)
    requires a > 0 && b > 0
    ensures a * b > 0
  {
  }
}

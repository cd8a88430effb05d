/** A concrete reader for the plain decimal numerals Python's `float()` and
    `int()` accept: surrounding whitespace, an optional sign, digits, and for
    `float()` an optional fractional part. The core takes its number readers
    as parameters; this module is the instance the round-trip properties and
    the worked examples in `Worked` use. */
module Decimal {
  import opened Wrappers
  import opened Text

  /** How many digits `t` starts with. */
  function LeadingDigits(t: string): (n: nat)
    ensures n <= |t| && AllDigits(t[..n])
    ensures n == |t| || !IsDigit(t[n])
  {
    if |t| > 0 && IsDigit(t[0]) then
      var m := LeadingDigits(t[1..]);
      assert t[..m + 1] == [t[0]] + t[1..][..m];
      m + 1
    else 0
  }

  /** The value of the digits after a decimal point: `0.d1 d2 d3 ...`. */
  function FracValue(f: string): (v: real)
    requires AllDigits(f)
    ensures 0.0 <= v <= 1.0
  {
    if f == [] then 0.0
    else (DigitValue(f[0]) as real + FracValue(f[1..])) / 10.0
  }

  /** An unsigned numeral `ddd`, `ddd.`, `ddd.ddd` or `.ddd`, with at least
      one digit. */
  function ReadUnsigned(t: string): (r: Option<real>)
    ensures r.Some? ==> r.value >= 0.0
    ensures r.Some? ==> t != [] && (IsDigit(t[0]) || t[0] == '.')
  {
    var n := LeadingDigits(t);
    var whole := DigitsValue(t[..n]) as real;
    if n == |t| then
      if n == 0 then None else Some(whole)
    else if t[n] != '.' then None
    else
      var f := t[n + 1..];
      if !AllDigits(f) || (n == 0 && f == []) then None
      else Some(whole + FracValue(f))
  }

  /** A numeral with an optional `+` or `-` sign in front. */
  function ReadSignedNumeral(t: string): (r: Option<real>)
    ensures r.Some? ==> t != []
  {
    if |t| > 0 && (t[0] == '+' || t[0] == '-') then
      match ReadUnsigned(t[1..])
      case None => None
      case Some(v) => Some(if t[0] == '-' then -v else v)
    else ReadUnsigned(t)
  }

  /** `float(s)` restricted to plain decimal numerals: whitespace around the
      numeral is ignored. */
  function ReadDecimal(s: string): (r: Option<real>)
    ensures r.Some? ==> Strip(s) != []
  {
    ReadSignedNumeral(Strip(s))
  }

  /** `int(s)` restricted to plain decimal numerals. */
  function ReadInteger(s: string): (r: Option<int>)
    ensures r.Some? ==> Strip(s) != []
  {
    var t := Strip(s);
    var signed := |t| > 0 && (t[0] == '+' || t[0] == '-');
    var body := if signed then t[1..] else t;
    if body == [] || !AllDigits(body) then None
    else
      var v: int := DigitsValue(body);
      Some(if signed && t[0] == '-' then -v else v)
  }

  /** Two fraction digits read back as hundredths. */
  lemma TwoDigitsFraction(d: nat)
    requires d < 100
    ensures FracValue(TwoDigits(d)) == d as real / 100.0
  {
    var f := TwoDigits(d);
    var hi := (d / 10) as real;
    var lo := (d % 10) as real;
    assert f[1..][1..] == [];
    assert DigitValue(f[0]) == d / 10 && DigitValue(f[1]) == d % 10;
    assert FracValue(f[1..]) == lo / 10.0 by {
      assert f[1..][0] == f[1];
    }
    assert FracValue(f) == (hi + lo / 10.0) / 10.0;
    assert d as real == 10.0 * hi + lo;
  }

  /** Digits, a point and two digits read back as the number of hundredths
      they spell. */
  lemma ReadUnsignedFixedTwo(q: nat, d: nat)
    requires d < 100
    ensures var r := ReadUnsigned(Digits(q) + "." + TwoDigits(d));
      r.Some? && r.value == q as real + d as real / 100.0
  {
    var D := Digits(q);
    var F := TwoDigits(d);
    var u := D + "." + F;
    assert LeadingDigits(u) == |D| by {
      assert u[|D|] == '.';
      assert u[..|D|] == D;
    }
    assert u[..|D|] == D;
    assert u[|D| + 1..] == F;
    TwoDigitsFraction(d);
  }

  /** Such a numeral starts and ends with a digit, so there is nothing to
      strip and no sign. */
  lemma FixedTwoEnds(q: nat, d: nat)
    requires d < 100
    ensures var u := Digits(q) + "." + TwoDigits(d);
      IsDigit(u[0]) && IsDigit(u[|u| - 1])
  {
    var D := Digits(q);
    var F := TwoDigits(d);
    var u := D + "." + F;
    assert u[0] == D[0];
    assert u[|u| - 1] == F[1];
  }

  /** A numeral that starts and ends with a digit is read as it stands. */
  lemma ReadPlain(u: string)
    requires u != [] && IsDigit(u[0]) && IsDigit(u[|u| - 1])
    ensures ReadDecimal(u) == ReadUnsigned(u)
  {
    StripUnchanged(u);
  }

  /** Behind a minus sign, the same numeral reads as its negation. */
  lemma ReadSigned(u: string)
    requires u != [] && IsDigit(u[0]) && IsDigit(u[|u| - 1])
    requires ReadUnsigned(u).Some?
    ensures ReadDecimal("-" + u).Some?
    ensures ReadDecimal("-" + u).value == -ReadUnsigned(u).value
  {
    var t := "-" + u;
    assert t[0] == '-' && t[|t| - 1] == u[|u| - 1];
    StripUnchanged(t);
    assert t[1..] == u;
  }

  /** `float()` reads `ddd.dd` as its number of hundredths. */
  lemma ReadFixedTwo(q: nat, d: nat)
    requires d < 100
    ensures var r := ReadDecimal(Digits(q) + "." + TwoDigits(d));
      r.Some? && r.value == q as real + d as real / 100.0
  {
    ReadUnsignedFixedTwo(q, d);
    FixedTwoEnds(q, d);
    ReadPlain(Digits(q) + "." + TwoDigits(d));
  }

  /** `float()` reads `-ddd.dd` as minus its number of hundredths. */
  lemma ReadNegativeFixedTwo(q: nat, d: nat)
    requires d < 100
    ensures var r := ReadDecimal("-" + (Digits(q) + "." + TwoDigits(d)));
      r.Some? && r.value == -(q as real + d as real / 100.0)
  {
    ReadUnsignedFixedTwo(q, d);
    FixedTwoEnds(q, d);
    ReadSigned(Digits(q) + "." + TwoDigits(d));
  }

  /** A single digit, a point and a single digit: `q.d`. */
  lemma ReadOneDecimal(q: nat, d: nat)
    requires q < 10 && d < 10
    ensures ReadDecimal([DigitChar(q), '.', DigitChar(d)]) == Some(q as real + d as real / 10.0)
  {
    var u := [DigitChar(q), '.', DigitChar(d)];
    StripUnchanged(u);
    assert LeadingDigits(u) == 1 by {
      assert u[1..] == ['.', DigitChar(d)];
      assert LeadingDigits(u[1..]) == 0;
    }
    assert u[..1] == [DigitChar(q)] && u[2..] == [DigitChar(d)];
    assert DigitsValue([DigitChar(q)]) == q by {
      assert [DigitChar(q)][..0] == [];
    }
    assert FracValue([DigitChar(d)]) == d as real / 10.0 by {
      assert [DigitChar(d)][1..] == [];
    }
  }

  /** `int(str(n))` is `n`. */
  lemma ReadDigits(n: nat)
    ensures ReadInteger(Digits(n)).Some?
    ensures ReadInteger(Digits(n)).value == n
  {
    var D := Digits(n);
    assert IsDigit(D[0]) && IsDigit(D[|D| - 1]);
    StripUnchanged(D);
  }
}

/** Currency text: `parse_currency` and `format_currency` of
    SubscriptionCalculator.py, plus the `.2f` percent rendering the tables use.
    Money is a `real`; rendering goes through a whole number of cents. */
module Currency {
  import opened Wrappers
  import opened Text
  import Decimal

  /** Python's `float()` on a string: a number, or `None` where it raises
      `ValueError`. The model takes it as a parameter. */
  type FloatReader = string -> Option<real>

  /** The text shown in a fresh manual-entry field and in the base field. */
  const Placeholder: string := "$0.00"

  /** Every `$` and `,` deleted, then surrounding whitespace trimmed. */
  function Clean(s: string): (r: string)
    ensures '$' !in r && ',' !in r
    ensures r == [] || (!IsSpace(r[0]) && !IsSpace(r[|r| - 1]))
  {
    var u := RemoveAll(s, '$');
    var t := RemoveAll(u, ',');
    assert '$' !in t by {
      RemoveAllMembers(u, ',', '$');
    }
    StripKeepsAbsent(t, '$');
    StripKeepsAbsent(t, ',');
    Strip(t)
  }

  /** Every character other than `$`, `,` and whitespace survives cleaning,
      and cleaning brings in no new one. */
  lemma CleanKeeps(s: string, x: char)
    requires x != '$' && x != ',' && !IsSpace(x)
    ensures x in Clean(s) <==> x in s
  {
    var u := RemoveAll(s, '$');
    var t := RemoveAll(u, ',');
    assert Clean(s) == Strip(t);
    StripKeepsNonSpace(t, x);
    RemoveAllMembers(u, ',', x);
    RemoveAllMembers(s, '$', x);
  }

  /** The text with every `$` and then every `,` deleted. */
  function Unmarked(s: string): string {
    RemoveAll(RemoveAll(s, '$'), ',')
  }

  /** The cleaned text is a contiguous part of the text with every `$` and
      `,` deleted, and only whitespace is dropped around it. So the
      characters `float()` sees are the ones typed, in the order typed. */
  lemma CleanIsTrimmed(s: string)
    ensures exists i: nat, j: nat ::
      && i <= j <= |Unmarked(s)|
      && Clean(s) == Unmarked(s)[i..j]
      && AllSpace(Unmarked(s)[..i]) && AllSpace(Unmarked(s)[j..])
  {
    var t := Unmarked(s);
    assert Clean(s) == Strip(t);
    StripSlice(t);
  }

  /** Text made only of `$`, `,` and whitespace: what cleans to nothing. */
  predicate Blank(s: string) {
    forall k | 0 <= k < |s| :: s[k] == '$' || s[k] == ',' || IsSpace(s[k])
  }

  /** Cleaning leaves nothing exactly when the text is blank. */
  lemma CleanEmptyIffBlank(s: string)
    ensures Clean(s) == [] <==> Blank(s)
  {
    if Blank(s) {
      BlankCleansToNothing(s);
    }
    if Clean(s) == [] {
      NothingLeftIsBlank(s);
    }
  }

  lemma BlankCleansToNothing(s: string)
    requires Blank(s)
    ensures Clean(s) == []
  {
    var u := RemoveAll(s, '$');
    var t := RemoveAll(u, ',');
    forall k | 0 <= k < |t| ensures IsSpace(t[k]) {
      var x := t[k];
      assert x in t;
      RemoveAllMembers(u, ',', x);
      RemoveAllMembers(s, '$', x);
      var j :| 0 <= j < |s| && s[j] == x;
    }
    StripAllSpace(t);
  }

  lemma NothingLeftIsBlank(s: string)
    requires Clean(s) == []
    ensures Blank(s)
  {
    var u := RemoveAll(s, '$');
    var t := RemoveAll(u, ',');
    StripEmptyIsSpace(t);
    forall k | 0 <= k < |s| ensures s[k] == '$' || s[k] == ',' || IsSpace(s[k]) {
      var x := s[k];
      if x != '$' && x != ',' {
        assert x in s;
        RemoveAllMembers(s, '$', x);
        RemoveAllMembers(u, ',', x);
        var j :| 0 <= j < |t| && t[j] == x;
      }
    }
  }

  /** Cleaning is idempotent. */
  lemma CleanIdempotent(s: string)
    ensures Clean(Clean(s)) == Clean(s)
  {
  }

  /** `parse_currency`: the cleaned text, with nothing left meaning 0. */
  function ParseCurrency(read: FloatReader, s: string): (r: Option<real>)
    ensures Blank(s) ==> r == Some(0.0)
    ensures !Blank(s) ==> Clean(s) != [] && r == read(Clean(s))
  {
    var c := Clean(s);
    CleanEmptyIffBlank(s);
    if c == [] then Some(0.0) else read(c)
  }

  /** Parsing already-cleaned text gives the same answer. */
  lemma ParseIgnoresCleaning(read: FloatReader, s: string)
    ensures ParseCurrency(read, Clean(s)) == ParseCurrency(read, s)
  {
    CleanIdempotent(s);
    CleanEmptyIffBlank(s);
    CleanEmptyIffBlank(Clean(s));
  }

  function Abs(x: real): real {
    if x < 0.0 then -x else x
  }

  /** The whole number of cents `.2f` shows for `x`: the nearest one, and
      on a tie the even one. */
  function RoundCents(x: real): (r: int)
    ensures -0.5 <= x * 100.0 - r as real <= 0.5
    ensures Abs(x * 100.0 - r as real) == 0.5 ==> r % 2 == 0
    ensures x >= 0.0 ==> r >= 0
  {
    var y := x * 100.0;
    var f := y.Floor;
    var d := y - f as real;
    if d < 0.5 then f
    else if d > 0.5 then f + 1
    else if f % 2 == 0 then f
    else f + 1
  }

  /** Rounding is symmetric around zero, so a negative amount shows the same
      digits as its magnitude. */
  lemma RoundCentsNegate(x: real)
    ensures RoundCents(-x) == -RoundCents(x)
  {
  }

  /** A whole number of cents is shown as itself. */
  lemma RoundCentsExact(c: int)
    ensures RoundCents(c as real / 100.0) == c
  {
  }

  function SignText(neg: bool): string {
    if neg then "-" else ""
  }

  /** `n` cents as plain units, a point and two digits: `1234.56`. */
  function Numeral(cents: nat): string {
    Digits(cents / 100) + "." + TwoDigits(cents % 100)
  }

  /** `n` cents as grouped units, a point and two digits: `1,234.56`. */
  function AmountText(cents: nat): string {
    Group(Digits(cents / 100)) + "." + TwoDigits(cents % 100)
  }

  /** `$`, the sign, then the amount. */
  function MoneyText(neg: bool, cents: nat): string {
    "$" + SignText(neg) + AmountText(cents)
  }

  /** `format_currency` applied to a whole number of cents. */
  function FormatCents(c: int): string {
    MoneyText(c < 0, if c < 0 then -c else c)
  }

  /** `format_currency`: the sign comes from the amount itself, so an amount
      just below zero shows as `$-0.00`, as Python renders it. */
  function FormatCurrency(x: real): (r: string)
    ensures |r| >= 5 && r[0] == '$' && r[|r| - 3] == '.'
    ensures r[1] == '-' <==> x < 0.0
  {
    var a := AmountText(RoundCents(Abs(x)));
    assert IsDigit(a[0]) && a[|a| - 3] == '.';
    MoneyText(x < 0.0, RoundCents(Abs(x)))
  }

  /** `format_currency` renders the rounded cents of the amount, except that
      a negative amount too small to show a cent keeps its sign: `$-0.00`. */
  lemma FormatCurrencyCents(x: real)
    ensures RoundCents(x) != 0 || x >= 0.0 ==> FormatCurrency(x) == FormatCents(RoundCents(x))
    ensures RoundCents(x) == 0 && x < 0.0 ==> FormatCurrency(x) == "$-0.00"
  {
    RoundedMagnitude(x);
    NegativeZeroText();
  }

  /** A negative amount rounds to cents that are not positive, and its
      magnitude rounds to their magnitude. */
  lemma RoundedMagnitude(x: real)
    ensures x < 0.0 ==> RoundCents(x) <= 0 && RoundCents(Abs(x)) == -RoundCents(x)
    ensures x >= 0.0 ==> RoundCents(Abs(x)) == RoundCents(x)
  {
    RoundCentsNegate(x);
  }

  /** The text of a negative amount that rounds to zero cents. */
  lemma NegativeZeroText()
    ensures MoneyText(true, 0) == "$-0.00"
  {
    ZeroText();
    assert AmountText(0) == "0.00";
  }

  /** A percent with two decimals and a `%` sign: the sign, the units without
      grouping, a point, two digits, then `%`. */
  function FormatPercent(x: real): (r: string)
    ensures |r| >= 5 && r[|r| - 1] == '%' && r[|r| - 4] == '.'
    ensures r[0] == '-' <==> x < 0.0
  {
    var n := Numeral(RoundCents(Abs(x)));
    assert IsDigit(n[0]) && n[|n| - 3] == '.';
    SignText(x < 0.0) + n + "%"
  }

  /** An amount laid out as `format_currency` lays it out: units grouped in
      threes by `,` with a non-empty leading group and no leading zero unless
      the units are just `0`, a `.`, exactly two digits, and the digits
      together spell `cents`. */
  predicate AmountShaped(a: string, cents: nat) {
    && |a| >= 4
    && (a[0] == '0' ==> |a| == 4)
    && a[|a| - 3] == '.'
    && AllDigits(a[|a| - 2..])
    && GroupedInThrees(a[..|a| - 3])
    && |a[..|a| - 3]| % 4 != 0
    && AllDigits(RemoveAll(a[..|a| - 3], ','))
    && DigitsValue(RemoveAll(a[..|a| - 3], ',')) * 100 + DigitsValue(a[|a| - 2..]) == cents
  }

  lemma AmountTextShaped(cents: nat)
    ensures AmountShaped(AmountText(cents), cents)
    ensures IsDigit(AmountText(cents)[0])
  {
    var D := Digits(cents / 100);
    var G := Group(D);
    var F := TwoDigits(cents % 100);
    var a := AmountText(cents);
    assert a[..|a| - 3] == G;
    assert a[|a| - 2..] == F;
    assert a[0] == G[0];
    assert (|G| - 0) % 4 != 0;
    GroupHead(D);
  }

  /** On a whole number of cents the two renderings agree: `format_currency`
      of `c / 100` is the rendering of `c` cents. */
  lemma FormatCentsIsFormatCurrency(c: int)
    ensures FormatCurrency(c as real / 100.0) == FormatCents(c)
  {
    WholeCents(c);
  }

  /** `c / 100` has the sign of `c` and rounds to `|c|` cents in magnitude. */
  lemma WholeCents(c: int)
    ensures (c as real / 100.0 < 0.0) == (c < 0)
    ensures RoundCents(Abs(c as real / 100.0)) == if c < 0 then -c else c
  {
    var a := if c < 0 then -c else c;
    assert Abs(c as real / 100.0) == a as real / 100.0;
    RoundCentsExact(a);
  }

  /** The layout `format_currency` produces for whole cents: a `$`, a `-`
      exactly for a negative amount, then the amount's magnitude laid out in
      grouped units and two fraction digits. */
  lemma FormatCentsShape(c: int)
    ensures var r := FormatCents(c);
      var m := if c < 0 then 2 else 1;
      && |r| > m
      && r[0] == '$'
      && (r[1] == '-' <==> c < 0)
      && AmountShaped(r[m..], if c < 0 then -c else c)
    ensures FormatCurrency(c as real / 100.0) == FormatCents(c)
  {
    FormatCentsIsFormatCurrency(c);
    var a := if c < 0 then -c else c;
    var A := AmountText(a);
    var r := FormatCents(c);
    var m := if c < 0 then 2 else 1;
    AmountTextShaped(a);
    assert r[m..] == A;
    assert r[m] == A[0];
  }

  /** Deleting `$` from a rendered amount leaves the sign and the amount. */
  lemma DropDollar(neg: bool, cents: nat)
    ensures RemoveAll(MoneyText(neg, cents), '$') == SignText(neg) + AmountText(cents)
  {
  }

  /** Deleting `,` from the sign and the amount ungroups the units. */
  lemma DropCommas(neg: bool, cents: nat)
    ensures RemoveAll(SignText(neg) + AmountText(cents), ',') == SignText(neg) + Numeral(cents)
  {
    var D := Digits(cents / 100);
    var G := Group(D);
    var F := TwoDigits(cents % 100);
    var point: string := ".";
    NoCommaInDigits(F);
    RemoveAllAppend(SignText(neg), AmountText(cents), ',');
    RemoveAllAppend(G + point, F, ',');
    RemoveAllAppend(G, point, ',');
  }

  /** The plain numeral behind an optional `-` has nothing to strip. */
  lemma SignedNumeralStripped(neg: bool, cents: nat)
    ensures Strip(SignText(neg) + Numeral(cents)) == SignText(neg) + Numeral(cents)
  {
  }

  /** Cleaning a rendered amount leaves the sign and the plain numeral. */
  lemma CleanMoneyText(neg: bool, cents: nat)
    ensures Clean(MoneyText(neg, cents)) == SignText(neg) + Numeral(cents)
  {
    DropDollar(neg, cents);
    DropCommas(neg, cents);
    SignedNumeralStripped(neg, cents);
  }

  lemma HundredthsSplit(cents: nat)
    ensures cents as real / 100.0 == (cents / 100) as real + (cents % 100) as real / 100.0
  {
  }

  /** `float()` reads the sign and plain numeral back as the signed number of
      cents over 100. */
  lemma ReadSignedNumeral(neg: bool, cents: nat)
    ensures var p := Decimal.ReadDecimal(SignText(neg) + Numeral(cents));
      && p.Some?
      && p.value == (if neg then -(cents as real) else cents as real) / 100.0
  {
    HundredthsSplit(cents);
    if neg {
      Decimal.ReadNegativeFixedTwo(cents / 100, cents % 100);
    } else {
      assert SignText(neg) + Numeral(cents) == Numeral(cents);
      Decimal.ReadFixedTwo(cents / 100, cents % 100);
    }
  }

  /** Reading a rendered amount back gives its signed number of cents over 100. */
  lemma MoneyTextRoundTrip(neg: bool, cents: nat)
    ensures var p := ParseCurrency(Decimal.ReadDecimal, MoneyText(neg, cents));
      && p.Some?
      && p.value == (if neg then -(cents as real) else cents as real) / 100.0
  {
    CleanMoneyText(neg, cents);
    ReadSignedNumeral(neg, cents);
  }

  /** `parse_currency(format_currency(c / 100))` is `c / 100` for every whole
      number of cents `c`. */
  lemma FormatCentsRoundTrip(c: int)
    ensures var p := ParseCurrency(Decimal.ReadDecimal, FormatCents(c));
      p.Some? && p.value == c as real / 100.0
    ensures FormatCurrency(c as real / 100.0) == FormatCents(c)
  {
    FormatCentsIsFormatCurrency(c);
    MoneyTextRoundTrip(c < 0, if c < 0 then -c else c);
  }

  /** Every amount reads back as its rounded number of cents over 100, which
      is within half a cent of it. */
  lemma FormatCurrencyRoundTrip(x: real)
    ensures var p := ParseCurrency(Decimal.ReadDecimal, FormatCurrency(x));
      p.Some? && p.value == RoundCents(x) as real / 100.0
    ensures -0.005 <= x - RoundCents(x) as real / 100.0 <= 0.005
  {
    var a := RoundCents(Abs(x));
    MoneyTextRoundTrip(x < 0.0, a);
    if x < 0.0 {
      RoundCentsNegate(x);
      assert a == -RoundCents(x);
    }
  }

  /** The placeholder is the rendering of zero and reads back as zero. */
  lemma PlaceholderIsZero()
    ensures FormatCents(0) == Placeholder && FormatCurrency(0.0) == Placeholder
    ensures ParseCurrency(Decimal.ReadDecimal, Placeholder).Some?
    ensures ParseCurrency(Decimal.ReadDecimal, Placeholder).value == 0.0
  {
    ZeroText();
    FormatCentsRoundTrip(0);
    assert 0 as real / 100.0 == 0.0;
  }

  lemma ZeroText()
    ensures FormatCents(0) == Placeholder
  {
  }

  /** A rendered percent ends in `%`, and the numeral before it reads back as
      the rounded hundredths of the percent. */
  lemma FormatPercentRoundTrip(x: real)
    ensures var p := FormatPercent(x);
      && p != [] && p[|p| - 1] == '%'
      && Decimal.ReadDecimal(p[..|p| - 1]).Some?
      && Decimal.ReadDecimal(p[..|p| - 1]).value == RoundCents(x) as real / 100.0
  {
    var n := RoundCents(Abs(x));
    var p := FormatPercent(x);
    assert p[..|p| - 1] == SignText(x < 0.0) + Numeral(n);
    ReadSignedNumeral(x < 0.0, n);
    if x < 0.0 {
      RoundCentsNegate(x);
    }
  }
}

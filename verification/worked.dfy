/** Worked examples on concrete texts, read with the plain-numeral readers:
    one amount through `format_currency` and back through `parse_currency`,
    the fields the settings panel starts with, and the CSV header built from
    the years field. */
module Worked {
  import opened Wrappers
  import opened Text
  import opened Currency
  import opened Projection
  import opened Export
  import Decimal

  /** 1234.5 is shown with a thousands separator and two decimals. */
  lemma FormatThousands()
    ensures FormatCurrency(1234.5) == "$1,234.50"
  {
    assert 1234.5 == 123450 as real / 100.0;
    FormatCentsIsFormatCurrency(123450);
    UnsignedCents(123450);
    AmountThousands();
    DollarPrefix(AmountText(123450));
  }

  /** A non-negative number of cents has no sign after the `$`. */
  lemma UnsignedCents(c: nat)
    ensures FormatCents(c) == "$" + AmountText(c)
  {
    assert SignText(false) == "";
  }

  lemma DollarPrefix(a: string)
    requires a == "1,234.50"
    ensures "$" + a == "$1,234.50"
  {
  }

  lemma AmountThousands()
    ensures AmountText(123450) == "1,234.50"
  {
    assert 123450 / 100 == 1234 && 123450 % 100 == 50;
    DigitsThousands();
    GroupThousands();
    assert TwoDigits(50) == "50";
  }

  lemma DigitsThousands()
    ensures Digits(1234) == "1234"
  {
    assert Digits(1) == "1";
    assert Digits(12) == "12";
    assert Digits(123) == "123";
  }

  lemma GroupThousands()
    ensures Group("1234") == "1,234"
  {
    var ds := "1234";
    assert ds[..1] == "1" && ds[1..] == "234";
    assert Group("1") == "1";
  }

  /** ... and `parse_currency` reads it back, dropping the `$` and the `,`. */
  lemma ParseThousands()
    ensures ParseCurrency(Decimal.ReadDecimal, "$1,234.50") == Some(1234.5)
  {
    FormatThousands();
    FormatCentsRoundTrip(123450);
  }

  /** The texts the settings panel starts with. */
  function Defaults(): (i: AutoInputs)
    ensures i.base == Placeholder
  {
    AutoInputs("$0.00", "0.5", "3.0", "0.5", "3")
  }

  /** The starting fields are accepted: a base of 0, percents from 0.5 to
      3.0 in steps of 0.5, over 3 years. */
  lemma DefaultsAccepted()
    ensures Validate(Decimal.ReadDecimal, Decimal.ReadInteger, Defaults())
      == Success(Settings(0.0, 0.5, 3.0, 0.5, 3))
  {
    PlaceholderIsZero();
    ReadHalf();
    ReadThree();
    ReadYears();
    ValidateAccepts(Decimal.ReadDecimal, Decimal.ReadInteger, Defaults(), Settings(0.0, 0.5, 3.0, 0.5, 3));
  }

  /** The starting fields give the header and six rows, one for each of
      0.5, 1.0, ..., 3.0 percent. */
  lemma DefaultTableSize()
    ensures |AutoGrid(Decimal.ReadDecimal, Decimal.ReadInteger, Defaults())| == 7
  {
    DefaultsAccepted();
    GridSize(Decimal.ReadDecimal, Decimal.ReadInteger, Defaults());
    DefaultSteps();
  }

  lemma DefaultSteps()
    ensures StepsLeft(0.5, 3.0 + Tolerance, 0.5) == 6
  {
    assert (3.0 + Tolerance - 0.5) / 0.5 == 5.000002;
  }

  /** The tolerance decides the last row when the end falls just short of
      a step: from 0 to 0.9999995 in steps of 1, the percent 1 is still
      swept, and without the tolerance it would not be. */
  lemma ToleranceAdmitsRow()
    ensures Sweep(0.0, 0.9999995 + Tolerance, 1.0) == [0.0, 1.0]
    ensures Sweep(0.0, 0.9999995, 1.0) == [0.0]
  {
    assert Sweep(2.0, 0.9999995 + Tolerance, 1.0) == [];
    assert Sweep(1.0, 0.9999995, 1.0) == [];
  }

  lemma ReadHalf()
    ensures Decimal.ReadDecimal("0.5") == Some(0.5)
  {
    assert "0.5" == [DigitChar(0), '.', DigitChar(5)];
    Decimal.ReadOneDecimal(0, 5);
  }

  lemma ReadThree()
    ensures Decimal.ReadDecimal("3.0") == Some(3.0)
  {
    assert "3.0" == [DigitChar(3), '.', DigitChar(0)];
    Decimal.ReadOneDecimal(3, 0);
  }

  lemma ReadYears()
    ensures Decimal.ReadInteger("3") == Some(3)
  {
    Decimal.ReadDigits(3);
    assert Digits(3) == "3";
  }

  /** The CSV header follows whatever whole number the years field holds:
      `Year 1` to `Year n` between the fixed labels. */
  lemma HeaderFromYearsField(n: nat)
    ensures var h := ExportHeader(Decimal.ReadInteger, Digits(n));
      && |h| == n + 3
      && forall y | 1 <= y <= n :: h[y] == "Year " + Digits(y)
  {
    Decimal.ReadDigits(n);
  }

  /** A years field that is not a number gives a header with no year
      columns. */
  lemma HeaderFromText()
    ensures ExportHeader(Decimal.ReadInteger, "abc") == ["Percent Increase", "Total", "Average"]
  {
    assert !AllDigits("abc") by {
      assert !IsDigit("abc"[0]);
    }
  }
}

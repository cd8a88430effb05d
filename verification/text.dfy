/** Character-level text handling shared by parsing and rendering: Python's
    whitespace set and `str.strip()`, deletion of one character, decimal digit
    strings and thousands grouping. */
module Text {

  /** The characters Python's `str.isspace()` accepts; `str.strip()` with no
      argument removes exactly these from both ends. */
  predicate IsSpace(c: char) {
    || c == ' ' || c == '\t' || c == '\n' || c == '\r'
    || c == '\U{B}' || c == '\U{C}'
    || ('\U{1C}' <= c <= '\U{1F}')
    || c == '\U{85}' || c == '\U{A0}' || c == '\U{1680}'
    || ('\U{2000}' <= c <= '\U{200A}')
    || c == '\U{2028}' || c == '\U{2029}' || c == '\U{202F}'
    || c == '\U{205F}' || c == '\U{3000}'
  }

  predicate AllSpace(s: string) {
    forall k | 0 <= k < |s| :: IsSpace(s[k])
  }

  /** The first index at or after `i` that does not hold whitespace (or the
      length, when there is none). */
  function SkipSpace(s: string, i: nat): (n: nat)
    requires i <= |s|
    ensures i <= n <= |s|
    ensures forall k | i <= k < n :: IsSpace(s[k])
    ensures n == |s| || !IsSpace(s[n])
    decreases |s| - i
  {
    if i < |s| && IsSpace(s[i]) then SkipSpace(s, i + 1) else i
  }

  /** The end of `s[lo..j]` once trailing whitespace is dropped. */
  function SkipSpaceBack(s: string, lo: nat, j: nat): (n: nat)
    requires lo <= j <= |s|
    ensures lo <= n <= j
    ensures forall k | n <= k < j :: IsSpace(s[k])
    ensures n == lo || !IsSpace(s[n - 1])
  {
    if j > lo && IsSpace(s[j - 1]) then SkipSpaceBack(s, lo, j - 1) else j
  }

  /** Python's `str.strip()`: the slice of `s` left once whitespace is
      dropped from both ends; it neither starts nor ends with whitespace. */
  function Strip(s: string): (r: string)
    ensures r == [] || (!IsSpace(r[0]) && !IsSpace(r[|r| - 1]))
  {
    var i := SkipSpace(s, 0);
    var j := SkipSpaceBack(s, i, |s|);
    s[i..j]
  }

  /** `Strip` keeps a contiguous middle of `s` and drops only whitespace
      around it. */
  lemma StripSlice(s: string)
    ensures exists i, j | 0 <= i <= j <= |s| ::
      Strip(s) == s[i..j] && AllSpace(s[..i]) && AllSpace(s[j..])
  {
    var i := SkipSpace(s, 0);
    var j := SkipSpaceBack(s, i, |s|);
    forall k | 0 <= k < i ensures IsSpace(s[..i][k]) {
      assert s[..i][k] == s[k];
    }
    forall k | 0 <= k < |s| - j ensures IsSpace(s[j..][k]) {
      assert s[j..][k] == s[j + k];
    }
  }

  /** A character that is not whitespace is in the stripped text exactly
      when it is in the text. */
  lemma StripKeepsNonSpace(s: string, x: char)
    requires !IsSpace(x)
    ensures x in Strip(s) <==> x in s
  {
    StripSlice(s);
    var i, j :| 0 <= i <= j <= |s| && Strip(s) == s[i..j] && AllSpace(s[..i]) && AllSpace(s[j..]);
    forall k | 0 <= k < i ensures IsSpace(s[k]) {
      assert s[..i][k] == s[k];
    }
    forall k | j <= k < |s| ensures IsSpace(s[k]) {
      assert s[j..][k - j] == s[k];
    }
    if x in s {
      var k :| 0 <= k < |s| && s[k] == x;
      assert s[i..j][k - i] == x;
    }
  }

  /** Text whose ends are not whitespace is left alone by `Strip`. */
  lemma StripUnchanged(s: string)
    requires s == [] || (!IsSpace(s[0]) && !IsSpace(s[|s| - 1]))
    ensures Strip(s) == s
  {
  }

  /** Stripping never introduces a character. */
  lemma StripKeepsAbsent(s: string, c: char)
    requires c !in s
    ensures c !in Strip(s)
  {
  }

  /** Text that is all whitespace strips to nothing. */
  lemma StripAllSpace(s: string)
    requires AllSpace(s)
    ensures Strip(s) == []
  {
  }

  /** Text that strips to nothing is all whitespace. */
  lemma StripEmptyIsSpace(s: string)
    requires Strip(s) == []
    ensures AllSpace(s)
  {
  }

  /** Python's `s.replace(c, "")`: no `c` is left, and text without `c` is
      left alone. */
  function RemoveAll(s: string, c: char): (r: string)
    ensures c !in r
    ensures c !in s ==> r == s
  {
    if s == [] then []
    else
      assert s == [s[0]] + s[1..];
      (if s[0] == c then [] else [s[0]]) + RemoveAll(s[1..], c)
  }

  /** Every character other than `c` survives the deletion, and nothing else
      appears. */
  lemma {:induction false} RemoveAllMembers(s: string, c: char, x: char)
    ensures x in RemoveAll(s, c) <==> x in s && x != c
  {
    if s != [] {
      assert s == [s[0]] + s[1..];
      RemoveAllMembers(s[1..], c, x);
    }
  }

  /** Deletion distributes over concatenation, so it keeps the order of the
      characters that survive. */
  lemma {:induction false} RemoveAllAppend(a: string, b: string, c: char)
    ensures RemoveAll(a + b, c) == RemoveAll(a, c) + RemoveAll(b, c)
  {
    if a == [] {
      assert a + b == b;
    } else {
      var ab := a + b;
      assert ab[0] == a[0];
      assert ab[1..] == a[1..] + b;
      RemoveAllAppend(a[1..], b, c);
      var head := if a[0] == c then [] else [a[0]];
      calc {
        RemoveAll(ab, c);
        head + RemoveAll(ab[1..], c);
        head + (RemoveAll(a[1..], c) + RemoveAll(b, c));
        (head + RemoveAll(a[1..], c)) + RemoveAll(b, c);
        RemoveAll(a, c) + RemoveAll(b, c);
      }
    }
  }

  predicate IsDigit(c: char) {
    '0' <= c <= '9'
  }

  predicate AllDigits(s: string) {
    forall k | 0 <= k < |s| :: IsDigit(s[k])
  }

  function DigitChar(d: nat): (c: char)
    requires d < 10
    ensures IsDigit(c)
  {
    (48 + d) as char
  }

  function DigitValue(c: char): (d: nat)
    requires IsDigit(c)
    ensures d < 10 && DigitChar(d) == c
  {
    (c as int) - 48
  }

  /** The number a string of decimal digits denotes (most significant first). */
  function DigitsValue(ds: string): nat
    requires AllDigits(ds)
  {
    if ds == [] then 0
    else DigitsValue(ds[..|ds| - 1]) * 10 + DigitValue(ds[|ds| - 1])
  }

  /** Python's `str(n)` for a non-negative integer: decimal digits, no
      leading zero, denoting `n`. */
  function Digits(n: nat): (r: string)
    ensures |r| >= 1 && AllDigits(r)
    ensures r[0] == '0' ==> n == 0
    ensures DigitsValue(r) == n
  {
    if n < 10 then [DigitChar(n)]
    else
      var r := Digits(n / 10) + [DigitChar(n % 10)];
      assert r[..|r| - 1] == Digits(n / 10);
      r
  }

  /** Exactly two digits, as the `.2f` fraction of a number of cents. */
  function TwoDigits(n: nat): (r: string)
    requires n < 100
    ensures |r| == 2 && AllDigits(r)
    ensures DigitsValue(r) == n
  {
    var r := [DigitChar(n / 10), DigitChar(n % 10)];
    assert r[..1] == [DigitChar(n / 10)];
    assert DigitsValue(r[..1]) == n / 10 by {
      assert r[..1][..0] == [];
    }
    r
  }

  /** The `,` grouping of Python's format spec: a comma before every third
      digit counted from the right. In the result, position `k` holds a comma
      exactly when the distance to the end is a multiple of four, so the
      leading group is never empty, and deleting the commas gives back the
      digits. */
  function Group(ds: string): (r: string)
    requires AllDigits(ds)
    ensures RemoveAll(r, ',') == ds
    ensures GroupedInThrees(r)
    ensures ds != [] ==> |r| % 4 != 0
  {
    if |ds| <= 3 then
      NoCommaInDigits(ds);
      ds
    else
      var hi := ds[..|ds| - 3];
      var lo := ds[|ds| - 3..];
      assert ds == hi + lo;
      var p := Group(hi);
      GroupStep(p, lo);
      p + [','] + lo
  }

  /** Grouping keeps the first digit in front and never shortens. */
  lemma GroupHead(ds: string)
    requires AllDigits(ds) && ds != []
    ensures Group(ds)[0] == ds[0]
    ensures |Group(ds)| >= |ds|
  {
    if |ds| > 3 {
      GroupHead(ds[..|ds| - 3]);
    }
  }

  /** Commas sit exactly where the distance to the end is a multiple of four;
      everything else is a digit. */
  predicate GroupedInThrees(r: string) {
    forall k | 0 <= k < |r| :: (r[k] == ',' <==> (|r| - k) % 4 == 0) && (r[k] == ',' || IsDigit(r[k]))
  }

  lemma NoCommaInDigits(ds: string)
    requires AllDigits(ds)
    ensures ',' !in ds
  {
  }

  /** Appending a comma and a group of three digits keeps the grouping. */
  lemma GroupStep(p: string, lo: string)
    requires GroupedInThrees(p) && |p| % 4 != 0
    requires |lo| == 3 && AllDigits(lo)
    ensures GroupedInThrees(p + [','] + lo)
    ensures RemoveAll(p + [','] + lo, ',') == RemoveAll(p, ',') + lo
    ensures |p + [','] + lo| % 4 != 0
  {
    GroupStepRemove(p, lo);
    var r := p + [','] + lo;
    assert |r| == |p| + 4;
    forall k | 0 <= k < |r|
      ensures (r[k] == ',' <==> (|r| - k) % 4 == 0) && (r[k] == ',' || IsDigit(r[k]))
    {
      if k < |p| {
        assert r[k] == p[k];
        ShiftByFour(|p| - k);
      } else if k > |p| {
        assert r[k] == lo[k - |p| - 1];
        assert 1 <= |r| - k <= 3;
      }
    }
    ShiftByFour(|p|);
  }

  lemma ShiftByFour(a: int)
    ensures (a + 4) % 4 == a % 4
  {
  }

  lemma GroupStepRemove(p: string, lo: string)
    requires AllDigits(lo)
    ensures RemoveAll(p + [','] + lo, ',') == RemoveAll(p, ',') + lo
  {
    var comma: string := [','];
    NoCommaInDigits(lo);
    assert RemoveAll(lo, ',') == lo;
    assert RemoveAll(comma, ',') == [] by {
      assert comma[1..] == [];
    }
    RemoveAllAppend(p, comma, ',');
    assert RemoveAll(p + comma, ',') == RemoveAll(p, ',');
    RemoveAllAppend(p + comma, lo, ',');
  }
}

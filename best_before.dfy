/** The best-before date printed on a certificate: the production date,
    written as a month name and a four-digit year ("March 2024"), is read
    with `datetime.strptime(date.strip(), "%B %Y")`; the best-before date is
    23 months later, printed as the upper-case month name and the year
    ("FEBRUARY 2026"), or "N/A" when the date does not parse. */
module BestBefore {
  import opened Wrappers

  /** `calendar.month_name` in the English locale; index 0 is empty. */
  const MonthNames: seq<string> :=
    ["", "January", "February", "March", "April", "May", "June", "July",
     "August", "September", "October", "November", "December"]

  /** Python's `str.isspace` for one character. */
  predicate IsSpace(c: char)
  {
    '\t' <= c <= '\r' || '\U{1c}' <= c <= ' ' || c == '\U{85}' || c == '\U{a0}' ||
    c == '\U{1680}' || '\U{2000}' <= c <= '\U{200a}' || c == '\U{2028}' || c == '\U{2029}' ||
    c == '\U{202f}' || c == '\U{205f}' || c == '\U{3000}'
  }

  predicate AllSpace(s: string)
  {
    forall i :: 0 <= i < |s| ==> IsSpace(s[i])
  }

  /** `s.lstrip()`: the longest suffix of `s` that does not start with whitespace. */
  function StripLeading(s: string): (r: string)
    ensures |r| <= |s| && r == s[|s| - |r|..]
    ensures AllSpace(s[..|s| - |r|])
    ensures r == [] || !IsSpace(r[0])
  {
    if s != [] && IsSpace(s[0]) then
      var r := StripLeading(s[1..]);
      assert s[..|s| - |r|] == [s[0]] + s[1..][..|s| - 1 - |r|];
      r
    else s
  }

  /** `s.rstrip()`: the longest prefix of `s` that does not end with whitespace. */
  function StripTrailing(s: string): (r: string)
    ensures |r| <= |s| && r == s[..|r|]
    ensures AllSpace(s[|r|..])
    ensures r == [] || !IsSpace(r[|r| - 1])
  {
    if s != [] && IsSpace(s[|s| - 1]) then
      var r := StripTrailing(s[..|s| - 1]);
      assert s[|r|..] == s[..|s| - 1][|r|..] + [s[|s| - 1]];
      r
    else s
  }

  /** `s.strip()`. */
  function Strip(s: string): string
  {
    StripTrailing(StripLeading(s))
  }

  function LowerChar(c: char): char
  {
    if 'A' <= c <= 'Z' then (c as int - 'A' as int + 'a' as int) as char else c
  }

  function UpperChar(c: char): char
  {
    if 'a' <= c <= 'z' then (c as int - 'a' as int + 'A' as int) as char else c
  }

  /** `s.upper()` for the month names. */
  function Upper(s: string): (r: string)
    ensures |r| == |s| && forall i :: 0 <= i < |s| ==> r[i] == UpperChar(s[i])
  {
    seq(|s|, i requires 0 <= i < |s| => UpperChar(s[i]))
  }

  /** `s` and `name` are equal up to the case of their letters. */
  predicate SameIgnoringCase(s: string, name: string)
  {
    |s| == |name| && forall i :: 0 <= i < |s| ==> LowerChar(s[i]) == LowerChar(name[i])
  }

  /** `s` starts with the name of month `m`, in any case. */
  predicate StartsWithMonth(s: string, m: nat)
    requires 1 <= m <= 12
  {
    |MonthNames[m]| <= |s| && SameIgnoringCase(s[..|MonthNames[m]|], MonthNames[m])
  }

  /** The first month, from `m` on, whose name starts `s`. */
  function MonthPrefix(s: string, m: nat): (r: Option<nat>)
    requires 1 <= m <= 13
    ensures r.Some? ==> m <= r.value <= 12 && StartsWithMonth(s, r.value)
    ensures r.None? ==> forall n :: m <= n <= 12 ==> !StartsWithMonth(s, n)
    decreases 13 - m
  {
    if m == 13 then None
    else if StartsWithMonth(s, m) then Some(m)
    else MonthPrefix(s, m + 1)
  }

  predicate IsDigit(c: char)
  {
    '0' <= c <= '9'
  }

  predicate AllDigits(s: string)
  {
    forall i :: 0 <= i < |s| ==> IsDigit(s[i])
  }

  function DigitChar(d: nat): (c: char)
    requires d <= 9
    ensures IsDigit(c) && c as int - '0' as int == d
  {
    ('0' as int + d) as char
  }

  function DigitValue(c: char): (d: nat)
    requires IsDigit(c)
    ensures d <= 9 && DigitChar(d) == c
  {
    c as int - '0' as int
  }

  /** `int(d)` for the four digits `%Y` reads. */
  function YearValue(d: string): (y: nat)
    requires |d| == 4 && AllDigits(d)
    ensures y <= 9999
  {
    ((DigitValue(d[0]) * 10 + DigitValue(d[1])) * 10 + DigitValue(d[2])) * 10 + DigitValue(d[3])
  }

  /** A year as `%Y` writes it: four digits, zero-padded. */
  function FourDigits(y: nat): (s: string)
    requires y <= 9999
    ensures |s| == 4 && AllDigits(s)
  {
    [DigitChar(y / 10 / 10 / 10), DigitChar(y / 10 / 10 % 10), DigitChar(y / 10 % 10), DigitChar(y % 10)]
  }

  /** The number a string of decimal digits denotes, most significant digit
      first. */
  function DecimalValue(s: string): (n: nat)
    requires AllDigits(s)
  {
    if s == [] then 0 else DecimalValue(s[..|s| - 1]) * 10 + DigitValue(s[|s| - 1])
  }

  /** `str(n)`: the digits of `n`, with no leading zero. */
  function DecimalString(n: nat): (s: string)
    ensures s != [] && AllDigits(s) && DecimalValue(s) == n
    ensures |s| == 1 || s[0] != '0'
  {
    if n < 10 then [DigitChar(n)] else DecimalString(n / 10) + [DigitChar(n % 10)]
  }

  /** `datetime.strptime(s, "%B %Y")`: a month name in any case, one or more
      whitespace characters, then exactly four digits naming a year from 1
      on (year 0 is out of `datetime`'s range); the day defaults to 1. */
  function ParseMonthYear(s: string): (r: Option<(nat, nat)>)
    ensures r.Some? ==> 1 <= r.value.0 <= 12 && 1 <= r.value.1 <= 9999
  {
    match MonthPrefix(s, 1)
    case None => None
    case Some(m) =>
      var rest := s[|MonthNames[m]|..];
      if |rest| < 5 then None
      else
        var gap, digits := rest[..|rest| - 4], rest[|rest| - 4..];
        if AllSpace(gap) && AllDigits(digits) && YearValue(digits) >= 1
        then Some((m, YearValue(digits)))
        else None
  }

  /** The month 23 months after `month` of `year`: `year + 2` and
      `month - 1`, with January wrapping to December of `year + 1`. */
  function BestBeforeMonth(month: nat, year: int): (r: (nat, int))
    requires 1 <= month <= 12
    ensures 1 <= r.0 <= 12
    ensures 12 * r.1 + (r.0 - 1) == 12 * year + (month - 1) + 23
  {
    var y, m := year + 2, month - 1;
    if m == 0 then (12, y - 1) else (m, y)
  }

  /** The best-before text for a production date that parsed. */
  function BestBeforeText(month: nat, year: int): string
    requires 1 <= month <= 12 && year >= 0
  {
    var (m, y) := BestBeforeMonth(month, year);
    Upper(MonthNames[m]) + " " + DecimalString(y)
  }

  /** The `BEST_BEFORE` field for the `Date` column of one row. */
  function BestBeforeOf(date: string): (r: string)
    ensures r == "N/A" <==> ParseMonthYear(Strip(date)).None?
  {
    match ParseMonthYear(Strip(date))
    case None => "N/A"
    case Some((m, y)) => TextIsNotNA(m, y); BestBeforeText(m, y)
  }

  // ---------------------------------------------------------------------
  // Properties

  /** The first three letters of each month name, in lower case. */
  const Abbreviations: seq<string> :=
    ["", "jan", "feb", "mar", "apr", "may", "jun", "jul", "aug", "sep", "oct", "nov", "dec"]

  lemma Abbreviation(n: nat)
    requires 1 <= n <= 12
    ensures [LowerChar(MonthNames[n][0]), LowerChar(MonthNames[n][1]), LowerChar(MonthNames[n][2])] == Abbreviations[n]
  {
  }

  /** The first three letters of the month names differ, in any case. */
  lemma MonthNamesDistinct(m1: nat, m2: nat)
    requires 1 <= m1 <= 12 && 1 <= m2 <= 12
    requires forall i :: 0 <= i < 3 ==> LowerChar(MonthNames[m1][i]) == LowerChar(MonthNames[m2][i])
    ensures m1 == m2
  {
    Abbreviation(m1);
    Abbreviation(m2);
    assert Abbreviations[m1] == Abbreviations[m2];
  }

  /** At most one month name starts a string, so the order in which the
      names are tried does not matter. */
  lemma MonthUnique(s: string, m1: nat, m2: nat)
    requires 1 <= m1 <= 12 && 1 <= m2 <= 12
    requires StartsWithMonth(s, m1) && StartsWithMonth(s, m2)
    ensures m1 == m2
  {
    forall i | 0 <= i < 3
      ensures LowerChar(MonthNames[m1][i]) == LowerChar(MonthNames[m2][i])
    {
      assert s[..|MonthNames[m1]|][i] == s[i] == s[..|MonthNames[m2]|][i];
    }
    MonthNamesDistinct(m1, m2);
  }

  /** The last decimal digit and the rest of a number. */
  lemma Digit(q: nat, r: nat)
    requires r <= 9
    ensures (q * 10 + r) / 10 == q && (q * 10 + r) % 10 == r
  {
  }

  /** `%Y` reads back the year it writes. */
  lemma YearRoundTrip(y: nat)
    requires y <= 9999
    ensures YearValue(FourDigits(y)) == y
  {
    var s := FourDigits(y);
    assert y / 10 / 10 / 10 <= 9;
    assert DigitValue(s[0]) == y / 10 / 10 / 10 && DigitValue(s[1]) == y / 10 / 10 % 10;
    assert DigitValue(s[2]) == y / 10 % 10 && DigitValue(s[3]) == y % 10;
  }

  /** Four digits are the zero-padded form of the year they spell. */
  lemma YearDigitsRoundTrip(d: string)
    requires |d| == 4 && AllDigits(d)
    ensures FourDigits(YearValue(d)) == d
  {
    var d0, d1, d2, d3 := DigitValue(d[0]), DigitValue(d[1]), DigitValue(d[2]), DigitValue(d[3]);
    var y := YearValue(d);
    Digit((d0 * 10 + d1) * 10 + d2, d3);
    Digit(d0 * 10 + d1, d2);
    Digit(d0, d1);
    assert d0 / 10 == 0 && d0 % 10 == d0;
  }

  /** From 1000 to 9999, `str(n)` is the four-digit form. */
  lemma DecimalFourDigits(n: nat)
    requires 1000 <= n <= 9999
    ensures DecimalString(n) == FourDigits(n)
  {
    assert DecimalString(n) == DecimalString(n / 10) + [DigitChar(n % 10)];
    assert DecimalString(n / 10) == DecimalString(n / 10 / 10) + [DigitChar(n / 10 % 10)];
    assert DecimalString(n / 10 / 10) == DecimalString(n / 10 / 10 / 10) + [DigitChar(n / 10 / 10 % 10)];
    assert DecimalString(n / 10 / 10 / 10) == [DigitChar(n / 10 / 10 / 10)];
  }

  /** The parse accepts exactly a month name in any case, a non-empty run
      of whitespace, and a year from 1 to 9999 in four digits. */
  lemma ParseAccepts(name: string, gap: string, m: nat, y: nat)
    requires 1 <= m <= 12 && 1 <= y <= 9999
    requires SameIgnoringCase(name, MonthNames[m])
    requires gap != [] && AllSpace(gap)
    ensures ParseMonthYear(name + gap + FourDigits(y)) == Some((m, y))
  {
    var s := name + gap + FourDigits(y);
    assert s[..|name|] == name;
    assert StartsWithMonth(s, m);
    var found := MonthPrefix(s, 1);
    MonthUnique(s, found.value, m);
    var rest := s[|name|..];
    assert rest == gap + FourDigits(y);
    assert rest[..|rest| - 4] == gap && rest[|rest| - 4..] == FourDigits(y);
    YearRoundTrip(y);
  }

  /** And every string the parse accepts has that shape. */
  lemma ParseOnlyAccepts(s: string, m: nat, y: nat)
    requires ParseMonthYear(s) == Some((m, y))
    ensures 1 <= m <= 12 && 1 <= y <= 9999
    ensures exists k :: |MonthNames[m]| < k && |s| == k + 4 &&
              SameIgnoringCase(s[..|MonthNames[m]|], MonthNames[m]) &&
              AllSpace(s[|MonthNames[m]|..k]) && s[k..] == FourDigits(y)
  {
    var n := |MonthNames[m]|;
    var rest := s[n..];
    var k := |s| - 4;
    assert rest[..|rest| - 4] == s[n..k] && rest[|rest| - 4..] == s[k..];
    YearDigitsRoundTrip(s[k..]);
  }

  /** A computed best-before text is never "N/A". */
  lemma TextIsNotNA(month: nat, year: nat)
    requires 1 <= month <= 12
    ensures BestBeforeText(month, year) != "N/A"
  {
    var m := BestBeforeMonth(month, year).0;
    var name := MonthNames[m];
    assert 'a' <= name[1] <= 'z';
    assert BestBeforeText(month, year)[1] == Upper(name)[1];
  }

  /** Whitespace around the date does not change the field. */
  lemma SurroundingSpaceIgnored(before: string, date: string, after: string)
    requires AllSpace(before) && AllSpace(after)
    requires date != [] && !IsSpace(date[0]) && !IsSpace(date[|date| - 1])
    ensures Strip(before + date + after) == date
  {
    StripLeadingSpaces(before, date + after);
    assert before + date + after == before + (date + after);
    StripTrailingSpaces(date, after);
  }

  lemma {:induction false} StripLeadingSpaces(sp: string, s: string)
    requires AllSpace(sp) && (s == [] || !IsSpace(s[0]))
    ensures StripLeading(sp + s) == s
    decreases |sp|
  {
    if sp != [] {
      assert (sp + s)[1..] == sp[1..] + s;
      StripLeadingSpaces(sp[1..], s);
    } else {
      assert sp + s == s;
    }
  }

  lemma {:induction false} StripTrailingSpaces(s: string, sp: string)
    requires AllSpace(sp) && (s == [] || !IsSpace(s[|s| - 1]))
    ensures StripTrailing(s + sp) == s
    decreases |sp|
  {
    if sp != [] {
      assert (s + sp)[..|s + sp| - 1] == s + sp[..|sp| - 1];
      StripTrailingSpaces(s, sp[..|sp| - 1]);
    } else {
      assert s + sp == s;
    }
  }

  /** The printed best-before date is itself a "%B %Y" date, 23 months
      after the production date, whenever its year has four digits. */
  lemma BestBeforeParsesBack(month: nat, year: nat)
    requires 1 <= month <= 12
    requires 1000 <= BestBeforeMonth(month, year).1 <= 9999
    ensures ParseMonthYear(BestBeforeText(month, year)) ==
            Some((BestBeforeMonth(month, year).0, BestBeforeMonth(month, year).1 as nat))
  {
    var (m, y) := BestBeforeMonth(month, year);
    var name := Upper(MonthNames[m]);
    assert SameIgnoringCase(name, MonthNames[m]);
    DecimalFourDigits(y);
    ParseAccepts(name, " ", m, y);
  }

  /** A January date wraps to December of the next year. */
  lemma JanuaryWraps(year: nat)
    ensures BestBeforeText(1, year) == "DECEMBER " + DecimalString(year + 1)
  {
    assert Upper(MonthNames[12]) == "DECEMBER";
  }

  /** "March 2024", with stray spaces around it, is best before February 2026. */
  lemma MarchScenario()
    ensures BestBeforeOf(" march  2024 ") == "FEBRUARY 2026"
  {
    assert " march  2024 " == " " + "march  2024" + " ";
    SurroundingSpaceIgnored(" ", "march  2024", " ");
    MarchParses();
    FebruaryPrinted();
  }

  lemma MarchParses()
    ensures ParseMonthYear("march  2024") == Some((3, 2024))
  {
    assert FourDigits(2024) == "2024";
    assert "march  2024" == "march" + "  " + FourDigits(2024);
    assert SameIgnoringCase("march", MonthNames[3]);
    ParseAccepts("march", "  ", 3, 2024);
  }

  lemma FebruaryPrinted()
    ensures BestBeforeText(3, 2024) == "FEBRUARY 2026"
  {
    assert Upper(MonthNames[2]) == "FEBRUARY";
    DecimalFourDigits(2026);
    assert FourDigits(2026) == "2026";
  }

  /** Every month name starts with a capital letter. */
  lemma MonthInitial(n: nat)
    requires 1 <= n <= 12
    ensures |MonthNames[n]| >= 3 && 'A' <= MonthNames[n][0] <= 'Z'
  {
  }

  /** A date that starts with a digit, as an ISO date or a timestamp
      pandas read from the sheet ("2024-03-01 00:00:00") does, is "N/A". */
  lemma DigitFirstNotAvailable(date: string)
    requires Strip(date) != [] && IsDigit(Strip(date)[0])
    ensures BestBeforeOf(date) == "N/A"
  {
    var s := Strip(date);
    forall n | 1 <= n <= 12 ensures !StartsWithMonth(s, n) {
      MonthInitial(n);
      if |MonthNames[n]| <= |s| {
        assert s[..|MonthNames[n]|][0] == s[0];
        assert LowerChar(s[0]) != LowerChar(MonthNames[n][0]);
      }
    }
    assert MonthPrefix(s, 1) == None;
  }

  /** Only ASCII letters fold: a date starting with a letter beyond `z`,
      such as the long s of "\u017feptember 2024", is "N/A". strptime's
      pattern accepts it but the lowered name is not a month name. */
  lemma NonAsciiInitialNotAvailable(date: string)
    requires Strip(date) != [] && Strip(date)[0] > 'z'
    ensures BestBeforeOf(date) == "N/A"
  {
    var s := Strip(date);
    forall n | 1 <= n <= 12 ensures !StartsWithMonth(s, n) {
      MonthInitial(n);
      if |MonthNames[n]| <= |s| {
        assert s[..|MonthNames[n]|][0] == s[0];
        assert LowerChar(s[0]) != LowerChar(MonthNames[n][0]);
      }
    }
    assert MonthPrefix(s, 1) == None;
  }

  /** A dotted capital I inside the name is not folded either. */
  lemma DottedCapitalINotFolded()
    ensures ParseMonthYear("apr\U{130}l 2024") == None
  {
    var s := "apr\U{130}l 2024";
    forall n | 1 <= n <= 12 ensures !StartsWithMonth(s, n) {
      if n == 4 {
        assert LowerChar(s[3]) != LowerChar(MonthNames[4][3]);
      } else {
        MonthInitial(n);
        assert s[..|MonthNames[n]|][0] == s[0];
      }
    }
    assert MonthPrefix(s, 1) == None;
  }
}

/** Calendar dates written `YYYY-MM-DD`, the form in which reservations carry their
    check-in and check-out days, with the parse that `datetime.fromisoformat`
    performs on that form and the chronological order it compares by. */
module Dates {
  import opened Wrappers

  datatype Date = Date(year: int, month: int, day: int)

  predicate IsLeapYear(year: int) {
    year % 4 == 0 && (year % 100 != 0 || year % 400 == 0)
  }

  function DaysInMonth(year: int, month: int): (n: int)
    requires 1 <= month <= 12
    ensures 28 <= n <= 31
  {
    if month == 2 then (if IsLeapYear(year) then 29 else 28)
    else if month == 4 || month == 6 || month == 9 || month == 11 then 30
    else 31
  }

  /** A date that `datetime` can represent: years 1 to 9999, real month lengths. */
  predicate ValidDate(d: Date) {
    1 <= d.year <= 9999 && 1 <= d.month <= 12 && 1 <= d.day <= DaysInMonth(d.year, d.month)
  }

  /** Chronological order of midnights of two dates. */
  predicate Before(a: Date, b: Date) {
    a.year < b.year
    || (a.year == b.year && (a.month < b.month || (a.month == b.month && a.day < b.day)))
  }

  predicate IsDigit(c: char) {
    '0' <= c <= '9'
  }

  function DigitValue(c: char): (n: int)
    requires IsDigit(c)
    ensures 0 <= n < 10
  {
    c as int - '0' as int
  }

  function DigitChar(n: int): (c: char)
    requires 0 <= n < 10
    ensures IsDigit(c) && DigitValue(c) == n
  {
    ('0' as int + n) as char
  }

  predicate DigitsAt(s: string, lo: nat, hi: nat)
    requires lo <= hi <= |s|
  {
    forall i :: lo <= i < hi ==> IsDigit(s[i])
  }

  /** Parses `YYYY-MM-DD`; any other string, or a day that does not exist, is refused
      (`ValueError` in Python). */
  function ParseIsoDate(s: string): (r: Option<Date>)
    ensures r.Some? ==> ValidDate(r.value)
    ensures r.Some? ==> |s| == 10 && s[4] == '-' && s[7] == '-'
  {
    if |s| == 10 && s[4] == '-' && s[7] == '-' && DigitsAt(s, 0, 4) && DigitsAt(s, 5, 7) && DigitsAt(s, 8, 10) then
      var d := Date(1000 * DigitValue(s[0]) + 100 * DigitValue(s[1]) + 10 * DigitValue(s[2]) + DigitValue(s[3]),
                    10 * DigitValue(s[5]) + DigitValue(s[6]),
                    10 * DigitValue(s[8]) + DigitValue(s[9]));
      if ValidDate(d) then Some(d) else None
    else
      None
  }

  /** The last `width` decimal digits of `n`, most significant first. */
  function Digits(n: nat, width: nat): (s: string)
    ensures |s| == width
    ensures forall i :: 0 <= i < width ==> IsDigit(s[i])
  {
    if width == 0 then [] else Digits(n / 10, width - 1) + [DigitChar(n % 10)]
  }

  /** The `YYYY-MM-DD` text of a date, zero-padded. */
  function FormatIsoDate(d: Date): (s: string)
    requires ValidDate(d)
    ensures |s| == 10
  {
    Digits(d.year, 4) + "-" + Digits(d.month, 2) + "-" + Digits(d.day, 2)
  }

  lemma DivMod10(n: int, q: int, r: int)
    requires n == 10 * q + r && 0 <= r < 10
    ensures n / 10 == q && n % 10 == r
  {
  }

  /** Reading the digits back gives the number, for numbers that fit the width. */
  lemma DigitsValue2(n: nat)
    requires n < 100
    ensures var s := Digits(n, 2); 10 * DigitValue(s[0]) + DigitValue(s[1]) == n
  {
    var s := Digits(n, 2);
    assert Digits(n / 10, 1) == [DigitChar(n / 10 % 10)];
    assert s == [DigitChar(n / 10 % 10), DigitChar(n % 10)];
    DivMod10(n / 10, 0, n / 10);
  }

  lemma DigitsValue4(n: nat)
    requires n < 10000
    ensures var s := Digits(n, 4);
      1000 * DigitValue(s[0]) + 100 * DigitValue(s[1]) + 10 * DigitValue(s[2]) + DigitValue(s[3]) == n
  {
    var s := Digits(n, 4);
    var t1 := n / 10;
    var t2 := t1 / 10;
    var t3 := t2 / 10;
    assert Digits(t3, 1) == [DigitChar(t3 % 10)];
    assert Digits(t2, 2) == [DigitChar(t3 % 10), DigitChar(t2 % 10)];
    assert Digits(t1, 3) == [DigitChar(t3 % 10), DigitChar(t2 % 10), DigitChar(t1 % 10)];
    assert s == [DigitChar(t3 % 10), DigitChar(t2 % 10), DigitChar(t1 % 10), DigitChar(n % 10)];
    assert t3 < 10;
    DivMod10(t3, 0, t3);
  }

  /** Every date has a text that parses back to it. */
  lemma {:induction false} FormatParses(d: Date)
    requires ValidDate(d)
    ensures ParseIsoDate(FormatIsoDate(d)) == Some(d)
  {
    var s := FormatIsoDate(d);
    var y, m, dd := Digits(d.year, 4), Digits(d.month, 2), Digits(d.day, 2);
    assert s[..4] == y && s[5..7] == m && s[8..] == dd;
    DigitsValue4(d.year);
    DigitsValue2(d.month);
    DigitsValue2(d.day);
    assert DigitsAt(s, 0, 4) && DigitsAt(s, 5, 7) && DigitsAt(s, 8, 10);
  }

  lemma DigitsOf2(a: char, b: char)
    requires IsDigit(a) && IsDigit(b)
    ensures Digits(10 * DigitValue(a) + DigitValue(b), 2) == [a, b]
  {
    var n := 10 * DigitValue(a) + DigitValue(b);
    DivMod10(n, DigitValue(a), DigitValue(b));
    DivMod10(DigitValue(a), 0, DigitValue(a));
    assert DigitChar(DigitValue(a)) == a && DigitChar(DigitValue(b)) == b;
  }

  lemma DigitsOf4(a: char, b: char, c: char, e: char)
    requires IsDigit(a) && IsDigit(b) && IsDigit(c) && IsDigit(e)
    ensures Digits(1000 * DigitValue(a) + 100 * DigitValue(b) + 10 * DigitValue(c) + DigitValue(e), 4) == [a, b, c, e]
  {
    var n := 1000 * DigitValue(a) + 100 * DigitValue(b) + 10 * DigitValue(c) + DigitValue(e);
    var m := 10 * DigitValue(a) + DigitValue(b);
    DivMod10(n, 10 * m + DigitValue(c), DigitValue(e));
    DivMod10(10 * m + DigitValue(c), m, DigitValue(c));
    DigitsOf2(a, b);
    assert DigitChar(DigitValue(c)) == c && DigitChar(DigitValue(e)) == e;
  }

  /** A parsable text is the text of the date it parses to: two different strings
      never denote the same date. */
  lemma {:induction false} ParseFormats(s: string)
    requires ParseIsoDate(s).Some?
    ensures FormatIsoDate(ParseIsoDate(s).value) == s
  {
    var d := ParseIsoDate(s).value;
    DigitsOf4(s[0], s[1], s[2], s[3]);
    DigitsOf2(s[5], s[6]);
    DigitsOf2(s[8], s[9]);
    assert s == [s[0], s[1], s[2], s[3]] + "-" + [s[5], s[6]] + "-" + [s[8], s[9]];
  }
}

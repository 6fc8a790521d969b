/**
 * Calendar dates and the fixed date pattern "%B %d, %Y".
 *
 * The pattern is read the way Python's strptime builds it: the full month
 * name, matched without regard to case; every blank of the pattern stands
 * for one or more whitespace characters; the day is one or two digits with
 * a value from 1 to 31; a comma follows the day directly; the year is
 * exactly four digits; and nothing may follow. A text that matches must
 * also name a real calendar day.
 */
module Dates {
  import opened Wrappers
  import opened Text

  datatype Date = Date(year: int, month: int, day: int)

  predicate IsLeapYear(y: int) {
    y % 4 == 0 && (y % 100 != 0 || y % 400 == 0)
  }

  function DaysInMonth(y: int, m: int): int
    requires 1 <= m <= 12
  {
    if m == 2 then (if IsLeapYear(y) then 29 else 28)
    else if m == 4 || m == 6 || m == 9 || m == 11 then 30
    else 31
  }

  /** A day the date type can hold: years 1 to 9999, real month lengths. */
  predicate ValidDate(d: Date) {
    1 <= d.year <= 9999 && 1 <= d.month <= 12 && 1 <= d.day <= DaysInMonth(d.year, d.month)
  }

  const MonthNames: seq<string> := ["january", "february", "march", "april", "may", "june",
                                    "july", "august", "september", "october", "november", "december"]

  /** The month a lower-case name denotes, 1 to 12, or 0 when it names none. */
  function MonthNumber(name: string): (m: nat)
    ensures m <= 12
    ensures m > 0 ==> MonthNames[m - 1] == name
    ensures m == 0 ==> name !in MonthNames
  {
    if name == "january" then 1 else if name == "february" then 2
    else if name == "march" then 3 else if name == "april" then 4
    else if name == "may" then 5 else if name == "june" then 6
    else if name == "july" then 7 else if name == "august" then 8
    else if name == "september" then 9 else if name == "october" then 10
    else if name == "november" then 11 else if name == "december" then 12
    else 0
  }

  /** Parses "Month D, YYYY"; `None` for text that does not match or names no real day. */
  function ParseDate(s: string): (r: Option<Date>)
    ensures r.Some? ==> ValidDate(r.value)
  {
    var a := Span(s, Letters);
    var m := MonthNumber(Lower(s[..a]));
    if m == 0 then None else AfterMonth(m, s[a..])
  }

  /** After the month name: one or more blanks, then the day. */
  function AfterMonth(m: int, r: string): (o: Option<Date>)
    requires 1 <= m <= 12
    ensures o.Some? ==> ValidDate(o.value) && o.value.month == m
  {
    var w := Span(r, Spaces);
    if w == 0 then None else DayField(m, r[w..])
  }

  /** The day: one or two digits with a value from 1 to 31, then the year part. */
  function DayField(m: int, r: string): (o: Option<Date>)
    requires 1 <= m <= 12
    ensures o.Some? ==> ValidDate(o.value) && o.value.month == m
  {
    var n := Span(r, Digits);
    if n == 0 || n > 2 then None
    else
      var day := Value(r[..n]);
      if day < 1 || day > 31 then None else YearField(m, day, r[n..])
  }

  /** A comma, one or more blanks, exactly four digits and the end of the text. */
  function YearField(m: int, day: int, r: string): (o: Option<Date>)
    requires 1 <= m <= 12
    ensures o.Some? ==> ValidDate(o.value) && o.value.month == m && o.value.day == day
  {
    if r == [] || r[0] != ',' then None
    else
      var w := Span(r[1..], Spaces);
      var y := r[1..][w..];
      if w == 0 || |y| != 4 || !AllDigits(y) then None
      else
        var d := Date(Value(y), m, day);
        if ValidDate(d) then Some(d) else None
  }

  lemma MonthNumberOfName(m: int)
    requires 1 <= m <= 12
    ensures MonthNumber(MonthNames[m - 1]) == m
  {
    if m == 1 {} else if m == 2 {} else if m == 3 {} else if m == 4 {}
    else if m == 5 {} else if m == 6 {} else if m == 7 {} else if m == 8 {}
    else if m == 9 {} else if m == 10 {} else if m == 11 {} else {}
  }

  /** The month name as the date pattern prints it, with a capital initial. */
  function MonthTitle(m: int): (t: string)
    requires 1 <= m <= 12
  {
    var name := MonthNames[m - 1];
    [UpperChar(name[0])] + name[1..]
  }

  /** The four-digit year field, with leading zeros. */
  function Year4(y: int): (s: string)
    requires 0 <= y <= 9999
    ensures |s| == 4 && AllDigits(s) && Value(s) == y
  {
    var q1 := y / 10;
    var q2 := q1 / 10;
    var q3 := q2 / 10;
    var s := [DigitChar(q3), DigitChar(q2 % 10), DigitChar(q1 % 10), DigitChar(y % 10)];
    assert s[..3][..2][..1][..0] == [];
    assert Value(s[..3][..2][..1]) == q3;
    assert Value(s[..3][..2]) == q3 * 10 + q2 % 10 == q2;
    assert Value(s[..3]) == q2 * 10 + q1 % 10 == q1;
    assert Value(s) == q1 * 10 + y % 10 == y;
    s
  }

  /** The text "Month D, YYYY" for a month, day and year. */
  function DateText(m: int, day: nat, y: int): string
    requires 1 <= m <= 12 && 0 <= y <= 9999
  {
    MonthTitle(m) + (" " + (ShowNat(day) + (", " + Year4(y))))
  }

  /** A date printed in the pattern. */
  function FormatDate(d: Date): string
    requires ValidDate(d)
  {
    DateText(d.month, d.day, d.year)
  }

  lemma MonthTitleLetters(m: int)
    requires 1 <= m <= 12
    ensures |MonthTitle(m)| > 0
    ensures forall i :: 0 <= i < |MonthTitle(m)| ==> IsAsciiLetter(MonthTitle(m)[i])
    ensures Lower(MonthTitle(m)) == MonthNames[m - 1]
  {
    var name := MonthNames[m - 1];
    assert forall i :: 0 <= i < |name| ==> 'a' <= name[i] <= 'z';
    var t := MonthTitle(m);
    assert forall i :: 0 < i < |t| ==> t[i] == name[i];
    assert Lower(t) == name;
  }

  /**
   * Text in the canonical layout with a day from 1 to 31 parses to that
   * date exactly when the date is a real calendar day.
   */
  lemma {:induction false} ParseDateText(m: int, day: nat, y: int)
    requires 1 <= m <= 12 && 1 <= day <= 31 && 0 <= y <= 9999
    ensures ParseDate(DateText(m, day, y)) ==
            (if ValidDate(Date(y, m, day)) then Some(Date(y, m, day)) else None)
  {
    var title, dtext, ytext := MonthTitle(m), ShowNat(day), Year4(y);
    var rest := " " + (dtext + (", " + ytext));
    var s := DateText(m, day, y);
    assert s == title + rest;
    MonthTitleLetters(m);
    MonthNumberOfName(m);
    SpanOfPrefix(title, rest, Letters);
    assert s[..|title|] == title && s[|title|..] == rest;
    AfterMonthText(m, day, y);
  }

  lemma AfterMonthText(m: int, day: nat, y: int)
    requires 1 <= m <= 12 && 1 <= day <= 31 && 0 <= y <= 9999
    ensures AfterMonth(m, " " + (ShowNat(day) + (", " + Year4(y)))) ==
            (if ValidDate(Date(y, m, day)) then Some(Date(y, m, day)) else None)
  {
    var dtext, ytext := ShowNat(day), Year4(y);
    var r := " " + (dtext + (", " + ytext));
    SpanOfPrefix(" ", dtext + (", " + ytext), Spaces);
    assert r[1..] == dtext + (", " + ytext);
    DayFieldText(m, day, y);
  }

  lemma DayFieldText(m: int, day: nat, y: int)
    requires 1 <= m <= 12 && 1 <= day <= 31 && 0 <= y <= 9999
    ensures DayField(m, ShowNat(day) + (", " + Year4(y))) ==
            (if ValidDate(Date(y, m, day)) then Some(Date(y, m, day)) else None)
  {
    var dtext, ytext := ShowNat(day), Year4(y);
    var r := dtext + (", " + ytext);
    SpanOfPrefix(dtext, ", " + ytext, Digits);
    assert r[..|dtext|] == dtext && r[|dtext|..] == ", " + ytext;
    YearFieldText(m, day, y);
  }

  lemma YearFieldText(m: int, day: nat, y: int)
    requires 1 <= m <= 12 && 0 <= y <= 9999
    ensures YearField(m, day, ", " + Year4(y)) ==
            (if ValidDate(Date(y, m, day)) then Some(Date(y, m, day)) else None)
  {
    var ytext := Year4(y);
    var r := ", " + ytext;
    assert r[1..] == " " + ytext;
    SpanOfPrefix(" ", ytext, Spaces);
    assert r[1..][1..] == ytext;
  }

  /** Printing a real date and parsing the text gives the date back. */
  lemma ParseFormatDate(d: Date)
    requires ValidDate(d)
    ensures ParseDate(FormatDate(d)) == Some(d)
  {
    ParseDateText(d.month, d.day, d.year);
  }

  /** "March 5, 2001" is 5 March 2001. */
  lemma MarchExample()
    ensures ParseDate("March 5, 2001") == Some(Date(2001, 3, 5))
  {
    MarchText();
    ParseDateText(3, 5, 2001);
  }

  lemma MarchText()
    ensures DateText(3, 5, 2001) == "March 5, 2001"
  {
    assert MonthTitle(3) == "March";
    assert ShowNat(5) == "5";
    assert Year4(2001) == "2001";
  }

  /** "February 30, 2001" matches the pattern but names no day. */
  lemma FebruaryThirtiethExample()
    ensures ParseDate("February 30, 2001") == None
  {
    FebruaryThirtiethText();
    ParseDateText(2, 30, 2001);
  }

  lemma FebruaryThirtiethText()
    ensures DateText(2, 30, 2001) == "February 30, 2001"
  {
    assert MonthTitle(2) == "February";
    assert ShowNat(30) == ShowNat(3) + [DigitChar(0)] == "30";
    assert Year4(2001) == "2001";
  }

  /**
   * `s` spells the real day `d` in the pattern: a month name of `a`
   * letters, then blanks, the day and the year as `BlankLayout` says.
   */
  predicate LayoutAt(s: string, d: Date, a: nat, w: nat, n: nat, v: nat) {
    ValidDate(d) && MonthLayout(s, d.month, a) && BlankLayout(s[a..], d, w, n, v)
  }

  /** The first `a` characters of `s` are letters that, in either case, spell the name of month `m`. */
  predicate MonthLayout(s: string, m: int, a: nat) {
    && 1 <= m <= 12 && a <= |s|
    && (forall i :: 0 <= i < a ==> IsAsciiLetter(s[i])) && Lower(s[..a]) == MonthNames[m - 1]
  }

  /** `w` blanks, then the day and the year as `DayLayout` says. */
  predicate BlankLayout(r: string, d: Date, w: nat, n: nat, v: nat) {
    && 0 < w <= |r| && (forall i :: 0 <= i < w ==> IsSpace(r[i]))
    && DayLayout(r[w..], d, n, v)
  }

  /** One or two digits (`n` of them) giving the day, then the year as `YearLayout` says. */
  predicate DayLayout(r: string, d: Date, n: nat, v: nat) {
    && 0 < n <= 2 && n <= |r| && AllDigits(r[..n]) && Value(r[..n]) == d.day
    && YearLayout(r[n..], d.year, v)
  }

  /** A comma and blanks filling the first `v` characters, then exactly four digits giving the year `y`. */
  predicate YearLayout(r: string, y: int, v: nat) {
    && 1 < v && v + 4 == |r| && r[0] == ',' && (forall i :: 0 < i < v ==> IsSpace(r[i]))
    && AllDigits(r[v..]) && Value(r[v..]) == y
  }

  /** `s` is the real day `d` written in the pattern. */
  ghost predicate InLayout(s: string, d: Date) {
    exists a: nat, w: nat, n: nat, v: nat :: LayoutAt(s, d, a, w, n, v)
  }

  /** A text parses to `d` exactly when it writes `d` in the pattern: any other layout is no date. */
  lemma ParseDateLayout(s: string, d: Date)
    ensures ParseDate(s) == Some(d) <==> InLayout(s, d)
  {
    if ParseDate(s) == Some(d) {
      ParsedLayout(s, d);
    }
    if InLayout(s, d) {
      var a: nat, w: nat, n: nat, v: nat :| LayoutAt(s, d, a, w, n, v);
      LayoutParses(s, d, a, w, n, v);
    }
  }

  /** The lengths of the fields the parser reads form a layout of the date it returns. */
  lemma ParsedLayout(s: string, d: Date)
    requires ParseDate(s) == Some(d)
    ensures InLayout(s, d)
  {
    var a := MonthParsed(s);
    var w, n, v := AfterMonthParsed(d.month, s[a..]);
    assert LayoutAt(s, d, a, w, n, v);
  }

  /** The month name read first: `a` letters naming the month of the date, and the rest parsed after it. */
  lemma MonthParsed(s: string) returns (a: nat)
    requires ParseDate(s).Some?
    ensures MonthLayout(s, ParseDate(s).value.month, a) && AfterMonth(ParseDate(s).value.month, s[a..]) == ParseDate(s)
  {
    a := Span(s, Letters);
    var m := MonthNumber(Lower(s[..a]));
    assert ParseDate(s) == AfterMonth(m, s[a..]);
  }

  lemma AfterMonthParsed(m: int, r: string) returns (w: nat, n: nat, v: nat)
    requires 1 <= m <= 12 && AfterMonth(m, r).Some?
    ensures BlankLayout(r, AfterMonth(m, r).value, w, n, v)
  {
    w := Span(r, Spaces);
    n, v := DayFieldParsed(m, r[w..]);
  }

  lemma DayFieldParsed(m: int, r: string) returns (n: nat, v: nat)
    requires 1 <= m <= 12 && DayField(m, r).Some?
    ensures DayLayout(r, DayField(m, r).value, n, v)
  {
    n := Span(r, Digits);
    v := YearFieldParsed(m, Value(r[..n]), r[n..]);
  }

  lemma YearFieldParsed(m: int, day: int, r: string) returns (v: nat)
    requires 1 <= m <= 12 && YearField(m, day, r).Some?
    ensures YearLayout(r, YearField(m, day, r).value.year, v)
  {
    var w := Span(r[1..], Spaces);
    v := 1 + w;
    assert r[1..][w..] == r[w + 1..];
    assert forall i :: 0 < i <= w ==> r[i] == r[1..][i - 1];
  }

  /** The parser reads exactly the fields of a layout and returns its date. */
  lemma LayoutParses(s: string, d: Date, a: nat, w: nat, n: nat, v: nat)
    requires LayoutAt(s, d, a, w, n, v)
    ensures ParseDate(s) == Some(d)
  {
    MonthLayoutParses(s, d.month, a);
    BlankLayoutParses(s[a..], d, w, n, v);
  }

  /** A month name of `a` letters followed by a blank: the parser goes on after it with that month. */
  lemma MonthLayoutParses(s: string, m: int, a: nat)
    requires MonthLayout(s, m, a) && a < |s| && IsSpace(s[a])
    ensures ParseDate(s) == AfterMonth(m, s[a..])
  {
    assert s == s[..a] + s[a..];
    SpanOfPrefix(s[..a], s[a..], Letters);
    MonthNumberOfName(m);
  }

  lemma BlankLayoutParses(r: string, d: Date, w: nat, n: nat, v: nat)
    requires ValidDate(d) && BlankLayout(r, d, w, n, v)
    ensures AfterMonth(d.month, r) == Some(d)
  {
    assert r == r[..w] + r[w..];
    SpanOfPrefix(r[..w], r[w..], Spaces);
    DayLayoutParses(r[w..], d, n, v);
  }

  lemma DayLayoutParses(r: string, d: Date, n: nat, v: nat)
    requires ValidDate(d) && DayLayout(r, d, n, v)
    ensures DayField(d.month, r) == Some(d)
  {
    assert r == r[..n] + r[n..];
    SpanOfPrefix(r[..n], r[n..], Digits);
    YearLayoutParses(r[n..], d, v);
  }

  lemma YearLayoutParses(r: string, d: Date, v: nat)
    requires ValidDate(d) && YearLayout(r, d.year, v)
    ensures YearField(d.month, d.day, r) == Some(d)
  {
    assert r[1..] == r[1..][..v - 1] + r[v..];
    SpanOfPrefix(r[1..][..v - 1], r[v..], Spaces);
    assert r[1..][v - 1..] == r[v..];
  }

  /** Text with no decimal digit in it never parses to a date. */
  lemma {:induction false} NoDigitsNoDate(s: string)
    requires forall i :: 0 <= i < |s| ==> !IsDigit(s[i])
    ensures ParseDate(s) == None
  {
    var a := Span(s, Letters);
    var r1 := s[a..];
    var w1 := Span(r1, Spaces);
    var r2 := r1[w1..];
    assert r2 == s[a + w1..];
    assert r2 != [] ==> !IsDigit(r2[0]);
  }
}

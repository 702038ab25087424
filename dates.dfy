/**
 * .NET `DateTime` as a calendar date and time of day, with its invariant-culture text
 * "MM/dd/yyyy HH:mm:ss" and the parser that reads that text back.
 */
module Dates {
  import opened Wrappers
  import opened Numerals

  /** A date and time of day; `ticks` counts the 100-nanosecond units within the second. */
  datatype DateTime = DateTime(year: int, month: int, day: int, hour: int, minute: int, second: int, ticks: int)

  predicate IsLeapYear(y: int) {
    y % 4 == 0 && (y % 100 != 0 || y % 400 == 0)
  }

  function DaysInMonth(y: int, m: int): int
    requires 1 <= m <= 12
  {
    if m == 2 then (if IsLeapYear(y) then 29 else 28)
    else if m == 4 || m == 6 || m == 9 || m == 11 then 30
    else 31
  }

  /** The instants .NET can represent: years 1 to 9999 of the Gregorian calendar. */
  predicate IsValid(d: DateTime) {
    && 1 <= d.year <= 9999
    && 1 <= d.month <= 12
    && 1 <= d.day <= DaysInMonth(d.year, d.month)
    && 0 <= d.hour < 24
    && 0 <= d.minute < 60
    && 0 <= d.second < 60
    && 0 <= d.ticks < 10_000_000
  }

  /** A .NET `DateTime` value. */
  type Instant = d: DateTime | IsValid(d) witness DateTime(1, 1, 1, 0, 0, 0, 0)

  /** `default(DateTime)`, which is `DateTime.MinValue`: midnight, 1 January of year 1. */
  const MinValue: Instant := DateTime(1, 1, 1, 0, 0, 0, 0)

  lemma Pow10Values()
    ensures Pow10(2) == 100 && Pow10(4) == 10000
  {
    assert Pow10(1) == 10;
    assert Pow10(3) == 1000;
  }

  /** `DateTime.ToString()` in the invariant culture: "MM/dd/yyyy HH:mm:ss"; the fraction of a second is not printed. */
  function Format(t: Instant): (s: string)
    ensures |s| == 19
  {
    Pow10Values();
    PadDigits(t.month, 2) + "/" + PadDigits(t.day, 2) + "/" + PadDigits(t.year, 4) + " "
      + PadDigits(t.hour, 2) + ":" + PadDigits(t.minute, 2) + ":" + PadDigits(t.second, 2)
  }

  /** The number written in s[i..i + w], when every character there is a digit. */
  function DigitField(s: string, i: nat, w: nat): Option<nat>
    requires i + w <= |s|
  {
    if AllDigits(s[i..i + w]) then Some(DigitsValue(s[i..i + w])) else None
  }

  /** Whether s has the separators of "MM/dd/yyyy HH:mm:ss" in their places. */
  predicate HasDateLayout(s: string) {
    |s| == 19 && s[2] == '/' && s[5] == '/' && s[10] == ' ' && s[13] == ':' && s[16] == ':'
  }

  /**
   * `DateTime.TryParse`, for text in the invariant layout "MM/dd/yyyy HH:mm:ss" only: the
   * fields must be digits and name a valid instant; the fraction of a second is zero.
   */
  function ParseDate(s: string): (r: Option<Instant>)
    ensures r.Some? ==> HasDateLayout(s) && r.value.ticks == 0
  {
    if !HasDateLayout(s) then None
    else
      var month, day, year := DigitField(s, 0, 2), DigitField(s, 3, 2), DigitField(s, 6, 4);
      var hour, minute, second := DigitField(s, 11, 2), DigitField(s, 14, 2), DigitField(s, 17, 2);
      if month.None? || day.None? || year.None? || hour.None? || minute.None? || second.None? then None
      else
        var d := DateTime(year.value, month.value, day.value, hour.value, minute.value, second.value, 0);
        if IsValid(d) then Some(d) else None
  }

  /** The parts of a text made of three parts with two one-character separators. */
  lemma ThreeParts(a: string, x: char, b: string, y: char, c: string)
    ensures var s := a + [x] + b + [y] + c;
      && |s| == |a| + |b| + |c| + 2
      && s[..|a|] == a && s[|a|] == x && s[|a| + 1..|a| + 1 + |b|] == b
      && s[|a| + 1 + |b|] == y && s[|a| + 2 + |b|..] == c
  {
    var s := a + [x] + b + [y] + c;
    assert s == a + ([x] + b + [y] + c);
    assert s[|a| + 1..] == b + [y] + c;
    assert s[|a| + 2 + |b|..] == c;
  }

  /** Six fields of the widths of "MM/dd/yyyy HH:mm:ss", joined with its separators, sit at that layout's positions. */
  lemma DateTextLayout(mo: string, dd: string, yy: string, hh: string, mi: string, ss: string)
    requires |mo| == 2 && |dd| == 2 && |yy| == 4 && |hh| == 2 && |mi| == 2 && |ss| == 2
    ensures var s := mo + "/" + dd + "/" + yy + " " + hh + ":" + mi + ":" + ss;
      && HasDateLayout(s)
      && s[0..2] == mo && s[3..5] == dd && s[6..10] == yy
      && s[11..13] == hh && s[14..16] == mi && s[17..19] == ss
  {
    var date := mo + ['/'] + dd + ['/'] + yy;
    var time := hh + [':'] + mi + [':'] + ss;
    ThreeParts(mo, '/', dd, '/', yy);
    ThreeParts(hh, ':', mi, ':', ss);
    var s := mo + "/" + dd + "/" + yy + " " + hh + ":" + mi + ":" + ss;
    assert s == date + [' '] + time;
    assert s[..10] == date && s[11..] == time by {
      assert s == date + ([' '] + time);
    }
    assert s[0..2] == date[0..2] && s[3..5] == date[3..5] && s[6..10] == date[6..10];
    assert s[11..13] == time[0..2] && s[14..16] == time[3..5] && s[17..19] == time[6..8];
  }

  /** The text of an instant holds each field's padded digits at that field's position. */
  lemma FormatFields(t: Instant)
    ensures Pow10(2) == 100 && Pow10(4) == 10000
    ensures var s := Format(t);
      && HasDateLayout(s)
      && s[0..2] == PadDigits(t.month, 2) && s[3..5] == PadDigits(t.day, 2)
      && s[6..10] == PadDigits(t.year, 4) && s[11..13] == PadDigits(t.hour, 2)
      && s[14..16] == PadDigits(t.minute, 2) && s[17..19] == PadDigits(t.second, 2)
  {
    Pow10Values();
    DateTextLayout(PadDigits(t.month, 2), PadDigits(t.day, 2), PadDigits(t.year, 4),
                   PadDigits(t.hour, 2), PadDigits(t.minute, 2), PadDigits(t.second, 2));
  }

  /** Two texts in the layout are equal when their six fields are. */
  lemma SameLayoutFields(s: string, f: string)
    requires HasDateLayout(s) && HasDateLayout(f)
    requires s[0..2] == f[0..2] && s[3..5] == f[3..5] && s[6..10] == f[6..10]
    requires s[11..13] == f[11..13] && s[14..16] == f[14..16] && s[17..19] == f[17..19]
    ensures s == f
  {
    forall i | 0 <= i < |s| ensures f[i] == s[i] {
      if i < 2 { assert f[i] == f[0..2][i] && s[i] == s[0..2][i]; }
      else if 2 < i < 5 { assert f[i] == f[3..5][i - 3] && s[i] == s[3..5][i - 3]; }
      else if 5 < i < 10 { assert f[i] == f[6..10][i - 6] && s[i] == s[6..10][i - 6]; }
      else if 10 < i < 13 { assert f[i] == f[11..13][i - 11] && s[i] == s[11..13][i - 11]; }
      else if 13 < i < 16 { assert f[i] == f[14..16][i - 14] && s[i] == s[14..16][i - 14]; }
      else if 16 < i { assert f[i] == f[17..19][i - 17] && s[i] == s[17..19][i - 17]; }
    }
  }

  /** Printing an instant and parsing the text back gives the instant, to the whole second. */
  lemma ParseFormat(t: Instant)
    ensures ParseDate(Format(t)) == Some(t.(ticks := 0))
  {
    FormatFields(t);
    var s := Format(t);
    assert DigitField(s, 0, 2) == Some(t.month);
    assert DigitField(s, 3, 2) == Some(t.day);
    assert DigitField(s, 6, 4) == Some(t.year);
    assert DigitField(s, 11, 2) == Some(t.hour);
    assert DigitField(s, 14, 2) == Some(t.minute);
    assert DigitField(s, 17, 2) == Some(t.second);
  }

  /** Parsing text and printing the instant back gives the text: the layout has one spelling per instant. */
  lemma FormatParseDate(s: string)
    requires ParseDate(s).Some?
    ensures Format(ParseDate(s).value) == s
  {
    var t := ParseDate(s).value;
    Pow10Values();
    FieldText(s, 0, 2);
    FieldText(s, 3, 2);
    FieldText(s, 6, 4);
    FieldText(s, 11, 2);
    FieldText(s, 14, 2);
    FieldText(s, 17, 2);
    FormatFields(t);
    SameLayoutFields(Format(t), s);
  }

  /** A field that parses is the padded text of its value. */
  lemma FieldText(s: string, i: nat, w: nat)
    requires i + w <= |s|
    requires DigitField(s, i, w).Some?
    ensures DigitField(s, i, w).value < Pow10(w)
    ensures PadDigits(DigitField(s, i, w).value, w) == s[i..i + w]
  {
    PadDigitsOfValue(s[i..i + w]);
  }
}

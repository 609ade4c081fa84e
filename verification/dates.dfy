/**
 * Calendar dates as the add command reads them (`%d/%m/%Y`), as it stores them
 * (`%Y-%m-%d`), and as the history reads the stored text back and shows it
 * again in day/month/year order.
 */
module Dates {
  import opened Wrappers
  import opened Seqs
  import opened Numerals

  datatype Date = Date(year: nat, month: nat, day: nat)

  /** Widths of the zero-padded fields `strftime` writes: two digits for day and month, four for the year. */
  const FieldDigits: nat := 2
  const YearDigits: nat := 4

  /** Gregorian leap years: every fourth year, except centuries not divisible by 400. */
  predicate IsLeap(y: nat)
  {
    y % 4 == 0 && (y % 100 != 0 || y % 400 == 0)
  }

  function DaysInMonth(y: nat, m: nat): (n: nat)
    requires 1 <= m <= 12
    ensures 28 <= n <= 31
    ensures n == 29 <==> m == 2 && IsLeap(y)
  {
    if m == 2 then (if IsLeap(y) then 29 else 28)
    else if m == 4 || m == 6 || m == 9 || m == 11 then 30
    else 31
  }

  /** A day the calendar has, in the years 1..9999 a date object can hold. */
  predicate ValidDate(d: Date)
  {
    1 <= d.year <= 9999 && 1 <= d.month <= 12 && 1 <= d.day <= DaysInMonth(d.year, d.month)
  }

  /** `%d`: one or two digits naming a day number 1..31 ("7", "07" and "31", not "0", "00" or "32"). */
  predicate IsDayField(s: string)
  {
    1 <= |s| <= 2 && AllDigits(s) && 1 <= Value(s) <= 31
  }

  /** `%m`: one or two digits naming a month number 1..12. */
  predicate IsMonthField(s: string)
  {
    1 <= |s| <= 2 && AllDigits(s) && 1 <= Value(s) <= 12
  }

  /** `%Y`: exactly four digits. */
  predicate IsYearField(s: string)
  {
    |s| == 4 && AllDigits(s)
  }

  /** The date named by a year, a month and a day field, if the fields are well formed and the date exists. */
  function DateOfFields(y: string, m: string, d: string): (r: Option<Date>)
    ensures r.Some? ==> ValidDate(r.value)
  {
    if IsYearField(y) && IsMonthField(m) && IsDayField(d) then
      var date := Date(Value(y), Value(m), Value(d));
      if ValidDate(date) then Some(date) else None
    else None
  }

  /** `strptime(s, '%d/%m/%Y')`: the whole text must be day, month and year separated by '/'. */
  function ParseDMY(s: string): (r: Option<Date>)
    ensures r.Some? ==> ValidDate(r.value)
  {
    var parts := Split(s, '/');
    if |parts| == 3 then DateOfFields(parts[2], parts[1], parts[0]) else None
  }

  /** `strptime(s, '%Y-%m-%d')`, as the history reads a stored date. */
  function ParseISO(s: string): (r: Option<Date>)
    ensures r.Some? ==> ValidDate(r.value)
  {
    var parts := Split(s, '-');
    if |parts| == 3 then DateOfFields(parts[0], parts[1], parts[2]) else None
  }

  /** `strftime('%Y-%m-%d')`: zero-padded year, month and day. */
  function FormatISO(d: Date): (r: string)
    requires ValidDate(d)
    ensures |r| == 10
  {
    PowersOfTen();
    Pad(d.year, YearDigits) + "-" + Pad(d.month, FieldDigits) + "-" + Pad(d.day, FieldDigits)
  }

  /** `strftime('%d/%m/%Y')`: zero-padded day, month and year. */
  function FormatDMY(d: Date): (r: string)
    requires ValidDate(d)
    ensures |r| == 10
  {
    PowersOfTen();
    DMYText(d, FieldDigits, FieldDigits)
  }

  lemma PowersOfTen()
    ensures Pow10(FieldDigits) == 100 && Pow10(YearDigits) == 10000
  {
    assert Pow10(2) == 100;
    assert Pow10(4) == 10000;
  }

  /** A day/month/year spelling of `d` with a day field `dw` and a month field `mw` digits wide. */
  function DMYText(d: Date, dw: nat, mw: nat): string
    requires ValidDate(d) && 1 <= dw <= 2 && 1 <= mw <= 2
    requires d.day < Pow10(dw) && d.month < Pow10(mw)
  {
    PowersOfTen();
    Pad(d.day, dw) + "/" + Pad(d.month, mw) + "/" + Pad(d.year, YearDigits)
  }

  /** The shown date holds only digits and '/'. */
  lemma FormatDMYExcludes(d: Date, c: char)
    requires ValidDate(d) && !IsDigit(c) && c != '/'
    ensures c !in FormatDMY(d)
  {
    PowersOfTen();
    DigitsExclude(Pad(d.day, FieldDigits), c);
    DigitsExclude(Pad(d.month, FieldDigits), c);
    DigitsExclude(Pad(d.year, YearDigits), c);
  }

  /** Three separator-free pieces joined by the separator split back into those pieces. */
  lemma SplitThree(a: string, b: string, c: string, sep: char)
    requires sep !in a && sep !in b && sep !in c
    ensures Split(a + [sep] + b + [sep] + c, sep) == [a, b, c]
  {
    JoinThree([a, b, c], sep);
    SplitJoin([a, b, c], sep);
  }

  lemma JoinThree(parts: seq<string>, sep: char)
    requires |parts| == 3
    ensures Join(parts, [sep]) == parts[0] + [sep] + parts[1] + [sep] + parts[2]
  {
    assert Join(parts[2..], [sep]) == parts[2];
    assert Join(parts[1..], [sep]) == parts[1] + [sep] + parts[2];
  }

  /** Every spelling of a valid date, zero-padded or not, is accepted and names that date. */
  lemma ParseDMYComplete(d: Date, dw: nat, mw: nat)
    requires ValidDate(d) && 1 <= dw <= 2 && 1 <= mw <= 2
    requires d.day < Pow10(dw) && d.month < Pow10(mw)
    ensures ParseDMY(DMYText(d, dw, mw)) == Some(d)
  {
    PowersOfTen();
    var a, b, c := Pad(d.day, dw), Pad(d.month, mw), Pad(d.year, YearDigits);
    DigitsExclude(a, '/');
    DigitsExclude(b, '/');
    DigitsExclude(c, '/');
    assert DMYText(d, dw, mw) == a + ['/'] + b + ['/'] + c;
    SplitThree(a, b, c, '/');
  }

  /** Only such spellings are accepted: an accepted text is a valid date written with 1-2 digit day and month fields. */
  lemma ParseDMYSound(s: string)
    requires ParseDMY(s).Some?
    ensures var d := ParseDMY(s).value;
      exists dw: nat, mw: nat :: 1 <= dw <= 2 && 1 <= mw <= 2 && d.day < Pow10(dw) && d.month < Pow10(mw)
                                 && s == DMYText(d, dw, mw)
  {
    var d := ParseDMY(s).value;
    var parts := Split(s, '/');
    var p0, p1, p2 := parts[0], parts[1], parts[2];
    PadValue(p0);
    PadValue(p1);
    PadValue(p2);
    JoinSplit(s, '/');
    JoinThree(parts, '/');
    assert s == DMYText(d, |p0|, |p1|);
  }

  /**
   * The calendar is the only other judge: well-formed day, month and year
   * fields are accepted exactly when they name a day the calendar has.
   */
  lemma ParseDMYCalendar(dd: string, mm: string, yyyy: string)
    requires IsDayField(dd) && IsMonthField(mm) && IsYearField(yyyy)
    ensures var d := Date(Value(yyyy), Value(mm), Value(dd));
      ParseDMY(dd + "/" + mm + "/" + yyyy) == if ValidDate(d) then Some(d) else None
  {
    DigitsExclude(dd, '/');
    DigitsExclude(mm, '/');
    DigitsExclude(yyyy, '/');
    assert dd + "/" + mm + "/" + yyyy == dd + ['/'] + mm + ['/'] + yyyy;
    SplitThree(dd, mm, yyyy, '/');
  }

  /** The stored form reads back as the same date. */
  lemma ParseISOFormat(d: Date)
    requires ValidDate(d)
    ensures ParseISO(FormatISO(d)) == Some(d)
  {
    PowersOfTen();
    var a, b, c := Pad(d.year, YearDigits), Pad(d.month, FieldDigits), Pad(d.day, FieldDigits);
    DigitsExclude(a, '-');
    DigitsExclude(b, '-');
    DigitsExclude(c, '-');
    assert FormatISO(d) == a + ['-'] + b + ['-'] + c;
    SplitThree(a, b, c, '-');
  }

  /**
   * The add command's conversion and the history's conversion back: an accepted
   * day/month/year text is stored as a `%Y-%m-%d` text that reads back as the
   * same date, and the history shows it as the zero-padded day/month/year text,
   * which is the input itself when the input was zero-padded.
   */
  lemma StoredDateRoundTrip(s: string)
    requires ParseDMY(s).Some?
    ensures var d := ParseDMY(s).value;
      ParseISO(FormatISO(d)) == Some(d) && ParseDMY(FormatDMY(d)) == Some(d)
      && (|s| == 10 ==> FormatDMY(d) == s)
  {
    var d := ParseDMY(s).value;
    ParseISOFormat(d);
    ParseDMYComplete(d, FieldDigits, FieldDigits);
    ParseDMYSound(s);
  }
}

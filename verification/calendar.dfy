/** Calendar dates as `datetime.strptime(.., "%d/%m/%Y")` accepts them, and
    the two strings the ledger derives from a date with `strftime`: the
    display date `dd/mm/yyyy` and the month key `yyyy-mm`. */
module Calendar {
  import opened Text

  datatype Date = Date(day: int, month: int, year: int)

  /** Gregorian leap years, as Python's `datetime` counts them. */
  predicate IsLeapYear(year: int) {
    year % 4 == 0 && (year % 100 != 0 || year % 400 == 0)
  }

  function DaysInMonth(year: int, month: int): (n: int)
    requires 1 <= month <= 12
    ensures 28 <= n <= 31
    ensures n == 29 <==> month == 2 && IsLeapYear(year)
    ensures n == 28 <==> month == 2 && !IsLeapYear(year)
    ensures n == 30 <==> month == 4 || month == 6 || month == 9 || month == 11
  {
    if month == 2 then (if IsLeapYear(year) then 29 else 28)
    else if month == 4 || month == 6 || month == 9 || month == 11 then 30
    else 31
  }

  /** The dates `datetime` can represent: years 1 to 9999 (the four digits
      of `%Y`), months 1 to 12, and a day that exists in that month. */
  predicate ValidDate(d: Date) {
    && 1 <= d.year <= 9999
    && 1 <= d.month <= 12
    && 1 <= d.day <= DaysInMonth(d.year, d.month)
  }

  /** `strftime("%d/%m/%Y")`: the display form stored in each entry.
      Reading its three digit fields back gives the date again. */
  function DisplayDate(d: Date): (s: string)
    requires ValidDate(d)
    ensures |s| == 10 && s[2] == '/' && s[5] == '/'
    ensures AllDigits(s[0..2]) && AllDigits(s[3..5]) && AllDigits(s[6..10])
    ensures ReadNat(s[0..2]) == d.day && ReadNat(s[3..5]) == d.month && ReadNat(s[6..10]) == d.year
  {
    var s := Pad2(d.day) + "/" + Pad2(d.month) + "/" + Pad4(d.year);
    assert s[0..2] == Pad2(d.day) && s[3..5] == Pad2(d.month) && s[6..10] == Pad4(d.year);
    s
  }

  /** The shape of a ledger key: four year digits, a dash, two month digits,
      naming a year from 1 and a month from 1 to 12. */
  predicate IsMonthKey(k: string) {
    && |k| == 7
    && AllDigits(k[0..4]) && k[4] == '-' && AllDigits(k[5..7])
    && 1 <= ReadNat(k[0..4])
    && 1 <= ReadNat(k[5..7]) <= 12
  }

  function KeyYear(k: string): int
    requires IsMonthKey(k)
  {
    ReadNat(k[0..4])
  }

  function KeyMonth(k: string): int
    requires IsMonthKey(k)
  {
    ReadNat(k[5..7])
  }

  /** `strftime("%Y-%m")`: the key of the month a date falls in.
      The key is well formed and reads back as the date's year and month. */
  function MonthKey(d: Date): (k: string)
    requires ValidDate(d)
    ensures IsMonthKey(k)
    ensures KeyYear(k) == d.year && KeyMonth(k) == d.month
  {
    var k := Pad4(d.year) + "-" + Pad2(d.month);
    assert k[0..4] == Pad4(d.year) && k[5..7] == Pad2(d.month);
    k
  }

  /** A display date lies in the month a key names: the `mm` and `yyyy`
      fields of the date are the `mm` and `yyyy` fields of the key. */
  predicate InMonth(date: string, k: string) {
    |date| == 10 && |k| == 7 && date[3..5] == k[5..7] && date[6..10] == k[0..4]
  }

  lemma DateInItsMonth(d: Date)
    requires ValidDate(d)
    ensures InMonth(DisplayDate(d), MonthKey(d))
  {
    var s, k := DisplayDate(d), MonthKey(d);
    Pad2OfRead(s[3..5]);
    Pad2OfRead(k[5..7]);
    Pad4OfRead(s[6..10]);
    Pad4OfRead(k[0..4]);
  }

  /** Every well-formed key is the key of the first day of its month, so the
      keys are exactly the strings `MonthKey` produces. */
  lemma KeyOfFirstDay(k: string)
    requires IsMonthKey(k)
    ensures ValidDate(Date(1, KeyMonth(k), KeyYear(k)))
    ensures MonthKey(Date(1, KeyMonth(k), KeyYear(k))) == k
  {
    Pad4OfRead(k[0..4]);
    Pad2OfRead(k[5..7]);
    assert k == k[0..4] + "-" + k[5..7];
  }

  /** Two dates share a key exactly when they share year and month. */
  lemma SameKeySameMonth(a: Date, b: Date)
    requires ValidDate(a) && ValidDate(b)
    ensures MonthKey(a) == MonthKey(b) <==> a.year == b.year && a.month == b.month
  {
  }

  /** The string order of keys is the chronological order of months, which
      is why sorting the keys as strings sorts the months by date. */
  lemma KeyOrderIsChronological(a: Date, b: Date)
    requires ValidDate(a) && ValidDate(b)
    ensures Below(MonthKey(a), MonthKey(b))
            <==> a.year < b.year || (a.year == b.year && a.month < b.month)
  {
    BelowAppend(Pad4(a.year), Pad4(b.year), "-" + Pad2(a.month), "-" + Pad2(b.month));
    BelowAppend("-", "-", Pad2(a.month), Pad2(b.month));
    BelowIrreflexive("-");
    Pad4Order(a.year, b.year);
    Pad2Order(a.month, b.month);
    assert MonthKey(a) == Pad4(a.year) + ("-" + Pad2(a.month));
    assert MonthKey(b) == Pad4(b.year) + ("-" + Pad2(b.month));
  }
}

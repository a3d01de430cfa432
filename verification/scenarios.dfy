/** Worked examples of the ledger and the export: the salary-and-cake month,
    the carry into the next month, a calendar gap, and the error paths. */
module Scenarios {
  import opened Results
  import opened Text
  import opened Calendar
  import opened Ledger
  import opened Export

  function SalaryOn(d: Date): Form {
    Form(DateDigits(d.day, d.month, d.year), "Salary", Numeral(1000.0), Blank)
  }

  function CakeOn(d: Date): Form {
    Form(DateDigits(d.day, d.month, d.year), "Buy Cake", Blank, Numeral(50.0))
  }

  function BonusOn(d: Date): Form {
    Form(DateDigits(d.day, d.month, d.year), "Bonus", Numeral(100.0), Numeral(0.0))
  }

  lemma PaddedFields()
    ensures Pad2(1) == "01" && Pad2(5) == "05" && Pad4(2025) == "2025"
  {
    assert Pad2(20) == "20" && Pad2(25) == "25";
  }

  /** The dates of the worked example: 01/01/2025 and 05/01/2025 are filed
      under "2025-01" and displayed as typed. */
  lemma JanuaryKey()
    ensures ValidDate(Date(1, 1, 2025)) && ValidDate(Date(5, 1, 2025))
    ensures MonthKey(Date(1, 1, 2025)) == "2025-01" && MonthKey(Date(5, 1, 2025)) == "2025-01"
    ensures DisplayDate(Date(1, 1, 2025)) == "01/01/2025"
    ensures DisplayDate(Date(5, 1, 2025)) == "05/01/2025"
  {
    PaddedFields();
  }

  function SalaryEntry(d: Date): Entry
    requires ValidDate(d)
  {
    Entry(DisplayDate(d), "Salary", 1000.0, 0.0, 1000.0)
  }

  function CakeEntry(d: Date): Entry
    requires ValidDate(d)
  {
    Entry(DisplayDate(d), "Buy Cake", 0.0, 50.0, 950.0)
  }

  function BonusEntry(d: Date): Entry
    requires ValidDate(d)
  {
    Entry(DisplayDate(d), "Bonus", 100.0, 0.0, 100.0)
  }

  /** The ledger of the worked example: the salary and the cake in one
      month, the bonus in another. */
  function Example(d1: Date, d2: Date, d3: Date): MonthlyData
    requires ValidDate(d1) && ValidDate(d2) && ValidDate(d3)
  {
    map[MonthKey(d1) := [SalaryEntry(d1), CakeEntry(d2)], MonthKey(d3) := [BonusEntry(d3)]]
  }

  /** The salary of 1000.0 opens its month with balance 1000.0. */
  lemma SalaryFirst(d1: Date)
    requires ValidDate(d1)
    ensures AddEntry(map[], SalaryOn(d1))
              == AddResult(map[MonthKey(d1) := [SalaryEntry(d1)]], Added(MonthKey(d1), SalaryEntry(d1)))
  {
    var f := SalaryOn(d1);
    assert ReadAmount(f.income) == Some(1000.0) && ReadAmount(f.expense) == Some(0.0);
    assert ReadDate(f.date) == Some(d1);
    AddEntryAppends(map[], f, d1, 1000.0, 0.0);
    assert EntriesOf(map[], MonthKey(d1)) == [];
  }

  /** The cake for 50.0 later in the same month continues from 1000.0. */
  lemma CakeSecond(d1: Date, d2: Date)
    requires ValidDate(d1) && ValidDate(d2) && d1.month == d2.month && d1.year == d2.year
    ensures AddEntry(map[MonthKey(d1) := [SalaryEntry(d1)]], CakeOn(d2))
              == AddResult(map[MonthKey(d1) := [SalaryEntry(d1), CakeEntry(d2)]], Added(MonthKey(d1), CakeEntry(d2)))
  {
    var key := MonthKey(d1);
    SameKeySameMonth(d1, d2);
    var l1 := map[key := [SalaryEntry(d1)]];
    var f := CakeOn(d2);
    assert ReadAmount(f.income) == Some(0.0) && ReadAmount(f.expense) == Some(50.0);
    assert ReadDate(f.date) == Some(d2);
    AddEntryAppends(l1, f, d2, 0.0, 50.0);
    assert EntriesOf(l1, key) == [SalaryEntry(d1)];
    assert [SalaryEntry(d1)] + [CakeEntry(d2)] == [SalaryEntry(d1), CakeEntry(d2)];
  }

  /** The bonus of 100.0 in a later month opens that month again from 0.0:
      its balance is 100.0, not 1050.0. */
  lemma BonusLater(d1: Date, d2: Date, d3: Date)
    requires ValidDate(d1) && ValidDate(d2) && ValidDate(d3)
    requires d1.year < d3.year || (d1.year == d3.year && d1.month < d3.month)
    ensures AddEntry(map[MonthKey(d1) := [SalaryEntry(d1), CakeEntry(d2)]], BonusOn(d3))
              == AddResult(Example(d1, d2, d3), Added(MonthKey(d3), BonusEntry(d3)))
  {
    var k1, k3 := MonthKey(d1), MonthKey(d3);
    var l2 := map[k1 := [SalaryEntry(d1), CakeEntry(d2)]];
    assert k3 !in l2 by {
      SameKeySameMonth(d1, d3);
    }
    var f := BonusOn(d3);
    assert ReadAmount(f.income) == Some(100.0) && ReadAmount(f.expense) == Some(0.0);
    assert ReadDate(f.date) == Some(d3);
    AddEntryAppends(l2, f, d3, 100.0, 0.0);
    assert EntriesOf(l2, k3) == [];
    var e := Entry(DisplayDate(d3), "Bonus", 100.0, 0.0, LastBalance([]) + 100.0 - 0.0);
    assert e == BonusEntry(d3);
    assert l2[k3 := [] + [e]] == Example(d1, d2, d3);
  }

  /** A salary of 1000.0 and then a cake for 50.0 on two days of one month
      get balances 1000.0 and 950.0, and that month is all the ledger holds. */
  lemma SalaryThenCake(d1: Date, d2: Date)
    requires ValidDate(d1) && ValidDate(d2) && d1.month == d2.month && d1.year == d2.year
    ensures AddAll(map[], [SalaryOn(d1), CakeOn(d2)]) == map[MonthKey(d1) := [SalaryEntry(d1), CakeEntry(d2)]]
    ensures SalaryEntry(d1).balance == 1000.0 && CakeEntry(d2).balance == 950.0
  {
    var k1 := MonthKey(d1);
    SalaryFirst(d1);
    CakeSecond(d1, d2);
    AddAllCons(map[], SalaryOn(d1), [CakeOn(d2)]);
    AddAllCons(map[k1 := [SalaryEntry(d1)]], CakeOn(d2), []);
    assert [SalaryOn(d1)] + [CakeOn(d2)] == [SalaryOn(d1), CakeOn(d2)];
    assert [CakeOn(d2)] + [] == [CakeOn(d2)];
  }

  /** The salary, the cake and a bonus of 100.0 in a later month build the
      example ledger: the first month closing at 950.0, the later one
      holding the bonus alone at 100.0. */
  lemma BonusInLaterMonth(d1: Date, d2: Date, d3: Date)
    requires ValidDate(d1) && ValidDate(d2) && ValidDate(d3)
    requires d1.month == d2.month && d1.year == d2.year
    requires d1.year < d3.year || (d1.year == d3.year && d1.month < d3.month)
    ensures AddAll(map[], [SalaryOn(d1), CakeOn(d2), BonusOn(d3)]) == Example(d1, d2, d3)
  {
    SalaryFirst(d1);
    CakeSecond(d1, d2);
    BonusLater(d1, d2, d3);
    AddAllThree(map[], SalaryOn(d1), CakeOn(d2), BonusOn(d3));
  }

  /** The export of a ledger with two months, the first one below the
      other: two sheets in key order, the first carrying 0.0 and the second
      carrying the first month's closing balance. */
  lemma ExportTwoMonths(l: MonthlyData, k1: string, k3: string)
    requires ExportSheets(l).Success? && l.Keys == {k1, k3} && Below(k1, k3)
    ensures var r := ExportSheets(l);
            && r.Success? && |r.value| == 2
            && r.value[0].title == k1 && r.value[1].title == k3
            && |r.value[0].rows| == 3 + |l[k1]| && |r.value[1].rows| == 3 + |l[k3]|
            && r.value[0].rows[2] == ForwardRow(0.0)
            && r.value[1].rows[2] == ForwardRow(LastBalance(l[k1]))
            && forall i :: 3 <= i < |r.value[1].rows| ==> r.value[1].rows[i] == EntryRow(l[k3][i - 3])
  {
    var sheets := ExportSheets(l).value;
    TwoSheetTitles(l, k1, k3);
    ExportLayout(l, sheets, 0);
    ExportLayout(l, sheets, 1);
  }

  lemma TwoSheetTitles(l: MonthlyData, k1: string, k3: string)
    requires ExportSheets(l).Success? && l.Keys == {k1, k3} && Below(k1, k3)
    ensures var sheets := ExportSheets(l).value;
            |sheets| == 2 && sheets[0].title == k1 && sheets[1].title == k3
  {
    BelowIrreflexive(k1);
    assert |l.Keys| == 2;
    var sheets := ExportSheets(l).value;
    assert sheets[0].title in l && sheets[1].title in l;
    OrderOfTwo(k1, k3, sheets[0].title, sheets[1].title);
  }

  /** The shape of the example ledger: two keys, the earlier one first. */
  lemma ExampleShape(d1: Date, d2: Date, d3: Date)
    requires ValidDate(d1) && ValidDate(d2) && ValidDate(d3)
    requires d1.year < d3.year || (d1.year == d3.year && d1.month < d3.month)
    ensures var l := Example(d1, d2, d3);
            && l.Keys == {MonthKey(d1), MonthKey(d3)} && Below(MonthKey(d1), MonthKey(d3))
            && l[MonthKey(d1)] == [SalaryEntry(d1), CakeEntry(d2)]
            && l[MonthKey(d3)] == [BonusEntry(d3)]
  {
    KeyOrderIsChronological(d1, d3);
    SameKeySameMonth(d1, d3);
  }

  lemma ExampleExports(d1: Date, d2: Date, d3: Date)
    requires ValidDate(d1) && ValidDate(d2) && ValidDate(d3)
    requires d1.month == d2.month && d1.year == d2.year
    requires d1.year < d3.year || (d1.year == d3.year && d1.month < d3.month)
    ensures ExportSheets(Example(d1, d2, d3)).Success?
  {
    BonusInLaterMonth(d1, d2, d3);
    SubmittedFormsExport([SalaryOn(d1), CakeOn(d2), BonusOn(d3)]);
  }

  /** Carry-over in the worked example: exporting the ledger the three forms
      build, the later month's "Bring forward" row shows the first month's
      closing 950.0 and its first row the bonus at 100.0. The later month may
      lie after a gap of empty months: the carry comes from the previous
      populated month. */
  lemma CarryIntoLaterMonth(d1: Date, d2: Date, d3: Date)
    requires ValidDate(d1) && ValidDate(d2) && ValidDate(d3)
    requires d1.month == d2.month && d1.year == d2.year
    requires d1.year < d3.year || (d1.year == d3.year && d1.month < d3.month)
    ensures var r := ExportSheets(Example(d1, d2, d3));
            && r.Success? && |r.value| == 2
            && r.value[0].title == MonthKey(d1) && r.value[1].title == MonthKey(d3)
            && |r.value[0].rows| == 5 && |r.value[1].rows| == 4
            && r.value[0].rows[2] == ForwardRow(0.0)
            && r.value[1].rows[2] == ForwardRow(950.0)
            && r.value[1].rows[3] == EntryRow(BonusEntry(d3))
  {
    var l := Example(d1, d2, d3);
    var k1, k3 := MonthKey(d1), MonthKey(d3);
    ExampleExports(d1, d2, d3);
    ExampleShape(d1, d2, d3);
    ExportTwoMonths(l, k1, k3);
    assert LastBalance(l[k1]) == 950.0;
    assert ExportSheets(l).value[1].rows[3] == EntryRow(l[k3][3 - 3]);
  }

  /** Two distinct titles in ascending order drawn from two keys, one below
      the other, are those keys in order. */
  lemma OrderOfTwo(a: string, b: string, x: string, y: string)
    requires Below(a, b)
    requires x in {a, b} && y in {a, b} && Below(x, y)
    ensures x == a && y == b
  {
    BelowIrreflexive(a);
    BelowIrreflexive(b);
    BelowAsymmetric(a, b);
  }

  /** A date that does not exist reports an invalid date and leaves the
      ledger as it was. */
  lemma ImpossibleDates(l: MonthlyData)
    ensures AddEntry(l, Form(DateDigits(31, 4, 2025), "Rent", Blank, Numeral(10.0))) == AddResult(l, InvalidDate)
    ensures AddEntry(l, Form(DateDigits(1, 13, 2025), "Rent", Blank, Numeral(10.0))) == AddResult(l, InvalidDate)
    ensures AddEntry(l, Form(DateDigits(1, 1, 0), "Rent", Blank, Numeral(10.0))) == AddResult(l, InvalidDate)
  {
  }

  /** The 29th of February outside leap years is an invalid date too, */
  lemma NoLeapDay(l: MonthlyData)
    ensures AddEntry(l, Form(DateDigits(29, 2, 2023), "Rent", Blank, Numeral(10.0))) == AddResult(l, InvalidDate)
  {
    assert !IsLeapYear(2023);
    assert ReadDate(DateDigits(29, 2, 2023)).None?;
  }

  /** and so is the 29th of February of a century not divisible by 400. */
  lemma NoCenturyLeapDay(l: MonthlyData)
    ensures AddEntry(l, Form(DateDigits(29, 2, 1900), "Rent", Blank, Numeral(10.0))) == AddResult(l, InvalidDate)
  {
    assert !IsLeapYear(1900);
    assert ReadDate(DateDigits(29, 2, 1900)).None?;
  }

  /** Leap days exist in leap years, including centuries divisible by 400. */
  lemma LeapDays()
    ensures ReadDate(DateDigits(29, 2, 2024)) == Some(Date(29, 2, 2024))
    ensures ReadDate(DateDigits(29, 2, 2000)) == Some(Date(29, 2, 2000))
  {
  }

  /** A non-numeric amount is reported before the date is looked at. */
  lemma NumbersCheckedFirst(l: MonthlyData)
    ensures AddEntry(l, Form(NotDate, "Rent", NotNumeral, Blank)) == AddResult(l, InvalidInput)
    ensures AddEntry(l, Form(NotDate, "Rent", Blank, NotNumeral)) == AddResult(l, InvalidInput)
    ensures AddEntry(l, Form(NotDate, "Rent", Blank, Blank)) == AddResult(l, InvalidDate)
  {
  }
}

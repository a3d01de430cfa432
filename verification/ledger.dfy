/** The in-memory ledger of `income_expense.py`: a map from month key
    (`yyyy-mm`) to that month's entries in insertion order, grown only by
    `add_entry`, which validates the form fields and appends one entry whose
    balance continues the month's running balance. */
module Ledger {
  import opened Results
  import opened Text
  import opened Calendar

  /** One recorded transaction, as the dictionary built at lines 47-53. */
  datatype Entry = Entry(date: string, category: string, income: real, expense: real, balance: real)

  type MonthlyData = map<string, seq<Entry>>

  /** An amount field of the form, as `float()` sees it: left empty, a
      number, or text that is not a number. */
  datatype AmountField = Blank | Numeral(value: real) | NotNumeral

  /** The date field of the form, as `strptime` with `%d/%m/%Y` sees it: text
      of that shape carrying these day, month and year numbers, or text of
      some other shape. */
  datatype DateField = DateDigits(day: int, month: int, year: int) | NotDate

  /** The four text fields read by `add_entry` at lines 19-22. */
  datatype Form = Form(date: DateField, category: string, income: AmountField, expense: AmountField)

  /** What `add_entry` reports: the entry and the key it was filed under, or
      which of the two error dialogs it shows. */
  datatype Status = Added(key: string, entry: Entry) | InvalidInput | InvalidDate

  datatype AddResult = AddResult(ledger: MonthlyData, status: Status)

  /** Lines 21-22: an empty field is 0.0, otherwise `float()` of the text. */
  function ReadAmount(f: AmountField): (r: Option<real>)
    ensures r.None? <==> f.NotNumeral?
    ensures f.Blank? ==> r == Some(0.0)
    ensures f.Numeral? ==> r == Some(f.value)
  {
    match f
    case Blank => Some(0.0)
    case Numeral(x) => Some(x)
    case NotNumeral => None
  }

  /** Line 26: text of the right shape still fails when the date does not
      exist (a 31st of April, a 29th of February outside leap years). */
  function ReadDate(f: DateField): (r: Option<Date>)
    ensures r.Some? ==> ValidDate(r.value)
    ensures r.Some? <==> f.DateDigits? && ValidDate(Date(f.day, f.month, f.year))
    ensures r.Some? ==> r.value == Date(f.day, f.month, f.year)
  {
    match f
    case DateDigits(d, m, y) => if ValidDate(Date(d, m, y)) then Some(Date(d, m, y)) else None
    case NotDate => None
  }

  /** Lines 39-42: the balance of the month's last entry, or 0.0 when the
      month has none yet. */
  function LastBalance(es: seq<Entry>): real {
    if |es| == 0 then 0.0 else es[|es| - 1].balance
  }

  /** The entries of a month, empty when the key is absent. */
  function EntriesOf(l: MonthlyData, k: string): seq<Entry> {
    if k in l then l[k] else []
  }

  /** Lines 32-54 once the fields are read: file the entry under the date's
      month key, creating the month if needed, with the next running balance.
      Exactly one entry is appended to that month; nothing else changes. */
  function Append(l: MonthlyData, d: Date, category: string, income: real, expense: real): (r: MonthlyData)
    requires ValidDate(d)
    ensures r.Keys == l.Keys + {MonthKey(d)}
    ensures forall k :: k in l && k != MonthKey(d) ==> r[k] == l[k]
    ensures var before := EntriesOf(l, MonthKey(d));
            && |r[MonthKey(d)]| == |before| + 1
            && r[MonthKey(d)][..|before|] == before
    ensures var before := EntriesOf(l, MonthKey(d));
            var e := r[MonthKey(d)][|before|];
            && e.date == DisplayDate(d) && e.category == category
            && e.income == income && e.expense == expense
            && e.balance == (if |before| == 0 then 0.0 else before[|before| - 1].balance) + income - expense
  {
    var key := MonthKey(d);
    var before := EntriesOf(l, key);
    var balance := LastBalance(before) + income - expense;
    var r := l[key := before + [Entry(DisplayDate(d), category, income, expense, balance)]];
    assert r[key][..|before|] == before;
    r
  }

  /** `add_entry` (lines 16-62). A non-numeric income or expense reports
      invalid input, otherwise an impossible date reports an invalid date;
      both leave the ledger as it was. Otherwise the entry is appended. */
  function AddEntry(l: MonthlyData, form: Form): (r: AddResult)
    ensures r.status.InvalidInput? <==> form.income.NotNumeral? || form.expense.NotNumeral?
    ensures r.status.InvalidDate? <==>
              !form.income.NotNumeral? && !form.expense.NotNumeral? && ReadDate(form.date).None?
    ensures !r.status.Added? ==> r.ledger == l
    ensures r.status.Added? && form.income.Blank? ==> r.status.entry.income == 0.0
    ensures r.status.Added? && form.expense.Blank? ==> r.status.entry.expense == 0.0
    ensures r.status.Added? && form.income.Numeral? ==> r.status.entry.income == form.income.value
    ensures r.status.Added? && form.expense.Numeral? ==> r.status.entry.expense == form.expense.value
    ensures r.status.Added? ==> r.status.entry.category == form.category
    ensures r.status.Added? ==>
              var d := ReadDate(form.date).value;
              && r.status.key == MonthKey(d)
              && r.status.key in r.ledger
              && r.status.entry.balance
                   == LastBalance(EntriesOf(l, r.status.key))
                      + ReadAmount(form.income).value - ReadAmount(form.expense).value
              && r.ledger[r.status.key] == EntriesOf(l, r.status.key) + [r.status.entry]
              && r.ledger == Append(l, d, form.category,
                                    ReadAmount(form.income).value, ReadAmount(form.expense).value)
  {
    match (ReadAmount(form.income), ReadAmount(form.expense))
    case (Some(income), Some(expense)) =>
      (match ReadDate(form.date)
       case None => AddResult(l, InvalidDate)
       case Some(d) =>
         var l' := Append(l, d, form.category, income, expense);
         var key := MonthKey(d);
         var before := EntriesOf(l, key);
         assert l'[key] == before + [l'[key][|before|]];
         AddResult(l', Added(key, l'[key][|before|])))
    case _ => AddResult(l, InvalidInput)
  }

  /** A form whose amounts read and whose date exists sets that date's month
      to its previous entries followed by the one new entry. */
  lemma AddEntryAppends(l: MonthlyData, form: Form, d: Date, income: real, expense: real)
    requires ReadAmount(form.income) == Some(income) && ReadAmount(form.expense) == Some(expense)
    requires ReadDate(form.date) == Some(d)
    ensures var key := MonthKey(d);
            var before := EntriesOf(l, key);
            var e := Entry(DisplayDate(d), form.category, income, expense, LastBalance(before) + income - expense);
            AddEntry(l, form) == AddResult(l[key := before + [e]], Added(key, e))
  {
  }

  /** Feeding a sequence of forms to `add_entry`, one after the other. */
  function AddAll(l: MonthlyData, forms: seq<Form>): MonthlyData
    decreases |forms|
  {
    if |forms| == 0 then l else AddAll(AddEntry(l, forms[0]).ledger, forms[1..])
  }

  lemma AddAllCons(l: MonthlyData, form: Form, rest: seq<Form>)
    ensures AddAll(l, [form] + rest) == AddAll(AddEntry(l, form).ledger, rest)
  {
    assert ([form] + rest)[1..] == rest;
  }

  /** Feeding three forms is three calls of `add_entry`, in order. */
  lemma AddAllThree(l: MonthlyData, a: Form, b: Form, c: Form)
    ensures AddAll(l, [a, b, c]) == AddEntry(AddEntry(AddEntry(l, a).ledger, b).ledger, c).ledger
  {
    var l1 := AddEntry(l, a).ledger;
    var l2 := AddEntry(l1, b).ledger;
    assert AddAll(l2, [c]) == AddEntry(l2, c).ledger by {
      assert [c][1..] == [];
    }
    assert AddAll(l1, [b, c]) == AddAll(l2, [c]) by {
      assert [b, c][1..] == [c];
    }
    assert AddAll(l, [a, b, c]) == AddAll(l1, [b, c]) by {
      assert [a, b, c][1..] == [b, c];
    }
  }

  // ----- Invariants -----

  /** The running-balance recurrence of a month: each entry's balance is the
      previous entry's balance (0.0 for the first) plus income minus expense. */
  predicate RunningBalances(es: seq<Entry>) {
    forall i :: 0 <= i < |es| ==> es[i].balance == Opening(es, i) + es[i].income - es[i].expense
  }

  /** The balance entry `i` of a month starts from: the previous entry's
      balance, or 0.0 for the month's first entry. */
  function Opening(es: seq<Entry>, i: int): real
    requires 0 <= i < |es|
  {
    if i == 0 then 0.0 else es[i - 1].balance
  }

  /** What a month of a reachable ledger looks like: a well-formed key, at
      least one entry, the recurrence, and every entry dated in that month. */
  predicate ValidMonth(k: string, es: seq<Entry>) {
    && IsMonthKey(k)
    && |es| > 0
    && RunningBalances(es)
    && forall i :: 0 <= i < |es| ==> InMonth(es[i].date, k)
  }

  predicate Valid(l: MonthlyData) {
    forall k :: k in l ==> ValidMonth(k, l[k])
  }

  /** The ledger starts empty (line 13), which is valid. */
  lemma EmptyIsValid()
    ensures Valid(map[])
  {
  }

  /** Appending an entry whose balance continues the last one keeps the
      recurrence, and keeps every earlier entry's balance as it was. */
  lemma AppendKeepsRunningBalances(before: seq<Entry>, e: Entry)
    requires RunningBalances(before)
    requires e.balance == LastBalance(before) + e.income - e.expense
    ensures RunningBalances(before + [e])
  {
    var es := before + [e];
    forall i | 0 <= i < |es|
      ensures es[i].balance == Opening(es, i) + es[i].income - es[i].expense
    {
      if i < |before| {
        assert es[i] == before[i];
        if i > 0 {
          assert es[i - 1] == before[i - 1];
        }
      } else if i > 0 {
        assert es[i - 1] == before[|before| - 1];
      }
    }
    assert RunningBalances(es);
  }

  /** The ledger operation behind `add_entry` keeps every month key well
      formed, every month non-empty (the key created at line 37 is always
      appended to at line 54), every month's balances on the recurrence, and
      every entry dated in the month it is filed under. */
  lemma AppendPreservesValid(l: MonthlyData, d: Date, category: string, income: real, expense: real)
    requires Valid(l) && ValidDate(d)
    ensures Valid(Append(l, d, category, income, expense))
  {
    var r := Append(l, d, category, income, expense);
    var key := MonthKey(d);
    var before := EntriesOf(l, key);
    var es := r[key];
    var e := es[|before|];
    assert es == before + [e];
    AppendKeepsRunningBalances(before, e);
    DateInItsMonth(d);
    forall i | 0 <= i < |es| ensures InMonth(es[i].date, key) {
      if i < |before| {
        assert es[i] == before[i];
      }
    }
    assert ValidMonth(key, es);
  }

  /** `add_entry` keeps the ledger valid, whether it appends or reports an
      error. */
  lemma AddEntryPreservesValid(l: MonthlyData, form: Form)
    requires Valid(l)
    ensures Valid(AddEntry(l, form).ledger)
  {
    var r := AddEntry(l, form);
    if r.status.Added? {
      AppendPreservesValid(l, ReadDate(form.date).value, form.category,
                           ReadAmount(form.income).value, ReadAmount(form.expense).value);
    }
  }

  lemma {:induction false} AddAllPreservesValid(l: MonthlyData, forms: seq<Form>)
    requires Valid(l)
    ensures Valid(AddAll(l, forms))
    decreases |forms|
  {
    if |forms| > 0 {
      AddEntryPreservesValid(l, forms[0]);
      AddAllPreservesValid(AddEntry(l, forms[0]).ledger, forms[1..]);
    }
  }

  // ----- Balances as sums -----

  /** Independent reference for balances: the total income minus expense of
      a sequence of entries. */
  function Net(es: seq<Entry>): real
    decreases |es|
  {
    if |es| == 0 then 0.0 else Net(es[..|es| - 1]) + es[|es| - 1].income - es[|es| - 1].expense
  }

  lemma NetOfPrefix(es: seq<Entry>, i: int)
    requires 0 <= i < |es|
    ensures Net(es[..i + 1]) == Net(es[..i]) + es[i].income - es[i].expense
  {
    var p := es[..i + 1];
    assert p[..|p| - 1] == es[..i] && p[|p| - 1] == es[i];
  }

  lemma {:induction false} BalanceIsNetAt(es: seq<Entry>, i: int)
    requires RunningBalances(es) && 0 <= i < |es|
    ensures es[i].balance == Net(es[..i + 1])
    decreases i
  {
    NetOfPrefix(es, i);
    if i > 0 {
      BalanceIsNetAt(es, i - 1);
    } else {
      assert es[..0] == [] && Net([]) == 0.0;
      assert es[0].balance == 0.0 + es[0].income - es[0].expense;
    }
  }

  /** The recurrence holds exactly when every balance is the sum of income
      minus expense over the month's entries up to and including it. */
  lemma RunningBalancesAreSums(es: seq<Entry>)
    ensures RunningBalances(es) <==> forall i :: 0 <= i < |es| ==> es[i].balance == Net(es[..i + 1])
  {
    if RunningBalances(es) {
      forall i | 0 <= i < |es| ensures es[i].balance == Net(es[..i + 1]) {
        BalanceIsNetAt(es, i);
      }
    }
    if forall i :: 0 <= i < |es| ==> es[i].balance == Net(es[..i + 1]) {
      forall i | 0 <= i < |es|
        ensures es[i].balance == Opening(es, i) + es[i].income - es[i].expense
      {
        NetOfPrefix(es, i);
        assert es[i].balance == Net(es[..i + 1]);
        if i == 0 {
          assert es[..0] == [];
        } else {
          assert es[i - 1].balance == Net(es[..(i - 1) + 1]);
          assert es[..(i - 1) + 1] == es[..i];
        }
      }
    }
  }

  /** In a valid ledger the last balance of a month is that month's net
      amount alone: balances restart from 0.0 in every month. */
  lemma LastBalanceIsMonthNet(l: MonthlyData, k: string)
    requires Valid(l) && k in l
    ensures LastBalance(l[k]) == Net(l[k])
  {
    var es := l[k];
    BalanceIsNetAt(es, |es| - 1);
    assert es[..|es|] == es;
  }
}

/** The pure part of `export_yearly_to_excel` and `get_month_name`: the
    ledger laid out as one worksheet per month key, in ascending key order,
    each opening with a title, a column header and a "Bring forward" row
    carrying the previous sheet's closing balance. */
module Export {
  import opened Results
  import opened Text
  import opened Calendar
  import opened Ledger

  /** A spreadsheet cell: text, or a number written from a float. */
  datatype Cell = TextCell(text: string) | NumberCell(value: real)

  type Row = seq<Cell>

  /** A worksheet: its tab title and its rows, top to bottom. */
  datatype Sheet = Sheet(title: string, rows: seq<Row>)

  /** Why the export stops: a key whose month has no name (the `KeyError`
      of line 128), or a previous month with no last entry to carry forward
      (the `IndexError` of `[-1]` at line 96). */
  datatype ExportError = UnknownMonth(key: string) | NoLastEntry(key: string)

  // ----- Month names (lines 113-128) -----

  /** The fixed Thai month-name table, keyed by two-digit month. */
  const MonthNames: map<string, string> := map[
    "01" := "มกราคม",
    "02" := "กุมภาพันธ์",
    "03" := "มีนาคม",
    "04" := "เมษายน",
    "05" := "พฤษภาคม",
    "06" := "มิถุนายน",
    "07" := "กรกฎาคม",
    "08" := "สิงหาคม",
    "09" := "กันยายน",
    "10" := "ตุลาคม",
    "11" := "พฤศจิกายน",
    "12" := "ธันวาคม"
  ]

  /** Python's `s[lo:hi]` for `0 <= lo <= hi`: bounds past the end are
      clipped rather than rejected. */
  function Slice(s: string, lo: nat, hi: nat): (r: string)
    requires lo <= hi
    ensures |r| <= hi - lo
    ensures hi <= |s| ==> r == s[lo..hi]
    ensures lo < hi ==> (|r| == hi - lo <==> hi <= |s|)
    ensures lo <= |s| < hi ==> r == s[lo..]
    ensures |s| <= lo ==> r == ""
  {
    var b := if hi <= |s| then hi else |s|;
    var a := if lo <= b then lo else b;
    s[a..b]
  }

  /** `get_month_name`: the name of the month in characters 5 and 6 of the
      key, absent when those characters are not a key of the table. Every
      well-formed key has a name. */
  function MonthName(key: string): (r: Option<string>)
    ensures r.Some? <==> Slice(key, 5, 7) in MonthNames
    ensures r.Some? ==> r.value == MonthNames[Slice(key, 5, 7)]
    ensures IsMonthKey(key) ==> r.Some?
  {
    var code := Slice(key, 5, 7);
    KeyHasMonthCode(key);
    if code in MonthNames then Some(MonthNames[code]) else None
  }

  /** A key has a month name exactly when its characters 5 and 6 are a
      month number from 1 to 12 written with two digits. */
  lemma MonthNameDefined(key: string)
    ensures MonthName(key).Some? <==> exists m :: 1 <= m <= 12 && Slice(key, 5, 7) == Pad2(m)
  {
    MonthCodes(Slice(key, 5, 7));
  }

  /** The keys of the name table are the month numbers 1 to 12, padded. */
  lemma MonthCodes(code: string)
    ensures code in MonthNames <==> exists m :: 1 <= m <= 12 && code == Pad2(m)
  {
    forall m | 1 <= m <= 12 ensures Pad2(m) in MonthNames {
      PaddedMonthNamed(m);
    }
    if code in MonthNames {
      NamedCodeIsPadded(code);
    }
  }

  lemma PaddedMonthNamed(m: int)
    requires 1 <= m <= 12
    ensures Pad2(m) in MonthNames
  {
    assert Pad2(m) == [Digit(m / 10), Digit(m % 10)];
    if m < 10 {
      assert Pad2(m) == ['0', Digit(m)];
    } else {
      assert Pad2(m) == ['1', Digit(m - 10)];
    }
  }

  lemma NamedCodeIsPadded(code: string)
    requires code in MonthNames
    ensures exists m :: 1 <= m <= 12 && code == Pad2(m)
  {
    assert |code| == 2 && AllDigits(code);
    Pad2OfRead(code);
    var m := ReadNat(code);
    assert code == Pad2(m);
    assert 1 <= m <= 12;
  }

  lemma KeyHasMonthCode(key: string)
    ensures IsMonthKey(key) ==> Slice(key, 5, 7) in MonthNames
  {
    if IsMonthKey(key) {
      Pad2OfRead(key[5..7]);
      assert Slice(key, 5, 7) == Pad2(KeyMonth(key));
      PaddedMonthNamed(KeyMonth(key));
    }
  }

  // ----- Rows of a sheet -----

  /** Title row (line 86): the heading text followed by the month name. */
  function TitleRow(name: string): Row {
    [TextCell("รายรับรายจ่ายเดือน" + name)]
  }

  /** Column-header row (line 87). */
  const HeaderRow: Row := [TextCell("Month"), TextCell("Category"), TextCell("Income"), TextCell("Expense"), TextCell("Balance")]

  /** The "Bring forward" row (line 99): a label, three blank cells and the
      carried balance. */
  function ForwardRow(forward: real): Row {
    [TextCell("Bring forward"), TextCell(""), TextCell(""), TextCell(""), NumberCell(forward)]
  }

  /** One entry as a row (line 103), columns in the order of the header. */
  function EntryRow(e: Entry): Row {
    [TextCell(e.date), TextCell(e.category), NumberCell(e.income), NumberCell(e.expense), NumberCell(e.balance)]
  }

  /** The layout of one month's sheet: titled with the key, then the title,
      header and "Bring forward" rows, then one row per entry in order. */
  predicate LaidOut(s: Sheet, key: string, name: string, forward: real, es: seq<Entry>) {
    && s.title == key
    && |s.rows| == 3 + |es|
    && s.rows[0] == TitleRow(name)
    && s.rows[1] == HeaderRow
    && s.rows[2] == ForwardRow(forward)
    && forall i :: 3 <= i < |s.rows| ==> s.rows[i] == EntryRow(es[i - 3])
  }

  // ----- Sorted month keys (line 79) -----

  predicate StrictlyAscending(ks: seq<string>) {
    forall i, j :: 0 <= i < j < |ks| ==> Below(ks[i], ks[j])
  }

  predicate IsLeast(m: string, s: set<string>) {
    m in s && forall k :: k in s && k != m ==> Below(m, k)
  }

  /** Every finite non-empty set of strings has a least element. */
  lemma {:induction false} LeastExists(s: set<string>)
    requires s != {}
    ensures exists m :: IsLeast(m, s)
    decreases |s|
  {
    var x :| x in s;
    if s != {x} {
      var rest := s - {x};
      LeastExists(rest);
      var m :| IsLeast(m, rest);
      BelowTotal(x, m);
      if Below(x, m) {
        forall k | k in s && k != x ensures Below(x, k) {
          if k != m {
            BelowTransitive(x, m, k);
          }
        }
        assert IsLeast(x, s);
      } else {
        assert IsLeast(m, s);
      }
    } else {
      assert IsLeast(x, s);
    }
  }

  /** A set has at most one least element. */
  lemma LeastUnique(s: set<string>)
    ensures forall m, n :: IsLeast(m, s) && IsLeast(n, s) ==> m == n
  {
    forall m, n | IsLeast(m, s) && IsLeast(n, s) ensures m == n {
      BelowAsymmetric(m, n);
    }
  }

  /** `sorted(monthly_data.keys())`: the keys, each once, in ascending
      string order. */
  function SortedKeys(s: set<string>): (r: seq<string>)
    ensures |r| == |s|
    ensures forall k :: k in r <==> k in s
    ensures StrictlyAscending(r)
    decreases |s|
  {
    if s == {} then []
    else
      LeastExists(s);
      LeastUnique(s);
      var m :| IsLeast(m, s);
      var rest := SortedKeys(s - {m});
      PrependLeast(m, s, rest);
      [m] + rest
  }

  /** The least key followed by the others in ascending order is the whole
      set in ascending order. */
  lemma PrependLeast(m: string, s: set<string>, rest: seq<string>)
    requires IsLeast(m, s) && StrictlyAscending(rest)
    requires forall k :: k in rest <==> k in s - {m}
    ensures StrictlyAscending([m] + rest)
    ensures forall k :: k in [m] + rest <==> k in s
  {
    var r := [m] + rest;
    forall i, j | 0 <= i < j < |r| ensures Below(r[i], r[j]) {
      assert r[j] == rest[j - 1];
      if i > 0 {
        assert r[i] == rest[i - 1];
      } else {
        assert rest[j - 1] in rest;
      }
    }
  }

  // ----- The export loop (lines 82-103) -----

  /** Line 90-96: the balance carried into sheet `idx`: 0.0 for the first
      sheet, otherwise the last balance of the previous key in sorted order,
      which fails when that month has no entries. */
  function Forward(l: MonthlyData, ks: seq<string>, idx: nat): (r: Option<real>)
    requires idx < |ks|
    requires forall k :: k in ks ==> k in l
    ensures idx == 0 ==> r == Some(0.0)
    ensures idx > 0 ==> (r.Some? <==> |l[ks[idx - 1]]| > 0)
    ensures idx > 0 && r.Some? ==> r.value == l[ks[idx - 1]][|l[ks[idx - 1]]| - 1].balance
  {
    if idx == 0 then Some(0.0)
    else
      var prev := l[ks[idx - 1]];
      if |prev| == 0 then None else Some(prev[|prev| - 1].balance)
  }

  function EntryRows(es: seq<Entry>): (rows: seq<Row>)
    ensures |rows| == |es|
    ensures forall i :: 0 <= i < |es| ==> rows[i] == EntryRow(es[i])
  {
    seq(|es|, i requires 0 <= i < |es| => EntryRow(es[i]))
  }

  /** One month's sheet (lines 83-103). */
  function MonthPage(key: string, name: string, forward: real, es: seq<Entry>): (s: Sheet)
    ensures LaidOut(s, key, name, forward, es)
  {
    var s := Sheet(key, [TitleRow(name), HeaderRow, ForwardRow(forward)] + EntryRows(es));
    assert forall i :: 3 <= i < |s.rows| ==> s.rows[i] == EntryRows(es)[i - 3];
    s
  }

  /** Sheet `i` of the export is the sheet of key `ks[i]`, laid out with
      that month's name and the balance carried into it. */
  predicate SheetAt(l: MonthlyData, ks: seq<string>, i: nat, s: Sheet)
    requires i < |ks|
    requires forall k :: k in ks ==> k in l
  {
    && MonthName(ks[i]).Some?
    && Forward(l, ks, i).Some?
    && LaidOut(s, ks[i], MonthName(ks[i]).value, Forward(l, ks, i).value, l[ks[i]])
  }

  /** One pass of the loop of lines 82-103: the sheet of the key at
      position `i`, or the lookup error that pass raises. */
  function SheetFor(l: MonthlyData, ks: seq<string>, i: nat): Result<Sheet, ExportError>
    requires i < |ks|
    requires forall k :: k in ks ==> k in l
  {
    match MonthName(ks[i])
    case None => Failure(UnknownMonth(ks[i]))
    case Some(name) =>
      match Forward(l, ks, i)
      case None => Failure(NoLastEntry(ks[i - 1]))
      case Some(forward) => Success(MonthPage(ks[i], name, forward, l[ks[i]]))
  }

  /** A pass succeeds exactly when the month has a name and there is a
      balance to carry, and then its sheet is laid out for its key. */
  lemma SheetForLaidOut(l: MonthlyData, ks: seq<string>, i: nat)
    requires i < |ks|
    requires forall k :: k in ks ==> k in l
    ensures SheetFor(l, ks, i).Success? <==> MonthName(ks[i]).Some? && Forward(l, ks, i).Some?
    ensures SheetFor(l, ks, i).Success? ==> SheetAt(l, ks, i, SheetFor(l, ks, i).value)
  {
  }

  /** The passes of the loop, one per key of `ks`, in order. */
  function Passes(l: MonthlyData, ks: seq<string>): (rs: seq<Result<Sheet, ExportError>>)
    requires forall k :: k in ks ==> k in l
    ensures |rs| == |ks|
    ensures forall i :: 0 <= i < |ks| ==> rs[i] == SheetFor(l, ks, i)
  {
    seq(|ks|, i requires 0 <= i < |ks| => SheetFor(l, ks, i))
  }

  /** Sheet `i` of an exported sequence, stated in terms of the ledger
      alone: its title is a key, its month has a name, and it is laid out
      with the last balance of the month of sheet `i - 1` carried forward
      (0.0 for the first sheet). */
  predicate MonthSheet(l: MonthlyData, sheets: seq<Sheet>, i: int) {
    && 0 <= i < |sheets|
    && sheets[i].title in l
    && MonthName(sheets[i].title).Some?
    && (i > 0 ==> sheets[i - 1].title in l && |l[sheets[i - 1].title]| > 0)
    && LaidOut(sheets[i], sheets[i].title, MonthName(sheets[i].title).value,
               if i == 0 then 0.0 else LastBalance(l[sheets[i - 1].title]),
               l[sheets[i].title])
  }

  /** `export_yearly_to_excel` without the workbook and the file: one sheet
      per key of the ledger, titled with the key, in strictly ascending key
      order (`ExportLayout` states the rows of each). The default sheet is
      gone, so an empty ledger gives no sheets. A key without a month name
      stops the export; a valid ledger always exports. */
  function ExportSheets(l: MonthlyData): (r: Result<seq<Sheet>, ExportError>)
    ensures r.Success? ==> |r.value| == |l|
    ensures r.Success? ==> forall i :: 0 <= i < |r.value| ==> r.value[i].title in l
    ensures r.Success? ==> forall k :: k in l ==> exists i :: 0 <= i < |r.value| && r.value[i].title == k
    ensures r.Success? ==>
              forall i, j :: 0 <= i < j < |r.value| ==> Below(r.value[i].title, r.value[j].title)
    ensures r.Success? ==> forall i :: 0 <= i < |r.value| ==> MonthName(r.value[i].title).Some?
    ensures r.Success? ==> forall i :: 0 <= i < |r.value| ==> |r.value[i].rows| == 3 + |l[r.value[i].title]|
    ensures |l| == 0 ==> r == Success([])
    ensures (exists k :: k in l && MonthName(k).None?) ==> r.Failure?
    ensures Valid(l) ==> r.Success?
  {
    var ks := SortedKeys(l.Keys);
    var r := Collect(Passes(l, ks));
    SheetsFollowKeys(l, ks, r);
    r
  }

  /** The rows of every exported sheet: the month's title, the header, the
      "Bring forward" row with the last balance of the previous sheet's month
      (0.0 for the first sheet), then the month's entries in insertion order. */
  lemma ExportLayout(l: MonthlyData, sheets: seq<Sheet>, i: int)
    requires ExportSheets(l) == Success(sheets)
    requires 0 <= i < |sheets|
    ensures MonthSheet(l, sheets, i)
  {
    var ks := SortedKeys(l.Keys);
    SheetIsMonthSheet(l, ks, sheets, i);
  }

  /** The sheets of a successful export are titled with the sorted keys, one
      each, so every key of the ledger has its sheet; a valid ledger always
      exports. */
  lemma SheetsFollowKeys(l: MonthlyData, ks: seq<string>, r: Result<seq<Sheet>, ExportError>)
    requires forall k :: k in ks ==> k in l
    requires forall k :: k in l ==> k in ks
    requires r == Collect(Passes(l, ks))
    ensures r.Success? ==> forall i :: 0 <= i < |r.value| ==> r.value[i].title == ks[i]
    ensures r.Success? ==> forall k :: k in l ==> exists i :: 0 <= i < |r.value| && r.value[i].title == k
    ensures r.Success? ==> forall i :: 0 <= i < |r.value| ==> MonthName(r.value[i].title).Some?
    ensures r.Success? ==> forall i :: 0 <= i < |r.value| ==> |r.value[i].rows| == 3 + |l[r.value[i].title]|
    ensures Valid(l) ==> r.Success?
  {
    if r.Success? {
      SheetsAreLaidOut(l, ks, r.value);
      forall k | k in l ensures exists i :: 0 <= i < |r.value| && r.value[i].title == k {
        var i :| 0 <= i < |ks| && ks[i] == k;
        assert r.value[i].title == k;
      }
    }
    if Valid(l) {
      ValidSheetsSucceed(l, ks);
    }
  }

  lemma SheetsAreLaidOut(l: MonthlyData, ks: seq<string>, sheets: seq<Sheet>)
    requires forall k :: k in ks ==> k in l
    requires Collect(Passes(l, ks)) == Success(sheets)
    ensures forall i :: 0 <= i < |sheets| ==> sheets[i].title == ks[i]
    ensures forall i :: 0 <= i < |sheets| ==> MonthName(sheets[i].title).Some?
    ensures forall i :: 0 <= i < |sheets| ==> |sheets[i].rows| == 3 + |l[sheets[i].title]|
  {
    forall i | 0 <= i < |sheets|
      ensures sheets[i].title == ks[i]
      ensures MonthName(sheets[i].title).Some? && |sheets[i].rows| == 3 + |l[sheets[i].title]|
    {
      CollectElement(Passes(l, ks), i);
      SheetForLaidOut(l, ks, i);
    }
  }

  lemma ValidSheetsSucceed(l: MonthlyData, ks: seq<string>)
    requires Valid(l)
    requires forall k :: k in ks ==> k in l
    ensures Collect(Passes(l, ks)).Success?
  {
    var rs := Passes(l, ks);
    forall i | 0 <= i < |rs| ensures rs[i].Success? {
      assert ValidMonth(ks[i], l[ks[i]]);
      if i > 0 {
        assert ValidMonth(ks[i - 1], l[ks[i - 1]]);
      }
      SheetForLaidOut(l, ks, i);
    }
    CollectSucceeds(rs);
  }

  lemma SheetIsMonthSheet(l: MonthlyData, ks: seq<string>, sheets: seq<Sheet>, i: int)
    requires forall k :: k in ks ==> k in l
    requires Collect(Passes(l, ks)) == Success(sheets)
    requires 0 <= i < |sheets|
    ensures MonthSheet(l, sheets, i)
  {
    var rs := Passes(l, ks);
    CollectElement(rs, i);
    assert SheetFor(l, ks, i) == Success(sheets[i]);
    SheetForLaidOut(l, ks, i);
    if i > 0 {
      CollectElement(rs, i - 1);
      assert SheetFor(l, ks, i - 1) == Success(sheets[i - 1]);
      SheetForLaidOut(l, ks, i - 1);
      assert sheets[i - 1].title == ks[i - 1];
    }
  }

  /** A failed export reports the first key, in sorted order, whose pass
      fails: every earlier key was exported without error. */
  lemma ExportFailsAtFirstBadKey(l: MonthlyData, ks: seq<string>)
    requires ks == SortedKeys(l.Keys)
    requires ExportSheets(l).Failure?
    ensures exists i :: 0 <= i < |ks| && SheetFor(l, ks, i) == Failure(ExportSheets(l).error)
                        && forall j :: 0 <= j < i ==> SheetFor(l, ks, j).Success?
  {
    var rs := Passes(l, ks);
    assert ExportSheets(l) == Collect(rs);
    CollectFirstFailure(rs);
    var i :| 0 <= i < |rs| && rs[i] == Failure(Collect(rs).error) && forall j :: 0 <= j < i ==> rs[j].Success?;
    assert forall j :: 0 <= j < i ==> SheetFor(l, ks, j).Success? by {
      forall j | 0 <= j < i ensures SheetFor(l, ks, j).Success? {
        assert rs[j].Success?;
      }
    }
    assert SheetFor(l, ks, i) == rs[i];
  }

  /** The balance carried into a sheet is the net amount of the previous
      populated month alone: balances restart at 0.0 each month, so the
      carried value does not accumulate earlier months. */
  lemma CarriedBalanceIsPreviousMonthNet(l: MonthlyData, sheets: seq<Sheet>, i: int)
    requires Valid(l) && ExportSheets(l) == Success(sheets)
    requires 0 < i < |sheets|
    ensures sheets[i].rows[2] == ForwardRow(Net(l[sheets[i - 1].title]))
  {
    ExportLayout(l, sheets, i);
    LastBalanceIsMonthNet(l, sheets[i - 1].title);
  }

  /** Whatever forms are submitted, the ledger they build always exports:
      the lookups of lines 96 and 128 never fail on it. */
  lemma SubmittedFormsExport(forms: seq<Form>)
    ensures ExportSheets(AddAll(map[], forms)).Success?
  {
    EmptyIsValid();
    AddAllPreservesValid(map[], forms);
  }
}

# BalanceBook ledger and monthly export, in Dafny

BalanceBook is a desktop form for recording personal income and expenses.
At its core is an in-memory ledger. The ledger maps a month key `yyyy-mm` to
that month's entries in insertion order. Each entry holds a date, a category,
an income, an expense and a running balance. Two routines work on the ledger.
`add_entry` reads the form, checks the amounts and the date, and appends one
entry to the date's month. `export_yearly_to_excel` writes one worksheet per
month in ascending key order. Each worksheet holds a Thai title row, a column
header, a "Bring forward" row with the previous sheet's closing balance, and
one row per entry.

This project models both routines in `income_expense.py` as pure functions
over immutable data. It also proves what they promise.

- `text.dfy` (module `Text`): Python's string order, and the zero-padded
  decimal fields that `strftime` writes.
- `calendar.dfy` (module `Calendar`): the dates `strptime("%d/%m/%Y")`
  accepts, the display date `dd/mm/yyyy`, and the month key `yyyy-mm`.
- `ledger.dfy` (module `Ledger`): entries, the form fields, `add_entry`, and
  the invariant every reachable ledger keeps. A month key is well formed. A
  month is never empty. Balances follow the running-balance recurrence.
  Every entry is dated in its month.
- `export.dfy` (module `Export`): `get_month_name`, the sorted keys, and the
  sheets and rows of the export. The two lookups that can raise are modelled
  as errors. These are the `KeyError` of the month-name table and the
  `IndexError` of `[-1]` on an empty month. The export is proved never to
  raise on a ledger built by `add_entry`.
- `results.dfy` (module `Results`): `Option`, `Result`, and `Collect`.
  `Collect` models a loop whose body may raise: the first failure ends it.
- `scenarios.dfy` (module `Scenarios`): worked examples. They cover the
  salary-and-cake month, a bonus in a later month, invalid dates, and the
  order of the error checks.

Balances run within one month only. `add_entry` looks at the last entry of
the same month, so each month starts again from 0.0 (lines 39-42).
`Scenarios.BonusLater` shows a bonus opening a later month at 100.0, not
1050.0. The closing balance of a month reaches the next sheet only through
the "Bring forward" row (`Scenarios.CarryIntoLaterMonth`).

## Model

| member | source | states |
|---|---|---|
| Calendar.DaysInMonth | income_expense.py:26 | February has 29 days exactly in a leap year and 28 otherwise. April, June, September and November have 30. Every other month has 31. |
| Calendar.DisplayDate | income_expense.py:32 | The stored date is ten characters `dd/mm/yyyy`. Its three digit fields read back as the day, month and year. |
| Calendar.MonthKey | income_expense.py:33 | The month key is a well-formed `yyyy-mm` whose fields read back as the date's year and month. |
| Calendar.DateInItsMonth | income_expense.py:32-33 | The stored date's `mm` and `yyyy` fields are the fields of the key it is filed under. |
| Calendar.KeyOfFirstDay | income_expense.py:33 | Every well-formed key is the key of a real date, the first day of its month. |
| Calendar.SameKeySameMonth | income_expense.py:33-37 | Two dates are filed under one key exactly when they share year and month. |
| Calendar.KeyOrderIsChronological | income_expense.py:79 | Comparing two keys as strings gives the same result as comparing the months by date. |
| Text.Pad4 | income_expense.py:33 | `%Y` writes a year below 10000 as exactly four digits that read back as the year. |
| Ledger.Append | income_expense.py:32-54 | Only the date's key can be added. Every other month is unchanged. The date's month keeps its old entries as a prefix and grows by exactly one entry. That entry holds the display date, the category and both amounts. Its balance is the month's previous last balance (0.0 if none) plus income minus expense. |
| Ledger.AddEntry | income_expense.py:16-62 | A non-numeric amount reports invalid input. Otherwise a date that does not exist reports an invalid date. Both errors leave the ledger unchanged. On success the entry is filed under the date's key and the month becomes its old entries plus the one new entry. The entry keeps the category. A blank amount is stored as 0.0 and a number as itself. The balance follows the recurrence. |
| Ledger.AppendKeepsRunningBalances | income_expense.py:39-54 | An entry whose balance continues the last one keeps the running-balance recurrence of the month. |
| Ledger.AppendPreservesValid | income_expense.py:36-54 | Appending keeps every key well formed and every month non-empty. It keeps every month on the recurrence and every entry dated in its month. |
| Ledger.AddEntryPreservesValid | income_expense.py:16-62 | `add_entry` keeps that invariant whether it appends or reports an error. |
| Ledger.AddAllPreservesValid | income_expense.py:13-62 | Every ledger reachable from the empty one by submitting forms satisfies the invariant. |
| Ledger.RunningBalancesAreSums | income_expense.py:39-44 | The recurrence holds exactly when each balance equals the month's income minus expense summed up to and including that entry. |
| Ledger.LastBalanceIsMonthNet | income_expense.py:39-44 | In a reachable ledger a month's last balance is that month's net amount alone. |
| Export.Slice | income_expense.py:128 | Python slicing clips bounds past the end. Within the string it is the substring. A slice that runs past the end is the rest of the string. One that starts past the end is empty. |
| Export.MonthName | income_expense.py:113-128 | The name is defined exactly when characters 5-6 of the key are in the table, and then it is the table's entry. Every well-formed key has a name. |
| Export.MonthNameDefined | income_expense.py:113-128 | A key has a month name exactly when characters 5-6 are a month 1-12 written with two digits. |
| Export.MonthCodes | income_expense.py:114-127 | The table's keys are exactly the two-digit months `01` to `12`. |
| Export.SortedKeys | income_expense.py:79 | The sorted keys are the ledger's keys, each exactly once, in strictly ascending string order. |
| Export.ExportSheets | income_expense.py:75-106 | There is one sheet per key and every title is a key. Titles are in strictly ascending order. Each sheet has 3 + n rows. An empty ledger gives no sheets. A key without a month name makes the export fail. A reachable ledger always exports. |
| Export.ExportLayout | income_expense.py:83-103 | Exported sheet i has the month's title, the header, and the "Bring forward" row, then the month's entries. The carried balance is 0.0 for i = 0, otherwise the last balance of sheet i − 1's month. |
| Export.ExportFailsAtFirstBadKey | income_expense.py:82-96 | A failed export reports the error of the first failing key in sorted order. Every earlier key's pass succeeded. |
| Export.CarriedBalanceIsPreviousMonthNet | income_expense.py:90-96 | In a reachable ledger the carried balance is the net amount of the previous populated month alone. It is not a running total across months, and calendar gaps are skipped. |
| Export.SubmittedFormsExport | income_expense.py:96 | For any sequence of submitted forms, the lookups at lines 96 and 128 never fail on the resulting ledger. |
| Results.CollectFirstFailure | income_expense.py:82-103 | A loop whose pass raises stops at the first failing pass, and all earlier passes succeeded. |
| Scenarios.JanuaryKey | income_expense.py:32-33 | 01/01/2025 and 05/01/2025 are filed under `2025-01` and stored as typed. |
| Scenarios.SalaryThenCake | income_expense.py:39-54 | A salary of 1000 then a cake for 50 in one month gives balances 1000.0 and 950.0. |
| Scenarios.BonusLater | income_expense.py:39-44 | A bonus of 100 in a later month opens that month at 100.0, not 1050.0. |
| Scenarios.BonusInLaterMonth | income_expense.py:16-62 | The three forms build the two-month example ledger. |
| Scenarios.CarryIntoLaterMonth | income_expense.py:82-103 | Exporting that ledger gives two sheets in key order. The first carries 0.0. The second carries 950.0, then the bonus row. |
| Scenarios.ImpossibleDates | income_expense.py:25-29 | 31/04, month 13 and year 0 report an invalid date and leave the ledger unchanged. |
| Scenarios.NoLeapDay | income_expense.py:25-29 | 29/02/2023 is an invalid date. |
| Scenarios.NoCenturyLeapDay | income_expense.py:26 | 29/02/1900 is an invalid date. |
| Scenarios.LeapDays | income_expense.py:26 | 29/02/2024 and 29/02/2000 are dates. |
| Scenarios.NumbersCheckedFirst | income_expense.py:21-29 | A non-numeric amount is reported before the date is looked at. |

## Left out

- The Tk window, `update_table`, `clear_fields` and the message boxes (lines 57-60, 110, 137 onward) are presentation only. The model returns a status in place of the dialogs.
- The openpyxl workbook and `wb.save` to a fixed file (lines 76, 106-110) are a foreign library and file I/O. The export returns the sequence of sheets. It does not model what saving a workbook with no sheet at all does. The cells written at lines 86-103 also pass through openpyxl. That library rejects a category holding control characters with `IllegalCharacterError`, and stores a category starting with `=` as a formula. Neither is modelled: a row holds the category as plain text.
- openpyxl's sheet-title rules are left out. Keys are seven characters of digits and a dash, so they can neither break those rules nor collide with the default `Sheet`.
- The text grammars of `float()` and `strptime` are abstracted. An amount field is blank, a number, or not a number. A date field carries day, month and year numbers, or is of another shape. The calendar check that `strptime` makes on those numbers is modelled.
- Ledger.ReadAmount: a number is a real. Python's `float()` also accepts `nan`, `inf` and `infinity`, and turns an overflowing literal such as `1e400` into infinity. None of these is a real. With such an amount the program stores a balance that is NaN or infinite, for which `balance == last + income - expense` can fail. For those inputs `Ledger.AddAllPreservesValid`, `Ledger.RunningBalancesAreSums` and `Ledger.LastBalanceIsMonthNet` do not describe the program.
- Ledger.AddEntry: amounts and balances are exact reals. The IEEE double rounding of `last_balance + income - expense` is not modelled.
- Calendar.MonthKey: years are always written with four digits. On some platforms `strftime("%Y")` leaves years below 1000 unpadded. There a year such as 999 gives the key `999-01`. Its characters 5-6 are `1`, so line 128 raises `KeyError`, and such keys no longer sort by date. On those platforms `Export.ExportSheets` ("a reachable ledger always exports"), `Export.SubmittedFormsExport` and `Calendar.KeyOrderIsChronological` do not describe the program.
- Negative amounts are accepted, as in the code; no contract excludes them.
- Exceptions other than the `ValueError`s of lines 21-29 are not modelled, such as a failure in the Tk calls after the append (lines 57-60).

# HushBudget ledger, modelled in Dafny

HushBudget is a single-page finance dashboard. Its whole ledger lives in
`script.js`:
- a list of transactions, each with an id, a description, a signed amount, a category and a date;
- persisted as one stored text and reloaded at start-up;
- grown by the entry form and shrunk by a list item's delete button;
- shown newest first;
- summarised three ways: a balance, spending per category, and a running balance per "YYYY-MM" month;
- exportable as CSV.

This project models that ledger core as pure Dafny functions over
`seq<Tx>` and proves what each view promises.

| file | module | what it holds |
|---|---|---|
| `wrappers.dfy` | `Wrappers` | `Option` |
| `text.dfy` | `Text` | decimal numerals (`String(n)`), `padStart`, `trim`, `join` |
| `ledger.dfy` | `Ledger` | `Date`, `Tx`, date order, the month key, date and amount texts with their readers |
| `datesort.dfy` | `DateSort` | the stable date sort used by both the list and the monthly view |
| `aggregate.dfy` | `Aggregate` | balance, category totals, monthly running balances |
| `store.dfy` | `Store` | load, submit, delete, display order |
| `csv.dfy` | `Csv` | the CSV export and a reader for it |

Modelling choices:
- **Amounts** are integers in minor units (paise). They are rendered as `String(number)` renders the equivalent decimal: `12.5`, `-0.05`, `300`.
- **Dates** are taken by their components: a year, a month 1–12 and a day 1–31.
- **Id** is the millisecond clock reading at submission, passed in as `now`.
- **Delete** compares ids as text, as the handler does with `String(t.id) !== String(id)`.
- **The stored text's decoder** (JSON in the program) is a function parameter of `Load`.
- **The monthly fold** is proved for any date labelling that gives two dates the same label exactly when they share a month. `Ledger.MonthKey` is shown to be one.
- **Where the code does less than the intended design, the model follows the code.**
  - Ids are not promised unique: the clock can repeat, and delete removes every record whose id renders as the given text.
  - A stored text that does not decode loads as the empty collection.

## Model

| member | source | states |
|---|---|---|
| Store.Load | script.js:22-29 | An absent or empty stored text loads as the empty collection; a text the decoder rejects (the `catch`) also loads as empty; otherwise the decoded collection is used |
| Store.LoadAfterSave | script.js:22-33 | For any codec whose decoder reads back what its encoder writes (a premise, since the JSON codec is not modelled), loading the saved text gives back the saved collection; this documents how save and load pair up and is not a proof about storage |
| Store.Submit | script.js:180-197 | The user is alerted exactly when the description is all whitespace (so trims to empty), the amount is NaN or the date is empty, and then nothing changes; otherwise exactly one record is appended: id = clock reading; a non-empty description cut from the entered one by dropping only surrounding whitespace, with none left at either end; the parsed amount; the category as chosen; the date |
| Store.SubmitDescription | script.js:182-197 | The stored description of an accepted submission is exactly the entered description trimmed |
| Store.SubmitBalance | script.js:180-197 | An accepted submission moves the balance by exactly the submitted amount |
| Store.SubmitTidy | script.js:182-197 | Submission keeps every stored description non-empty with no whitespace at either end |
| Store.Delete | script.js:73 | The filter never lengthens the collection, and a record survives exactly when it was stored and its id does not render as the deleted id text |
| Store.DeleteById | script.js:73 | Deleting by a record's rendered id removes exactly the records with that numeric id, because distinct ids render differently |
| Store.DeleteConcat | script.js:73 | The filter works record by record: deleting from a concatenation deletes from each part, order kept |
| Store.DeleteIdempotent | script.js:73 | Deleting the same id twice is the same as deleting it once |
| Store.DeleteUnique | script.js:73 | When no other record shares the id, the delete removes exactly that one record and keeps the rest in order |
| Store.DeleteBalance | script.js:73 | Removing the one record with an id moves the balance by minus its amount |
| Store.DeleteTidy | script.js:73 | Deleting keeps every stored description non-empty and trimmed |
| Store.DisplayOrderSpec | script.js:54-55 | The displayed list is a permutation of the stored records; dates never increase down the list; records of the same day keep their stored order |
| Store.DisplayOrderUnique | script.js:54-55 | Any list with those three properties is the displayed list |
| DateSort.Sort | script.js:100 | Sorting gives a permutation of the input, ordered by the comparator's rank |
| DateSort.SortStable | script.js:55 | For every date, the sorted list holds that date's records in their original order (the engine's sort is stable) |
| DateSort.StableSortIsSort | script.js:100 | Any sorted list that keeps every date's records in their original order equals the model's sort, so the model fixes the result of any stable sort |
| Ledger.DateKeyOrder | script.js:55 | The comparator subtracts the dates' millisecond instants; the model's stand-in number for a date orders dates as those instants and the calendar do, and tells distinct dates apart |
| Aggregate.ComputeBalance | script.js:83-84 | The reducer's running sum from 0 equals the sum of all amounts; it is 0 for an empty collection |
| Aggregate.BalanceAppend | script.js:84 | The balance of two collections joined is the sum of their balances |
| Aggregate.CategoryLabel | script.js:92 | An empty category is counted as "Other"; any other category is counted under its own name; the name is never empty |
| Aggregate.CategoryOther | script.js:89-96 | A record with an empty category makes "Other" a key of the totals, whose value is the summed spending counted under "Other" |
| Aggregate.Spending | script.js:93 | Spending contributes its magnitude; income contributes nothing |
| Aggregate.CategoryTotalsSpec | script.js:89-96 | A name has an entry exactly when some record is counted under it; the entry is the summed spending under that name and never negative |
| Aggregate.CategoryIncomeOnly | script.js:89-96 | A category that only ever saw income still has an entry, and its value is 0 |
| Aggregate.CategoryExample | script.js:89-96 | A spending of 50 and an income of 200 in "Food" give exactly {"Food": 50} |
| Aggregate.MonthKeySeparatesMonths | script.js:104-105 | Two dates get the same "YYYY-MM" key exactly when they fall in the same month |
| Aggregate.MonthlyBalancesKeys | script.js:98-111 | The monthly map has a key exactly when some record falls in that month: no gaps filled and an empty map for no records |
| Aggregate.MonthlyBalancesValue | script.js:98-111 | A month's entry is the sum of the amounts of all records dated in that month or earlier, whatever the stored order |
| Aggregate.MonthlyBalancesLatest | script.js:98-111 | The entry of the latest month equals the balance |
| Ledger.MonthKey | script.js:105 | The key is the full year as `String` renders it, a dash, and two digits reading as the month |
| Ledger.MonthKeyRoundTrip | script.js:105 | Reading a month key back gives the date's year and month |
| Ledger.MonthKeySameMonth | script.js:104-105 | Two dates share a month key exactly when they lie in the same month |
| Text.Pad2 | script.js:105 | `padStart(2, '0')` of a month gives exactly two digits reading as the month |
| Text.ParsePaddedNat | script.js:105 | Zero padding keeps a rendered number's value |
| Text.Trim | script.js:182 | The trimmed text is empty exactly when the input is all whitespace; it has no whitespace at either end and is a slice of the input with only whitespace cut away |
| Text.TrimUnique | script.js:182 | A non-empty slice of the input with only whitespace around it and none at either of its ends is the trimmed text, so those properties pin trimming down |
| Text.TrimIdempotent | script.js:182 | Trimming twice equals trimming once |
| Text.NatToStringInjective | script.js:73 | Two ids render as the same text exactly when they are equal |
| Ledger.AmountTextRoundTrip | script.js:212 | Reading back the text `String(t.amount)` writes gives the amount |
| Ledger.DateTextRoundTrip | script.js:185-194 | Reading back the date field's "YYYY-MM-DD" text gives the date |
| Csv.Quote | script.js:212 | A field is written wrapped in double quotes, with every quote inside paired, and at least two characters longer than the field |
| Csv.Escape | script.js:212 | Escaping leaves no lone double quote, never shortens the field, and leaves a quote-free field unchanged |
| Csv.ReadQuote | script.js:212 | A quoted, escaped field reads back as the original field when no quote follows it |
| Csv.QuoteExample | script.js:212 | Text followed by a quoted word, like `He said "hi"`, is written as `"He said ""hi"""`: every quote doubled, the whole wrapped in quotes |
| Csv.Export | script.js:209-213 | Export is refused exactly when there are no records; otherwise the text starts with the unquoted header line and a line feed |
| Csv.ExportRoundTrip | script.js:209-213 | Reading an export back gives exactly the records, in stored order: the quoting, the comma and line-feed joins and the field texts lose nothing |

## Left out

- DOM rendering, the Chart.js pie and line charts, the theme toggle and its stored preference: presentation only.
- The stored text's storage and the JSON encoding: `Load` takes the decoder as a parameter. A stored text that parses to something other than an array (such as `null`) is treated as undecodable here, whereas the program would then hold that value.
- `save`: it only writes the collection out. `Store.LoadAfterSave` takes the codec's round trip as a premise, so nothing about persistence itself is proved.
- `fmtCurrency` and `toLocaleDateString`: locale formatting for display only.
- The Blob, object URL and download click of the export: I/O. `Csv.Export` returns the text, and `None` where the program alerts.
- Floating point:
  - amounts are exact minor-unit integers, so `parseFloat` input with more than two decimals, `Infinity` (which passes the NaN test) and rounding error in the sums are not modelled;
  - amounts of 1e21 or more, which `String` renders in exponent form, are not distinguished.
- JavaScript `Date` parsing: "YYYY-MM-DD" parses as UTC midnight while `getMonth` reads local time, so in time zones west of UTC a record dated the 1st lands in the previous month's key. The model keys records by their calendar date.
- Calendar validity: a day 31 in a 30-day month, or 29 February in a non-leap year, is accepted as a date.
- Object-key quirks of the category and month maps (for example a category named `__proto__`, or integer-like keys enumerating first): the maps are Dafny maps.
- The alert texts and the form reset after a submission: UI.
- Ledger.DateTextRoundTrip: the CSV date field is rendered from the date's components with a four-digit year. The program writes the stored field text itself, which is the same text for the dates a date input produces.

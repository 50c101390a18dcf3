# Personal expense tracker: a verified model of its core

This project models the core of a small command-line expense tracker. The
tracker keeps expenses in an `expenses` table: an id, a date, a category, an
amount and an optional description. It has three commands:

- `add` validates a date, an amount, a category and a description, then
  inserts one row and commits, or rolls back.
- `list` shows the rows that match an optional case-insensitive category and
  an optional inclusive date range, newest first.
- `summary` groups the rows, optionally of one month, by category. It ranks
  the groups by total, optionally keeps only the top N, and reports the
  grand total of the rows shown and the highest category.

The database is modelled as a sequence of records. The SQL queries become
functions over that sequence: filter, sort, group, sum and limit.

Files:

| file | module | contents |
|---|---|---|
| `wrappers.dfy` | `Wrappers` | `Option` and `Result` |
| `sequences.dfy` | `Sequences` | a multiset fact shared by the listing and the summary |
| `text.dfy` | `Text` | Python's `str.strip()`, digit strings, plain `Decimal` literals, ASCII case folding |
| `calendar.dfy` | `Calendar` | dates, leap years, `YYYY-MM-DD` / `YYYY-MM` parsing and the ISO text of a date |
| `expense.dfy` | `Expenses` | the `Expense` record, its column widths and its `__str__` form |
| `store.dfy` | `Store` | the table as a class: committed rows, next id, the commit/rollback step |
| `add.dfy` | `AddCommand` | the validators and `add_expense_cmd` as a method on the store |
| `list.dfy` | `ListCommand` | `_parse_date_opt`, the filters and the ordering of `list_expenses_cmd` |
| `summary.dfy` | `SummaryCommand` | `_validate_month`, the top-N check, grouping, ranking, the limit and the grand total |

Modelling choices:

- Amounts are exact `real` numbers rather than floats.
- `date.today()` is a parameter `today`.
- `List` and `Summary` are functions of the stored rows. Both commands only read, so they cannot change the store.
- Whether the commit succeeds is decided by the storage backend, so it is a
  boolean parameter of `AddExpense`.
- `summary` groups in order of first appearance. It ranks with a stable sort
  by total, largest first. The source gives no tie-break between equal
  totals, so the order of ties is the backend's. No property below depends on
  how ties are ordered.

Behaviour of the code that a reader might not expect, as the model states it:

- The grand total sums only the rows returned, after `--top` truncation
  (commands/summary.py:100). `SummaryCommand.GrandTotalOfShownRows` states
  that the shown total plus the omitted totals make up the month's sum.
- Equal totals have no tie-break (commands/summary.py:87); their order is
  left to the backend.
- `_validate_month` returns the text unchanged once `strptime(s, "%Y-%m")`
  accepts it (commands/summary.py:43-49). That parser also reads a month
  without its leading zero, so `2025-7` passes validation. The filter then
  compares it with `strftime('%Y-%m', date)`, which always writes two month
  digits, so no row matches and the command prints "No matching expenses."
  (`SummaryCommand.UnpaddedMonthMatchesNothing`).
- A failed commit is caught, reported and rolled back (commands/add.py:96-98),
  and the command returns normally. `AddExpense` reports `SaveFailed` for a
  failed commit and then leaves the store as it was.
- The description column is declared `String(255)` (models/expense.py:15),
  but nothing enforces the width: SQLite does not enforce `VARCHAR` widths,
  and the command does not check the length. `AddCommand.LongDescriptionKept`
  shows a 256-character description being kept.

## Model

| member | source | states |
|---|---|---|
| Text.Strip | commands/add.py:41 | `str.strip()` returns a result no longer than its input with no Python whitespace at either end |
| Text.StripOfPadded | commands/add.py:41 | stripping whitespace padding from a non-empty stripped core gives exactly the core |
| Text.StripIdempotent | commands/add.py:41 | stripping twice is the same as stripping once |
| Text.StripEmptyIffAllSpaces | commands/add.py:41-43 | the stripped text is empty if and only if the input is all whitespace |
| Text.PadDigitsOfNumber | commands/add.py:16 | reading a fixed-width digit field and writing it back at that width gives the same text |
| Text.ParseDecimal | commands/add.py:27 | `Decimal(value)`: empty or all-whitespace text is no number. `ParseDecimalAccepts` and its converse `ParseDecimalShape` give the whole accepted grammar and its value, `ParseUnsignedInteger` the plain integers, `ParseDecimalRejects` four refused texts |
| Text.ParseDecimalAccepts | commands/add.py:27 | whitespace padding, an optional `+` or `-`, and digits with an optional point and fraction digits (at least one digit overall, so `5`, `+5`, `.5` and `5.` all count) parse to the signed value of the literal |
| Text.ParseDecimalShape | commands/add.py:27 | every text that parses is of that form (padding, optional sign, plain literal), and its value is the signed value of the literal |
| Text.ParseUnsignedInteger | commands/add.py:27 | padded digits parse to the integer they spell |
| Text.NoLiteralStartRejected | commands/add.py:27-29 | text whose stripped form starts with neither a digit, a sign nor a point is no number |
| Text.LonePointRejected | commands/add.py:27-29 | a lone point is no number |
| Text.TwoPointsRejected | commands/add.py:27-29 | a literal with two points is no number |
| Text.DoubledSignRejected | commands/add.py:27-29 | a literal with two leading minus signs is no number |
| Text.ParseDecimalRejects | commands/add.py:27-29 | `abc`, `.`, `1.2.3` and `--5` are no number |
| Text.ParsePointLiteral | commands/add.py:27 | `Decimal` reads an unsigned literal `w.f` with digits on both sides of the point as the value `LiteralValue(w, f)`, with no rounding |
| Text.LiteralValueExact | commands/add.py:27 | the value of the literal `w.f` is exactly `w + f / 10^len(f)` |
| Text.CentsLiteralValue | commands/add.py:27 | the two-decimal literal written for `n` hundredths, such as `12.50`, denotes exactly `n / 100` |
| Text.ParseNegativeInteger | commands/add.py:27 | a minus sign followed by digits is read as the negated integer |
| Text.NegativeLiteral | commands/add.py:27-31 | a literal with a leading minus sign never has a positive value |
| Text.EqualsIgnoreCaseExact | commands/list.py:82 | two texts compare equal under `lower(x) LIKE lower(y)` if and only if they have the same length and each pair of characters is equal or is one ASCII letter in its capital and small form |
| Text.EqualsIgnoreCaseExamples | commands/list.py:82 | "Food" equals "FOOD", while the non-ASCII "É" and "é" differ |
| Calendar.DaysInMonth | commands/add.py:16 | every month has 28 to 31 days; only February has fewer than 30; April, June, September and November have 30; February has 29 if and only if the year is a leap year |
| Calendar.ParseFormattedDate | commands/add.py:16 | the ISO text of a year-month-day triple parses back to it if it is a real date, and is rejected otherwise |
| Calendar.FebruaryTwentyNinth | commands/add.py:16 | `YYYY-02-29` is accepted if and only if the year is a leap year |
| Calendar.LeapDayRead | commands/add.py:16 | `2024-02-29` and `2000-02-29` are read as those dates |
| Calendar.LeapDayRefused | commands/add.py:16 | `2023-02-29` and `1900-02-29` are refused |
| Calendar.DateLeTotalOrder | commands/add.py:20 | the date comparison is reflexive, total, antisymmetric and transitive |
| Calendar.ParseDate | commands/add.py:16 | `strptime(s, "%Y-%m-%d")`, also used by the listing's bounds, yields only valid dates, from 10-character texts; `ParseDateExact` gives exactly which texts it accepts |
| Calendar.ParseDateExact | commands/add.py:16 | `strptime(s, "%Y-%m-%d")` yields `d` if and only if `d` is a valid date and `s` is its `YYYY-MM-DD` text |
| Calendar.FormatDate | commands/add.py:57 | `str(date)` (also models/expense.py:27) is ten characters with dashes at positions 4 and 7; `FormatDateRoundTrip` and `ParseFormattedDate` show it is read back as the same date |
| Calendar.FormatYearMonth | commands/summary.py:85 | `strftime("%Y-%m")` is seven characters with a dash at position 4; `FormatYearMonthInjective` shows distinct valid year-months get distinct texts |
| Calendar.FormatDateRoundTrip | commands/add.py:16 | parsing the ISO text of a valid date gives back the date |
| Calendar.ParseYearMonth | commands/summary.py:46 | `strptime(s, "%Y-%m")` yields only valid year-months, from 6- or 7-character texts; `ParseYearMonthExact` gives exactly which texts it accepts |
| Calendar.ParseYearMonthExact | commands/summary.py:46 | `strptime(s, "%Y-%m")` accepts `s` as a year and month if and only if the year is 1..9999, the month is 1..12 and `s` is its `YYYY-MM` text or, for months below 10, the same text without the month's leading zero |
| Calendar.FormatYearMonthInjective | commands/summary.py:85 | two valid year-months have the same `YYYY-MM` text if and only if they are equal |
| Expenses.Stored | models/expense.py:8-15 | the stored row has the given id and exactly the draft's date, category, amount and description |
| Expenses.Describe | models/expense.py:25-27 | `__str__` is `date \| category \| amount`, followed by the separator and the description exactly when the description is present and non-empty |
| Store.ConsistentIdsUnique | models/expense.py:11 | in a consistent table no two rows share an id |
| Store.AppendKeepsConsistent | models/expense.py:11-12 | appending a row with a valid date that carries the next id keeps the table consistent |
| Store.ExpenseStore.constructor | models/expense.py:8-9 | a new table is empty, consistent, and its next id is 1 |
| Store.ExpenseStore.Insert | commands/add.py:93-98 | a successful commit appends exactly one row with the draft's fields and a fresh id; a failed commit leaves rows and counter unchanged; the invariant is kept |
| AddCommand.ParseExpenseDate | commands/add.py:14-22 | an accepted date is valid, not after `today`, and is what the text says; every failure is the format error or the future-date error |
| AddCommand.ParseExpenseDateAccepts | commands/add.py:14-22 | `d` is accepted if and only if it is a valid date no later than `today` written as `YYYY-MM-DD`, so `today` itself is accepted |
| AddCommand.ParseExpenseDateFormatError | commands/add.py:16-18 | the format error is raised if and only if the text is not the `YYYY-MM-DD` form of any valid date |
| AddCommand.NonexistentDayRejected | commands/add.py:16-18 | `2025-02-30`, a day past the end of February, is refused with the format error |
| AddCommand.FutureDateRejected | commands/add.py:20-21 | a valid date after `today` is rejected as in the future |
| AddCommand.DateArgument | commands/add.py:53-60 | a given `--date` is passed on unchanged; an omitted one is today's text, which parses back to today (`DefaultDateAccepted`) |
| AddCommand.DefaultDateAccepted | commands/add.py:57 | omitting `--date` records the expense under `today` |
| AddCommand.IntegerAmountAccepted | commands/add.py:25-33 | padded positive integer text is accepted as that integer |
| AddCommand.FiveAccepted | commands/add.py:25-33 | `5` is accepted as 5 |
| AddCommand.ValidateAmount | commands/add.py:25-33 | the amount is accepted if and only if it parses to a value > 0, and the accepted amount is that value; "not a number" if and only if the text is no decimal; "not greater than zero" if and only if it parses to a value <= 0 |
| AddCommand.PointAmountAccepted | commands/add.py:25-33 | every positive literal `w.f` is accepted with exactly the value it denotes |
| AddCommand.NegativeAmountRejected | commands/add.py:31-32 | any number with a leading minus sign is rejected as not greater than zero |
| AddCommand.DecimalAmountExample | tests/test_add.py:7-24 | `10.5` is accepted as exactly 10.5 |
| AddCommand.NegativeAmountExample | tests/test_add.py:27-32 | `-3` is rejected as not greater than zero |
| AddCommand.ValidateCategory | commands/add.py:39-46 | an accepted category is the stripped input, 1 to 50 characters; "empty" if and only if the input is all whitespace; "too long" if and only if the stripped input exceeds 50 characters |
| AddCommand.ValidateCategoryIdempotent | commands/add.py:41-46 | validating an accepted category again returns it unchanged |
| AddCommand.PaddedCategoryAccepted | commands/add.py:41-46 | a category of 1 to 50 characters is accepted as itself whatever whitespace surrounds it |
| AddCommand.NormalizeDescription | commands/add.py:82 | the description is absent if and only if the input is all whitespace; otherwise it is the stripped, non-empty input |
| AddCommand.NormalizeDescriptionIdempotent | commands/add.py:82 | normalising a normalised description changes nothing |
| AddCommand.LongDescriptionKept | models/expense.py:15 | a description longer than the declared 255 characters is kept whole |
| AddCommand.ValidateDraft | commands/add.py:79-91 | checks run date, then amount, then category, and the first failure is the error; when all three pass, the draft holds exactly their values and the normalised description; an accepted draft is well formed (valid past-or-today date, positive amount, stripped category of 1 to 50 characters, absent or stripped description) |
| AddCommand.ValidateDraftFields | commands/add.py:79-91 | the options are accepted as draft `d` if and only if each option is accepted on its own with `d`'s value and the description normalises to `d`'s |
| AddCommand.DescriptionNeverRejects | commands/add.py:82 | the description never decides whether the command is rejected, or with which error |
| AddCommand.AddExpense | commands/add.py:76-100 | a validation failure leaves the store untouched; otherwise a successful commit appends exactly one row with the validated fields and a fresh id, and a failed commit leaves the store as it was; a saved row is well formed |
| ListCommand.CategoryCaseExamples | commands/list.py:81-82 | `--category Food` matches a row stored as "FOOD", and "é" does not match "É" |
| ListCommand.ParseDateOpt | commands/list.py:36-43 | an absent bound stays absent; a present bound is never accepted as absent; an accepted bound is a valid date whose text it is; the error names the option |
| ListCommand.MalformedBoundRejected | commands/list.py:40-43 | a present bound that is the `YYYY-MM-DD` text of no valid date is rejected with the error naming its option |
| ListCommand.ParseDateOptExact | commands/list.py:36-43 | a bound is accepted as `d` if and only if it is `d`'s `YYYY-MM-DD` text, with no future-date check |
| ListCommand.Select | commands/list.py:79-87 | the filtered rows hold each matching stored row exactly as often as it is stored, and no other row |
| ListCommand.SortNewestFirst | commands/list.py:89 | the result is a permutation of its input ordered by date descending, then id descending |
| ListCommand.Query | commands/list.py:79-89 | the listing is newest first and holds exactly the matching rows, each as often as it is stored |
| ListCommand.QuerySound | commands/list.py:81-87 | every listed row satisfies the category filter and both inclusive date bounds |
| ListCommand.QueryComplete | commands/list.py:79-89 | every stored row that satisfies all the filters is listed |
| ListCommand.RejectionIgnoresStore | commands/list.py:70-74 | a rejection depends only on the options, never on the stored rows |
| ListCommand.ReversedRangeRejected | commands/list.py:73-74 | with both bounds given, the command is rejected if and only if `from` is after `to` |
| ListCommand.CategoryMatches | commands/list.py:81-82 | no category, or an empty one, keeps every row; a category keeps a row whose own category is the same text, and only rows whose category has its length; `QuerySound` and `ListedRowsMatch` tie it to the listing |
| ListCommand.Matches | commands/list.py:81-87 | with no option every row matches; a row matching both bounds lies between them, so the bounds are ordered; `QuerySound` and `ListedRowsMatch` tie it to the listing |
| ListCommand.List | commands/list.py:67-94 | `list_expenses_cmd` never reports an empty table; `RejectionIgnoresStore`, `ReversedRangeRejected`, `ListedRowsMatch`, `ListedRowsComplete`, `NoMatchesIffNothingMatches` and `ListedNewestFirst` characterise what it reports |
| ListCommand.ListedRowsMatch | commands/list.py:81-87 | every row listed by the command matches the category (case-insensitively, when one is given and non-empty) and lies within the bounds |
| ListCommand.ListedRowsComplete | commands/list.py:79-89 | every stored row that meets the options is listed |
| ListCommand.NoMatchesIffNothingMatches | commands/list.py:92-94 | for accepted options, "No matching expenses." is reported if and only if no stored row meets them |
| ListCommand.UnfilteredListsEverything | commands/list.py:79-89 | with no options, a non-empty table is listed whole, each row as often as it is stored |
| ListCommand.UniqueIdsStoredOnce | models/expense.py:11 | when ids are unique, each row is stored at most once |
| ListCommand.ListedNewestFirst | commands/list.py:89 | consecutive listed rows never go forward in date, and on the same date their ids strictly decrease |
| ListCommand.FoodListingExample | tests/test_list.py:17-25 | over the test's seed rows, `-c food` lists the two food rows, August first, and no transport row |
| ListCommand.JulyBoundsParsed | tests/test_list.py:27-35 | `2025-07-11` and `2025-07-31` are read as those dates |
| ListCommand.JulyListingExample | tests/test_list.py:27-35 | over the seed rows, `-f 2025-07-11 -t 2025-07-31` lists only the 12 July transport row |
| SummaryCommand.ValidateMonth | commands/summary.py:37-49 | an absent month stays absent; an accepted month is returned unchanged; only a present month can be rejected |
| SummaryCommand.ValidateMonthExact | commands/summary.py:43-49 | a month is accepted if and only if it is the `YYYY-MM` text of a year 1..9999 and a month 1..12, or that text without the leading zero of a month below 10 |
| SummaryCommand.CheckTop | commands/summary.py:70-71 | the limit is accepted if and only if it is absent or positive |
| SummaryCommand.InMonth | commands/summary.py:85 | with no month every record counts; a record counts for a given month only if the month text is seven characters `YYYY-MM`; `InMonthExact` gives the exact condition |
| SummaryCommand.InMonthExact | commands/summary.py:83-85 | for an accepted month, a record is in the month if and only if the month was written with two digits and the record's year and month equal the given ones |
| SummaryCommand.UnpaddedMonthMatchesNothing | commands/summary.py:43-49 | an accepted month written without its leading zero selects no record, and the command reports "No matching expenses." |
| SummaryCommand.UnpaddedMonthExample | commands/summary.py:43-49 | `--month 2025-7` is accepted, and over the seed rows, which include July 2025, it reports no matches |
| SummaryCommand.FilterMonth | commands/summary.py:83-85 | the aggregate reads exactly the records of the month, each as often as it is stored |
| SummaryCommand.AddToGroups | commands/summary.py:87 | adding a record to distinct groups keeps them distinct, adds its category, adds its amount to that category's total only, and adds it to the sum (`AddToGroupsDistinct`, `AddToGroupsLookup`, `AddToGroupsTotal`) |
| SummaryCommand.Ranking | commands/summary.py:78-87 | the month's groups, ordered by descending total, with distinct categories, exactly the categories of the month's records, and a grand total equal to the month's amount sum; `RankSameCategories` and `RankKeepsDistinct` are the steps it uses, and `RankTotal` gives each row the total of its category |
| SummaryCommand.Group | commands/summary.py:78-87 | one group per distinct exact-case category, each total the sum of that category's amounts, and the totals add up to the sum of all amounts |
| SummaryCommand.LookupDistinct | commands/summary.py:78-87 | with distinct categories each row's total is the one recorded for its category |
| SummaryCommand.DistinctCount | commands/summary.py:87 | with distinct categories there are as many rows as categories |
| SummaryCommand.Rank | commands/summary.py:87 | the ranking is ordered by total, non-increasing, and is a permutation of the groups with the same sum |
| SummaryCommand.ByTotalDescendingPairwise | commands/summary.py:87 | in the ranking an earlier row never has a smaller total than a later one |
| SummaryCommand.RankKeepsDistinct | commands/summary.py:87 | ranking keeps one row per category |
| SummaryCommand.RankTotal | commands/summary.py:87 | each ranked row keeps its category's total |
| SummaryCommand.Limit | commands/summary.py:89-90 | without a limit the rows are unchanged; with `top = N` they are the first min(N, rows) rows |
| SummaryCommand.GrandTotalSplit | commands/summary.py:100 | the sum of the rows is the sum of any prefix plus the sum of the rest |
| SummaryCommand.Summary | commands/summary.py:67-119 | a report is never empty and highlights its first row |
| SummaryCommand.RejectionOrder | commands/summary.py:69-71 | a bad month is reported first, whatever the limit; a non-positive limit is reported if and only if the month is accepted |
| SummaryCommand.ReportIsPrefix | commands/summary.py:87-92 | the reported rows are the first min(N, k) rows of the full ranking of k categories |
| SummaryCommand.ReportTotals | commands/summary.py:78-87 | without a limit: one row per distinct category of the month, as many rows as categories, each total the sum of that category's amounts in the month, ordered non-increasing |
| SummaryCommand.LimitKeepsLargest | commands/summary.py:87-90 | no category the limit leaves out has a larger total than a shown one |
| SummaryCommand.HighestIsLargest | commands/summary.py:114-119 | the highlighted category has the largest total of the month, shown or not |
| SummaryCommand.GrandTotalOfShownRows | commands/summary.py:100 | the grand total is the sum of the shown rows; it plus the omitted totals is the sum of the month's amounts, and without a limit it is that sum |
| SummaryCommand.NoMatchesIffMonthEmpty | commands/summary.py:93-95 | for accepted options, "No matching expenses." is reported if and only if no record falls in the month |
| SummaryCommand.SeededGroups | tests/test_summary.py:7-15 | the test's seed rows group into food 15 and transport 20 |
| SummaryCommand.SeededRanking | tests/test_summary.py:17-27 | the seed rows rank transport 20 before food 15 |
| SummaryCommand.TopOneExample | tests/test_summary.py:17-27 | with `-n 1` only transport 20 is shown, as grand total and highest category, and food is absent |

## Left out

- I/O: terminal output through `click.echo`/`secho` and `tabulate`, prompts, and process exit codes.
- Expenses.Describe: the amount's `.2f` text is a parameter. Python's float-to-two-decimals rendering is not modelled.
- `Expense.__repr__` (models/expense.py:17-23) is left out. It depends on Python's `repr` quoting of strings, which has no counterpart here.
- Float storage of amounts (models/expense.py:14, commands/add.py:90) is left out. `float(amount)` turns a tiny positive Decimal into 0.0, a huge one into inf, and most others into a nearby value. The model keeps the exact real, so "a saved row has an amount > 0 equal to the parsed value" holds of the model only, not of the stored float.
- Text.ParseDecimal: only plain signed literals with digits and an optional point. Python's `Decimal` grammar also has exponents, `NaN`, `Infinity`, underscores and non-ASCII digits; the uncaught `NaN` comparison error is out of scope too.
- Calendar.ParseDate: only the strict fixed-width form. `strptime` also accepts a month or day without zero padding, such as `2025-7-1`, and a day padded with a space; those are rejected here.
- Calendar.ParseDate / Calendar.ParseYearMonth: `strptime` reads `%Y` as four Unicode `\d` digits, and the second digit of a `%d` day from 10 to 29 likewise, so it accepts `٢٠٢٥-07` and `2025-07-1٥`; `%m` and every other digit position take ASCII digits only, so `2025-٠٧` is refused. The model accepts only the ASCII digits `0`-`9` in every field.
- ListCommand.CategoryMatches: the `LIKE` wildcards `%` and `_` in the category are not modelled. Case folding is ASCII only, as in SQLite's `lower()`.
- AddCommand.AddExpense: the `except Exception` (commands/add.py:96) also covers the success message at line 95, which renders `Expense.__str__` after the commit has expired the row's attributes and writes to the terminal. If that step raises after a successful commit, the row stays stored and the failure message is printed. The model has no such outcome: `SaveFailed` always means the store is unchanged.
- `date.today()` and the commit outcome are parameters, because the clock and the storage backend are outside the model.
- SQLite's id assignment is modelled as a counter above every existing id.
- SummaryCommand.Rank: ties in the `ORDER BY` are ordered by the backend. The model fixes one order and proves only properties that hold for every tie order.
- tracker.py (the menu and command wiring), db/database.py (engine and session setup), init_db.py (schema reset and seeding) and tests/conftest.py (temp-database fixture) are plumbing and are not modelled.

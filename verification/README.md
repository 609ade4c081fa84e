# Bot-Financeiro expense bot: a Dafny model

This is a model of the logic behind a Telegram bot that keeps personal expenses in a database table. It covers four commands:

- `/adicionar valor tag DD/MM/AAAA comentário` checks its argument tokens in a fixed order and stores a record `(user_id, amount, tag, expense_date, comment)`:
  - at least four tokens;
  - a tag from the eleven `ALLOWED_TAGS`, after lower-casing;
  - a positive amount, where a decimal comma counts as a point;
  - a calendar date, converted from `%d/%m/%Y` to `%Y-%m-%d`.
- `/total` lists the caller's expenses, newest date first. Each line holds the amount with two decimals, the upper-cased tag, the date shown again as day/month/year, and the comment. A line with the running total follows.
- `/relatorio` adds the caller's amounts up per tag, lists the tags from the largest total down with each one's share of the grand total, and ends with the grand total.
- `/limpar` deletes the caller's rows.

The modules follow the program:

| module | what it holds |
|---|---|
| `Seqs` | Running sums, Python's `str.split`/`str.join`, and messages grown line by line. It also holds the stable descending sort that `sorted(..., reverse=True)` performs. |
| `Numerals` | Digit strings, zero padding (`strftime`), a plain decimal reader (`float()` on plain decimals), `format(x, '.Nf')` on exact values, and the Latin-1 lower-casing that `str.lower()` applies to the tag token. |
| `Tags` | `ALLOWED_TAGS`, the membership test, and upper-casing of the tag names (lower-casing is in `Numerals`). |
| `Dates` | The Gregorian calendar, `strptime` with `%d/%m/%Y` and `%Y-%m-%d`, and `strftime`. |
| `Amounts` | The amount token. |
| `Expenses` | The record and the add command's validation, as a function that returns the record or the first failure. |
| `History` | The `/total` reply. It is a specification function plus the imperative builder (`BuildHistory`), which keeps a running total and grows the message line by line. |
| `Report` | The `/relatorio` reply. It is a specification function plus the imperative builder. `Tally` fills a per-tag map and the grand total in one pass. A Dafny `map` has no order, so `Tally` also keeps the tags in a separate `order` sequence, in the order in which they are first inserted, as the source's `defaultdict` remembers them. `BuildReport` sorts the items and appends one line per item. |
| `Bot` | A `Store` class whose `rows` field is the table. Its handler methods filter by user, order the history newest first, and delete one user's rows. |

Amounts are exact reals. The outcome of each database call is a `reachable` parameter; a failed call is answered with the handler's error message.

Two behaviours of `main.py` a reader might not expect:

- **Report ties.** Tags with equal totals stay in the order in which they first appear in the fetched rows (`sorted` is stable). They are not ordered by name.
- **Empty comment.** The code has no check for an empty comment. `/adicionar` with four tokens always yields the fourth token as the comment.

## Model

| member | source | states |
|---|---|---|
| Seqs.SortDesc | main.py:175-176 | `sorted(..., reverse=True)` returns the same elements, with multiplicities, and the same length |
| Seqs.SortDescSorted | main.py:175-176 | the sorted items run from the largest key down |
| Seqs.SortDescStable | main.py:175-176 | for every key value, the elements carrying it keep their input order (stability) |
| Seqs.SortDescSum | main.py:175-176 | reordering by the sort changes no sum over the elements |
| Seqs.SortDescMember | main.py:175-176 | an element is in the sorted result exactly when it is in the input |
| Seqs.SortDescDistinct | main.py:175-176 | sorting keeps distinct elements distinct |
| Seqs.SortDescAll | main.py:175-176 | a property of every input element holds for every sorted element |
| Seqs.SplitJoin | main.py:74 | splitting a join of separator-free pieces gives the pieces back |
| Seqs.MapAllSpec | main.py:134-139 | mapping every row succeeds exactly when each row maps, and then gives the images in order |
| Seqs.SplitTerminated | main.py:142-146 | a message built from separator-terminated lines splits back into those lines |
| Numerals.RoundHalfEven | main.py:143 | the rounded count lies within half a unit of the value |
| Numerals.Pad | main.py:93-94 | `strftime`'s zero padding writes exactly `width` digits whose value is the number |
| Numerals.PadValue | main.py:93-94 | a digit string is the zero padding of its own value to its own width |
| Numerals.Fixed | main.py:143 | `format(x, '.Nf')` (also at main.py:146, 184 and 186); Numerals.FixedReadsBack, Numerals.FixedAccurate and Numerals.FixedExact state what it writes |
| Numerals.FixedReadsBack | main.py:143 | what `:.Nf` writes reads back as the value rounded to N decimals, with its sign |
| Numerals.FixedAccurate | main.py:143 | what `:.Nf` writes reads back within half a unit of the last decimal place |
| Numerals.FixedExact | main.py:146 | an amount in whole cents is written exactly |
| Numerals.ParseDecimal | main.py:83 | a decimal reads as negative only when it starts with '-' |
| Numerals.ParseUnsignedWhole | main.py:83 | a digit string reads as that whole number |
| Numerals.ParseUnsignedPoint | main.py:83 | digits around one point read as the whole part plus the fraction over ten to its length |
| Numerals.ParseUnsignedSound | main.py:83 | every accepted unsigned decimal is one of those two spellings, read as stated there |
| Numerals.ParseDecimalSign | main.py:83 | a leading '+' changes nothing and a leading '-' negates the unsigned reading |
| Numerals.Lower | main.py:71 | `str.lower()` maps every character with the Latin-1 case table |
| Tags.Find | main.py:77 | the membership test finds a tag with exactly that name, or reports that no listed name matches |
| Tags.AllowedTagsDistinct | main.py:33-36 | no name is listed twice in `ALLOWED_TAGS` |
| Tags.ParseTag | main.py:77 | the `tag not in ALLOWED_TAGS` test on the lower-cased token; Tags.ParseTagExact states that exactly the eleven names are accepted, each as its own tag |
| Tags.ParseTagExact | main.py:33-36 | exactly the eleven names are accepted, each naming its own tag |
| Tags.Upper | main.py:143 | `str.upper()` maps every character with the Latin-1 case table |
| Tags.DisplayName | main.py:184 | `tag.upper()` (also at main.py:143); Tags.DisplayNameCase and Tags.DisplayNameOneWord state that it lower-cases back to the tag and is one word |
| Tags.DisplayNameCase | main.py:184 | lower-casing an upper-cased tag name gives the stored name back |
| Tags.DisplayNameOneWord | main.py:143 | an upper-cased tag name holds no space and no line break |
| Tags.ParseTagIgnoresCase | main.py:71-77 | any spelling whose lower-case form is a tag's name selects that tag |
| Dates.DaysInMonth | main.py:93-94 | months have 28 to 31 days, and 29 exactly for February of a leap year |
| Dates.ParseDMY | main.py:93-94 | an accepted `%d/%m/%Y` text names a valid date |
| Dates.ParseISO | main.py:138-139 | an accepted `%Y-%m-%d` text names a valid date |
| Dates.FormatISO | main.py:94 | the stored date is ten characters |
| Dates.FormatDMY | main.py:139 | the shown date is ten characters |
| Dates.FormatDMYExcludes | main.py:139 | the shown date holds only digits and '/' |
| Dates.ParseDMYComplete | main.py:93-94 | every spelling of a valid date, padded or not, is accepted as that date |
| Dates.ParseDMYSound | main.py:93-94 | only such spellings are accepted |
| Dates.ParseDMYCalendar | main.py:93-97 | well-formed fields are accepted exactly when they name a calendar day, leap years included |
| Dates.ParseISOFormat | main.py:138-139 | the stored form reads back as the same date |
| Dates.StoredDateRoundTrip | main.py:93-139 | an accepted date is stored, read back and shown as the same day; a zero-padded input is shown as typed |
| Amounts.NormalizeSeparator | main.py:83 | `replace(',', '.')` changes every comma and nothing else |
| Amounts.ParseAmount | main.py:82-88 | an amount is accepted exactly when the normalized token reads as a number above zero |
| Amounts.CommaAsPoint | main.py:83 | a decimal comma and a decimal point are read alike |
| Amounts.MinusRejected | main.py:83-86 | a token with a leading '-' is refused, "-0" included |
| Amounts.ZeroRejected | main.py:84-86 | digits that spell zero are refused |
| Amounts.ParseAmountFixed | main.py:83 | every positive whole-cent amount, written with two decimals, is accepted back as itself |
| Amounts.ParseAmountWhole | main.py:82-88 | a positive whole number in digits ("50", "050") is accepted as that number |
| Amounts.ParseAmountPoint | main.py:82-88 | digits around a point or a comma ("50,5", ".5") are accepted as the whole part plus the fraction when that is above zero |
| Amounts.ParseAmountPlus | main.py:83 | a leading '+' before an unsigned amount changes nothing |
| Expenses.Validate | main.py:57-97 | an accepted record carries the caller's id, a positive amount and a ten-character stored date that reads back |
| Expenses.ValidateOrder | main.py:62-97 | the outcome is decided check by check: count, then tag, then amount, then date, and a record only when all pass |
| Expenses.ValidateRecord | main.py:70-106 | the record holds the lower-cased tag, the parsed amount, the converted date and the joined comment |
| Expenses.TagCaseIgnored | main.py:71-79 | a tag typed in any case is accepted as that tag |
| Expenses.BadTagWins | main.py:77-79 | an unknown tag is reported with its lower-cased text, even when amount and date are bad too |
| Expenses.NonPositiveAmountRefused | main.py:82-88 | "0" and negative amounts get the amount message once the tag is known |
| Expenses.Comment | main.py:74 | the comment is the tokens after the date joined with single spaces; Expenses.CommentTokens splits it back |
| Expenses.FailureMessage | main.py:62-96 | each refusal is answered with its handler text: usage, `Tag '<tag>' inválida.`, the amount message, the date message (Expenses.BadTagWins checks the tag text) |
| Expenses.CommentTokens | main.py:74 | the comment splits back into the tokens after the date and is non-empty when the first of them is |
| History.Entry | main.py:143 | one history line: amount with two decimals, upper-cased tag, day/month/year, comment; History.EntryReadsBack reads each field back |
| History.TotalLine | main.py:146 | the running-total line; History.TotalLineOneLine keeps it on one line |
| History.HistoryReply | main.py:125-146 | the reply for the rows: the empty message, the error on an unreadable date, else header, one line per row and the total; History.HistoryLayout and History.LinesEntries state its shape |
| History.BuildHistory | main.py:125-152 | the loop's reply equals `HistoryReply` (empty message, error on an unreadable date, or header, lines and total) |
| History.UnreadableRow | main.py:138-152 | one unreadable stored date makes the whole reply the error message |
| History.LinesEntries | main.py:134-143 | there is one line per row, in the rows' order, each showing that row's date, exactly when every date reads |
| History.HistoryLayout | main.py:132-146 | the reply, read line by line, is header, blank line, the row lines, blank line, total line |
| History.EntryReadsBack | main.py:138-143 | each line's words give back the amount within half a cent, the tag, the stored date, and the comment's words |
| Expenses.Total | main.py:170-173 | the sum of the amounts, first to last (also the history's running `total_geral`, main.py:130-135); Report.GroupsSum, Report.RankedSum and Bot.TotalsAgree relate it to the per-tag totals |
| Expenses.AmountReadsBack | main.py:143 | an amount shown with two decimals reads back within half a cent |
| Report.TagsOf | main.py:169-172 | the tags of the rows in first-appearance order; Report.TagsOfSpec proves them distinct and exactly the tags present |
| Report.TagTotal | main.py:172 | a tag's sum is not negative when no amount is, and zero when no row carries the tag |
| Report.Percent | main.py:181 | the value's share of the grand total in percent; Report.ShareBound, Report.ShareAdd and Report.WholeShare give its range, additivity and the whole as 100 |
| Report.ReportLine | main.py:184 | the `TAG : R$ amount - share%` line; Report.ReportLineReadsBack reads each field back |
| Report.Ranked | main.py:175-176 | `sorted(gastos_por_tag.items(), key=..., reverse=True)` over the per-tag groups; Report.RankedOrder, Report.RankedSum, Report.RankedTags and Report.RankedTotals state its order, sum, tags and totals |
| Report.GrandTotalLine | main.py:186 | the `TOTAL GERAL : R$ ` line with the two-decimal grand total; Report.GrandTotalOneLine keeps it on one line |
| Report.ReportReply | main.py:164-186 | guidance when there are no rows, the error on a zero grand total, else header, the ranked lines and the grand total; Report.ReportLayout states its shape |
| Report.Tally | main.py:169-173 | the map has an entry for exactly the tags seen, in first-appearance order, each holding that tag's sum; the grand total is the sum of all amounts |
| Report.DictItems | main.py:175 | `items()` lists each key in insertion order with its value |
| Report.TallyItems | main.py:169-175 | the tallied map's items are the per-tag groups |
| Report.BuildReport | main.py:164-193 | the handler's reply equals `ReportReply` (guidance when empty, the error on a zero grand total, else header, sorted lines and grand total) |
| Report.TagsOfSpec | main.py:169-172 | the map's keys are the rows' tags, each once |
| Report.GroupsTags | main.py:169-172 | the groups carry each tag of the rows exactly once |
| Report.GroupsSum | main.py:169-173 | the per-tag totals add up to `total_geral` |
| Report.RankedTotals | main.py:172-176 | every listed item carries its tag's total |
| Report.RankedSum | main.py:169-176 | the listed totals add up to the grand total |
| Report.RankedTags | main.py:169-176 | each tag of the rows is listed exactly once, and no other tag is |
| Report.RankedOrder | main.py:175-176 | lines run from the largest total down; equal totals keep first-appearance order |
| Report.TagTotalBounds | main.py:172-173 | with positive amounts a tag's total is positive when it occurs and at most the grand total |
| Report.SharesBounded | main.py:180-181 | with positive amounts the grand total is positive and every share lies in (0, 100] |
| Report.SharesSum | main.py:180-181 | the shares add up to exactly 100 |
| Report.ReportLineOneLine | main.py:184 | a report line holds no line break |
| Report.ReportLineReadsBack | main.py:184 | a report line splits on spaces into six words: the display name (lower-casing to the item's tag), ":", "R$", the total within half a cent, "-", and the share within 0.05 followed by "%" |
| Report.ShareReadsBack | main.py:184 | a share shown with one decimal reads back within 0.05 |
| Report.ReportLayout | main.py:179-186 | the reply, read line by line, is header, blank line, one line per listed item, blank line, grand total |
| Bot.Store.Add | main.py:57-112 | a refused command changes nothing; an accepted one appends the record when the database answers, else reports the save error |
| Bot.Store.ShowHistory | main.py:115-152 | the reply is the history of the caller's rows, newest date first, or the error message |
| Bot.Store.ShowReport | main.py:155-193 | the reply is the report of the caller's rows, or the error message |
| Bot.Store.Clear | main.py:196-205 | the caller's rows are deleted and all other rows stay in order, or nothing changes and the error is reported |
| Bot.OwnedBy | main.py:123 | the `.eq('user_id', ...)` filter keeps only that user's rows and never adds any |
| Bot.OthersOf | main.py:200-201 | deleting a user's rows leaves only rows of other users and never adds any |
| Bot.NewestFirst | main.py:121-123 | the history query's order returns the same rows with the same multiplicities |
| Bot.OwnedByMembers | main.py:123 | a user's rows are exactly the table's rows carrying that id |
| Bot.OwnedBySnoc | main.py:101-123 | an inserted row is seen by its owner, at the end, and by nobody else |
| Bot.ClearIsolation | main.py:200-201 | after clearing, the caller has no rows and every other user's rows are unchanged |
| Bot.AddIsolation | main.py:101-162 | a row added by one user changes no other user's history or report |
| Bot.DayNumberOrder | main.py:123 | the date key orders valid dates as the calendar does |
| Bot.NewestFirstOrder | main.py:121-123 | the history query returns the same rows, each date no earlier than the next |
| Bot.TotalsAgree | main.py:135-186 | the history's total and the report's grand total agree, and the per-tag totals add up to it |
| Bot.AddKeepsStored | main.py:84-107 | every row the add command writes has a positive amount and a readable date |
| Bot.ClearKeepsStored | main.py:200-201 | deleting keeps that property of the remaining rows |
| Bot.StoredRepliesSucceed | main.py:138-181 | on rows written by the add command, the history has a line per row and the report never divides by zero |
| Bot.AddedEntryShown | main.py:93-143 | an accepted `/adicionar` appears in the caller's history as a line dated with the day typed |

Supporting lemmas without a row of their own (for example `Seqs.JoinSplit`, `Numerals.FixedExcludes`, `Report.LineWords`, `Report.ShareSumScale`, `Report.TagTotalAbsent`) are proof steps for the rows above and model no source line by themselves.

## Left out

- Telegram plumbing is not modelled: `Update`/`context`, `reply_text`, `/start`, the `/tags` reply in MarkdownV2, the error handler and the polling loop. These are I/O and the async runtime.
- The Supabase client is not modelled. `create_client`, `.execute()`, the `data[1]` response shape, environment loading and logging are foreign calls. The table is a sequence of records, the `.eq('user_id', ...)` filter is `OwnedBy`, and whether a call fails is the `reachable` parameter.
- Bot.NewestFirst: the database's `ORDER BY expense_date DESC` says nothing about rows sharing a date. The model keeps them in table order, and the report's query (no `ORDER BY`) sees the rows in table order.
- IEEE floating point is not modelled. Amounts are exact reals, so binary rounding of sums is not modelled.
- Numerals.Fixed: `:.2f`/`:.1f` round the exact value half to even, where Python rounds the binary double.
- Amounts.ParseAmount: reads only plain decimals with an optional sign and at most one point. Python's `float()` also takes exponents, underscores, surrounding whitespace, non-ASCII decimal digits (`float('٥')` and `float('５')` are 5.0), `inf` and `nan`; a `nan` amount would pass the `valor <= 0` check.
- Dates.ParseDMY: does not model `strptime`'s further leniencies (space-padded or Unicode-digit fields). The year field has exactly four digits.
- Tags.Upper and Numerals.Lower: cover the Latin-1 letters only, which is all the tag names use. Python's full Unicode case mapping (for example 'ß' upper-casing to "SS") is not modelled.
- Report.ReportReply: a zero grand total over a non-empty row list is answered with the error message, as the division by zero in the source is. Rows written by the add command never reach it (Bot.StoredRepliesSucceed).
- Seqs.Split: its contract states only that there is at least one piece. The pieces' properties are proved where they are used (JoinSplit, SplitJoin, SplitTerminated).

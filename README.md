# FinTrack core, modelled in Dafny

FinTrack is a personal-finance app. Bank-statement PDFs are uploaded to a FastAPI
backend, which has an AI extractor read the transactions out of them and stores
them in a JSON database. A Next.js frontend then shows the transactions as
summaries, charts and headline figures. This project models the logic of that
app that is not I/O, and proves what it promises:

- **Backend records** (`models.dfy`): the six transaction categories and their
  string values, the `Transaction`, `User`, `Import` and database records with
  their defaults, the extractor's per-row answer and the API responses.
- **Fallback categoriser** (`fallback.dfy`): a row whose model confidence is
  below 0.6 is re-categorised. Five keyword lists are tried in priority order
  against the lower-cased description and merchant, and "Other" is the default.
- **Transaction store** (`store.dfy`): the database is a class holding the
  document.
  - Appending transactions and import records.
  - The date-window query: string comparison, a bound skipped when absent or
    empty, then a stable newest-first sort.
  - The transaction count.
  - The `imp_NNN` and `t_xxxxxxxx` id formats.
- **Upload endpoint** (`upload_api.dfy`):
  - batch validation;
  - conversion of every extracted row into a transaction;
  - the import record and the success message;
  - the catch-all that turns every failure into a 500;
  - the transactions endpoint.

  The PDF extractor and the UUID source are parameters.
- **Duplicate-id repair pass** (`fix_ids.dfy`): a loop over an array of
  transactions that gives each a fresh id and keeps the set of ids handed out.
- **Home page** (`home_page.dfy`, with `ledger.dfy` and `files.dfy`):
  - the daily, weekly and monthly spend summaries (period, then category, then
    spend) and the per-category income/spend/count summary, each built by a
    loop and proved equal to a sum over the transactions;
  - the headline figures;
  - the upload-error classifier;
  - the file picker;
  - the date-range selector.
- **Spending chart** (`spending_chart.dfy`):
  - the categories shown;
  - the row filling, sorting and truncation to the latest 90, 20 or 12 periods;
  - the weekly axis label;
  - the bar colours.
- **Dashboard page** (`dashboard.dfy`, with `calendar.dfy`): the this-month,
  last-month and last-three-months presets as `yyyy-MM-dd` strings (the
  extended calendar date of ISO 8601), the category badges, and the
  empty-state/KPI visibility.
- **Upload page** (`upload_page.dfy`): a class holding the page state, with one
  method per event handler.

`basics.dfy` holds `Option`, `Result` and helpers, and `text.dfy` holds the
string facts: digits, padding, case, substrings and lexicographic order.

The files' flavours:

- Imperative in the source, so methods with loops or a class:
  - the summary builders;
  - the chart's category collection and row filling;
  - the store;
  - the upload loop;
  - the repair pass;
  - the upload page.
- Pure in the source, so functions and lemmas:
  - the fallback rules;
  - the id formats;
  - the presets;
  - the classifier.

JavaScript's field-wise `new Date(year, month, day)` reads years 0 to 99 as
1900 to 1999. The model keeps that (`Calendar.ConstructorYear`): the weekly key
looks up the weekday of the 1st in that year, and the dashboard's last-month
and last-three-months presets start there. In years 0 to 99 the
last-three-months range therefore starts after it ends.

date-fns prints the era year for `yyyy`, so a date in year 0 (1 BC) is rendered
with year "0001" (`Calendar.EraYear`, `Calendar.Printed`). The read-back and
order lemmas are stated for the printed date, which is the date itself from
year 1 on.

Where Python raises an `HTTPException(400)` inside the upload's `try`, the
model follows the code, not the intent of the `raise`: `except Exception`
catches it, and the caller sees a 500 whose detail is "Error processing
files: 400: No files provided". This assumes Starlette's
`str(HTTPException)` renders as `"<status>: <detail>"`.

## Model

| member | source | states |
|---|---|---|
| Models.CategoryValues | backend/models.py:7-13 | the enumeration has exactly six distinct string values and every member's value is among them |
| Models.ParseCategoryExact | backend/models.py:7-13 | a string validates as a category exactly when it is one of the six values, and each value validates to its own member |
| Models.CategoryValueInjective | backend/models.py:7-13 | two members with the same string value are the same member |
| Models.ParseCategory | backend/models.py:30 | a string accepted by the category field carries exactly the value of the member it becomes |
| Models.NewTransaction | backend/models.py:28-33 | a transaction built with the defaults has currency "IDR", is not recurring and has no recurrence frequency |
| Models.NewUser | backend/models.py:40 | a user built with the default has time zone "Asia/Jakarta" |
| Fallback.AnyKeyword | backend/openai_utils.py:132 | a keyword list hits exactly when one of its keywords occurs in the description or in the merchant |
| Fallback.FirstHit | backend/openai_utils.py:130-153 | the rule chosen is the first whose list hits: every earlier rule misses and the chosen one hits |
| Fallback.ApplyFallbackRules | backend/openai_utils.py:122-156 | at confidence 0.6 or more the model's category string is returned unchanged; below it the result is always one of the six category values |
| Fallback.FirstHitPriority | backend/openai_utils.py:130-153 | for any rule list with pairwise distinct categories other than "Other", the first-hit category is rule k's exactly when rule k is the first to hit, and "Other" exactly when none hits |
| Fallback.RulesCategoriesDistinct | backend/openai_utils.py:130-153 | the five keyword rules assign five different categories, none of them "Other" |
| Fallback.FallbackPriority | backend/openai_utils.py:130-156 | below the threshold the result is rule k's category exactly when rule k hits and no earlier rule does, and "Other" exactly when no rule hits |
| Fallback.FallbackIgnoresCase | backend/openai_utils.py:127-128 | two rows whose description and merchant agree after lower-casing get the same category |
| Fallback.GrabFoodIsFood | backend/openai_utils.py:136-143 | "GrabFood" is categorised Food & Dining although "grab" is a transport keyword, because food is tried first |
| Store.FilterDates | backend/db.py:64-68 | the filtered list keeps only transactions of the list whose date passes the test |
| Store.FilterWithDate | backend/db.py:64-68 | for each date, the filter keeps all the transactions of that date, in stored order, when the date passes, and none otherwise |
| Store.InsertNewestFirst | backend/db.py:71 | inserting one transaction gives one more element, and every element is the new one or was already there |
| Store.InsertNewestFirstMultiset | backend/db.py:71 | inserting adds exactly one copy of the new transaction and keeps every other one as often as before (multiset union) |
| Store.InsertKeepsOrder | backend/db.py:71 | inserting into a newest-first list keeps it newest-first |
| Store.InsertWithDate | backend/db.py:71 | inserting puts the new transaction after every transaction of the same date, which is stability |
| Store.SortNewestFirst | backend/db.py:71 | the sort result has dates non-increasing, and for every date the same transactions in the same order as the input |
| Store.StableSortUnique | backend/db.py:71 | there is only one stable newest-first ordering of a list, so the specification pins down the sort |
| Store.WithDateMultiset | backend/db.py:71 | a list and its per-date sublists hold each transaction equally often, so equal per-date sublists make a permutation |
| Store.ImportId | backend/db.py:85-89 | the import id is "imp_" followed by at least three digits that read back as the number of imports plus one |
| Store.ImportIdInjective | backend/db.py:85-89 | different import counts give different import ids |
| Store.FirstImportId | backend/db.py:89 | the first import id is "imp_001" |
| Store.TransactionId | backend/db.py:80-83 | a transaction id starts with "t_" and, for a UUID text of at least eight characters, is 10 characters: "t_" and the UUID's first eight |
| Store.Database.constructor | backend/db.py:17-25 | a fresh database holds the single user u1 "Local User" in Asia/Jakarta and no transactions or imports |
| Store.Database.AddTransactions | backend/db.py:47-51 | the new transactions are appended in order, and users, imports and existing transactions are unchanged |
| Store.Database.AddImportRecord | backend/db.py:53-57 | exactly one import record is appended and nothing else changes |
| Store.Database.GetTransactions | backend/db.py:59-73 | the result is newest-first and holds exactly the stored transactions within the window, each date's transactions in stored order; an absent or empty bound is not applied |
| Store.Database.GetTransactionCount | backend/db.py:75-78 | the count is the number of stored transactions |
| Store.Database.GenerateImportId | backend/db.py:85-89 | the id is the import id for the current number of imports |
| UploadApi.FirstNonPdf | backend/main.py:50-52 | the batch passes validation exactly when every filename ends in ".pdf", ignoring case |
| UploadApi.FirstNonPdfAt | backend/main.py:50-52 | the rejection names the first file whose name does not end in ".pdf" |
| UploadApi.ValidateBatch | backend/main.py:46-52 | validation rejects an empty batch, then the first non-PDF filename, and accepts the rest |
| UploadApi.BuildTransactionFacts | backend/main.py:78-98 | a row becomes a transaction exactly when its final category validates; the transaction copies date, description, amount, merchant and confidence, has currency IDR, is not recurring, has source = the file name and extractor gpt-4o-mini/txn.v1 |
| UploadApi.FallbackAccepted | backend/main.py:78-87 | with the fallback rules, a low-confidence row always yields a valid category, and a confident row does exactly when the model's category string is one of the six |
| UploadApi.ConvertRowsFacts | backend/main.py:76-99 | ConvertRows: a file's rows convert exactly when every row is accepted, giving one transaction per row, in order, each built from its row with the next generated id |
| UploadApi.ConvertFileRows | backend/main.py:76-99 | the row loop computes the conversion of the file's rows |
| UploadApi.ConvertRowsFailureExtends | backend/main.py:76-99 | once a row fails, the whole file fails with that error |
| UploadApi.ConvertFilesFailureExtends | backend/main.py:59-108 | once a file fails, the whole batch fails with that error |
| UploadApi.ConvertFilesFacts | backend/main.py:59-101 | ConvertFiles: the number of transactions built is the sum of the per-file row counts, and each is IDR, not recurring, without frequency, and sourced from one of the batch's files |
| UploadApi.ConvertAll | backend/main.py:59-108 | the file loop computes the batch conversion, and its running total is the sum of the per-file row counts |
| UploadApi.BadRequestText | backend/main.py:131-133 | a caught 400 with detail d is rendered as "400: " followed by d |
| UploadApi.UploadEmptyBatch | backend/main.py:46-47 | an empty batch fails with 500 "Error processing files: 400: No files provided" |
| UploadApi.UploadNonPdf | backend/main.py:50-52 | a batch whose first non-PDF name is at k fails with 500 "Error processing files: 400: File <name> is not a PDF" |
| UploadApi.UploadFailureKeepsDatabase | backend/main.py:131-133 | Upload: every failure surfaces as status 500 with a detail starting "Error processing files: ", and leaves the database unchanged |
| UploadApi.UploadSuccess | backend/main.py:110-129 | Upload: a successful upload had a non-empty all-PDF batch; users are unchanged; the stored transactions grow by exactly the parsed count as an extension; exactly one import record with the batch's joined names and row count is added; the import id is the next one; the message counts files and transactions |
| UploadApi.UploadPdfs | backend/main.py:43-133 | the endpoint's response and new database state are those of the upload specification |
| UploadApi.GetTransactionsEndpoint | backend/main.py:135-147 | the response's total is the length of its list, which is newest-first and holds exactly the stored transactions within the window |
| FixIds.DistinctIdsSnoc | backend/fix_duplicate_ids.py:41-44 | giving the next transaction an id not yet used keeps the ids distinct and adds exactly that id to the used set |
| FixIds.DistinctIdsCount | backend/fix_duplicate_ids.py:35-44 | distinct ids are as many as the transactions carrying them |
| FixIds.DrawFreshId | backend/fix_duplicate_ids.py:40-42 | the retry loop ends with a generated id not in the used set |
| FixIds.ReassignStep | backend/fix_duplicate_ids.py:38-49 | one iteration extends the used set by the new id, keeps the ids distinct, changes only the current transaction's id and leaves later ones untouched |
| FixIds.ReassignIds | backend/fix_duplicate_ids.py:35-49 | after the loop every transaction has been rewritten, the count equals the number of transactions, the ids are pairwise distinct and generated, and only ids changed |
| FixIds.FixDuplicateIds | backend/fix_duplicate_ids.py:29-56 | a missing or empty transaction list is not written; otherwise the list is rewritten with pairwise distinct generated ids, order and all other fields untouched |
| FixIds.IssuedIdShape | backend/fix_duplicate_ids.py:14-16 | every generated id is "t_" followed by eight characters |
| HomePage.WeekOfMonth | frontend/app/page.tsx:113 | the week number ceil((day + weekday of the 1st) / 7), the 1st taken in the constructor's year, is always between 1 and 6 |
| HomePage.FirstDayInWeekOne | frontend/app/page.tsx:113 | the first day of a month is in week 1 |
| HomePage.WeekStartsOnSunday | frontend/app/page.tsx:113 | within a month the week number goes up by one exactly on the days that are Sundays in the constructor's year; from year 100 on, exactly on Sundays |
| HomePage.TwoDigitYearWeek | frontend/app/page.tsx:113 | in year 50 the 1st is looked up in 1950, so 5 March 0050 is in week 2 |
| HomePage.WeekKeyOfDate | frontend/app/page.tsx:110-114 | PeriodKey and WeekKey: the weekly key of a rendered date is the printed date's year, unpadded month and week number, as "{year}-{month}-W{week}" (the date's own from year 1 on), and the NaN key when the printed day does not exist |
| HomePage.MonthKeySameMonth | frontend/app/page.tsx:132 | PeriodKey: two rendered dates share a monthly key exactly when they fall in the same month of the same printed year |
| HomePage.BuildPeriodSummary | frontend/app/page.tsx:89-141 | the summary loop has exactly the periods and (period, category) cells of the transactions, income included, and each cell holds the sum of the magnitudes of its negative amounts |
| HomePage.PeriodSummaryUnique | frontend/app/page.tsx:91-100 | a period summary is determined by its transactions |
| HomePage.PeriodSummaryEmpty | frontend/app/page.tsx:91-100 | a summary is empty exactly when there are no transactions |
| HomePage.NonSpendAddsNothing | frontend/app/page.tsx:96-98 | an income or zero transaction leaves every cell's value unchanged |
| HomePage.PeriodSummaryTotal | frontend/app/page.tsx:91-100 | summed over all its cells, a period summary gives the total spend |
| HomePage.GetSummaryData | frontend/app/page.tsx:218-229 | the chart receives the summary for the selected view, which is empty exactly when there are no transactions |
| HomePage.BuildCategorySummary | frontend/app/page.tsx:145-160 | the category summary has exactly the transactions' categories, each with its positive-amount income, its spend (the magnitude of every other amount) and its count |
| HomePage.CategorySummaryTotals | frontend/app/page.tsx:148-158 | summed over categories, incomes give total income, spends give total spend and counts give the number of transactions |
| Ledger.ComputeKpis | frontend/app/page.tsx:165-167 | total income and total spend are non-negative, net is income minus spend and equals the sum of all amounts (the dashboard computes the same three figures at frontend/app/dashboard/page.tsx:51-53) |
| Ledger.IncomeMinusSpend | frontend/app/page.tsx:165-167 | income minus spend, summed over the list, is the sum of the amounts |
| Ledger.Partition | frontend/app/page.tsx:148-158 | summing group by group over distinct groups covering every transaction gives the plain total |
| Ledger.KpiExample | frontend/app/dashboard/page.tsx:51-53 | an income of 1,000,000 and a spend of 300,000 give figures 1,000,000, 300,000 and net 700,000 |
| HomePage.UploadFailureMessage | frontend/app/page.tsx:182 | a failed upload's message is never empty: the response detail, or "Upload failed: " and the status |
| HomePage.StatusTexts | frontend/app/page.tsx:182 | statuses 500, 413 and 400 without detail give the messages "Upload failed: 500", "Upload failed: 413" and "Upload failed: 400" |
| HomePage.EffectiveMessage | frontend/app/page.tsx:233 | the message classified is never empty |
| HomePage.ErrorDetailsPriority | frontend/app/page.tsx:232-272 | GetErrorDetails: each classification holds exactly when its marker occurs and no marker of higher priority does (API key, then 500, 413, 400); otherwise the generic result carries the message |
| HomePage.MissingMessageIsGeneric | frontend/app/page.tsx:233-272 | a missing message gives the generic result with details "An unknown error occurred" |
| HomePage.Status500IsServerError | frontend/app/page.tsx:243-249 | a 500 without detail opens the server-error modal |
| HomePage.Status413IsTooLarge | frontend/app/page.tsx:251-257 | a 413 without detail opens the file-too-large modal |
| HomePage.Status400IsInvalidFormat | frontend/app/page.tsx:259-265 | a 400 without detail opens the invalid-format modal |
| Files.PdfFiles | frontend/app/page.tsx:280 | the filter keeps only PDF-typed files, all of them, and nothing not in the input |
| Files.PdfFilesCount | frontend/app/page.tsx:288-295 | kept files and skipped files add up to the files selected |
| Files.NoneSkipped | frontend/app/page.tsx:288 | the filter keeps the whole selection exactly when no file is skipped |
| Files.PdfFilesAppend | frontend/app/upload/page.tsx:59 | filtering a concatenation filters each part and keeps their order |
| Files.PdfFilesOfPdfs | frontend/app/upload/page.tsx:59 | a list of PDFs passes the filter unchanged, so filtering is idempotent |
| HomePage.HandleFileSelect | frontend/app/page.tsx:277-302 | no file list does nothing; no PDF opens the format modal and uploads nothing; otherwise exactly the PDFs are uploaded in order, with a skipped-files modal exactly when some file was not a PDF, counting them |
| HomePage.Last3Months | frontend/app/page.tsx:211-214 | the range starts on the first day of the month two months back and ends today itself, after the start |
| HomePage.HandleRangeChange | frontend/app/page.tsx:205-216 | the two shared presets are taken as given, last-three-months is computed, and any other value keeps the range |
| HomePage.Last3MonthsBounds | frontend/app/page.tsx:73-74 | the end bound reads back as today; from March of year 1 on the start bound reads back as the range's start and is before the end string, and before that the start is printed as year 1 and the window is inverted |
| SpendingChart.CollectCategories | frontend/components/dashboard/spending-chart.tsx:21-28 | the collection loop yields the union of the categories over all periods, without "Income" |
| SpendingChart.ChartCategoriesOfSummary | frontend/components/dashboard/spending-chart.tsx:21-28 | for a summary of transactions, the chart shows exactly the non-income categories of those transactions |
| SpendingChart.FillRow | frontend/components/dashboard/spending-chart.tsx:37-42 | a row has an entry for exactly the collected categories, the period's value or 0 when absent |
| SpendingChart.InsertRow | frontend/components/dashboard/spending-chart.tsx:44 | inserting a row of a new period into sorted rows keeps them sorted and adds exactly that row |
| SpendingChart.SortedPeriodRows | frontend/components/dashboard/spending-chart.tsx:36-44 | one filled row per period, in ascending order of period key |
| SpendingChart.MaxPeriods | frontend/components/dashboard/spending-chart.tsx:30-34 | the period limit is positive (90 daily, 20 weekly, 12 monthly) |
| SpendingChart.LastN | frontend/components/dashboard/spending-chart.tsx:45 | keeping the last n keeps min(length, n) elements, the suffix |
| SpendingChart.ChartData | frontend/components/dashboard/spending-chart.tsx:36-45 | the chart has min(periods, limit) rows, sorted by period, each filled for every category, and only periods earlier than every kept one are dropped |
| SpendingChart.KeepLatestSorted | frontend/components/dashboard/spending-chart.tsx:45 | the kept rows are still sorted |
| SpendingChart.KeepLatestFilled | frontend/components/dashboard/spending-chart.tsx:45 | the kept rows are still filled rows of the data |
| SpendingChart.KeepLatestDropsEarlier | frontend/components/dashboard/spending-chart.tsx:45 | a dropped period is earlier than every kept period |
| SpendingChart.DroppedAreEarlier | frontend/components/dashboard/spending-chart.tsx:45 | a sorted row not among the last n is earlier than all of them |
| SpendingChart.NoDataIffEmpty | frontend/components/dashboard/spending-chart.tsx:57-63 | the "No data" branch is taken exactly when the summary has no periods |
| SpendingChart.WeeklyLabelOfKey | frontend/components/dashboard/spending-chart.tsx:50-51 | WeeklyLabel: a weekly key "{y}-{m}-W{w}" is labelled "{y}-{m}-Week {w}" |
| SpendingChart.WeeklyLabelOfFields | frontend/components/dashboard/spending-chart.tsx:50-51 | WeeklyLabel: only the first "W" is replaced, the one after the numeric year and month |
| SpendingChart.BarColors | frontend/components/dashboard/spending-chart.tsx:11-17 | BarColor: the four spending categories get four different colours; every other category, "Other" included, gets #6b7280 |
| Dashboard.SpanFacts | frontend/app/dashboard/page.tsx:57-76 | a rendered range reads back as its two printed dates, and its bounds are ordered as strings exactly when the printed dates are ordered; from year 1 on these are the dates themselves |
| Dashboard.ThisMonthSpan | frontend/app/dashboard/page.tsx:27-33 | ThisMonth: the initial and this-month range reads back as the 1st and the month's last day (as printed; year 0 prints as year 1), leap years included, contains today, and is ordered |
| Dashboard.LastMonthSpan | frontend/app/dashboard/page.tsx:63-69 | LastMonth: the whole calendar month before today's month in the constructor's year, ending the day before that month starts, and ordered |
| Dashboard.NextMonthStart | frontend/app/dashboard/page.tsx:63-69 | the day after a month's last day is the first day of the following month |
| Dashboard.LastMonthOfJanuary | frontend/app/dashboard/page.tsx:64 | LastMonth: in January, last month is 1 to 31 December of the year before (the constructor's year minus one) |
| Dashboard.PreviousDecember | frontend/app/dashboard/page.tsx:64 | the month `new Date(year, -1, 1)` builds is December of the constructor's year minus one |
| Dashboard.Last3MonthsSpan | frontend/app/dashboard/page.tsx:70-76 | Last3Months: the range reads back as the 1st two months back in the constructor's year, wrapping the year, and the current month's last day as printed; from year 100 on the start is before today and the strings are ordered, in years 0 to 99 they are inverted |
| Dashboard.HandleRangeChange | frontend/app/dashboard/page.tsx:55-78 | each preset value selects its range; any other value keeps the current one |
| Dashboard.RangeStaysOrdered | frontend/app/dashboard/page.tsx:55-78 | after a range change the start string is not after the end string exactly when the choice is not last-three-months in a year 0 to 99 |
| Dashboard.CategoryColors | frontend/app/dashboard/page.tsx:92-101 | CategoryColor: the six categories get six different badges and any other category gets the badge of "Other" |
| Dashboard.EmptyStateExcludesKpis | frontend/app/dashboard/page.tsx:160-179 | the empty-state card and the KPI cards are never shown together, and after a successful load exactly one of them is |
| Calendar.DaysInMonth | frontend/app/dashboard/page.tsx:31 | months have 28 to 31 days, and February has 29 exactly in leap years |
| Calendar.Weekday | frontend/app/page.tsx:113 | the day of the week is between 0 (Sunday) and 6 |
| Calendar.WeekdayNext | frontend/app/page.tsx:113 | the next day is the next day of the week |
| Calendar.WeekdayEpoch | frontend/app/page.tsx:113 | 1 January 1970 is a Thursday |
| Calendar.EndOfMonth | frontend/app/dashboard/page.tsx:31 | the end of the month is in the same month, not before the date, and the next day starts another month |
| Calendar.MonthsBefore | frontend/app/dashboard/page.tsx:64 | the first day of the month k months back, with year wrapping |
| Calendar.ConstructorYear | frontend/app/dashboard/page.tsx:64 | the year the field-wise Date constructor uses is at least 100, equals the given year from 100 on, and has four digits exactly when the given year does |
| Calendar.ConstructedMonthStart | frontend/app/dashboard/page.tsx:64 | `new Date(year, month - k, 1)` is a valid first of a month, k months before today's month in the constructor's year |
| Calendar.EraYear | frontend/app/dashboard/page.tsx:30-31 | the printed year is at least 1 and is the year itself from year 1 on |
| Calendar.YearZeroPrintsAsOne | frontend/app/dashboard/page.tsx:30-31 | a date in year 0 renders exactly as the same day of year 1 |
| Calendar.ReadBack | frontend/app/page.tsx:73-74 | a valid date from year 1 on reads back as itself |
| Calendar.FormatOrder | frontend/app/dashboard/page.tsx:30-31 | Format: rendered dates compare as strings exactly as the printed dates compare, and render equal exactly when the printed dates are equal |
| Calendar.ParseFormat | frontend/app/page.tsx:73-74 | ParseIsoDate after Format: a rendered date parses back to itself from year 1 on; in year 0 to the same day of year 1, or to nothing for 29 February |
| Calendar.FormatParse | frontend/app/page.tsx:111 | Format after ParseIsoDate: a string that parses as a date is that date's rendering, except that year "0000" renders back as "0001" |
| Text.Contains | frontend/app/page.tsx:235 | substring search succeeds exactly when the pattern occurs at some position |
| Text.Lower | backend/openai_utils.py:127-128 | lower-casing keeps the length and lowers each character |
| Text.ReplaceFirst | frontend/components/dashboard/spending-chart.tsx:51 | only the first occurrence of the character is replaced, and nothing changes when it does not occur |
| Text.ParsePaddedNat | backend/db.py:89 | a zero-padded number reads back as the number |
| Text.IntToString | frontend/app/upload/page.tsx:26 | the rendering has at least one character, starts with '-' exactly when the integer is negative, and the rest (or all of it) is digits |
| Text.IntToStringParses | frontend/app/upload/page.tsx:26 | the digits after the optional minus sign read back as the magnitude |
| UploadPage.WithoutIndex | frontend/app/upload/page.tsx:92-94 | removing index i removes exactly that element and keeps the others in order; an index out of range removes nothing |
| UploadPage.Page.constructor | frontend/app/upload/page.tsx:14-16 | the page starts without a drag, with no files selected and no result |
| UploadPage.Page.HandleDrag | frontend/app/upload/page.tsx:42-50 | drag enter and over light the drop zone, drag leave dims it, other events change nothing |
| UploadPage.Page.SelectPdfs | frontend/app/upload/page.tsx:58-70 | with a PDF, the selection is replaced by exactly the PDFs in order; with none it is kept and a destructive "Invalid Files" toast is shown |
| UploadPage.Page.HandleDrop | frontend/app/upload/page.tsx:52-72 | a drop always dims the drop zone; a drop with files replaces the selection by its PDFs, or shows "Invalid Files"; a drop without files changes nothing else |
| UploadPage.Page.HandleFileChange | frontend/app/upload/page.tsx:74-90 | a file list replaces the selection by its PDFs, or shows "Invalid Files" and keeps the selection |
| UploadPage.Page.RemoveFile | frontend/app/upload/page.tsx:92-94 | removes exactly the file at the index; an index out of range changes nothing |
| UploadPage.Page.HandleUpload | frontend/app/upload/page.tsx:96-106 | an empty selection starts no upload and shows "No Files"; otherwise the selection is uploaded |
| UploadPage.Page.ResetUpload | frontend/app/upload/page.tsx:108-111 | the selection is emptied and the result cleared |
| UploadPage.Page.OnUploadSuccess | frontend/app/upload/page.tsx:22-27 | the result is kept and a toast reports the parsed count and the number of selected files |
| UploadPage.Page.OnUploadError | frontend/app/upload/page.tsx:33-39 | a destructive "Upload Failed" toast shows the error message |

## Left out

- Network, HTTP routing, CORS, JSX rendering and styling are not modelled. The
  endpoints are functions and methods over the database value.
- The JSON file load and save in the store and in the repair pass are not
  modelled: the database is a field and the repair pass works on an array.
  The corrupted-file fallback to an empty database and the missing-file early
  return are not modelled either.
- PDF text extraction and the AI extractor are a parameter `extract`: a
  function from a file to its rows or an error message. Temporary files and
  the `cleanup_openai_file` call are not modelled.
- UUID generation is a parameter `uuids`, a sequence of UUID texts consumed in
  order; the row conversion receives the ids made from them (`IdsFrom`), the
  n-th transaction of the batch taking the n-th. The current time of the import record is a parameter `now`.
- The text of pydantic's validation error is a parameter `describeInvalid`.
- `print` diagnostics, including the repair pass's first-five-changes report,
  are not modelled.
- FixIds.FixDuplicateIds: proved under the hypothesis that, while fewer ids
  are taken than there are transactions, the UUID source eventually yields an
  unused id. Termination of the retry loop depends on it.
- Floating point is not modelled. Amounts are whole rupiah (`int`) and
  confidence is a `real`.
- react-query caching, retries and scheduling are not modelled, nor are
  timers or the redirect after an upload.
- JavaScript `Date` parsing of out-of-range days (roll-over) is not modelled.
  Only well-formed `yyyy-MM-dd` strings parse; any other string gives the
  "NaN" week key.
- The local-time shift of `new Date("yyyy-MM-dd")`, which is parsed as UTC, is
  not modelled: calendar fields are taken from the string.
- HomePage.Last3Months: not modelled in year 0, whose two-months-back start
  would fall before year 1. The string order lemmas of both pages' presets need
  four-digit years; years of five or more digits are not covered by them.
- `getDateRangePresets` is not part of this model. The home page's this-month
  and last-month ranges are inputs to `HomePage.HandleRangeChange`.
- SpendingChart.ChartData: `localeCompare` is modelled as plain lexicographic
  order on the period keys. The rows are built by sorted insertion rather than
  the engine's sort, which is the same result because period keys are
  distinct.
- The order of the chart's bars and legend, which follows the `Set`'s
  insertion order, is not modelled: the categories are a set.
- Number and date display formatting (`Intl.NumberFormat`,
  `toLocaleDateString`) is not modelled.
- The health page and the error modal's auto-close timer are not modelled.
- Text.Lower: lowers ASCII letters only. Python's `str.lower()` and
  JavaScript's `toLowerCase()` also lower non-ASCII letters, and some of
  those become ASCII (U+212A KELVIN SIGN becomes "k"), so a description
  written with such letters can hit a keyword in the source and not in the model.
- An upload file without a filename is not modelled: every `UploadFile` has a
  name.

# L'Idea Excel Engine — a verified model of its extraction core

`automator.py` is a small Streamlit tool. It reads every `.xlsx` workbook in a folder, finds figures in the sheets by label, and writes them into one record, `db`. It also rewrites the site's HTML pages so that they load the generated scripts. This project models the parts of that file that compute something and proves what they guarantee:

- **`clean_currency`** (module `Currency`, `currency.dfy`): turns a spreadsheet cell into an amount.
  - A missing or blank cell is 0.
  - Otherwise every character except digits, `,` and `-` is dropped, and `,` becomes `.`.
  - The result is read the way Python's `float()` reads it, and 0 is returned when `float()` would raise.
  - Amounts are exact `real`s.
- **`find_value_in_dataframe`** (module `Grid`, `grid.dfy`): finds a labelled value in a sheet.
  - It takes the first body cell, in row-major order, that contains the search term without regard to case.
  - In that cell's row it reads the value column: the first column label containing the year, else column 2, else column 1.
  - It normalises that cell with `clean_currency`.
  - A sheet is a `Table`: column labels plus rectangular body rows.
- **the `db` update in `process_excel_files`** (module `Database`, `database.dfy`):
  - The record is a class `Db` whose fields the sheet loop overwrites.
  - Each method is proved equal to a pure rule on `Record` values: per sheet (`SheetUpdate`), per workbook (`WorkbookUpdate`) and per run (`Run`).
  - Guards, fallbacks, bucket independence, the abort of a workbook at an unreadable sheet, and an invariant every written record satisfies are lemmas about those rules.
- **the page rewrite in `update_system_files`** (module `Patcher`, `patcher.dfy`):
  - Legacy `<script>` blocks that read `localStorage.getItem` are removed: the lazy regular expression is modelled as a left-to-right scan.
  - `</body>` is replaced by the two script tags on pages that do not load `core_controller.js` yet.
  - The page loop with its `patched` counter is a method proved against the function `Writes`.
  - Idempotence is proved under a precondition; a concrete page shows why the precondition is needed.

`Strings` (`strings.dfy`) holds the ASCII character classes, case mapping, substring search and Python's `str.replace`, with the lemmas about them. `Wrappers` (`wrappers.dfy`) holds `Option`.

## Behaviour worth knowing

- **Parentheses carry no sign:** `(1.000,00)` reads as +1000, not as an accounting negative. The parentheses are dropped with every other character that is not a digit, `,` or `-` (`Currency.ParenthesesCarryNoSign`, `Currency.ParenthesisedReadsPositive`).
- **One search term per lookup:** the locator takes a single term; there is no list of synonyms.
- **Fallback terms:** the asset, tax and staff buckets try a second term whenever the first gives exactly 0. That includes a first term that matched a cell holding 0 or text that is not a number (`Database.WithFallback`, `Database.AssetBucket`). The income bucket has no fallback term.
- **Header row:** the first row of a sheet is always its header row (the `pd.read_excel` default). Only the column labels are searched for the year; body cells are never inspected for the period.
- **The income bucket** runs on any sheet that reports a positive revenue, whatever its name. Sheets named `FATURAMENTO` also run the tax bucket.
- **Numeric cells:** a cell that pandas holds as the number 1200.5 prints as `1200.5`. Its point is then dropped as a thousands separator, so it reads as 12005 (`Currency.NumericCellLosesPoint`).
- **Repeated runs:** a run is a function of the folder's contents (`Database.Run`), so two runs over unchanged input write the same record; the timestamp is not modelled.

## Model

| member | source | states |
|---|---|---|
| Currency.KeepCurrencyChars | automator.py:26 | the filtered text is no longer than the cell and holds only digits, `,` and `-` |
| Currency.KeepConcat | automator.py:26 | filtering works piece by piece: filtering a concatenation is the concatenation of the filtered pieces |
| Currency.CommasToDotsIsReplace | automator.py:28 | the normalising step equals Python's `str.replace(',', '.')` (`Strings.Replace`) on every text |
| Currency.ParseDecimal | automator.py:29 | `float()` on the normalised alphabet accepts only non-empty text, and a negative result needs a leading `-`; `Currency.ParseDecimalAcceptsIff` gives the exact grammar |
| Currency.FloatOrZero | automator.py:29-30 | a text `float()` rejects reads as 0, and a negative result needs a leading `-` |
| Currency.CleanCurrency | automator.py:18-30 | a missing or blank cell reads as 0, and a negative amount needs a `-` as the first normalised character; `Currency.ZeroUnlessAmountText` and `Currency.ReadsFormattedAmount` state the rest |
| Currency.UnsignedAcceptsIff | automator.py:29 | the unsigned parser accepts exactly texts of digits with at most one `.` and at least one digit |
| Currency.ParseDecimalAcceptsIff | automator.py:29 | `float()` on the filtered alphabet accepts a text if and only if `-` occurs only in front, there is at most one `.`, and there is at least one digit |
| Currency.KeptTextAcceptedIff | automator.py:26-29 | the normalised text parses if and only if the kept characters have `-` only first, at most one `,`, and a digit |
| Currency.TextIsFloatOfNormalised | automator.py:23-30 | a text cell reads as the parse of its normalised text, or 0 when that fails |
| Currency.BlankReadsAsFailedParse | automator.py:23 | a blank text keeps no characters, and its normalised form does not parse |
| Currency.ZeroUnlessAmountText | automator.py:23-30 | missing, blank, and not-a-number cells read as 0; a non-zero result comes from a text cell whose kept characters form an amount |
| Currency.IgnoresDroppedText | automator.py:26 | inserting characters other than digits, `,` and `-` anywhere does not change the amount |
| Currency.ParenthesesCarryNoSign | automator.py:26 | wrapping a text in parentheses does not change the amount |
| Currency.UnsignedIsNonNegative | automator.py:29 | an unsigned literal denotes a non-negative amount |
| Currency.NegativeNeedsLeadingHyphen | automator.py:26-29 | a negative amount needs `-` as the first kept character |
| Currency.PlainNumberReadsAsItself | automator.py:24-29 | a cell holding the decimal digits of n reads as n |
| Currency.AmountTextIsLiteral | automator.py:28-29 | on kept characters, swapping `,` for `.` gives a `float()` literal if and only if `-` is only first, there is at most one `,`, and there is a digit |
| Currency.FormattedNormalises | automator.py:26-28 | `R$ 1.234,56` (any symbol without digits, `,` or `-`) normalises to the sign, the digits of the whole part, `.`, and two digits of cents |
| Currency.CentsParse | automator.py:29 | that normalised text reads back as the amount in cents divided by 100 |
| Currency.ReadsFormattedAmount | automator.py:18-30 | round trip: any amount in cents written as `R$ 1.234,56` (any symbol without digits, `,` or `-`, negative with a leading `-`) reads back as that amount |
| Currency.ReadsDocstringExample | automator.py:20 | `R$ 1.200,50` reads as 1200.50 |
| Currency.ReadsWithoutSymbol | automator.py:20-29 | `1.200,50` reads as 1200.50 |
| Currency.ReadsLeadingHyphen | automator.py:25-29 | `-500,00` reads as -500 |
| Currency.ReadsThousand | automator.py:26-29 | `1.000,00` reads as 1000 |
| Currency.ParenthesisedReadsPositive | automator.py:26-29 | `(1.000,00)` reads as +1000 |
| Currency.NumericCellLosesPoint | automator.py:26-29 | the text `1200.5` reads as 12005 |
| Currency.LettersReadZero | automator.py:26-30 | `abc` reads as 0 |
| Currency.TwoCommasReadZero | automator.py:26-30 | `1,2,3` reads as 0 |
| Currency.InnerHyphenReadsZero | automator.py:26-30 | `10-5` reads as 0 |
| Grid.FirstInRow | automator.py:40-42 | the index of the first matching cell of a row, with no match before it; None only when no cell matches |
| Grid.FindValue | automator.py:32-68 | no matching body cell reads as 0; a non-zero value is `clean_currency` of the declarative first match's row at the declarative value column (`Grid.FindValueReadsFirstMatchRow` gives the converse) |
| Grid.FirstMatch | automator.py:40-46 | the first match in row-major order (no match in earlier rows or earlier in its row); None if and only if no body cell matches |
| Grid.FirstYearColumn | automator.py:50 | the first column label containing the year; None if and only if no label contains it |
| Grid.ValueColumn | automator.py:50-62 | the value column is the first year column, else column 2 when there are more than 2 columns, else column 1; None if and only if no year column and at most one column |
| Grid.FirstMatchUnique | automator.py:42-46 | the first match in row-major order is unique |
| Grid.ValueColumnUnique | automator.py:50-62 | the value column is unique |
| Grid.FindValueReadsFirstMatchRow | automator.py:32-64 | the value is `clean_currency` of the first match's row at the value column (which is inside the row) |
| Grid.NoMatchReadsZero | automator.py:40-44 | no matching body cell gives 0 |
| Grid.SingleColumnReadsZero | automator.py:58-64 | a one-column sheet without the year in its label gives 0 |
| Grid.FirstMatchIgnoresCase | automator.py:40-42 | terms equal up to case find the same first match |
| Grid.FindValueIgnoresCase | automator.py:40 | terms equal up to case find the same value |
| Grid.StatementSheetReadsYearColumn | automator.py:46-64 | in the sheet `ACCOUNT, 2024, 2025 / GROSS REVENUE, 900,00, 1.200,50`, `GROSS REVENUE` for 2025 reads 1200.50 |
| Grid.StatementSheetYearColumn | automator.py:50-54 | in that sheet, column 2 is the value column for 2025 |
| Grid.HeaderIsNotSearched | automator.py:40-44 | a term present only in a column label gives 0 |
| Database.WorkbookFiles | automator.py:76 | at most one workbook per entry of the listing |
| Database.WorkbookFilesEmptyIff | automator.py:76-79 | no workbook is processed if and only if no entry is named `*.xlsx` and not `~$*` |
| Database.WorkbookFilesOne | automator.py:76 | one entry is processed exactly when its name passes the test |
| Database.WorkbookFilesConcat | automator.py:76 | selection distributes over the listing, so every selected entry is processed once, in listing order |
| Database.WorkbookFilesSelects | automator.py:76 | every processed workbook comes from a selected entry, and every selected entry's workbook is processed |
| Database.Run | automator.py:71-80 | the folder is created exactly when it is missing; no workbooks exactly when it exists and no entry passes the name test |
| Database.WorkbookNames | automator.py:76 | `Balanco.xlsx` is processed; `~$Balanco.xlsx`, `Balanco.xls` and `.xlsx.csv` are not |
| Database.Db.constructor | automator.py:82-88 | the record starts as period `Excel Sync`, all amounts 0, headcount 142, status `Regular` |
| Database.Db.ApplySheet | automator.py:107-143 | the new record is the per-sheet rule applied to the old one |
| Database.Db.ApplyIncome | automator.py:111-118 | income bucket: on a DRE/RESULTADO sheet, or one with positive revenue, a positive revenue and a non-zero operating result are stored |
| Database.Db.ApplyAssets | automator.py:120-127 | asset bucket: `A T I V O`, else `TOTAL DO ATIVO` when that gives exactly 0; stored if positive |
| Database.Db.ApplyTaxes | automator.py:129-137 | tax bucket: `06-2025`, else `Total de Impostos`; stored if positive |
| Database.Db.ApplyStaff | automator.py:139-143 | staff bucket: `Headcount`, else `Total Colaboradores`; stored truncated if positive |
| Database.Db.ApplyWorkbook | automator.py:96-146 | the sheets in order; an unreadable sheet ends the workbook, keeping earlier updates |
| Database.ProcessExcelFiles | automator.py:71-153 | the run's outcome: folder created, no workbooks, or the record from the initial one after every workbook in listing order |
| Database.WithFallback | automator.py:122-123 | the fallback term is read only when the primary term gives exactly 0; the result is 0 exactly when both give 0 |
| Database.IncomeRule | automator.py:112-117 | only revenue and operating result can change, only on an income sheet; revenue is kept or set positive, the result kept or set non-zero |
| Database.AssetRule | automator.py:121-126 | the record is unchanged, or the sheet is an asset sheet and only `ativo` changes, to a positive value |
| Database.TaxRule | automator.py:130-136 | the record is unchanged, or the sheet is a tax sheet and only `total_impostos` changes, to a positive value |
| Database.StaffRule | automator.py:140-143 | the record is unchanged, or the sheet is a staff sheet and only `headcount` changes, to a non-negative value |
| Database.SheetUpdate | automator.py:107-143 | one sheet never changes period, liabilities or status |
| Database.SheetUpdateGuards | automator.py:112-143 | revenue, assets and taxes are kept or set to a positive value; headcount is kept or set to a non-negative value; the operating result is kept or set non-zero; period, liabilities and status never change |
| Database.IncomeBucket | automator.py:112-117 | a positive revenue is always stored, whatever the sheet's name; the operating result is stored exactly when the sheet counts as an income statement and the value is non-zero |
| Database.AssetBucket | automator.py:121-126 | only ATIVO sheets change assets; a positive primary wins; the fallback is read only when the primary is exactly 0, so a negative primary keeps the old value |
| Database.TaxBucket | automator.py:130-136 | the same for taxes on IMPOSTO/FISCAL/FATURAMENTO sheets |
| Database.StaffBucket | automator.py:140-143 | the same for headcount on RH/PESSOAL sheets; the stored count is the floor of the positive value, non-negative and within 1 below it |
| Database.SheetUpdateKeepsWellFormed | automator.py:107-143 | one sheet keeps the record well formed (fixed labels, no liabilities, non-negative revenue, assets, taxes and headcount) |
| Database.SheetsUpdateKeepsWellFormed | automator.py:102-143 | the sheets of a workbook keep it well formed |
| Database.WorkbooksUpdateKeepsWellFormed | automator.py:94-146 | any sequence of workbooks keeps it well formed |
| Database.RunWritesWellFormedRecord | automator.py:82-151 | every record a run writes is well formed |
| Database.UnreadableSheetEndsWorkbook | automator.py:102-146 | the sheets after an unreadable sheet have no effect |
| Database.UnreadableWorkbookKeepsRecord | automator.py:96-146 | a workbook that cannot be opened leaves the record unchanged |
| Patcher.LegacyBlockEnd | automator.py:214 | a match at the start begins with `<script>`, ends with `</script>`, and lies within the page |
| Patcher.LegacyBlockEndIsLazy | automator.py:214 | both gaps are lazy: the block's read is the first `localStorage.getItem` after the tag, and it ends at the first `</script>` after that read |
| Patcher.LegacyBlockEndMatches | automator.py:214 | a match holds a `localStorage.getItem` between its tag and its `</script>`; no match after a leading tag means no such pair follows it |
| Patcher.RemoveLegacyScripts | automator.py:214 | removal never lengthens the page |
| Patcher.RemoveKeepsTextWithoutStorageRead | automator.py:214 | a page without `localStorage.getItem` is kept whole |
| Patcher.RemoveKeepsTextWithoutOpenTag | automator.py:214 | a page without `<script>` is kept whole |
| Patcher.RemoveCopiesPrefix | automator.py:214 | text in which no `<script>` starts is copied |
| Patcher.RemoveLeadingBlock | automator.py:214 | a leading `<script>` whose first `localStorage.getItem` after the tag is at p, and whose first `</script>` after that read is at e, is removed through that `</script>`, whatever lies between the read and the tag, and the scan resumes after it |
| Patcher.RemoveCopiesWhereNoBlock | automator.py:214 | where no legacy block matches at the current position, its character is kept and the scan moves on by one |
| Strings.FindFromIs | automator.py:214 | the first occurrence at or after a position is the one with no occurrence before it |
| Patcher.RemoveBlockAfter | automator.py:214 | `<script>`, text without a `localStorage.getItem` start, a `localStorage.getItem` and a `</script>` are removed together, and scanning resumes after them |
| Patcher.NoStorageReadInside | automator.py:214 | no `localStorage.getItem` starts inside text that has no `S` and ends with `</body>` |
| Patcher.Injection | automator.py:219 | the inserted text ends with the `</body>` it replaces |
| Patcher.PatchPage | automator.py:213-222 | a written page loads the controller whenever the cleaned page had a `</body>`, and gains no `localStorage.getItem` that the cleaned page lacked |
| Patcher.PatchedPageFacts | automator.py:217-220 | the same two facts for the replacement with either prefix |
| Patcher.InjectionFacts | automator.py:219-220 | the inserted text loads the controller, keeps `</body>`, and starts with `<` and ends with `>` |
| Patcher.InjectionHasNoStorageRead | automator.py:219 | the inserted text never reads `localStorage` |
| Patcher.InsertingAddsNoStorageRead | automator.py:219-220 | inserting the scripts creates no `localStorage.getItem` |
| Patcher.WrittenPageLoadsController | automator.py:218-220 | a patched page that had `</body>` loads the controller |
| Strings.Replace | automator.py:220 | replacing with a text at least as long never shortens the page, and with one of equal length keeps its length; `Strings.ReplaceWithoutOccurrence`, `Strings.ReplaceKeepsReplacement` and `Strings.ReplaceCopiesPrefix` give its content |
| Patcher.Writes | automator.py:206-222 | a pass writes at most one file per page |
| Patcher.NothingWrittenIff | automator.py:206-222 | nothing is written if and only if every page is skipped (not `.html`, or already loading the controller) |
| Patcher.WritesComeFromPages | automator.py:206-222 | every written file is an `.html` page of the walk, with that page's patched content |
| Patcher.WriteSource | automator.py:206-222 | the k-th write names a page of the walk that is `.html` and whose patched content it holds |
| Patcher.WritesStep | automator.py:207-222 | one more page adds its write exactly when it is not skipped |
| Patcher.WritesCount | automator.py:207-223 | one more page adds one write unless it is skipped |
| Patcher.PatchFile | automator.py:208-222 | one file: something is written exactly when it is `.html` and does not load the controller after removal, and then it is the patched page |
| Patcher.UpdateSystemFiles | automator.py:206-224 | the pages written are those of `Writes`, and `patched` counts them |
| Patcher.PatchIsIdempotent | automator.py:213-222 | patching twice equals patching once; with a `</body>` or the controller present, the second pass writes nothing |
| Patcher.AfterRun | automator.py:207-222 | one pass keeps every path and the number of pages |
| Patcher.SecondRunWritesNothing | automator.py:207-222 | a second run writes no page when every page has `</body>` or the controller and no `localStorage.getItem` left after removal |
| Patcher.SplicedTailKept | automator.py:214 | the text after the inner block has no `<script>` and is kept |
| Patcher.SplicedInnerRemoved | automator.py:214 | a block with nothing between its tag and its read goes, and scanning resumes after it |
| Patcher.SplicedInsertion | automator.py:219-220 | on the cleaned page the one `</body>` becomes the scripts, inside the joined block |
| Patcher.SplicedPageCleaned | automator.py:214 | removal can join the text around a block into a new `<script>…localStorage.getItem…</script>` |
| Patcher.SplicedFirstPass | automator.py:214-222 | that page is written on the first pass, with the scripts inside the new block |
| Patcher.SplicedSecondPass | automator.py:214-222 | the second pass removes the whole page and writes it empty |
| Patcher.SplicedPageErasedOnSecondPass | automator.py:214-222 | a page with `</body>` whose first removal leaves a `localStorage.getItem` is written again, and emptied, by a second pass |

## Left out

- File system and process: `os.path.exists`, `os.makedirs`, `os.listdir`, `os.walk`, reading and writing files. The folder's existence, its listing and the pages are parameters. The writes are the returned record or the returned pages.
- `pd.ExcelFile` and `pd.read_excel`: workbooks and sheets arrive parsed. A workbook or sheet that cannot be read is a constructor of its own. A cell is missing or the text `str()` gives it, and column labels are the strings pandas assigns (including the `Unnamed: n` and `.1` renames, which are not modelled).
- Exceptions inside `find_value_in_dataframe` (automator.py:65-68): on a rectangular table with in-range indexes the modelled lookup cannot fail. The `except` path is therefore not represented.
- Floating point: amounts are exact reals. IEEE rounding in `float()` and Python's `int()` on huge values are not modelled. `int(hc)` is the floor, which equals truncation for the positive values it is applied to.
- Unicode: `\d`, `str.isspace`, `upper` and `lower` are modelled on ASCII only.
- Search terms are matched as literal text. pandas' `str.contains` reads the term as a regular expression by default; for the eight constant terms of automator.py:112-142 the two readings agree, since none holds a character that is special in a regular expression. The Grid lemmas that quantify over every term describe literal matching.
- `json.dumps` of the record, the `datetime.now()` timestamp, the log and status messages, and the Streamlit interface (automator.py:1-16, 90-91, 99, 118, 127, 137, 146-153, 227-253).
- The generated controller script and its file write (automator.py:157-203), and `core_controller.js` / `lidea_db.js` themselves: these are browser code outside the extraction core.
- `.html` selection looks at the end of the full path, which ends with the file name.
- Patcher.PatchIsIdempotent: requires that removing the legacy blocks leave no `localStorage.getItem` in the page. Without it a second pass can write the page again even when it has a `</body>`: removing one block can join the surrounding text into a new block that the next pass deletes, as Patcher.SplicedPageErasedOnSecondPass shows.
- Patcher.SecondRunWritesNothing: carries the same precondition for every page, for the same reason.

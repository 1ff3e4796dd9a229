# Cortex coverage comparison, modelled in Dafny

Script_Cortex checks which machines are missing the Cortex agent.

The web service in `Script_Cortex/app.py` compares two uploaded files:

- a source list of hostnames;
- a reference list of endpoints that have the agent.

It reports:

- the source hostnames with no matching endpoint. Matching ignores case and surrounding whitespace. Printer-like names can be removed.
- the counts shown in the coverage report.

It then exports either a CSV list or an Excel workbook. The workbook has:

- a one-row summary;
- a "Unique Hostnames" history sheet. Each export appends its hostnames to this sheet, stamped with the ISO 8601 calendar date (`YYYY-MM-DD`).

The desktop tool in `Script_Cortex/file_comparison_tool.py` runs its own, simpler comparison. Its result is case-sensitive and deduplicated.

## Modules

| file | module | contents |
|---|---|---|
| `wrappers.dfy` | `Wrappers` | `Option` and `Result` |
| `text.dfy` | `Text` | ASCII models of `str.strip()`, `str.strip(chars)`, `lower`, `upper`, substring tests, `endswith`, `str(int)` and `int(str)` |
| `seqs.dfy` | `Seqs` | list comprehensions as `Filter` and `MapSeq`, first-occurrence `Dedup`, subsequences, and the lemmas relating them |
| `tables.dfy` | `Tables` | a loaded table as named columns of text cells. It models `get_column_name`: an exact name, else an integer index, else a spreadsheet letter code. The letter code is computed by an imperative loop. |
| `diff.dfy` | `Diff` | `compare_files` of the web service, which covers: <br>• the file checks and `allowed_file`; <br>• cell keys, the two totals and both differences; <br>• the printer denylist and its loop; <br>• the truthy flag; <br>• the endpoints count. |
| `report.dfy` | `Report` | `download_results`, which covers: <br>• the dates; <br>• the summary row; <br>• a `Worksheet` class whose cells the writers update; <br>• reading the prior history; <br>• the history writer loops; <br>• the CSV branch and the file names. |
| `gui.dfy` | `Gui` | the desktop tool, as a `FileComparisonTool` class holding its paths, column entries and last result; `get_column_index`; and its comparison |

External effects are parameters:

- Files arrive already loaded as `Option<Table>`. `None` means pandas could not read the file.
- The current date is a `Date` argument.
- The prior history workbook is an `Option` of its rows.
- What a dialog returns, and whether a dropped path exists, are arguments too.

## Model

| member | source | states |
|---|---|---|
| Text.StripChars | Script_Cortex/file_comparison_tool.py:143 | the stripped text neither starts nor ends with a character of the set |
| Text.StripCharsEmpty | Script_Cortex/file_comparison_tool.py:143 | stripping a set of characters leaves nothing exactly when every character of the input is in the set |
| Text.Strip | Script_Cortex/app.py:136 | `strip()` leaves no whitespace at either end, and gives "" exactly for an all-whitespace input |
| Text.Lower | Script_Cortex/app.py:137 | `lower()` keeps the length and leaves no capital letter |
| Text.Upper | Script_Cortex/app.py:53 | `upper()` keeps the length and leaves no small letter |
| Text.LowerOfConcat | Script_Cortex/app.py:22 | lower-casing a concatenation lower-cases each part |
| Text.LowerOfEndsWith | Script_Cortex/app.py:22 | a name ending in a suffix ends, lower-cased, in the lower-cased suffix |
| Text.LowerKeepsNoDot | Script_Cortex/app.py:22 | a string whose lower-cased form has no dot has no dot itself |
| Text.LowerOfStrippedShape | Script_Cortex/app.py:136-137 | a stripped, lower-cased value has no whitespace at either end and no capital letter |
| Text.UpperOfLetterWord | Script_Cortex/file_comparison_tool.py:185 | upper-casing a word of letters leaves only capitals |
| Text.StripCharsCut | Script_Cortex/file_comparison_tool.py:143 | the stripped text is one contiguous slice of the input, and everything cut away on either side is in the set |
| Text.StripCharsOfStripped | Script_Cortex/app.py:136 | a value whose two ends are outside the set comes back unchanged |
| Text.StripCharsOfWrapped | Script_Cortex/file_comparison_tool.py:143 | runs of set characters wrapped around a value are all removed and the value comes back |
| Text.StripIdempotent | Script_Cortex/app.py:136 | stripping twice gives the same as stripping once |
| Text.LowerIdempotent | Script_Cortex/app.py:137 | lower-casing twice gives the same as lower-casing once |
| Text.LowerKeepsStripped | Script_Cortex/app.py:136-137 | lower-casing a stripped value leaves it stripped, so the order of strip and lower does not matter for keys |
| Text.EndsWithAnyOfTwo | Script_Cortex/file_comparison_tool.py:144 | `endswith` on a pair of suffixes holds exactly when it holds for one of them |
| Text.NatToString | Script_Cortex/app.py:264-267 | `str(n)` is a non-empty string of digits with no leading zero |
| Text.DigitsValueOfNatToString | Script_Cortex/app.py:264-267 | the decimal rendering of a number reads back as that number |
| Text.ParseIntOfIntToString | Script_Cortex/file_comparison_tool.py:182 | `int(str(i)) == i` for every integer, negatives included |
| Text.ParseIntOfDigits | Script_Cortex/app.py:45 | `int` accepts a string of digits and yields its decimal value |
| Text.ParseIntOfMinusDigits | Script_Cortex/app.py:45 | `int` accepts a '-' followed by digits and yields minus their decimal value |
| Text.ParseInt | Script_Cortex/app.py:45 | `int(s)` succeeds only on a stripped text of digits and `_`, with at most a leading sign and ending in a digit, and is negative only after a '-' |
| Seqs.Filter | Script_Cortex/app.py:181-186 | a list comprehension keeps only input elements that pass its test, and never lengthens the list |
| Seqs.FilterComplete | Script_Cortex/app.py:181-186 | every input element that passes the test is in the comprehension's result |
| Seqs.InFilter | Script_Cortex/app.py:181-186 | a value is in the result exactly when it is in the input and passes the test |
| Seqs.FilterIsSubsequence | Script_Cortex/app.py:162-167 | a row filter keeps the input order, i.e. its result is a subsequence of the input |
| Seqs.FilterIdempotent | Script_Cortex/app.py:66-81 | filtering twice with the same test is filtering once |
| Seqs.FilterPartition | Script_Cortex/app.py:162-165 | a test and its negation split the rows: the two results' lengths add up to the input's |
| Seqs.FilterConcat | Script_Cortex/app.py:74-81 | filtering distributes over concatenation |
| Seqs.Dedup | Script_Cortex/file_comparison_tool.py:207 | `unique()` yields a duplicate-free list holding exactly the input's values |
| Seqs.DedupLength | Script_Cortex/file_comparison_tool.py:209 | the deduplicated list is as long as the number of distinct input values |
| Seqs.DedupFirstOccurrenceOrder | Script_Cortex/file_comparison_tool.py:207 | `unique()` keeps values in order of first occurrence |
| Seqs.FilterDedupOrder | Script_Cortex/file_comparison_tool.py:226 | filtering a deduplicated list stays duplicate-free, drawn from the input, in first-occurrence order |
| Tables.LetterColumnIndex | Script_Cortex/app.py:52-57 | the letter loop ends with the base-26 letter code of the upper-cased text, minus one |
| Tables.LetterValue | Script_Cortex/app.py:54-57 | the letter code of a word of capitals is at least 1, and that of the empty word is 0 |
| Tables.ColumnLetters | Script_Cortex/app.py:52-57 | every column has a non-empty name of capital letters |
| Tables.LetterValueOfColumnLetters | Script_Cortex/app.py:52-57 | the letter code of column k's name is k + 1 (A = 1, Z = 26, AA = 27) |
| Tables.UpperOfColumnLetters | Script_Cortex/app.py:54 | column names are already upper case, and upper-casing their lower-case form gives them back |
| Tables.DigitsAndDashesAreNegative | Script_Cortex/app.py:52-57 | a string of digits and dashes is not rejected; its letter code is at most -7, so it never selects a column |
| Tables.BracketIsColumn26 | Script_Cortex/app.py:52-57 | non-letters are not rejected: `"["` yields index 26, the same column as `"aa"` |
| Tables.ResolveColumn | Script_Cortex/app.py:37-63 | a resolved column index is in range, and a failure carries the user's reference |
| Tables.GetColumnName | Script_Cortex/app.py:37-63 | the method with its three tiers and its letter loop returns exactly the resolution |
| Tables.ResolveColumnTiers | Script_Cortex/app.py:39-63 | the tiers apply in order: <br>• an exact name wins, at its first position; <br>• else an in-range integer; <br>• else an in-range letter code. <br>Resolution fails exactly when no tier lands. |
| Tables.ResolveColumnLetters | Script_Cortex/app.py:51-59 | the letter name of column k, in capitals or lower case, selects column k when no column is named so |
| Tables.ResolveColumnIndex | Script_Cortex/app.py:43-47 | the decimal index of column k selects column k when no column is named so |
| Tables.ResolveColumnOutOfRange | Script_Cortex/app.py:43-63 | a digit string at or beyond the column count, which is not a column name, is refused |
| Diff.Extension | Script_Cortex/app.py:22 | there is an extension exactly when the name has a dot; the extension holds no dot and the name ends with the dot and it |
| Diff.AllowedFile | Script_Cortex/app.py:21-22 | an allowed name, lower-cased, ends in ".csv", ".xlsx" or ".xls" |
| Diff.AllowedSuffixOfExtension | Script_Cortex/app.py:22 | a name ending in a dot and an allowed extension, in any case, ends, lower-cased, in one of the three allowed suffixes |
| Diff.AllowedExtensionHasNoDot | Script_Cortex/app.py:18 | none of the allowed extensions holds a dot |
| Diff.ExtensionOfDotted | Script_Cortex/app.py:22 | the text after the last dot is the extension, whatever the stem holds |
| Diff.AllowedFileOfDotted | Script_Cortex/app.py:18-22 | a dotted name is allowed exactly when its lower-cased extension is csv, xlsx or xls |
| Diff.AllowedFileNeedsDot | Script_Cortex/app.py:22 | a name with no dot is never allowed |
| Diff.Key | Script_Cortex/app.py:133-145 | a cell's key has no whitespace at either end and no capital letter |
| Diff.ReferenceTotal | Script_Cortex/app.py:159 | the reference total is at most the number of reference rows |
| Diff.UniqueInSource | Script_Cortex/app.py:162-167 | unique-in-source is no longer than the source. Each listed value is a source cell with a non-empty key that matches no reference key. |
| Diff.UniqueInReference | Script_Cortex/app.py:181-186 | unique-in-reference is no longer than the reference. Each listed value is a stripped reference cell whose key is no source key. |
| Diff.KeyIdempotent | Script_Cortex/app.py:133-138 | normalising a key again changes nothing |
| Diff.ReferenceTotalCountsDistinctKeys | Script_Cortex/app.py:159 | the reference total is the number of distinct non-empty reference keys, and at most the row count |
| Diff.ReferenceKeySetIsNonEmptyKeys | Script_Cortex/app.py:159 | the set of reference keys is the set of non-empty normalised reference cells |
| Diff.UnmatchedIffNotInKeySet | Script_Cortex/app.py:162-165 | a source row is unmatched exactly when its key is not a reference key |
| Diff.UniqueInSourceIsRowFilter | Script_Cortex/app.py:147-167 | unique-in-source is a row filter over the original cells, in order and with duplicates. <br>Every listed row has a non-empty key absent from the reference. <br>Every such row is listed. |
| Diff.SourceRowsPartition | Script_Cortex/app.py:147-167 | each non-empty-key row is either listed or matched, so the listed count is at most the source total, which is at most the row count |
| Diff.UniqueInSourceDependsOnKeysOnly | Script_Cortex/app.py:133-165 | two reference columns with the same key set give the same unique-in-source list |
| Diff.UniqueInReferenceMembers | Script_Cortex/app.py:181-186 | unique-in-reference holds exactly the non-empty stripped reference values whose lower-cased form is no source key. It is in order, with duplicates. |
| Diff.DifferencesShareNoKey | Script_Cortex/app.py:162-186 | no value listed on one side shares its key with a value listed on the other |
| Diff.MatchedRowNotListed | Script_Cortex/app.py:162-165 | a source cell whose key equals some reference row's key is never listed |
| Diff.FilterPrinterHostnames | Script_Cortex/app.py:66-81 | the appending loop returns exactly the comprehension of names that are not printer-like |
| Diff.NonPrintersProperties | Script_Cortex/app.py:66-81 | the denylist filter: <br>• keeps exactly the names with none of hp, canon, npi or printer in their lower-cased form; <br>• keeps their order; <br>• is idempotent. |
| Diff.DenylistIsSubstringMatch | Script_Cortex/app.py:72-78 | the denylist matches substrings, so "myhpclient" and "hpc-server" count as printers |
| Diff.FilterFlagValues | Script_Cortex/app.py:170-172 | the flag is on for "on", the default "true", and "True", "YES" or "1"; it is off for "false", "off" or empty |
| Diff.ApplyPrinterFilterCounts | Script_Cortex/app.py:173-178 | filtered plus kept equals the unfiltered count. <br>When disabled, the list is unchanged and the filtered count is 0. |
| Diff.NonEmptyCount | Script_Cortex/app.py:196-198 | the count of non-empty stripped endpoint cells is at most the number of cells |
| Diff.EndpointsCount | Script_Cortex/app.py:188-201 | a count other than the fallback comes from a read endpoints table and is at most the length of one of its columns |
| Diff.EndpointsCountPaths | Script_Cortex/app.py:188-201 | the endpoints count falls back to the unique-in-reference count when there is no endpoints file or it fails; otherwise it is the number of non-empty stripped cells in the resolved column, not deduplicated |
| Diff.CompareColumnsCounts | Script_Cortex/app.py:132-211 | every figure of the response: <br>• the source total is the non-empty-key rows; <br>• the reference total is the distinct keys; <br>• unique count + filtered count = original unique count ≤ source total. |
| Diff.CompareColumns | Script_Cortex/app.py:132-211 | the unique count is the length of the listed hostnames. Listed plus filtered is the original unique count, at most the source rows. The reference total is at most the reference rows. |
| Diff.Compare | Script_Cortex/app.py:89-211 | the missing-files error comes exactly when an upload is absent. A success has both uploads present with allowed names, and its listed and filtered counts add up to the original unique count. |
| Diff.CompareFiles | Script_Cortex/app.py:89-130 | the request handler returns exactly the comparison of its checked inputs |
| Diff.CompareResolved | Script_Cortex/app.py:132-211 | the method computes exactly the figures of the resolved columns |
| Diff.CountEndpoints | Script_Cortex/app.py:188-201 | the method returns exactly the endpoints count, with its fallback |
| Diff.CompareErrors | Script_Cortex/app.py:92-130 | a comparison succeeds exactly when: <br>• both files are present, named and of an allowed type; <br>• both are read; <br>• both columns resolve. <br>A source column error carries the table's column names. |
| Diff.EmptySource | Script_Cortex/app.py:147-186 | an empty source lists nothing and counts nothing, and every non-empty stripped reference value counts as missing from it |
| Report.Pad2 | Script_Cortex/app.py:266 | the two-digit year is exactly two digits |
| Report.Pad4 | Script_Cortex/app.py:330 | the four-digit year is exactly four digits |
| Report.ShortDate | Script_Cortex/app.py:264-267 | the `D-Mon-YY` date is an unpadded day (digits, no leading zero), a dash, one of the twelve month abbreviations, a dash and two digits |
| Report.IsoDate | Script_Cortex/app.py:330 | the ISO 8601 stamp is ten characters: four digits, '-', two digits, '-', two digits |
| Report.MonthNumber | Script_Cortex/app.py:265 | reading a month abbreviation yields a month number or 0 |
| Report.Pad2Value | Script_Cortex/app.py:266 | a two-digit rendering reads back as its number |
| Report.Pad4Value | Script_Cortex/app.py:330 | a four-digit rendering reads back as its number |
| Report.Pad4OfDigits | Script_Cortex/app.py:330 | every four-digit string is the rendering of its own value |
| Report.ParseIsoDateOfIsoDate | Script_Cortex/app.py:330 | the ISO 8601 `YYYY-MM-DD` stamp of a valid date parses back to that date |
| Report.IsoDateOfParseIsoDate | Script_Cortex/app.py:330 | every string that parses as a date is a valid date's ISO stamp, so the format is a bijection |
| Report.BasicDateDropsDashes | Script_Cortex/app.py:377 | the file name's basic `YYYYMMDD` form is the ISO stamp without its dashes |
| Report.MonthNumberOfAbbreviation | Script_Cortex/app.py:265 | each month's three-letter abbreviation reads back as that month |
| Report.ParseShortDateOfShortDate | Script_Cortex/app.py:262-267 | the `D-Mon-YY` date string gives back the day, the month and the year modulo 100 |
| Report.ParseShortDateOfParts | Script_Cortex/app.py:267 | a day, month and two-digit year joined by dashes read back as those parts |
| Report.ReportFileNameIsAllowed | Script_Cortex/app.py:377 | the report file name has the xlsx extension and passes the upload check |
| Report.PutRowCells | Script_Cortex/app.py:280-281 | writing a row fills cells 1..n of that row with the values in order, and leaves every other cell as it was |
| Report.Worksheet.constructor | Script_Cortex/app.py:236-238 | a new sheet has its title and no cells |
| Report.Worksheet.SetCell | Script_Cortex/app.py:324-325 | writing a cell changes that cell only |
| Report.Worksheet.WriteRow | Script_Cortex/app.py:280-281 | writing a row changes exactly that row's first n cells |
| Report.SheetRows | Script_Cortex/app.py:315 | reading a sheet from row 2 gives one row per sheet row, all of the requested width |
| Report.SummaryGridCells | Script_Cortex/app.py:241-285 | the summary sheet: <br>• has exactly two rows of six cells, the six headers then the values; <br>• row 2 is the `D-Mon-YY` date, source total, reference total, unique count, the reference total again, and the endpoints count. |
| Report.PriorHistory | Script_Cortex/app.py:315-317 | prior history keeps only rows whose date and hostname are both filled, and never grows |
| Report.ReadExistingHistory | Script_Cortex/app.py:309-320 | the reading loop returns exactly the filled prior rows, in order. With no file or no readable sheet it returns nothing. |
| Report.PriorHistoryOfWideRows | Script_Cortex/app.py:315-317 | over rows of two or more cells, prior history is the first two cells of the rows with both filled, in order |
| Report.PriorHistoryOfFilledRows | Script_Cortex/app.py:315-317 | rows with both cells filled are all kept, cell for cell |
| Report.Stamp | Script_Cortex/app.py:330-334 | each exported hostname becomes one (today, hostname) entry, in input order |
| Report.HistoryGridCells | Script_Cortex/app.py:295-334 | the history sheet holds the Date/Hostname header then one two-cell row per entry, and nothing else |
| Report.WriteHistorySheet | Script_Cortex/app.py:322-334 | the two writer loops, each advancing the row counter, leave the sheet holding the prior entries then today's stamped hostnames |
| Report.StampedHistoryCells | Script_Cortex/app.py:322-334 | after the header come the valid prior rows, then one (today-ISO, hostname) row per exported hostname. <br>That makes 1 + prior + hostnames rows. |
| Report.HistorySheetRows | Script_Cortex/app.py:315 | reading a written history sheet from row 2 gives back its entries |
| Report.HistoryRoundTrip | Script_Cortex/app.py:309-334 | writing filled entries and reading the sheet back yields the same entries |
| Report.DownloadResults | Script_Cortex/app.py:219-387 | the export handler returns exactly the export its inputs determine |
| Report.Download | Script_Cortex/app.py:219-387 | the export is refused exactly for a non-xlsx request with no hostnames. A success is a workbook exactly when the format is "xlsx" in any case. A CSV export is one column holding the hostnames. |
| Report.DownloadWorkbook | Script_Cortex/app.py:234-377 | the xlsx export always succeeds. <br>Its summary is the summary row. <br>Its history (also the saved file) is the prior history followed by today's stamped hostnames. <br>Its file name passes the upload check. |
| Report.HistoryAccumulates | Script_Cortex/app.py:309-372 | reading the saved history file at the next export gives back the prior entries followed by this export's entries |
| Report.CsvTableResolves | Script_Cortex/app.py:383 | the CSV table has the hostnames as its one column, reachable by name, by "0" and by "A" |
| Report.CsvFileNameIsAllowed | Script_Cortex/app.py:387 | the CSV file name passes the upload check |
| Report.DownloadCsv | Script_Cortex/app.py:378-387 | the CSV export is refused exactly when there are no hostnames; otherwise it is the one-column table of the hostnames |
| Gui.ColumnIndexOfInteger | Script_Cortex/file_comparison_tool.py:180-183 | any integer entry, negative ones included, is returned unchanged with no range check |
| Gui.ColumnIndex | Script_Cortex/file_comparison_tool.py:178-189 | a word of letters, in either case, never gives a negative index |
| Gui.LettersAreNotIntegers | Script_Cortex/file_comparison_tool.py:180-184 | an entry of letters is not an integer, so it takes the letter path |
| Gui.ColumnIndexOfLetters | Script_Cortex/file_comparison_tool.py:184-189 | the letter name of column k, in either case, gives index k (A = 0, Z = 25, AA = 26) |
| Gui.LetterEntryIndex | Script_Cortex/file_comparison_tool.py:184-189 | a letter entry gives its upper-cased letter code minus one |
| Gui.IlocIndices | Script_Cortex/file_comparison_tool.py:207 | `iloc` accepts exactly the indices in [-n, n), and a negative index counts from the end |
| Gui.EmptyEntryIsLastColumn | Script_Cortex/file_comparison_tool.py:184-189 | an empty entry gives -1, which selects the last column |
| Gui.GuiDiffMembers | Script_Cortex/file_comparison_tool.py:206-226 | a value is listed exactly when it is a stripped source value and no stripped reference value equals it |
| Gui.GuiDiffOrder | Script_Cortex/file_comparison_tool.py:207-226 | the list has no duplicates and follows the first occurrence of each value among the stripped source values |
| Gui.GuiDiff | Script_Cortex/file_comparison_tool.py:224-226 | the tool's list has no duplicates and is no longer than the distinct source values. Each entry is a stripped source value that is no stripped reference value. |
| Gui.SourceCountIsDistinct | Script_Cortex/file_comparison_tool.py:207-209 | the source count is the number of distinct stripped values, at most the row count |
| Gui.SingleStrippedValue | Script_Cortex/file_comparison_tool.py:207-217 | a single already-stripped cell gives itself as the source list and as the reference set |
| Gui.GuiMatchingIsCaseSensitive | Script_Cortex/file_comparison_tool.py:226 | a hostname with a capital letter is listed by the tool against its own lower-case form, though the web service matches the two |
| Gui.DesktopDiffOfSingles | Script_Cortex/file_comparison_tool.py:226 | two distinct stripped values never match each other in the tool |
| Gui.WebDiffOfLowered | Script_Cortex/app.py:133-165 | the web service matches a stripped hostname with its lower-case form |
| Gui.BlankCellsDiffer | Script_Cortex/file_comparison_tool.py:207-226 | the tool lists a whitespace-only source cell (as "") when no reference cell is whitespace-only, while the web service drops it |
| Gui.GuiCompareOutcome | Script_Cortex/file_comparison_tool.py:191-227 | a comparison succeeds exactly when: <br>• both paths are set and both files are read; <br>• both column entries are in range for `iloc`. <br>Its counts are the distinct stripped values on each side, and the list is their difference. |
| Gui.GuiCompare | Script_Cortex/file_comparison_tool.py:191-227 | the comparison is refused as unselected exactly when a path is unset, and a success lists no more hostnames than the source count |
| Gui.CleanDroppedOfBraced | Script_Cortex/file_comparison_tool.py:143 | a dropped path wrapped in braces comes back without them |
| Gui.AllowedSuffix | Script_Cortex/file_comparison_tool.py:144 | a path whose lower-cased form ends with an allowed extension is also accepted by the web service's check |
| Gui.DroppedPathsAreAllowed | Script_Cortex/file_comparison_tool.py:144-154 | every path the drop handlers accept as CSV or Excel passes the web service's upload check |
| Gui.FileComparisonTool.constructor | Script_Cortex/file_comparison_tool.py:16-17 | the tool starts with no paths, both column entries "0" and an empty result |
| Gui.FileComparisonTool.BrowseCsv | Script_Cortex/file_comparison_tool.py:160-167 | a chosen CSV path replaces the old one; a cancelled dialog changes nothing |
| Gui.FileComparisonTool.BrowseXlsx | Script_Cortex/file_comparison_tool.py:169-176 | a chosen Excel path replaces the old one; a cancelled dialog changes nothing |
| Gui.FileComparisonTool.DropCsv | Script_Cortex/file_comparison_tool.py:140-148 | a dropped existing .csv path becomes the CSV path. Anything else is rejected and leaves the state alone. |
| Gui.FileComparisonTool.DropXlsx | Script_Cortex/file_comparison_tool.py:150-158 | a dropped existing .xlsx or .xls path becomes the Excel path. Anything else is rejected and leaves the state alone. |
| Gui.DecideDrop | Script_Cortex/file_comparison_tool.py:140-158 | a drop decision is nothing for no paths; otherwise the first cleaned path is accepted when it exists and has the right kind, else rejected |
| Gui.FileComparisonTool.GetColumnIndex | Script_Cortex/file_comparison_tool.py:178-189 | the method, with its letter loop, returns exactly `ColumnIndex` of the entry |
| Gui.FileComparisonTool.CompareFiles | Script_Cortex/file_comparison_tool.py:191-249 | the method returns the tool's comparison of its current paths and entries. <br>It stores the new list only on success. A refusal or failure leaves the stored list and everything else unchanged. |
| Gui.FileComparisonTool.ExportResults | Script_Cortex/file_comparison_tool.py:251-268 | export is refused when the list is empty. <br>A cancelled dialog exports nothing. <br>Otherwise the one-column table of the list goes to the chosen path. |

## Left out

- Flask routing, `request`/`jsonify`/`send_file`, HTTP status codes and error-message texts: the model returns a `Result` whose error names the failing check.
- The generic `except` that answers 500 in both handlers: every failure the model knows of is one of its error cases, and nothing else can fail in it.
- The 50 MB upload limit (`MAX_CONTENT_LENGTH`): the framework enforces it before the handler runs.
- `pd.read_csv` and `pd.read_excel`, `fillna('')` and `astype(str)`:
  - tables arrive already loaded, with every cell rendered as text, and `None` stands for a file pandas cannot read;
  - how numbers, NaN and dates render as text is not modelled.
- In the desktop tool an empty cell is not filled with '': pandas reads it as NaN, and `astype(str)` renders it as the text "nan" (file_comparison_tool.py lines 206-207 and 216-217). The model's tables hold the rendered text, so the tool sees "nan" only when the table says so. It does not derive "nan" from an empty cell.
- `read_file_by_format` itself is not modelled as a separate step. The source and reference files reach it only after `allowed_file`. The endpoints file reaches it (app.py line 192) with no such check. There, a refused extension raises ValueError and a name without a dot raises IndexError. The `except` at lines 199-201 catches both and keeps the fallback count. `Diff.EndpointsCount` models this as `!AllowedFile(filename)` giving the fallback.
- `DataFrame.to_csv`, CSV quoting, and the `openpyxl` load and save: the exports are modelled as tables and cell grids.
- Cell styling: fills, fonts, alignment and column widths. These are cosmetic.
- `datetime.now()`: the date is an argument.
- `strftime('%b')` and `%Y`:
  - `%b` is locale-dependent; the model uses the English abbreviations;
  - `%Y` is modelled as four digits, so years before 1000 are padded.
- Whether the desktop history file exists or is readable is the `Option` given to the export: `None` for a missing file, a missing sheet or a corrupt workbook.
- Cells of the history file are text; date cells that openpyxl would return as `datetime` are not modelled.
- Writing the history file to the Desktop and `os.makedirs`: the saved grid is returned. A failed save, which the source ignores, is not modelled.
- `Text.Strip`, `Text.Lower`, `Text.Upper`: ASCII only. Unicode whitespace and non-ASCII letters are left as they are.
- `Text.ParseInt`: ASCII only. It takes base-10 digits with `_` separators, an optional sign and surrounding whitespace. Python's `int` also accepts non-ASCII digits, which are not modelled.
- tkinter widgets, drag-and-drop, file dialogs, message boxes and the results-pane text:
  - dialogs and existence checks are arguments;
  - `splitlist` is modelled as the list of dropped paths being given;
  - an unset path (`None`) and the empty string are one value, which the tool treats alike.
- Gui.FileComparisonTool.ExportResults: returns the table to write instead of writing it, so a failed write is not modelled.
- Concurrency between requests: the handlers are modelled one call at a time.

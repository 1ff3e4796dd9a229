/**
 * The desktop comparison tool of Script_Cortex/file_comparison_tool.py: a
 * window object that remembers the chosen CSV (source) and Excel
 * (reference) files, the two column entries and the last result, and runs
 * its own, simpler comparison: the distinct stripped source values that do
 * not occur, exactly and case-sensitively, among the stripped reference
 * values.
 *
 * Widgets, dialogs and message boxes are left out: what a dialog returns
 * and whether a dropped path exists arrive as parameters, the loaded files
 * as `Option<Table>` (None when pandas cannot read them), and an unset path
 * (Python's None) is the empty string, which the tool treats the same way.
 */
module Gui {
  import opened Wrappers
  import opened Text
  import opened Seqs
  import opened Tables
  import Diff

  // ---------------------------------------------------------------------
  // Column entries
  // ---------------------------------------------------------------------

  /** `get_column_index`: `int(s)` when it parses, kept as it is (negative
      or past the last column alike), else the letter code of the
      upper-cased text minus one. */
  function ColumnIndex(s: string): (index: int)
    ensures LetterWord(s) ==> index >= 0
  {
    LettersAreNotIntegers(s);
    UpperOfLetterWord(s);
    match ParseInt(s)
    case Some(i) => i
    case None => LetterValue(Upper(s)) - 1
  }

  /** Any integer entry, negative ones included, is its own index: nothing
      is checked against the table. */
  lemma ColumnIndexOfInteger(i: int)
    ensures ColumnIndex(IntToString(i)) == i
  {
    ParseIntOfIntToString(i);
  }

  /** A word of letters never parses as an integer. */
  lemma LettersAreNotIntegers(s: string)
    ensures LetterWord(s) ==> ParseInt(s) == None
  {
    if LetterWord(s) {
      StripCharsOfStripped(s, Whitespace);
    }
  }

  /** The spreadsheet name of column `k`, in either case, selects column
      `k`: A = 0, Z = 25, AA = 26. */
  lemma ColumnIndexOfLetters(k: nat)
    ensures ColumnIndex(ColumnLetters(k)) == k
    ensures ColumnIndex(Lower(ColumnLetters(k))) == k
  {
    var letters := ColumnLetters(k);
    UpperOfColumnLetters(k);
    LetterValueOfColumnLetters(k);
    LetterEntryIndex(letters);
    LowerLetterEntryIndex(letters);
  }

  /** A word of letters is read by its letter code. */
  lemma LetterEntryIndex(s: string)
    requires LetterWord(s)
    ensures ColumnIndex(s) == LetterValue(Upper(s)) - 1
  {
    LettersAreNotIntegers(s);
  }

  lemma LowerLetterEntryIndex(s: string)
    requires s != [] && AllCapitals(s)
    ensures ColumnIndex(Lower(s)) == LetterValue(Upper(Lower(s))) - 1
  {
    var l := Lower(s);
    assert forall k :: 0 <= k < |l| ==> IsLowerLetter(l[k]);
    LetterEntryIndex(l);
  }

  /** `df.iloc[:, i]`: the cells of column `i`, a negative `i` counting back
      from the last column; outside `[-n, n)` pandas raises IndexError. */
  function Iloc(t: Table, i: int): Option<seq<string>>
  {
    if 0 <= i < |t| then Some(t[i].cells)
    else if -|t| <= i < 0 then Some(t[|t| + i].cells)
    else None
  }

  /** Each column can be reached by its index and by that index minus the
      number of columns, and by nothing outside `[-n, n)`. */
  lemma IlocIndices(t: Table, i: int)
    ensures Iloc(t, i).Some? <==> -|t| <= i < |t|
    ensures 0 <= i < |t| ==> Iloc(t, i) == Iloc(t, i - |t|) == Some(t[i].cells)
  {
  }

  /** An empty column entry is no integer, and its letter code is 0, so it
      selects index -1: the last column of a non-empty table. */
  lemma EmptyEntryIsLastColumn(t: Table)
    requires t != []
    ensures ColumnIndex("") == -1
    ensures Iloc(t, ColumnIndex("")) == Some(t[|t| - 1].cells)
  {
    assert StripChars("", Whitespace) == "";
  }

  // ---------------------------------------------------------------------
  // The comparison
  // ---------------------------------------------------------------------

  /** `col.astype(str).str.strip()`, one value per row. */
  function StrippedValues(cells: seq<string>): seq<string>
  {
    MapSeq(cells, Strip)
  }

  /** `csv_hostnames`: `.dropna()` finds nothing left to drop once the cells
      are text, and `.unique()` keeps each value once, at its first
      occurrence. */
  function SourceHostnames(cells: seq<string>): seq<string>
  {
    Dedup(StrippedValues(cells))
  }

  /** `xlsx_hostnames`: the set of stripped reference values. */
  function ReferenceHostnames(cells: seq<string>): set<string>
  {
    Elements(StrippedValues(cells))
  }

  /** `unique_in_csv`: the distinct source values that are not, as written,
      reference values.  Unlike the web comparison, case matters and empty
      values take part. */
  function GuiDiff(csvCells: seq<string>, xlsxCells: seq<string>): (r: seq<string>)
    ensures NoDups(r) && |r| <= |SourceHostnames(csvCells)|
    ensures forall k :: 0 <= k < |r| ==>
              r[k] in StrippedValues(csvCells) && r[k] !in ReferenceHostnames(xlsxCells)
  {
    var keep := h => h !in ReferenceHostnames(xlsxCells);
    FilterDedupOrder(StrippedValues(csvCells), keep);
    Filter(SourceHostnames(csvCells), keep)
  }

  /** A value is listed exactly when some source cell strips to it and no
      reference cell does. */
  lemma GuiDiffMembers(csvCells: seq<string>, xlsxCells: seq<string>, h: string)
    ensures h in GuiDiff(csvCells, xlsxCells) <==>
              (exists i :: 0 <= i < |csvCells| && Strip(csvCells[i]) == h)
              && !(exists j :: 0 <= j < |xlsxCells| && Strip(xlsxCells[j]) == h)
  {
    InMapSeq(csvCells, Strip, h);
    InMapSeq(xlsxCells, Strip, h);
    InFilter(SourceHostnames(csvCells), h => h !in ReferenceHostnames(xlsxCells), h);
  }

  /** The result lists each value once, in the order of its first
      occurrence among the stripped source values. */
  lemma GuiDiffOrder(csvCells: seq<string>, xlsxCells: seq<string>)
    ensures var r := GuiDiff(csvCells, xlsxCells);
      var stripped := StrippedValues(csvCells);
      && NoDups(r)
      && (forall k :: 0 <= k < |r| ==> r[k] in stripped)
      && (forall i, j :: 0 <= i < j < |r| ==> IndexOf(stripped, r[i]) < IndexOf(stripped, r[j]))
  {
    FilterDedupOrder(StrippedValues(csvCells), h => h !in ReferenceHostnames(xlsxCells));
  }

  /** The reported source count is the number of distinct stripped source
      values. */
  lemma SourceCountIsDistinct(cells: seq<string>)
    ensures |SourceHostnames(cells)| == |Elements(StrippedValues(cells))| <= |cells|
  {
    DedupLength(StrippedValues(cells));
    ElementsBound(StrippedValues(cells));
  }

  /** A single value with no surrounding space is its own stripped and
      de-duplicated list. */
  lemma SingleStrippedValue(h: string)
    requires h != [] ==> h[0] !in Whitespace && h[|h| - 1] !in Whitespace
    ensures StrippedValues([h]) == [h]
    ensures SourceHostnames([h]) == [h]
    ensures ReferenceHostnames([h]) == {h}
  {
    assert StrippedValues([h]) == [h] by {
      StripCharsOfStripped(h, Whitespace);
      MapSeqSingleton(h, Strip);
    }
    assert SourceHostnames([h]) == [h] by {
      DedupSingleton(h);
    }
    assert ReferenceHostnames([h]) == {h} by {
      ElementsSingleton(h);
    }
  }

  /** Where the two comparisons part: for a value with an upper-case letter
      and no surrounding space, a reference holding its lower-case form
      covers it in the web comparison but not in the desktop one. */
  lemma GuiMatchingIsCaseSensitive(h: string, k: int)
    requires h != [] && h[0] !in Whitespace && h[|h| - 1] !in Whitespace
    requires 0 <= k < |h| && IsUpperLetter(h[k])
    ensures GuiDiff([h], [Lower(h)]) == [h]
    ensures Diff.UniqueInSource([h], [Lower(h)]) == []
  {
    var l := Lower(h);
    assert l[k] != h[k];
    assert l[0] !in Whitespace && l[|l| - 1] !in Whitespace;
    DesktopDiffOfSingles(h, l);
    WebDiffOfLowered(h);
  }

  /** Two distinct values without surrounding space: the first is listed
      against a reference holding only the second. */
  lemma DesktopDiffOfSingles(h: string, l: string)
    requires h != [] && h[0] !in Whitespace && h[|h| - 1] !in Whitespace
    requires l != [] && l[0] !in Whitespace && l[|l| - 1] !in Whitespace
    requires h != l
    ensures GuiDiff([h], [l]) == [h]
  {
    SingleStrippedValue(h);
    SingleStrippedValue(l);
    assert GuiDiff([h], [l]) == Filter([h], x => x !in {l});
    assert [h][1..] == [];
  }

  /** A value without surrounding space is matched by its lower-case form in
      the web comparison. */
  lemma WebDiffOfLowered(h: string)
    requires h != [] && h[0] !in Whitespace && h[|h| - 1] !in Whitespace
    ensures Diff.UniqueInSource([h], [Lower(h)]) == []
  {
    var l := Lower(h);
    StripCharsOfStripped(h, Whitespace);
    LowerKeepsStripped(h);
    LowerIdempotent(h);
    assert Diff.Key(l) == Diff.Key(h);
    MapSeqSingleton(l, Diff.Key);
    assert !Diff.Unmatched([l], h);
    Diff.UniqueInSourceIsRowFilter([h], [l]);
    assert [h][1..] == [];
  }

  /** A whitespace-only source cell takes part in the desktop comparison (as
      the empty value) but is never listed by the web comparison. */
  lemma BlankCellsDiffer(csvCells: seq<string>, xlsxCells: seq<string>, i: int)
    requires 0 <= i < |csvCells| && Strip(csvCells[i]) == ""
    requires forall j :: 0 <= j < |xlsxCells| ==> Strip(xlsxCells[j]) != ""
    ensures "" in GuiDiff(csvCells, xlsxCells)
    ensures csvCells[i] !in Diff.UniqueInSource(csvCells, xlsxCells)
  {
    GuiDiffMembers(csvCells, xlsxCells, "");
    assert Diff.Key(csvCells[i]) == "";
  }

  /** Why a comparison produced no list. */
  datatype GuiError = FilesNotSelected | ReadFailed | ColumnOutOfRange

  /** The figures the results pane shows and the list kept for export. */
  datatype GuiReport = GuiReport(sourceCount: nat, referenceCount: nat, unique: seq<string>)

  /** The whole of `compare_files`, in the order the tool goes: both paths
      set, then the CSV read and its column taken, then the Excel file read
      and its column taken; any failure along the way ends it. */
  function GuiCompare(csvPath: string, xlsxPath: string, csvColumn: string, xlsxColumn: string,
                      csvData: Option<Table>, xlsxData: Option<Table>): (r: Result<GuiReport, GuiError>)
    ensures r == Err(FilesNotSelected) <==> csvPath == "" || xlsxPath == ""
    ensures r.Ok? ==> |r.value.unique| <= r.value.sourceCount
  {
    if csvPath == "" || xlsxPath == "" then Err(FilesNotSelected)
    else if csvData.None? then Err(ReadFailed)
    else
      match Iloc(csvData.value, ColumnIndex(csvColumn))
      case None => Err(ColumnOutOfRange)
      case Some(csvCells) =>
        if xlsxData.None? then Err(ReadFailed)
        else
          match Iloc(xlsxData.value, ColumnIndex(xlsxColumn))
          case None => Err(ColumnOutOfRange)
          case Some(xlsxCells) =>
            Ok(GuiReport(|SourceHostnames(csvCells)|, |ReferenceHostnames(xlsxCells)|,
                         GuiDiff(csvCells, xlsxCells)))
  }

  /** A comparison succeeds exactly when both paths are set, both files are
      read and both column entries land in `[-n, n)`; its counts are the
      numbers of distinct stripped values on each side, and its list holds
      no more than the source count. */
  lemma GuiCompareOutcome(csvPath: string, xlsxPath: string, csvColumn: string, xlsxColumn: string,
                          csvData: Option<Table>, xlsxData: Option<Table>)
    ensures var r := GuiCompare(csvPath, xlsxPath, csvColumn, xlsxColumn, csvData, xlsxData);
      && (r.Ok? <==>
            && csvPath != "" && xlsxPath != "" && csvData.Some? && xlsxData.Some?
            && -|csvData.value| <= ColumnIndex(csvColumn) < |csvData.value|
            && -|xlsxData.value| <= ColumnIndex(xlsxColumn) < |xlsxData.value|)
      && (r.Ok? ==>
            && r.value.sourceCount == |Elements(StrippedValues(Iloc(csvData.value, ColumnIndex(csvColumn)).value))|
            && r.value.referenceCount == |ReferenceHostnames(Iloc(xlsxData.value, ColumnIndex(xlsxColumn)).value)|
            && r.value.unique == GuiDiff(Iloc(csvData.value, ColumnIndex(csvColumn)).value,
                                         Iloc(xlsxData.value, ColumnIndex(xlsxColumn)).value)
            && |r.value.unique| <= r.value.sourceCount)
  {
    var r := GuiCompare(csvPath, xlsxPath, csvColumn, xlsxColumn, csvData, xlsxData);
    if csvData.Some? {
      IlocIndices(csvData.value, ColumnIndex(csvColumn));
    }
    if xlsxData.Some? {
      IlocIndices(xlsxData.value, ColumnIndex(xlsxColumn));
    }
    if r.Ok? {
      SourceCountIsDistinct(Iloc(csvData.value, ColumnIndex(csvColumn)).value);
    }
  }

  // ---------------------------------------------------------------------
  // Dropped files
  // ---------------------------------------------------------------------

  /** `files[0].strip('{}').strip('"').strip("'")`: the wrapping Tk puts
      around a dropped path with spaces, and quotes. */
  function CleanDropped(f: string): string
  {
    StripChars(StripChars(StripChars(f, {'{', '}'}), {'"'}), {'\''})
  }

  /** A path Tk wrapped in braces comes back as it was. */
  lemma CleanDroppedOfBraced(p: string)
    requires p != []
    requires p[0] !in {'{', '}', '"', '\''} && p[|p| - 1] !in {'{', '}', '"', '\''}
    ensures CleanDropped("{" + p + "}") == p
  {
    StripCharsOfWrapped("{", p, "}", {'{', '}'});
    StripCharsOfStripped(p, {'"'});
    StripCharsOfStripped(p, {'\''});
  }

  predicate IsCsvPath(p: string)
  {
    EndsWith(Lower(p), ".csv")
  }

  predicate IsExcelPath(p: string)
  {
    EndsWithAny(Lower(p), [".xlsx", ".xls"])
  }

  /** A path ending in `.` and an allowed extension, in any case, is one the
      web application's upload check accepts too. */
  lemma AllowedSuffix(p: string, ext: string)
    requires ext in Diff.AllowedExtensions && EndsWith(Lower(p), "." + ext)
    ensures Diff.AllowedFile(p)
  {
    var n := |ext|;
    var lp := Lower(p);
    assert lp[|p| - n - 1..] == "." + ext;
    assert lp[|p| - n - 1] == '.' == LowerChar(p[|p| - n - 1]);
    var e := p[|p| - n..];
    LowerOfSuffix(p, n);
    assert lp[|p| - n..] == lp[|p| - n - 1..][1..] == ext;
    Diff.AllowedExtensionHasNoDot(ext);
    LowerKeepsNoDot(e);
    var stem := p[..|p| - n - 1];
    assert p == stem + "." + e;
    Diff.AllowedFileOfDotted(stem, e);
  }

  /** Every path the tool takes by dropping is one the web application's
      upload check accepts too. */
  lemma DroppedPathsAreAllowed(p: string)
    ensures IsCsvPath(p) ==> Diff.AllowedFile(p)
    ensures IsExcelPath(p) ==> Diff.AllowedFile(p)
  {
    if IsCsvPath(p) {
      AllowedSuffix(p, "csv");
    }
    if IsExcelPath(p) {
      DroppedExcelIsAllowed(p);
    }
  }

  /** An Excel path, `.xlsx` or `.xls` in any case, passes the upload check. */
  lemma DroppedExcelIsAllowed(p: string)
    requires IsExcelPath(p)
    ensures Diff.AllowedFile(p)
  {
    EndsWithAnyOfTwo(Lower(p), ".xlsx", ".xls");
    if EndsWith(Lower(p), ".xlsx") {
      AllowedSuffix(p, "xlsx");
    } else {
      AllowedSuffix(p, "xls");
    }
  }

  datatype DropOutcome = NothingDropped | Accepted(path: string) | Rejected

  /** What a drop handler makes of the dropped paths: nothing when none
      came, else the first one unwrapped, taken when it exists and has a
      suffix the handler `accepts`, refused otherwise. */
  function DropOf(files: seq<string>, pathExists: string -> bool, accepts: string -> bool): DropOutcome
  {
    if files == [] then NothingDropped
    else
      var path := CleanDropped(files[0]);
      if pathExists(path) && accepts(path) then Accepted(path) else Rejected
  }

  /** A drop handler's decision, step by step: nothing when no path came,
      else the first one unwrapped, kept when it exists and is accepted. */
  method DecideDrop(files: seq<string>, pathExists: string -> bool, accepts: string -> bool)
    returns (outcome: DropOutcome)
    ensures outcome == DropOf(files, pathExists, accepts)
  {
    if files == [] {
      return NothingDropped;
    }
    var path := CleanDropped(files[0]);
    if pathExists(path) && accepts(path) {
      outcome := Accepted(path);
    } else {
      outcome := Rejected;
    }
  }

  datatype ExportOutcome = NothingToExport | ExportCancelled | Exported(path: string, table: Table)

  const ExportColumnName := "Unique_Hostnames"

  // ---------------------------------------------------------------------
  // The window
  // ---------------------------------------------------------------------

  class FileComparisonTool {
    /** The chosen files; "" while none is chosen. */
    var csvFilePath: string
    var xlsxFilePath: string
    /** The two column entries. */
    var csvColumn: string
    var xlsxColumn: string
    /** The list of the last successful comparison, kept for export. */
    var uniqueHostnames: seq<string>

    /** A new window: no files, both column entries "0", nothing to
        export. */
    constructor ()
      ensures csvFilePath == "" && xlsxFilePath == ""
      ensures csvColumn == "0" && xlsxColumn == "0"
      ensures uniqueHostnames == []
    {
      csvFilePath := "";
      xlsxFilePath := "";
      csvColumn := "0";
      xlsxColumn := "0";
      uniqueHostnames := [];
    }

    /** `browse_csv`: the dialog's answer replaces the path unless the
        dialog was cancelled (""). */
    method BrowseCsv(chosen: string)
      modifies this
      ensures csvFilePath == (if chosen != "" then chosen else old(csvFilePath))
      ensures xlsxFilePath == old(xlsxFilePath) && csvColumn == old(csvColumn) && xlsxColumn == old(xlsxColumn)
      ensures uniqueHostnames == old(uniqueHostnames)
    {
      if chosen != "" {
        csvFilePath := chosen;
      }
    }

    /** `browse_xlsx`, the same for the reference file. */
    method BrowseXlsx(chosen: string)
      modifies this
      ensures xlsxFilePath == (if chosen != "" then chosen else old(xlsxFilePath))
      ensures csvFilePath == old(csvFilePath) && csvColumn == old(csvColumn) && xlsxColumn == old(xlsxColumn)
      ensures uniqueHostnames == old(uniqueHostnames)
    {
      if chosen != "" {
        xlsxFilePath := chosen;
      }
    }

    /** `on_csv_drop`: the first dropped path, unwrapped, is taken when it
        exists and ends in ".csv" in any case; otherwise it is refused and
        the path stays as it was. */
    method DropCsv(files: seq<string>, pathExists: string -> bool) returns (outcome: DropOutcome)
      modifies this
      ensures outcome == DropOf(files, pathExists, IsCsvPath)
      ensures csvFilePath == (if outcome.Accepted? then outcome.path else old(csvFilePath))
      ensures xlsxFilePath == old(xlsxFilePath) && csvColumn == old(csvColumn) && xlsxColumn == old(xlsxColumn)
      ensures uniqueHostnames == old(uniqueHostnames)
    {
      outcome := DecideDrop(files, pathExists, IsCsvPath);
      if outcome.Accepted? {
        csvFilePath := outcome.path;
      }
    }

    /** `on_xlsx_drop`: the same, for a path ending in ".xlsx" or ".xls". */
    method DropXlsx(files: seq<string>, pathExists: string -> bool) returns (outcome: DropOutcome)
      modifies this
      ensures outcome == DropOf(files, pathExists, IsExcelPath)
      ensures xlsxFilePath == (if outcome.Accepted? then outcome.path else old(xlsxFilePath))
      ensures csvFilePath == old(csvFilePath) && csvColumn == old(csvColumn) && xlsxColumn == old(xlsxColumn)
      ensures uniqueHostnames == old(uniqueHostnames)
    {
      outcome := DecideDrop(files, pathExists, IsExcelPath);
      if outcome.Accepted? {
        xlsxFilePath := outcome.path;
      }
    }

    /** `get_column_index`, step by step: the integer if `int` accepts the
        entry, else the letter arithmetic. */
    method GetColumnIndex(s: string) returns (index: int)
      ensures index == ColumnIndex(s)
    {
      match ParseInt(s)
      case Some(i) =>
        index := i;
      case None =>
        index := LetterColumnIndex(s);
    }

    /** `compare_files`: refused while a path is unset, the window left as
        it was on any failure, and on success the list kept for export is
        the new result. */
    method CompareFiles(csvData: Option<Table>, xlsxData: Option<Table>) returns (r: Result<GuiReport, GuiError>)
      modifies this
      ensures r == GuiCompare(old(csvFilePath), old(xlsxFilePath), old(csvColumn), old(xlsxColumn), csvData, xlsxData)
      ensures uniqueHostnames == (if r.Ok? then r.value.unique else old(uniqueHostnames))
      ensures csvFilePath == old(csvFilePath) && xlsxFilePath == old(xlsxFilePath)
      ensures csvColumn == old(csvColumn) && xlsxColumn == old(xlsxColumn)
    {
      ghost var expected := GuiCompare(csvFilePath, xlsxFilePath, csvColumn, xlsxColumn, csvData, xlsxData);
      if csvFilePath == "" || xlsxFilePath == "" {
        return Err(FilesNotSelected);
      }
      var csvCol := GetColumnIndex(csvColumn);
      var xlsxCol := GetColumnIndex(xlsxColumn);
      if csvData.None? {
        return Err(ReadFailed);
      }
      var csvCells := Iloc(csvData.value, csvCol);
      if csvCells.None? {
        return Err(ColumnOutOfRange);
      }
      if xlsxData.None? {
        return Err(ReadFailed);
      }
      var xlsxCells := Iloc(xlsxData.value, xlsxCol);
      if xlsxCells.None? {
        return Err(ColumnOutOfRange);
      }
      var unique := GuiDiff(csvCells.value, xlsxCells.value);
      r := Ok(GuiReport(|SourceHostnames(csvCells.value)|, |ReferenceHostnames(xlsxCells.value)|, unique));
      assert r == expected;
      uniqueHostnames := unique;
    }

    /** `export_results`: refused while there is nothing to export, nothing
        written when the save dialog is cancelled (""), else one
        "Unique_Hostnames" column holding the kept list. */
    method ExportResults(savePath: string) returns (outcome: ExportOutcome)
      ensures uniqueHostnames == [] ==> outcome == NothingToExport
      ensures uniqueHostnames != [] && savePath == "" ==> outcome == ExportCancelled
      ensures uniqueHostnames != [] && savePath != "" ==>
        outcome == Exported(savePath, [Column(ExportColumnName, uniqueHostnames)])
    {
      if uniqueHostnames == [] {
        return NothingToExport;
      }
      if savePath == "" {
        return ExportCancelled;
      }
      outcome := Exported(savePath, [Column(ExportColumnName, uniqueHostnames)]);
    }
  }
}

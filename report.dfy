/**
 * The data written by the `/download` request of Script_Cortex/app.py:
 * the two date strings and the report file name derived from today's date,
 * the one-row summary sheet, the "Unique Hostnames" history sheet that
 * accumulates every export (prior rows first, then today's), and the plain
 * CSV alternative that refuses an empty list.
 *
 * Today's date and the prior content of the history file are parameters;
 * the history that would be saved back is part of the result.
 */
module Report {
  import opened Wrappers
  import opened Text
  import opened Seqs
  import opened Tables
  import opened Diff

  // ---------------------------------------------------------------------
  // Calendar dates and their three renderings
  // ---------------------------------------------------------------------

  datatype Date = Date(year: nat, month: nat, day: nat)

  predicate IsLeapYear(y: nat)
  {
    y % 4 == 0 && (y % 100 != 0 || y % 400 == 0)
  }

  function DaysInMonth(y: nat, m: nat): nat
    requires 1 <= m <= 12
  {
    if m == 2 then (if IsLeapYear(y) then 29 else 28)
    else if m == 4 || m == 6 || m == 9 || m == 11 then 30
    else 31
  }

  /** The dates Python's `datetime` can hold: years 1 to 9999 of the
      proleptic Gregorian calendar. */
  predicate ValidDate(d: Date)
  {
    1 <= d.year <= 9999 && 1 <= d.month <= 12 && 1 <= d.day <= DaysInMonth(d.year, d.month)
  }

  /** `strftime('%b')` in an English locale. */
  const MonthAbbreviations: seq<string> :=
    ["Jan", "Feb", "Mar", "Apr", "May", "Jun", "Jul", "Aug", "Sep", "Oct", "Nov", "Dec"]

  /** Two decimal digits, zero-padded (`%m`, `%d`, `%y`). */
  function Pad2(n: nat): (r: string)
    requires n < 100
    ensures |r| == 2 && IsDigit(r[0]) && IsDigit(r[1])
  {
    [DigitChar(n / 10), DigitChar(n % 10)]
  }

  /** Four decimal digits, zero-padded (`%Y`). */
  function Pad4(n: nat): (r: string)
    requires n < 10000
    ensures |r| == 4 && forall k :: 0 <= k < 4 ==> IsDigit(r[k])
  {
    Pad2(n / 100) + Pad2(n % 100)
  }

  /** The summary sheet's date, `f'{day}-{month_abbr}-{year_2digit}'`, such as
      "1-Jan-26": the day without padding, the English month abbreviation
      and the last two digits of the year. */
  function ShortDate(d: Date): (r: string)
    requires ValidDate(d)
    ensures |r| >= 8 && r[|r| - 7] == '-' && r[|r| - 3] == '-'
    ensures AllDigits(r[..|r| - 7]) && r[0] != '0'
    ensures r[|r| - 6..|r| - 3] in MonthAbbreviations
    ensures AllDigits(r[|r| - 2..])
  {
    var ds, mon, yy := NatToString(d.day), MonthAbbreviations[d.month - 1], Pad2(d.year % 100);
    var r := ds + "-" + mon + "-" + yy;
    assert |mon| == 3;
    assert r[..|r| - 7] == ds && r[|r| - 6..|r| - 3] == mon && r[|r| - 2..] == yy;
    assert d.day < 10 ==> ds == [DigitChar(d.day)];
    r
  }

  /** `strftime('%Y-%m-%d')`, the extended calendar date of ISO 8601: four
      digits, '-', two digits, '-', two digits. */
  function IsoDate(d: Date): (r: string)
    requires ValidDate(d)
    ensures |r| == 10 && r[4] == '-' && r[7] == '-'
    ensures AllDigits(r[..4]) && AllDigits(r[5..7]) && AllDigits(r[8..])
  {
    Pad4(d.year) + "-" + Pad2(d.month) + "-" + Pad2(d.day)
  }

  /** `strftime('%Y%m%d')`, the basic calendar date of ISO 8601. */
  function BasicDate(d: Date): string
    requires ValidDate(d)
  {
    Pad4(d.year) + Pad2(d.month) + Pad2(d.day)
  }

  predicate AllDigits(s: string)
  {
    forall k :: 0 <= k < |s| ==> IsDigit(s[k])
  }

  /** Reads back an extended ISO date: four, two and two digits separated by
      '-', naming a valid date. */
  function ParseIsoDate(s: string): Option<Date>
  {
    if |s| == 10 && s[4] == '-' && s[7] == '-' && AllDigits(s[..4]) && AllDigits(s[5..7]) && AllDigits(s[8..]) then
      var d := Date(DigitsValue(s[..4]), DigitsValue(s[5..7]), DigitsValue(s[8..]));
      if ValidDate(d) then Some(d) else None
    else None
  }

  /** Reads back a short date into its day, month and two-digit year: a day
      of one or two digits, '-', a month abbreviation, '-', two digits. */
  function ParseShortDate(s: string): Option<(nat, nat, nat)>
  {
    if |s| < 8 then None
    else
      var n := |s| - 7;
      var month := MonthNumber(s[n + 1..n + 4]);
      if s[n] == '-' && s[n + 4] == '-' && AllDigits(s[..n]) && AllDigits(s[n + 5..]) && month != 0 then
        Some((DigitsValue(s[..n]), month, DigitsValue(s[n + 5..])))
      else None
  }

  /** The month an abbreviation names, 1 to 12, or 0 for any other text. */
  function MonthNumber(mon: string): (m: nat)
    ensures m <= 12
  {
    if mon == "Jan" then 1 else if mon == "Feb" then 2 else if mon == "Mar" then 3
    else if mon == "Apr" then 4 else if mon == "May" then 5 else if mon == "Jun" then 6
    else if mon == "Jul" then 7 else if mon == "Aug" then 8 else if mon == "Sep" then 9
    else if mon == "Oct" then 10 else if mon == "Nov" then 11 else if mon == "Dec" then 12
    else 0
  }

  /** The value of a two-digit string. */
  lemma DigitsValueOfTwo(s: string)
    requires |s| == 2 && AllDigits(s)
    ensures DigitsValue(s) == DigitValue(s[0]) * 10 + DigitValue(s[1])
  {
    assert s == [] + [s[0]] + [s[1]];
    DigitsValueSnoc([], s[0]);
    DigitsValueSnoc([s[0]], s[1]);
  }

  lemma Pad2Value(n: nat)
    requires n < 100
    ensures DigitsValue(Pad2(n)) == n
  {
    DigitsValueOfTwo(Pad2(n));
  }

  lemma Pad2OfDigits(s: string)
    requires |s| == 2 && AllDigits(s)
    ensures DigitsValue(s) < 100 && Pad2(DigitsValue(s)) == s
  {
    DigitsValueOfTwo(s);
    var v := DigitsValue(s);
    assert v / 10 == DigitValue(s[0]) && v % 10 == DigitValue(s[1]);
    assert Pad2(v)[0] == s[0] && Pad2(v)[1] == s[1];
  }

  /** The value of a digit string followed by two more digits. */
  lemma DigitsValueAppend2(a: string, b: string)
    requires |b| == 2 && AllDigits(b)
    ensures DigitsValue(a + b) == DigitsValue(a) * 100 + DigitsValue(b)
  {
    assert a + b == (a + [b[0]]) + [b[1]];
    DigitsValueSnoc(a + [b[0]], b[1]);
    DigitsValueSnoc(a, b[0]);
    DigitsValueOfTwo(b);
  }

  lemma Pad4Value(n: nat)
    requires n < 10000
    ensures DigitsValue(Pad4(n)) == n
  {
    DigitsValueAppend2(Pad2(n / 100), Pad2(n % 100));
    Pad2Value(n / 100);
    Pad2Value(n % 100);
  }

  lemma Pad4OfDigits(s: string)
    requires |s| == 4 && AllDigits(s)
    ensures DigitsValue(s) < 10000 && Pad4(DigitsValue(s)) == s
  {
    var hi, lo := s[..2], s[2..];
    assert s == hi + lo;
    DigitsValueAppend2(hi, lo);
    Pad2OfDigits(hi);
    Pad2OfDigits(lo);
    DivModHundred(DigitsValue(hi), DigitsValue(lo));
  }

  /** Splitting a four-digit value into its two halves. */
  lemma DivModHundred(a: nat, b: nat)
    requires a < 100 && b < 100
    ensures (a * 100 + b) / 100 == a && (a * 100 + b) % 100 == b && a * 100 + b < 10000
  {
  }

  /** The ISO date names the date it was made from. */
  lemma {:induction false} ParseIsoDateOfIsoDate(d: Date)
    requires ValidDate(d)
    ensures ParseIsoDate(IsoDate(d)) == Some(d)
  {
    var s := IsoDate(d);
    assert s[..4] == Pad4(d.year) && s[5..7] == Pad2(d.month) && s[8..] == Pad2(d.day);
    Pad4Value(d.year);
    Pad2Value(d.month);
    Pad2Value(d.day);
  }

  /** Every string that reads as a date is that date's ISO rendering, so the
      rendering is a bijection between valid dates and well-formed strings. */
  lemma {:induction false} IsoDateOfParseIsoDate(s: string)
    requires ParseIsoDate(s).Some?
    ensures ValidDate(ParseIsoDate(s).value) && IsoDate(ParseIsoDate(s).value) == s
  {
    Pad4OfDigits(s[..4]);
    Pad2OfDigits(s[5..7]);
    Pad2OfDigits(s[8..]);
    assert s == s[..4] + "-" + s[5..7] + "-" + s[8..];
  }

  predicate NotDash(c: char)
  {
    c != '-'
  }

  /** Removing dashes from two parts joined by a dash joins the two parts
      with their dashes removed. */
  lemma FilterDashJoin(a: string, b: string)
    ensures Filter(a + "-" + b, NotDash) == Filter(a, NotDash) + Filter(b, NotDash)
  {
    FilterConcat(a + "-", b, NotDash);
    FilterConcat(a, "-", NotDash);
    assert "-"[1..] == [];
    assert Filter("-", NotDash) == [];
  }

  /** The basic form is the extended form with its two dashes removed. */
  lemma BasicDateDropsDashes(d: Date)
    requires ValidDate(d)
    ensures BasicDate(d) == Filter(IsoDate(d), NotDash)
  {
    var y, m, dd := Pad4(d.year), Pad2(d.month), Pad2(d.day);
    FilterDashJoin(y + "-" + m, dd);
    FilterDashJoin(y, m);
    FilterAllPass(y, NotDash);
    FilterAllPass(m, NotDash);
    FilterAllPass(dd, NotDash);
  }

  /** Each month's abbreviation reads back as that month. */
  lemma MonthNumberOfAbbreviation(m: nat)
    requires 1 <= m <= 12
    ensures MonthNumber(MonthAbbreviations[m - 1]) == m
    ensures |MonthAbbreviations[m - 1]| == 3
  {
    var a := MonthAbbreviations;
    if m == 1 { assert a[0] == "Jan"; }
    else if m == 2 { assert a[1] == "Feb"; }
    else if m == 3 { assert a[2] == "Mar"; }
    else if m == 4 { assert a[3] == "Apr"; }
    else if m == 5 { assert a[4] == "May"; }
    else if m == 6 { assert a[5] == "Jun"; }
    else if m == 7 { assert a[6] == "Jul"; }
    else if m == 8 { assert a[7] == "Aug"; }
    else if m == 9 { assert a[8] == "Sep"; }
    else if m == 10 { assert a[9] == "Oct"; }
    else if m == 11 { assert a[10] == "Nov"; }
    else { assert a[11] == "Dec"; }
  }

  /** Where the parts of `a-b-c` sit when `b` has three characters. */
  lemma DashedParts(a: string, b: string, c: string)
    requires |b| == 3
    ensures var s := a + "-" + b + "-" + c;
      && |s| == |a| + 7 + |c| - 2
      && s[..|a|] == a && s[|a|] == '-' && s[|a| + 1..|a| + 4] == b
      && s[|a| + 4] == '-' && s[|a| + 5..] == c
  {
  }

  /** The short date gives back the day, the month and the two-digit year;
      the century is lost. */
  lemma ParseShortDateOfShortDate(d: Date)
    requires ValidDate(d)
    ensures ParseShortDate(ShortDate(d)) == Some((d.day, d.month, d.year % 100))
  {
    var ds, mon, yy := NatToString(d.day), MonthAbbreviations[d.month - 1], Pad2(d.year % 100);
    MonthNumberOfAbbreviation(d.month);
    ParseShortDateOfParts(ds, mon, yy);
    assert ShortDate(d) == ds + "-" + mon + "-" + yy;
    DigitsValueOfNatToString(d.day);
    Pad2Value(d.year % 100);
  }

  /** A short date read from its three parts. */
  lemma ParseShortDateOfParts(ds: string, mon: string, yy: string)
    requires ds != [] && AllDigits(ds) && |mon| == 3 && MonthNumber(mon) != 0 && |yy| == 2 && AllDigits(yy)
    ensures ParseShortDate(ds + "-" + mon + "-" + yy)
              == Some((DigitsValue(ds), MonthNumber(mon), DigitsValue(yy)))
  {
    var s := ds + "-" + mon + "-" + yy;
    DashedParts(ds, mon, yy);
    var n := |s| - 7;
    assert n == |ds|;
    assert s[..n] == ds && s[n + 5..] == yy && s[n + 1..n + 4] == mon;
  }

  /** `f'Cortex_Coverage_Report_{today.strftime("%Y%m%d")}.xlsx'`. */
  function ReportFileName(d: Date): string
    requires ValidDate(d)
  {
    "Cortex_Coverage_Report_" + BasicDate(d) + ".xlsx"
  }

  /** The report's own name passes the upload allow-list, as an xlsx file. */
  lemma ReportFileNameIsAllowed(d: Date)
    requires ValidDate(d)
    ensures Extension(ReportFileName(d)) == Some("xlsx")
    ensures AllowedFile(ReportFileName(d))
  {
    var stem := "Cortex_Coverage_Report_" + BasicDate(d);
    assert ReportFileName(d) == stem + "." + "xlsx";
    ExtensionOfDotted(stem, "xlsx");
    LowerOfNoUpper("xlsx");
  }

  // ---------------------------------------------------------------------
  // Worksheets
  // ---------------------------------------------------------------------

  /** A cell value: text, or a number from the request's statistics. */
  datatype Cell = Text(text: string) | Number(number: int)

  /** A worksheet's content: the value at each (row, column), both counted
      from 1 as in openpyxl. */
  type Grid = map<(nat, nat), Cell>

  /** The grid after writing `values` into `row`, from column 1 on. */
  function PutRow(g: Grid, row: nat, values: seq<Cell>): Grid
    decreases |values|
  {
    if values == [] then g
    else PutRow(g, row, values[..|values| - 1])[(row, |values|) := values[|values| - 1]]
  }

  /** Writing a row sets its first `|values|` cells and nothing else. */
  lemma {:induction false} PutRowCells(g: Grid, row: nat, values: seq<Cell>)
    ensures forall key: (nat, nat) :: key in PutRow(g, row, values) <==> key in g || (key.0 == row && 1 <= key.1 <= |values|)
    ensures forall k :: 0 <= k < |values| ==> PutRow(g, row, values)[(row, k + 1)] == values[k]
    ensures forall key: (nat, nat) :: key in g && (key.0 != row || key.1 < 1 || key.1 > |values|) ==>
              PutRow(g, row, values)[key] == g[key]
    decreases |values|
  {
    if values != [] {
      var init := values[..|values| - 1];
      PutRowCells(g, row, init);
      assert forall k :: 0 <= k < |init| ==> init[k] == values[k];
    }
  }

  /** An openpyxl worksheet, reduced to its title and its cell values. */
  class Worksheet {
    var title: string
    var cells: Grid

    constructor(title: string)
      ensures this.title == title && cells == map[]
    {
      this.title := title;
      cells := map[];
    }

    /** `ws.cell(row=row, column=column, value=value)`. */
    method SetCell(row: nat, column: nat, value: Cell)
      modifies this
      ensures title == old(title) && cells == old(cells)[(row, column) := value]
    {
      cells := cells[(row, column) := value];
    }

    /** `for col_idx, value in enumerate(values, start=1): ws.cell(row=row,
        column=col_idx, value=value)`. */
    method WriteRow(row: nat, values: seq<Cell>)
      modifies this
      ensures title == old(title) && cells == PutRow(old(cells), row, values)
    {
      for k := 0 to |values|
        invariant title == old(title) && cells == PutRow(old(cells), row, values[..k])
      {
        assert values[..k + 1][..k] == values[..k];
        SetCell(row, k + 1, values[k]);
      }
      assert values[..|values|] == values;
    }
  }

  /** How a cell reads back as text; an empty cell reads as "". */
  function CellText(c: Cell): string
  {
    match c
    case Text(s) => s
    case Number(n) => IntToString(n)
  }

  function CellValue(g: Grid, row: nat, column: nat): string
  {
    if (row, column) in g then CellText(g[(row, column)]) else ""
  }

  /** `iter_rows(min_row=2, values_only=True)` over a sheet whose last row is
      `lastRow` and whose width is `width`. */
  function SheetRows(g: Grid, lastRow: nat, width: nat): (r: seq<seq<string>>)
    ensures |r| == if lastRow < 2 then 0 else lastRow - 1
    ensures forall i :: 0 <= i < |r| ==> |r[i]| == width
  {
    if lastRow < 2 then []
    else seq(lastRow - 1, i requires 0 <= i < lastRow - 1 =>
           seq(width, j requires 0 <= j < width => CellValue(g, i + 2, j + 1)))
  }

  // ---------------------------------------------------------------------
  // The summary sheet
  // ---------------------------------------------------------------------

  /** The six header cells, the fifth cut short as in the template. */
  const SummaryHeaders: seq<Cell> := [
    Text("Date"),
    Text("Total Endpoints identified by script"),
    Text("Total Endpoints registered with Cortex"),
    Text("Endpoints without Cortex Agent (Script)"),
    Text("Total endpoints identified by Corte"),
    Text("Endpoints without Cortex Agent (Cortex)")
  ]

  /** The statistics the request carries; an absent one is 0. */
  datatype Statistics = Statistics(sourceTotal: int, referenceTotal: int, uniqueCount: int,
                                   uniqueInReferenceCount: int)

  /** The data row: today's short date, then the four statistics with the
      reference total written twice. */
  function SummaryRow(today: Date, stats: Statistics): seq<Cell>
    requires ValidDate(today)
  {
    [Text(ShortDate(today)), Number(stats.sourceTotal), Number(stats.referenceTotal),
     Number(stats.uniqueCount), Number(stats.referenceTotal), Number(stats.uniqueInReferenceCount)]
  }

  function SummaryGrid(today: Date, stats: Statistics): Grid
    requires ValidDate(today)
  {
    PutRow(PutRow(map[], 1, SummaryHeaders), 2, SummaryRow(today, stats))
  }

  /** The summary sheet holds exactly two rows of six cells: the headers,
      then the date and the statistics, its fifth value equal to its third. */
  lemma SummaryGridCells(today: Date, stats: Statistics)
    requires ValidDate(today)
    ensures var g := SummaryGrid(today, stats);
      && (forall key: (nat, nat) :: key in g <==> 1 <= key.0 <= 2 && 1 <= key.1 <= 6)
      && (forall k :: 0 <= k < 6 ==> g[(1, k + 1)] == SummaryHeaders[k])
      && g[(2, 1)] == Text(ShortDate(today))
      && g[(2, 2)] == Number(stats.sourceTotal)
      && g[(2, 3)] == Number(stats.referenceTotal)
      && g[(2, 4)] == Number(stats.uniqueCount)
      && g[(2, 5)] == g[(2, 3)]
      && g[(2, 6)] == Number(stats.uniqueInReferenceCount)
  {
    var g1 := PutRow(map[], 1, SummaryHeaders);
    var row := SummaryRow(today, stats);
    PutRowCells(map[], 1, SummaryHeaders);
    PutRowCells(g1, 2, row);
    var g := PutRow(g1, 2, row);
    assert g[(2, 1)] == row[0] && g[(2, 2)] == row[1] && g[(2, 3)] == row[2];
    assert g[(2, 4)] == row[3] && g[(2, 5)] == row[4] && g[(2, 6)] == row[5];
  }

  // ---------------------------------------------------------------------
  // The history sheet
  // ---------------------------------------------------------------------

  /** The `(date, hostname)` entries read from the prior history sheet: rows
      whose first two cells are both non-empty, in order.  A row with fewer
      than two cells raises IndexError, which ends the reading and keeps what
      was collected. */
  function PriorHistory(rows: seq<seq<string>>): (r: seq<(string, string)>)
    ensures |r| <= |rows|
    ensures forall k :: 0 <= k < |r| ==> r[k].0 != "" && r[k].1 != ""
  {
    if rows == [] || |rows[0]| < 2 then []
    else
      var rest := PriorHistory(rows[1..]);
      (if rows[0][0] != "" && rows[0][1] != "" then [(rows[0][0], rows[0][1])] else []) + rest
  }

  /** `existing_data`: empty when there is no history file, it cannot be read
      or it has no "Unique Hostnames" sheet (all three are None here). */
  function ExistingHistory(prior: Option<seq<seq<string>>>): seq<(string, string)>
  {
    match prior
    case None => []
    case Some(rows) => PriorHistory(rows)
  }

  /** The reading loop over the prior sheet's rows. */
  method ReadExistingHistory(prior: Option<seq<seq<string>>>) returns (existing: seq<(string, string)>)
    ensures existing == ExistingHistory(prior)
  {
    existing := [];
    if prior.None? {
      return;
    }
    var rows := prior.value;
    var i := 0;
    assert rows[0..] == rows;
    while i < |rows|
      invariant 0 <= i <= |rows|
      invariant PriorHistory(rows) == existing + PriorHistory(rows[i..])
    {
      var row := rows[i];
      PriorHistoryStep(rows, i);
      if |row| < 2 {
        assert existing + [] == existing;
        return;
      }
      var rest := PriorHistory(rows[i + 1..]);
      if row[0] != "" && row[1] != "" {
        assert existing + ([(row[0], row[1])] + rest) == (existing + [(row[0], row[1])]) + rest;
        existing := existing + [(row[0], row[1])];
      } else {
        assert [] + rest == rest;
      }
      i := i + 1;
    }
    assert rows[|rows|..] == [];
    assert existing + [] == existing;
  }

  /** One step of the reading loop: row `i` either ends the reading or
      contributes at most one pair before the remaining rows. */
  lemma PriorHistoryStep(rows: seq<seq<string>>, i: nat)
    requires i < |rows|
    ensures |rows[i]| < 2 ==> PriorHistory(rows[i..]) == []
    ensures |rows[i]| >= 2 ==>
              PriorHistory(rows[i..])
                == (if rows[i][0] != "" && rows[i][1] != "" then [(rows[i][0], rows[i][1])] else [])
                   + PriorHistory(rows[i + 1..])
  {
    assert rows[i..][0] == rows[i] && rows[i..][1..] == rows[i + 1..];
  }

  predicate BothFilled(row: seq<string>)
  {
    |row| >= 2 && row[0] != "" && row[1] != ""
  }

  /** When every row has two cells or more, the prior history is exactly the
      rows with both filled, as pairs, in order. */
  lemma {:induction false} PriorHistoryOfWideRows(rows: seq<seq<string>>)
    requires forall k :: 0 <= k < |rows| ==> |rows[k]| >= 2
    ensures PriorHistory(rows) == MapSeq(Filter(rows, BothFilled), FirstTwo)
    decreases |rows|
  {
    if rows != [] {
      assert forall k :: 0 <= k < |rows[1..]| ==> rows[1..][k] == rows[k + 1];
      PriorHistoryOfWideRows(rows[1..]);
      var head := if BothFilled(rows[0]) then [rows[0]] else [];
      var tail := Filter(rows[1..], BothFilled);
      assert Filter(rows, BothFilled) == head + tail;
      MapSeqConcat(head, tail, FirstTwo);
      assert BothFilled(rows[0]) ==> MapSeq(head, FirstTwo) == [FirstTwo(rows[0])] by {
        if BothFilled(rows[0]) {
          MapSeqSingleton(rows[0], FirstTwo);
        }
      }
    }
  }

  /** The first two cells of a row, "" where there is none. */
  function FirstTwo(row: seq<string>): (string, string)
  {
    (if |row| > 0 then row[0] else "", if |row| > 1 then row[1] else "")
  }

  /** Today's hostnames, each paired with today's ISO date. */
  function Stamp(hostnames: seq<string>, today: string): (r: seq<(string, string)>)
    ensures |r| == |hostnames|
    ensures forall k :: 0 <= k < |r| ==> r[k] == (today, hostnames[k])
  {
    MapSeq(hostnames, h => (today, h))
  }

  const HistoryHeaders: seq<Cell> := [Text("Date"), Text("Hostname")]

  /** The history sheet holding `entries` below its header row. */
  function HistoryGrid(entries: seq<(string, string)>): Grid
    decreases |entries|
  {
    if entries == [] then PutRow(map[], 1, HistoryHeaders)
    else
      var last := entries[|entries| - 1];
      HistoryGrid(entries[..|entries| - 1])[(|entries| + 1, 1) := Text(last.0)][(|entries| + 1, 2) := Text(last.1)]
  }

  /** The history sheet has the header in row 1 and entry `i` in row `i + 2`,
      two columns wide, and nothing else: `1 + |entries|` rows. */
  lemma {:induction false} HistoryGridCells(entries: seq<(string, string)>)
    ensures var g := HistoryGrid(entries);
      && (forall key: (nat, nat) :: key in g <==> 1 <= key.0 <= |entries| + 1 && 1 <= key.1 <= 2)
      && g[(1, 1)] == Text("Date") && g[(1, 2)] == Text("Hostname")
      && (forall i :: 0 <= i < |entries| ==>
            g[(i + 2, 1)] == Text(entries[i].0) && g[(i + 2, 2)] == Text(entries[i].1))
    decreases |entries|
  {
    if entries == [] {
      PutRowCells(map[], 1, HistoryHeaders);
    } else {
      HistoryGridCells(entries[..|entries| - 1]);
    }
  }

  /** Builds the "Unique Hostnames" sheet: the header, then the prior
      entries, then one row per hostname stamped with today's date, the row
      number advancing from 2. */
  method WriteHistorySheet(existing: seq<(string, string)>, hostnames: seq<string>, today: string)
    returns (ws: Worksheet)
    ensures fresh(ws) && ws.title == "Unique Hostnames"
    ensures ws.cells == HistoryGrid(existing + Stamp(hostnames, today))
  {
    ws := new Worksheet("Unique Hostnames");
    ws.WriteRow(1, HistoryHeaders);
    var rowNum := 2;
    for i := 0 to |existing|
      invariant rowNum == i + 2
      invariant ws.title == "Unique Hostnames" && ws.cells == HistoryGrid(existing[..i])
    {
      assert existing[..i + 1] == existing[..i] + [existing[i]];
      HistoryGridSnoc(existing[..i], existing[i]);
      ws.SetCell(rowNum, 1, Text(existing[i].0));
      ws.SetCell(rowNum, 2, Text(existing[i].1));
      rowNum := rowNum + 1;
    }
    assert existing + Stamp(hostnames[..0], today) == existing[..|existing|];
    for i := 0 to |hostnames|
      invariant rowNum == |existing| + i + 2
      invariant ws.title == "Unique Hostnames"
      invariant ws.cells == HistoryGrid(existing + Stamp(hostnames[..i], today))
    {
      StampSnoc(existing, hostnames, i, today);
      HistoryGridSnoc(existing + Stamp(hostnames[..i], today), (today, hostnames[i]));
      ws.SetCell(rowNum, 1, Text(today));
      ws.SetCell(rowNum, 2, Text(hostnames[i]));
      rowNum := rowNum + 1;
    }
    assert hostnames[..|hostnames|] == hostnames;
  }

  /** One more entry fills the next row below the others. */
  lemma HistoryGridSnoc(entries: seq<(string, string)>, e: (string, string))
    ensures HistoryGrid(entries + [e])
              == HistoryGrid(entries)[(|entries| + 2, 1) := Text(e.0)][(|entries| + 2, 2) := Text(e.1)]
  {
    assert (entries + [e])[..|entries|] == entries;
  }

  /** Stamping one more hostname appends one more entry. */
  lemma StampSnoc(existing: seq<(string, string)>, hostnames: seq<string>, i: nat, today: string)
    requires i < |hostnames|
    ensures existing + Stamp(hostnames[..i + 1], today)
              == (existing + Stamp(hostnames[..i], today)) + [(today, hostnames[i])]
  {
  }

  /** Rows whose every entry is filled read back as themselves. */
  lemma {:induction false} PriorHistoryOfFilledRows(rows: seq<seq<string>>)
    requires forall k :: 0 <= k < |rows| ==> |rows[k]| >= 2 && rows[k][0] != "" && rows[k][1] != ""
    ensures |PriorHistory(rows)| == |rows| &&
            forall k :: 0 <= k < |rows| ==> PriorHistory(rows)[k] == (rows[k][0], rows[k][1])
    decreases |rows|
  {
    if rows != [] {
      PriorHistoryOfFilledRows(rows[1..]);
    }
  }

  /** Reading the history sheet's data rows back gives each entry as a
      two-cell row. */
  lemma {:induction false} HistorySheetRows(entries: seq<(string, string)>)
    ensures var rows := SheetRows(HistoryGrid(entries), |entries| + 1, 2);
      |rows| == |entries| && forall k :: 0 <= k < |rows| ==> rows[k] == [entries[k].0, entries[k].1]
  {
    HistoryGridCells(entries);
  }

  /** The history sheet read back by the next export gives back its entries,
      provided none of them has an empty date or hostname. */
  lemma {:induction false} HistoryRoundTrip(entries: seq<(string, string)>)
    requires forall k :: 0 <= k < |entries| ==> entries[k].0 != "" && entries[k].1 != ""
    ensures PriorHistory(SheetRows(HistoryGrid(entries), |entries| + 1, 2)) == entries
  {
    var rows := SheetRows(HistoryGrid(entries), |entries| + 1, 2);
    HistorySheetRows(entries);
    assert forall k :: 0 <= k < |rows| ==> |rows[k]| >= 2 && rows[k][0] != "" && rows[k][1] != "";
    PriorHistoryOfFilledRows(rows);
  }

  // ---------------------------------------------------------------------
  // The whole download
  // ---------------------------------------------------------------------

  /** The JSON body of a download request; an absent field is None. */
  datatype DownloadRequest = DownloadRequest(
    hostnames: Option<seq<string>>,
    format: Option<string>,
    sourceTotal: Option<int>,
    referenceTotal: Option<int>,
    uniqueCount: Option<int>,
    uniqueInReferenceCount: Option<int>)

  datatype Export =
    | Workbook(summary: Grid, history: Grid, saved: Grid, filename: string)
    | CsvFile(table: Table, filename: string)

  datatype DownloadError = NoHostnames

  const CsvColumnName := "Unique_Hostnames"
  const CsvFileName := "unique_hostnames.csv"

  function RequestStatistics(req: DownloadRequest): Statistics
  {
    Statistics(req.sourceTotal.UnwrapOr(0), req.referenceTotal.UnwrapOr(0), req.uniqueCount.UnwrapOr(0),
               req.uniqueInReferenceCount.UnwrapOr(0))
  }

  /** `download_results`.  For "xlsx" in any case: the summary sheet, the
      history sheet, the same history saved back as the new history file,
      and the dated report name; otherwise a one-column CSV, refused when
      there is nothing to export. */
  function Download(req: DownloadRequest, today: Date, prior: Option<seq<seq<string>>>): (r: Result<Export, DownloadError>)
    requires ValidDate(today)
    ensures r.Err? <==> Lower(req.format.UnwrapOr("csv")) != "xlsx" && req.hostnames.UnwrapOr([]) == []
    ensures r.Ok? ==> (r.value.Workbook? <==> Lower(req.format.UnwrapOr("csv")) == "xlsx")
    ensures r.Ok? && r.value.CsvFile? ==>
      |r.value.table| == 1 && r.value.table[0].cells == req.hostnames.UnwrapOr([])
  {
    var hostnames := req.hostnames.UnwrapOr([]);
    if Lower(req.format.UnwrapOr("csv")) == "xlsx" then
      var history := HistoryGrid(ExistingHistory(prior) + Stamp(hostnames, IsoDate(today)));
      Ok(Workbook(SummaryGrid(today, RequestStatistics(req)), history, history, ReportFileName(today)))
    else if hostnames == [] then Err(NoHostnames)
    else Ok(CsvFile([Column(CsvColumnName, hostnames)], CsvFileName))
  }

  /** `download_results` step by step, on worksheet objects. */
  method DownloadResults(req: DownloadRequest, today: Date, prior: Option<seq<seq<string>>>)
    returns (r: Result<Export, DownloadError>)
    requires ValidDate(today)
    ensures r == Download(req, today, prior)
  {
    var hostnames := req.hostnames.UnwrapOr([]);
    if Lower(req.format.UnwrapOr("csv")) == "xlsx" {
      var summary := new Worksheet("Cortex Coverage Report");
      summary.WriteRow(1, SummaryHeaders);
      summary.WriteRow(2, SummaryRow(today, RequestStatistics(req)));
      var existing := ReadExistingHistory(prior);
      var history := WriteHistorySheet(existing, hostnames, IsoDate(today));
      var saved := WriteHistorySheet(existing, hostnames, IsoDate(today));
      return Ok(Workbook(summary.cells, history.cells, saved.cells, ReportFileName(today)));
    }
    if |hostnames| == 0 {
      return Err(NoHostnames);
    }
    return Ok(CsvFile([Column(CsvColumnName, hostnames)], CsvFileName));
  }

  /** The history sheet of an export: the header row, the prior entries
      from row 2, then one row per hostname stamped with the date. */
  lemma {:induction false} StampedHistoryCells(existing: seq<(string, string)>, hostnames: seq<string>, today: string)
    ensures var g := HistoryGrid(existing + Stamp(hostnames, today));
      && (forall key: (nat, nat) :: key in g <==> 1 <= key.0 <= 1 + |existing| + |hostnames| && 1 <= key.1 <= 2)
      && (forall i :: 0 <= i < |existing| ==>
            g[(i + 2, 1)] == Text(existing[i].0) && g[(i + 2, 2)] == Text(existing[i].1))
      && (forall i :: 0 <= i < |hostnames| ==>
            (g[(|existing| + i + 2, 1)], g[(|existing| + i + 2, 2)]) == (Text(today), Text(hostnames[i])))
  {
    var entries := existing + Stamp(hostnames, today);
    var g := HistoryGrid(entries);
    HistoryGridCells(entries);
    assert forall i :: 0 <= i < |existing| ==> entries[i] == existing[i];
    forall i | 0 <= i < |hostnames|
      ensures (g[(|existing| + i + 2, 1)], g[(|existing| + i + 2, 2)]) == (Text(today), Text(hostnames[i]))
    {
      assert entries[|existing| + i] == (today, hostnames[i]);
    }
  }

  /** The xlsx export is never refused: its history is the sheet of the
      valid prior entries followed by today's stamped hostnames (whose cells
      `StampedHistoryCells` lays out), the saved history file is that same
      sheet, the summary is the two-row sheet of the request's statistics,
      and the report's name is an allowed upload. */
  lemma DownloadWorkbook(req: DownloadRequest, today: Date, prior: Option<seq<seq<string>>>)
    requires ValidDate(today) && Lower(req.format.UnwrapOr("csv")) == "xlsx"
    ensures var r := Download(req, today, prior);
      && r.Ok? && r.value.Workbook?
      && r.value.saved == r.value.history
      && r.value.history == HistoryGrid(ExistingHistory(prior) + Stamp(req.hostnames.UnwrapOr([]), IsoDate(today)))
      && r.value.summary == SummaryGrid(today, RequestStatistics(req))
      && AllowedFile(r.value.filename)
  {
    ReportFileNameIsAllowed(today);
  }

  /** Exports accumulate: the history the next export reads from the saved
      file is this export's prior entries followed by today's hostnames,
      whenever none of today's hostnames is empty. */
  lemma HistoryAccumulates(req: DownloadRequest, today: Date, prior: Option<seq<seq<string>>>)
    requires ValidDate(today) && Lower(req.format.UnwrapOr("csv")) == "xlsx"
    requires forall k :: 0 <= k < |req.hostnames.UnwrapOr([])| ==> req.hostnames.UnwrapOr([])[k] != ""
    ensures var hostnames := req.hostnames.UnwrapOr([]);
      var entries := ExistingHistory(prior) + Stamp(hostnames, IsoDate(today));
      ExistingHistory(Some(SheetRows(Download(req, today, prior).value.saved, |entries| + 1, 2))) == entries
  {
    var hostnames := req.hostnames.UnwrapOr([]);
    var existing := ExistingHistory(prior);
    var entries := existing + Stamp(hostnames, IsoDate(today));
    assert IsoDate(today) != "";
    forall k | 0 <= k < |entries|
      ensures entries[k].0 != "" && entries[k].1 != ""
    {
      if k >= |existing| {
        assert entries[k] == (IsoDate(today), hostnames[k - |existing|]);
      }
    }
    HistoryRoundTrip(entries);
  }

  /** The one-column table of the CSV export: the column resolver finds the
      hostnames by the column's name, by "0" and by "A". */
  lemma CsvTableResolves(hostnames: seq<string>)
    ensures var t := [Column(CsvColumnName, hostnames)];
      && ResolveColumn(Names(t), CsvColumnName) == Ok(0)
      && ResolveColumn(Names(t), "0") == Ok(0)
      && ResolveColumn(Names(t), "A") == Ok(0)
      && t[0].cells == hostnames
  {
    var names := Names([Column(CsvColumnName, hostnames)]);
    assert names == [CsvColumnName];
    assert "0" != CsvColumnName && "A" != CsvColumnName;
    assert NatToString(0) == "0";
    ResolveColumnIndex(names, 0);
    assert ColumnLetters(0) == "A";
    ResolveColumnLetters(names, 0, false);
  }

  /** The CSV file's name passes the upload allow-list. */
  lemma CsvFileNameIsAllowed()
    ensures AllowedFile(CsvFileName)
  {
    assert CsvFileName == "unique_hostnames" + "." + "csv";
    AllowedFileOfDotted("unique_hostnames", "csv");
    LowerOfNoUpper("csv");
  }

  /** The CSV export is refused exactly when the list is empty; otherwise it
      is one "Unique_Hostnames" column holding the list, which the column
      resolver finds by name, by "0" or by "A", under an allowed name. */
  lemma DownloadCsv(req: DownloadRequest, today: Date, prior: Option<seq<seq<string>>>)
    requires ValidDate(today) && Lower(req.format.UnwrapOr("csv")) != "xlsx"
    ensures var r := Download(req, today, prior);
      var hostnames := req.hostnames.UnwrapOr([]);
      && (r.Err? <==> hostnames == [])
      && (r.Err? ==> r.error == NoHostnames)
      && (r.Ok? ==>
            && r.value.CsvFile?
            && |r.value.table| == 1 && r.value.table[0].cells == hostnames
            && ResolveColumn(Names(r.value.table), CsvColumnName) == Ok(0)
            && ResolveColumn(Names(r.value.table), "0") == Ok(0)
            && ResolveColumn(Names(r.value.table), "A") == Ok(0)
            && AllowedFile(r.value.filename))
  {
    CsvTableResolves(req.hostnames.UnwrapOr([]));
    CsvFileNameIsAllowed();
  }
}

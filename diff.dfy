/**
 * The comparison behind the `/compare` request of Script_Cortex/app.py:
 * which source hostnames have no endpoint in the reference file, with the
 * optional removal of printer-like names, the counts the report shows, and
 * the checks on the uploaded files that come before it.
 *
 * A cell's key is `str(cell).strip().lower()`.  Matching compares keys
 * only, so it ignores case and surrounding whitespace in both directions.
 */
module Diff {
  import opened Wrappers
  import opened Text
  import opened Seqs
  import opened Tables

  // ---------------------------------------------------------------------
  // Upload checks
  // ---------------------------------------------------------------------

  const AllowedExtensions: set<string> := {"csv", "xlsx", "xls"}

  /** `filename.rsplit('.', 1)[1]`: the text after the last '.', or None when
      there is no '.' (where Python would raise IndexError). */
  function Extension(f: string): (r: Option<string>)
    ensures r.None? <==> '.' !in f
    ensures r.Some? ==> '.' !in r.value && EndsWith(f, "." + r.value)
  {
    if f == [] then None
    else if f[|f| - 1] == '.' then Some([])
    else
      var init := f[..|f| - 1];
      assert f == init + [f[|f| - 1]];
      match Extension(init)
      case None => None
      case Some(e) =>
        assert f[|f| - |e| - 2..] == init[|init| - |e| - 1..] + [f[|f| - 1]];
        Some(e + [f[|f| - 1]])
  }

  /** `allowed_file`: there is a '.' and the lower-cased extension is csv,
      xlsx or xls; so an allowed name, lower-cased, ends in one of the three
      suffixes. */
  predicate AllowedFile(f: string)
    ensures AllowedFile(f) ==>
      EndsWith(Lower(f), ".csv") || EndsWith(Lower(f), ".xlsx") || EndsWith(Lower(f), ".xls")
  {
    match Extension(f)
    case Some(e) =>
      AllowedSuffixOfExtension(f, e);
      Lower(e) in AllowedExtensions
    case None => false
  }

  /** A name ending in `.e`, with `e` allowed in any case, ends, lower-cased,
      in `.csv`, `.xlsx` or `.xls`. */
  lemma AllowedSuffixOfExtension(f: string, e: string)
    requires EndsWith(f, "." + e)
    ensures Lower(e) in AllowedExtensions ==>
      EndsWith(Lower(f), ".csv") || EndsWith(Lower(f), ".xlsx") || EndsWith(Lower(f), ".xls")
  {
    LowerOfEndsWith(f, "." + e);
    LowerOfConcat(".", e);
    assert Lower(".") == ".";
    var lf, le := Lower(f), Lower(e);
    assert EndsWith(lf, "." + le);
    if le == "csv" {
      assert "." + le == ".csv";
    } else if le == "xlsx" {
      assert "." + le == ".xlsx";
    } else if le == "xls" {
      assert "." + le == ".xls";
    }
  }

  /** None of the allowed extensions holds a '.'. */
  lemma AllowedExtensionHasNoDot(ext: string)
    requires ext in AllowedExtensions
    ensures '.' !in ext
  {
    assert ext == "csv" || ext == "xlsx" || ext == "xls";
    forall k | 0 <= k < |ext|
      ensures ext[k] != '.'
    {
    }
  }

  /** The extension of `stem.ext` is `ext` whatever dots `stem` holds. */
  lemma {:induction false} ExtensionOfDotted(stem: string, ext: string)
    requires '.' !in ext
    ensures Extension(stem + "." + ext) == Some(ext)
    decreases |ext|
  {
    var f := stem + "." + ext;
    if ext == [] {
      assert f[|f| - 1] == '.';
    } else {
      var init, last := ext[..|ext| - 1], ext[|ext| - 1];
      assert ext == init + [last];
      ExtensionOfDotted(stem, init);
      var g := stem + "." + init;
      assert f == g + [last];
      assert f[..|f| - 1] == g && f[|f| - 1] == last != '.';
    }
  }

  /** A file name passes the allow-list exactly when the part after its last
      dot is csv, xlsx or xls in any case. */
  lemma AllowedFileOfDotted(stem: string, ext: string)
    requires '.' !in ext
    ensures AllowedFile(stem + "." + ext) <==> Lower(ext) in AllowedExtensions
  {
    ExtensionOfDotted(stem, ext);
  }

  /** A name without a dot is always refused. */
  lemma AllowedFileNeedsDot(f: string)
    requires '.' !in f
    ensures !AllowedFile(f)
  {
  }

  // ---------------------------------------------------------------------
  // Normalisation and the two set differences
  // ---------------------------------------------------------------------

  /** `str(cell).strip().lower()`: no whitespace at either end and no
      capital letter anywhere. */
  function Key(cell: string): (k: string)
    ensures Normalised(k)
  {
    LowerOfStrippedShape(cell);
    Lower(Strip(cell))
  }

  predicate HasKey(cell: string)
  {
    Key(cell) != ""
  }

  /** Normalising a key again changes nothing. */
  lemma KeyIdempotent(cell: string)
    ensures Key(Key(cell)) == Key(cell)
  {
    var t := Strip(cell);
    LowerKeepsStripped(t);
    LowerIdempotent(t);
  }

  /** The source rows kept for the comparison: those with a non-empty key
      (`source_df[source_hostnames != '']`), original text unchanged. */
  function CleanSource(src: seq<string>): seq<string>
  {
    Filter(src, HasKey)
  }

  /** `set(source_hostnames_clean)`. */
  function SourceKeys(src: seq<string>): set<string>
  {
    set c | c in CleanSource(src) :: Key(c)
  }

  /** `reference_endpoints`: the key of every reference row, "" included. */
  function ReferenceKeys(ref: seq<string>): seq<string>
  {
    MapSeq(ref, Key)
  }

  /** The distinct non-empty reference keys. */
  function ReferenceKeySet(ref: seq<string>): set<string>
  {
    set c | c in ref && HasKey(c) :: Key(c)
  }

  predicate NonEmpty(k: string)
  {
    k != ""
  }

  /** `len(reference_endpoints[reference_endpoints != ''].unique())`. */
  function ReferenceTotal(ref: seq<string>): (n: nat)
    ensures n <= |ref|
  {
    |Dedup(Filter(ReferenceKeys(ref), NonEmpty))|
  }

  /** A source row whose key does not occur among the reference keys. */
  predicate Unmatched(ref: seq<string>, cell: string)
  {
    Key(cell) !in ReferenceKeys(ref)
  }

  /** `unique_in_source`: the kept source rows, as originally written, whose
      key is not a reference key; row order and duplicates kept. */
  function UniqueInSource(src: seq<string>, ref: seq<string>): (r: seq<string>)
    ensures |r| <= |src|
    ensures forall k :: 0 <= k < |r| ==> r[k] in src && HasKey(r[k]) && Unmatched(ref, r[k])
  {
    Filter(CleanSource(src), c => Unmatched(ref, c))
  }

  /** A stripped reference value that is non-empty and whose lower-cased form
      is no source key. */
  predicate Uncovered(src: seq<string>, v: string)
  {
    Lower(v) !in SourceKeys(src) && v != ""
  }

  /** `unique_in_reference`: the stripped (not lower-cased) reference values
      that are non-empty and match no source key; order and duplicates
      kept. */
  function UniqueInReference(src: seq<string>, ref: seq<string>): (r: seq<string>)
    ensures |r| <= |ref|
    ensures forall k :: 0 <= k < |r| ==> r[k] in MapSeq(ref, Strip) && Uncovered(src, r[k])
  {
    Filter(MapSeq(ref, Strip), v => Uncovered(src, v))
  }

  /** `reference_total` is the number of distinct non-empty reference keys,
      never more than the number of reference rows. */
  lemma ReferenceTotalCountsDistinctKeys(ref: seq<string>)
    ensures ReferenceTotal(ref) == |ReferenceKeySet(ref)|
    ensures ReferenceTotal(ref) <= |ref|
  {
    var nonEmpty := Filter(ReferenceKeys(ref), NonEmpty);
    DedupLength(nonEmpty);
    ElementsBound(nonEmpty);
    ReferenceKeySetIsNonEmptyKeys(ref);
  }

  lemma ReferenceKeySetIsNonEmptyKeys(ref: seq<string>)
    ensures ReferenceKeySet(ref) == Elements(Filter(ReferenceKeys(ref), NonEmpty))
  {
    ElementsOfFilterMap(ref, Key, NonEmpty);
  }

  /** For a row with a key, occurring among all reference keys and among the
      non-empty ones is the same thing. */
  lemma UnmatchedIffNotInKeySet(ref: seq<string>, cell: string)
    requires HasKey(cell)
    ensures Unmatched(ref, cell) <==> Key(cell) !in ReferenceKeySet(ref)
  {
    if Key(cell) in ReferenceKeys(ref) {
      var j :| 0 <= j < |ref| && ReferenceKeys(ref)[j] == Key(cell);
      assert ref[j] in ref && HasKey(ref[j]);
    }
  }

  /** `unique_in_source` lists exactly the source rows with a non-empty key
      absent from the reference key set, in source order (a subsequence of
      the source column), duplicates kept. */
  lemma UniqueInSourceIsRowFilter(src: seq<string>, ref: seq<string>)
    ensures UniqueInSource(src, ref) == Filter(src, c => HasKey(c) && Unmatched(ref, c))
    ensures IsSubsequence(UniqueInSource(src, ref), src)
    ensures forall k :: 0 <= k < |UniqueInSource(src, ref)| ==>
              HasKey(UniqueInSource(src, ref)[k]) && Key(UniqueInSource(src, ref)[k]) !in ReferenceKeySet(ref)
    ensures forall k :: 0 <= k < |src| && HasKey(src[k]) && Key(src[k]) !in ReferenceKeySet(ref) ==>
              src[k] in UniqueInSource(src, ref)
  {
    FilterFilter(src, HasKey, c => Unmatched(ref, c), c => HasKey(c) && Unmatched(ref, c));
    FilterIsSubsequence(src, c => HasKey(c) && Unmatched(ref, c));
    FilterComplete(src, c => HasKey(c) && Unmatched(ref, c));
    forall c | HasKey(c)
      ensures Unmatched(ref, c) <==> Key(c) !in ReferenceKeySet(ref)
    {
      UnmatchedIffNotInKeySet(ref, c);
    }
  }

  /** Every kept source row is either listed as unique or has its key in the
      reference, never both: the listed rows and the matched rows add up to
      `source_total`. */
  lemma SourceRowsPartition(src: seq<string>, ref: seq<string>)
    ensures |UniqueInSource(src, ref)| + |Filter(CleanSource(src), c => !Unmatched(ref, c))|
              == |CleanSource(src)|
    ensures |UniqueInSource(src, ref)| <= |CleanSource(src)| <= |src|
  {
    FilterPartition(CleanSource(src), c => Unmatched(ref, c), c => !Unmatched(ref, c));
  }

  /** Matching depends on the reference only through its set of keys, so
      reference files that differ only in case, surrounding whitespace,
      order or repetition give the same result. */
  lemma UniqueInSourceDependsOnKeysOnly(src: seq<string>, ref1: seq<string>, ref2: seq<string>)
    requires ReferenceKeySet(ref1) == ReferenceKeySet(ref2)
    ensures UniqueInSource(src, ref1) == UniqueInSource(src, ref2)
  {
    var clean := CleanSource(src);
    forall k | 0 <= k < |clean|
      ensures Unmatched(ref1, clean[k]) == Unmatched(ref2, clean[k])
    {
      UnmatchedIffNotInKeySet(ref1, clean[k]);
      UnmatchedIffNotInKeySet(ref2, clean[k]);
    }
    FilterCongruent(clean, c => Unmatched(ref1, c), c => Unmatched(ref2, c));
  }

  /** `unique_in_reference` lists exactly the stripped, non-empty reference
      values whose lower-cased form is no source key. */
  lemma UniqueInReferenceMembers(src: seq<string>, ref: seq<string>)
    ensures forall k :: 0 <= k < |UniqueInReference(src, ref)| ==>
              UniqueInReference(src, ref)[k] in MapSeq(ref, Strip) && Uncovered(src, UniqueInReference(src, ref)[k])
    ensures forall j :: 0 <= j < |ref| && Strip(ref[j]) != "" && Key(ref[j]) !in SourceKeys(src) ==>
              Strip(ref[j]) in UniqueInReference(src, ref)
    ensures IsSubsequence(UniqueInReference(src, ref), MapSeq(ref, Strip))
  {
    FilterIsSubsequence(MapSeq(ref, Strip), v => Uncovered(src, v));
    forall j | 0 <= j < |ref| && Strip(ref[j]) != "" && Key(ref[j]) !in SourceKeys(src)
      ensures Strip(ref[j]) in UniqueInReference(src, ref)
    {
      assert MapSeq(ref, Strip)[j] == Strip(ref[j]);
      InFilter(MapSeq(ref, Strip), v => Uncovered(src, v), Strip(ref[j]));
    }
  }

  /** The two difference lists never share a key: a source row listed as
      missing from the reference has a different key from every reference
      value listed as missing from the source. */
  lemma DifferencesShareNoKey(src: seq<string>, ref: seq<string>, u: string, v: string)
    requires u in UniqueInSource(src, ref) && v in UniqueInReference(src, ref)
    ensures Key(u) != Lower(v)
  {
    assert u in CleanSource(src);
    assert Key(u) in SourceKeys(src);
  }

  /** A source row whose key is the key of some reference row is never
      listed, wherever it occurs in the source. */
  lemma MatchedRowNotListed(src: seq<string>, ref: seq<string>, cell: string, j: int)
    requires 0 <= j < |ref| && Key(ref[j]) == Key(cell)
    ensures cell !in UniqueInSource(src, ref)
  {
    assert ReferenceKeys(ref)[j] == Key(cell);
  }

  // ---------------------------------------------------------------------
  // Printer denylist
  // ---------------------------------------------------------------------

  const Denylist: seq<string> := ["hp", "canon", "npi", "printer"]

  /** The lower-cased name contains one of the denylisted substrings. */
  predicate IsPrinterName(h: string)
  {
    exists k :: 0 <= k < |Denylist| && Contains(Lower(h), Denylist[k])
  }

  /** What `filter_printer_hostnames` returns. */
  function NonPrinters(hostnames: seq<string>): seq<string>
  {
    Filter(hostnames, h => !IsPrinterName(h))
  }

  /** `filter_printer_hostnames`: keeps, in order, the names containing none
      of the denylisted substrings. */
  method FilterPrinterHostnames(hostnames: seq<string>) returns (filtered: seq<string>)
    ensures filtered == NonPrinters(hostnames)
  {
    if |hostnames| == 0 {
      return [];
    }
    filtered := [];
    for i := 0 to |hostnames|
      invariant filtered == NonPrinters(hostnames[..i])
    {
      assert hostnames[..i + 1] == hostnames[..i] + [hostnames[i]];
      FilterSnoc(hostnames[..i], hostnames[i], h => !IsPrinterName(h));
      if !IsPrinterName(hostnames[i]) {
        filtered := filtered + [hostnames[i]];
      }
    }
    assert hostnames[..|hostnames|] == hostnames;
  }

  /** The printer filter keeps exactly the non-printer names, in their
      original order, and applying it twice is applying it once. */
  lemma NonPrintersProperties(hostnames: seq<string>)
    ensures forall k :: 0 <= k < |NonPrinters(hostnames)| ==>
              NonPrinters(hostnames)[k] in hostnames && !IsPrinterName(NonPrinters(hostnames)[k])
    ensures forall k :: 0 <= k < |hostnames| && !IsPrinterName(hostnames[k]) ==>
              hostnames[k] in NonPrinters(hostnames)
    ensures IsSubsequence(NonPrinters(hostnames), hostnames)
    ensures NonPrinters(NonPrinters(hostnames)) == NonPrinters(hostnames)
  {
    FilterIsSubsequence(hostnames, h => !IsPrinterName(h));
    FilterComplete(hostnames, h => !IsPrinterName(h));
    FilterIdempotent(hostnames, h => !IsPrinterName(h));
  }

  /** Substring matching, not whole words: "HP-Printer-01", "myhpclient" and
      "hpc-server" are all printer names. */
  lemma DenylistIsSubstringMatch()
    ensures IsPrinterName("HP-Printer-01")
    ensures IsPrinterName("myhpclient")
    ensures IsPrinterName("hpc-server")
  {
    assert Lower("HP-Printer-01") == "hp-printer-01";
    assert OccursAt("hp-printer-01", Denylist[0], 0);
    assert Lower("myhpclient") == "myhpclient";
    assert OccursAt("myhpclient", Denylist[0], 2);
    assert Lower("hpc-server") == "hpc-server";
    assert OccursAt("hpc-server", Denylist[0], 0);
  }

  const TruthyFlags: set<string> := {"true", "on", "1", "yes"}

  /** The `filter_printers` form value turns the filter on when, lower-cased,
      it is true, on, 1 or yes. */
  predicate FilterEnabled(flag: string)
  {
    Lower(flag) in TruthyFlags
  }

  /** The checkbox's "on", the default "true", and any casing of them turn
      the filter on; "false", "off" and an empty value turn it off. */
  lemma FilterFlagValues()
    ensures FilterEnabled("on") && FilterEnabled(DefaultFilterFlag)
    ensures FilterEnabled("True") && FilterEnabled("YES") && FilterEnabled("1")
    ensures !FilterEnabled("false") && !FilterEnabled("off") && !FilterEnabled("")
  {
    assert Lower("on") == "on" && Lower("1") == "1" && Lower(DefaultFilterFlag) == "true";
    assert Lower("True") == "true" && Lower("YES") == "yes";
    assert Lower("false") == "false" && Lower("off") == "off" && Lower("") == "";
    assert "off" != "yes" by { assert "off"[0] != "yes"[0]; }
    assert "off" !in TruthyFlags;
    assert "false" !in TruthyFlags;
  }

  /** The listed hostnames and `filtered_count`: with the filter on, the
      non-printer names and the number removed; off, the list unchanged and
      zero. */
  function ApplyPrinterFilter(unique: seq<string>, enabled: bool): (seq<string>, nat)
  {
    if enabled then
      var kept := NonPrinters(unique);
      (kept, |unique| - |kept|)
    else (unique, 0)
  }

  lemma ApplyPrinterFilterCounts(unique: seq<string>, enabled: bool)
    ensures |ApplyPrinterFilter(unique, enabled).0| + ApplyPrinterFilter(unique, enabled).1 == |unique|
    ensures !enabled ==> ApplyPrinterFilter(unique, enabled) == (unique, 0)
    ensures enabled ==> ApplyPrinterFilter(unique, enabled).0 == NonPrinters(unique)
  {
  }

  // ---------------------------------------------------------------------
  // Endpoints count
  // ---------------------------------------------------------------------

  /** An uploaded file: its name and the table its parser produced, None when
      the parser raised. */
  datatype Upload = Upload(filename: string, table: Option<Table>)

  /** The number of non-empty stripped cells of a column, not de-duplicated. */
  function NonEmptyCount(cells: seq<string>): (n: nat)
    ensures n <= |cells|
  {
    |Filter(MapSeq(cells, Strip), (v: string) => v != "")|
  }

  /** `endpoints_without_agent_count`: the non-empty cells of the resolved
      column of the optional endpoints file; `fallback` when there is no such
      file or anything about it fails (unknown extension, parse error,
      column not found). */
  function EndpointsCount(endpoints: Option<Upload>, column: string, fallback: nat): (n: nat)
    ensures n != fallback ==>
      && endpoints.Some? && endpoints.value.table.Some?
      && exists i :: 0 <= i < |endpoints.value.table.value| && n <= |endpoints.value.table.value[i].cells|
  {
    match endpoints
    case None => fallback
    case Some(u) =>
      if u.filename == "" || !AllowedFile(u.filename) || u.table.None? then fallback
      else
        var t := u.table.value;
        match ResolveColumn(Names(t), column)
        case Err(_) => fallback
        case Ok(i) => NonEmptyCount(t[i].cells)
  }

  /** The count falls back when there is no endpoints file, or when its
      name is empty, its extension is refused, it does not parse or the
      column does not resolve; otherwise it counts the resolved column. */
  lemma EndpointsCountPaths(endpoints: Option<Upload>, column: string, fallback: nat)
    ensures endpoints.None? ==> EndpointsCount(endpoints, column, fallback) == fallback
    ensures endpoints.Some?
            && (|| endpoints.value.filename == ""
                || !AllowedFile(endpoints.value.filename)
                || endpoints.value.table.None?
                || ResolveColumn(Names(endpoints.value.table.value), column).Err?) ==>
              EndpointsCount(endpoints, column, fallback) == fallback
    ensures endpoints.Some? && endpoints.value.filename != "" && AllowedFile(endpoints.value.filename)
            && endpoints.value.table.Some? && ResolveColumn(Names(endpoints.value.table.value), column).Ok? ==>
              var t := endpoints.value.table.value;
              EndpointsCount(endpoints, column, fallback)
                == NonEmptyCount(t[ResolveColumn(Names(t), column).value].cells)
              && EndpointsCount(endpoints, column, fallback) <= |t[ResolveColumn(Names(t), column).value].cells|
  {
  }

  // ---------------------------------------------------------------------
  // The whole comparison
  // ---------------------------------------------------------------------

  datatype Comparison = Comparison(
    sourceTotal: nat,
    referenceTotal: nat,
    uniqueCount: nat,
    uniqueHostnames: seq<string>,
    filteredCount: nat,
    originalUniqueCount: nat,
    uniqueInReferenceCount: nat)

  /** Lines 132-211 of `compare_files`, on the two resolved columns: the
      listed and the filtered-out hostnames together are the unique ones,
      which are at most the source rows. */
  function CompareColumns(src: seq<string>, ref: seq<string>, filterFlag: string,
                          endpoints: Option<Upload>, endpointsColumn: string): (c: Comparison)
    ensures c.uniqueCount == |c.uniqueHostnames|
    ensures c.uniqueCount + c.filteredCount == c.originalUniqueCount <= |src|
    ensures c.referenceTotal <= |ref|
  {
    var unique := UniqueInSource(src, ref);
    ApplyPrinterFilterCounts(unique, FilterEnabled(filterFlag));
    var (listed, filtered) := ApplyPrinterFilter(unique, FilterEnabled(filterFlag));
    Comparison(
      |CleanSource(src)|,
      ReferenceTotal(ref),
      |listed|,
      listed,
      filtered,
      |unique|,
      EndpointsCount(endpoints, endpointsColumn, |UniqueInReference(src, ref)|))
  }

  /** What the response promises: the counts are consistent with each other,
      the listed hostnames are source rows in source order, and the filter
      only removes printer names. */
  lemma CompareColumnsCounts(src: seq<string>, ref: seq<string>, filterFlag: string,
                             endpoints: Option<Upload>, endpointsColumn: string)
    ensures var c := CompareColumns(src, ref, filterFlag, endpoints, endpointsColumn);
      && c.sourceTotal == |Filter(src, HasKey)| <= |src|
      && c.referenceTotal == |ReferenceKeySet(ref)| <= |ref|
      && c.originalUniqueCount <= c.sourceTotal
      && c.uniqueCount == |c.uniqueHostnames|
      && c.uniqueCount + c.filteredCount == c.originalUniqueCount
      && IsSubsequence(c.uniqueHostnames, src)
      && (FilterEnabled(filterFlag) ==> c.uniqueHostnames == NonPrinters(UniqueInSource(src, ref)))
      && (!FilterEnabled(filterFlag) ==> c.uniqueHostnames == UniqueInSource(src, ref) && c.filteredCount == 0)
      && (endpoints.None? ==> c.uniqueInReferenceCount == |UniqueInReference(src, ref)|)
  {
    var unique := UniqueInSource(src, ref);
    ReferenceTotalCountsDistinctKeys(ref);
    SourceRowsPartition(src, ref);
    UniqueInSourceIsRowFilter(src, ref);
    ApplyPrinterFilterCounts(unique, FilterEnabled(filterFlag));
    var both := c => HasKey(c) && Unmatched(ref, c);
    if FilterEnabled(filterFlag) {
      IsSubsequenceOfFilterFilter(src, both, h => !IsPrinterName(h));
    }
  }

  const DefaultSourceColumn := "Hostname"
  const DefaultReferenceColumn := "Endpoint Name"
  const DefaultEndpointsColumn := "0"
  const DefaultFilterFlag := "true"

  /** The form fields and files of a comparison request; an absent form field
      is None and takes its default. */
  datatype CompareRequest = CompareRequest(
    source: Option<Upload>,
    reference: Option<Upload>,
    endpoints: Option<Upload>,
    sourceColumn: Option<string>,
    referenceColumn: Option<string>,
    endpointsColumn: Option<string>,
    filterPrinters: Option<string>)

  datatype CompareError =
    | MissingFiles
    | NoFileSelected
    | InvalidFileType
    | Unreadable
    | SourceColumnNotFound(reference: string, available: seq<string>)
    | ReferenceColumnNotFound(reference: string, available: seq<string>)

  /** `compare_files`: the upload checks in order, then the two column
      resolutions, then the comparison proper. */
  function Compare(req: CompareRequest): (r: Result<Comparison, CompareError>)
    ensures r == Err(MissingFiles) <==> req.source.None? || req.reference.None?
    ensures r.Ok? ==>
      && req.source.Some? && req.reference.Some?
      && AllowedFile(req.source.value.filename) && AllowedFile(req.reference.value.filename)
      && r.value.uniqueCount + r.value.filteredCount == r.value.originalUniqueCount
  {
    if req.source.None? || req.reference.None? then Err(MissingFiles)
    else if req.source.value.filename == "" || req.reference.value.filename == "" then Err(NoFileSelected)
    else if !(AllowedFile(req.source.value.filename) && AllowedFile(req.reference.value.filename)) then Err(InvalidFileType)
    else if req.source.value.table.None? || req.reference.value.table.None? then Err(Unreadable)
    else
      var st := req.source.value.table.value;
      var rt := req.reference.value.table.value;
      var sc := req.sourceColumn.UnwrapOr(DefaultSourceColumn);
      var rc := req.referenceColumn.UnwrapOr(DefaultReferenceColumn);
      match ResolveColumn(Names(st), sc)
      case Err(_) => Err(SourceColumnNotFound(sc, Names(st)))
      case Ok(si) =>
        match ResolveColumn(Names(rt), rc)
        case Err(_) => Err(ReferenceColumnNotFound(rc, Names(rt)))
        case Ok(ri) =>
          Ok(CompareColumns(st[si].cells, rt[ri].cells, req.filterPrinters.UnwrapOr(DefaultFilterFlag),
                            req.endpoints, req.endpointsColumn.UnwrapOr(DefaultEndpointsColumn)))
  }

  /** `compare_files` step by step, calling the column resolver and the
      printer filter. */
  method CompareFiles(req: CompareRequest) returns (r: Result<Comparison, CompareError>)
    ensures r == Compare(req)
  {
    if req.source.None? || req.reference.None? {
      return Err(MissingFiles);
    }
    var source, reference := req.source.value, req.reference.value;
    if source.filename == "" || reference.filename == "" {
      return Err(NoFileSelected);
    }
    if !(AllowedFile(source.filename) && AllowedFile(reference.filename)) {
      return Err(InvalidFileType);
    }
    if source.table.None? || reference.table.None? {
      return Err(Unreadable);
    }
    var st, rt := source.table.value, reference.table.value;
    var sc := req.sourceColumn.UnwrapOr(DefaultSourceColumn);
    var si := GetColumnName(Names(st), sc);
    if si.Err? {
      return Err(SourceColumnNotFound(sc, Names(st)));
    }
    var rc := req.referenceColumn.UnwrapOr(DefaultReferenceColumn);
    var ri := GetColumnName(Names(rt), rc);
    if ri.Err? {
      return Err(ReferenceColumnNotFound(rc, Names(rt)));
    }
    var c := CompareResolved(st[si.value].cells, rt[ri.value].cells,
                             req.filterPrinters.UnwrapOr(DefaultFilterFlag),
                             req.endpoints, req.endpointsColumn.UnwrapOr(DefaultEndpointsColumn));
    return Ok(c);
  }

  /** The comparison proper once both columns are resolved: the difference,
      the optional printer filter and the endpoints count. */
  method CompareResolved(src: seq<string>, ref: seq<string>, filterFlag: string,
                         endpoints: Option<Upload>, endpointsColumn: string) returns (c: Comparison)
    ensures c == CompareColumns(src, ref, filterFlag, endpoints, endpointsColumn)
  {
    var unique := UniqueInSource(src, ref);
    var listed := unique;
    var filteredCount := 0;
    if FilterEnabled(filterFlag) {
      listed := FilterPrinterHostnames(unique);
      filteredCount := |unique| - |listed|;
    }
    var endpointsCount := CountEndpoints(endpoints, endpointsColumn, |UniqueInReference(src, ref)|);
    c := Comparison(|CleanSource(src)|, ReferenceTotal(ref), |listed|, listed, filteredCount,
                    |unique|, endpointsCount);
  }

  /** The endpoints-count block of `compare_files`, calling the column
      resolver on the optional third file. */
  method CountEndpoints(endpoints: Option<Upload>, column: string, fallback: nat) returns (n: nat)
    ensures n == EndpointsCount(endpoints, column, fallback)
  {
    n := fallback;
    if endpoints.Some? && endpoints.value.filename != "" {
      var e := endpoints.value;
      if AllowedFile(e.filename) && e.table.Some? {
        var et := e.table.value;
        var ei := GetColumnName(Names(et), column);
        if ei.Ok? {
          n := NonEmptyCount(et[ei.value].cells);
        }
      }
    }
  }

  /** A request is refused exactly when a file is missing, unnamed, of the
      wrong type or unreadable, or a column reference does not resolve; a
      column error carries the table's column names. */
  lemma CompareErrors(req: CompareRequest)
    ensures Compare(req).Ok? <==>
      && req.source.Some? && req.reference.Some?
      && req.source.value.filename != "" && req.reference.value.filename != ""
      && AllowedFile(req.source.value.filename) && AllowedFile(req.reference.value.filename)
      && req.source.value.table.Some? && req.reference.value.table.Some?
      && ResolveColumn(Names(req.source.value.table.value), req.sourceColumn.UnwrapOr(DefaultSourceColumn)).Ok?
      && ResolveColumn(Names(req.reference.value.table.value), req.referenceColumn.UnwrapOr(DefaultReferenceColumn)).Ok?
    ensures Compare(req).Err? && Compare(req).error.SourceColumnNotFound? ==>
      Compare(req).error.available == Names(req.source.value.table.value)
  {
    if req.source.None? || req.reference.None? {
      assert Compare(req) == Err(MissingFiles);
    } else if req.source.value.filename == "" || req.reference.value.filename == "" {
      assert Compare(req) == Err(NoFileSelected);
    } else if !(AllowedFile(req.source.value.filename) && AllowedFile(req.reference.value.filename)) {
      assert Compare(req) == Err(InvalidFileType);
    } else if req.source.value.table.None? || req.reference.value.table.None? {
      assert Compare(req) == Err(Unreadable);
    } else {
      var st := req.source.value.table.value;
      var sc := req.sourceColumn.UnwrapOr(DefaultSourceColumn);
      if ResolveColumn(Names(st), sc).Err? {
        assert Compare(req) == Err(SourceColumnNotFound(sc, Names(st)));
      }
    }
  }

  /** An empty source column gives zero counts and lists every non-empty
      reference value as missing from the source. */
  lemma EmptySource(ref: seq<string>, filterFlag: string)
    ensures var c := CompareColumns([], ref, filterFlag, None, "0");
      && c.sourceTotal == 0 && c.uniqueHostnames == [] && c.originalUniqueCount == 0
      && c.uniqueInReferenceCount == |Filter(MapSeq(ref, Strip), (v: string) => v != "")|
  {
    assert SourceKeys([]) == {};
    FilterCongruent(MapSeq(ref, Strip), v => Uncovered([], v), (v: string) => v != "");
  }
}

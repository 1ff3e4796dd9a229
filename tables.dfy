/**
 * A loaded table and the resolution of a user's column reference to one of
 * its columns (`get_column_name` in Script_Cortex/app.py): an exact column
 * name, else a zero-based index, else a spreadsheet letter code
 * (A = 0, Z = 25, AA = 26), each tried only when the earlier one misses.
 */
module Tables {
  import opened Wrappers
  import opened Text
  import opened Seqs

  /** One column of a loaded file, its cells already rendered as text.  The
      web service fills missing cells with "" first; the desktop tool does
      not, so there a missing cell is the text "nan". */
  datatype Column = Column(name: string, cells: seq<string>)

  /** A loaded file, its columns in order. */
  type Table = seq<Column>

  function Names(t: Table): seq<string>
  {
    MapSeq(t, (c: Column) => c.name)
  }

  datatype ColumnError = ColumnNotFound(reference: string)

  // ---------------------------------------------------------------------
  // Spreadsheet letter codes
  // ---------------------------------------------------------------------

  /** The letter arithmetic exactly as written: `result * 26 + (ord(c) -
      ord('A') + 1)` for every character, letter or not. */
  function LetterValue(s: string): (v: int)
    ensures AllCapitals(s) ==> (if s == [] then v == 0 else v >= 1)
  {
    if s == [] then 0
    else
      assert AllCapitals(s) ==> AllCapitals(s[..|s| - 1]);
      LetterValue(s[..|s| - 1]) * 26 + (s[|s| - 1] as int - 'A' as int + 1)
  }

  /** The column index a reference denotes as a letter code: the code of its
      upper-cased text, minus one. */
  method LetterColumnIndex(s: string) returns (index: int)
    ensures index == LetterValue(Upper(s)) - 1
  {
    var upper := Upper(s);
    var result := 0;
    for i := 0 to |upper|
      invariant result == LetterValue(upper[..i])
    {
      assert upper[..i + 1][..i] == upper[..i];
      result := result * 26 + (upper[i] as int - 'A' as int + 1);
    }
    assert upper[..|upper|] == upper;
    index := result - 1;
  }

  /** The spreadsheet name of the column at zero-based index `k`:
      A, B, ..., Z, AA, AB, ... */
  function ColumnLetters(k: nat): (r: string)
    ensures r != [] && forall j :: 0 <= j < |r| ==> IsUpperLetter(r[j])
  {
    if k < 26 then [('A' as int + k) as char]
    else ColumnLetters(k / 26 - 1) + [('A' as int + k % 26) as char]
  }

  /** The letter arithmetic inverts the spreadsheet naming: the code of the
      letters of column `k` is `k + 1`, so the index it yields is `k`. */
  lemma {:induction false} LetterValueOfColumnLetters(k: nat)
    ensures LetterValue(ColumnLetters(k)) == k + 1
  {
    var r := ColumnLetters(k);
    if k < 26 {
      assert r[..0] == [];
    } else {
      LetterValueOfColumnLetters(k / 26 - 1);
      assert r[..|r| - 1] == ColumnLetters(k / 26 - 1);
    }
  }

  /** Letter codes are case-insensitive: lower-case letters name the same
      column. */
  lemma UpperOfColumnLetters(k: nat)
    ensures Upper(ColumnLetters(k)) == ColumnLetters(k)
    ensures Upper(Lower(ColumnLetters(k))) == ColumnLetters(k)
  {
  }

  /** Non-letters are not rejected: a reference made only of digits and '-'
      always has a code of -7 or less, so it never lands on a column. */
  lemma {:induction false} DigitsAndDashesAreNegative(s: string)
    requires s != [] && forall j :: 0 <= j < |s| ==> IsDigit(s[j]) || s[j] == '-'
    ensures Upper(s) == s
    ensures LetterValue(s) <= -7
    decreases |s|
  {
    var init := s[..|s| - 1];
    if init != [] {
      DigitsAndDashesAreNegative(init);
    }
  }

  /** Two samples of the arithmetic as written: "[" (the character after Z)
      gives index 26, the same as "AA". */
  lemma BracketIsColumn26()
    ensures LetterValue(Upper("[")) - 1 == 26
    ensures LetterValue(Upper("aa")) - 1 == 26
  {
    assert Upper("aa") == "AA";
    assert "AA"[..1] == "A";
    assert "A"[..0] == [];
    assert Upper("[") == "[";
    assert "["[..0] == [];
  }

  // ---------------------------------------------------------------------
  // Three-tier resolution
  // ---------------------------------------------------------------------

  /** Tier 1: an exact, case-sensitive column name. */
  function ByName(names: seq<string>, s: string): Option<nat>
  {
    if s in names then Some(IndexOf(names, s)) else None
  }

  /** Tier 2: `int(s)` in `[0, n)`; a failed parse or an out-of-range index
      falls through. */
  function ByIndex(names: seq<string>, s: string): Option<nat>
  {
    match ParseInt(s)
    case Some(i) => if 0 <= i < |names| then Some(i) else None
    case None => None
  }

  /** Tier 3: the letter code minus one, in `[0, n)`. */
  function ByLetters(names: seq<string>, s: string): Option<nat>
  {
    var i := LetterValue(Upper(s)) - 1;
    if 0 <= i < |names| then Some(i) else None
  }

  /** The tiers tried in order; when none lands, the reference is not
      found. */
  function ResolveColumn(names: seq<string>, s: string): (r: Result<nat, ColumnError>)
    ensures r.Ok? ==> r.value < |names|
    ensures r.Err? ==> r.error == ColumnNotFound(s)
  {
    match ByName(names, s)
    case Some(i) => Ok(i)
    case None =>
      match ByIndex(names, s)
      case Some(i) => Ok(i)
      case None =>
        match ByLetters(names, s)
        case Some(i) => Ok(i)
        case None => Err(ColumnNotFound(s))
  }

  /** `get_column_name`: resolves a reference against the column names,
      returning the position of the chosen column. */
  method GetColumnName(names: seq<string>, s: string) returns (r: Result<nat, ColumnError>)
    ensures r == ResolveColumn(names, s)
  {
    var byName := ByName(names, s);
    if byName.Some? {
      return Ok(byName.value);
    }
    var byIndex := ByIndex(names, s);
    if byIndex.Some? {
      return Ok(byIndex.value);
    }
    var index := LetterColumnIndex(s);
    if 0 <= index < |names| {
      return Ok(index);
    }
    return Err(ColumnNotFound(s));
  }

  /** The tiers' priority: a name wins over an index, an index over a letter
      code, and the reference fails exactly when no tier lands. */
  lemma ResolveColumnTiers(names: seq<string>, s: string)
    ensures s in names ==> ResolveColumn(names, s) == Ok(IndexOf(names, s))
    ensures s !in names && ByIndex(names, s).Some? ==>
              ResolveColumn(names, s) == Ok(ParseInt(s).value)
    ensures s !in names && ByIndex(names, s).None? && ByLetters(names, s).Some? ==>
              ResolveColumn(names, s) == Ok(LetterValue(Upper(s)) - 1)
    ensures ResolveColumn(names, s).Err? <==>
              s !in names && ByIndex(names, s).None? && ByLetters(names, s).None?
  {
    var r := ResolveColumn(names, s);
    if s in names {
      assert ByName(names, s) == Some(IndexOf(names, s));
    } else if ByIndex(names, s).Some? {
      var i := ByIndex(names, s).value;
      assert ParseInt(s) == Some(i as int);
      assert r == Ok(i);
    } else if ByLetters(names, s).Some? {
      var i := LetterValue(Upper(s)) - 1;
      assert ByLetters(names, s) == Some(i) && 0 <= i < |names|;
      assert r == Ok(i);
    } else {
      assert r.Err?;
    }
  }

  /** A column's spreadsheet letters, in either case, select that column
      unless some column is literally named so. */
  lemma ResolveColumnLetters(names: seq<string>, k: nat, lower: bool)
    requires k < |names|
    requires (if lower then Lower(ColumnLetters(k)) else ColumnLetters(k)) !in names
    ensures ResolveColumn(names, if lower then Lower(ColumnLetters(k)) else ColumnLetters(k)) == Ok(k)
  {
    var s := if lower then Lower(ColumnLetters(k)) else ColumnLetters(k);
    assert forall j :: 0 <= j < |s| ==> !IsDigit(s[j]) && s[j] !in Whitespace && s[j] != '-' && s[j] != '+';
    StripCharsOfStripped(s, Whitespace);
    assert ParseInt(s) == None;
    UpperOfColumnLetters(k);
    LetterValueOfColumnLetters(k);
  }

  /** The decimal form of an in-range index selects that column unless some
      column is literally named so. */
  lemma ResolveColumnIndex(names: seq<string>, k: nat)
    requires k < |names| && NatToString(k) !in names
    ensures ResolveColumn(names, NatToString(k)) == Ok(k)
  {
    ParseIntOfDigits(NatToString(k));
    DigitsValueOfNatToString(k);
  }

  /** A decimal index past the last column fails: the index tier misses and
      the letter tier, reading the digits as letters, goes negative. */
  lemma ResolveColumnOutOfRange(names: seq<string>, s: string)
    requires s != [] && forall j :: 0 <= j < |s| ==> IsDigit(s[j])
    requires s !in names && DigitsValue(s) >= |names|
    ensures ResolveColumn(names, s) == Err(ColumnNotFound(s))
  {
    ParseIntOfDigits(s);
    DigitsAndDashesAreNegative(s);
  }
}

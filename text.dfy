/**
 * The few Python string operations the comparison relies on, over ASCII:
 * `str.strip()` / `str.strip(chars)`, `str.lower()`, `str.upper()`, the
 * substring test `sub in s`, `str.endswith`, `str(n)` for integers and the
 * base-10 `int(s)` parser.  Characters outside ASCII are left alone by
 * Lower and Upper and are never whitespace here.
 */
module Text {
  import opened Wrappers

  /** The ASCII characters Python's `str.isspace` accepts: tab, line feed,
      vertical tab, form feed, carriage return, the four separators 0x1C-0x1F
      and space. */
  const Whitespace: set<char> :=
    {'\t', '\n', '\U{b}', '\U{c}', '\r', '\U{1c}', '\U{1d}', '\U{1e}', '\U{1f}', ' '}

  /** Drops the leading characters that belong to `cs`. */
  function TrimStart(s: string, cs: set<char>): (r: string)
    ensures |r| <= |s| && r == s[|s| - |r|..]
    ensures r != [] ==> r[0] !in cs
    ensures forall k :: 0 <= k < |s| - |r| ==> s[k] in cs
    decreases |s|
  {
    if s != [] && s[0] in cs then
      var r := TrimStart(s[1..], cs);
      assert s[1..][|s| - 1 - |r|..] == s[|s| - |r|..];
      assert forall k :: 1 <= k < |s| - |r| ==> s[k] == s[1..][k - 1];
      r
    else
      s
  }

  /** Drops the trailing characters that belong to `cs`. */
  function TrimEnd(s: string, cs: set<char>): (r: string)
    ensures |r| <= |s| && r == s[..|r|]
    ensures r != [] ==> r[|r| - 1] !in cs
    ensures forall k :: |r| <= k < |s| ==> s[k] in cs
    decreases |s|
  {
    if s != [] && s[|s| - 1] in cs then
      var r := TrimEnd(s[..|s| - 1], cs);
      assert forall k :: |r| <= k < |s| - 1 ==> s[k] == s[..|s| - 1][k];
      r
    else
      s
  }

  /** Python's `s.strip(chars)`: the longest middle part of `s` that neither
      starts nor ends with a character of `cs`; everything cut off belongs
      to `cs`. */
  function StripChars(s: string, cs: set<char>): (r: string)
    ensures r != [] ==> r[0] !in cs && r[|r| - 1] !in cs
  {
    TrimEnd(TrimStart(s, cs), cs)
  }

  /** What strip cuts off: a prefix and a suffix made of characters of
      `cs`, and nothing in between. */
  lemma StripCharsCut(s: string, cs: set<char>)
    ensures exists i :: CutAt(s, cs, i, StripChars(s, cs))
  {
    StripCut(s, cs, TrimStart(s, cs), StripChars(s, cs));
  }

  /** `r` is `s` with a prefix of length `i` and a suffix cut off, and every
      character cut off belongs to `cs`. */
  ghost predicate CutAt(s: string, cs: set<char>, i: int, r: string)
  {
    && 0 <= i <= |s| - |r| && r == s[i..i + |r|]
    && (forall k :: 0 <= k < i ==> s[k] in cs)
    && (forall k :: i + |r| <= k < |s| ==> s[k] in cs)
  }

  lemma StripCut(s: string, cs: set<char>, t: string, r: string)
    requires t == TrimStart(s, cs) && r == TrimEnd(t, cs)
    ensures CutAt(s, cs, |s| - |t|, r)
  {
    var i := |s| - |t|;
    assert t == s[i..];
    assert r == t[..|r|];
    assert r == s[i..i + |r|];
    assert forall k :: 0 <= k < i ==> s[k] in cs;
    forall k | i + |r| <= k < |s|
      ensures s[k] in cs
    {
      assert s[k] == t[k - i];
    }
  }

  /** Stripping leaves nothing exactly when every character is in the set. */
  lemma StripCharsEmpty(s: string, cs: set<char>)
    ensures StripChars(s, cs) == [] <==> forall k :: 0 <= k < |s| ==> s[k] in cs
  {
    var t := TrimStart(s, cs);
    var r := TrimEnd(t, cs);
    if r == [] {
      // Everything of `t` would be cut, yet `t` cannot start with `cs`.
      assert t == [];
    } else {
      assert r[0] == t[0] == s[|s| - |t|];
    }
  }

  /** Python's `s.strip()`: no whitespace is left at either end, and the
      result is empty exactly for a blank string. */
  function Strip(s: string): (r: string)
    ensures r != [] ==> r[0] !in Whitespace && r[|r| - 1] !in Whitespace
    ensures r == [] <==> forall k :: 0 <= k < |s| ==> s[k] in Whitespace
  {
    StripCharsEmpty(s, Whitespace);
    StripChars(s, Whitespace)
  }

  predicate IsUpperLetter(c: char) { 'A' <= c <= 'Z' }

  predicate IsLowerLetter(c: char) { 'a' <= c <= 'z' }

  /** Every character is a capital letter. */
  predicate AllCapitals(s: string)
  {
    forall k :: 0 <= k < |s| ==> IsUpperLetter(s[k])
  }

  /** A non-empty word of ASCII letters in any case. */
  predicate LetterWord(s: string)
  {
    s != [] && forall k :: 0 <= k < |s| ==> IsUpperLetter(s[k]) || IsLowerLetter(s[k])
  }

  function LowerChar(c: char): char
  {
    if IsUpperLetter(c) then (c as int + 32) as char else c
  }

  function UpperChar(c: char): char
  {
    if IsLowerLetter(c) then (c as int - 32) as char else c
  }

  /** Python's `s.lower()` over ASCII: every capital becomes a small
      letter, every other character stays; no capital is left. */
  function Lower(s: string): (r: string)
    ensures |r| == |s|
    ensures forall k :: 0 <= k < |r| ==> !IsUpperLetter(r[k])
  {
    seq(|s|, i requires 0 <= i < |s| => LowerChar(s[i]))
  }

  /** Python's `s.upper()` over ASCII: every small letter becomes a
      capital, every other character stays; no small letter is left. */
  function Upper(s: string): (r: string)
    ensures |r| == |s|
    ensures forall k :: 0 <= k < |r| ==> !IsLowerLetter(r[k])
  {
    seq(|s|, i requires 0 <= i < |s| => UpperChar(s[i]))
  }

  /** Python's `sub in s` on strings. */
  predicate Contains(s: string, sub: string)
  {
    exists i :: 0 <= i <= |s| - |sub| && OccursAt(s, sub, i)
  }

  /** `sub` occurs in `s` starting at position `i`. */
  predicate OccursAt(s: string, sub: string, i: int)
  {
    0 <= i <= |s| - |sub| && s[i..i + |sub|] == sub
  }

  /** Python's `s.endswith(suffix)`. */
  predicate EndsWith(s: string, suffix: string)
  {
    |suffix| <= |s| && s[|s| - |suffix|..] == suffix
  }

  /** Lower-casing works character by character, so it distributes over
      concatenation. */
  lemma LowerOfConcat(a: string, b: string)
    ensures Lower(a + b) == Lower(a) + Lower(b)
  {
    assert forall i :: 0 <= i < |a + b| ==>
      Lower(a + b)[i] == (Lower(a) + Lower(b))[i];
  }

  /** Lower-casing commutes with taking a suffix. */
  lemma LowerOfSuffix(s: string, n: nat)
    requires n <= |s|
    ensures Lower(s)[|s| - n..] == Lower(s[|s| - n..])
  {
  }

  /** Python's `s.endswith(suffixes)` for a tuple of suffixes: any of them. */
  /** A suffix of a string, lower-cased, is a suffix of the lower-cased
      string. */
  lemma LowerOfEndsWith(s: string, suffix: string)
    requires EndsWith(s, suffix)
    ensures EndsWith(Lower(s), Lower(suffix))
  {
    LowerOfSuffix(s, |suffix|);
  }

  predicate EndsWithAny(s: string, suffixes: seq<string>)
  {
    suffixes != [] && (EndsWith(s, suffixes[0]) || EndsWithAny(s, suffixes[1..]))
  }

  lemma EndsWithAnyOfTwo(s: string, a: string, b: string)
    ensures EndsWithAny(s, [a, b]) <==> EndsWith(s, a) || EndsWith(s, b)
  {
    assert [a, b][1..] == [b] && [b][1..] == [];
    assert !EndsWithAny(s, []);
    assert EndsWithAny(s, [b]) <==> EndsWith(s, b);
  }

  /** A string that strip leaves alone: it neither starts nor ends with a
      character of `cs`. */
  lemma StripCharsOfStripped(s: string, cs: set<char>)
    requires s != [] ==> s[0] !in cs && s[|s| - 1] !in cs
    ensures StripChars(s, cs) == s
  {
    var r := StripChars(s, cs);
    StripCharsCut(s, cs);
    var i :| CutAt(s, cs, i, r);
  }

  /** Stripping `cs` from `p` wrapped in characters of `cs` gives `p` back,
      when `p` itself neither starts nor ends with one of them. */
  lemma StripCharsOfWrapped(a: string, p: string, b: string, cs: set<char>)
    requires forall k :: 0 <= k < |a| ==> a[k] in cs
    requires forall k :: 0 <= k < |b| ==> b[k] in cs
    requires p != [] && p[0] !in cs && p[|p| - 1] !in cs
    ensures StripChars(a + p + b, cs) == p
  {
    var s := a + p + b;
    var r := StripChars(s, cs);
    StripCharsCut(s, cs);
    var i :| CutAt(s, cs, i, r);
    assert s[|a|] == p[0] && s[|a| + |p| - 1] == p[|p| - 1];
    assert i <= |a| && |a| + |p| <= i + |r|;
    assert s[i] == r[0] && s[i + |r| - 1] == r[|r| - 1];
    assert i == |a|;
    assert i + |r| == |a| + |p|;
    assert s[|a|..|a| + |p|] == p;
  }

  /** Stripping twice is stripping once. */
  lemma StripIdempotent(s: string)
    ensures Strip(Strip(s)) == Strip(s)
  {
    StripCharsOfStripped(Strip(s), Whitespace);
  }

  lemma LowerIdempotent(s: string)
    ensures Lower(Lower(s)) == Lower(s)
  {
  }

  /** Lower-casing leaves a string without upper-case letters alone. */
  lemma LowerOfNoUpper(s: string)
    requires forall k :: 0 <= k < |s| ==> !IsUpperLetter(s[k])
    ensures Lower(s) == s
  {
  }

  /** Lower-casing keeps a string stripped, because no letter is whitespace. */
  lemma LowerKeepsStripped(s: string)
    requires s != [] ==> s[0] !in Whitespace && s[|s| - 1] !in Whitespace
    ensures Strip(Lower(s)) == Lower(s)
  {
    StripCharsOfStripped(Lower(s), Whitespace);
  }

  /** Lower-casing turns no other character into a '.'. */
  lemma LowerKeepsNoDot(s: string)
    requires '.' !in Lower(s)
    ensures '.' !in s
  {
    forall k | 0 <= k < |s|
      ensures s[k] != '.'
    {
      assert Lower(s)[k] == LowerChar(s[k]);
    }
  }

  /** Upper-casing a word of letters leaves only capitals. */
  lemma UpperOfLetterWord(s: string)
    ensures LetterWord(s) ==> AllCapitals(Upper(s))
  {
    forall k | 0 <= k < |s|
      ensures Upper(s)[k] == UpperChar(s[k])
    {
    }
  }

  /** The shape of a stripped, lower-cased string: no whitespace at either
      end and no capital anywhere. */
  predicate Normalised(k: string)
  {
    && (k != [] ==> k[0] !in Whitespace && k[|k| - 1] !in Whitespace)
    && forall i :: 0 <= i < |k| ==> !IsUpperLetter(k[i])
  }

  /** A stripped string, lower-cased, is normalised. */
  lemma LowerOfStrippedShape(s: string)
    ensures Normalised(Lower(Strip(s)))
  {
    LowerOfTrimmedShape(Strip(s));
  }

  /** A string with no whitespace at either end, lower-cased, is
      normalised. */
  lemma LowerOfTrimmedShape(t: string)
    requires t != [] ==> t[0] !in Whitespace && t[|t| - 1] !in Whitespace
    ensures Normalised(Lower(t))
  {
    if t != [] {
      LowerKeepsNonSpaceAt(t, 0);
      LowerKeepsNonSpaceAt(t, |t| - 1);
    }
  }

  /** Lower-casing leaves a non-whitespace character non-whitespace. */
  lemma LowerKeepsNonSpaceAt(t: string, j: int)
    requires 0 <= j < |t| && t[j] !in Whitespace
    ensures Lower(t)[j] !in Whitespace
  {
    LowerCharKeepsNonSpace(t[j]);
  }

  /** A capital becomes a small letter, never whitespace. */
  lemma LowerCharKeepsNonSpace(c: char)
    requires c !in Whitespace
    ensures LowerChar(c) !in Whitespace
  {
    if IsUpperLetter(c) {
      assert 'a' <= LowerChar(c) <= 'z';
    }
  }

  // ---------------------------------------------------------------------
  // Decimal digits: Python's str(n) and int(s)
  // ---------------------------------------------------------------------

  predicate IsDigit(c: char) { '0' <= c <= '9' }

  function DigitValue(c: char): nat
    requires IsDigit(c)
  {
    c as int - '0' as int
  }

  function DigitChar(d: nat): (c: char)
    requires d < 10
    ensures IsDigit(c) && DigitValue(c) == d
  {
    ('0' as int + d) as char
  }

  /** Python's `str(n)` for a non-negative integer: decimal digits, no
      leading zero. */
  function NatToString(n: nat): (r: string)
    ensures r != [] && forall k :: 0 <= k < |r| ==> IsDigit(r[k])
    ensures |r| > 1 ==> r[0] != '0'
  {
    if n < 10 then [DigitChar(n)] else NatToString(n / 10) + [DigitChar(n % 10)]
  }

  /** Python's `str(i)` for any integer. */
  function IntToString(i: int): string
  {
    if i < 0 then "-" + NatToString(-i) else NatToString(i)
  }

  /** The value of a run of digits in which `_` separators are skipped. */
  function DigitsValue(s: string): nat
  {
    if s == [] then 0
    else if IsDigit(s[|s| - 1]) then DigitsValue(s[..|s| - 1]) * 10 + DigitValue(s[|s| - 1])
    else DigitsValue(s[..|s| - 1])
  }

  /** Appending a digit shifts the value one decimal place. */
  lemma DigitsValueSnoc(a: string, c: char)
    requires IsDigit(c)
    ensures DigitsValue(a + [c]) == DigitsValue(a) * 10 + DigitValue(c)
  {
    assert (a + [c])[..|a|] == a;
  }

  /** The digit part Python's `int()` accepts in base 10: digits, with single
      underscores allowed only between two digits. */
  predicate IsDigitBody(b: string)
  {
    && b != []
    && IsDigit(b[0]) && IsDigit(b[|b| - 1])
    && (forall k :: 0 <= k < |b| ==> IsDigit(b[k]) || b[k] == '_')
    && (forall k :: 0 <= k < |b| - 1 ==> IsDigit(b[k]) || IsDigit(b[k + 1]))
  }

  /** Python's `int(s)` for a string argument: surrounding whitespace is
      ignored, an optional sign, then a digit body; anything else raises
      ValueError, modelled as None. */
  function ParseInt(s: string): (r: Option<int>)
    ensures r.Some? ==> IntShaped(Strip(s)) && (r.value < 0 ==> Strip(s)[0] == '-')
  {
    ParseSigned(Strip(s))
  }

  /** The shape of every string `int` accepts once stripped: a digit last,
      and before it only digits and `_`, save a leading sign. */
  predicate IntShaped(t: string)
  {
    && t != [] && IsDigit(t[|t| - 1])
    && forall k :: 0 <= k < |t| ==> IsDigit(t[k]) || t[k] == '_' || (k == 0 && t[k] in {'-', '+'})
  }

  /** An optional sign followed by a digit body, with nothing around it. */
  function ParseSigned(t: string): (r: Option<int>)
    ensures r.Some? ==> IntShaped(t) && (r.value < 0 ==> t[0] == '-')
  {
    if t != [] && (t[0] == '-' || t[0] == '+') then
      if IsDigitBody(t[1..]) then
        var v: int := DigitsValue(t[1..]);
        Some(if t[0] == '-' then -v else v)
      else None
    else if IsDigitBody(t) then Some(DigitsValue(t))
    else None
  }

  lemma {:induction false} DigitsValueOfNatToString(n: nat)
    ensures DigitsValue(NatToString(n)) == n
  {
    var r := NatToString(n);
    if n >= 10 {
      DigitsValueOfNatToString(n / 10);
      assert r[..|r| - 1] == NatToString(n / 10);
    }
  }

  /** `int(str(i)) == i`: parsing what Python prints gives the integer back. */
  lemma ParseIntOfIntToString(i: int)
    ensures ParseInt(IntToString(i)) == Some(i)
  {
    if i >= 0 {
      ParseIntOfDigits(NatToString(i));
      DigitsValueOfNatToString(i);
    } else {
      ParseIntOfNegativeInt(i);
    }
  }

  lemma ParseIntOfNegativeInt(i: int)
    requires i < 0
    ensures ParseInt(IntToString(i)) == Some(i)
  {
    var s := IntToString(i);
    NegativeIntToString(i);
    DigitsValueOfNatToString(-i);
    assert DigitsValue(s[1..]) == -i;
    ParseIntOfMinusDigits(s);
  }

  /** `str(i)` of a negative integer is '-' and then the digits of `-i`. */
  lemma NegativeIntToString(i: int)
    requires i < 0
    ensures var s := IntToString(i);
      && |s| >= 2 && s[0] == '-' && s[1..] == NatToString(-i)
      && forall k :: 1 <= k < |s| ==> IsDigit(s[k])
  {
    var d := NatToString(-i);
    var s := "-" + d;
    assert s[1..] == d;
    assert forall k :: 1 <= k < |s| ==> s[k] == d[k - 1];
  }

  /** A '-' followed by one digit or more is always parsed as minus that
      number. */
  lemma ParseIntOfMinusDigits(s: string)
    requires |s| >= 2 && s[0] == '-' && forall k :: 1 <= k < |s| ==> IsDigit(s[k])
    ensures ParseInt(s) == Some(-(DigitsValue(s[1..]) as int))
  {
    StripCharsOfStripped(s, Whitespace);
    assert IsDigitBody(s[1..]);
  }

  /** A string of one digit or more is always parsed as that number. */
  lemma ParseIntOfDigits(s: string)
    requires s != [] && forall k :: 0 <= k < |s| ==> IsDigit(s[k])
    ensures ParseInt(s) == Some(DigitsValue(s) as int)
  {
    StripOfDigits(s);
    ParseSignedOfDigits(s);
  }

  lemma StripOfDigits(s: string)
    requires s != [] && forall k :: 0 <= k < |s| ==> IsDigit(s[k])
    ensures Strip(s) == s
  {
    assert s[0] !in Whitespace && s[|s| - 1] !in Whitespace;
    StripCharsOfStripped(s, Whitespace);
  }

  lemma ParseSignedOfDigits(s: string)
    requires s != [] && forall k :: 0 <= k < |s| ==> IsDigit(s[k])
    ensures ParseSigned(s) == Some(DigitsValue(s) as int)
  {
    assert IsDigitBody(s);
  }
}

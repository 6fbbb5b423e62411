/** The string operations the reconciliation scripts rely on, with Python's
    meaning: `str.lower` (ASCII case folding), `in` on strings, `str.split`
    with one separator and its inverse `str.join`, `str.strip`, and decimal
    numerals as written by an f-string and read back by `int`. */
module Text {

  type String = seq<char>

  // ---------------------------------------------------------------------
  // Characters

  predicate IsUpper(c: char) { 'A' <= c <= 'Z' }

  predicate IsDigit(c: char) { '0' <= c <= '9' }

  /** The regular-expression word class `\w`, ASCII part. */
  predicate IsWordChar(c: char) { IsDigit(c) || 'a' <= c <= 'z' || IsUpper(c) || c == '_' }

  /** `str.isspace` and the regular-expression class `\s`, ASCII part: tab,
      line feed, vertical tab, form feed, carriage return, the separators
      0x1C-0x1F and the space. */
  predicate IsSpace(c: char) { 9 <= c as int <= 13 || 28 <= c as int <= 32 }

  predicate AllSpace(s: String) { forall k :: 0 <= k < |s| ==> IsSpace(s[k]) }

  function LowerChar(c: char): char
  {
    if IsUpper(c) then (c as int + 32) as char else c
  }

  function Lower(s: String): (r: String)
    ensures |r| == |s|
    ensures forall k :: 0 <= k < |s| ==> r[k] == LowerChar(s[k])
  {
    seq(|s|, k requires 0 <= k < |s| => LowerChar(s[k]))
  }

  /** Folding leaves no upper-case letter behind, so folding twice is
      folding once. */
  lemma LowerIdempotent(s: String)
    ensures Lower(Lower(s)) == Lower(s)
    ensures forall k :: 0 <= k < |s| ==> !IsUpper(Lower(s)[k])
  {
  }

  lemma LowerAppend(a: String, b: String)
    ensures Lower(a + b) == Lower(a) + Lower(b)
  {
    assert forall k :: 0 <= k < |a + b| ==> Lower(a + b)[k] == (Lower(a) + Lower(b))[k];
  }

  // ---------------------------------------------------------------------
  // Substrings

  /** `needle` occurs in `hay` starting at index `i`. */
  predicate OccursAt(hay: String, needle: String, i: int)
  {
    0 <= i && i + |needle| <= |hay| && hay[i..i + |needle|] == needle
  }

  /** Python's `needle in hay`. */
  function Contains(hay: String, needle: String): (r: bool)
    ensures r <==> exists i :: OccursAt(hay, needle, i)
    decreases |hay|
  {
    if |needle| <= |hay| && hay[..|needle|] == needle then
      assert OccursAt(hay, needle, 0);
      true
    else if |hay| == 0 then
      false
    else
      ShiftOccurrence(hay, needle);
      Contains(hay[1..], needle)
  }

  lemma ShiftOccurrence(hay: String, needle: String)
    requires |hay| > 0 && !OccursAt(hay, needle, 0)
    ensures (exists i :: OccursAt(hay, needle, i)) <==> (exists i :: OccursAt(hay[1..], needle, i))
  {
    if i :| OccursAt(hay, needle, i) {
      assert hay[1..][i - 1..i - 1 + |needle|] == hay[i..i + |needle|];
      assert OccursAt(hay[1..], needle, i - 1);
    }
    if i :| OccursAt(hay[1..], needle, i) {
      assert hay[1..][i..i + |needle|] == hay[i + 1..i + 1 + |needle|];
      assert OccursAt(hay, needle, i + 1);
    }
  }

  /** An occurrence stays an occurrence when text is added on either side. */
  lemma ContainsWithin(a: String, b: String, c: String, needle: String)
    requires Contains(b, needle)
    ensures Contains(a + b + c, needle)
  {
    var i :| OccursAt(b, needle, i);
    assert (a + b + c)[|a| + i..|a| + i + |needle|] == b[i..i + |needle|];
    assert OccursAt(a + b + c, needle, |a| + i);
  }

  // ---------------------------------------------------------------------
  // Splitting and joining on one separator

  /** Python's `sep.join(parts)`. */
  function Join(parts: seq<String>, sep: char): String
  {
    if |parts| == 0 then []
    else if |parts| == 1 then parts[0]
    else parts[0] + [sep] + Join(parts[1..], sep)
  }

  /** Python's `s.split(sep)` for a one-character separator: the pieces
      between separators, always at least one. */
  function Split(s: String, sep: char): (parts: seq<String>)
    ensures |parts| >= 1
    ensures forall k :: 0 <= k < |parts| ==> sep !in parts[k]
    ensures Join(parts, sep) == s
    decreases |s|
  {
    if |s| == 0 then [[]]
    else
      var rest := Split(s[1..], sep);
      if s[0] == sep then
        assert ([[]] + rest)[1..] == rest;
        assert s == [sep] + s[1..];
        [[]] + rest
      else
        var parts := [[s[0]] + rest[0]] + rest[1..];
        assert parts[1..] == rest[1..];
        assert s == [s[0]] + s[1..];
        parts
  }

  function Last<T>(xs: seq<T>): T
    requires |xs| > 0
  {
    xs[|xs| - 1]
  }

  lemma SplitWithoutSeparator(s: String, sep: char)
    requires sep !in s
    ensures Split(s, sep) == [s]
  {
  }

  lemma SplitHasSeparator(s: String, sep: char)
    requires sep in s
    ensures |Split(s, sep)| >= 2
  {
  }

  /** A first piece free of the separator is split off unchanged. */
  lemma {:induction false} SplitFirst(a: String, b: String, sep: char)
    requires sep !in a
    ensures Split(a + [sep] + b, sep) == [a] + Split(b, sep)
    decreases |a|
  {
    var s := a + [sep] + b;
    if |a| == 0 {
      assert s[1..] == b;
    } else {
      assert s[1..] == a[1..] + [sep] + b;
      SplitFirst(a[1..], b, sep);
      assert a == [a[0]] + a[1..];
    }
  }

  /** One separator between two texts splits them apart: the pieces are
      those of the first text followed by those of the second. */
  lemma {:induction false} SplitAround(a: String, b: String, sep: char)
    ensures Split(a + [sep] + b, sep) == Split(a, sep) + Split(b, sep)
    decreases |a|
  {
    if |a| == 0 {
      SplitCons(sep, b, sep);
      assert a + [sep] + b == [sep] + b;
    } else {
      var t := a[1..] + [sep] + b;
      assert a + [sep] + b == [a[0]] + t;
      assert a == [a[0]] + a[1..];
      SplitCons(a[0], t, sep);
      SplitCons(a[0], a[1..], sep);
      SplitAround(a[1..], b, sep);
      PiecesCons(a[0], sep, Split(a[1..], sep), Split(b, sep));
    }
  }

  /** The list algebra behind `SplitAround`'s step. */
  lemma PiecesCons(c: char, sep: char, ra: seq<String>, rb: seq<String>)
    requires |ra| >= 1
    ensures c == sep ==> [[]] + (ra + rb) == ([[]] + ra) + rb
    ensures c != sep ==> [[c] + (ra + rb)[0]] + (ra + rb)[1..] == ([[c] + ra[0]] + ra[1..]) + rb
  {
    assert (ra + rb)[1..] == ra[1..] + rb;
  }

  /** Splitting a text that starts with `c`. */
  lemma SplitCons(c: char, t: String, sep: char)
    ensures Split([c] + t, sep) ==
      if c == sep then [[]] + Split(t, sep) else [[c] + Split(t, sep)[0]] + Split(t, sep)[1..]
  {
    assert ([c] + t)[1..] == t;
  }

  /** Splitting undoes joining when no piece holds the separator. */
  lemma {:induction false} SplitJoin(parts: seq<String>, sep: char)
    requires |parts| >= 1
    requires forall k :: 0 <= k < |parts| ==> sep !in parts[k]
    ensures Split(Join(parts, sep), sep) == parts
    decreases |parts|
  {
    if |parts| == 1 {
      SplitWithoutSeparator(parts[0], sep);
    } else {
      SplitJoin(parts[1..], sep);
      SplitFirst(parts[0], Join(parts[1..], sep), sep);
      assert parts == [parts[0]] + parts[1..];
    }
  }

  /** The last piece is what follows the last separator. */
  lemma {:induction false} LastPieceAfterSeparator(a: String, b: String, sep: char)
    requires sep !in b
    ensures Last(Split(a + [sep] + b, sep)) == b
    decreases |a|
  {
    var s := a + [sep] + b;
    if |a| == 0 {
      assert s[0] == sep && s[1..] == b;
      SplitWithoutSeparator(b, sep);
      LastOfTail(s, sep);
    } else {
      assert s[1..] == a[1..] + [sep] + b;
      LastPieceAfterSeparator(a[1..], b, sep);
      assert s[1..][|a| - 1] == sep;
      SplitHasSeparator(s[1..], sep);
      LastOfTail(s, sep);
    }
  }

  /** Dropping the first character keeps the last piece, unless that
      character was all the last piece had. */
  lemma LastOfTail(s: String, sep: char)
    requires |s| > 0 && (s[0] == sep || |Split(s[1..], sep)| >= 2)
    ensures Last(Split(s, sep)) == Last(Split(s[1..], sep))
  {
  }

  /** Folding case maps line breaks to line breaks and nothing else to
      them, so folding then splitting is splitting then folding each line. */
  lemma {:induction false} SplitLower(s: String, sep: char)
    requires !IsUpper(sep)
    requires forall c :: LowerChar(c) == sep ==> c == sep
    ensures |Split(Lower(s), sep)| == |Split(s, sep)|
    ensures forall k :: 0 <= k < |Split(s, sep)| ==> Split(Lower(s), sep)[k] == Lower(Split(s, sep)[k])
    decreases |s|
  {
    if |s| > 0 {
      assert Lower(s)[1..] == Lower(s[1..]);
      SplitLower(s[1..], sep);
      if s[0] != sep {
        assert Lower([s[0]] + Split(s[1..], sep)[0]) == [LowerChar(s[0])] + Lower(Split(s[1..], sep)[0]);
      }
    }
  }

  // ---------------------------------------------------------------------
  // Stripping whitespace

  /** The first index at or after `i` that does not hold whitespace. */
  function SkipSpaces(s: String, i: nat): (j: nat)
    requires i <= |s|
    ensures i <= j <= |s|
    ensures forall k :: i <= k < j ==> IsSpace(s[k])
    ensures j < |s| ==> !IsSpace(s[j])
    decreases |s| - i
  {
    if i < |s| && IsSpace(s[i]) then SkipSpaces(s, i + 1) else i
  }

  /** The end of `s[lo..hi]` once trailing whitespace is dropped. */
  function TrimEnd(s: String, lo: nat, hi: nat): (h: nat)
    requires lo <= hi <= |s|
    ensures lo <= h <= hi
    ensures forall k :: h <= k < hi ==> IsSpace(s[k])
    ensures h > lo ==> !IsSpace(s[h - 1])
    decreases hi
  {
    if hi > lo && IsSpace(s[hi - 1]) then TrimEnd(s, lo, hi - 1) else hi
  }

  /** Python's `s.strip()`. */
  function Strip(s: String): String
  {
    var lo := SkipSpaces(s, 0);
    s[lo..TrimEnd(s, lo, |s|)]
  }

  /** `not s.strip()`: the text is empty or whitespace only. */
  predicate IsBlank(s: String) { AllSpace(s) }

  /** Strip removes exactly the surrounding whitespace: what it returns is
      a slice of the input with only whitespace on either side, and it
      neither starts nor ends with whitespace. */
  lemma StripMeaning(s: String)
    ensures var r := Strip(s);
      && (|r| > 0 ==> !IsSpace(r[0]) && !IsSpace(r[|r| - 1]))
      && (exists lo :: 0 <= lo && lo + |r| <= |s| && s[lo..lo + |r|] == r
           && AllSpace(s[..lo]) && AllSpace(s[lo + |r|..]))
    ensures Strip(s) == [] <==> IsBlank(s)
  {
    var lo := SkipSpaces(s, 0);
    var hi := TrimEnd(s, lo, |s|);
    assert s[lo..lo + |Strip(s)|] == Strip(s);
    assert AllSpace(s[..lo]);
    assert AllSpace(s[lo + |Strip(s)|..]);
    if lo < |s| {
      assert !IsSpace(s[lo]);
      assert hi > lo;
    }
  }

  /** Stripping a value padded with whitespace gives the value back. */
  lemma StripPadded(pad: String, v: String, tail: String)
    requires AllSpace(pad) && AllSpace(tail)
    requires |v| > 0 ==> !IsSpace(v[0]) && !IsSpace(v[|v| - 1])
    ensures Strip(pad + v + tail) == v
  {
    var s := pad + v + tail;
    var lo := SkipSpaces(s, 0);
    if |v| > 0 {
      assert !IsSpace(s[|pad|]);
      assert lo == |pad|;
      var hi := TrimEnd(s, lo, |s|);
      assert !IsSpace(s[|pad| + |v| - 1]);
      assert hi == |pad| + |v|;
      assert s[lo..hi] == v;
    } else {
      assert lo == |s|;
    }
  }

  /** Stripping never brings in a character the input did not hold. */
  lemma StripSubset(s: String, c: char)
    requires c !in s
    ensures c !in Strip(s)
  {
  }

  // ---------------------------------------------------------------------
  // Decimal numerals

  function DigitChar(d: nat): char
    requires d < 10
  {
    ('0' as int + d) as char
  }

  /** `str(n)` for a non-negative integer: no sign, no leading zeros. */
  function Decimal(n: nat): (r: String)
    ensures |r| >= 1
    ensures forall k :: 0 <= k < |r| ==> IsDigit(r[k])
    ensures |r| > 1 ==> r[0] != '0'
  {
    if n < 10 then [DigitChar(n)] else Decimal(n / 10) + [DigitChar(n % 10)]
  }

  predicate AllDigits(s: String) { forall k :: 0 <= k < |s| ==> IsDigit(s[k]) }

  /** `int(s)` for a string of ASCII digits; leading zeros are allowed. */
  function DigitsValue(s: String): nat
    requires AllDigits(s)
  {
    if |s| == 0 then 0
    else DigitsValue(s[..|s| - 1]) * 10 + (s[|s| - 1] as int - '0' as int)
  }

  /** Reading back what `Decimal` wrote gives the number. */
  lemma {:induction false} DecimalRoundTrip(n: nat)
    ensures DigitsValue(Decimal(n)) == n
  {
    if n >= 10 {
      DecimalRoundTrip(n / 10);
      var r := Decimal(n);
      assert r[..|r| - 1] == Decimal(n / 10);
    }
  }

  /** Appending a digit to a positive numeral multiplies by ten and adds
      it: so the numeral of `n` is a prefix of the numeral of `10n + d`. */
  lemma DecimalAppendDigit(n: nat, d: nat)
    requires 1 <= n && d < 10
    ensures Decimal(10 * n + d) == Decimal(n) + [DigitChar(d)]
  {
    assert (10 * n + d) / 10 == n;
    assert (10 * n + d) % 10 == d;
  }
}

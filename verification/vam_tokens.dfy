/** The `VAM-<digits>` invoice tokens found in filenames and identifiers.
    Both scripts use a case-sensitive regular expression:
    `VAM-(\d+)(?:-(\d+))?` in the parallel script (a range token such as
    `VAM-100-102`) and `VAM-(\d+)` in the legacy script. A match of either
    starts where the literal `VAM-` is followed by a digit, and its first
    group is the longest run of digits there. */
module VamTokens {
  import opened Wrappers
  import opened Text

  /** An inclusive range of invoice numbers, `range(lo, hi + 1)` in the
      source; it is empty when `lo > hi`. */
  datatype Range = Range(lo: nat, hi: nat)

  /** A match of `VAM-\d` starts at index `i`. */
  predicate VamAt(s: String, i: int)
  {
    0 <= i && i + 5 <= |s| && s[i..i + 4] == "VAM-" && IsDigit(s[i + 4])
  }

  /** The end of the run of digits starting at `i` (greedy `\d+`). */
  function DigitsEnd(s: String, i: nat): (j: nat)
    requires i <= |s|
    ensures i <= j <= |s|
    ensures forall k :: i <= k < j ==> IsDigit(s[k])
    ensures j < |s| ==> !IsDigit(s[j])
    decreases |s| - i
  {
    if i < |s| && IsDigit(s[i]) then DigitsEnd(s, i + 1) else i
  }

  /** The leftmost match at or after `from`, as the regular-expression
      search finds it. */
  function FindVam(s: String, from: nat): (r: Option<nat>)
    ensures r.Some? ==> from <= r.value && VamAt(s, r.value)
    ensures r.Some? ==> forall j :: from <= j < r.value ==> !VamAt(s, j)
    ensures r.None? ==> forall j :: from <= j ==> !VamAt(s, j)
    decreases |s| - from
  {
    if from + 5 > |s| then None
    else if VamAt(s, from) then Some(from)
    else FindVam(s, from + 1)
  }

  /** `i` is where the search from `from` stops: a match starts there and
      none starts between `from` and `i`. */
  predicate LeftmostVam(s: String, from: nat, i: nat)
  {
    from <= i && VamAt(s, i) && forall j :: from <= j < i ==> !VamAt(s, j)
  }

  /** The search finds exactly the leftmost match. */
  lemma FindVamLeftmost(s: String, from: nat, i: nat)
    requires LeftmostVam(s, from, i)
    ensures FindVam(s, from) == Some(i)
  {
  }

  /** The digits of the run that starts at `i`, as a `(\d+)` group reports
      them. */
  function DigitRun(s: String, i: nat): (r: String)
    requires i <= |s|
    ensures AllDigits(r) && |r| == DigitsEnd(s, i) - i
  {
    s[i..DigitsEnd(s, i)]
  }

  lemma FindVamHere(s: String, i: nat)
    requires VamAt(s, i)
    ensures FindVam(s, i) == Some(i)
  {
  }

  lemma FindVamSkip(s: String, i: nat)
    requires i + 5 <= |s| && !VamAt(s, i)
    ensures FindVam(s, i) == FindVam(s, i + 1)
  {
  }

  /** The groups of a match of `VAM-(\d+)(?:-(\d+))?`: `second` is empty
      when the optional part did not take part, as `re.findall` reports it. */
  datatype RangeToken = RangeToken(start: nat, first: String, second: String)

  /** `re.findall(r"VAM-(\d+)(?:-(\d+))?", s)[0]`, or None when the list is
      empty. */
  function FirstRangeToken(s: String): (r: Option<RangeToken>)
    ensures r.Some? ==> |r.value.first| > 0 && AllDigits(r.value.first) && AllDigits(r.value.second)
  {
    match FindVam(s, 0)
    case None => None
    case Some(i) => Some(TokenAt(s, i))
  }

  /** `findall` reports a first match exactly when the text has one; its
      groups are the digit runs of the leftmost token, the second empty
      unless `-<digit>` follows the first. */
  lemma FirstRangeTokenMeaning(s: String)
    ensures FirstRangeToken(s).None? <==> forall j :: 0 <= j ==> !VamAt(s, j)
    ensures FirstRangeToken(s).Some? ==> var t := FirstRangeToken(s).value;
      && LeftmostVam(s, 0, t.start) && t.first == DigitRun(s, t.start + 4)
      && (HasSecondNumber(s, t.start) ==> t.second == DigitRun(s, DigitsEnd(s, t.start + 4) + 1))
      && (!HasSecondNumber(s, t.start) ==> t.second == [])
  {
  }

  /** The groups of the match that starts at `i`. */
  function TokenAt(s: String, i: nat): RangeToken
    requires VamAt(s, i)
  {
    var e := DigitsEnd(s, i + 4);
    var second := if e + 1 < |s| && s[e] == '-' && IsDigit(s[e + 1]) then s[e + 1..DigitsEnd(s, e + 1)] else [];
    RangeToken(i, s[i + 4..e], second)
  }

  /** The range a filename encodes (pdfpl.py:20-27): only the first token
      counts, and only when it has its second number. */
  function ParseRange(name: String): Option<Range>
  {
    match FirstRangeToken(name)
    case None => None
    case Some(t) =>
      if |t.second| > 0 then Some(Range(DigitsValue(t.first), DigitsValue(t.second))) else None
  }

  /** A range is found exactly when the first `VAM-` token of the name has
      a `-<digits>` tail; the bounds are those two digit runs read as
      numbers. */
  lemma ParseRangeMeaning(name: String)
    ensures ParseRange(name).Some? <==>
      exists i :: VamAt(name, i) && (forall j :: 0 <= j < i ==> !VamAt(name, j)) && HasSecondNumber(name, i)
  {
    match FindVam(name, 0)
    case None =>
    case Some(i) =>
      forall i' | VamAt(name, i') && (forall j :: 0 <= j < i' ==> !VamAt(name, j))
        ensures i' == i
      {
      }
  }

  /** The bounds are the two digit runs of the leftmost token, read as
      numbers; leading zeros are allowed, so `VAM-007-009` gives [7, 9]. */
  lemma ParseRangeBounds(name: String, i: nat)
    requires LeftmostVam(name, 0, i) && HasSecondNumber(name, i)
    ensures var e := DigitsEnd(name, i + 4);
      ParseRange(name) == Some(Range(DigitsValue(DigitRun(name, i + 4)), DigitsValue(DigitRun(name, e + 1))))
  {
    FindVamLeftmost(name, 0, i);
    var t := TokenAt(name, i);
    assert FirstRangeToken(name) == Some(t);
    assert t.second == DigitRun(name, DigitsEnd(name, i + 4) + 1);
  }

  /** After the digits of the token at `i` come a hyphen and another digit. */
  predicate HasSecondNumber(s: String, i: nat)
    requires i + 4 <= |s|
  {
    var e := DigitsEnd(s, i + 4);
    e + 1 < |s| && s[e] == '-' && IsDigit(s[e + 1])
  }

  /** No token can straddle the end of a token-free prefix followed by `VAM-`:
      its `V` is none of the letters a token needs after its first. */
  lemma NoTokenBefore(prefix: String, rest: String)
    requires FindVam(prefix, 0).None?
    requires |rest| >= 1 && rest[0] == 'V'
    ensures forall j :: 0 <= j < |prefix| ==> !VamAt(prefix + rest, j)
  {
    var s := prefix + rest;
    forall j | 0 <= j < |prefix|
      ensures !VamAt(s, j)
    {
      if j + 5 <= |prefix| {
        assert s[j..j + 5] == prefix[j..j + 5];
        assert !VamAt(prefix, j);
      } else if j + 5 <= |s| {
        var d := |prefix| - j;
        assert s[j + d] == 'V';
        if d < 4 {
          assert s[j..j + 4][d] == 'V';
          assert "VAM-"[d] != 'V';
        } else {
          assert !IsDigit(s[j + 4]);
        }
      }
    }
  }

  lemma DigitsEndAt(s: String, i: nat, j: nat)
    requires i <= j <= |s|
    requires forall k :: i <= k < j ==> IsDigit(s[k])
    requires j < |s| ==> !IsDigit(s[j])
    ensures DigitsEnd(s, i) == j
  {
  }

  /** A run of digits written between `x` and a non-digit is read back whole. */
  lemma DigitRunOf(x: String, a: String, y: String)
    requires AllDigits(a)
    requires |y| > 0 ==> !IsDigit(y[0])
    ensures DigitsEnd(x + a + y, |x|) == |x| + |a|
    ensures (x + a + y)[|x|..|x| + |a|] == a
  {
    var s := x + a + y;
    assert forall k :: |x| <= k < |x| + |a| ==> s[k] == a[k - |x|];
    if |y| > 0 {
      assert s[|x| + |a|] == y[0];
    }
    DigitsEndAt(s, |x|, |x| + |a|);
  }

  lemma DigitsEndShift(prefix: String, rest: String, k: nat)
    requires k <= |rest|
    ensures DigitsEnd(prefix + rest, |prefix| + k) == |prefix| + DigitsEnd(rest, k)
  {
    var s := prefix + rest;
    var e := DigitsEnd(rest, k);
    assert forall q :: |prefix| + k <= q < |prefix| + e ==> s[q] == rest[q - |prefix|];
    if e < |rest| {
      assert s[|prefix| + e] == rest[e];
    }
    DigitsEndAt(s, |prefix| + k, |prefix| + e);
  }

  /** A token-free prefix moves the first token but does not change its
      groups. */
  lemma TokenAfterPrefix(prefix: String, rest: String)
    requires FindVam(prefix, 0).None?
    requires VamAt(rest, 0)
    ensures FirstRangeToken(prefix + rest) == Some(TokenAt(rest, 0).(start := |prefix|))
  {
    FirstTokenAfterPrefix(prefix, rest);
    TokenShift(prefix, rest);
  }

  lemma FirstTokenAfterPrefix(prefix: String, rest: String)
    requires FindVam(prefix, 0).None?
    requires VamAt(rest, 0)
    ensures FindVam(prefix + rest, 0) == Some(|prefix|)
  {
    var s := prefix + rest;
    NoTokenBefore(prefix, rest);
    assert s[|prefix|..|prefix| + 5] == rest[0..5];
    assert VamAt(s, |prefix|);
  }

  lemma TokenShift(prefix: String, rest: String)
    requires VamAt(rest, 0)
    ensures VamAt(prefix + rest, |prefix|)
    ensures TokenAt(prefix + rest, |prefix|).first == TokenAt(rest, 0).first
    ensures TokenAt(prefix + rest, |prefix|).second == TokenAt(rest, 0).second
  {
    VamShift(prefix, rest);
    FirstGroupShift(prefix, rest);
    var e := DigitsEnd(rest, 4);
    if e + 1 < |rest| {
      SecondGroupShift(prefix, rest, e);
    }
  }

  lemma VamShift(prefix: String, rest: String)
    requires VamAt(rest, 0)
    ensures VamAt(prefix + rest, |prefix|)
  {
    var s := prefix + rest;
    assert s[|prefix|..|prefix| + 5] == rest[0..5];
    assert s[|prefix|..|prefix| + 4] == rest[0..4];
    assert s[|prefix| + 4] == rest[4];
  }

  lemma FirstGroupShift(prefix: String, rest: String)
    requires 4 <= |rest|
    ensures DigitsEnd(prefix + rest, |prefix| + 4) == |prefix| + DigitsEnd(rest, 4)
    ensures (prefix + rest)[|prefix| + 4..DigitsEnd(prefix + rest, |prefix| + 4)] == rest[4..DigitsEnd(rest, 4)]
  {
    var s := prefix + rest;
    DigitsEndShift(prefix, rest, 4);
    var e := DigitsEnd(rest, 4);
    assert s[|prefix| + 4..|prefix| + e] == rest[4..e];
  }

  lemma SecondGroupShift(prefix: String, rest: String, e: nat)
    requires e + 1 < |rest|
    ensures (prefix + rest)[|prefix| + e] == rest[e]
    ensures (prefix + rest)[|prefix| + e + 1] == rest[e + 1]
    ensures (prefix + rest)[|prefix| + e + 1..DigitsEnd(prefix + rest, |prefix| + e + 1)]
         == rest[e + 1..DigitsEnd(rest, e + 1)]
  {
    var s := prefix + rest;
    var i := |prefix|;
    DigitsEndShift(prefix, rest, e + 1);
    var f := DigitsEnd(rest, e + 1);
    assert s[i + e + 1..i + f] == rest[e + 1..f];
  }

  /** The groups of a token written as `VAM-<a>-<b>` followed by a non-digit. */
  lemma WrittenRangeToken(a: String, b: String, suffix: String)
    requires |a| > 0 && AllDigits(a) && |b| > 0 && AllDigits(b)
    requires |suffix| > 0 ==> !IsDigit(suffix[0])
    ensures VamAt("VAM-" + a + ("-" + b + suffix), 0)
    ensures TokenAt("VAM-" + a + ("-" + b + suffix), 0).first == a
    ensures TokenAt("VAM-" + a + ("-" + b + suffix), 0).second == b
  {
    var tail := "-" + b + suffix;
    var rest := "VAM-" + a + tail;
    DigitRunOf("VAM-", a, tail);
    var x := "VAM-" + a + "-";
    assert rest == x + b + suffix;
    DigitRunOf(x, b, suffix);
    assert rest[4 + |a|] == '-';
    assert rest[5 + |a|] == b[0];
  }

  /** Writing a range token into a name and parsing the name gives the
      range back, whatever precedes the token (as long as it holds no
      token of its own) and whatever follows it (as long as it does not
      continue the digits). */
  lemma {:induction false} ParseRangeRoundTrip(prefix: String, lo: nat, hi: nat, suffix: String)
    requires FindVam(prefix, 0).None?
    requires |suffix| > 0 ==> !IsDigit(suffix[0])
    ensures ParseRange(prefix + "VAM-" + Decimal(lo) + "-" + Decimal(hi) + suffix) == Some(Range(lo, hi))
  {
    var a := Decimal(lo);
    var b := Decimal(hi);
    var rest := "VAM-" + a + ("-" + b + suffix);
    assert prefix + rest == prefix + "VAM-" + a + "-" + b + suffix;
    WrittenRangeToken(a, b, suffix);
    TokenAfterPrefix(prefix, rest);
    DecimalRoundTrip(lo);
    DecimalRoundTrip(hi);
  }

  /** The name that is exactly a range token. */
  lemma ParseWrittenRange(lo: nat, hi: nat, name: String)
    requires name == "VAM-" + Decimal(lo) + "-" + Decimal(hi)
    ensures ParseRange(name) == Some(Range(lo, hi))
  {
    ParseRangeRoundTrip([], lo, hi, []);
    assert [] + "VAM-" + Decimal(lo) + "-" + Decimal(hi) + [] == name;
  }

  /** A single-number token is an identifier, not a range. */
  lemma {:induction false} SingleTokenIsNoRange(prefix: String, n: nat, suffix: String)
    requires FindVam(prefix, 0).None?
    requires |suffix| > 0 ==> !IsDigit(suffix[0])
    requires |suffix| > 1 ==> !(suffix[0] == '-' && IsDigit(suffix[1]))
    ensures ParseRange(prefix + "VAM-" + Decimal(n) + suffix) == None
  {
    var a := Decimal(n);
    var rest := "VAM-" + a + suffix;
    assert prefix + rest == prefix + "VAM-" + a + suffix;
    DigitRunOf("VAM-", a, suffix);
    assert rest[4] == a[0];
    assert VamAt(rest, 0);
    TokenAfterPrefix(prefix, rest);
    if 5 + |a| < |rest| {
      assert rest[4 + |a|] == suffix[0];
      assert rest[5 + |a|] == suffix[1];
    }
  }
}

/** The field parser of the parallel script: the registration number
    (pdfpl.py:86-90) and the confirmation that the declaration names the
    invoice (pdfpl.py:92-113). Both work line by line on the working text;
    the confirmation folds the text and the identifier to lower case first. */
module Fields {
  import opened Wrappers
  import opened Text
  import opened VamTokens

  const RegistrationKey: String := "nomor pendaftaran"
  const InvoiceKey: String := "nomor & tgl invoice"
  const PackingKey: String := "packing list"

  // ---------------------------------------------------------------------
  // Registration number

  /** `line.split(":")[-1].strip()`. */
  function FieldValue(line: String): String
  {
    Strip(Last(Split(line, ':')))
  }

  predicate MarksRegistration(line: String)
  {
    Contains(Lower(line), RegistrationKey)
  }

  /** The value after the last colon of the first line that mentions the
      registration number, ignoring case; None when no line does. */
  function Registration(text: String): Option<String>
  {
    RegistrationIn(Split(text, '\n'))
  }

  function RegistrationIn(lines: seq<String>): Option<String>
  {
    match FirstWhere(lines, MarksRegistration)
    case None => None
    case Some(k) => Some(FieldValue(lines[k]))
  }

  /** The value is what follows the last colon, stripped; it holds no colon
      and no line feed, and does not start or end with whitespace. */
  lemma FieldValueMeaning(before: String, after: String)
    requires ':' !in after
    ensures FieldValue(before + ":" + after) == Strip(after)
    ensures ':' !in FieldValue(before + ":" + after)
  {
    LastPieceAfterSeparator(before, after, ':');
    StripSubset(after, ':');
  }

  /** The line at `k` is the first to mention the registration number. */
  predicate FirstMarked(lines: seq<String>, k: int)
  {
    0 <= k < |lines| && MarksRegistration(lines[k])
    && forall j :: 0 <= j < k ==> !MarksRegistration(lines[j])
  }

  /** Over the lines of the text: Registration finds nothing exactly when
      no line mentions the key; otherwise it reads the first line that does,
      and its value holds no colon, no line feed and no surrounding
      whitespace. */
  lemma RegistrationMeaning(lines: seq<String>)
    requires forall k :: 0 <= k < |lines| ==> '\n' !in lines[k]
    ensures RegistrationIn(lines).None? <==> forall k :: 0 <= k < |lines| ==> !MarksRegistration(lines[k])
    ensures RegistrationIn(lines).Some? ==>
      exists k :: FirstMarked(lines, k) && RegistrationIn(lines).value == FieldValue(lines[k])
    ensures RegistrationIn(lines).Some? ==>
      var v := RegistrationIn(lines).value;
      ':' !in v && '\n' !in v && (|v| > 0 ==> !IsSpace(v[0]) && !IsSpace(v[|v| - 1]))
  {
    var found := FirstWhere(lines, MarksRegistration);
    if found.Some? {
      var k := found.value;
      assert FirstMarked(lines, k);
      FieldValueClean(lines[k]);
    }
  }

  /** The value read from a line holds no colon and no line feed, and does
      not start or end with whitespace. */
  lemma FieldValueClean(line: String)
    requires '\n' !in line
    ensures var v := FieldValue(line);
      ':' !in v && '\n' !in v && (|v| > 0 ==> !IsSpace(v[0]) && !IsSpace(v[|v| - 1]))
  {
    var pieces := Split(line, ':');
    JoinExcludes(pieces, ':', |pieces| - 1, '\n');
    StripSubset(Last(pieces), ':');
    StripSubset(Last(pieces), '\n');
    StripMeaning(Last(pieces));
  }

  /** A character missing from the joined text is missing from every piece. */
  lemma {:induction false} JoinExcludes(parts: seq<String>, sep: char, k: nat, c: char)
    requires k < |parts| && c !in Join(parts, sep)
    ensures c !in parts[k]
    decreases |parts|
  {
    if |parts| > 1 {
      assert Join(parts, sep) == parts[0] + [sep] + Join(parts[1..], sep);
      if k > 0 {
        JoinExcludes(parts[1..], sep, k - 1, c);
      }
    }
  }

  /** The first line of `first + tail` is `first` when `first` holds no
      line feed and `tail` is empty or starts a new line. */
  lemma FirstLine(first: String, tail: String)
    requires '\n' !in first
    requires |tail| == 0 || tail[0] == '\n'
    ensures Split(first + tail, '\n')[0] == first
  {
    if |tail| == 0 {
      OnlyLine(first, tail);
    } else {
      LineBefore(first, tail);
    }
  }

  lemma OnlyLine(first: String, tail: String)
    requires '\n' !in first
    requires |tail| == 0
    ensures Split(first + tail, '\n')[0] == first
  {
    assert first + tail == first;
    SplitWithoutSeparator(first, '\n');
  }

  lemma LineBefore(first: String, tail: String)
    requires '\n' !in first
    requires |tail| > 0 && tail[0] == '\n'
    ensures Split(first + tail, '\n')[0] == first
  {
    var rest := tail[1..];
    assert tail == ['\n'] + rest;
    assert first + tail == first + ['\n'] + rest;
    SplitFirst(first, rest, '\n');
  }

  /** Appending to a line that mentions the key keeps the mention. */
  lemma MarksExtend(line: String, rest: String)
    requires MarksRegistration(line)
    ensures MarksRegistration(line + rest)
  {
    LowerAppend(line, rest);
    ContainsWithin([], Lower(line), Lower(rest), RegistrationKey);
    assert [] + Lower(line) + Lower(rest) == Lower(line + rest);
  }

  /** The value read from `heading:<spaces><value>` is the value. */
  lemma FieldValueOf(heading: String, pad: String, v: String)
    requires AllSpace(pad)
    requires ':' !in v && (|v| > 0 ==> !IsSpace(v[0]) && !IsSpace(v[|v| - 1]))
    ensures FieldValue(heading + ":" + pad + v) == v
  {
    assert ':' !in pad by {
      forall q | 0 <= q < |pad| ensures pad[q] != ':' {
        assert IsSpace(pad[q]);
      }
    }
    assert heading + ":" + pad + v == heading + [':'] + (pad + v);
    LastPieceAfterSeparator(heading, pad + v, ':');
    StripPadded(pad, v, []);
    assert pad + v + [] == pad + v;
  }

  /** Writing `heading: value` as the first line and parsing gives the value
      back: "Nomor Pendaftaran: PEB-2024-0001" yields "PEB-2024-0001". */
  lemma RegistrationRoundTrip(heading: String, pad: String, v: String, tail: String)
    requires MarksRegistration(heading) && '\n' !in heading
    requires AllSpace(pad) && '\n' !in pad
    requires ':' !in v && '\n' !in v && (|v| > 0 ==> !IsSpace(v[0]) && !IsSpace(v[|v| - 1]))
    requires |tail| == 0 || tail[0] == '\n'
    ensures Registration(heading + ":" + pad + v + tail) == Some(v)
  {
    var value := ":" + pad + v;
    var first := heading + value;
    assert first == heading + ":" + pad + v;
    assert '\n' !in value;
    assert '\n' !in first;
    FirstLine(first, tail);
    MarksExtend(heading, value);
    FieldValueOf(heading, pad, v);
    FirstLineValue(first + tail, first);
    assert first + tail == heading + ":" + pad + v + tail;
  }

  /** A text whose first line mentions the key yields that line's value. */
  lemma FirstLineValue(text: String, first: String)
    requires Split(text, '\n')[0] == first && MarksRegistration(first)
    ensures Registration(text) == Some(FieldValue(first))
  {
    assert FirstWhere(Split(text, '\n'), MarksRegistration) == Some(0);
  }

  /** "Nomor Pendaftaran: PEB-2024-0001" yields "PEB-2024-0001". */
  lemma RegistrationExample(heading: String, v: String)
    requires heading == "Nomor Pendaftaran" && v == "PEB-2024-0001"
    ensures Registration(heading + ": " + v) == Some(v)
  {
    HeadingFolds(heading);
    assert OccursAt(Lower(heading), RegistrationKey, 0);
    RegistrationRoundTrip(heading, " ", v, []);
    assert heading + ":" + " " + v + [] == heading + ": " + v;
  }

  lemma HeadingFolds(heading: String)
    requires heading == "Nomor Pendaftaran"
    ensures Lower(heading) == RegistrationKey
  {
    assert heading == ['N'] + "omor " + ['P'] + "endaftaran";
    LowerAppend(['N'] + "omor " + ['P'], "endaftaran");
    LowerAppend(['N'] + "omor ", ['P']);
    LowerAppend(['N'], "omor ");
  }

  // ---------------------------------------------------------------------
  // Confirmation

  /** The test on one folded line when no range was parsed (pdfpl.py:96-101). */
  predicate PlainLine(line: String, folded: String)
  {
    (Contains(line, InvoiceKey) && Contains(line, folded))
    || (Contains(line, PackingKey) && Contains(line, folded))
  }

  /** The token prefix the parallel script looks for in folded lines. */
  const FoldedTag: String := "vam-"

  /** `f"{tag}{n}" in line`. */
  predicate MentionsNumber(line: String, tag: String, n: nat)
  {
    Contains(line, tag + Decimal(n))
  }

  /** `any(f"{tag}{num}" in line for num in range(lo, hi + 1))`. */
  function MentionsRange(line: String, tag: String, lo: nat, hi: nat): (r: bool)
    ensures r <==> exists n: nat :: lo <= n <= hi && MentionsNumber(line, tag, n)
    decreases if lo <= hi then hi - lo + 1 else 0
  {
    if lo > hi then false
    else MentionsNumber(line, tag, lo) || MentionsRange(line, tag, lo + 1, hi)
  }

  /** The test on one folded line when a range was parsed (pdfpl.py:106-113):
      the `elif` reaches the packing-list test only when the invoice test's
      condition is false. */
  predicate RangeLine(line: String, folded: String, r: Range)
  {
    if Contains(line, InvoiceKey) && Contains(line, folded) then MentionsRange(line, FoldedTag, r.lo, r.hi)
    else Contains(line, PackingKey) && MentionsRange(line, FoldedTag, r.lo, r.hi)
  }

  /** `doc_found` after pdfpl.py:92-113: the range test, when a range was
      parsed, replaces the plain one. */
  function Confirmed(text: String, doc: String, range: Option<Range>): bool
  {
    var lines := Split(Lower(text), '\n');
    var folded := Lower(doc);
    match range
    case None => FirstWhere(lines, (line: String) => PlainLine(line, folded)).Some?
    case Some(r) => FirstWhere(lines, (line: String) => RangeLine(line, folded, r)).Some?
  }

  /** Without a range: confirmed exactly when some line, folded, names the
      folded identifier together with the invoice header or the packing
      list. */
  lemma ConfirmedPlainMeaning(text: String, doc: String)
    ensures Confirmed(text, doc, None) <==>
      exists k :: 0 <= k < |Split(text, '\n')| &&
        var line := Lower(Split(text, '\n')[k]);
        Contains(line, Lower(doc)) && (Contains(line, InvoiceKey) || Contains(line, PackingKey))
  {
    LowerLines(text);
  }

  /** With a range: confirmed exactly when some line, folded, names a
      `vam-<n>` with n in the range and carries either the invoice header
      with the identifier or the packing list. */
  lemma ConfirmedRangeMeaning(text: String, doc: String, r: Range)
    ensures Confirmed(text, doc, Some(r)) <==>
      exists k :: 0 <= k < |Split(text, '\n')| &&
        var line := Lower(Split(text, '\n')[k]);
        MentionsRange(line, FoldedTag, r.lo, r.hi)
        && ((Contains(line, InvoiceKey) && Contains(line, Lower(doc))) || Contains(line, PackingKey))
  {
    LowerLines(text);
  }

  lemma LowerLines(text: String)
    ensures |Split(Lower(text), '\n')| == |Split(text, '\n')|
    ensures forall k :: 0 <= k < |Split(text, '\n')| ==> Split(Lower(text), '\n')[k] == Lower(Split(text, '\n')[k])
  {
    SplitLower(text, '\n');
  }

  /** An empty range (start after end) is never confirmed. */
  lemma EmptyRangeNeverConfirmed(text: String, doc: String, r: Range)
    requires r.lo > r.hi
    ensures !Confirmed(text, doc, Some(r))
  {
  }

  /** The test ignores case: texts and identifiers that fold to the same
      strings get the same verdict. */
  lemma ConfirmedIgnoresCase(text: String, text': String, doc: String, doc': String, range: Option<Range>)
    requires Lower(text) == Lower(text') && Lower(doc) == Lower(doc')
    ensures Confirmed(text, doc, range) == Confirmed(text', doc', range)
  {
  }

  /** `vam-<n>` is a plain substring test, so a line naming a longer number
      with the same leading digits also mentions n: "vam-100" confirms the
      range [10, 10]. */
  lemma LongerNumberConfirms(line: String, tag: String, n: nat, d: nat)
    requires 1 <= n && d < 10
    requires MentionsNumber(line, tag, 10 * n + d)
    ensures MentionsRange(line, tag, n, n)
  {
    DecimalAppendDigit(n, d);
    var short := tag + Decimal(n);
    var long := tag + Decimal(10 * n + d);
    var i :| OccursAt(line, long, i);
    assert long == short + [DigitChar(d)];
    assert line[i..i + |short|] == line[i..i + |long|][..|short|];
    assert OccursAt(line, short, i);
    assert MentionsNumber(line, tag, n);
  }
}

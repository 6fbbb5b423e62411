/** The single-process script (read.py:40-147). It differs from the
    parallel script: it reads the first page only, checks a case-sensitive
    header, reads the range from two `VAM-` tokens of the identifier, labels
    a confirmed range `PEB <identifier>.pdf` and never expands it, and does
    not skip identifiers already seen. Its output is five parallel lists;
    the file name is appended before the file is opened, so a crash leaves
    that list one entry longer than the others. */
module Legacy {
  import opened Wrappers
  import opened Text
  import opened VamTokens
  import opened Records
  import opened Fields
  import opened Escalation

  const Header: String := "BC 3.0 PEMBERITAHUAN EKSPOR BARANG"
  const RegistrationLabel: String := "Nomor Pendaftaran"
  const InvoiceLabel: String := "22. Nomor & Tgl Invoice"
  const Tag: String := "VAM-"

  /** The five output lists of read.py:30-34. */
  datatype Columns = Columns(peb: seq<Option<String>>, inv: seq<String>, files: seq<Option<String>>,
                             split: seq<Option<String>>, ok: seq<Status>)

  predicate Aligned(c: Columns)
  {
    |c.peb| == |c.inv| && |c.files| == |c.inv| && |c.split| == |c.inv| && |c.ok| == |c.inv|
  }

  /** The `j`-th entry of every list, as one row. */
  function RowAt(c: Columns, j: nat): Row
    requires Aligned(c) && j < |c.inv|
  {
    Row(c.peb[j], c.inv[j], c.files[j], c.split[j], c.ok[j])
  }

  function AppendRow(c: Columns, r: Row): (c': Columns)
    requires Aligned(c)
    ensures Aligned(c') && |c'.inv| == |c.inv| + 1
    ensures forall j :: 0 <= j < |c.inv| ==> RowAt(c', j) == RowAt(c, j)
    ensures RowAt(c', |c.inv|) == r
  {
    Columns(c.peb + [r.peb], c.inv + [r.invoice], c.files + [r.file], c.split + [r.splitFrom], c.ok + [r.status])
  }

  /** `file_names.append(matching_files[0])` (read.py:62), ahead of the
      other four lists. */
  function AppendFile(c: Columns, f: String): Columns
  {
    c.(files := c.files + [Some(f)])
  }

  /** The other four appends of the identifier (read.py:99-102,
      read.py:108-111, read.py:139-147). */
  function AppendRest(c: Columns, peb: Option<String>, inv: String, split: Option<String>, ok: Status): Columns
  {
    Columns(c.peb + [peb], c.inv + [inv], c.files, c.split + [split], c.ok + [ok])
  }

  // ---------------------------------------------------------------------
  // Matching and the range

  predicate NameMatches(f: String, doc: String)
  {
    Contains(Lower(f), Lower(doc))
  }

  /** `[f for f in all_pdf_files if doc_name.lower() in f.lower()]`: the
      raw listing, in order. */
  function LegacyMatches(files: seq<String>, doc: String): (r: seq<String>)
    ensures |r| <= |files|
    ensures forall f :: f in r <==> f in files && NameMatches(f, doc)
    ensures |r| > 0 ==> exists k :: 0 <= k < |files| && files[k] == r[0]
                                   && forall j :: 0 <= j < k ==> !NameMatches(files[j], doc)
  {
    if |files| == 0 then []
    else
      var rest := LegacyMatches(files[1..], doc);
      assert forall j :: 1 <= j < |files| ==> files[j] == files[1..][j - 1];
      if NameMatches(files[0], doc) then
        [files[0]] + rest
      else
        FirstMatchShift(files, doc, rest);
        rest
  }

  lemma FirstMatchShift(files: seq<String>, doc: String, rest: seq<String>)
    requires |files| > 0 && !NameMatches(files[0], doc)
    requires |rest| > 0 ==> exists k :: 0 <= k < |files[1..]| && files[1..][k] == rest[0]
                                       && forall j :: 0 <= j < k ==> !NameMatches(files[1..][j], doc)
    ensures |rest| > 0 ==> exists k :: 0 <= k < |files| && files[k] == rest[0]
                                      && forall j :: 0 <= j < k ==> !NameMatches(files[j], doc)
  {
    if |rest| > 0 {
      var k :| 0 <= k < |files[1..]| && files[1..][k] == rest[0]
               && forall j :: 0 <= j < k ==> !NameMatches(files[1..][j], doc);
      assert files[k + 1] == rest[0];
      assert forall j :: 1 <= j < k + 1 ==> files[j] == files[1..][j - 1];
    }
  }

  /** read.py:47-51: the identifier holds `-` and `re.findall(r"VAM-(\d+)")`
      finds at least two tokens; the search for the second resumes where the
      first token's digits end. */
  function LegacyRange(doc: String): Option<Range>
  {
    if '-' !in doc then None
    else
      match FindVam(doc, 0)
      case None => None
      case Some(i) =>
        match FindVam(doc, DigitsEnd(doc, i + 4))
        case None => None
        case Some(j) => Some(Range(DigitsValue(DigitRun(doc, i + 4)), DigitsValue(DigitRun(doc, j + 4))))
  }

  /** A range is read exactly when the identifier holds a hyphen and a
      second token starts at or after the end of the first token's
      digits, as `findall` resumes its search there. */
  lemma LegacyRangeExists(doc: String)
    ensures LegacyRange(doc).Some? <==>
      '-' in doc && exists i: nat, j: nat :: LeftmostVam(doc, 0, i) && DigitsEnd(doc, i + 4) <= j && VamAt(doc, j)
  {
    if '-' in doc && exists i: nat, j: nat :: LeftmostVam(doc, 0, i) && DigitsEnd(doc, i + 4) <= j && VamAt(doc, j) {
      var i: nat, j: nat :| LeftmostVam(doc, 0, i) && DigitsEnd(doc, i + 4) <= j && VamAt(doc, j);
      FindVamLeftmost(doc, 0, i);
      assert FindVam(doc, DigitsEnd(doc, i + 4)).Some?;
    }
    if LegacyRange(doc).Some? {
      var i := FindVam(doc, 0).value;
      var j := FindVam(doc, DigitsEnd(doc, i + 4)).value;
      assert LeftmostVam(doc, 0, i) && DigitsEnd(doc, i + 4) <= j && VamAt(doc, j);
    }
  }

  /** The bounds are the digits of the first two tokens, read as numbers. */
  lemma LegacyRangeBounds(doc: String, i: nat, j: nat)
    requires '-' in doc && LeftmostVam(doc, 0, i)
    requires i + 4 <= |doc| && LeftmostVam(doc, DigitsEnd(doc, i + 4), j)
    ensures LegacyRange(doc) == Some(Range(DigitsValue(DigitRun(doc, i + 4)), DigitsValue(DigitRun(doc, j + 4))))
  {
    FindVamLeftmost(doc, 0, i);
    FindVamLeftmost(doc, DigitsEnd(doc, i + 4), j);
  }

  /** An identifier written `VAM-<a>-VAM-<b>` gives the range [a, b]. */
  lemma LegacyRangeRoundTrip(a: nat, b: nat, doc: String)
    requires doc == Tag + Decimal(a) + "-" + Tag + Decimal(b)
    ensures LegacyRange(doc) == Some(Range(a, b))
  {
    WrittenTokens(Decimal(a), Decimal(b), doc);
    DecimalRoundTrip(a);
    DecimalRoundTrip(b);
  }

  lemma WrittenTokens(da: String, db: String, doc: String)
    requires |da| > 0 && AllDigits(da) && |db| > 0 && AllDigits(db)
    requires doc == Tag + da + "-" + Tag + db
    ensures LegacyRange(doc) == Some(Range(DigitsValue(da), DigitsValue(db)))
  {
    var e := 4 + |da|;
    FirstWrittenToken(da, "-" + Tag + db, doc);
    var x := Tag + da + "-" + Tag;
    assert doc == x + db + [];
    DigitRunOf(x, db, []);
    assert doc[e + 1..e + 5] == Tag;
    assert doc[e + 5] == db[0];
    TwoTokens(doc, e);
  }

  lemma FirstWrittenToken(da: String, rest: String, doc: String)
    requires |da| > 0 && AllDigits(da) && |rest| > 0 && rest[0] == '-'
    requires doc == Tag + da + rest
    ensures VamAt(doc, 0) && DigitsEnd(doc, 4) == 4 + |da| && doc[4..4 + |da|] == da
    ensures doc[4 + |da|] == '-'
  {
    DigitRunOf(Tag, da, rest);
    assert doc[0..4] == Tag;
    assert doc[4] == da[0];
    assert doc[4 + |da|] == rest[0];
  }

  /** A token at 0 whose digits end at `e`, then `-`, then a second token:
      the range is the two tokens' numbers. */
  lemma TwoTokens(doc: String, e: nat)
    requires VamAt(doc, 0) && DigitsEnd(doc, 4) == e
    requires e < |doc| && doc[e] == '-' && VamAt(doc, e + 1)
    ensures LegacyRange(doc) == Some(Range(DigitsValue(doc[4..e]), DigitsValue(DigitRun(doc, e + 5))))
  {
    assert '-' in doc;
    FindVamHere(doc, 0);
    assert doc[e..e + 4][0] == '-';
    FindVamSkip(doc, e);
    FindVamHere(doc, e + 1);
  }

  /** The filename range token `VAM-<a>-<b>` is no range here: after the
      first token only `-<digits>` is left, with no second `VAM-`. The
      parallel script reads the same text as the range [a, b]. */
  lemma RangeTokenIsNoLegacyRange(a: nat, b: nat, name: String)
    requires name == Tag + Decimal(a) + "-" + Decimal(b)
    ensures LegacyRange(name) == None
    ensures ParseRange(name) == Some(Range(a, b))
  {
    SecondTokenMissing(a, b, name);
    ParseWrittenRange(a, b, name);
  }

  lemma SecondTokenMissing(a: nat, b: nat, doc: String)
    requires doc == Tag + Decimal(a) + "-" + Decimal(b)
    ensures LegacyRange(doc) == None
  {
    var da := Decimal(a);
    var tail := "-" + Decimal(b);
    assert doc == Tag + da + tail;
    DigitRunOf(Tag, da, tail);
    assert doc[0..4] == Tag;
    assert doc[4] == da[0];
    HyphensAndDigits(Tag + da, tail);
    OneTokenOnly(doc, 4 + |da|);
  }

  /** A first token at 0 whose digits are followed only by hyphens and
      digits leaves no second token. */
  lemma OneTokenOnly(doc: String, e: nat)
    requires VamAt(doc, 0) && DigitsEnd(doc, 4) == e
    requires forall k :: e <= k < |doc| ==> doc[k] == '-' || IsDigit(doc[k])
    ensures LegacyRange(doc) == None
  {
    assert FindVam(doc, 0) == Some(0);
    NoTokenAmong(doc, e);
  }

  /** After `x`, a tail of hyphens and digits. */
  lemma HyphensAndDigits(x: String, tail: String)
    requires |tail| > 0 && tail[0] == '-' && AllDigits(tail[1..])
    ensures forall k :: |x| <= k < |x + tail| ==> (x + tail)[k] == '-' || IsDigit((x + tail)[k])
  {
    forall k | |x| <= k < |x + tail|
      ensures (x + tail)[k] == '-' || IsDigit((x + tail)[k])
    {
      assert (x + tail)[k] == tail[k - |x|];
      if k > |x| {
        assert tail[k - |x|] == tail[1..][k - |x| - 1];
      }
    }
  }

  /** No token starts where only hyphens and digits remain. */
  lemma NoTokenAmong(s: String, e: nat)
    requires forall k :: e <= k < |s| ==> s[k] == '-' || IsDigit(s[k])
    ensures FindVam(s, e).None?
  {
    forall j | e <= j
      ensures !VamAt(s, j)
    {
      if 0 <= j && j + 5 <= |s| {
        assert s[j..j + 4][0] == s[j] != 'V';
      }
    }
  }

  // ---------------------------------------------------------------------
  // The page text

  /** `pdf.pages[0].extract_text()`; None when the file cannot be opened or
      has no pages (an exception in the script). An absent text layer is
      the empty string. */
  function FirstPage<FS>(o: Oracles<FS>, fs: FS, path: PdfPath): Option<String>
  {
    match o.pages(fs, path)
    case None => None
    case Some(ps) => if |ps| == 0 then None else Some(ps[0])
  }

  /** read.py:117-119: the case-sensitive label. */
  predicate LabelsRegistration(line: String)
  {
    Contains(line, RegistrationLabel)
  }

  function LegacyRegistration(text: String): Option<String>
  {
    var lines := Split(text, '\n');
    match FirstWhere(lines, LabelsRegistration)
    case None => None
    case Some(k) => Some(FieldValue(lines[k]))
  }

  predicate NoLineLabelled(lines: seq<String>)
  {
    forall k :: 0 <= k < |lines| ==> !LabelsRegistration(lines[k])
  }

  /** The line at `k` is the first to carry the label. */
  predicate FirstLabelled(lines: seq<String>, k: int)
  {
    0 <= k < |lines| && LabelsRegistration(lines[k])
    && forall j :: 0 <= j < k ==> !LabelsRegistration(lines[j])
  }

  /** Nothing is found exactly when no line carries the case-sensitive
      label; otherwise the value is that of the first line that does, and
      it holds no colon or line feed and no surrounding whitespace. */
  lemma LegacyRegistrationMeaning(text: String)
    ensures LegacyRegistration(text).None? <==> NoLineLabelled(Split(text, '\n'))
    ensures var lines := Split(text, '\n');
      LegacyRegistration(text).Some? ==>
        exists k :: FirstLabelled(lines, k) && LegacyRegistration(text).value == FieldValue(lines[k])
    ensures LegacyRegistration(text).Some? ==>
      var v := LegacyRegistration(text).value;
      ':' !in v && '\n' !in v && (|v| > 0 ==> !IsSpace(v[0]) && !IsSpace(v[|v| - 1]))
  {
    var lines := Split(text, '\n');
    var found := FirstWhere(lines, LabelsRegistration);
    assert LegacyRegistration(text) == if found.Some? then Some(FieldValue(lines[found.value])) else None;
    if found.Some? {
      var k := found.value;
      assert FirstLabelled(lines, k) && LabelsRegistration(lines[k]);
      FieldValueClean(lines[k]);
    } else {
      forall k | 0 <= k < |lines|
        ensures !LabelsRegistration(lines[k])
      {
      }
    }
  }

  predicate PlainLegacyLine(line: String, doc: String)
  {
    Contains(line, InvoiceLabel) && Contains(line, doc)
  }

  predicate RangeLegacyLine(line: String, r: Range)
  {
    Contains(line, InvoiceLabel) && MentionsRange(line, Tag, r.lo, r.hi)
  }

  /** `doc_found` after read.py:122-136; every test is case-sensitive and
      the range test replaces the plain one. */
  function LegacyConfirmed(text: String, doc: String, range: Option<Range>): bool
  {
    var lines := Split(text, '\n');
    match range
    case None => FirstWhere(lines, PlainTest(doc)).Some?
    case Some(r) => FirstWhere(lines, RangeTest(r)).Some?
  }

  function PlainTest(doc: String): String -> bool
  {
    (line: String) => PlainLegacyLine(line, doc)
  }

  function RangeTest(r: Range): String -> bool
  {
    (line: String) => RangeLegacyLine(line, r)
  }

  /** Without a range, confirmation asks for a line with the invoice label
      and the identifier, both as written. */
  lemma LegacyPlainMeaning(text: String, doc: String)
    ensures LegacyConfirmed(text, doc, None) <==>
      exists k :: 0 <= k < |Split(text, '\n')| && Contains(Split(text, '\n')[k], InvoiceLabel)
                  && Contains(Split(text, '\n')[k], doc)
  {
    var lines := Split(text, '\n');
    var test := PlainTest(doc);
    var f := FirstWhere(lines, test);
    assert LegacyConfirmed(text, doc, None) == f.Some?;
    if f.Some? {
      var k := f.value;
      assert PlainLegacyLine(lines[k], doc);
      assert 0 <= k < |lines| && Contains(lines[k], InvoiceLabel) && Contains(lines[k], doc);
      assert exists k :: 0 <= k < |Split(text, '\n')| && Contains(Split(text, '\n')[k], InvoiceLabel)
                         && Contains(Split(text, '\n')[k], doc);
      assert LegacyConfirmed(text, doc, None);
    } else {
      forall k | 0 <= k < |lines|
        ensures !(Contains(lines[k], InvoiceLabel) && Contains(lines[k], doc))
      {
        assert !test(lines[k]);
      }
    }
  }

  /** With a range, confirmation asks for a line with the invoice label and
      some `VAM-<n>` of the range; the identifier itself need not appear. */
  lemma LegacyRangeMeaning(text: String, doc: String, r: Range)
    ensures LegacyConfirmed(text, doc, Some(r)) <==>
      exists k, n: nat :: 0 <= k < |Split(text, '\n')| && Contains(Split(text, '\n')[k], InvoiceLabel)
                          && r.lo <= n <= r.hi && MentionsNumber(Split(text, '\n')[k], Tag, n)
  {
    var lines := Split(text, '\n');
    var test := RangeTest(r);
    var f := FirstWhere(lines, test);
    assert LegacyConfirmed(text, doc, Some(r)) == f.Some?;
    if f.Some? {
      var k := f.value;
      assert RangeLegacyLine(lines[k], r);
      var n: nat :| r.lo <= n <= r.hi && MentionsNumber(lines[k], Tag, n);
      assert 0 <= k < |lines| && Contains(lines[k], InvoiceLabel) && r.lo <= n <= r.hi && MentionsNumber(lines[k], Tag, n);
      assert exists k, n: nat :: 0 <= k < |Split(text, '\n')| && Contains(Split(text, '\n')[k], InvoiceLabel)
                                 && r.lo <= n <= r.hi && MentionsNumber(Split(text, '\n')[k], Tag, n);
      assert LegacyConfirmed(text, doc, Some(r));
    } else {
      forall k, n: nat | 0 <= k < |lines| && r.lo <= n <= r.hi
        ensures !(Contains(lines[k], InvoiceLabel) && MentionsNumber(lines[k], Tag, n))
      {
        assert !test(lines[k]);
      }
    }
  }

  // ---------------------------------------------------------------------
  // One identifier

  datatype LegacyResult<FS> = Done(fs: FS, cols: Columns) | Crashed(cols: Columns)

  /** The verdict on a readable first page (read.py:97-147). */
  function Verdict(text: String, doc: String): (row: Row)
    ensures row.invoice == doc && row.file == None
    ensures row.status == OK ==> text != [] && Contains(text, Header)
    ensures row.peb.Some? ==> text != [] && Contains(text, Header)
    ensures row.splitFrom.Some? <==> LegacyRange(doc).Some? && row.status == OK
    ensures row.splitFrom.Some? ==> row.splitFrom.value == "PEB " + doc + ".pdf"
    ensures text != [] && Contains(text, Header) ==>
      (row.status == OK <==> LegacyConfirmed(text, doc, LegacyRange(doc))) && row.peb == LegacyRegistration(text)
    ensures text == [] || !Contains(text, Header) ==> row.status == NO && row.peb.None? && row.splitFrom.None?
  {
    if text == [] || !Contains(text, Header) then Row(None, doc, None, None, NO)
    else
      var range := LegacyRange(doc);
      var found := LegacyConfirmed(text, doc, range);
      Row(LegacyRegistration(text), doc, None,
          if range.Some? && found then Some("PEB " + doc + ".pdf") else None,
          if found then OK else NO)
  }

  /** The loop body of read.py:40-147 for one identifier. */
  function ProcessDoc<FS>(o: Oracles<FS>, fs: FS, files: seq<String>, doc: String, cols: Columns): (r: LegacyResult<FS>)
    requires Aligned(cols)
    ensures r.Done? ==> Aligned(r.cols) && |r.cols.inv| == |cols.inv| + 1
                        && (forall j :: 0 <= j < |cols.inv| ==> RowAt(r.cols, j) == RowAt(cols, j))
                        && RowAt(r.cols, |cols.inv|).invoice == doc
    ensures r.Crashed? ==> |LegacyMatches(files, doc)| > 0
                           && r.cols == AppendFile(cols, LegacyMatches(files, doc)[0])
    ensures r.Done? ==> (RowAt(r.cols, |cols.inv|).file.None? <==> |LegacyMatches(files, doc)| == 0)
  {
    var matches := LegacyMatches(files, doc);
    if |matches| == 0 then Done(fs, AppendRow(cols, Row(None, doc, None, None, NO)))
    else
      var name := matches[0];
      var withFile := AppendFile(cols, name);
      match FirstPage(o, fs, Original(name))
      case None => Crashed(withFile)
      case Some(first) =>
        var fs' := if first != [] || o.hasCopy(fs, name) then fs else o.ocrBasic(fs, name);
        var source := if first != [] then Original(name) else OcrCopy(name);
        match FirstPage(o, fs', source)
        case None => Crashed(withFile)
        case Some(text) =>
          var v := Verdict(text, doc);
          var c := AppendRest(withFile, v.peb, v.invoice, v.splitFrom, v.status);
          assert c == AppendRow(cols, v.(file := Some(name)));
          Done(fs', c)
  }

  /** A finished identifier's row: the NO row without a file when no
      file matches; otherwise the verdict, with the first matching file, on
      the first page of that file when it has text, and else on the first
      page of its OCR copy, made by the basic OCR only when no copy
      existed. */
  lemma ProcessDocRow<FS>(o: Oracles<FS>, fs: FS, files: seq<String>, doc: String, cols: Columns)
    requires Aligned(cols)
    requires ProcessDoc(o, fs, files, doc, cols).Done?
    ensures var row := RowAt(ProcessDoc(o, fs, files, doc, cols).cols, |cols.inv|);
      |LegacyMatches(files, doc)| == 0 ==> row == Row(None, doc, None, None, NO)
    ensures var r := ProcessDoc(o, fs, files, doc, cols);
      var row := RowAt(r.cols, |cols.inv|);
      |LegacyMatches(files, doc)| > 0 ==>
        var name := LegacyMatches(files, doc)[0];
        var first := FirstPage(o, fs, Original(name));
        var fs' := if o.hasCopy(fs, name) then fs else o.ocrBasic(fs, name);
        && first.Some?
        && (first.value != [] ==> r.fs == fs && row == Verdict(first.value, doc).(file := Some(name)))
        && (first.value == [] ==>
              && FirstPage(o, fs', OcrCopy(name)).Some? && r.fs == fs'
              && row == Verdict(FirstPage(o, fs', OcrCopy(name)).value, doc).(file := Some(name)))
  {
  }

  // ---------------------------------------------------------------------
  // The loop

  /** The loop of read.py:40 over every identifier, with no duplicate
      test. */
  function LegacyRun<FS>(o: Oracles<FS>, fs: FS, files: seq<String>, docs: seq<String>, cols: Columns): (r: LegacyResult<FS>)
    requires Aligned(cols)
    ensures r.Done? ==> Aligned(r.cols) && r.cols.inv == cols.inv + docs
                        && forall j :: 0 <= j < |cols.inv| ==> RowAt(r.cols, j) == RowAt(cols, j)
    decreases |docs|
  {
    if |docs| == 0 then Done(fs, cols)
    else
      match ProcessDoc(o, fs, files, docs[0], cols)
      case Crashed(c) => Crashed(c)
      case Done(fs', c) =>
        assert c.inv == cols.inv + [docs[0]] by {
          assert forall j :: 0 <= j < |cols.inv| ==> c.inv[j] == RowAt(c, j).invoice == RowAt(cols, j).invoice;
        }
        var r := LegacyRun(o, fs', files, docs[1..], c);
        assert cols.inv + [docs[0]] + docs[1..] == cols.inv + docs;
        r
  }

  /** Every identifier gets exactly one row, in order, and the five lists
      stay the same length. */
  lemma OneRowPerIdentifier<FS>(o: Oracles<FS>, fs: FS, files: seq<String>, docs: seq<String>)
    requires LegacyRun(o, fs, files, docs, Columns([], [], [], [], [])).Done?
    ensures var c := LegacyRun(o, fs, files, docs, Columns([], [], [], [], [])).cols;
      Aligned(c) && c.inv == docs
  {
    assert [] + docs == docs;
  }
}

/** The per-identifier worker of the parallel script (`process_pdf`,
    pdfpl.py:9-130) and the driver that runs it over every identifier of the
    spreadsheet (pdfpl.py:151-167). The driver is modelled as a sequential
    fold: each worker sees the rows of the workers before it. */
module Reconcile {
  import opened Wrappers
  import opened Text
  import opened VamTokens
  import opened FileIndex
  import opened Records
  import opened Fields
  import opened Escalation

  /** How one worker, or the whole run, ends: normally with the file
      system and the rows; with the exception pdfplumber raises for a file
      it cannot open; or never, when the extraction loop does not stop
      within the passes allowed. */
  datatype Result<FS> = Finished(fs: FS, rows: seq<Row>) | Crashed(rows: seq<Row>) | Hung(rows: seq<Row>)

  function Invoices(rows: seq<Row>): (r: seq<String>)
    ensures |r| == |rows| && forall j :: 0 <= j < |rows| ==> r[j] == rows[j].invoice
  {
    seq(|rows|, j requires 0 <= j < |rows| => rows[j].invoice)
  }

  /** `lower_doc_name in inv_numbers` (pdfpl.py:10-12): the folded
      identifier against the invoice column as written. */
  predicate AlreadyRecorded(rows: seq<Row>, doc: String)
  {
    Lower(doc) in Invoices(rows)
  }

  function HasRange(f: String): bool
  {
    ParseRange(f).Some?
  }

  /** The first candidate whose name parses to a range, with that range
      (pdfpl.py:20-27). */
  function RangeFile(matches: seq<String>): (r: Option<(Range, String)>)
    ensures r.Some? ==> r.value.1 in matches && ParseRange(r.value.1) == Some(r.value.0)
    ensures r.Some? ==> exists k :: 0 <= k < |matches| && matches[k] == r.value.1
                                   && forall j :: 0 <= j < k ==> ParseRange(matches[j]).None?
    ensures r.None? <==> forall f :: f in matches ==> ParseRange(f).None?
  {
    match FirstWhere(matches, HasRange)
    case None => None
    case Some(k) => Some((ParseRange(matches[k]).value, matches[k]))
  }

  /** The single row for an identifier no file matches (pdfpl.py:38-43). */
  function UnmatchedRow(doc: String): Row
  {
    Row(None, doc, None, None, NO)
  }

  /** `process_pdf` for one identifier, with the rows appended so far. */
  function ProcessPdf<FS>(o: Oracles<FS>, fs: FS, idx: seq<Entry>, doc: String,
                          rows: seq<Row>, fuel: nat): (r: Result<FS>)
    ensures |rows| <= |r.rows| && r.rows[..|rows|] == rows
    ensures r.Finished? && |r.rows| == |rows| <==> AlreadyRecorded(rows, doc)
    ensures AlreadyRecorded(rows, doc) ==> r == Finished(fs, rows)
  {
    if AlreadyRecorded(rows, doc) then Finished(fs, rows)
    else
      var matches := Matches(idx, Lower(doc));
      if |matches| == 0 then Finished(fs, rows + [UnmatchedRow(doc)])
      else
        var batch := RangeFile(matches);
        var job := Job(doc, matches[0], batch.Some?);
        var out := Run(o, job, Start(fs, job), fuel);
        RunAppendsNoRows(o, job, Start(fs, job), fuel);
        GiveUpAppends(o, job, Start(fs, job), fuel);
        match out
        case Declared(fs', emitted, text) =>
          var range := if batch.Some? then Some(batch.value.0) else None;
          var found := Confirmed(text, doc, range);
          var expanded := Expand(doc, matches[0], batch, Registration(text), found);
          ExpandNotEmpty(doc, matches[0], batch, Registration(text), text);
          Finished(fs', rows + emitted + expanded)
        case GaveUp(fs', emitted) => Finished(fs', rows + emitted)
        case Unreadable(_, emitted) => Crashed(rows + emitted)
        case Diverged(_, emitted) => Hung(rows + emitted)
  }

  /** The expander appends at least one row: a batch is expanded only when
      confirmed, and an empty range is never confirmed. */
  lemma ExpandNotEmpty(doc: String, read: String, batch: Option<(Range, String)>,
                       peb: Option<String>, text: String)
    ensures var range := if batch.Some? then Some(batch.value.0) else None;
      |Expand(doc, read, batch, peb, Confirmed(text, doc, range))| >= 1
  {
    if batch.Some? {
      var r := batch.value.0;
      if r.lo > r.hi {
        EmptyRangeNeverConfirmed(text, doc, r);
      }
    }
  }

  /** The driver over the identifiers, in order (pdfpl.py:165); each
      worker may run the extraction loop for at most `fuel` passes. */
  function ReconcileFrom<FS>(o: Oracles<FS>, fs: FS, idx: seq<Entry>, docs: seq<String>,
                             rows: seq<Row>, fuel: nat): (r: Result<FS>)
    ensures |rows| <= |r.rows| && r.rows[..|rows|] == rows
    decreases |docs|
  {
    if |docs| == 0 then Finished(fs, rows)
    else
      match ProcessPdf(o, fs, idx, docs[0], rows, fuel)
      case Finished(fs', rows') =>
        var r := ReconcileFrom(o, fs', idx, docs[1..], rows', fuel);
        assert r.rows[..|rows|] == r.rows[..|rows'|][..|rows|];
        r
      case other => other
  }

  /** The whole run: index the folder listing, then process every
      identifier starting from no rows. */
  function Reconcile<FS>(o: Oracles<FS>, fs: FS, files: seq<String>, docs: seq<String>, fuel: nat): Result<FS>
  {
    ReconcileFrom(o, fs, BuildIndex(files), docs, [], fuel)
  }

  // ---------------------------------------------------------------------
  // Properties of one worker

  /** An identifier no file matches gets one NO row without a file name;
      with no candidates there is no range file either, so the batch
      branch of pdfpl.py:30-37 is never taken. */
  lemma UnmatchedGetsOneRow<FS>(o: Oracles<FS>, fs: FS, files: seq<String>, doc: String,
                                 rows: seq<Row>, fuel: nat)
    requires !AlreadyRecorded(rows, doc)
    requires forall f :: f in files ==> !Contains(Lower(f), Lower(doc))
    ensures ProcessPdf(o, fs, BuildIndex(files), doc, rows, fuel) == Finished(fs, rows + [UnmatchedRow(doc)])
    ensures RangeFile(Matches(BuildIndex(files), Lower(doc))).None?
  {
    var ms := Matches(BuildIndex(files), Lower(doc));
    if |ms| > 0 {
      MatchesMeaning(files, doc, ms[0]);
    }
  }

  /** A worker whose extraction loop found the declaration appends, after
      the NO rows of the loop, either the batch rows of its range file (a
      range file was found and the working text confirms the range) or one
      row for the identifier naming the file read, OK exactly when the text
      confirms it. Either way the registration is the one read from the
      working text. */
  lemma DeclaredRows<FS>(o: Oracles<FS>, fs: FS, idx: seq<Entry>, doc: String, rows: seq<Row>, fuel: nat)
    requires !AlreadyRecorded(rows, doc)
    requires |Matches(idx, Lower(doc))| > 0
    requires var m := Matches(idx, Lower(doc)); var job := Job(doc, m[0], RangeFile(m).Some?);
      Run(o, job, Start(fs, job), fuel).Declared?
    ensures var m := Matches(idx, Lower(doc));
      var batch := RangeFile(m);
      var job := Job(doc, m[0], batch.Some?);
      var out := Run(o, job, Start(fs, job), fuel);
      var peb := Registration(out.text);
      var range := if batch.Some? then Some(batch.value.0) else None;
      ProcessPdf(o, fs, idx, doc, rows, fuel) == Finished(out.fs, rows + out.emitted +
        if batch.Some? && Confirmed(out.text, doc, range)
        then BatchRows(peb, batch.value.0.lo, batch.value.0.hi, batch.value.1)
        else [Row(peb, doc, Some(m[0]), None, if Confirmed(out.text, doc, range) then OK else NO)])
  {
  }

  /** A worker whose extraction loop did not find the declaration keeps
      the loop's NO rows: it finishes when the loop gave up, and crashes or
      hangs with them otherwise. */
  lemma StoppedRows<FS>(o: Oracles<FS>, fs: FS, idx: seq<Entry>, doc: String, rows: seq<Row>, fuel: nat)
    requires !AlreadyRecorded(rows, doc)
    requires |Matches(idx, Lower(doc))| > 0
    requires var m := Matches(idx, Lower(doc)); var job := Job(doc, m[0], RangeFile(m).Some?);
      !Run(o, job, Start(fs, job), fuel).Declared?
    ensures var m := Matches(idx, Lower(doc));
      var job := Job(doc, m[0], RangeFile(m).Some?);
      var out := Run(o, job, Start(fs, job), fuel);
      var r := ProcessPdf(o, fs, idx, doc, rows, fuel);
      && r.rows == rows + out.emitted
      && (r.Finished? <==> out.GaveUp?) && (r.Crashed? <==> out.Unreadable?) && (r.Hung? <==> out.Diverged?)
      && (r.Finished? ==> r.fs == out.fs)
  {
  }

  /** In dictionary order, the range file is the first candidate entry
      whose file name parses to a range. */
  lemma RangeFileInIndexOrder(idx: seq<Entry>, needle: String)
    requires RangeFile(Matches(idx, needle)).Some?
    ensures var f := RangeFile(Matches(idx, needle)).value.1;
      exists j :: 0 <= j < |idx| && idx[j].file == f && Contains(idx[j].key, needle) && HasRange(f)
                  && forall j' :: 0 <= j' < j && Contains(idx[j'].key, needle) ==> !HasRange(idx[j'].file)
  {
    var ms := Matches(idx, needle);
    var k := FirstWhere(ms, HasRange).value;
    FirstMatchWhere(idx, needle, HasRange, k);
  }

  /** The file read is always the first candidate, while the batch rows
      name the first candidate whose name parses to a range: the two
      differ whenever the first candidate has no range and a later one
      has. */
  lemma ReadFileMayDifferFromBatchFile(matches: seq<String>)
    requires |matches| > 0 && ParseRange(matches[0]).None?
    requires exists f :: f in matches && ParseRange(f).Some?
    ensures RangeFile(matches).Some? && RangeFile(matches).value.1 != matches[0]
  {
  }

  /** A worker for an identifier not yet recorded appends a row naming it:
      the identifier itself, or, for a confirmed batch, the invoices of the
      range (or, when it stops early, the NO rows of the extraction
      loop). */
  lemma FinishedRowsNameTheDocument<FS>(o: Oracles<FS>, fs: FS, idx: seq<Entry>, doc: String,
                                        rows: seq<Row>, fuel: nat)
    requires !AlreadyRecorded(rows, doc)
    requires ProcessPdf(o, fs, idx, doc, rows, fuel).Finished?
    ensures var r := ProcessPdf(o, fs, idx, doc, rows, fuel).rows;
      |r| > |rows| &&
      (r[|rows|].invoice == doc
       || exists rg: Range, source :: RangeFile(Matches(idx, Lower(doc))) == Some((rg, source))
            && r[|rows|..] == BatchRows(Registration(TextOf(o, fs, idx, doc, fuel)), rg.lo, rg.hi, source))
  {
    var matches := Matches(idx, Lower(doc));
    if |matches| > 0 {
      var batch := RangeFile(matches);
      var job := Job(doc, matches[0], batch.Some?);
      RunAppendsNoRows(o, job, Start(fs, job), fuel);
      var out := Run(o, job, Start(fs, job), fuel);
      var r := ProcessPdf(o, fs, idx, doc, rows, fuel).rows;
      if out.Declared? && |out.emitted| == 0 {
        assert r == rows + Expand(doc, matches[0], batch, Registration(out.text),
                                  Confirmed(out.text, doc, if batch.Some? then Some(batch.value.0) else None));
        assert r[|rows|..] == Expand(doc, matches[0], batch, Registration(out.text),
                                  Confirmed(out.text, doc, if batch.Some? then Some(batch.value.0) else None));
      } else {
        assert r[|rows|] == out.emitted[0];
      }
    }
  }

  /** The working text a worker's extraction loop ends with, or the empty
      text when it ends otherwise. */
  function TextOf<FS>(o: Oracles<FS>, fs: FS, idx: seq<Entry>, doc: String, fuel: nat): String
  {
    var matches := Matches(idx, Lower(doc));
    if |matches| == 0 then []
    else
      var job := Job(doc, matches[0], RangeFile(matches).Some?);
      var out := Run(o, job, Start(fs, job), fuel);
      if out.Declared? then out.text else []
  }

  /** The duplicate test compares the folded identifier with the invoice
      column as written, so it never matches a row whose invoice starts
      with an upper-case letter, such as the `VAM-<n>` rows of a batch: an
      identifier covered by an earlier batch is processed again. */
  lemma RecordedTestIsCaseSensitive(rows: seq<Row>, doc: String)
    requires forall j :: 0 <= j < |rows| ==> |rows[j].invoice| > 0 && IsUpper(rows[j].invoice[0])
    ensures !AlreadyRecorded(rows, doc)
  {
    LowerIdempotent(doc);
    forall j | 0 <= j < |rows|
      ensures Invoices(rows)[j] != Lower(doc)
    {
      if |doc| > 0 {
        assert !IsUpper(Lower(doc)[0]);
      }
    }
  }

  /** In particular the rows of a batch never stop a later identifier. */
  lemma BatchRowsDoNotSuppress(peb: Option<String>, lo: nat, hi: nat, source: String, doc: String)
    ensures !AlreadyRecorded(BatchRows(peb, lo, hi, source), doc)
  {
    var rows := BatchRows(peb, lo, hi, source);
    forall j | 0 <= j < |rows|
      ensures |rows[j].invoice| > 0 && IsUpper(rows[j].invoice[0])
    {
      assert rows[j].invoice == "VAM-" + Decimal(lo + j);
    }
    RecordedTestIsCaseSensitive(rows, doc);
  }

  // ---------------------------------------------------------------------
  // Properties of the driver

  /** A run that ends normally accounts for every identifier it does not
      find in its own invoice column at the end: each such identifier was
      missing when its turn came too, and added at least one row. */
  lemma {:induction false} EveryIdentifierAccountedFor<FS>(o: Oracles<FS>, fs: FS, idx: seq<Entry>,
                                                          docs: seq<String>, rows: seq<Row>, fuel: nat)
    requires ReconcileFrom(o, fs, idx, docs, rows, fuel).Finished?
    ensures var final := ReconcileFrom(o, fs, idx, docs, rows, fuel).rows;
      |final| >= |rows| + |Unrecorded(docs, final)|
    decreases |docs|
  {
    if |docs| > 0 {
      var final := ReconcileFrom(o, fs, idx, docs, rows, fuel).rows;
      var p := ProcessPdf(o, fs, idx, docs[0], rows, fuel);
      assert ReconcileFrom(o, fs, idx, docs, rows, fuel) == ReconcileFrom(o, p.fs, idx, docs[1..], p.rows, fuel);
      EveryIdentifierAccountedFor(o, p.fs, idx, docs[1..], p.rows, fuel);
      if AlreadyRecorded(rows, docs[0]) {
        RecordedPersists(rows, final, docs[0]);
      }
    }
  }

  /** The identifiers the invoice column does not contain. */
  function Unrecorded(docs: seq<String>, rows: seq<Row>): (r: seq<String>)
    ensures |r| <= |docs|
    ensures forall d :: d in r <==> d in docs && !AlreadyRecorded(rows, d)
  {
    if |docs| == 0 then []
    else if AlreadyRecorded(rows, docs[0]) then Unrecorded(docs[1..], rows)
    else [docs[0]] + Unrecorded(docs[1..], rows)
  }

  /** Rows are only ever appended, so an identifier once recorded stays
      recorded. */
  lemma RecordedPersists(rows: seq<Row>, more: seq<Row>, doc: String)
    requires |rows| <= |more| && more[..|rows|] == rows
    requires AlreadyRecorded(rows, doc)
    ensures AlreadyRecorded(more, doc)
  {
    var j :| 0 <= j < |rows| && Invoices(rows)[j] == Lower(doc);
    assert more[j] == rows[j];
    assert Invoices(more)[j] == Lower(doc);
  }

  /** An identifier with an upper-case letter is not stopped by its own
      earlier row: the row keeps the identifier as written and the test
      looks for its folded form. */
  lemma OwnRowDoesNotSuppress(doc: String, k: nat, row: Row)
    requires k < |doc| && IsUpper(doc[k])
    requires row.invoice == doc
    ensures !AlreadyRecorded([row], doc)
  {
    assert Lower(doc)[k] != doc[k];
    assert Invoices([row]) == [doc];
  }
}

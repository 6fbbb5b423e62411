/** The text-extraction loop of the parallel script (pdfpl.py:46-84). It
    reads the matched file; when the text is blank it switches to an OCR copy
    (making one first if none exists); when no page carries the declaration
    signature it records a NO row and, for a range file, runs the aggressive
    OCR and reads again. The world outside the program (opening a PDF,
    whether the OCR copy exists, running the OCR tool) is a set of functions
    over an abstract file-system state `FS`. */
module Escalation {
  import opened Wrappers
  import opened Text
  import opened Signature
  import opened Records

  /** The file being read: the matched file in the document folder, or its
      OCR copy (same name, in the OCR folder). */
  datatype PdfPath = Original(name: String) | OcrCopy(name: String)

  /** `pages` is what pdfplumber extracts, one string per page (None when
      the file cannot be opened, which ends the worker with an exception);
      `hasCopy` is `os.path.exists` on the OCR copy; the two OCR runs write
      a new OCR copy of the matched file. */
  datatype Oracles<!FS> = Oracles(
    pages: (FS, PdfPath) -> Option<seq<String>>,
    hasCopy: (FS, String) -> bool,
    ocrBasic: (FS, String) -> FS,
    ocrAggressive: (FS, String) -> FS)

  /** The identifier, the first matching file (the one read), and whether
      a range file was found (`source_file` is set, pdfpl.py:78). */
  datatype Job = Job(doc: String, name: String, retry: bool)

  /** The loop's state between passes: the file system, the file to read
      next, and the rows appended so far. */
  datatype Pass<FS> = Pass(fs: FS, source: PdfPath, emitted: seq<Row>)

  datatype Outcome<FS> =
    | Declared(fs: FS, emitted: seq<Row>, text: String)
    | GaveUp(fs: FS, emitted: seq<Row>)
    | Unreadable(fs: FS, emitted: seq<Row>)
    | Diverged(fs: FS, emitted: seq<Row>)

  datatype Step<FS> = Continue(next: Pass<FS>) | Stop(outcome: Outcome<FS>)

  /** The row of pdfpl.py:72-76. */
  function NoDeclarationRow(job: Job): Row
  {
    Row(None, job.doc, Some(job.name), None, NO)
  }

  /** `page_text.strip()` is empty for the pages joined with line feeds. */
  predicate BlankDocument(pages: seq<String>)
  {
    IsBlank(Join(pages, '\n'))
  }

  predicate SomeDeclarationPage(pages: seq<String>)
  {
    exists i :: 0 <= i < |pages| && IsDeclarationPage(pages[i])
  }

  /** One pass of the `while True` loop. */
  function StepOnce<FS>(o: Oracles<FS>, job: Job, p: Pass<FS>): (r: Step<FS>)
    ensures r.Continue? ==> r.next.source == OcrCopy(job.name)
    ensures r.Continue? ==> r.next.emitted == p.emitted
                            || (job.retry && r.next.emitted == p.emitted + [NoDeclarationRow(job)])
    ensures r.Stop? ==> r.outcome.fs == p.fs && !r.outcome.Diverged?
    ensures r.Stop? && r.outcome.GaveUp? ==> !job.retry && r.outcome.emitted == p.emitted + [NoDeclarationRow(job)]
    ensures r.Stop? && !r.outcome.GaveUp? ==> r.outcome.emitted == p.emitted
    ensures r.Stop? && r.outcome.Unreadable? <==> o.pages(p.fs, p.source).None?
    ensures r.Stop? && r.outcome.Declared? <==>
      o.pages(p.fs, p.source).Some? && !BlankDocument(o.pages(p.fs, p.source).value)
      && SomeDeclarationPage(o.pages(p.fs, p.source).value)
  {
    match o.pages(p.fs, p.source)
    case None => Stop(Unreadable(p.fs, p.emitted))
    case Some(ps) =>
      if BlankDocument(ps) then
        var fs := if o.hasCopy(p.fs, job.name) then p.fs else o.ocrBasic(p.fs, job.name);
        Continue(Pass(fs, OcrCopy(job.name), p.emitted))
      else
        var kept := DeclarationPages(ps);
        if |kept| > 0 then
          assert IsDeclarationPage(ps[kept[0]]);
          Stop(Declared(p.fs, p.emitted, WorkingText(ps, kept)))
        else
          var emitted := p.emitted + [NoDeclarationRow(job)];
          if job.retry then Continue(Pass(o.ocrAggressive(p.fs, job.name), OcrCopy(job.name), emitted))
          else Stop(GaveUp(p.fs, emitted))
  }

  /** What one pass does, case by case, for every input. A blank text
      moves on to the OCR copy, running the basic OCR only when no copy
      exists yet. A text without a declaration page appends a NO row and,
      with a range file, runs the aggressive OCR and moves on to the copy;
      without one it gives up. A text with a declaration page stops with
      the working text of its kept pages. No other case touches the file
      system. */
  lemma StepOnceCases<FS>(o: Oracles<FS>, job: Job, p: Pass<FS>)
    ensures o.pages(p.fs, p.source).None? ==> StepOnce(o, job, p) == Stop(Unreadable(p.fs, p.emitted))
    ensures var read := o.pages(p.fs, p.source);
      read.Some? && BlankDocument(read.value) ==>
        StepOnce(o, job, p) == Continue(Pass(if o.hasCopy(p.fs, job.name) then p.fs else o.ocrBasic(p.fs, job.name),
                                             OcrCopy(job.name), p.emitted))
    ensures var read := o.pages(p.fs, p.source);
      read.Some? && !BlankDocument(read.value) && !SomeDeclarationPage(read.value) ==>
        StepOnce(o, job, p) == if job.retry
          then Continue(Pass(o.ocrAggressive(p.fs, job.name), OcrCopy(job.name), p.emitted + [NoDeclarationRow(job)]))
          else Stop(GaveUp(p.fs, p.emitted + [NoDeclarationRow(job)]))
    ensures var read := o.pages(p.fs, p.source);
      read.Some? && !BlankDocument(read.value) && SomeDeclarationPage(read.value) ==>
        StepOnce(o, job, p) == Stop(Declared(p.fs, p.emitted, WorkingText(read.value, DeclarationPages(read.value))))
  {
    var read := o.pages(p.fs, p.source);
    if read.Some? {
      var kept := DeclarationPages(read.value);
      if SomeDeclarationPage(read.value) {
        var i :| 0 <= i < |read.value| && IsDeclarationPage(read.value[i]);
        assert i in kept;
      }
    }
  }

  /** The loop, run for at most `fuel` passes; Diverged when the passes run
      out. */
  function Run<FS>(o: Oracles<FS>, job: Job, p: Pass<FS>, fuel: nat): Outcome<FS>
    decreases fuel
  {
    if fuel == 0 then Diverged(p.fs, p.emitted)
    else
      match StepOnce(o, job, p)
      case Stop(out) => out
      case Continue(q) => Run(o, job, q, fuel - 1)
  }

  /** The loop as pdfpl.py:49-50 starts it: read the matched file itself,
      nothing appended yet. */
  function Start<FS>(fs: FS, job: Job): Pass<FS>
  {
    Pass(fs, Original(job.name), [])
  }

  // ---------------------------------------------------------------------
  // What the loop appends

  /** The loop only ever appends NO rows for the identifier, naming the
      file read, and never removes a row. */
  lemma {:induction false} RunAppendsNoRows<FS>(o: Oracles<FS>, job: Job, p: Pass<FS>, fuel: nat)
    ensures var e := Run(o, job, p, fuel).emitted;
      |p.emitted| <= |e| && e[..|p.emitted|] == p.emitted
      && forall j :: |p.emitted| <= j < |e| ==> e[j] == NoDeclarationRow(job)
    decreases fuel
  {
    if fuel > 0 {
      match StepOnce(o, job, p)
      case Stop(out) =>
      case Continue(q) =>
        RunAppendsNoRows(o, job, q, fuel - 1);
    }
  }

  /** Without a range file the loop appends at most one row, and it gives
      up only after appending it. */
  lemma {:induction false} NoRetryAtMostOneRow<FS>(o: Oracles<FS>, job: Job, p: Pass<FS>, fuel: nat)
    requires !job.retry
    ensures var out := Run(o, job, p, fuel);
      && (out.GaveUp? ==> |out.emitted| == |p.emitted| + 1)
      && (!out.GaveUp? ==> out.emitted == p.emitted)
    decreases fuel
  {
    if fuel > 0 {
      match StepOnce(o, job, p)
      case Stop(out) =>
      case Continue(q) =>
        NoRetryAtMostOneRow(o, job, q, fuel - 1);
    }
  }

  /** Giving up always follows a NO row; so does every aggressive retry. */
  lemma {:induction false} GiveUpAppends<FS>(o: Oracles<FS>, job: Job, p: Pass<FS>, fuel: nat)
    ensures Run(o, job, p, fuel).GaveUp? ==> |Run(o, job, p, fuel).emitted| > |p.emitted|
    decreases fuel
  {
    if fuel > 0 {
      match StepOnce(o, job, p)
      case Stop(out) =>
      case Continue(q) =>
        GiveUpAppends(o, job, q, fuel - 1);
    }
  }

  /** More passes change nothing once the loop has stopped. */
  lemma {:induction false} RunFuelMonotone<FS>(o: Oracles<FS>, job: Job, p: Pass<FS>, fuel: nat, more: nat)
    requires fuel <= more
    requires !Run(o, job, p, fuel).Diverged?
    ensures Run(o, job, p, more) == Run(o, job, p, fuel)
    decreases fuel
  {
    match StepOnce(o, job, p)
    case Stop(out) =>
    case Continue(q) =>
      RunFuelMonotone(o, job, q, fuel - 1, more - 1);
  }

  // ---------------------------------------------------------------------
  // When the loop never ends

  /** The OCR copy exists and reads blank: the loop reads it again and
      again without running the OCR tool, for any number of passes. */
  lemma {:induction false} BlankCopySpins<FS>(o: Oracles<FS>, job: Job, fs: FS, emitted: seq<Row>, fuel: nat)
    requires o.hasCopy(fs, job.name)
    requires o.pages(fs, OcrCopy(job.name)).Some? && BlankDocument(o.pages(fs, OcrCopy(job.name)).value)
    ensures Run(o, job, Pass(fs, OcrCopy(job.name), emitted), fuel) == Diverged(fs, emitted)
    decreases fuel
  {
    if fuel > 0 {
      BlankCopySpins(o, job, fs, emitted, fuel - 1);
    }
  }

  function Repeat<T>(x: T, n: nat): (xs: seq<T>)
    ensures |xs| == n && forall j :: 0 <= j < n ==> xs[j] == x
  {
    if n == 0 then [] else Repeat(x, n - 1) + [x]
  }

  /** With a range file, an aggressive OCR copy that still shows no
      declaration page is OCR'd again and read again: every pass appends
      another NO row and the loop does not end. */
  lemma {:induction false} RetrySpins<FS>(o: Oracles<FS>, job: Job, fs: FS, emitted: seq<Row>, fuel: nat)
    requires job.retry
    requires o.ocrAggressive(fs, job.name) == fs
    requires o.pages(fs, OcrCopy(job.name)).Some?
    requires !BlankDocument(o.pages(fs, OcrCopy(job.name)).value)
    requires !SomeDeclarationPage(o.pages(fs, OcrCopy(job.name)).value)
    ensures Run(o, job, Pass(fs, OcrCopy(job.name), emitted), fuel)
         == Diverged(fs, emitted + Repeat(NoDeclarationRow(job), fuel))
    decreases fuel
  {
    if fuel > 0 {
      RetrySpins(o, job, fs, emitted + [NoDeclarationRow(job)], fuel - 1);
      assert emitted + [NoDeclarationRow(job)] + Repeat(NoDeclarationRow(job), fuel - 1)
          == emitted + Repeat(NoDeclarationRow(job), fuel);
    } else {
      assert emitted + Repeat(NoDeclarationRow(job), 0) == emitted;
    }
  }

  // ---------------------------------------------------------------------
  // A scanned declaration

  /** A scan with no text layer and no OCR copy yet: the first pass runs
      the basic OCR, the second reads the copy, finds the declaration and
      appends nothing. */
  lemma ScannedDeclaration<FS>(o: Oracles<FS>, job: Job, fs: FS, fuel: nat)
    requires fuel >= 2
    requires o.pages(fs, Original(job.name)).Some? && BlankDocument(o.pages(fs, Original(job.name)).value)
    requires !o.hasCopy(fs, job.name)
    requires var fs' := o.ocrBasic(fs, job.name);
      o.pages(fs', OcrCopy(job.name)).Some?
      && !BlankDocument(o.pages(fs', OcrCopy(job.name)).value)
      && SomeDeclarationPage(o.pages(fs', OcrCopy(job.name)).value)
    ensures var out := Run(o, job, Start(fs, job), fuel);
      out.Declared? && out.fs == o.ocrBasic(fs, job.name) && out.emitted == []
  {
    var fs' := o.ocrBasic(fs, job.name);
    assert StepOnce(o, job, Start(fs, job)) == Continue(Pass(fs', OcrCopy(job.name), []));
  }

  /** The pages read from the OCR copy in `fs`: readable, with text, but
      no declaration page. */
  predicate CopyLacksDeclaration<FS>(o: Oracles<FS>, fs: FS, name: String)
  {
    o.pages(fs, OcrCopy(name)).Some? && !BlankDocument(o.pages(fs, OcrCopy(name)).value)
    && !SomeDeclarationPage(o.pages(fs, OcrCopy(name)).value)
  }

  predicate CopyDeclares<FS>(o: Oracles<FS>, fs: FS, name: String)
  {
    o.pages(fs, OcrCopy(name)).Some? && !BlankDocument(o.pages(fs, OcrCopy(name)).value)
    && SomeDeclarationPage(o.pages(fs, OcrCopy(name)).value)
  }

  /** A scan whose basic OCR shows no declaration but whose aggressive OCR
      does: with a range file the loop finds the declaration on the third
      pass, having already appended one NO row for the identifier. */
  lemma AggressiveRescue<FS>(o: Oracles<FS>, job: Job, fs: FS, fuel: nat)
    requires job.retry && fuel >= 3
    requires o.pages(fs, Original(job.name)).Some? && BlankDocument(o.pages(fs, Original(job.name)).value)
    requires !o.hasCopy(fs, job.name)
    requires CopyLacksDeclaration(o, o.ocrBasic(fs, job.name), job.name)
    requires CopyDeclares(o, o.ocrAggressive(o.ocrBasic(fs, job.name), job.name), job.name)
    ensures var out := Run(o, job, Start(fs, job), fuel);
      out.Declared? && out.emitted == [NoDeclarationRow(job)]
      && out.fs == o.ocrAggressive(o.ocrBasic(fs, job.name), job.name)
  {
    var fs1 := o.ocrBasic(fs, job.name);
    var fs2 := o.ocrAggressive(fs1, job.name);
    assert StepOnce(o, job, Start(fs, job)) == Continue(Pass(fs1, OcrCopy(job.name), []));
    assert StepOnce(o, job, Pass(fs1, OcrCopy(job.name), []))
        == Continue(Pass(fs2, OcrCopy(job.name), [NoDeclarationRow(job)]));
    var third := Pass(fs2, OcrCopy(job.name), [NoDeclarationRow(job)]);
    assert Run(o, job, Start(fs, job), fuel) == Run(o, job, Pass(fs1, OcrCopy(job.name), []), fuel - 1);
    assert Run(o, job, Pass(fs1, OcrCopy(job.name), []), fuel - 1) == Run(o, job, third, fuel - 2);
    assert StepOnce(o, job, third).Stop? && StepOnce(o, job, third).outcome.Declared?;
  }

  /** The same scan without a range file: the aggressive OCR never runs,
      and the loop gives up after the basic OCR with one NO row. */
  lemma NoRescueWithoutRange<FS>(o: Oracles<FS>, job: Job, fs: FS, fuel: nat)
    requires !job.retry && fuel >= 2
    requires o.pages(fs, Original(job.name)).Some? && BlankDocument(o.pages(fs, Original(job.name)).value)
    requires !o.hasCopy(fs, job.name)
    requires CopyLacksDeclaration(o, o.ocrBasic(fs, job.name), job.name)
    ensures Run(o, job, Start(fs, job), fuel) == GaveUp(o.ocrBasic(fs, job.name), [NoDeclarationRow(job)])
  {
    var fs1 := o.ocrBasic(fs, job.name);
    assert StepOnce(o, job, Start(fs, job)) == Continue(Pass(fs1, OcrCopy(job.name), []));
  }

  /** Blank text means every page is blank: line feeds are whitespace, so
      joining blank pages gives a blank text and a page with content makes
      the text non-blank. */
  lemma {:induction false} BlankDocumentMeaning(pages: seq<String>)
    ensures BlankDocument(pages) <==> forall i :: 0 <= i < |pages| ==> IsBlank(pages[i])
    decreases |pages|
  {
    if |pages| > 1 {
      BlankDocumentMeaning(pages[1..]);
      var rest := Join(pages[1..], '\n');
      assert Join(pages, '\n') == pages[0] + ['\n'] + rest;
      AllSpaceConcat(pages[0], ['\n'], rest);
      assert forall i :: 1 <= i < |pages| ==> pages[i] == pages[1..][i - 1];
    }
  }

  lemma AllSpaceConcat(a: String, b: String, c: String)
    ensures AllSpace(a + b + c) <==> AllSpace(a) && AllSpace(b) && AllSpace(c)
  {
    var s := a + b + c;
    if AllSpace(s) {
      assert forall k :: 0 <= k < |a| ==> a[k] == s[k];
      assert forall k :: 0 <= k < |b| ==> b[k] == s[|a| + k];
      assert forall k :: 0 <= k < |c| ==> c[k] == s[|a| + |b| + k];
    }
  }
}

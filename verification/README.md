# PEB reconciliation, modelled in Dafny

The system checks a spreadsheet of invoice identifiers (`VAM-1050`, …)
against a folder of scanned export declarations. A declaration is a PEB,
*Pemberitahuan Ekspor Barang*. For each identifier the worker does the following:

- It finds the files whose name contains the identifier.
- It reads a range such as `VAM-100-102` out of a file name.
- It extracts the text of the file, escalating to OCR when the text is blank or holds no declaration page.
- It keeps the pages that carry the declaration signature.
- It reads the registration number (*Nomor Pendaftaran*).
- It checks that the declaration names the invoice.
- It appends one row per invoice, or one row per number of a confirmed range.

Two scripts do this. `pdfpl.py` is the parallel one, and `read.py` is an
older single-process variant with different rules. This project models both
scripts' per-identifier logic. It models their drivers as sequential folds.

Modules:

- `Wrappers`: `Option` and a first-index search.
- `Text`: Python's string operations as the scripts use them:
  - `str.lower`, `in`, `split` and `join` on one character, `strip`;
  - decimal printing and `int()`.
- `VamTokens`: the case-sensitive patterns `VAM-(\d+)(?:-(\d+))?` and
  `VAM-(\d+)`, and the range a file name encodes.
- `Signature`: the declaration-page search
  `\bBC\s*3\.?0\b.*PEMBERITAHUAN EKSPOR BARANG` with `re.IGNORECASE`, and the
  page filter.
- `FileIndex`: the dictionary `{f.lower(): f}` and the filename matcher.
- `Fields`: the registration number and the confirmation test.
- `Records`: the output row and the batch expander.
- `Escalation`: the text-extraction loop as a step function over an explicit
  state.
  - The PDF reader, the "OCR copy exists" test and the two OCR runs are
    function parameters over an abstract file-system state.
  - The loop runs for a bounded number of passes.
- `Reconcile`: `process_pdf` and the sequential driver.
- `Legacy`: the loop body and loop of `read.py`, over its five parallel
  output lists.

## Behaviour of the scripts worth knowing

The model reproduces each of these behaviours of the code.

- The page signature's `\s*` also matches line feeds. So `BC` and `3.0` may
  sit on different lines. Only the `.*` before the phrase is confined to one
  line (`Signature.SignatureSpansLines`).
- The aggressive OCR retry at pdfpl.py:78-81 runs only when a range file was
  found. Each retry first appends a NO row.
  - Without a range file the loop gives up after one NO row.
  - With one, the loop repeats for as long as the aggressive OCR shows no
    declaration. The loop has no other way out of that case.
  - An OCR copy that reads blank is read again forever (pdfpl.py:56-60).
  - An OCR run that writes no file makes the next read raise an exception.
- The duplicate test at pdfpl.py:11 compares the folded identifier with the
  invoice column as written. The rows of an expanded batch (`VAM-<n>`)
  therefore never suppress a later identifier. An identifier with an
  upper-case letter is not suppressed by its own earlier row either.
- The batch branch at pdfpl.py:30-37 is dead. It runs only when no file
  matches, and then no range can have been read. An unconfirmed range file
  gives a single NO row for the identifier (pdfpl.py:123-128).
- In the range case (pdfpl.py:103-113), a line with the invoice header must
  hold the folded identifier as well as some `vam-<n>` of the range. A
  packing-list line needs only the `vam-<n>`. The test is a substring test,
  so `vam-10` is found inside `vam-100`.

## Model

| member | source | states |
|---|---|---|
| Text.Contains | pdfpl.py:88 | `needle in hay` holds exactly when the needle occurs at some index |
| Text.Split | pdfpl.py:87 | `split("\n")` gives at least one piece; no piece holds the separator; joining the pieces gives the text back |
| Text.SplitAround | pdfpl.py:70 | one line feed between two texts splits into the lines of the first followed by the lines of the second |
| Text.SplitJoin | pdfpl.py:87 | splitting a join of separator-free pieces gives the pieces back |
| Text.SplitLower | pdfpl.py:93 | folding the text, then splitting, gives the folded lines of the text |
| Text.StripMeaning | pdfpl.py:89 | `strip()` returns an infix with only whitespace around it, neither starting nor ending with whitespace; it is empty exactly for blank text |
| Text.LowerIdempotent | pdfpl.py:10 | folding twice is folding once, and folded text has no upper-case letter |
| Text.DecimalRoundTrip | pdfpl.py:117 | `int(f"{n}")` is n |
| Text.DecimalAppendDigit | pdfpl.py:107 | the decimal of 10n+d is the decimal of n followed by the digit d |
| FileIndex.Lookup | pdfpl.py:153 | a dictionary read finds a value exactly when some entry has the key, and returns that entry's value |
| FileIndex.Put | pdfpl.py:153 | a dictionary write keeps keys distinct, changes only the written key, and appends a new key at the end |
| FileIndex.BuildIndexLookup | pdfpl.py:152-153 | each folded file name maps to the last file in the listing with that folded name; nothing else is a key |
| FileIndex.BuildIndexOrder | pdfpl.py:152-153 | the keys are the folded names in order of first appearance |
| FileIndex.Matches | pdfpl.py:14 | the candidates are the files of the entries whose key contains the folded identifier, the first one belonging to the first such entry |
| FileIndex.MatchesInOrder | pdfpl.py:14 | the candidates are the files of the matching entries in ascending dictionary position, and those positions are exactly the entries whose key contains the folded identifier |
| FileIndex.FirstMatchWhere | pdfpl.py:14-27 | the first candidate with a property is the file of the first matching entry, in dictionary order, with that property |
| FileIndex.MatchesMeaning | pdfpl.py:14 | a file is a candidate exactly when it is listed, its folded name contains the folded identifier, and it is the last listed file with that folded name |
| VamTokens.FindVam | pdfpl.py:154 | the search finds the leftmost `VAM-<digit>` at or after the start, or reports that there is none |
| VamTokens.DigitsEnd | pdfpl.py:154 | the greedy `\d+` stops at the first non-digit |
| VamTokens.FindVamLeftmost | pdfpl.py:21 | the search returns exactly the leftmost match at or after its start |
| VamTokens.FirstRangeTokenMeaning | pdfpl.py:21 | there is a first match exactly when the text holds `VAM-<digit>`; its groups are the digit runs of the leftmost token, the second empty unless `-<digit>` follows the first |
| VamTokens.ParseRangeMeaning | pdfpl.py:20-24 | a range is read exactly when the leftmost token of the name has a `-<digits>` tail |
| VamTokens.ParseRangeBounds | pdfpl.py:20-24 | when the leftmost token has a second number, the range is [first run, second run] read as numbers, leading zeros allowed |
| VamTokens.ParseRangeRoundTrip | pdfpl.py:20-24 | writing `VAM-<lo>-<hi>` after a token-free prefix, followed by a non-digit or nothing, reads back as [lo, hi] |
| VamTokens.ParseWrittenRange | pdfpl.py:20-24 | a name that is exactly `VAM-<lo>-<hi>` reads back as [lo, hi] |
| VamTokens.SingleTokenIsNoRange | pdfpl.py:22 | a single-number token yields no range |
| Reconcile.RangeFile | pdfpl.py:20-27 | the range file is the first candidate whose name parses to a range, with that range; there is none exactly when no candidate parses |
| Reconcile.RangeFileInIndexOrder | pdfpl.py:14-27 | the range file is the file of the first matching entry, in dictionary order, whose name parses to a range |
| Reconcile.ReadFileMayDifferFromBatchFile | pdfpl.py:20-46 | when the first candidate has no range and a later one has, the batch rows name a different file from the one read |
| Signature.PhraseOnLine | pdfpl.py:66 | `.*PEMBERITAHUAN EKSPOR BARANG` matches exactly when the phrase starts later on the same line, in any case |
| Signature.SignatureFromMeaning | pdfpl.py:66 | the match attempt at one position succeeds exactly when a full match starts there |
| Signature.DeclarationPageMeaning | pdfpl.py:66 | the left-to-right search succeeds exactly when the pattern has some match in the page |
| Signature.SignatureSpansLines | pdfpl.py:66 | `BC` on one line and `3.0 <phrase>` on the next is a declaration page |
| Signature.LineKeepsPage | pdfpl.py:66 | a line carrying the signature keeps its page, whatever follows it and whatever precedes it, as long as what precedes ends in a non-word character |
| Signature.DeclarationPages | pdfpl.py:62-67 | the kept page numbers are valid, ascending, and include every declaration page |
| Signature.FilterIdempotent | pdfpl.py:62-67 | filtering the kept pages again keeps all of them |
| Signature.WorkingTextLines | pdfpl.py:67-70 | the lines of the working text are, for each kept page in order, an empty line, the header `📄 Page <n>:` and the page's own lines |
| Signature.BlockLines | pdfpl.py:67 | one kept page's block splits into an empty line, its header line and the page's lines |
| Fields.FieldValueMeaning | pdfpl.py:89 | the value is what follows the last colon, stripped, and holds no colon |
| Fields.FieldValueClean | pdfpl.py:89 | a value read from a line holds no colon and no line feed, and does not start or end with whitespace |
| Fields.RegistrationMeaning | pdfpl.py:86-90 | nothing is found exactly when no line mentions the key in any case; otherwise the value of the first line that does, without colon, line feed or surrounding whitespace |
| Fields.RegistrationRoundTrip | pdfpl.py:86-90 | a first line `<label>:<spaces><value>` whose label mentions the key reads back the value |
| Fields.RegistrationExample | pdfpl.py:86-90 | "Nomor Pendaftaran: PEB-2024-0001" gives "PEB-2024-0001" |
| Fields.MentionsRange | pdfpl.py:107 | the line mentions the range exactly when it contains `vam-<n>` for some n from lo to hi |
| Fields.ConfirmedPlainMeaning | pdfpl.py:92-101 | without a range: confirmed exactly when some folded line contains the folded identifier and either header |
| Fields.ConfirmedRangeMeaning | pdfpl.py:103-113 | with a range: confirmed exactly when some folded line mentions the range and either has the invoice header with the identifier, or has the packing-list header |
| Fields.EmptyRangeNeverConfirmed | pdfpl.py:103-113 | a range whose start exceeds its end is never confirmed |
| Fields.ConfirmedIgnoresCase | pdfpl.py:93-99 | texts and identifiers that fold alike get the same verdict |
| Fields.LongerNumberConfirms | pdfpl.py:107 | a line naming `vam-<10n+d>` also mentions n |
| Records.BatchRows | pdfpl.py:115-122 | a range [lo, hi] gives hi-lo+1 rows (none if empty), the j-th for `VAM-<lo+j>`, each OK and naming the range file as file and origin |
| Records.BatchInvoiceNumbers | pdfpl.py:116-119 | each batch invoice reads back as `VAM-` followed by its number lo+j, so the invoices are pairwise distinct |
| Records.Expand | pdfpl.py:115-128 | a confirmed batch gives hi-lo+1 OK rows `VAM-<lo+j>` naming the range file as file and origin; anything else gives one row for the identifier naming the file read, without origin, OK exactly when confirmed; every row carries the given registration |
| Reconcile.ExpandNotEmpty | pdfpl.py:115-128 | the expander always appends at least one row |
| Escalation.StepOnceCases | pdfpl.py:52-84 | for every input: an unreadable file stops; a blank text moves to the OCR copy, running the basic OCR only when no copy exists; a text without declaration appends a NO row and then runs the aggressive OCR and moves to the copy exactly with a range file, else gives up; a text with a declaration stops with the working text of its kept pages; only the two OCR runs change the file system |
| Escalation.StepOnce | pdfpl.py:52-84 | a pass continues only to the OCR copy, appending nothing or (with a range file) one NO row; it stops unreadable exactly when the file cannot be opened, declared exactly when the text is non-blank with a declaration page, and gives up only without a range file after one NO row |
| Escalation.BlankDocumentMeaning | pdfpl.py:54-56 | the joined text is blank exactly when every page is blank |
| Escalation.RunAppendsNoRows | pdfpl.py:72-76 | the loop keeps earlier rows and appends only NO rows for the identifier naming the file read |
| Escalation.NoRetryAtMostOneRow | pdfpl.py:78-83 | without a range file the loop appends one row when it gives up and none otherwise |
| Escalation.GiveUpAppends | pdfpl.py:69-83 | giving up always follows an appended row |
| Escalation.RunFuelMonotone | pdfpl.py:52-84 | once the loop stops within some number of passes, allowing more passes changes nothing |
| Escalation.BlankCopySpins | pdfpl.py:56-60 | an existing OCR copy that reads blank keeps the loop running for any number of passes without running OCR |
| Escalation.RetrySpins | pdfpl.py:78-81 | with a range file and an aggressive OCR that still shows no declaration, each pass appends another NO row and the loop does not stop |
| Escalation.ScannedDeclaration | pdfpl.py:56-70 | a scan with no copy yet is OCR'd once and its declaration found on the second pass, appending nothing |
| Escalation.AggressiveRescue | pdfpl.py:72-81 | with a range file, a basic OCR without declaration is followed by the aggressive OCR, whose declaration is found after one NO row |
| Escalation.NoRescueWithoutRange | pdfpl.py:78-83 | without a range file the same scan gives up after the basic OCR with one NO row |
| Reconcile.ProcessPdf | pdfpl.py:9-130 | a worker keeps earlier rows; it appends nothing exactly when the folded identifier is already in the invoice column, and then changes nothing |
| Reconcile.DeclaredRows | pdfpl.py:84-128 | once the declaration is found, the worker appends the loop's NO rows and then the batch rows of the range file when a range file exists and the working text confirms its range, and otherwise one row for the identifier naming the first candidate, OK exactly when confirmed; the registration is the one read from the working text |
| Reconcile.StoppedRows | pdfpl.py:52-84 | when the loop ends without a declaration the worker appends only the loop's NO rows, finishing exactly when the loop gave up, crashing exactly when a file could not be opened, and hanging exactly when the passes ran out |
| Reconcile.UnmatchedGetsOneRow | pdfpl.py:29-44 | an identifier no file name contains gets one NO row without file or origin, and has no range file |
| Reconcile.FinishedRowsNameTheDocument | pdfpl.py:115-128 | a worker for a new identifier that finishes appends at least one row, the first naming the identifier, unless the rows are the batch rows of its range file |
| Reconcile.RecordedTestIsCaseSensitive | pdfpl.py:10-12 | an invoice column whose entries all start upper-case never stops an identifier |
| Reconcile.BatchRowsDoNotSuppress | pdfpl.py:11 | the rows of a batch never stop a later identifier |
| Reconcile.OwnRowDoesNotSuppress | pdfpl.py:11 | an identifier with an upper-case letter is not stopped by its own earlier row |
| Reconcile.RecordedPersists | pdfpl.py:11 | an identifier once recorded stays recorded as rows are appended |
| Reconcile.ReconcileFrom | pdfpl.py:165 | the driver keeps every row it has appended |
| Reconcile.Unrecorded | pdfpl.py:11 | exactly the identifiers whose folded form is not in the invoice column |
| Reconcile.EveryIdentifierAccountedFor | pdfpl.py:165 | a run that ends normally appends at least one row for each identifier not in its final invoice column |
| Legacy.LegacyMatches | read.py:41 | the candidates are exactly the listed files whose folded name contains the folded identifier; the first is the first such file in the listing |
| Legacy.LegacyRangeExists | read.py:47-51 | a range is read exactly when the identifier holds a hyphen and a second `VAM-<digit>` starts at or after the end of the first token's digits |
| Legacy.LegacyRangeBounds | read.py:47-51 | the bounds are the digit runs of the first two tokens read as numbers |
| Legacy.LegacyRangeRoundTrip | read.py:47-51 | an identifier `VAM-<a>-VAM-<b>` gives the range [a, b] |
| Legacy.RangeTokenIsNoLegacyRange | read.py:47-51 | `VAM-<a>-<b>` gives no range here, while the parallel script reads [a, b] from it |
| Legacy.LegacyRegistrationMeaning | read.py:115-119 | nothing is found exactly when no line has the case-sensitive label; otherwise the value of the first line that has it, without colon, line feed or surrounding whitespace |
| Legacy.LegacyPlainMeaning | read.py:122-126 | without a range: confirmed exactly when some line holds the invoice label and the identifier, both case-sensitive |
| Legacy.LegacyRangeMeaning | read.py:128-136 | with a range: confirmed exactly when some line holds the invoice label and `VAM-<n>` for an n of the range; the identifier need not appear |
| Legacy.Verdict | read.py:97-147 | a page without text or without the case-sensitive header gives NO, no registration and no origin; otherwise the row is OK exactly when the page confirms the identifier under its range, the registration is the one read from the page, and the origin label is `PEB <id>.pdf` exactly when a range exists and the invoice is confirmed |
| Legacy.AppendRow | read.py:53-59 | appending to the five lists keeps them aligned, keeps earlier rows and adds the given row |
| Legacy.ProcessDoc | read.py:40-147 | a finished identifier adds exactly one aligned row naming it, with no file exactly when nothing matched; a crash leaves only the file list one entry longer |
| Legacy.ProcessDocRow | read.py:53-87 | the row is the unmatched NO row; or the verdict, naming the first candidate, on that file's first page when it has text, else on the first page of its OCR copy, made by the basic OCR only when no copy existed |
| Legacy.LegacyRun | read.py:40-147 | the lists stay aligned and the invoice list gains exactly the identifiers, in order |
| Legacy.OneRowPerIdentifier | read.py:40-147 | from empty lists, a finished run has one aligned row per identifier, in order |

## Left out

- `main.py` and `preprocess.py` are not part of this model: prompts, path
  handling, and image processing with OpenCV.
- Reading and writing the spreadsheets with pandas is left out, together
  with the check for the `INV NO` column (pdfpl.py:146-151, pdfpl.py:169-176,
  read.py:17-24, read.py:150-162). The driver takes the identifiers as a
  sequence and returns the rows.
- The multiprocessing pool and its shared lists (pdfpl.py:156-167): the driver is a sequential fold. So
  the test `ok_flags[-1] == "NO"` at pdfpl.py:78 is always true, being the
  flag the same worker has just appended. The race it has under parallelism
  is not modelled.
- pdfplumber, `os.path.exists` and ocrmypdf are function parameters over an
  abstract file-system state. An absent text layer is the empty string.
- Console output is left out.
- Escalation.Run: termination is not proved, because the loop can run
  forever (pdfpl.py:56-60, pdfpl.py:78-81). The loop runs for at most
  `fuel` passes and reports `Diverged` when they run out; a worker that
  diverges ends the run as `Hung`.
- Text.Lower: folds ASCII letters only. Python's `str.lower`, and the case
  folding of `re.IGNORECASE`, also fold other letters, such as the Kelvin
  sign matching `k`.
- Text.IsSpace: ASCII whitespace and the four separators 28-31, as
  `str.isspace` counts them on ASCII text. Unicode spaces are not counted.
  `\w` is taken as `[A-Za-z0-9_]`.
- VamTokens.DigitsEnd: `\d` and `int()` also accept non-ASCII decimal
  digits such as Arabic-Indic ones; the model reads ASCII digits only.
- Reconcile.ProcessPdf: the branch at pdfpl.py:30-37 is not modelled. It
  runs only when no file matches, and then no range can have been read.
  `Reconcile.UnmatchedGetsOneRow` states that no range file exists in that
  case.
- Legacy.FirstPage: a file that cannot be opened, or has no pages, ends the
  run (`Crashed`), as the script's exception would. The script writes its
  lists only at read.py:150-162, so such a run writes nothing; the model's
  `Crashed` carries the in-memory lists as they stood.

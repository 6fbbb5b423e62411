/** The declaration-page signature of the parallel script: a page is kept
    when `re.search(r'\bBC\s*3\.?0\b.*PEMBERITAHUAN EKSPOR BARANG', text,
    re.IGNORECASE)` finds a match. Without DOTALL, `.` does not match a line
    feed, so the phrase must sit on the line where the version number ends;
    `\s*`, however, does match line feeds, so `BC` and `3.0` may sit on
    different lines. */
module Signature {
  import opened Text

  /** The phrase, folded to lower case (the search ignores case). */
  const Phrase: String := "pemberitahuan ekspor barang"

  predicate PhraseAt(s: String, p: int)
  {
    0 <= p && p + |Phrase| <= |s| && Lower(s[p..p + |Phrase|]) == Phrase
  }

  /** No line feed in `s[m..p]`: what `.*` may consume. */
  predicate SameLine(s: String, m: int, p: int)
    requires 0 <= m <= p <= |s|
  {
    forall q :: m <= q < p ==> s[q] != '\n'
  }

  /** The regular expression matches with `BC` at `i`, the digit `3` at
      `k`, the version ending at `m` and the phrase starting at `p`. */
  predicate SignatureWitness(s: String, i: int, k: int, m: int, p: int)
  {
    && 0 <= i && i + 2 <= k && k < m <= p && p + |Phrase| <= |s|
    && (i == 0 || !IsWordChar(s[i - 1]))
    && Lower(s[i..i + 2]) == "bc"
    && (forall q :: i + 2 <= q < k ==> IsSpace(s[q]))
    && s[k] == '3'
    && (s[k + 1..m] == "0" || s[k + 1..m] == ".0")
    && !IsWordChar(s[m])
    && SameLine(s, m, p)
    && PhraseAt(s, p)
  }

  /** Reference meaning of the search: some way of matching exists. */
  ghost predicate HasSignature(s: String)
  {
    exists i, k, m, p :: SignatureWitness(s, i, k, m, p)
  }

  // ---------------------------------------------------------------------
  // The search, as the regular-expression engine performs it

  /** `.*PEMBERITAHUAN EKSPOR BARANG` from `m`: scan forward, stopping at
      the end of the line. */
  function PhraseOnLine(s: String, m: nat): (r: bool)
    requires m <= |s|
    ensures r <==> exists p :: m <= p <= |s| && SameLine(s, m, p) && PhraseAt(s, p)
    decreases |s| - m
  {
    if PhraseAt(s, m) then
      assert SameLine(s, m, m);
      true
    else if m < |s| && s[m] != '\n' then
      var r := PhraseOnLine(s, m + 1);
      if r then
        var p :| m + 1 <= p <= |s| && SameLine(s, m + 1, p) && PhraseAt(s, p);
        assert SameLine(s, m, p);
        true
      else
        false
    else
      false
  }

  /** Where `\.?0` ends after the `3` at `k`, or 0 when it cannot match. */
  function VersionEnd(s: String, k: nat): nat
  {
    if k + 2 < |s| && s[k + 1] == '.' && s[k + 2] == '0' then k + 3
    else if k + 1 < |s| && s[k + 1] == '0' then k + 2
    else 0
  }

  /** The attempt to match with `BC` at `i`. Once `i` is fixed every part
      is determined: `\s*` must stop at the `3`, and `\.?0` has one way to
      match. */
  predicate SignatureFrom(s: String, i: nat)
  {
    && i + 2 <= |s|
    && (i == 0 || !IsWordChar(s[i - 1]))
    && Lower(s[i..i + 2]) == "bc"
    && var k := SkipSpaces(s, i + 2);
       && k < |s| && s[k] == '3'
       && var m := VersionEnd(s, k);
          && k < m < |s|
          && !IsWordChar(s[m])
          && PhraseOnLine(s, m)
  }

  lemma SignatureFromMeaning(s: String, i: nat)
    ensures SignatureFrom(s, i) <==> exists k, m, p :: SignatureWitness(s, i, k, m, p)
  {
    if SignatureFrom(s, i) {
      FromGivesWitness(s, i);
    }
    if k, m, p :| SignatureWitness(s, i, k, m, p) {
      WitnessGivesFrom(s, i, k, m, p);
    }
  }

  lemma FromGivesWitness(s: String, i: nat)
    requires SignatureFrom(s, i)
    ensures exists k, m, p :: SignatureWitness(s, i, k, m, p)
  {
    var k := SkipSpaces(s, i + 2);
    var m := VersionEnd(s, k);
    var p :| m <= p <= |s| && SameLine(s, m, p) && PhraseAt(s, p);
    if m == k + 3 {
      assert s[k + 1] == '.' && s[k + 2] == '0';
      assert s[k + 1..m] == [s[k + 1], s[k + 2]] == ".0";
    } else {
      assert m == k + 2 && s[k + 1] == '0';
      assert s[k + 1..m] == [s[k + 1]] == "0";
    }
    assert SignatureWitness(s, i, k, m, p);
  }

  lemma WitnessGivesFrom(s: String, i: nat, k: int, m: int, p: int)
    requires SignatureWitness(s, i, k, m, p)
    ensures SignatureFrom(s, i)
  {
    SkipSpacesStopsAt(s, i + 2, k);
    if s[k + 1..m] == ".0" {
      assert s[k + 1] == s[k + 1..m][0] && s[k + 2] == s[k + 1..m][1];
      assert m == k + 3;
    } else {
      assert s[k + 1] == s[k + 1..m][0];
      assert m == k + 2;
    }
    assert VersionEnd(s, k) == m;
    assert PhraseOnLine(s, m);
  }

  lemma SkipSpacesStopsAt(s: String, i: nat, k: nat)
    requires i <= k < |s|
    requires forall q :: i <= q < k ==> IsSpace(s[q])
    requires !IsSpace(s[k])
    ensures SkipSpaces(s, i) == k
  {
  }

  /** The search tries every start position from `i` on. */
  function SearchFrom(s: String, i: nat): bool
    decreases |s| - i
  {
    if i >= |s| then false else SignatureFrom(s, i) || SearchFrom(s, i + 1)
  }

  /** The page test of pdfpl.py:66. */
  predicate IsDeclarationPage(s: String)
  {
    SearchFrom(s, 0)
  }

  /** The left-to-right search succeeds exactly when the regular expression
      has some match. */
  lemma {:induction false} DeclarationPageMeaning(s: String)
    ensures IsDeclarationPage(s) <==> HasSignature(s)
  {
    SearchFromMeaning(s, 0);
  }

  lemma {:induction false} SearchFromMeaning(s: String, i: nat)
    ensures SearchFrom(s, i) <==> exists i', k, m, p :: i <= i' && SignatureWitness(s, i', k, m, p)
    decreases |s| - i
  {
    if i < |s| {
      SignatureFromMeaning(s, i);
      SearchFromMeaning(s, i + 1);
      if i', k, m, p :| i <= i' && SignatureWitness(s, i', k, m, p) {
        if i' == i {
          assert SignatureFrom(s, i);
        } else {
          assert SearchFrom(s, i + 1);
        }
      }
    }
  }

  // ---------------------------------------------------------------------
  // The page filter (pdfpl.py:62-67)

  /** The indices of the pages the filter keeps. */
  function DeclarationPages(pages: seq<String>): (kept: seq<nat>)
    ensures forall j :: 0 <= j < |kept| ==> kept[j] < |pages| && IsDeclarationPage(pages[kept[j]])
    ensures forall j, j' :: 0 <= j < j' < |kept| ==> kept[j] < kept[j']
    ensures forall i :: 0 <= i < |pages| && IsDeclarationPage(pages[i]) ==> i in kept
  {
    if |pages| == 0 then []
    else
      var rest := DeclarationPages(pages[..|pages| - 1]);
      if IsDeclarationPage(pages[|pages| - 1]) then rest + [|pages| - 1] else rest
  }

  /** The text of the kept pages, as the filter hands them on. */
  function KeptTexts(pages: seq<String>, kept: seq<nat>): (texts: seq<String>)
    requires forall j :: 0 <= j < |kept| ==> kept[j] < |pages|
    ensures |texts| == |kept|
    ensures forall j :: 0 <= j < |kept| ==> texts[j] == pages[kept[j]]
  {
    seq(|kept|, j requires 0 <= j < |kept| => pages[kept[j]])
  }

  /** Filtering is idempotent: every page that survived the filter survives
      it again, so a second pass keeps the whole list. */
  lemma FilterIdempotent(pages: seq<String>)
    ensures var once := KeptTexts(pages, DeclarationPages(pages));
      DeclarationPages(once) == seq(|once|, j => j)
  {
    var once := KeptTexts(pages, DeclarationPages(pages));
    AllKept(once);
  }

  lemma {:induction false} AllKept(pages: seq<String>)
    requires forall j :: 0 <= j < |pages| ==> IsDeclarationPage(pages[j])
    ensures DeclarationPages(pages) == seq(|pages|, j => j)
    decreases |pages|
  {
    if |pages| > 0 {
      AllKept(pages[..|pages| - 1]);
    }
  }

  // ---------------------------------------------------------------------
  // The working text (pdfpl.py:67-70)

  const PageMark: String := "\U{1F4C4} Page "

  /** The header line of a kept page, naming its 1-based page number. */
  function PageLabel(index: nat): String
  {
    PageMark + Decimal(index + 1) + ":"
  }

  /** A kept page as pdfpl.py:67 records it: a line feed, the header line,
      a line feed, then the page. */
  function PageBlock(index: nat, text: String): String
  {
    "\n" + PageLabel(index) + "\n" + text
  }

  /** The kept pages' blocks joined with line feeds (pdfpl.py:69-70). */
  function WorkingText(pages: seq<String>, kept: seq<nat>): String
    requires forall j :: 0 <= j < |kept| ==> kept[j] < |pages|
  {
    Join(Blocks(pages, kept), '\n')
  }

  function Blocks(pages: seq<String>, kept: seq<nat>): (bs: seq<String>)
    requires forall j :: 0 <= j < |kept| ==> kept[j] < |pages|
    ensures |bs| == |kept| && forall j :: 0 <= j < |kept| ==> bs[j] == PageBlock(kept[j], pages[kept[j]])
  {
    seq(|kept|, j requires 0 <= j < |kept| => PageBlock(kept[j], pages[kept[j]]))
  }

  /** The lines the field parser sees, page by page: for each kept page an
      empty line, its header line, then the page's own lines. */
  function WorkingLines(pages: seq<String>, kept: seq<nat>): seq<String>
    requires forall j :: 0 <= j < |kept| ==> kept[j] < |pages|
    decreases |kept|
  {
    if |kept| == 0 then []
    else ["", PageLabel(kept[0])] + Split(pages[kept[0]], '\n') + WorkingLines(pages, kept[1..])
  }

  /** Splitting the working text into lines gives, for each kept page in
      order, an empty line, the page's header line and the page's lines:
      no line of the working text mixes two pages or a header with text. */
  lemma {:induction false} WorkingTextLines(pages: seq<String>, kept: seq<nat>)
    requires |kept| > 0 && forall j :: 0 <= j < |kept| ==> kept[j] < |pages|
    ensures Split(WorkingText(pages, kept), '\n') == WorkingLines(pages, kept)
    decreases |kept|
  {
    var bs := Blocks(pages, kept);
    BlockLines(kept[0], pages[kept[0]]);
    if |kept| == 1 {
      assert WorkingText(pages, kept) == bs[0];
      assert WorkingLines(pages, kept) == ["", PageLabel(kept[0])] + Split(pages[kept[0]], '\n');
    } else {
      var rest := kept[1..];
      WorkingTextLines(pages, rest);
      assert bs[1..] == Blocks(pages, rest);
      assert WorkingText(pages, kept) == bs[0] + ['\n'] + WorkingText(pages, rest);
      SplitAround(bs[0], WorkingText(pages, rest), '\n');
    }
  }

  /** A block splits into an empty line, the header line and the page's
      lines. */
  lemma BlockLines(index: nat, text: String)
    ensures Split(PageBlock(index, text), '\n') == ["", PageLabel(index)] + Split(text, '\n')
  {
    var header := PageLabel(index);
    LabelOneLine(index);
    SplitAround(header, text, '\n');
    SplitWithoutSeparator(header, '\n');
    SplitAround([], header + ['\n'] + text, '\n');
    assert PageBlock(index, text) == [] + ['\n'] + (header + ['\n'] + text);
  }

  lemma LabelOneLine(index: nat)
    ensures '\n' !in PageLabel(index)
  {
    var d := Decimal(index + 1);
    assert '\n' !in PageMark;
    assert '\n' !in d;
    assert PageLabel(index) == PageMark + d + [':'];
  }

  /** `\s*` crosses line breaks: a page whose first line is `BC` and whose
      next line starts `3.0 ` and then the phrase (in any case) is kept,
      although its first line has no phrase and its second no `BC`. */
  lemma SignatureSpansLines(phrase: String, page: String)
    requires Lower(phrase) == Phrase
    requires page == "BC\n3.0 " + phrase
    ensures IsDeclarationPage(page)
  {
    assert page[..7] == "BC\n3.0 ";
    assert page[7..7 + |Phrase|] == phrase;
    SplitSignature(page);
  }

  /** `BC`, a line feed, then `3.0 ` and the phrase. */
  lemma SplitSignature(s: String)
    requires |s| >= 7 && s[..7] == "BC\n3.0 " && PhraseAt(s, 7)
    ensures IsDeclarationPage(s)
  {
    assert s[0] == 'B' && s[1] == 'C' && s[2] == '\n' && s[3] == '3';
    assert s[4] == '.' && s[5] == '0' && s[6] == ' ';
    assert s[4..6] == [s[4], s[5]] == ".0";
    assert Lower(s[0..2]) == [LowerChar(s[0]), LowerChar(s[1])] == "bc";
    assert SameLine(s, 6, 7);
    assert SignatureWitness(s, 0, 3, 6, 7);
    WitnessGivesFrom(s, 0, 3, 6, 7);
  }

  /** The converse direction holds: a line that carries the signature makes
      its page a declaration page, whatever surrounds it, provided the text
      before it ends in a non-word character such as a line feed. */
  lemma LineKeepsPage(before: String, line: String, after: String)
    requires |before| > 0 ==> !IsWordChar(before[|before| - 1])
    requires IsDeclarationPage(line)
    ensures IsDeclarationPage(before + line + after)
  {
    DeclarationPageMeaning(line);
    var i, k, m, p :| SignatureWitness(line, i, k, m, p);
    var s := before + line + after;
    assert s[|before|..|before| + |line|] == line;
    if |before| > 0 {
      assert s[|before| - 1] == before[|before| - 1];
    }
    WitnessShift(s, |before|, line, i, k, m, p);
    DeclarationPageMeaning(s);
  }

  lemma WitnessShift(s: String, d: nat, line: String, i: int, k: int, m: int, p: int)
    requires d + |line| <= |s| && s[d..d + |line|] == line
    requires d > 0 ==> !IsWordChar(s[d - 1])
    requires SignatureWitness(line, i, k, m, p)
    ensures SignatureWitness(s, d + i, d + k, d + m, d + p)
  {
    CharShift(s, d, line);
    SliceShift(s, d, line, i, i + 2);
    SliceShift(s, d, line, k + 1, m);
    SliceShift(s, d, line, p, p + |Phrase|);
    assert forall q :: d + i + 2 <= q < d + k ==> IsSpace(s[q]) by {
      forall q | d + i + 2 <= q < d + k ensures IsSpace(s[q]) {
        assert s[q] == line[q - d];
      }
    }
    assert SameLine(s, d + m, d + p) by {
      forall q | d + m <= q < d + p ensures s[q] != '\n' {
        assert s[q] == line[q - d];
      }
    }
    if i > 0 {
      assert s[d + i - 1] == line[i - 1];
    }
    assert s[d + k] == line[k];
    assert s[d + m] == line[m];
  }

  lemma CharShift(s: String, d: nat, line: String)
    requires d + |line| <= |s| && s[d..d + |line|] == line
    ensures forall q :: 0 <= q < |line| ==> s[d + q] == line[q]
  {
    forall q | 0 <= q < |line| ensures s[d + q] == line[q] {
      assert s[d..d + |line|][q] == s[d + q];
    }
  }

  lemma SliceShift(s: String, d: nat, line: String, a: int, b: int)
    requires d + |line| <= |s| && s[d..d + |line|] == line
    requires 0 <= a <= b <= |line|
    ensures s[d + a..d + b] == line[a..b]
  {
    CharShift(s, d, line);
  }
}

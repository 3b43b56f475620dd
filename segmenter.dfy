/**
 * `analyze_document_structure` in processor.py: a general summary of the
 * opening of a document, and its division into titled sections of at
 * least 1000 characters where the headers allow it.
 *
 * The line scan is stated once for any header test `hdr` and any section
 * summariser `summ`; the program's own scan is the instance with
 * `LineIsHeader` and `SectionSummary`.
 */
module Segmenter {
  import opened Text
  import opened Summarizer

  datatype Section = Section(title: string, content: string, summary: string)

  const INTRO_TITLE: string := "Introducción / Preámbulo"

  /** The smallest section worth splitting off, in characters. */
  const MIN_SECTION: nat := 1000

  /** The header keywords, as `re.IGNORECASE` compares them: lower-cased. */
  const HEADER_WORDS: seq<string> :=
    ["título", "titulo", "capítulo", "capitulo", "sección", "seccion", "artículo", "articulo"]

  /** `^(TÍTULO|...|ARTICULO)\s` with `re.IGNORECASE`: a keyword at the start, then whitespace. */
  predicate KeywordHeader(s: string) {
    exists w :: w in HEADER_WORDS && |w| < |s| && Lower(s[..|w|]) == w && IsSpace(s[|w|])
  }

  /** The header test on a stripped, non-blank line. */
  predicate IsHeader(stripped: string) {
    KeywordHeader(stripped) || (IsUpper(stripped) && 5 < |stripped| < 100)
  }

  /** A raw line that the scan treats as a header. */
  predicate LineIsHeader(line: string) {
    Strip(line) != [] && IsHeader(Strip(line))
  }

  /** The summary stored with each section: three sentences. */
  function SectionSummary(content: string): string {
    Summary(content, 3)
  }

  /** The loop state: finished sections, the current title and the current line buffer. */
  datatype Scan = Scan(sections: seq<Section>, title: string, buf: seq<string>)

  /**
   * One line of the scan. A header closes the current section unless that
   * section is under 1000 characters and an earlier one exists, in which
   * case the header stays in the buffer as an ordinary line.
   */
  function StepLine(st: Scan, line: string, hdr: string -> bool, summ: string -> string): Scan {
    if !hdr(line) then st.(buf := st.buf + [line])
    else
      var current := Join(st.buf, "\n");
      if |current| < MIN_SECTION && st.sections != [] then st.(buf := st.buf + [line])
      else Scan(st.sections + [Section(st.title, current, summ(current))], Strip(line), [])
  }

  function ScanLines(lines: seq<string>, hdr: string -> bool, summ: string -> string): Scan
    decreases |lines|
  {
    if lines == [] then Scan([], INTRO_TITLE, [])
    else StepLine(ScanLines(lines[..|lines| - 1], hdr, summ), lines[|lines| - 1], hdr, summ)
  }

  /** The flush after the loop: a short tail joins the last section, otherwise it is a section of its own. */
  function Flush(st: Scan, summ: string -> string): seq<Section> {
    var final := Join(st.buf, "\n");
    if st.sections != [] && |final| < MIN_SECTION then
      var last := st.sections[|st.sections| - 1];
      var merged := last.content + "\n" + final;
      st.sections[|st.sections| - 1 := Section(last.title, merged, summ(merged))]
    else st.sections + [Section(st.title, final, summ(final))]
  }

  /** The sections of a document. */
  function SectionsOf(text: string): seq<Section> {
    Flush(ScanLines(Split(text, '\n'), LineIsHeader, SectionSummary), SectionSummary)
  }

  // ----------------------------------------------------------- invariants

  /** What holds of the loop state after every line, for a title test `ok` that every header's stripped text passes. */
  predicate ScanInv(st: Scan, ok: string -> bool, summ: string -> string) {
    && (forall i :: 1 <= i < |st.sections| ==> |st.sections[i].content| >= MIN_SECTION)
    && (forall i :: 0 <= i < |st.sections| ==> st.sections[i].summary == summ(st.sections[i].content))
    && (forall i :: 1 <= i < |st.sections| ==> ok(st.sections[i].title))
    && (st.sections == [] ==> st.title == INTRO_TITLE)
    && (st.sections != [] ==> st.sections[0].title == INTRO_TITLE && ok(st.title))
  }

  /** What the finished sections satisfy. */
  predicate SectionsInv(sections: seq<Section>, ok: string -> bool, summ: string -> string) {
    && |sections| >= 1
    && sections[0].title == INTRO_TITLE
    && (forall i :: 1 <= i < |sections| ==> |sections[i].content| >= MIN_SECTION)
    && (forall i :: 0 <= i < |sections| ==> sections[i].summary == summ(sections[i].content))
    && (forall i :: 1 <= i < |sections| ==> ok(sections[i].title))
  }

  lemma StepLineInv(st: Scan, line: string, hdr: string -> bool, ok: string -> bool, summ: string -> string)
    requires ScanInv(st, ok, summ)
    requires hdr(line) ==> ok(Strip(line))
    ensures ScanInv(StepLine(st, line, hdr, summ), ok, summ)
  {
    if hdr(line) && !(|Join(st.buf, "\n")| < MIN_SECTION && st.sections != []) {
      var current := Join(st.buf, "\n");
      var s' := st.sections + [Section(st.title, current, summ(current))];
      assert forall i :: 0 <= i < |st.sections| ==> s'[i] == st.sections[i];
    }
  }

  lemma {:induction false} ScanLinesInv(lines: seq<string>, hdr: string -> bool, ok: string -> bool, summ: string -> string)
    requires forall l :: hdr(l) ==> ok(Strip(l))
    ensures ScanInv(ScanLines(lines, hdr, summ), ok, summ)
    decreases |lines|
  {
    if lines != [] {
      ScanLinesInv(lines[..|lines| - 1], hdr, ok, summ);
      StepLineInv(ScanLines(lines[..|lines| - 1], hdr, summ), lines[|lines| - 1], hdr, ok, summ);
    }
  }

  lemma FlushInv(st: Scan, ok: string -> bool, summ: string -> string)
    requires ScanInv(st, ok, summ)
    ensures SectionsInv(Flush(st, summ), ok, summ)
  {
    var final := Join(st.buf, "\n");
    if st.sections != [] && |final| < MIN_SECTION {
      var n := |st.sections|;
      var last := st.sections[n - 1];
      var merged := last.content + "\n" + final;
      var r := st.sections[n - 1 := Section(last.title, merged, summ(merged))];
      assert forall i :: 0 <= i < n - 1 ==> r[i] == st.sections[i];
      assert n > 1 ==> |merged| >= MIN_SECTION;
    } else {
      var r := st.sections + [Section(st.title, final, summ(final))];
      assert forall i :: 0 <= i < |st.sections| ==> r[i] == st.sections[i];
    }
  }

  /**
   * Every document has at least one section, the first titled
   * "Introducción / Preámbulo"; every later one has a header for its title
   * and at least 1000 characters; and every summary is the summary of the
   * section's final content, the merged tail included.
   */
  lemma SectionsWellFormed(text: string)
    ensures SectionsInv(SectionsOf(text), IsHeader, SectionSummary)
  {
    ScanLinesInv(Split(text, '\n'), LineIsHeader, IsHeader, SectionSummary);
    FlushInv(ScanLines(Split(text, '\n'), LineIsHeader, SectionSummary), IsHeader, SectionSummary);
  }

  // -------------------------------------------------------- header cases

  /** Without a header line the scan only buffers. */
  lemma {:induction false} ScanWithoutHeaders(lines: seq<string>, hdr: string -> bool, summ: string -> string)
    requires forall i :: 0 <= i < |lines| ==> !hdr(lines[i])
    ensures ScanLines(lines, hdr, summ) == Scan([], INTRO_TITLE, lines)
    decreases |lines|
  {
    if lines != [] {
      var init := lines[..|lines| - 1];
      ScanWithoutHeaders(init, hdr, summ);
      assert init + [lines[|lines| - 1]] == lines;
    }
  }

  /** A document without a header line is one introduction section holding the whole text. */
  lemma NoHeaderSingleSection(text: string)
    requires forall i :: 0 <= i < |Split(text, '\n')| ==> !LineIsHeader(Split(text, '\n')[i])
    ensures SectionsOf(text) == [Section(INTRO_TITLE, text, Summary(text, 3))]
  {
    ScanWithoutHeaders(Split(text, '\n'), LineIsHeader, SectionSummary);
    JoinSplit(text, '\n');
  }

  /** The state right after the first header line at position `k`. */
  function AfterFirstHeader(lines: seq<string>, k: nat, summ: string -> string): Scan
    requires k < |lines|
  {
    var intro := Join(lines[..k], "\n");
    Scan([Section(INTRO_TITLE, intro, summ(intro))], Strip(lines[k]), [])
  }

  /** The first header closes the introduction, whatever its size, even when it is empty. */
  lemma FirstHeaderStep(lines: seq<string>, k: nat, hdr: string -> bool, summ: string -> string)
    requires k < |lines| && hdr(lines[k])
    requires forall i :: 0 <= i < k ==> !hdr(lines[i])
    ensures ScanLines(lines[..k + 1], hdr, summ) == AfterFirstHeader(lines, k, summ)
  {
    ScanWithoutHeaders(lines[..k], hdr, summ);
    ScanLinesSnoc(lines, k, hdr, summ);
    var intro := Join(lines[..k], "\n");
    assert StepLine(Scan([], INTRO_TITLE, lines[..k]), lines[k], hdr, summ)
        == Scan([Section(INTRO_TITLE, intro, summ(intro))], Strip(lines[k]), []);
  }

  /** One step never touches the first section or the title of the second. */
  lemma StepLineKeeps(st: Scan, line: string, hdr: string -> bool, summ: string -> string, intro: Section, t: string)
    requires |st.sections| >= 1 && st.sections[0] == intro
    requires |st.sections| == 1 ==> st.title == t
    requires |st.sections| >= 2 ==> st.sections[1].title == t
    ensures var st' := StepLine(st, line, hdr, summ);
            && |st'.sections| >= 1 && st'.sections[0] == intro
            && (|st'.sections| == 1 ==> st'.title == t)
            && (|st'.sections| >= 2 ==> st'.sections[1].title == t)
  {
  }

  /** After the first header, the introduction is final and the next section carries that header's title. */
  lemma {:induction false} AfterFirstHeaderKeeps(lines: seq<string>, k: nat, j: nat, hdr: string -> bool, summ: string -> string)
    requires k < j <= |lines|
    requires ScanLines(lines[..k + 1], hdr, summ) == AfterFirstHeader(lines, k, summ)
    ensures var st := ScanLines(lines[..j], hdr, summ);
            && |st.sections| >= 1
            && st.sections[0] == AfterFirstHeader(lines, k, summ).sections[0]
            && (|st.sections| == 1 ==> st.title == Strip(lines[k]))
            && (|st.sections| >= 2 ==> st.sections[1].title == Strip(lines[k]))
    decreases j
  {
    if j > k + 1 {
      AfterFirstHeaderKeeps(lines, k, j - 1, hdr, summ);
      assert lines[..j][..j - 1] == lines[..j - 1];
      StepLineKeeps(ScanLines(lines[..j - 1], hdr, summ), lines[j - 1], hdr, summ,
                    AfterFirstHeader(lines, k, summ).sections[0], Strip(lines[k]));
    }
  }

  /** How the flush treats a scan whose first section is already closed. */
  lemma FlushKeepsFirst(st: Scan, summ: string -> string, intro: Section, t: string)
    requires |st.sections| >= 1 && st.sections[0] == intro
    requires |st.sections| == 1 ==> st.title == t
    requires |st.sections| >= 2 ==> st.sections[1].title == t
    ensures var r := Flush(st, summ);
            && |r| >= 1
            && (|r| >= 2 ==> r[0] == intro && r[1].title == t)
            && (|r| == 1 ==> intro.content + "\n" <= r[0].content && r[0].title == intro.title)
  {
  }

  /**
   * The first header line `k` always splits: the introduction holds the
   * lines before it, and the header becomes the next section's title, or the
   * text after it, when short, is merged back into the introduction.
   */
  lemma FirstHeaderSplits(text: string, k: nat)
    requires k < |Split(text, '\n')| && LineIsHeader(Split(text, '\n')[k])
    requires forall i :: 0 <= i < k ==> !LineIsHeader(Split(text, '\n')[i])
    ensures var lines := Split(text, '\n');
            var sections := SectionsOf(text);
            && sections[0].title == INTRO_TITLE
            && (|sections| >= 2 ==> sections[0].content == Join(lines[..k], "\n") && sections[1].title == Strip(lines[k]))
            && (|sections| == 1 ==> Join(lines[..k], "\n") + "\n" <= sections[0].content)
  {
    var lines := Split(text, '\n');
    var after := AfterFirstHeader(lines, k, SectionSummary);
    FirstHeaderStep(lines, k, LineIsHeader, SectionSummary);
    AfterFirstHeaderKeeps(lines, k, |lines|, LineIsHeader, SectionSummary);
    assert lines[..|lines|] == lines;
    FlushKeepsFirst(ScanLines(lines, LineIsHeader, SectionSummary), SectionSummary, after.sections[0], Strip(lines[k]));
  }

  /** The scan of one more line is one more step. */
  lemma ScanLinesSnoc(lines: seq<string>, k: nat, hdr: string -> bool, summ: string -> string)
    requires k < |lines|
    ensures ScanLines(lines[..k + 1], hdr, summ) == StepLine(ScanLines(lines[..k], hdr, summ), lines[k], hdr, summ)
  {
    assert lines[..k + 1][..k] == lines[..k];
  }

  // --------------------------------------------------------------- method

  /** The header test of the scan loop on one raw line, with the stripped line it looks at. */
  method TestHeader(line: string) returns (isHeader: bool, stripped: string)
    ensures stripped == Strip(line)
    ensures isHeader == LineIsHeader(line)
  {
    stripped := Strip(line);
    isHeader := stripped != [] && (KeywordHeader(stripped) || (IsUpper(stripped) && 5 < |stripped| < 100));
  }

  /** The three-sentence summary stored with a section. */
  method SummarizeSection(content: string) returns (summary: string)
    ensures summary == SectionSummary(content)
  {
    summary := GenerateSummary(content, 3);
  }

  /** The flush after the loop, with the summaries computed by the summariser. */
  method FlushSections(st: Scan) returns (sections: seq<Section>)
    ensures sections == Flush(st, SectionSummary)
  {
    var finalText := Join(st.buf, "\n");
    if st.sections != [] && |finalText| < MIN_SECTION {
      var last := st.sections[|st.sections| - 1];
      var content := last.content + "\n" + finalText;
      var summary := SummarizeSection(content);
      sections := st.sections[|st.sections| - 1 := Section(last.title, content, summary)];
    } else {
      var summary := SummarizeSection(finalText);
      sections := st.sections + [Section(st.title, finalText, summary)];
    }
  }

  /** `analyze_document_structure`: the general summary of the first 5000 characters, and the sections. */
  method AnalyzeDocumentStructure(text: string) returns (generalSummary: string, sections: seq<Section>)
    ensures generalSummary == Summary(text[..Min(5000, |text|)], 4)
    ensures sections == SectionsOf(text)
  {
    generalSummary := GenerateSummary(text[..Min(5000, |text|)], 4);
    var lines := Split(text, '\n');
    sections := [];
    var currentTitle := INTRO_TITLE;
    var currentLines: seq<string> := [];
    for k := 0 to |lines|
      invariant Scan(sections, currentTitle, currentLines) == ScanLines(lines[..k], LineIsHeader, SectionSummary)
    {
      ScanLinesSnoc(lines, k, LineIsHeader, SectionSummary);
      var line := lines[k];
      var isHeader, stripped := TestHeader(line);
      if isHeader {
        var currentText := Join(currentLines, "\n");
        if |currentText| < MIN_SECTION && sections != [] {
          currentLines := currentLines + [line];
        } else {
          var summary := SummarizeSection(currentText);
          sections := sections + [Section(currentTitle, currentText, summary)];
          currentTitle := stripped;
          currentLines := [];
        }
      } else {
        currentLines := currentLines + [line];
      }
    }
    assert lines[..|lines|] == lines;
    sections := FlushSections(Scan(sections, currentTitle, currentLines));
  }
}

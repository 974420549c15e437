/** The report formatter of `serveUploadFile`: two lines per file (a header
    with the file name, then the phrases, each in double quotes, separated by
    one space), joined with newlines. */
module Formatter {
  import opened Common
  import opened Aggregator

  /** `----> ${filename}`. */
  function HeadLine(filename: string): string
  {
    "----> " + filename
  }

  /** `"${phrases.join('" "')}"`: the quotes inside a phrase are not escaped. */
  function PhraseLine(phrases: seq<string>): string
  {
    "\"" + Join(phrases, "\" \"") + "\""
  }

  /** The lines pushed for the properties of a table, in iteration order. */
  function ReportLines(t: PhraseTable): seq<string>
  {
    if |t| == 0 then []
    else
      var n := |t| - 1;
      ReportLines(t[..n]) + [HeadLine(t[n].key), PhraseLine(t[n].phrases)]
  }

  /** `lines.join('\n')`. */
  function Report(t: PhraseTable): string
  {
    Join(ReportLines(t), "\n")
  }

  /** The loop of `serveUploadFile` that pushes two lines per file name, and
      the join that follows it. */
  method FormatReport(phrasesByFilename: PhraseTable) returns (result: string)
    ensures result == Report(phrasesByFilename)
  {
    var lines: seq<string> := [];
    var i := 0;
    while i < |phrasesByFilename|
      invariant 0 <= i <= |phrasesByFilename|
      invariant lines == ReportLines(phrasesByFilename[..i])
    {
      var filename := phrasesByFilename[i].key;
      assert phrasesByFilename[..i + 1][..i] == phrasesByFilename[..i];
      lines := lines + [HeadLine(filename), PhraseLine(phrasesByFilename[i].phrases)];
      i := i + 1;
    }
    assert phrasesByFilename[..i] == phrasesByFilename;
    result := Join(lines, "\n");
  }

  /** Two lines per file, in key order: the header, then the phrase line. The
      empty table gives no lines and the empty report. */
  lemma {:induction false} ReportLinesSpec(t: PhraseTable)
    ensures |ReportLines(t)| == 2 * |t|
    ensures forall i :: 0 <= i < |t| ==>
      ReportLines(t)[2 * i] == HeadLine(t[i].key) &&
      ReportLines(t)[2 * i + 1] == PhraseLine(t[i].phrases)
    ensures t == [] ==> Report(t) == ""
  {
    if |t| > 0 {
      var n := |t| - 1;
      ReportLinesSpec(t[..n]);
      forall i | 0 <= i < n
        ensures ReportLines(t)[2 * i] == HeadLine(t[i].key)
        ensures ReportLines(t)[2 * i + 1] == PhraseLine(t[i].phrases)
      {
        assert t[..n][i] == t[i];
      }
    }
  }

  /** A table of one file formats to its header line, a newline and its
      phrase line. */
  lemma ReportOfOneFile(t: PhraseTable)
    requires |t| == 1
    ensures Report(t) == HeadLine(t[0].key) + "\n" + PhraseLine(t[0].phrases)
  {
    var lines := [HeadLine(t[0].key), PhraseLine(t[0].phrases)];
    assert t[..0] == [];
    assert ReportLines(t[..0]) == [];
    assert ReportLines(t) == lines;
    assert lines[1..] == [lines[1]];
    assert Join(lines[1..], "\n") == lines[1];
  }

  /** A line of zero phrases is `""` and a line of one phrase is that phrase
      in quotes. */
  lemma PhraseLineBase(p: string)
    ensures PhraseLine([]) == "\"\""
    ensures PhraseLine([p]) == "\"" + p + "\""
  {
  }

  /** Each further phrase adds a space and the phrase in its own quotes. */
  lemma PhraseLineAppend(phrases: seq<string>, p: string)
    requires |phrases| > 0
    ensures PhraseLine(phrases + [p]) == "\"" + Join(phrases, "\" \"") + "\" \"" + p + "\""
  {
    JoinSnoc(phrases, p, "\" \"");
    Enclose("\"", Join(phrases + [p], "\" \""), Join(phrases, "\" \""), "\" \"", p);
  }

  /** Concatenation is associative; stated apart so that the solver does not
      unfold `Join` while proving it. */
  lemma Enclose(quote: string, whole: string, before: string, sep: string, p: string)
    requires whole == before + sep + p
    ensures quote + whole + quote == quote + before + sep + p + quote
  {
  }

  /** When no file name and no phrase contains a newline, the report splits
      back into exactly its 2·n lines: it has no trailing newline and the
      lines are the ones pushed. */
  lemma ReportSplitsIntoLines(t: PhraseTable)
    requires |t| > 0
    requires forall i :: 0 <= i < |t| ==> '\n' !in t[i].key
    requires forall i, j :: 0 <= i < |t| && 0 <= j < |t[i].phrases| ==> '\n' !in t[i].phrases[j]
    ensures Split(Report(t), '\n') == ReportLines(t)
    ensures |Split(Report(t), '\n')| == 2 * |t|
  {
    ReportLinesSpec(t);
    var lines := ReportLines(t);
    forall k | 0 <= k < |lines|
      ensures '\n' !in lines[k]
    {
      var i := k / 2;
      assert k == 2 * i || k == 2 * i + 1;
      if k == 2 * i {
        assert lines[k] == HeadLine(t[i].key);
      } else {
        assert lines[k] == PhraseLine(t[i].phrases);
        JoinAvoids(t[i].phrases, "\" \"", '\n');
      }
    }
    SplitJoin(lines, '\n');
  }
}

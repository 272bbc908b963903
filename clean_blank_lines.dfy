/** scripts/clean_blank_lines.py: empty every line that holds only
    whitespace, leaving every other line, and the line structure, as it
    was. */
module CleanBlankLines {
  import opened Text

  /** One line: "" when it strips to nothing, otherwise the line itself. */
  function CleanLine(line: string): (r: string)
    ensures r == "" <==> AllSpace(line)
    ensures r != "" ==> r == line
  {
    StripEmptyIff(line);
    if Strip(line) == "" then "" else line
  }

  function CleanLines(lines: seq<string>): (r: seq<string>)
    ensures |r| == |lines|
  {
    seq(|lines|, k requires 0 <= k < |lines| => CleanLine(lines[k]))
  }

  /** clean_blank_lines: split on "\n", clean each line, join with "\n". */
  function Clean(content: string): string {
    Join(CleanLines(Split(content, '\n')), '\n')
  }

  /** Cleaning a line twice is cleaning it once. */
  lemma CleanLineIdempotent(line: string)
    ensures CleanLine(CleanLine(line)) == CleanLine(line)
  {
  }

  lemma CleanLinesNoSep(lines: seq<string>, c: char)
    requires NoneContain(lines, c)
    ensures NoneContain(CleanLines(lines), c)
  {
    forall k | 0 <= k < |lines|
      ensures c !in CleanLines(lines)[k]
    {
      assert CleanLines(lines)[k] == CleanLine(lines[k]);
    }
  }

  /** The output has the input's lines, in order, each one cleaned: as
      many lines as before, whitespace-only ones emptied, the rest
      unchanged. */
  lemma CleanSplit(content: string)
    ensures Split(Clean(content), '\n') == CleanLines(Split(content, '\n'))
  {
    CleanLinesNoSep(Split(content, '\n'), '\n');
    SplitJoin(CleanLines(Split(content, '\n')), '\n');
  }

  /** Cleaning twice is cleaning once. */
  lemma CleanIdempotent(content: string)
    ensures Clean(Clean(content)) == Clean(content)
  {
    var lines := CleanLines(Split(content, '\n'));
    CleanSplit(content);
    forall k | 0 <= k < |lines|
      ensures CleanLines(lines)[k] == lines[k]
    {
      CleanLineIdempotent(Split(content, '\n')[k]);
    }
    assert CleanLines(lines) == lines;
  }

  /** A whitespace-only line that is not already empty. */
  predicate Untidy(line: string) {
    line != "" && AllSpace(line)
  }

  /** No line is whitespace-only but non-empty. */
  predicate AllTidy(lines: seq<string>) {
    forall k :: 0 <= k < |lines| ==> !Untidy(lines[k])
  }

  lemma AllTidyCons(lines: seq<string>)
    requires |lines| > 0
    ensures AllTidy(lines) <==> !Untidy(lines[0]) && AllTidy(lines[1..])
  {
    if !Untidy(lines[0]) && AllTidy(lines[1..]) {
      forall k | 1 <= k < |lines|
        ensures !Untidy(lines[k])
      {
        assert lines[k] == lines[1..][k - 1];
      }
    }
    if AllTidy(lines) {
      forall k | 0 <= k < |lines[1..]|
        ensures !Untidy(lines[1..][k])
      {
        assert lines[1..][k] == lines[k + 1];
      }
    }
  }

  /** A cleaned line is no longer than the line, and as long exactly when
      the line is not whitespace-only but non-empty. */
  lemma CleanLineLength(line: string)
    ensures |CleanLine(line)| <= |line|
    ensures |CleanLine(line)| == |line| <==> !Untidy(line)
  {
  }

  lemma CleanLinesCons(lines: seq<string>)
    requires |lines| > 0
    ensures SumLengths(CleanLines(lines)) == |CleanLine(lines[0])| + SumLengths(CleanLines(lines[1..]))
  {
    assert CleanLines(lines)[1..] == CleanLines(lines[1..]);
    assert CleanLines(lines)[0] == CleanLine(lines[0]);
  }

  lemma {:induction false} SumLengthsClean(lines: seq<string>)
    ensures SumLengths(CleanLines(lines)) <= SumLengths(lines)
    ensures SumLengths(CleanLines(lines)) == SumLengths(lines) <==> AllTidy(lines)
    decreases |lines|
  {
    if |lines| > 0 {
      SumLengthsClean(lines[1..]);
      CleanLinesCons(lines);
      CleanLineLength(lines[0]);
      AllTidyCons(lines);
    }
  }

  /** Cleaning never lengthens the text, and leaves it exactly as it was
      when no line is whitespace-only but non-empty. */
  lemma CleanLength(content: string)
    ensures |Clean(content)| <= |content|
    ensures Clean(content) == content <==> AllTidy(Split(content, '\n'))
    ensures |Clean(content)| == |content| <==> AllTidy(Split(content, '\n'))
  {
    var lines := Split(content, '\n');
    JoinSplit(content, '\n');
    JoinLength(lines, '\n');
    JoinLength(CleanLines(lines), '\n');
    SumLengthsClean(lines);
    if AllTidy(lines) {
      assert CleanLines(lines) == lines;
    }
  }
}

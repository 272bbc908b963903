/** The exact line/block matcher of the search-and-replace tool
    (morpher/tools/search_and_replace.py): configuration normalisation,
    the single-line and sliding-window multi-line scans, the three
    renderers and the engine's bookkeeping. File contents are passed in;
    nothing here reads or writes files. */
module SearchReplace {
  import opened Wrappers
  import opened Text
  import opened Splice

  datatype OutputStyle = Default | GitDiff | GitConflict
  datatype ExecutionMode = Preview | Apply

  /** What a caller may pass as the replacement: one string, or a list of lines. */
  datatype Replacement = ReplaceText(text: string) | ReplaceLines(lines: seq<string>)

  /** One match. For a multi-line match `originalLine` holds the matched
      lines joined with '\n'. */
  datatype LineMatch = LineMatch(lineNumber: int, originalLine: string, replacementLines: seq<string>)

  datatype FileResult = FileResult(path: string, matches: seq<LineMatch>)

  datatype Config = Config(
    search: string,
    replace: seq<string>,
    filePattern: string,
    caseSensitive: bool,
    startLine: Option<int>,
    endLine: Option<int>)

  // ---------------------------------------------------------------------
  // Configuration
  // ---------------------------------------------------------------------

  /** The replacement as a list of lines: a string is split on '\n' (so
      joining the lines gives the string back), a list is kept as is. */
  function NormalizeReplacement(r: Replacement): (lines: seq<string>)
    ensures r.ReplaceLines? ==> lines == r.lines
    ensures r.ReplaceText? ==>
      && Join(lines, '\n') == r.text
      && NoneContain(lines, '\n')
      && |lines| == Count(r.text, '\n') + 1
  {
    match r
    case ReplaceLines(ls) => ls
    case ReplaceText(t) =>
      JoinSplit(t, '\n');
      SplitCount(t, '\n');
      Split(t, '\n')
  }

  /** SearchReplaceConfig(...) together with its __post_init__. */
  function MakeConfig(search: string, replace: Replacement, filePattern: string, caseSensitive: bool,
                      startLine: Option<int>, endLine: Option<int>): Config
  {
    Config(search, NormalizeReplacement(replace), filePattern, caseSensitive, startLine, endLine)
  }

  /** Python truthiness of an optional line bound: None and 0 are unset. */
  predicate IsSet(bound: Option<int>) {
    bound.Some? && bound.value != 0
  }

  /** start_idx: the 1-based start bound made 0-based, at least 0. */
  function StartIndex(c: Config): nat {
    var s := if IsSet(c.startLine) then c.startLine.value - 1 else 0;
    if s < 0 then 0 else s
  }

  /** end_idx: the 1-based end bound made 0-based, at most the last line. */
  function EndIndex(c: Config, lineCount: nat): int {
    var e := if IsSet(c.endLine) then c.endLine.value - 1 else lineCount - 1;
    if e > lineCount - 1 then lineCount - 1 else e
  }

  // ---------------------------------------------------------------------
  // Line comparison
  // ---------------------------------------------------------------------

  /** _line_matches: stripped equality, lower-cased on both sides when the
      search is case-insensitive. */
  predicate LineMatches(line: string, search: string, caseSensitive: bool) {
    if caseSensitive then Strip(search) == Strip(line)
    else Lower(Strip(search)) == Lower(Strip(line))
  }

  /** The comparison a scan applies to (file line, search line). */
  type LineTest = (string, string) -> bool

  /** The matcher's comparison for the configured case sensitivity. */
  function Compare(caseSensitive: bool): LineTest {
    (line: string, search: string) => LineMatches(line, search, caseSensitive)
  }

  /** _multiline_matches on lines[i:i+N]: a full block of N lines, each
      passing the line comparison against its search line. */
  predicate BlockMatches(lines: seq<string>, i: nat, searchLines: seq<string>, same: LineTest) {
    && i + |searchLines| <= |lines|
    && forall j :: 0 <= j < |searchLines| ==> same(lines[i + j], searchLines[j])
  }

  // ---------------------------------------------------------------------
  // The two scans, as specification functions
  // ---------------------------------------------------------------------

  /** Single-line scan over indices i..hi. */
  function SingleLineMatches(lines: seq<string>, search: string, replace: seq<string>,
                             same: LineTest, i: nat, hi: int): seq<LineMatch>
    requires hi < |lines|
    decreases |lines| - i
  {
    if i > hi then []
    else
      (if same(lines[i], search) then [LineMatch(i + 1, lines[i], replace)] else [])
      + SingleLineMatches(lines, search, replace, same, i + 1, hi)
  }

  /** Multi-line scan from index i: a window of N lines that must end by
      hi; a hit jumps N lines, a miss one. */
  function MultiLineMatches(lines: seq<string>, searchLines: seq<string>, replace: seq<string>,
                            same: LineTest, i: nat, hi: int): seq<LineMatch>
    requires hi < |lines| && |searchLines| >= 1
    decreases |lines| - i
  {
    if i > hi - |searchLines| + 1 then []
    else if BlockMatches(lines, i, searchLines, same) then
      [LineMatch(i + 1, Join(lines[i..i + |searchLines|], '\n'), replace)]
      + MultiLineMatches(lines, searchLines, replace, same, i + |searchLines|, hi)
    else
      MultiLineMatches(lines, searchLines, replace, same, i + 1, hi)
  }

  /** LineSearcher.find_matches on the given file content. */
  function MatchesOf(content: string, c: Config): seq<LineMatch> {
    var lines := Split(content, '\n');
    var searchLines := Split(c.search, '\n');
    if |searchLines| > 1 then
      MultiLineMatches(lines, searchLines, c.replace, Compare(c.caseSensitive), StartIndex(c), EndIndex(c, |lines|))
    else
      SingleLineMatches(lines, c.search, c.replace, Compare(c.caseSensitive), StartIndex(c), EndIndex(c, |lines|))
  }

  // ---------------------------------------------------------------------
  // The scans as the source runs them
  // ---------------------------------------------------------------------

  /** _find_single_line_matches; `same` is the comparison of the
      configured case sensitivity (Compare). */
  method FindSingleLineMatches(lines: seq<string>, c: Config, same: LineTest, lo: nat, hi: int)
    returns (matches: seq<LineMatch>)
    requires hi < |lines|
    ensures matches == SingleLineMatches(lines, c.search, c.replace, same, lo, hi)
  {
    matches := [];
    var i := lo;
    while i <= hi
      invariant lo <= i
      invariant matches + SingleLineMatches(lines, c.search, c.replace, same, i, hi)
             == SingleLineMatches(lines, c.search, c.replace, same, lo, hi)
      decreases hi - i
    {
      ghost var rest := SingleLineMatches(lines, c.search, c.replace, same, i, hi);
      ghost var tail := SingleLineMatches(lines, c.search, c.replace, same, i + 1, hi);
      if same(lines[i], c.search) {
        var hit := LineMatch(i + 1, lines[i], c.replace);
        assert rest == [hit] + tail;
        Regroup3(matches, [hit], tail, matches + [hit], rest);
        matches := matches + [hit];
      } else {
        assert rest == tail;
      }
      i := i + 1;
    }
  }

  /** _find_multiline_matches, with the comparison as in
      FindSingleLineMatches. */
  method FindMultiLineMatches(lines: seq<string>, searchLines: seq<string>, c: Config, same: LineTest, lo: nat, hi: int)
    returns (matches: seq<LineMatch>)
    requires hi < |lines| && |searchLines| >= 1
    ensures matches == MultiLineMatches(lines, searchLines, c.replace, same, lo, hi)
  {
    matches := [];
    var n := |searchLines|;
    var i := lo;
    while i <= hi - n + 1
      invariant lo <= i
      invariant matches + MultiLineMatches(lines, searchLines, c.replace, same, i, hi)
             == MultiLineMatches(lines, searchLines, c.replace, same, lo, hi)
      decreases hi - i
    {
      ghost var rest := MultiLineMatches(lines, searchLines, c.replace, same, i, hi);
      MultiLineStep(lines, searchLines, c.replace, same, i, hi);
      if BlockMatches(lines, i, searchLines, same) {
        var hit := LineMatch(i + 1, Join(lines[i..i + n], '\n'), c.replace);
        ghost var tail := MultiLineMatches(lines, searchLines, c.replace, same, i + n, hi);
        assert rest == [hit] + tail;
        Regroup3(matches, [hit], tail, matches + [hit], rest);
        matches := matches + [hit];
        i := i + n;
      } else {
        assert rest == MultiLineMatches(lines, searchLines, c.replace, same, i + 1, hi);
        i := i + 1;
      }
    }
  }

  /** One step of the multi-line scan: a hit and a jump of N, or a miss
      and a step of one. */
  lemma MultiLineStep(lines: seq<string>, searchLines: seq<string>, replace: seq<string>,
                      same: LineTest, i: nat, hi: int)
    requires hi < |lines| && |searchLines| >= 1 && i <= hi - |searchLines| + 1
    ensures BlockMatches(lines, i, searchLines, same) ==>
      MultiLineMatches(lines, searchLines, replace, same, i, hi)
      == [LineMatch(i + 1, Join(lines[i..i + |searchLines|], '\n'), replace)]
         + MultiLineMatches(lines, searchLines, replace, same, i + |searchLines|, hi)
    ensures !BlockMatches(lines, i, searchLines, same) ==>
      MultiLineMatches(lines, searchLines, replace, same, i, hi)
      == MultiLineMatches(lines, searchLines, replace, same, i + 1, hi)
  {
  }

  /** LineSearcher.find_matches */
  method FindMatches(content: string, c: Config) returns (matches: seq<LineMatch>)
    ensures matches == MatchesOf(content, c)
  {
    var lines := Split(content, '\n');
    var lo := StartIndex(c);
    var hi := EndIndex(c, |lines|);
    var searchLines := Split(c.search, '\n');
    if |searchLines| > 1 {
      matches := FindMultiLineMatches(lines, searchLines, c, Compare(c.caseSensitive), lo, hi);
    } else {
      matches := FindSingleLineMatches(lines, c, Compare(c.caseSensitive), lo, hi);
    }
  }

  // ---------------------------------------------------------------------
  // What the scans find
  // ---------------------------------------------------------------------

  function LineNumbers(ms: seq<LineMatch>): seq<int> {
    seq(|ms|, k requires 0 <= k < |ms| => ms[k].lineNumber)
  }

  /** m is a single-line match of the window lo..hi: a matching line in
      the window, recorded with that line and the replacement. */
  predicate SingleHit(lines: seq<string>, search: string, replace: seq<string>, same: LineTest,
                      lo: int, hi: int, m: LineMatch) {
    && lo + 1 <= m.lineNumber <= hi + 1
    && 0 <= m.lineNumber - 1 < |lines|
    && same(lines[m.lineNumber - 1], search)
    && m.originalLine == lines[m.lineNumber - 1]
    && m.replacementLines == replace
  }

  predicate AllSingleHits(lines: seq<string>, search: string, replace: seq<string>, same: LineTest,
                          lo: int, hi: int, ms: seq<LineMatch>) {
    forall k :: 0 <= k < |ms| ==> SingleHit(lines, search, replace, same, lo, hi, ms[k])
  }

  /** Any two matches are at least `gap` lines apart, in increasing order. */
  predicate Spaced(ms: seq<LineMatch>, gap: nat) {
    forall k, l :: 0 <= k < l < |ms| ==> ms[k].lineNumber + gap <= ms[l].lineNumber
  }

  /** Prepending a match that lies `gap` lines before all the others
      keeps the matches spaced. */
  lemma SpacedCons(m: LineMatch, rest: seq<LineMatch>, gap: nat)
    requires Spaced(rest, gap)
    requires forall k :: 0 <= k < |rest| ==> m.lineNumber + gap <= rest[k].lineNumber
    ensures Spaced([m] + rest, gap)
  {
    var ms := [m] + rest;
    forall k, l | 0 <= k < l < |ms|
      ensures ms[k].lineNumber + gap <= ms[l].lineNumber
    {
      assert ms[l] == rest[l - 1];
      if k > 0 {
        assert ms[k] == rest[k - 1];
      }
    }
  }

  /** Every single-line match lies in the window, is a matching line and
      records that line and the replacement. */
  lemma {:induction false} SingleLineMatchesSound(lines: seq<string>, search: string, replace: seq<string>,
                                                  same: LineTest, i: nat, hi: int)
    requires hi < |lines|
    ensures AllSingleHits(lines, search, replace, same, i, hi,
                          SingleLineMatches(lines, search, replace, same, i, hi))
    decreases |lines| - i
  {
    var ms := SingleLineMatches(lines, search, replace, same, i, hi);
    if i <= hi {
      var rest := SingleLineMatches(lines, search, replace, same, i + 1, hi);
      SingleLineMatchesSound(lines, search, replace, same, i + 1, hi);
      if same(lines[i], search) {
        assert ms == [LineMatch(i + 1, lines[i], replace)] + rest;
        forall k | 0 <= k < |ms|
          ensures SingleHit(lines, search, replace, same, i, hi, ms[k])
        {
          if k > 0 {
            assert ms[k] == rest[k - 1];
          }
        }
      } else {
        assert ms == rest;
      }
    }
  }

  /** The single-line matches come in strictly increasing line order. */
  lemma {:induction false} SingleLineMatchesIncreasing(lines: seq<string>, search: string, replace: seq<string>,
                                                       same: LineTest, i: nat, hi: int)
    requires hi < |lines|
    ensures Spaced(SingleLineMatches(lines, search, replace, same, i, hi), 1)
    decreases |lines| - i
  {
    var ms := SingleLineMatches(lines, search, replace, same, i, hi);
    if i <= hi {
      var rest := SingleLineMatches(lines, search, replace, same, i + 1, hi);
      SingleLineMatchesIncreasing(lines, search, replace, same, i + 1, hi);
      if same(lines[i], search) {
        SingleLineMatchesSound(lines, search, replace, same, i + 1, hi);
        assert ms == [LineMatch(i + 1, lines[i], replace)] + rest;
        SpacedCons(LineMatch(i + 1, lines[i], replace), rest, 1);
      } else {
        assert ms == rest;
      }
    }
  }

  /** Line n (1-based) is reported exactly when it lies in the window and
      matches the search. */
  lemma {:induction false} SingleLineMatchesExact(lines: seq<string>, search: string, replace: seq<string>,
                                                  same: LineTest, i: nat, hi: int, n: int)
    requires hi < |lines|
    ensures n in LineNumbers(SingleLineMatches(lines, search, replace, same, i, hi))
        <==> i + 1 <= n <= hi + 1 && same(lines[n - 1], search)
    decreases |lines| - i
  {
    var ms := SingleLineMatches(lines, search, replace, same, i, hi);
    if i <= hi {
      var rest := SingleLineMatches(lines, search, replace, same, i + 1, hi);
      SingleLineMatchesExact(lines, search, replace, same, i + 1, hi, n);
      if same(lines[i], search) {
        assert ms == [LineMatch(i + 1, lines[i], replace)] + rest;
        assert LineNumbers(ms) == [i + 1] + LineNumbers(rest);
      } else {
        assert ms == rest;
      }
    } else {
      assert ms == [];
    }
  }

  /** m is a multi-line match of the window: a matching block of N lines
      starting at or after lo and ending by hi, recorded as the block's
      lines joined with '\n', with the replacement. */
  predicate BlockHit(lines: seq<string>, searchLines: seq<string>, replace: seq<string>, same: LineTest,
                     lo: int, hi: int, m: LineMatch) {
    && lo + 1 <= m.lineNumber
    && m.lineNumber - 1 + |searchLines| - 1 <= hi
    && 0 <= m.lineNumber - 1
    && BlockMatches(lines, m.lineNumber - 1, searchLines, same)
    && m.originalLine == Join(lines[m.lineNumber - 1..m.lineNumber - 1 + |searchLines|], '\n')
    && m.replacementLines == replace
  }

  predicate AllBlockHits(lines: seq<string>, searchLines: seq<string>, replace: seq<string>, same: LineTest,
                         lo: int, hi: int, ms: seq<LineMatch>) {
    forall k :: 0 <= k < |ms| ==> BlockHit(lines, searchLines, replace, same, lo, hi, ms[k])
  }

  /** Every multi-line match is a matching block inside the window,
      recorded with the block and the replacement. */
  lemma {:induction false} MultiLineMatchesSound(lines: seq<string>, searchLines: seq<string>, replace: seq<string>,
                                                 same: LineTest, i: nat, hi: int)
    requires hi < |lines| && |searchLines| >= 1
    ensures AllBlockHits(lines, searchLines, replace, same, i, hi,
                         MultiLineMatches(lines, searchLines, replace, same, i, hi))
    decreases |lines| - i
  {
    var n := |searchLines|;
    var ms := MultiLineMatches(lines, searchLines, replace, same, i, hi);
    if i <= hi - n + 1 {
      if BlockMatches(lines, i, searchLines, same) {
        var rest := MultiLineMatches(lines, searchLines, replace, same, i + n, hi);
        MultiLineMatchesSound(lines, searchLines, replace, same, i + n, hi);
        assert ms == [LineMatch(i + 1, Join(lines[i..i + n], '\n'), replace)] + rest;
        forall k | 0 <= k < |ms|
          ensures BlockHit(lines, searchLines, replace, same, i, hi, ms[k])
        {
          if k > 0 {
            assert ms[k] == rest[k - 1];
          }
        }
      } else {
        var rest := MultiLineMatches(lines, searchLines, replace, same, i + 1, hi);
        assert ms == rest;
        MultiLineMatchesSound(lines, searchLines, replace, same, i + 1, hi);
        forall k | 0 <= k < |ms|
          ensures BlockHit(lines, searchLines, replace, same, i, hi, ms[k])
        {
          assert BlockHit(lines, searchLines, replace, same, i + 1, hi, rest[k]);
        }
      }
    }
  }

  /** Any two multi-line matches are at least N lines apart, so matched
      blocks never overlap. */
  lemma {:induction false} MultiLineMatchesDisjoint(lines: seq<string>, searchLines: seq<string>, replace: seq<string>,
                                                    same: LineTest, i: nat, hi: int)
    requires hi < |lines| && |searchLines| >= 1
    ensures Spaced(MultiLineMatches(lines, searchLines, replace, same, i, hi), |searchLines|)
    decreases |lines| - i
  {
    var n := |searchLines|;
    var ms := MultiLineMatches(lines, searchLines, replace, same, i, hi);
    if i <= hi - n + 1 {
      if BlockMatches(lines, i, searchLines, same) {
        var rest := MultiLineMatches(lines, searchLines, replace, same, i + n, hi);
        MultiLineMatchesDisjoint(lines, searchLines, replace, same, i + n, hi);
        MultiLineMatchesSound(lines, searchLines, replace, same, i + n, hi);
        var m := LineMatch(i + 1, Join(lines[i..i + n], '\n'), replace);
        assert ms == [m] + rest;
        forall k | 0 <= k < |rest|
          ensures m.lineNumber + n <= rest[k].lineNumber
        {
          assert BlockHit(lines, searchLines, replace, same, i + n, hi, rest[k]);
        }
        SpacedCons(m, rest, n);
      } else {
        assert ms == MultiLineMatches(lines, searchLines, replace, same, i + 1, hi);
        MultiLineMatchesDisjoint(lines, searchLines, replace, same, i + 1, hi);
      }
    }
  }

  /** Some match's block covers line index p. */
  predicate Covered(ms: seq<LineMatch>, p: int, n: nat) {
    exists k :: 0 <= k < |ms| && ms[k].lineNumber - 1 <= p < ms[k].lineNumber - 1 + n
  }

  /** The scan misses no block: every matching block inside the window
      overlaps some reported match (it is either reported itself or starts
      inside a block reported before it). */
  lemma {:induction false} MultiLineMatchesMaximal(lines: seq<string>, searchLines: seq<string>, replace: seq<string>,
                                                   same: LineTest, i: nat, hi: int, p: nat)
    requires hi < |lines| && |searchLines| >= 1
    requires i <= p && p + |searchLines| - 1 <= hi && BlockMatches(lines, p, searchLines, same)
    ensures Covered(MultiLineMatches(lines, searchLines, replace, same, i, hi), p, |searchLines|)
    decreases |lines| - i
  {
    var n := |searchLines|;
    var ms := MultiLineMatches(lines, searchLines, replace, same, i, hi);
    if BlockMatches(lines, i, searchLines, same) {
      var rest := MultiLineMatches(lines, searchLines, replace, same, i + n, hi);
      assert ms == [LineMatch(i + 1, Join(lines[i..i + n], '\n'), replace)] + rest;
      if p < i + n {
        assert ms[0].lineNumber == i + 1;
      } else {
        MultiLineMatchesMaximal(lines, searchLines, replace, same, i + n, hi, p);
        var k :| 0 <= k < |rest| && rest[k].lineNumber - 1 <= p < rest[k].lineNumber - 1 + n;
        assert ms[k + 1] == rest[k];
      }
    } else {
      assert p != i;
      assert ms == MultiLineMatches(lines, searchLines, replace, same, i + 1, hi);
      MultiLineMatchesMaximal(lines, searchLines, replace, same, i + 1, hi, p);
    }
  }

  /** A line matches the empty search exactly when it is blank. */
  lemma BlankSearchMatches(line: string, caseSensitive: bool)
    ensures LineMatches(line, "", caseSensitive) <==> AllSpace(line)
  {
    assert Strip("") == "";
    StripEmptyIff(line);
    assert |Lower(Strip(line))| == |Strip(line)|;
  }

  /** An empty window (start after end, after clamping) yields no match. */
  lemma EmptyWindowNoMatches(content: string, c: Config)
    requires StartIndex(c) > EndIndex(c, |Split(content, '\n')|)
    ensures MatchesOf(content, c) == []
  {
  }

  /** An empty search text is the one-line pattern "", which matches
      exactly the blank and whitespace-only lines of the window. */
  lemma EmptySearchMatchesBlankLines(content: string, c: Config, n: int)
    requires c.search == ""
    ensures var lines := Split(content, '\n');
      n in LineNumbers(MatchesOf(content, c))
      <==> StartIndex(c) + 1 <= n <= EndIndex(c, |lines|) + 1 && AllSpace(lines[n - 1])
  {
    var lines := Split(content, '\n');
    assert Split(c.search, '\n') == [""];
    SingleLineMatchesExact(lines, "", c.replace, Compare(c.caseSensitive), StartIndex(c), EndIndex(c, |lines|), n);
    if StartIndex(c) + 1 <= n <= EndIndex(c, |lines|) + 1 {
      BlankSearchMatches(lines[n - 1], c.caseSensitive);
    }
  }

  // ---------------------------------------------------------------------
  // Where matches lie
  // ---------------------------------------------------------------------

  /** Number of file lines a match covers: the lines of its original text. */
  function Span(m: LineMatch): nat {
    |Split(m.originalLine, '\n')|
  }

  /** The matches lie in increasing order from index `from` on, do not
      overlap, and each one's original text is exactly the lines it covers. */
  predicate Placed(lines: seq<string>, ms: seq<LineMatch>, from: int)
    decreases |ms|
  {
    if |ms| == 0 then true
    else
      var s := ms[0].lineNumber - 1;
      && from <= s
      && 0 <= s
      && s + Span(ms[0]) <= |lines|
      && lines[s..s + Span(ms[0])] == Split(ms[0].originalLine, '\n')
      && Placed(lines, ms[1..], s + Span(ms[0]))
  }

  lemma {:induction false} PlacedWiden(lines: seq<string>, ms: seq<LineMatch>, from: int, lower: int)
    requires Placed(lines, ms, from) && lower <= from
    ensures Placed(lines, ms, lower)
  {
  }

  /** All matches cover n lines and carry the same replacement. */
  predicate Uniform(ms: seq<LineMatch>, n: nat, replace: seq<string>) {
    forall k :: 0 <= k < |ms| ==> Span(ms[k]) == n && ms[k].replacementLines == replace
  }

  lemma PlacedCons(lines: seq<string>, m: LineMatch, rest: seq<LineMatch>, from: int)
    requires from <= m.lineNumber - 1 && 0 <= m.lineNumber - 1
    requires m.lineNumber - 1 + Span(m) <= |lines|
    requires lines[m.lineNumber - 1..m.lineNumber - 1 + Span(m)] == Split(m.originalLine, '\n')
    requires Placed(lines, rest, m.lineNumber - 1 + Span(m))
    ensures Placed(lines, [m] + rest, from)
  {
    assert ([m] + rest)[1..] == rest;
  }

  lemma UniformCons(m: LineMatch, rest: seq<LineMatch>, n: nat, replace: seq<string>)
    requires Uniform(rest, n, replace) && Span(m) == n && m.replacementLines == replace
    ensures Uniform([m] + rest, n, replace)
  {
    var ms := [m] + rest;
    forall k | 1 <= k < |ms|
      ensures Span(ms[k]) == n && ms[k].replacementLines == replace
    {
      assert ms[k] == rest[k - 1];
    }
  }

  /** Every single-line match covers one line and carries the replacement. */
  lemma {:induction false} SingleLineMatchesUniform(lines: seq<string>, search: string, replace: seq<string>,
                                                    same: LineTest, i: nat, hi: int)
    requires hi < |lines| && NoneContain(lines, '\n')
    ensures Uniform(SingleLineMatches(lines, search, replace, same, i, hi), 1, replace)
    decreases |lines| - i
  {
    var ms := SingleLineMatches(lines, search, replace, same, i, hi);
    if i <= hi {
      var rest := SingleLineMatches(lines, search, replace, same, i + 1, hi);
      SingleLineMatchesUniform(lines, search, replace, same, i + 1, hi);
      if same(lines[i], search) {
        var m := LineMatch(i + 1, lines[i], replace);
        assert ms == [m] + rest;
        SplitNoSep(lines[i], '\n');
        UniformCons(m, rest, 1, replace);
      } else {
        assert ms == rest;
      }
    }
  }

  /** The single-line matches are placed in the file's lines from index i on. */
  lemma {:induction false} SingleLineMatchesPlaced(lines: seq<string>, search: string, replace: seq<string>,
                                                   same: LineTest, i: nat, hi: int)
    requires hi < |lines| && NoneContain(lines, '\n')
    ensures Placed(lines, SingleLineMatches(lines, search, replace, same, i, hi), i)
    decreases |lines| - i
  {
    var ms := SingleLineMatches(lines, search, replace, same, i, hi);
    if i <= hi {
      var rest := SingleLineMatches(lines, search, replace, same, i + 1, hi);
      SingleLineMatchesPlaced(lines, search, replace, same, i + 1, hi);
      if same(lines[i], search) {
        var m := LineMatch(i + 1, lines[i], replace);
        assert ms == [m] + rest;
        SplitNoSep(lines[i], '\n');
        assert lines[i..i + 1] == [lines[i]];
        PlacedCons(lines, m, rest, i);
      } else {
        assert ms == rest;
        PlacedWiden(lines, rest, i + 1, i);
      }
    }
  }

  lemma BlockHasNoBreak(lines: seq<string>, i: nat, n: nat)
    requires i + n <= |lines| && NoneContain(lines, '\n')
    ensures NoneContain(lines[i..i + n], '\n')
  {
    var block := lines[i..i + n];
    forall k | 0 <= k < |block|
      ensures '\n' !in block[k]
    {
      assert block[k] == lines[i + k];
    }
  }

  /** Every multi-line match covers N lines and carries the replacement. */
  lemma {:induction false} MultiLineMatchesUniform(lines: seq<string>, searchLines: seq<string>, replace: seq<string>,
                                                   same: LineTest, i: nat, hi: int)
    requires hi < |lines| && |searchLines| >= 1 && NoneContain(lines, '\n')
    ensures Uniform(MultiLineMatches(lines, searchLines, replace, same, i, hi), |searchLines|, replace)
    decreases |lines| - i
  {
    var n := |searchLines|;
    var ms := MultiLineMatches(lines, searchLines, replace, same, i, hi);
    if i <= hi - n + 1 {
      if BlockMatches(lines, i, searchLines, same) {
        var rest := MultiLineMatches(lines, searchLines, replace, same, i + n, hi);
        MultiLineMatchesUniform(lines, searchLines, replace, same, i + n, hi);
        var m := LineMatch(i + 1, Join(lines[i..i + n], '\n'), replace);
        assert ms == [m] + rest;
        BlockHasNoBreak(lines, i, n);
        SplitJoin(lines[i..i + n], '\n');
        UniformCons(m, rest, n, replace);
      } else {
        assert ms == MultiLineMatches(lines, searchLines, replace, same, i + 1, hi);
        MultiLineMatchesUniform(lines, searchLines, replace, same, i + 1, hi);
      }
    }
  }

  /** The multi-line matches are placed in the file's lines from index i on. */
  /** A block match in front of matches placed after it is placed. */
  lemma PlacedBlock(lines: seq<string>, i: nat, n: nat, replace: seq<string>, rest: seq<LineMatch>)
    requires i + n <= |lines| && n >= 1 && NoneContain(lines, '\n') && Placed(lines, rest, i + n)
    ensures Placed(lines, [LineMatch(i + 1, Join(lines[i..i + n], '\n'), replace)] + rest, i)
  {
    var m := LineMatch(i + 1, Join(lines[i..i + n], '\n'), replace);
    BlockHasNoBreak(lines, i, n);
    SplitJoin(lines[i..i + n], '\n');
    PlacedCons(lines, m, rest, i);
  }

  lemma {:induction false} MultiLineMatchesPlaced(lines: seq<string>, searchLines: seq<string>, replace: seq<string>,
                                                  same: LineTest, i: nat, hi: int)
    requires hi < |lines| && |searchLines| >= 1 && NoneContain(lines, '\n')
    ensures Placed(lines, MultiLineMatches(lines, searchLines, replace, same, i, hi), i)
    decreases |lines| - i
  {
    var n := |searchLines|;
    var ms := MultiLineMatches(lines, searchLines, replace, same, i, hi);
    if i <= hi - n + 1 {
      MultiLineStep(lines, searchLines, replace, same, i, hi);
      if BlockMatches(lines, i, searchLines, same) {
        var rest := MultiLineMatches(lines, searchLines, replace, same, i + n, hi);
        MultiLineMatchesPlaced(lines, searchLines, replace, same, i + n, hi);
        PlacedBlock(lines, i, n, replace, rest);
      } else {
        var rest := MultiLineMatches(lines, searchLines, replace, same, i + 1, hi);
        assert ms == rest;
        MultiLineMatchesPlaced(lines, searchLines, replace, same, i + 1, hi);
        PlacedWiden(lines, rest, i + 1, i);
      }
    }
  }

  /** The matches of a file are placed in its lines, each covering as many
      lines as the search text has and carrying the configured replacement. */
  lemma MatchesOfPlaced(content: string, c: Config)
    ensures Placed(Split(content, '\n'), MatchesOf(content, c), 0)
    ensures Uniform(MatchesOf(content, c), |Split(c.search, '\n')|, c.replace)
  {
    var lines := Split(content, '\n');
    var searchLines := Split(c.search, '\n');
    var lo := StartIndex(c);
    var hi := EndIndex(c, |lines|);
    if |searchLines| > 1 {
      MultiLineMatchesPlaced(lines, searchLines, c.replace, Compare(c.caseSensitive), lo, hi);
      MultiLineMatchesUniform(lines, searchLines, c.replace, Compare(c.caseSensitive), lo, hi);
    } else {
      SingleLineMatchesPlaced(lines, c.search, c.replace, Compare(c.caseSensitive), lo, hi);
      SingleLineMatchesUniform(lines, c.search, c.replace, Compare(c.caseSensitive), lo, hi);
    }
    PlacedWiden(lines, MatchesOf(content, c), lo, 0);
  }

  // ---------------------------------------------------------------------
  // Rendering: the whole file, or the file with conflict markers
  // ---------------------------------------------------------------------

  /** The block written in place of a match: its replacement, or (for the
      git-conflict style) the original and the replacement between markers. */
  function Block(m: LineMatch, style: OutputStyle): seq<string> {
    if style == GitConflict then
      ["<<<<<<< HEAD"] + Split(m.originalLine, '\n') + ["======="] + m.replacementLines + [">>>>>>> incoming"]
    else m.replacementLines
  }

  /** One edit per match: its block over the lines the match covers. */
  function EditsFor(ms: seq<LineMatch>, style: OutputStyle): (es: seq<Edit>)
    ensures |es| == |ms|
  {
    if |ms| == 0 then []
    else [Edit(ms[0].lineNumber - 1, Span(ms[0]), Block(ms[0], style))] + EditsFor(ms[1..], style)
  }

  lemma {:induction false} PlacedOrdered(lines: seq<string>, ms: seq<LineMatch>, from: int, style: OutputStyle)
    requires Placed(lines, ms, from) && from <= |lines|
    ensures Ordered(EditsFor(ms, style), from, |lines|)
    decreases |ms|
  {
    if |ms| > 0 {
      var es := EditsFor(ms, style);
      assert es[1..] == EditsFor(ms[1..], style);
      PlacedOrdered(lines, ms[1..], ms[0].lineNumber - 1 + Span(ms[0]), style);
    }
  }

  /** Lines gained per match: the replacement's length minus the lines it
      covers, or (with conflict markers) the replacement's length plus three. */
  function MatchGrowth(style: OutputStyle, replaceCount: nat, span: nat): int {
    if style == GitConflict then replaceCount + 3 else replaceCount - span
  }

  lemma UniformTail(ms: seq<LineMatch>, n: nat, replace: seq<string>)
    requires Uniform(ms, n, replace) && |ms| > 0
    ensures Uniform(ms[1..], n, replace)
    ensures Span(ms[0]) == n && ms[0].replacementLines == replace
  {
    forall k | 0 <= k < |ms| - 1
      ensures Span(ms[1..][k]) == n && ms[1..][k].replacementLines == replace
    {
      assert ms[1..][k] == ms[k + 1];
    }
  }

  lemma {:induction false} GrowthUniform(ms: seq<LineMatch>, n: nat, replace: seq<string>, style: OutputStyle)
    requires Uniform(ms, n, replace)
    ensures Growth(EditsFor(ms, style)) == |ms| * MatchGrowth(style, |replace|, n)
    decreases |ms|
  {
    if |ms| > 0 {
      var g := MatchGrowth(style, |replace|, n);
      var es := EditsFor(ms, style);
      assert es[1..] == EditsFor(ms[1..], style);
      UniformTail(ms, n, replace);
      GrowthUniform(ms[1..], n, replace, style);
      assert |es[0].block| - es[0].span == g;
      assert |ms| * g == g + (|ms| - 1) * g;
    }
  }

  /** The file's lines after rendering its matches in the given style. */
  function RenderedLines(lines: seq<string>, ms: seq<LineMatch>, style: OutputStyle): seq<string> {
    SpliceFromLast(lines, EditsFor(ms, style))
  }

  /** The rendered file replaces every matched range by its block and keeps
      every other line in order: it is the forward reference result. */
  lemma RenderedIsForward(content: string, c: Config, style: OutputStyle)
    ensures Ordered(EditsFor(MatchesOf(content, c), style), 0, |Split(content, '\n')|)
    ensures RenderedLines(Split(content, '\n'), MatchesOf(content, c), style)
         == Forward(Split(content, '\n'), EditsFor(MatchesOf(content, c), style), 0, |Split(content, '\n')|)
  {
    var lines := Split(content, '\n');
    var ms := MatchesOf(content, c);
    MatchesOfPlaced(content, c);
    PlacedOrdered(lines, ms, 0, style);
    SpliceFromLastIsForward(lines, EditsFor(ms, style));
  }

  /** Rendering placed matches that all cover n lines and carry the same
      replacement grows the file by the same amount per match. */
  lemma PlacedRenderedLineCount(lines: seq<string>, ms: seq<LineMatch>, n: nat, replace: seq<string>,
                                style: OutputStyle)
    requires Placed(lines, ms, 0) && Uniform(ms, n, replace)
    ensures |RenderedLines(lines, ms, style)|
         == |lines| + |ms| * MatchGrowth(style, |replace|, n)
  {
    var es := EditsFor(ms, style);
    PlacedOrdered(lines, ms, 0, style);
    SpliceFromLastIsForward(lines, es);
    ForwardLength(lines, es, 0, |lines|);
    GrowthUniform(ms, n, replace, style);
  }

  /** The rendered file has the original number of lines plus, per match,
      the replacement's length minus the search's (or, with conflict
      markers, the replacement's length plus three). */
  lemma RenderedLineCount(content: string, c: Config, style: OutputStyle)
    ensures |RenderedLines(Split(content, '\n'), MatchesOf(content, c), style)|
         == |Split(content, '\n')|
            + |MatchesOf(content, c)| * MatchGrowth(style, |c.replace|, |Split(c.search, '\n')|)
  {
    var lines := Split(content, '\n');
    var ms := MatchesOf(content, c);
    var n := |Split(c.search, '\n')|;
    MatchesOfPlaced(content, c);
    assert Placed(lines, ms, 0) && Uniform(ms, n, c.replace);
    PlacedRenderedLineCount(lines, ms, n, c.replace, style);
  }

  /** OutputFormatter.format_default: the file content when there is no
      match (or "" when it cannot be read), else the rendered content. */
  function DefaultText(fr: FileResult, content: Option<string>): string {
    if |fr.matches| == 0 then content.GetOr("")
    else if content.None? then ""
    else Join(RenderedLines(Split(content.value, '\n'), fr.matches, Default), '\n')
  }

  /** OutputFormatter.format_git_conflict: the default output when there is
      no match, else the content with conflict blocks. */
  function ConflictText(fr: FileResult, content: Option<string>): string {
    if |fr.matches| == 0 then DefaultText(fr, content)
    else if content.None? then ""
    else Join(RenderedLines(Split(content.value, '\n'), fr.matches, GitConflict), '\n')
  }

  method FormatDefault(fr: FileResult, content: Option<string>) returns (text: string)
    ensures text == DefaultText(fr, content)
  {
    if |fr.matches| == 0 {
      text := content.GetOr("");
    } else if content.None? {
      text := "";
    } else {
      var lines := ApplyFromLast(Split(content.value, '\n'), EditsFor(fr.matches, Default));
      text := Join(lines, '\n');
    }
  }

  method FormatGitConflict(fr: FileResult, content: Option<string>) returns (text: string)
    ensures text == ConflictText(fr, content)
  {
    if |fr.matches| == 0 {
      text := FormatDefault(fr, content);
    } else if content.None? {
      text := "";
    } else {
      var lines := ApplyFromLast(Split(content.value, '\n'), EditsFor(fr.matches, GitConflict));
      text := Join(lines, '\n');
    }
  }

  /** Without matches both renderers return the file as read. */
  lemma NoMatchesKeepContent(fr: FileResult, content: string)
    requires |fr.matches| == 0
    ensures DefaultText(fr, Some(content)) == content
    ensures ConflictText(fr, Some(content)) == content
  {
  }

  // ---------------------------------------------------------------------
  // Rendering: git diff
  // ---------------------------------------------------------------------

  function DiffHeader(path: string): seq<string> {
    ["diff --git a/" + path + " b/" + path, "index 0000000..0000000 100644", "--- a/" + path, "+++ b/" + path]
  }

  /** Each line prefixed with p. */
  function Prefixed(p: string, ls: seq<string>): (r: seq<string>)
    ensures |r| == |ls| && forall i :: 0 <= i < |ls| ==> r[i] == p + ls[i]
  {
    seq(|ls|, i requires 0 <= i < |ls| => p + ls[i])
  }

  /** The hunk header: one removed line claimed at the match's line number,
      and as many added lines as the replacement has. */
  function HunkHeader(m: LineMatch): string {
    "@@ -" + IntToString(m.lineNumber) + ",1 +" + IntToString(m.lineNumber) + ","
    + NatToString(|m.replacementLines|) + " @@"
  }

  /** The first lines of a hunk: the header, the original text after a
      single '-', and the first j replacement lines after '+'. */
  function HunkUpTo(m: LineMatch, j: nat): seq<string>
    requires j <= |m.replacementLines|
  {
    [HunkHeader(m), "-" + m.originalLine] + Prefixed("+", m.replacementLines[..j])
  }

  /** The hunk of one match. */
  function Hunk(m: LineMatch): seq<string> {
    HunkUpTo(m, |m.replacementLines|)
  }

  lemma HunkUpToStep(m: LineMatch, j: nat)
    requires j < |m.replacementLines|
    ensures HunkUpTo(m, j + 1) == HunkUpTo(m, j) + ["+" + m.replacementLines[j]]
  {
    assert Prefixed("+", m.replacementLines[..j + 1])
        == Prefixed("+", m.replacementLines[..j]) + ["+" + m.replacementLines[j]];
  }

  function Hunks(ms: seq<LineMatch>): seq<string> {
    if |ms| == 0 then [] else Hunk(ms[0]) + Hunks(ms[1..])
  }

  /** Number of replacement lines over all matches. */
  function ReplacementLineCount(ms: seq<LineMatch>): nat {
    if |ms| == 0 then 0 else |ms[0].replacementLines| + ReplacementLineCount(ms[1..])
  }

  /** OutputFormatter.format_git_diff */
  function GitDiffText(fr: FileResult): string {
    if |fr.matches| == 0 then ""
    else Join(DiffHeader(fr.path) + Hunks(fr.matches), '\n')
  }

  lemma {:induction false} HunksAppend(ms: seq<LineMatch>, m: LineMatch)
    ensures Hunks(ms + [m]) == Hunks(ms) + Hunk(m)
    decreases |ms|
  {
    if |ms| == 0 {
      assert ([] + [m])[1..] == [];
    } else {
      assert (ms + [m])[1..] == ms[1..] + [m];
      HunksAppend(ms[1..], m);
    }
  }

  /** OutputFormatter.format_git_diff: the four header lines, then the
      hunk of every match, joined with '\n'; "" when nothing matched. */
  method FormatGitDiff(fr: FileResult) returns (text: string)
    ensures text == GitDiffText(fr)
  {
    if |fr.matches| == 0 {
      return "";
    }
    var output := AppendHunks(DiffHeader(fr.path), fr.matches);
    text := Join(output, '\n');
  }

  /** The loop of format_git_diff: appends the hunk of every match. */
  method AppendHunks(output: seq<string>, ms: seq<LineMatch>) returns (extended: seq<string>)
    ensures extended == output + Hunks(ms)
  {
    extended := output;
    var k := 0;
    while k < |ms|
      invariant 0 <= k <= |ms|
      invariant extended == output + Hunks(ms[..k])
    {
      var prev := extended;
      extended := AppendHunk(extended, ms[k]);
      HunksStep(ms, k);
      Regroup3(output, Hunks(ms[..k]), Hunk(ms[k]), prev, Hunks(ms[..k + 1]));
      k := k + 1;
    }
    assert ms[..k] == ms;
  }

  lemma Regroup3<T>(a: seq<T>, b: seq<T>, c: seq<T>, ab: seq<T>, bc: seq<T>)
    requires ab == a + b && bc == b + c
    ensures ab + c == a + bc
  {
  }

  /** The body of format_git_diff's loop: appends the hunk of one match. */
  method AppendHunk(output: seq<string>, m: LineMatch) returns (extended: seq<string>)
    ensures extended == output + Hunk(m)
  {
    extended := output + [HunkHeader(m), "-" + m.originalLine];
    var j := 0;
    while j < |m.replacementLines|
      invariant 0 <= j <= |m.replacementLines|
      invariant extended == output + HunkUpTo(m, j)
    {
      HunkUpToStep(m, j);
      extended := extended + ["+" + m.replacementLines[j]];
      j := j + 1;
    }
  }

  lemma HunksStep(ms: seq<LineMatch>, k: nat)
    requires k < |ms|
    ensures Hunks(ms[..k + 1]) == Hunks(ms[..k]) + Hunk(ms[k])
  {
    assert ms[..k + 1] == ms[..k] + [ms[k]];
    HunksAppend(ms[..k], ms[k]);
  }

  /** The diff has the four header lines and, per match, a header line, one
      '-' line and one '+' line per replacement line. */
  lemma {:induction false} HunksLength(ms: seq<LineMatch>)
    ensures |Hunks(ms)| == 2 * |ms| + ReplacementLineCount(ms)
    decreases |ms|
  {
    if |ms| > 0 {
      HunksLength(ms[1..]);
    }
  }

  /** A rendered number holds no line break. */
  lemma NoNewlineInNumber(i: int)
    ensures '\n' !in IntToString(i)
  {
    DigitsHaveNoBreak(NatToString(if i < 0 then -i else i));
  }

  /** The hunk header line holds no line break. */
  lemma NoNewlineInHunkHeader(m: LineMatch)
    ensures '\n' !in HunkHeader(m)
  {
    NoNewlineInNumber(m.lineNumber);
    DigitsHaveNoBreak(NatToString(|m.replacementLines|));
  }

  /** A match spanning two lines is shown with one '-' line: its second
      original line comes out of the diff as a line of its own with no
      prefix at all, and the hunk header still claims one removed line. */
  lemma GitDiffMultiLineShowsUnprefixedLine(path: string, lineNumber: int, a: string, b: string, repl: seq<string>)
    requires '\n' !in path && '\n' !in a && '\n' !in b
    ensures |Split(GitDiffText(FileResult(path, [LineMatch(lineNumber, a + "\n" + b, repl)])), '\n')| >= 7
    ensures Split(GitDiffText(FileResult(path, [LineMatch(lineNumber, a + "\n" + b, repl)])), '\n')[4]
         == HunkHeader(LineMatch(lineNumber, a + "\n" + b, repl))
    ensures Split(GitDiffText(FileResult(path, [LineMatch(lineNumber, a + "\n" + b, repl)])), '\n')[5] == "-" + a
    ensures Split(GitDiffText(FileResult(path, [LineMatch(lineNumber, a + "\n" + b, repl)])), '\n')[6] == b
  {
    var m := LineMatch(lineNumber, a + "\n" + b, repl);
    var parts := DiffHeader(path) + Hunk(m);
    assert Hunks([m]) == Hunk(m) + Hunks([m][1..]);
    assert DiffHeader(path) + Hunks([m]) == parts;
    assert parts[5] == ("-" + a) + ['\n'] + b;
    NoNewlineInHunkHeader(m);
    assert NoneContain(parts[..5], '\n');
    SplitJoinEach(parts, '\n');
    SplitEachClearPrefix(parts, 5, '\n');
    SplitAround("-" + a, b, '\n');
    SplitNoSep("-" + a, '\n');
    SplitNoSep(b, '\n');
    if |repl| == 0 {
      assert parts[5..] == [parts[5]];
    } else {
      SplitEachFrom(parts, 5, '\n');
    }
  }

  // ---------------------------------------------------------------------
  // The engine: the identical-pattern short cut, scanning the files,
  // parsing the mode and style, and the result totals
  // ---------------------------------------------------------------------

  /** The replacement as one string: a list is joined with '\n'. */
  function ReplacementText(r: Replacement): string {
    match r
    case ReplaceText(t) => t
    case ReplaceLines(ls) => Join(ls, '\n')
  }

  /** SearchReplaceEngine._is_search_replace_identical */
  predicate IsSearchReplaceIdentical(search: string, replace: Replacement) {
    Strip(search) == Strip(ReplacementText(replace))
  }

  /** The identical check sees the same text as the normalised
      configuration: joining the normalised replacement lines gives back
      the text the check compares. */
  lemma IdenticalMatchesConfig(search: string, replace: Replacement)
    ensures IsSearchReplaceIdentical(search, replace)
        <==> Strip(search) == Strip(Join(NormalizeReplacement(replace), '\n'))
  {
  }

  /** A search identical to its replacement, up to surrounding whitespace,
      is reported as identical whatever whitespace either side carries. */
  lemma IdenticalIgnoresOuterSpace(search: string, replace: Replacement)
    requires IsSearchReplaceIdentical(search, replace)
    ensures IsSearchReplaceIdentical(Strip(search), ReplaceText(Strip(ReplacementText(replace))))
  {
    StripIdempotent(search);
    StripIdempotent(ReplacementText(replace));
  }

  /** A file to process: its path and its content, or None when it cannot
      be read as text (the engine then reports and skips it). */
  datatype SourceFile = SourceFile(path: string, content: Option<string>)

  /** The files that could be read, in order. */
  function Readable(files: seq<SourceFile>): (r: seq<SourceFile>)
    ensures |r| <= |files|
    ensures forall k :: 0 <= k < |r| ==> r[k].content.Some?
  {
    if |files| == 0 then []
    else (if files[0].content.Some? then [files[0]] else []) + Readable(files[1..])
  }

  /** The result of one readable file. */
  function ScanOne(c: Config, f: SourceFile): FileResult
    requires f.content.Some?
  {
    FileResult(f.path, MatchesOf(f.content.value, c))
  }

  /** The file loop of search_and_replace: one result per readable file. */
  function ScanFiles(c: Config, files: seq<SourceFile>): seq<FileResult> {
    if |files| == 0 then []
    else (if files[0].content.Some? then [ScanOne(c, files[0])] else []) + ScanFiles(c, files[1..])
  }

  lemma {:induction false} ScanFilesSnoc(c: Config, files: seq<SourceFile>, f: SourceFile)
    ensures ScanFiles(c, files + [f]) == ScanFiles(c, files) + (if f.content.Some? then [ScanOne(c, f)] else [])
    decreases |files|
  {
    if |files| == 0 {
      assert ([] + [f])[1..] == [];
    } else {
      assert (files + [f])[1..] == files[1..] + [f];
      assert (files + [f])[0] == files[0];
      ScanFilesSnoc(c, files[1..], f);
    }
  }

  /** There is exactly one result per readable file, in file order, with
      that file's path and the matches of its content; unreadable files
      are skipped. */
  lemma {:induction false} ScanFilesReadable(c: Config, files: seq<SourceFile>)
    ensures |ScanFiles(c, files)| == |Readable(files)|
    ensures forall k :: 0 <= k < |ScanFiles(c, files)| ==>
              ScanFiles(c, files)[k] == ScanOne(c, Readable(files)[k])
    decreases |files|
  {
    if |files| > 0 {
      ScanFilesReadable(c, files[1..]);
      var r := ScanFiles(c, files[1..]);
      var rd := Readable(files[1..]);
      if files[0].content.Some? {
        var all := ScanFiles(c, files);
        var rdAll := Readable(files);
        assert all == [ScanOne(c, files[0])] + r;
        assert rdAll == [files[0]] + rd;
        forall k | 0 <= k < |all|
          ensures all[k] == ScanOne(c, rdAll[k])
        {
          if k > 0 {
            assert all[k] == r[k - 1] && rdAll[k] == rd[k - 1];
          }
        }
      } else {
        assert ScanFiles(c, files) == r && Readable(files) == rd;
      }
    }
  }

  /** The `for file_path in files_to_process` loop with its try/except. */
  method ScanAll(c: Config, files: seq<SourceFile>) returns (results: seq<FileResult>)
    ensures results == ScanFiles(c, files)
  {
    results := [];
    var k := 0;
    while k < |files|
      invariant 0 <= k <= |files|
      invariant results == ScanFiles(c, files[..k])
    {
      assert files[..k + 1] == files[..k] + [files[k]];
      ScanFilesSnoc(c, files[..k], files[k]);
      if files[k].content.Some? {
        var matches := FindMatches(files[k].content.value, c);
        results := results + [FileResult(files[k].path, matches)];
      }
      k := k + 1;
    }
    assert files[..k] == files;
  }

  function ModeName(m: ExecutionMode): string {
    match m
    case Preview => "preview"
    case Apply => "apply"
  }

  function StyleName(s: OutputStyle): string {
    match s
    case Default => "default"
    case GitDiff => "git_diff"
    case GitConflict => "git_conflict"
  }

  /** ExecutionMode(mode.lower()): None where Python raises ValueError. */
  function ParseMode(s: string): (r: Option<ExecutionMode>) {
    if Lower(s) == "preview" then Some(Preview)
    else if Lower(s) == "apply" then Some(Apply)
    else None
  }

  /** OutputStyle(output_style.lower()): None where Python raises ValueError. */
  function ParseStyle(s: string): (r: Option<OutputStyle>) {
    if Lower(s) == "default" then Some(Default)
    else if Lower(s) == "git_diff" then Some(GitDiff)
    else if Lower(s) == "git_conflict" then Some(GitConflict)
    else None
  }

  /** Every mode and style is accepted under its own name, and a parsed
      name is always that value's name up to letter case. */
  lemma ParseNames(m: ExecutionMode, st: OutputStyle, s: string)
    ensures ParseMode(ModeName(m)) == Some(m)
    ensures ParseStyle(StyleName(st)) == Some(st)
    ensures ParseMode(s).Some? ==> Lower(s) == ModeName(ParseMode(s).value)
    ensures ParseStyle(s).Some? ==> Lower(s) == StyleName(ParseStyle(s).value)
  {
    assert Lower("preview") == "preview";
    assert Lower("apply") == "apply";
    assert Lower("default") == "default";
    assert Lower("git_diff") == "git_diff";
    assert Lower("git_conflict") == "git_conflict";
  }

  /** Parsing ignores letter case. */
  lemma ParseIgnoresCase(s: string)
    ensures ParseMode(Lower(s)) == ParseMode(s)
    ensures ParseStyle(Lower(s)) == ParseStyle(s)
  {
    LowerIdempotent(s);
  }

  datatype SearchReplaceResult = SearchReplaceResult(config: Config, fileResults: seq<FileResult>)

  /** Why the engine raised. */
  datatype EngineError = PathNotFound | BadMode | BadStyle

  /** SearchReplaceEngine.search_and_replace without the preview printing
      and the writing of apply mode. `target` is the files the path names
      (the file itself, or the files under a directory that match the
      pattern), or None when the path does not exist. */
  method SearchAndReplace(target: Option<seq<SourceFile>>, search: string, replace: Replacement,
                          mode: string, style: string, filePattern: string, caseSensitive: bool,
                          startLine: Option<int>, endLine: Option<int>)
    returns (r: Result<SearchReplaceResult, EngineError>)
    ensures IsSearchReplaceIdentical(search, replace) ==>
              r == Ok(SearchReplaceResult(MakeConfig(search, replace, filePattern, caseSensitive, startLine, endLine), []))
    ensures !IsSearchReplaceIdentical(search, replace) ==>
              r == EngineOutcome(target, MakeConfig(search, replace, filePattern, caseSensitive, startLine, endLine),
                                 mode, style)
  {
    var c := MakeConfig(search, replace, filePattern, caseSensitive, startLine, endLine);
    if IsSearchReplaceIdentical(search, replace) {
      return Ok(SearchReplaceResult(c, []));
    }
    if target.None? {
      return Err(PathNotFound);
    }
    var results := ScanAll(c, target.value);
    if ParseMode(mode).None? {
      return Err(BadMode);
    }
    if ParseStyle(style).None? {
      return Err(BadStyle);
    }
    r := Ok(SearchReplaceResult(c, results));
  }

  /** What the engine returns once the patterns differ. */
  function EngineOutcome(target: Option<seq<SourceFile>>, c: Config, mode: string, style: string)
    : Result<SearchReplaceResult, EngineError>
  {
    if target.None? then Err(PathNotFound)
    else if ParseMode(mode).None? then Err(BadMode)
    else if ParseStyle(style).None? then Err(BadStyle)
    else Ok(SearchReplaceResult(c, ScanFiles(c, target.value)))
  }

  /** A successful run reports one result per readable file, each with the
      matches of that file's content under the run's configuration. */
  lemma EngineReportsReadableFiles(files: seq<SourceFile>, c: Config, mode: string, style: string)
    requires EngineOutcome(Some(files), c, mode, style).Ok?
    ensures |EngineOutcome(Some(files), c, mode, style).value.fileResults| == |Readable(files)|
    ensures forall k :: 0 <= k < |Readable(files)| ==>
              EngineOutcome(Some(files), c, mode, style).value.fileResults[k] == ScanOne(c, Readable(files)[k])
  {
    ScanFilesReadable(c, files);
  }

  /** SearchReplaceResult.total_files_with_matches */
  function FilesWithMatches(frs: seq<FileResult>): nat {
    if |frs| == 0 then 0 else (if |frs[0].matches| > 0 then 1 else 0) + FilesWithMatches(frs[1..])
  }

  /** SearchReplaceResult.total_matches */
  function TotalMatches(frs: seq<FileResult>): nat {
    if |frs| == 0 then 0 else |frs[0].matches| + TotalMatches(frs[1..])
  }

  /** No more files with matches than files, nor than matches; no matches
      at all exactly when no file has any. */
  lemma {:induction false} TotalsBounds(frs: seq<FileResult>)
    ensures FilesWithMatches(frs) <= |frs|
    ensures FilesWithMatches(frs) <= TotalMatches(frs)
    ensures TotalMatches(frs) == 0 <==> forall k :: 0 <= k < |frs| ==> |frs[k].matches| == 0
    decreases |frs|
  {
    if |frs| > 0 {
      TotalsBounds(frs[1..]);
      if TotalMatches(frs) == 0 {
        forall k | 0 <= k < |frs|
          ensures |frs[k].matches| == 0
        {
          if k > 0 {
            assert frs[k] == frs[1..][k - 1];
          }
        }
      }
      if forall k :: 0 <= k < |frs| ==> |frs[k].matches| == 0 {
        forall k | 0 <= k < |frs| - 1
          ensures |frs[1..][k].matches| == 0
        {
          assert frs[1..][k] == frs[k + 1];
        }
      }
    }
  }
}

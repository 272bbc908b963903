/** The search tool (morpher/tools/search.py): the per-file match listing
    with truncation, the search tree that carries each file's matches on its
    leaf, the list and tree renderings of the results, the exclusion filter
    applied while walking a directory and the bookkeeping of the line scan.
    Walking the file system, reading files, the regular expression and
    os.path.relpath are passed in: the walk as the sequence of candidate
    files, a file as its lines (None when it cannot be read), the regular
    expression as a test on a line, relpath as a function. */
module Search {
  import opened Wrappers
  import opened Text
  import opened PathGraph
  import Ignore
  import ExtPatterns

  /** One matching line: its 1-based number and its stripped text. */
  datatype LineMeta = LineMeta(line: nat, text: string)

  /** One file with matches: its path, its matching lines, its line count. */
  datatype FileMatchMeta = FileMatchMeta(file: string, matches: seq<LineMeta>, totalLines: nat)

  // ---------------------------------------------------------------------
  // FileMatchMeta.format_matches
  // ---------------------------------------------------------------------

  /** f"{prefix}  {line:<3d} | {text}\n" */
  function MatchRow(prefix: string, m: LineMeta): string {
    prefix + "  " + PadRight(NatToString(m.line), 3) + " | " + m.text + "\n"
  }

  function MatchRows(prefix: string, ms: seq<LineMeta>): string {
    if |ms| == 0 then ""
    else MatchRows(prefix, ms[..|ms| - 1]) + MatchRow(prefix, ms[|ms| - 1])
  }

  /** How many rows the loop writes: it stops after the row numbered max,
      and tests that only after writing a row, so a max below 1 still
      lets the first row through. */
  function Shown(n: nat, max: int): (r: nat)
    ensures r <= n
  {
    if n == 0 then 0
    else if max < 1 then 1
    else if n < max then n
    else max
  }

  function TruncationNote(prefix: string, hidden: int): string {
    prefix + "  ... [Content truncated - " + IntToString(hidden) + " more matches hidden]\n"
  }

  /** format_matches: the first Shown rows, then the note counting the
      hidden matches when there are more matches than max. */
  function FormatMatchesText(meta: FileMatchMeta, prefix: string, max: int): string {
    var n := |meta.matches|;
    MatchRows(prefix, meta.matches[..Shown(n, max)])
    + (if n > max then TruncationNote(prefix, n - max) else "")
  }

  lemma MatchRowsSnoc(prefix: string, ms: seq<LineMeta>, k: nat)
    requires k < |ms|
    ensures MatchRows(prefix, ms[..k + 1]) == MatchRows(prefix, ms[..k]) + MatchRow(prefix, ms[k])
  {
    assert ms[..k + 1][..k] == ms[..k];
  }

  /** The listing once the loop has written k rows. */
  lemma FormatMatchesTextAt(meta: FileMatchMeta, prefix: string, max: int, k: nat, rows: string)
    requires k == Shown(|meta.matches|, max) && rows == MatchRows(prefix, meta.matches[..k])
    ensures FormatMatchesText(meta, prefix, max)
         == rows + (if |meta.matches| > max then TruncationNote(prefix, |meta.matches| - max) else "")
  {
  }

  /** The loop stops at the first row numbered max or more. */
  lemma ShownAtBreak(n: nat, max: int, k: nat)
    requires 1 <= k <= n && max <= k && (k == 1 || k - 1 < max)
    ensures Shown(n, max) == k
  {
  }

  /** The loop runs out of matches before reaching max. */
  lemma ShownAtEnd(n: nat, max: int, k: nat)
    requires k == Shown(n, max) || (k == n && (k == 0 || k < max))
    ensures Shown(n, max) == k
  {
  }

  /** format_matches as the loop it runs, with its early break. */
  method FormatMatches(meta: FileMatchMeta, prefix: string, max: int) returns (s: string)
    ensures s == FormatMatchesText(meta, prefix, max)
  {
    var ms := meta.matches;
    var rows := "";
    var k := 0;
    while k < |ms|
      invariant 0 <= k <= |ms|
      invariant rows == MatchRows(prefix, ms[..k])
      invariant k == 0 || k < max
    {
      MatchRowsSnoc(prefix, ms, k);
      rows := rows + MatchRow(prefix, ms[k]);
      k := k + 1;
      if k >= max {
        ShownAtBreak(|ms|, max, k);
        break;
      }
    }
    ShownAtEnd(|ms|, max, k);
    FormatMatchesTextAt(meta, prefix, max, k, rows);
    var note := if |ms| > max then TruncationNote(prefix, |ms| - max) else "";
    s := rows + note;
  }

  /** With max at least 1 the listing shows min(len(matches), max) rows. */
  lemma ShownIsMin(n: nat, max: int)
    requires max >= 1
    ensures Shown(n, max) == if n < max then n else max
  {
  }

  predicate NoNewline(s: string) {
    '\n' !in s
  }

  /** A text with no newline, then one newline, is one line. */
  lemma OneLine(front: string)
    requires NoNewline(front)
    ensures Count(front + "\n", '\n') == 1
  {
    NoBreakCount(front);
    CountAppend(front, "\n", '\n');
  }

  lemma {:induction false} NoBreakCount(s: string)
    requires NoNewline(s)
    ensures Count(s, '\n') == 0
  {
    if |s| > 0 {
      assert s[0] in s;
      assert forall k :: 0 <= k < |s[1..]| ==> s[1..][k] in s;
      NoBreakCount(s[1..]);
    }
  }

  lemma {:induction false} SpacesNoNewline(n: nat)
    ensures NoNewline(Repeat(" ", n))
  {
    if n > 0 {
      SpacesNoNewline(n - 1);
    }
  }

  lemma NumberNoNewline(i: int)
    ensures NoNewline(IntToString(i))
    ensures i >= 0 ==> NoNewline(PadRight(NatToString(i), 3))
  {
    DigitsHaveNoBreak(NatToString(if i < 0 then -i else i));
    var d := NatToString(if i < 0 then -i else i);
    if |d| < 3 {
      SpacesNoNewline(3 - |d|);
    }
  }

  lemma RowLines(prefix: string, m: LineMeta)
    requires NoNewline(prefix) && NoNewline(m.text)
    ensures Count(MatchRow(prefix, m), '\n') == 1
  {
    NumberNoNewline(m.line);
    var front := prefix + "  " + PadRight(NatToString(m.line), 3) + " | " + m.text;
    OneLine(front);
  }

  predicate TextsClean(ms: seq<LineMeta>) {
    forall k :: 0 <= k < |ms| ==> NoNewline(ms[k].text)
  }

  lemma {:induction false} RowsLines(prefix: string, ms: seq<LineMeta>)
    requires NoNewline(prefix) && TextsClean(ms)
    ensures Count(MatchRows(prefix, ms), '\n') == |ms|
  {
    if |ms| > 0 {
      var n := |ms| - 1;
      assert TextsClean(ms[..n]);
      RowsLines(prefix, ms[..n]);
      RowLines(prefix, ms[n]);
      CountAppend(MatchRows(prefix, ms[..n]), MatchRow(prefix, ms[n]), '\n');
    }
  }

  lemma PrefixLines(prefix: string, ms: seq<LineMeta>, k: nat)
    requires NoNewline(prefix) && TextsClean(ms) && k <= |ms|
    ensures Count(MatchRows(prefix, ms[..k]), '\n') == k
  {
    assert TextsClean(ms[..k]);
    RowsLines(prefix, ms[..k]);
  }

  lemma NoteLines(prefix: string, hidden: int)
    requires NoNewline(prefix)
    ensures Count(TruncationNote(prefix, hidden), '\n') == 1
  {
    NumberNoNewline(hidden);
    var front := prefix + "  ... [Content truncated - " + IntToString(hidden) + " more matches hidden]";
    assert TruncationNote(prefix, hidden) == front + "\n";
    OneLine(front);
  }

  /** The listing is one line per shown match, plus the truncation note
      exactly when matches are hidden (when the prefix and the texts hold
      no newline, as stripped lines do not). */
  lemma FormatMatchesLines(meta: FileMatchMeta, prefix: string, max: int)
    requires NoNewline(prefix) && TextsClean(meta.matches)
    ensures Count(FormatMatchesText(meta, prefix, max), '\n')
         == Shown(|meta.matches|, max) + (if |meta.matches| > max then 1 else 0)
  {
    var n := |meta.matches|;
    var k := Shown(n, max);
    var rows := MatchRows(prefix, meta.matches[..k]);
    var note := if n > max then TruncationNote(prefix, n - max) else "";
    PrefixLines(prefix, meta.matches, k);
    assert Count(note, '\n') == (if n > max then 1 else 0) by {
      if n > max {
        NoteLines(prefix, n - max);
      }
    }
    FormatMatchesTextAt(meta, prefix, max, k, rows);
    CountAppend(rows, note, '\n');
  }

  // ---------------------------------------------------------------------
  // The search tree: PathTreeForSearchTool
  // ---------------------------------------------------------------------

  /** The tree whose leaves carry their file's matches: a path tree with
      FileMatchMeta as the meta of its nodes. Its add_child and add_path
      are PathGraph.AddChild and PathGraph.AddPath with the file's meta;
      an existing child keeps the meta it has. */
  type SearchNode = Node<FileMatchMeta>

  /** The listing under a node's line: the file's matches, indented by the
      prefix and as many spaces as the branch symbol is wide, when the
      node is a leaf carrying meta and file names alone are not asked for. */
  function MatchBlock(n: SearchNode, prefix: string, onlyFilename: bool, max: int): string {
    var symbol := if prefix != "" then Branch else "";
    if !onlyFilename && n.isLeaf && n.meta.Some? then
      FormatMatchesText(n.meta.value, prefix + Repeat(" ", |symbol|), max)
    else ""
  }

  /** PathTreeForSearchTool.format: the plain tree's line for the node,
      then its match block, then the children in name order. */
  function SearchFormat(n: SearchNode, prefix: string, onlyFilename: bool, max: int): string
    decreases n, 1
  {
    prefix + (if prefix != "" then Branch else "") + n.name + "\n"
    + MatchBlock(n, prefix, onlyFilename, max)
    + SearchFormatAll(SortByName(n.children), n, prefix + Indent, onlyFilename, max)
  }

  function SearchFormatAll(cs: seq<SearchNode>, parent: SearchNode, prefix: string, onlyFilename: bool, max: int): string
    requires forall k :: 0 <= k < |cs| ==> cs[k] in parent.children
    decreases parent, 0, |cs|
  {
    if |cs| == 0 then ""
    else
      assert cs[0] in parent.children;
      SearchFormat(cs[0], prefix, onlyFilename, max) + SearchFormatAll(cs[1..], parent, prefix, onlyFilename, max)
  }

  /** No node of the tree carries meta. */
  predicate NoMeta(n: SearchNode) {
    n.meta.None? && forall k :: 0 <= k < |n.children| ==> NoMeta(n.children[k])
  }

  /** Asked for file names only, or given a tree without meta, the search
      tree prints exactly as the plain tree does. */
  lemma {:induction false} SearchFormatPlain(n: SearchNode, prefix: string, onlyFilename: bool, max: int)
    requires onlyFilename || NoMeta(n)
    ensures SearchFormat(n, prefix, onlyFilename, max) == Format(n, prefix)
    decreases n, 1
  {
    var cs := SortByName(n.children);
    if !onlyFilename {
      forall k | 0 <= k < |cs|
        ensures NoMeta(cs[k])
      {
        assert cs[k] in n.children;
      }
    }
    SearchFormatAllPlain(cs, n, prefix + Indent, onlyFilename, max);
  }

  lemma {:induction false} SearchFormatAllPlain(cs: seq<SearchNode>, parent: SearchNode, prefix: string, onlyFilename: bool, max: int)
    requires forall k :: 0 <= k < |cs| ==> cs[k] in parent.children
    requires onlyFilename || forall k :: 0 <= k < |cs| ==> NoMeta(cs[k])
    ensures SearchFormatAll(cs, parent, prefix, onlyFilename, max) == FormatAll(cs, parent, prefix)
    decreases parent, 0, |cs|
  {
    if |cs| > 0 {
      assert cs[0] in parent.children;
      SearchFormatPlain(cs[0], prefix, onlyFilename, max);
      SearchFormatAllPlain(cs[1..], parent, prefix, onlyFilename, max);
    }
  }

  /** A leaf carrying meta, asked for its matches, prints its line and
      right after it its match listing, indented under the branch symbol. */
  lemma LeafBlock(n: SearchNode, prefix: string, max: int)
    requires n.isLeaf && n.meta.Some? && n.children == []
    ensures SearchFormat(n, prefix, false, max)
         == Format(n, prefix) + FormatMatchesText(n.meta.value, prefix + (if prefix != "" then "    " else ""), max)
  {
    assert SortByName(n.children) == [];
    assert Repeat(" ", 4) == "    ";
  }

  // ---------------------------------------------------------------------
  // format_results_to_pretty_str and format_results_to_pretty_graph
  // ---------------------------------------------------------------------

  const NoResults: string := "No matching results found"
  const EntireFile: string := " (entire file content returned)\n"

  /** "Found {n} files with matches" and a blank line. */
  function FoundLine(n: nat): string {
    "Found " + NatToString(n) + " files with matches\n\n"
  }

  /** The header of one file in the list: the whole file was returned
      when every line matched, otherwise the match count. */
  function ResultHeader(r: FileMatchMeta, rel: string): string {
    if |r.matches| == r.totalLines then "# " + rel + EntireFile
    else "# " + rel + " (" + NatToString(|r.matches|) + " matches)\n"
  }

  /** The header says the entire file was returned exactly when the
      number of matches is the number of lines. */
  lemma HeaderEntireIff(r: FileMatchMeta, rel: string)
    ensures EndsWith(ResultHeader(r, rel), EntireFile) <==> |r.matches| == r.totalLines
  {
    var h := ResultHeader(r, rel);
    if |r.matches| != r.totalLines {
      var tail := " matches)\n";
      assert h == ("# " + rel + " (" + NatToString(|r.matches|)) + tail;
      assert h[|h| - 3] == 's';
    }
  }

  /** One file of the list: its header, its listing unless file names
      alone are asked for, and a blank line. */
  function ResultBlock(r: FileMatchMeta, max: int, onlyFilename: bool, relpath: string -> string): string {
    ResultHeader(r, relpath(r.file))
    + (if onlyFilename then "" else FormatMatchesText(r, "", max))
    + "\n"
  }

  function ResultBlocks(results: seq<FileMatchMeta>, max: int, onlyFilename: bool, relpath: string -> string): string {
    if |results| == 0 then ""
    else ResultBlock(results[0], max, onlyFilename, relpath) + ResultBlocks(results[1..], max, onlyFilename, relpath)
  }

  /** format_results_to_pretty_str, with os.path.relpath passed in. */
  function PrettyStr(results: seq<FileMatchMeta>, max: int, onlyFilename: bool, relpath: string -> string): string {
    if |results| == 0 then NoResults
    else FoundLine(|results|) + ResultBlocks(results, max, onlyFilename, relpath)
  }

  /** The text is the no-results message exactly when there are no
      results. */
  lemma PrettyStrEmptyIff(results: seq<FileMatchMeta>, max: int, onlyFilename: bool, relpath: string -> string)
    ensures PrettyStr(results, max, onlyFilename, relpath) == NoResults <==> results == []
  {
    if results != [] {
      var out := PrettyStr(results, max, onlyFilename, relpath);
      assert out[0] == 'F';
    }
  }

  lemma FoundLines(n: nat)
    ensures Count(FoundLine(n), '\n') == 2
  {
    NumberNoNewline(n);
    var front := "Found " + NatToString(n) + " files with matches";
    assert FoundLine(n) == (front + "\n") + "\n";
    OneLine(front);
    CountAppend(front + "\n", "\n", '\n');
  }

  predicate RelClean(results: seq<FileMatchMeta>, relpath: string -> string) {
    forall k :: 0 <= k < |results| ==> NoNewline(relpath(results[k].file))
  }

  lemma HeaderLines(r: FileMatchMeta, rel: string)
    requires NoNewline(rel)
    ensures Count(ResultHeader(r, rel), '\n') == 1
  {
    if |r.matches| == r.totalLines {
      var front := "# " + rel + " (entire file content returned)";
      assert ResultHeader(r, rel) == front + "\n";
      OneLine(front);
    } else {
      NumberNoNewline(|r.matches|);
      var front := "# " + rel + " (" + NatToString(|r.matches|) + " matches)";
      assert ResultHeader(r, rel) == front + "\n";
      OneLine(front);
    }
  }

  lemma {:induction false} BlocksLines(results: seq<FileMatchMeta>, max: int, relpath: string -> string)
    requires RelClean(results, relpath)
    ensures Count(ResultBlocks(results, max, true, relpath), '\n') == 2 * |results|
  {
    if |results| > 0 {
      var r := results[0];
      assert RelClean(results[1..], relpath);
      BlocksLines(results[1..], max, relpath);
      HeaderLines(r, relpath(r.file));
      var h := ResultHeader(r, relpath(r.file));
      assert ResultBlock(r, max, true, relpath) == h + "\n";
      CountAppend(h, "\n", '\n');
      CountAppend(h + "\n", ResultBlocks(results[1..], max, true, relpath), '\n');
    }
  }

  /** Listing file names only, the text has two lines of heading and two
      lines per file: its header and a blank line. */
  lemma PrettyStrLines(results: seq<FileMatchMeta>, max: int, relpath: string -> string)
    requires results != [] && RelClean(results, relpath)
    ensures Count(PrettyStr(results, max, true, relpath), '\n') == 2 + 2 * |results|
  {
    FoundLines(|results|);
    BlocksLines(results, max, relpath);
    CountAppend(FoundLine(|results|), ResultBlocks(results, max, true, relpath), '\n');
  }

  /** The path parts of every result, as from_paths takes them. */
  function FileParts(results: seq<FileMatchMeta>): (r: seq<seq<string>>)
    ensures |r| == |results|
  {
    seq(|results|, k requires 0 <= k < |results| => PathParts(results[k].file))
  }

  /** Each result as the meta of its leaf. */
  function FileMetas(results: seq<FileMatchMeta>): (r: seq<Option<FileMatchMeta>>)
    ensures |r| == |results|
  {
    seq(|results|, k requires 0 <= k < |results| => Some(results[k]))
  }

  /** format_results_to_pretty_graph with as_text set: the no-results
      message, or the heading and the compressed search tree of the
      results. */
  method PrettyGraph(results: seq<FileMatchMeta>, max: int, onlyFilename: bool) returns (out: string)
    requires forall k :: 0 <= k < |results| ==> PathParts(results[k].file) != []
    ensures results == [] ==> out == NoResults
    ensures results != [] ==>
      out == FoundLine(|results|)
        + SearchFormat(Concentrate(Build(FileParts(results), FileMetas(results)).value), "", onlyFilename, max)
  {
    if |results| == 0 {
      return NoResults;
    }
    var tree := FromPaths(FileParts(results), FileMetas(results), true);
    out := FoundLine(|results|) + SearchFormat(tree.value, "", onlyFilename, max);
  }

  // ---------------------------------------------------------------------
  // The exclusion filter of search_file
  // ---------------------------------------------------------------------

  /** [p.rstrip('/') for p in patterns if p.endswith('/')] */
  function DirPatterns(pats: seq<string>): seq<string> {
    if |pats| == 0 then []
    else (if EndsWith(pats[0], "/") then [RStripChar(pats[0], '/')] else []) + DirPatterns(pats[1..])
  }

  /** [p.lstrip('*') for p in patterns if not p.endswith('/')] */
  function FilePatterns(pats: seq<string>): seq<string> {
    if |pats| == 0 then []
    else (if EndsWith(pats[0], "/") then [] else [LStripChar(pats[0], '*')]) + FilePatterns(pats[1..])
  }

  lemma {:induction false} DirPatternsHas(pats: seq<string>, d: string)
    ensures d in DirPatterns(pats) <==> exists p :: p in pats && EndsWith(p, "/") && d == RStripChar(p, '/')
  {
    if |pats| > 0 {
      DirPatternsHas(pats[1..], d);
      assert forall p :: p in pats <==> p == pats[0] || p in pats[1..];
    }
  }

  lemma {:induction false} FilePatternsHas(pats: seq<string>, f: string)
    ensures f in FilePatterns(pats) <==> exists p :: p in pats && !EndsWith(p, "/") && f == LStripChar(p, '*')
  {
    if |pats| > 0 {
      FilePatternsHas(pats[1..], f);
      assert forall p :: p in pats <==> p == pats[0] || p in pats[1..];
    }
  }

  /** The test search_file applies, as written: some part of the path
      (the file name included) holds a directory pattern as a substring,
      or the file name ends with a file pattern. */
  predicate ExcludedAsWritten(parts: seq<string>, name: string, pats: seq<string>) {
    (exists d, part | d in DirPatterns(pats) && part in parts :: Contains(part, d))
    || (exists f | f in FilePatterns(pats) :: EndsWith(name, f))
  }

  /** The as-written test in terms of the patterns themselves. */
  lemma ExcludedAsWrittenIff(parts: seq<string>, name: string, pats: seq<string>)
    ensures ExcludedAsWritten(parts, name, pats) <==>
      (exists p, part | p in pats && part in parts :: EndsWith(p, "/") && Contains(part, RStripChar(p, '/')))
      || (exists p | p in pats :: !EndsWith(p, "/") && EndsWith(name, LStripChar(p, '*')))
  {
    if exists d, part | d in DirPatterns(pats) && part in parts :: Contains(part, d) {
      var d, part :| d in DirPatterns(pats) && part in parts && Contains(part, d);
      DirPatternsHas(pats, d);
    }
    if exists p, part | p in pats && part in parts :: EndsWith(p, "/") && Contains(part, RStripChar(p, '/')) {
      var p, part :| p in pats && part in parts && EndsWith(p, "/") && Contains(part, RStripChar(p, '/'));
      DirPatternsHas(pats, RStripChar(p, '/'));
    }
    if exists f | f in FilePatterns(pats) :: EndsWith(name, f) {
      var f :| f in FilePatterns(pats) && EndsWith(name, f);
      FilePatternsHas(pats, f);
    }
    if exists p | p in pats :: !EndsWith(p, "/") && EndsWith(name, LStripChar(p, '*')) {
      var p :| p in pats && !EndsWith(p, "/") && EndsWith(name, LStripChar(p, '*'));
      FilePatternsHas(pats, LStripChar(p, '*'));
    }
  }

  /** The base list holds the directory pattern "out/". */
  lemma BaseHasOut()
    ensures "out/" in ExtPatterns.Base
  {
    assert ExtPatterns.Artifact[22] == "out/";
    assert ExtPatterns.Base[23] == ExtPatterns.Artifact[22];
  }

  lemma OutPattern()
    ensures EndsWith("out/", "/") && RStripChar("out/", '/') == "out"
  {
    var p := "out/";
    assert p[..|p| - 1] == "out";
    assert p[|p| - 1..] == "/";
  }

  lemma LayoutHoldsOut()
    ensures Contains("layout.py", "out")
  {
    assert OccursAt("layout.py", "out", 3);
  }

  /** As written, a directory pattern "out/" excludes src/layout.py:
      "out" is a substring of the file name. */
  lemma LayoutExcludedBy(pats: seq<string>)
    requires "out/" in pats
    ensures ExcludedAsWritten(["src", "layout.py"], "layout.py", pats)
  {
    OutPattern();
    DirPatternsHas(pats, "out");
    LayoutHoldsOut();
    var parts := ["src", "layout.py"];
    assert "out" in DirPatterns(pats) && parts[1] in parts && Contains(parts[1], "out");
  }

  /** The base exclusion list, as written, excludes src/layout.py. */
  lemma LayoutExcludedAsWritten()
    ensures ExcludedAsWritten(["src", "layout.py"], "layout.py", ExtPatterns.Base)
  {
    BaseHasOut();
    LayoutExcludedBy(ExtPatterns.Base);
  }

  /** As written, a file pattern that ends in '*' is compared literally:
      it only excludes names that themselves end in '*', so
      "yarn-debug.log*" does not exclude yarn-debug.log. */
  lemma StarTailAsWritten(name: string, f: string)
    requires |f| > 0 && f[|f| - 1] == '*' && EndsWith(name, f)
    ensures |name| > 0 && name[|name| - 1] == '*'
  {
    assert name[|name| - 1] == name[|name| - |f|..][|f| - 1];
  }

  /** On the filter itself: a file pattern x + "*" keeps its trailing '*'
      after lstrip, so the test as written does not exclude a name that
      starts with x and does not end in '*', while the intended glob does. */
  lemma StarTailFilter(x: string, rest: string)
    requires |x| > 0 && Ignore.NoWildcard(x)
    requires |rest| == 0 || rest[|rest| - 1] != '*'
    ensures FilePatterns([x + "*"]) == [x + "*"]
    ensures !ExcludedAsWritten([x + rest], x + rest, [x + "*"])
    ensures Excluded([], x + rest, [x + "*"])
  {
    var p := x + "*";
    assert !EndsWith(p, "/") by {
      assert p[|p| - 1..] == "*";
    }
    assert LStripChar(p, '*') == p by {
      assert p[0] == x[0];
    }
    assert FilePatterns([p]) == [p] + FilePatterns([p][1..]);
    assert DirPatterns([p]) == [] + DirPatterns([p][1..]);
    var name := x + rest;
    assert |name| > 0 && name[|name| - 1] != '*' by {
      if |rest| == 0 {
        assert name[|name| - 1] == x[|x| - 1];
      } else {
        assert name[|name| - 1] == rest[|rest| - 1];
      }
    }
    if EndsWith(name, p) {
      StarTailAsWritten(name, p);
    }
    GlobPrefixStar(x, rest);
    assert p in [p];
  }

  /** Where a directory pattern evidently applies: its components are
      consecutive directories of the path, the file name excluded. */
  predicate DirMatches(dirs: seq<string>, pat: string) {
    var comps := Split(pat, '/');
    exists i | 0 <= i <= |dirs| :: SegmentAt(dirs, comps, i)
  }

  /** comps occurs in dirs starting at position i. */
  predicate SegmentAt(dirs: seq<string>, comps: seq<string>, i: nat) {
    i + |comps| <= |dirs| && dirs[i..i + |comps|] == comps
  }

  /** The exclusion test as evidently intended: a directory pattern names
      directories of the path, and a file pattern is a glob over the file
      name. */
  predicate Excluded(dirs: seq<string>, name: string, pats: seq<string>) {
    (exists p | p in pats :: EndsWith(p, "/") && DirMatches(dirs, RStripChar(p, '/')))
    || (exists p | p in pats :: !EndsWith(p, "/") && Ignore.Glob(name, p))
  }

  /** A one-component directory pattern excludes exactly the paths that
      have a directory of that name. */
  lemma DirMatchesSingle(dirs: seq<string>, pat: string)
    requires '/' !in pat
    ensures DirMatches(dirs, pat) <==> pat in dirs
  {
    SplitNoSep(pat, '/');
    if pat in dirs {
      var i :| 0 <= i < |dirs| && dirs[i] == pat;
      assert dirs[i..i + 1] == [pat];
      assert SegmentAt(dirs, [pat], i);
    }
    if DirMatches(dirs, pat) {
      var i :| 0 <= i <= |dirs| && SegmentAt(dirs, [pat], i);
      assert dirs[i] == dirs[i..i + 1][0];
    }
  }

  /** src/layout.py is kept by the intended test: out/ names no directory
      of the path. */
  lemma LayoutKept()
    ensures !Excluded(["src"], "layout.py", ["out/"])
  {
    var p := "out/";
    assert RStripChar(p, '/') == "out" by {
      assert p[..|p| - 1] == "out";
    }
    DirMatchesSingle(["src"], "out");
  }

  /** On a plain extension pattern "*" + suffix the intended glob agrees
      with the suffix test as written. */
  lemma GlobAgreesOnExtensions(name: string, suffix: string)
    requires Ignore.NoWildcard(suffix)
    ensures Ignore.Glob(name, "*" + suffix) <==> EndsWith(name, LStripChar("*" + suffix, '*'))
  {
    Ignore.GlobStarSuffix(name, suffix);
    assert ("*" + suffix)[1..] == suffix;
    assert LStripChar("*" + suffix, '*') == LStripChar(suffix, '*');
  }

  /** The intended glob lets a trailing '*' match any ending: a pattern
      x + "*" excludes x and every name that starts with x. */
  lemma {:induction false} GlobPrefixStar(x: string, rest: string)
    requires Ignore.NoWildcard(x)
    ensures Ignore.Glob(x + rest, x + "*")
    decreases |x|
  {
    if |x| == 0 {
      assert x + rest == rest && x + "*" == "*";
      Ignore.GlobStar(rest);
    } else {
      GlobPrefixStar(x[1..], rest);
      assert (x + rest)[1..] == x[1..] + rest;
      assert (x + "*")[1..] == x[1..] + "*";
    }
  }

  /** What the directory walk yields: a path and whether it is a file. */
  datatype Entry = Entry(path: string, isFile: bool)

  /** The directories of a path: its parts without the last, the file name. */
  function Dirs(parts: seq<string>): seq<string> {
    if |parts| == 0 then [] else parts[..|parts| - 1]
  }

  /** Path.name: the last part. */
  function BaseName(parts: seq<string>): string {
    if |parts| == 0 then "" else parts[|parts| - 1]
  }

  /** Which exclusion test the walk applies: the one search_file runs, or
      the evidently intended one. */
  datatype ExclusionTest = AsWritten | Intended

  /** The exclusion test on the parts of a path. */
  predicate ExcludedBy(test: ExclusionTest, parts: seq<string>, pats: seq<string>) {
    match test
    case AsWritten => ExcludedAsWritten(parts, BaseName(parts), pats)
    case Intended => Excluded(Dirs(parts), BaseName(parts), pats)
  }

  /** The walk keeps an entry that is a file and is not excluded. */
  predicate Kept(e: Entry, pats: seq<string>, test: ExclusionTest) {
    e.isFile && !ExcludedBy(test, PathParts(e.path), pats)
  }

  /** The paths of the kept entries, in walk order. */
  function Walked(entries: seq<Entry>, pats: seq<string>, test: ExclusionTest): seq<string> {
    if |entries| == 0 then []
    else
      var e := entries[|entries| - 1];
      Walked(entries[..|entries| - 1], pats, test) + (if Kept(e, pats, test) then [e.path] else [])
  }

  /** The directory branch of search_file: skip what is not a file, skip
      what the exclusion test rejects, collect the rest. The program runs
      it with `AsWritten`. */
  method FilterFiles(entries: seq<Entry>, pats: seq<string>, test: ExclusionTest) returns (files: seq<string>)
    ensures files == Walked(entries, pats, test)
  {
    files := [];
    var i := 0;
    while i < |entries|
      invariant 0 <= i <= |entries|
      invariant files == Walked(entries[..i], pats, test)
    {
      assert entries[..i + 1][..i] == entries[..i];
      var e := entries[i];
      if e.isFile {
        var parts := PathParts(e.path);
        if !ExcludedBy(test, parts, pats) {
          files := files + [e.path];
        }
      }
      i := i + 1;
    }
    assert entries[..|entries|] == entries;
  }

  /** Some entry with path f is kept. */
  predicate HasKept(entries: seq<Entry>, pats: seq<string>, test: ExclusionTest, f: string) {
    exists k | 0 <= k < |entries| :: entries[k].path == f && Kept(entries[k], pats, test)
  }

  /** A path is collected exactly when some entry with that path is kept. */
  lemma {:induction false} WalkedIff(entries: seq<Entry>, pats: seq<string>, test: ExclusionTest, f: string)
    ensures f in Walked(entries, pats, test) <==> HasKept(entries, pats, test, f)
  {
    if |entries| > 0 {
      var n := |entries| - 1;
      WalkedIff(entries[..n], pats, test, f);
      HasKeptSnoc(entries, pats, test, f);
    }
  }

  lemma HasKeptSnoc(entries: seq<Entry>, pats: seq<string>, test: ExclusionTest, f: string)
    requires |entries| > 0
    ensures var n := |entries| - 1;
            HasKept(entries, pats, test, f) <==>
              HasKept(entries[..n], pats, test, f) || (entries[n].path == f && Kept(entries[n], pats, test))
  {
    var n := |entries| - 1;
    if HasKept(entries[..n], pats, test, f) {
      var k :| 0 <= k < n && entries[..n][k].path == f && Kept(entries[..n][k], pats, test);
      assert entries[k] == entries[..n][k];
    }
    if HasKept(entries, pats, test, f) {
      var k :| 0 <= k < |entries| && entries[k].path == f && Kept(entries[k], pats, test);
      if k < n {
        assert entries[..n][k] == entries[k];
      }
    }
  }

  /** The walk as written drops src/layout.py under any list holding
      "out/", where the intended walk over ["out/"] keeps it. */
  lemma LayoutWalk(pats: seq<string>)
    requires "out/" in pats
    ensures Walked([Entry("src/layout.py", true)], pats, AsWritten) == []
    ensures Walked([Entry("src/layout.py", true)], ["out/"], Intended) == ["src/layout.py"]
  {
    LayoutParts();
    LayoutWalkAt("src/layout.py", pats);
  }

  /** The same for any path whose parts are src and layout.py. */
  lemma LayoutWalkAt(path: string, pats: seq<string>)
    requires PathParts(path) == ["src", "layout.py"] && "out/" in pats
    ensures Walked([Entry(path, true)], pats, AsWritten) == []
    ensures Walked([Entry(path, true)], ["out/"], Intended) == [path]
  {
    var parts := PathParts(path);
    assert Dirs(parts) == ["src"] && BaseName(parts) == "layout.py";
    LayoutExcludedBy(pats);
    LayoutKept();
    WalkedOne(Entry(path, true), pats, AsWritten);
    WalkedOne(Entry(path, true), ["out/"], Intended);
  }

  lemma WalkedOne(e: Entry, pats: seq<string>, test: ExclusionTest)
    ensures Walked([e], pats, test) == if Kept(e, pats, test) then [e.path] else []
  {
    assert [e][..0] == [];
  }

  lemma LayoutParts()
    ensures PathParts("src/layout.py") == ["src", "layout.py"]
  {
    var cs := ["src", "layout.py"];
    assert IsComponent(cs[0]) && IsComponent(cs[1]);
    assert Join(cs, '/') == "src/layout.py" by {
      assert Join(cs[1..], '/') == "layout.py";
    }
    PathPartsRoundTrip(cs);
  }

  // ---------------------------------------------------------------------
  // The line scan of search_file
  // ---------------------------------------------------------------------

  /** The matches of a file: every line the test accepts, numbered from 1,
      with its text stripped. */
  function MatchesOf(lines: seq<string>, hit: string -> bool): seq<LineMeta> {
    if |lines| == 0 then []
    else
      var n := |lines|;
      MatchesOf(lines[..n - 1], hit) + (if hit(lines[n - 1]) then [LineMeta(n, Strip(lines[n - 1]))] else [])
  }

  /** A match names a line that the test accepts, by its 1-based number,
      and carries that line stripped. */
  predicate MatchOf(lines: seq<string>, hit: string -> bool, m: LineMeta) {
    1 <= m.line <= |lines| && hit(lines[m.line - 1]) && m.text == Strip(lines[m.line - 1])
  }

  lemma {:induction false} MatchesOfSound(lines: seq<string>, hit: string -> bool, k: nat)
    requires k < |MatchesOf(lines, hit)|
    ensures MatchOf(lines, hit, MatchesOf(lines, hit)[k])
  {
    var n := |lines| - 1;
    var prev := MatchesOf(lines[..n], hit);
    if k < |prev| {
      MatchesOfSound(lines[..n], hit, k);
      assert lines[..n][prev[k].line - 1] == lines[prev[k].line - 1];
    }
  }

  lemma {:induction false} MatchesOfBelow(lines: seq<string>, hit: string -> bool, k: nat)
    requires k < |MatchesOf(lines, hit)|
    ensures MatchesOf(lines, hit)[k].line <= |lines|
  {
    MatchesOfSound(lines, hit, k);
  }

  /** Matches come in strictly increasing line order. */
  lemma {:induction false} MatchesOfAscending(lines: seq<string>, hit: string -> bool, j: nat, k: nat)
    requires j < k < |MatchesOf(lines, hit)|
    ensures MatchesOf(lines, hit)[j].line < MatchesOf(lines, hit)[k].line
  {
    var n := |lines| - 1;
    var prev := MatchesOf(lines[..n], hit);
    if k < |prev| {
      MatchesOfAscending(lines[..n], hit, j, k);
    } else {
      MatchesOfBelow(lines[..n], hit, j);
    }
  }

  /** Every line the test accepts is reported. */
  lemma {:induction false} MatchesOfComplete(lines: seq<string>, hit: string -> bool, j: nat)
    requires j < |lines| && hit(lines[j])
    ensures LineMeta(j + 1, Strip(lines[j])) in MatchesOf(lines, hit)
  {
    var n := |lines| - 1;
    var prev := MatchesOf(lines[..n], hit);
    var last := if hit(lines[n]) then [LineMeta(n + 1, Strip(lines[n]))] else [];
    assert MatchesOf(lines, hit) == prev + last;
    if j < n {
      MatchesOfComplete(lines[..n], hit, j);
      assert lines[..n][j] == lines[j];
      assert LineMeta(j + 1, Strip(lines[j])) in prev;
    } else {
      assert LineMeta(j + 1, Strip(lines[j])) in last;
    }
  }

  /** What scanning one file reports: nothing when no line matched,
      otherwise its matches and its line count. */
  function Scanned(path: string, lines: seq<string>, hit: string -> bool): Option<FileMatchMeta> {
    var ms := MatchesOf(lines, hit);
    if ms == [] then None else Some(FileMatchMeta(path, ms, |lines|))
  }

  /** A file is reported exactly when some line of it matches. */
  lemma ScannedIff(path: string, lines: seq<string>, hit: string -> bool)
    ensures Scanned(path, lines, hit).Some? <==> exists j | 0 <= j < |lines| :: hit(lines[j])
  {
    if exists j | 0 <= j < |lines| :: hit(lines[j]) {
      var j :| 0 <= j < |lines| && hit(lines[j]);
      MatchesOfComplete(lines, hit, j);
    }
    if MatchesOf(lines, hit) != [] {
      MatchesOfSound(lines, hit, 0);
    }
  }

  /** The scan of one file as the loop it runs over the lines. */
  method ScanFile(path: string, lines: seq<string>, hit: string -> bool) returns (r: Option<FileMatchMeta>)
    ensures r == Scanned(path, lines, hit)
  {
    var matches: seq<LineMeta> := [];
    var total := 0;
    var i := 0;
    while i < |lines|
      invariant 0 <= i <= |lines|
      invariant matches == MatchesOf(lines[..i], hit)
      invariant total == i
    {
      assert lines[..i + 1][..i] == lines[..i];
      total := i + 1;
      if hit(lines[i]) {
        matches := matches + [LineMeta(i + 1, Strip(lines[i]))];
      }
      i := i + 1;
    }
    assert lines[..|lines|] == lines;
    if matches != [] {
      r := Some(FileMatchMeta(path, matches, total));
    } else {
      r := None;
    }
  }

  /** A file to search: its path and its lines, None when it cannot be
      read (the error is reported and the file skipped). */
  datatype Source = Source(path: string, lines: Option<seq<string>>)

  /** The results of the scan: the files with at least one match, in
      order. */
  function ScanAll(files: seq<Source>, hit: string -> bool): seq<FileMatchMeta> {
    if |files| == 0 then []
    else
      var f := files[|files| - 1];
      var r := if f.lines.None? then None else Scanned(f.path, f.lines.value, hit);
      ScanAll(files[..|files| - 1], hit) + (if r.Some? then [r.value] else [])
  }

  /** Every reported file has matches, and all of them are lines of it. */
  lemma {:induction false} ScanAllReported(files: seq<Source>, hit: string -> bool, k: nat)
    requires k < |ScanAll(files, hit)|
    ensures ScanAll(files, hit)[k].matches != []
    ensures exists i | 0 <= i < |files| ::
              (files[i].lines.Some? && Scanned(files[i].path, files[i].lines.value, hit) == Some(ScanAll(files, hit)[k]))
  {
    var n := |files| - 1;
    var prev := ScanAll(files[..n], hit);
    if k < |prev| {
      ScanAllReported(files[..n], hit, k);
      var i :| 0 <= i < n && files[..n][i].lines.Some?
        && Scanned(files[..n][i].path, files[..n][i].lines.value, hit) == Some(prev[k]);
      assert files[..n][i] == files[i];
    }
  }

  /** Scanning fewer files reports a prefix of the results. */
  lemma {:induction false} ScanAllPrefix(files: seq<Source>, hit: string -> bool, j: nat)
    requires j <= |files|
    ensures ScanAll(files[..j], hit) <= ScanAll(files, hit)
    decreases |files|
  {
    if j < |files| {
      var n := |files| - 1;
      ScanAllPrefix(files[..n], hit, j);
      assert files[..n][..j] == files[..j];
    } else {
      assert files[..j] == files;
    }
  }

  /** Every readable file with a hit is reported, right after the files
      reported before it: so the results are in file order. */
  lemma ScanAllComplete(files: seq<Source>, hit: string -> bool, i: nat)
    requires i < |files| && files[i].lines.Some?
    requires Scanned(files[i].path, files[i].lines.value, hit).Some?
    ensures |ScanAll(files[..i], hit)| < |ScanAll(files, hit)|
    ensures ScanAll(files, hit)[|ScanAll(files[..i], hit)|] == Scanned(files[i].path, files[i].lines.value, hit).value
  {
    var v := Scanned(files[i].path, files[i].lines.value, hit).value;
    assert files[..i + 1][..i] == files[..i];
    assert ScanAll(files[..i + 1], hit) == ScanAll(files[..i], hit) + [v];
    ScanAllPrefix(files, hit, i + 1);
  }

  /** The scan of search_file as the loop it runs over the files. */
  method SearchFiles(files: seq<Source>, hit: string -> bool) returns (results: seq<FileMatchMeta>)
    ensures results == ScanAll(files, hit)
  {
    results := [];
    var i := 0;
    while i < |files|
      invariant 0 <= i <= |files|
      invariant results == ScanAll(files[..i], hit)
    {
      assert files[..i + 1][..i] == files[..i];
      if files[i].lines.Some? {
        var r := ScanFile(files[i].path, files[i].lines.value, hit);
        if r.Some? {
          results := results + [r.value];
        }
      }
      i := i + 1;
    }
    assert files[..|files|] == files;
  }
}

/** The whole-file write tool (morpher/tools/write.py): line-ending
    normalisation, content preparation for the four operations, the three
    renderers, the content warnings, the identical-content short cut, the
    backup name, the result bookkeeping and the engine. The file system is
    passed in as a map from the paths that exist to their text, None for a
    file that exists but cannot be read as text. */
module Write {
  import opened Wrappers
  import opened Text

  datatype WriteOperation = Create | Overwrite | Append | Prepend
  datatype OutputStyle = Default | GitDiff | GitConflict
  datatype ExecutionMode = Preview | Apply

  // ---------------------------------------------------------------------
  // Line endings
  // ---------------------------------------------------------------------

  /** s.replace('\r\n', '\n'): left to right, without overlaps. */
  function ReplaceCrLf(s: string): (r: string)
    ensures |r| <= |s|
  {
    if |s| == 0 then ""
    else if |s| >= 2 && s[0] == '\r' && s[1] == '\n' then "\n" + ReplaceCrLf(s[2..])
    else [s[0]] + ReplaceCrLf(s[1..])
  }

  /** s.replace('\r', '\n') */
  function ReplaceCr(s: string): (r: string)
    ensures |r| == |s|
    ensures forall i :: 0 <= i < |s| ==> r[i] == (if s[i] == '\r' then '\n' else s[i])
  {
    seq(|s|, i requires 0 <= i < |s| => if s[i] == '\r' then '\n' else s[i])
  }

  /** The normalisation of WriteConfig.__post_init__ and of
      _is_content_identical. */
  function NormalizeNewlines(s: string): (r: string)
    ensures '\r' !in r
    ensures |r| <= |s|
  {
    ReplaceCr(ReplaceCrLf(s))
  }

  lemma {:induction false} ReplaceCrLfKeeps(s: string)
    requires '\r' !in s
    ensures ReplaceCrLf(s) == s
    decreases |s|
  {
    if |s| > 0 {
      assert s[0] != '\r';
      assert '\r' !in s[1..] by {
        forall i | 0 <= i < |s| - 1
          ensures s[1..][i] != '\r'
        {
          assert s[1..][i] == s[i + 1];
        }
      }
      ReplaceCrLfKeeps(s[1..]);
      assert [s[0]] + s[1..] == s;
    }
  }

  /** Text without carriage returns is left as it is; so normalising twice
      is normalising once. */
  lemma NormalizeKeepsPlainText(s: string)
    ensures '\r' !in s ==> NormalizeNewlines(s) == s
  {
    if '\r' !in s {
      ReplaceCrLfKeeps(s);
    }
  }

  lemma NormalizeIdempotent(s: string)
    ensures NormalizeNewlines(NormalizeNewlines(s)) == NormalizeNewlines(s)
  {
    NormalizeKeepsPlainText(NormalizeNewlines(s));
  }

  /** Normalisation reads the text from the left: "\r\n" becomes one '\n',
      a '\r' not followed by '\n' becomes one '\n', and any other character
      is kept. */
  lemma NormalizeCons(c: char, s: string)
    ensures c == '\r' && |s| > 0 && s[0] == '\n' ==> NormalizeNewlines([c] + s) == "\n" + NormalizeNewlines(s[1..])
    ensures c == '\r' && (|s| == 0 || s[0] != '\n') ==> NormalizeNewlines([c] + s) == "\n" + NormalizeNewlines(s)
    ensures c != '\r' ==> NormalizeNewlines([c] + s) == [c] + NormalizeNewlines(s)
  {
    var t := [c] + s;
    assert t[1..] == s;
    if c == '\r' && |s| > 0 && s[0] == '\n' {
      assert t[2..] == s[1..];
      ReplaceCrCons('\n', ReplaceCrLf(s[1..]));
    } else {
      ReplaceCrCons(c, ReplaceCrLf(s));
    }
  }

  lemma ReplaceCrCons(c: char, s: string)
    ensures ReplaceCr([c] + s) == [if c == '\r' then '\n' else c] + ReplaceCr(s)
  {
    var t := [c] + s;
    var lhs := ReplaceCr(t);
    var rhs := [if c == '\r' then '\n' else c] + ReplaceCr(s);
    assert |lhs| == |rhs|;
    forall i | 0 <= i < |lhs|
      ensures lhs[i] == rhs[i]
    {
      if i > 0 {
        assert t[i] == s[i - 1];
      }
    }
  }

  // ---------------------------------------------------------------------
  // Configuration and content preparation
  // ---------------------------------------------------------------------

  datatype WriteConfig = WriteConfig(
    content: string,
    filePath: string,
    operation: WriteOperation,
    backup: bool,
    createDirs: bool,
    preservePermissions: bool)

  /** WriteConfig(...) with its __post_init__: the content's line endings
      are normalised. */
  function MakeWriteConfig(content: string, filePath: string, operation: WriteOperation,
                           backup: bool, createDirs: bool, preservePermissions: bool): (c: WriteConfig)
    ensures '\r' !in c.content
    ensures '\r' !in content ==> c.content == content
  {
    NormalizeKeepsPlainText(content);
    WriteConfig(NormalizeNewlines(content), filePath, operation, backup, createDirs, preservePermissions)
  }

  datatype WriteError = FileExists | BadOperation | BadMode | BadStyle | WriteFailed

  /** FileProcessor._prepare_content: `original` is the file's text ("" when
      it does not exist), `present` whether it exists. */
  function PrepareContent(op: WriteOperation, content: string, original: string, present: bool)
    : (r: Result<string, WriteError>)
    ensures op == Create ==> (r.Err? <==> present)
    ensures op != Create ==> r.Ok?
    ensures r.Ok? && (op == Create || op == Overwrite) ==> r.value == content
    ensures op == Append ==>
              r.value == (if original != [] && !EndsWith(original, "\n") then original + "\n" + content
                          else original + content)
    ensures op == Prepend ==>
              r.value == (if content != [] && !EndsWith(content, "\n") then content + "\n" + original
                          else content + original)
  {
    match op
    case Create => if present then Err(FileExists) else Ok(content)
    case Overwrite => Ok(content)
    case Append =>
      if original != [] && !EndsWith(original, "\n") then Ok(original + "\n" + content)
      else Ok(original + content)
    case Prepend =>
      if content != [] && !EndsWith(content, "\n") then Ok(content + "\n" + original)
      else Ok(content + original)
  }

  /** Appending keeps the original text as a prefix and ends with the
      content, adding a separator newline only when the original lacks one. */
  lemma AppendKeepsOriginal(content: string, original: string, present: bool)
    ensures StartsWith(PrepareContent(Append, content, original, present).value, original)
    ensures EndsWith(PrepareContent(Append, content, original, present).value, content)
    ensures |PrepareContent(Append, content, original, present).value| <= |original| + |content| + 1
    ensures original == [] ==> PrepareContent(Append, content, original, present).value == content
  {
    var a := PrepareContent(Append, content, original, present).value;
    var mid := if original != [] && !EndsWith(original, "\n") then "\n" else "";
    assert a == original + (mid + content);
    assert a[..|original|] == original;
    assert a[|a| - |content|..] == content;
  }

  /** Prepending starts with the content and keeps the original text as a
      suffix, adding a separator newline only when the content lacks one. */
  lemma PrependKeepsOriginal(content: string, original: string, present: bool)
    ensures StartsWith(PrepareContent(Prepend, content, original, present).value, content)
    ensures EndsWith(PrepareContent(Prepend, content, original, present).value, original)
    ensures |PrepareContent(Prepend, content, original, present).value| <= |original| + |content| + 1
    ensures content == [] ==> PrepareContent(Prepend, content, original, present).value == original
  {
    var p := PrepareContent(Prepend, content, original, present).value;
    var mid := if content != [] && !EndsWith(content, "\n") then "\n" else "";
    assert p == content + (mid + original);
    assert p[..|content|] == content;
    assert p[|p| - |original|..] == original;
  }

  // ---------------------------------------------------------------------
  // Changes and results
  // ---------------------------------------------------------------------

  /** A prepared change. */
  datatype FileChange = FileChange(filePath: string, originalContent: string, newContent: string,
                                   operation: WriteOperation)

  /** FileChange.is_new_file: asked of the file system each time it is
      read, so `files` is the set of paths that exist at that moment. */
  predicate IsNewFile(ch: FileChange, files: set<string>) {
    ch.filePath !in files
  }

  predicate HasChanges(ch: FileChange) {
    ch.originalContent != ch.newContent
  }

  datatype FileResult = FileResult(filePath: string, change: Option<FileChange>, success: bool,
                                   errorMessage: Option<WriteError>, backupPath: Option<string>)

  predicate HasChange(fr: FileResult) {
    fr.change.Some? && HasChanges(fr.change.value)
  }

  /** FileResult.operation_type, read while `files` exist. */
  function OperationType(fr: FileResult, files: set<string>): (r: string)
    ensures fr.change.None? <==> r == "no_change"
    ensures fr.change.Some? && IsNewFile(fr.change.value, files) <==> r == "created"
    ensures fr.change.Some? && !IsNewFile(fr.change.value, files) ==>
              r == match fr.change.value.operation
                   case Overwrite => "overwritten"
                   case Append => "appended"
                   case Prepend => "prepended"
                   case Create => "modified"
  {
    if fr.change.None? then "no_change"
    else if IsNewFile(fr.change.value, files) then "created"
    else match fr.change.value.operation
      case Overwrite => "overwritten"
      case Append => "appended"
      case Prepend => "prepended"
      case Create => "modified"
  }

  // ---------------------------------------------------------------------
  // Renderers
  // ---------------------------------------------------------------------

  /** OutputFormatter.format_default */
  function FormatDefault(fr: FileResult): string {
    if !HasChange(fr) then (if fr.change.Some? then fr.change.value.originalContent else "")
    else fr.change.value.newContent
  }

  /** Whether or not anything changed, the default rendering of a prepared
      change is the new content (without a change, the two texts agree). */
  lemma DefaultIsNewContent(fr: FileResult)
    ensures fr.change.Some? ==> FormatDefault(fr) == fr.change.value.newContent
    ensures fr.change.None? ==> FormatDefault(fr) == ""
  {
  }

  function NewFileDiffHeader(path: string, lineCount: nat): seq<string> {
    ["diff --git a/" + path + " b/" + path, "new file mode 100644", "index 0000000..1111111",
     "--- /dev/null", "+++ b/" + path, "@@ -0,0 +1," + NatToString(lineCount) + " @@"]
  }

  /** Each line prefixed with '+'. */
  function Added(ls: seq<string>): (r: seq<string>)
    ensures |r| == |ls| && forall i :: 0 <= i < |ls| ==> r[i] == "+" + ls[i]
  {
    seq(|ls|, i requires 0 <= i < |ls| => "+" + ls[i])
  }

  /** OutputFormatter.format_git_diff: "" without a change; for a new file
      the header and every line of the new content after '+'. The branch
      for an existing file runs difflib and is not modelled (None). */
  function FormatGitDiff(fr: FileResult, files: set<string>): Option<string> {
    if !HasChange(fr) then Some("")
    else
      var ch := fr.change.value;
      if IsNewFile(ch, files) then
        var newLines := Split(ch.newContent, '\n');
        Some(Join(NewFileDiffHeader(ch.filePath, |newLines|) + Added(newLines), '\n'))
      else None
  }

  /** Read back line by line, a new-file diff is its six header lines, the
      last claiming L added lines, followed by exactly the L lines of the new
      content, each after a '+'. */
  lemma NewFileDiffLines(fr: FileResult, files: set<string>)
    requires HasChange(fr) && IsNewFile(fr.change.value, files) && '\n' !in fr.change.value.filePath
    ensures var newLines := Split(fr.change.value.newContent, '\n');
            && FormatGitDiff(fr, files).Some?
            && Split(FormatGitDiff(fr, files).value, '\n')
               == NewFileDiffHeader(fr.change.value.filePath, |newLines|) + Added(newLines)
  {
    var ch := fr.change.value;
    var newLines := Split(ch.newContent, '\n');
    var all := NewFileDiffHeader(ch.filePath, |newLines|) + Added(newLines);
    var n := NatToString(|newLines|);
    assert IsDigits(n);
    DigitsHaveNoBreak(n);
    NoBreakInConcat(ch.filePath);
    forall k | 0 <= k < |all|
      ensures '\n' !in all[k]
    {
      if k >= 6 {
        var i := k - 6;
        assert all[k] == "+" + newLines[i];
        assert '\n' !in newLines[i];
      } else if k == 5 {
        assert all[k] == "@@ -0,0 +1," + n + " @@";
      }
    }
    SplitJoin(all, '\n');
  }

  lemma NoBreakInConcat(path: string)
    requires '\n' !in path
    ensures '\n' !in "diff --git a/" + path + " b/" + path
    ensures '\n' !in "+++ b/" + path
  {
  }

  /** OutputFormatter.format_git_conflict */
  function FormatGitConflict(fr: FileResult, files: set<string>): string {
    if !HasChange(fr) then (if fr.change.Some? then fr.change.value.originalContent else "")
    else if IsNewFile(fr.change.value, files) then fr.change.value.newContent
    else Join(["<<<<<<< HEAD", fr.change.value.originalContent, "=======", fr.change.value.newContent,
               ">>>>>>> incoming"], '\n')
  }

  /** A changed existing file renders as the original and the new text
      between the three markers. */
  lemma ConflictLayout(fr: FileResult, files: set<string>)
    requires HasChange(fr) && !IsNewFile(fr.change.value, files)
    ensures FormatGitConflict(fr, files)
         == "<<<<<<< HEAD\n" + fr.change.value.originalContent + "\n=======\n"
            + fr.change.value.newContent + "\n>>>>>>> incoming"
  {
    Join5("<<<<<<< HEAD", fr.change.value.originalContent, "=======", fr.change.value.newContent,
          ">>>>>>> incoming", '\n');
  }

  /** Without a change the conflict rendering is the default one, and a
      new file renders as its content alone, without markers. */
  lemma ConflictOtherCases(fr: FileResult, files: set<string>)
    ensures !HasChange(fr) ==> FormatGitConflict(fr, files) == FormatDefault(fr)
    ensures HasChange(fr) && IsNewFile(fr.change.value, files) ==> FormatGitConflict(fr, files) == fr.change.value.newContent
  {
  }

  /** Five pieces joined: each separator sits between two pieces. */
  lemma Join5(a: string, b: string, c: string, d: string, e: string, sep: char)
    ensures Join([a, b, c, d, e], sep) == a + [sep] + b + [sep] + c + [sep] + d + [sep] + e
  {
    assert [d, e][1..] == [e];
    assert Join([d, e], sep) == d + [sep] + e;
    assert [c, d, e][1..] == [d, e];
    assert Join([c, d, e], sep) == c + [sep] + (d + [sep] + e);
    assert [b, c, d, e][1..] == [c, d, e];
    assert Join([b, c, d, e], sep) == b + [sep] + (c + [sep] + (d + [sep] + e));
    assert [a, b, c, d, e][1..] == [b, c, d, e];
    assert Join([a, b, c, d, e], sep) == a + [sep] + (b + [sep] + (c + [sep] + (d + [sep] + e)));
  }

  // ---------------------------------------------------------------------
  // Safety warnings about the content
  // ---------------------------------------------------------------------

  datatype Warning =
    | OutsideCurrentDirectory
    | UnresolvablePath
    | CreateButExists
    | LargeContent(size: nat)
    | ManyLines(count: nat)
    | NullBytes

  const MaxContentSize: nat := 1024 * 1024
  const MaxLineCount: nat := 10000

  /** SafetyValidator.validate_config. Resolving the path is I/O: `outside`
      is None when it fails, else whether the path lies outside the current
      directory; `present` is whether the target exists. */
  function ValidateConfig(c: WriteConfig, outside: Option<bool>, present: bool): (ws: seq<Warning>)
  {
    (if outside.None? then [UnresolvablePath] else if outside.value then [OutsideCurrentDirectory] else [])
    + (if c.operation == Create && present then [CreateButExists] else [])
    + (if |c.content| > MaxContentSize then [LargeContent(|c.content|)] else [])
    + (if |Split(c.content, '\n')| > MaxLineCount then [ManyLines(|Split(c.content, '\n')|)] else [])
    + (if '\0' in c.content then [NullBytes] else [])
  }

  /** The size warning is raised exactly on content over 1 MiB (counted
      in characters), and the NUL warning exactly on content holding a
      NUL; at most five warnings are raised. */
  lemma ContentWarnings(c: WriteConfig, outside: Option<bool>, present: bool)
    ensures LargeContent(|c.content|) in ValidateConfig(c, outside, present) <==> |c.content| > MaxContentSize
    ensures NullBytes in ValidateConfig(c, outside, present) <==> '\0' in c.content
    ensures |ValidateConfig(c, outside, present)| <= 5
  {
  }

  /** A line-count warning is raised exactly on content over 10000 lines. */
  lemma LineCountWarning(c: WriteConfig, outside: Option<bool>, present: bool)
    ensures (exists k :: 0 <= k < |ValidateConfig(c, outside, present)| && ValidateConfig(c, outside, present)[k].ManyLines?)
        <==> Count(c.content, '\n') + 1 > MaxLineCount
  {
    SplitCount(c.content, '\n');
    var ws := ValidateConfig(c, outside, present);
    if |Split(c.content, '\n')| > MaxLineCount {
      assert ws[|ws| - 1].ManyLines? || ws[|ws| - 2].ManyLines?;
    }
  }

  // ---------------------------------------------------------------------
  // Identical content and the backup name
  // ---------------------------------------------------------------------

  /** WriteEngine._is_content_identical: only an overwrite of an existing,
      readable file whose text, normalised and stripped, equals the new
      content's; a read error answers false. */
  predicate IsContentIdentical(disk: map<string, Option<string>>, path: string, content: string, operation: string) {
    && Lower(operation) == "overwrite"
    && path in disk && disk[path].Some?
    && Strip(NormalizeNewlines(disk[path].value)) == Strip(NormalizeNewlines(content))
  }

  /** What skipping the write means: the overwrite write_file would have
      prepared differs from the file only in line endings and surrounding
      whitespace, and changes nothing at all when the file's text and the
      new content are already normalised and stripped. */
  lemma IdenticalMeansNoChange(disk: map<string, Option<string>>, path: string, content: string, operation: string,
                               backup: bool, createDirs: bool, preservePermissions: bool)
    requires IsContentIdentical(disk, path, content, operation)
    ensures var fr := Prepared(disk, MakeWriteConfig(content, path, Overwrite, backup, createDirs, preservePermissions));
            && fr.change.Some?
            && fr.change.value.originalContent == disk[path].value
            && Strip(fr.change.value.newContent) == Strip(NormalizeNewlines(fr.change.value.originalContent))
    ensures var text := disk[path].value;
            '\r' !in text && Strip(text) == text && Strip(NormalizeNewlines(content)) == NormalizeNewlines(content)
            ==> !HasChange(Prepared(disk, MakeWriteConfig(content, path, Overwrite, backup, createDirs,
                                                          preservePermissions)))
  {
    NormalizeKeepsPlainText(disk[path].value);
  }

  /** Only an overwrite of an existing file that can be read is ever
      skipped: an append, prepend or create of the same text is not, and
      neither is a write over a file that cannot be read. */
  lemma OnlyOverwriteSkipped(disk: map<string, Option<string>>, path: string, content: string, operation: string)
    ensures Lower(operation) != "overwrite" || path !in disk || disk[path].None?
            ==> !IsContentIdentical(disk, path, content, operation)
    ensures Lower(operation) == "overwrite" && path in disk && disk[path] == Some(content)
            ==> IsContentIdentical(disk, path, content, operation)
  {
  }

  /** The n-th backup candidate: ".backup" after the file name, then
      ".backup.1", ".backup.2", ... (with_suffix(suffix + ".backup") keeps
      the file's own suffix, so it only appends). */
  function BackupCandidate(path: string, n: nat): string {
    if n == 0 then path + ".backup" else path + ".backup." + NatToString(n)
  }

  lemma BackupCandidateInjective(path: string, m: nat, n: nat)
    requires m != n
    ensures BackupCandidate(path, m) != BackupCandidate(path, n)
  {
    if m != 0 && n != 0 {
      var a := BackupCandidate(path, m);
      var b := BackupCandidate(path, n);
      var p := |path + ".backup."|;
      if a == b {
        assert a[p..] == NatToString(m);
        assert b[p..] == NatToString(n);
        NatToStringInjective(m, n);
        assert false;
      }
    } else {
      assert |BackupCandidate(path, 0)| < |BackupCandidate(path, if m == 0 then n else m)|;
    }
  }

  /** b is the first backup candidate of path that does not exist. */
  ghost predicate FirstFree(path: string, existing: set<string>, b: string) {
    && b !in existing
    && exists n: nat :: b == BackupCandidate(path, n)
                        && forall j: nat :: j < n ==> BackupCandidate(path, j) in existing
  }

  /** The name-choosing loop of WriteEngine._create_backup: the first
      candidate that does not exist. None when the file itself does not
      exist. */
  method BackupName(path: string, existing: set<string>) returns (r: Option<string>)
    ensures path !in existing <==> r.None?
    ensures r.Some? ==> FirstFree(path, existing, r.value)
  {
    if path !in existing {
      return None;
    }
    var counter: nat := 0;
    var candidate := BackupCandidate(path, 0);
    ghost var seen: set<string> := {};
    while candidate in existing
      invariant candidate == BackupCandidate(path, counter)
      invariant AllTaken(path, existing, counter)
      invariant seen <= existing
      invariant Earlier(path, seen, counter)
      decreases |existing - seen|
    {
      CandidateNotSeen(path, seen, counter);
      SetShrinks(existing, seen, candidate);
      EarlierGrow(path, seen, counter);
      TakenGrow(path, existing, counter);
      seen := seen + {candidate};
      counter := counter + 1;
      candidate := BackupCandidate(path, counter);
    }
    FirstFreeAt(path, existing, counter);
    r := Some(candidate);
  }

  /** Every candidate numbered below counter exists. */
  ghost predicate AllTaken(path: string, existing: set<string>, counter: nat) {
    forall j: nat :: j < counter ==> BackupCandidate(path, j) in existing
  }

  lemma TakenGrow(path: string, existing: set<string>, counter: nat)
    requires AllTaken(path, existing, counter) && BackupCandidate(path, counter) in existing
    ensures AllTaken(path, existing, counter + 1)
  {
  }

  lemma FirstFreeAt(path: string, existing: set<string>, counter: nat)
    requires AllTaken(path, existing, counter) && BackupCandidate(path, counter) !in existing
    ensures FirstFree(path, existing, BackupCandidate(path, counter))
  {
  }

  /** Every name in seen is a candidate numbered below counter. */
  ghost predicate Earlier(path: string, seen: set<string>, counter: nat) {
    forall s :: s in seen ==> exists j: nat :: j < counter && s == BackupCandidate(path, j)
  }

  lemma CandidateNotSeen(path: string, seen: set<string>, counter: nat)
    requires Earlier(path, seen, counter)
    ensures BackupCandidate(path, counter) !in seen
  {
    if BackupCandidate(path, counter) in seen {
      var j: nat :| j < counter && BackupCandidate(path, counter) == BackupCandidate(path, j);
      BackupCandidateInjective(path, j, counter);
    }
  }

  lemma EarlierGrow(path: string, seen: set<string>, counter: nat)
    requires Earlier(path, seen, counter)
    ensures Earlier(path, seen + {BackupCandidate(path, counter)}, counter + 1)
  {
    forall s | s in seen + {BackupCandidate(path, counter)}
      ensures exists j: nat :: j < counter + 1 && s == BackupCandidate(path, j)
    {
      if s in seen {
        var j: nat :| j < counter && s == BackupCandidate(path, j);
        assert j < counter + 1;
      } else {
        assert s == BackupCandidate(path, counter);
      }
    }
  }

  lemma SetShrinks(existing: set<string>, seen: set<string>, c: string)
    requires c in existing && c !in seen
    ensures existing - (seen + {c}) < existing - seen
  {
    assert c in existing - seen;
  }

  /** There is only one first free candidate. */
  lemma FirstFreeUnique(path: string, existing: set<string>, a: string, b: string)
    requires FirstFree(path, existing, a) && FirstFree(path, existing, b)
    ensures a == b
  {
    var m: nat :| a == BackupCandidate(path, m) && forall j: nat :: j < m ==> BackupCandidate(path, j) in existing;
    var n: nat :| b == BackupCandidate(path, n) && forall j: nat :: j < n ==> BackupCandidate(path, j) in existing;
  }

  // ---------------------------------------------------------------------
  // Result bookkeeping
  // ---------------------------------------------------------------------

  datatype WriteResult = WriteResult(config: WriteConfig, fileResults: seq<FileResult>)

  function FilesChanged(frs: seq<FileResult>): (n: nat)
    ensures n <= |frs|
  {
    if |frs| == 0 then 0 else (if HasChange(frs[0]) then 1 else 0) + FilesChanged(frs[1..])
  }

  /** WriteResult.total_files_created, read while `files` exist. */
  function FilesCreated(frs: seq<FileResult>, files: set<string>): (n: nat)
    ensures n <= |frs|
    ensures n == 0 <==> forall k :: 0 <= k < |frs| ==> frs[k].change.None? || !IsNewFile(frs[k].change.value, files)
  {
    if |frs| == 0 then 0
    else
      assert forall k :: 1 <= k < |frs| ==> frs[k] == frs[1..][k - 1];
      (if frs[0].change.Some? && IsNewFile(frs[0].change.value, files) then 1 else 0) + FilesCreated(frs[1..], files)
  }

  /** WriteResult.success: all(fr.success for fr in file_results). */
  function AllSucceeded(frs: seq<FileResult>): bool {
    if |frs| == 0 then true else frs[0].success && AllSucceeded(frs[1..])
  }

  /** success holds exactly when every file result succeeded, and so holds
      of no results at all. */
  lemma {:induction false} AllSucceededIff(frs: seq<FileResult>)
    ensures AllSucceeded(frs) <==> forall k :: 0 <= k < |frs| ==> frs[k].success
    decreases |frs|
  {
    if |frs| > 0 {
      AllSucceededIff(frs[1..]);
      if forall k :: 0 <= k < |frs| ==> frs[k].success {
        forall k | 0 <= k < |frs| - 1
          ensures frs[1..][k].success
        {
          assert frs[1..][k] == frs[k + 1];
        }
      }
      if AllSucceeded(frs) {
        forall k | 0 <= k < |frs|
          ensures frs[k].success
        {
          if k > 0 {
            assert frs[k] == frs[1..][k - 1];
          }
        }
      }
    }
  }

  /** A changed file is counted as changed, and only files with a change
      can be created. */
  lemma {:induction false} CountsBounded(frs: seq<FileResult>)
    ensures FilesChanged(frs) == 0 <==> forall k :: 0 <= k < |frs| ==> !HasChange(frs[k])
    decreases |frs|
  {
    if |frs| > 0 {
      CountsBounded(frs[1..]);
      if FilesChanged(frs) == 0 {
        forall k | 0 <= k < |frs|
          ensures !HasChange(frs[k])
        {
          if k > 0 {
            assert frs[k] == frs[1..][k - 1];
          }
        }
      }
      if forall k :: 0 <= k < |frs| ==> !HasChange(frs[k]) {
        forall k | 0 <= k < |frs| - 1
          ensures !HasChange(frs[1..][k])
        {
          assert frs[1..][k] == frs[k + 1];
        }
      }
    }
  }

  // ---------------------------------------------------------------------
  // The engine
  // ---------------------------------------------------------------------

  function ParseOperation(s: string): Option<WriteOperation> {
    if Lower(s) == "create" then Some(Create)
    else if Lower(s) == "overwrite" then Some(Overwrite)
    else if Lower(s) == "append" then Some(Append)
    else if Lower(s) == "prepend" then Some(Prepend)
    else None
  }

  function ParseMode(s: string): Option<ExecutionMode> {
    if Lower(s) == "preview" then Some(Preview)
    else if Lower(s) == "apply" then Some(Apply)
    else None
  }

  function ParseStyle(s: string): Option<OutputStyle> {
    if Lower(s) == "default" then Some(Default)
    else if Lower(s) == "git_diff" then Some(GitDiff)
    else if Lower(s) == "git_conflict" then Some(GitConflict)
    else None
  }

  /** The target of an apply: the output file when one is given (a
      non-empty name), else the file itself. */
  function Target(fr: FileResult, outputFile: Option<string>): string {
    if outputFile.Some? && outputFile.value != "" then outputFile.value else fr.filePath
  }

  /** Whether apply makes a backup first: backups on, the target is the
      file itself and exists, and the style is default. */
  predicate BacksUp(fr: FileResult, style: OutputStyle, disk: map<string, Option<string>>,
                    outputFile: Option<string>, backup: bool) {
    var target := Target(fr, outputFile);
    backup && target in disk && target == fr.filePath && style == Default
  }

  /** out is fr after _handle_apply's loop body: an unchanged file simply
      succeeds; a changed one records the first free backup name when it
      backs up, and succeeds exactly when writing does not fail. */
  ghost predicate AppliedTo(fr: FileResult, out: FileResult, style: OutputStyle, disk: map<string, Option<string>>,
                      outputFile: Option<string>, backup: bool, writeFails: bool) {
    if !HasChange(fr) then out == fr.(success := true)
    else
      && out.filePath == fr.filePath
      && out.change == fr.change
      && (BacksUp(fr, style, disk, outputFile, backup) ==>
            out.backupPath.Some? && FirstFree(fr.filePath, disk.Keys, out.backupPath.value))
      && (!BacksUp(fr, style, disk, outputFile, backup) ==> out.backupPath == fr.backupPath)
      && (out.success <==> !writeFails)
      && out.errorMessage == (if writeFails then Some(WriteFailed) else fr.errorMessage)
  }

  /** The paths that exist after one file result is applied, beyond
      those that existed before: its backup when it backs up, and its
      target once the write goes through. */
  function AppliedPaths(fr: FileResult, out: FileResult, style: OutputStyle, disk: map<string, Option<string>>,
                        outputFile: Option<string>, backup: bool, writeFails: bool): set<string> {
    if !HasChange(fr) then {}
    else
      (if BacksUp(fr, style, disk, outputFile, backup) && out.backupPath.Some? then {out.backupPath.value} else {})
      + (if writeFails then {} else {Target(fr, outputFile)})
  }

  /** The paths the apply loop adds, over all file results. */
  function AppliedFiles(frs: seq<FileResult>, out: seq<FileResult>, style: OutputStyle, disk: map<string, Option<string>>,
                        outputFile: Option<string>, backup: bool, writeFails: bool): set<string>
    requires |out| == |frs|
  {
    if |frs| == 0 then {}
    else
      var n := |frs| - 1;
      AppliedFiles(frs[..n], out[..n], style, disk, outputFile, backup, writeFails)
      + AppliedPaths(frs[n], out[n], style, disk, outputFile, backup, writeFails)
  }

  /** WriteEngine._handle_apply over the file results; writing itself is
      I/O, and `writeFails` says whether it raises. `after` is the set of
      paths that exist once the loop is done. */
  method HandleApply(frs: seq<FileResult>, style: OutputStyle, disk: map<string, Option<string>>,
                     outputFile: Option<string>, backup: bool, writeFails: bool)
    returns (out: seq<FileResult>, after: set<string>)
    ensures |out| == |frs|
    ensures forall k :: 0 <= k < |frs| ==> AppliedTo(frs[k], out[k], style, disk, outputFile, backup, writeFails)
    ensures after == disk.Keys + AppliedFiles(frs, out, style, disk, outputFile, backup, writeFails)
  {
    out := [];
    after := disk.Keys;
    var k := 0;
    while k < |frs|
      invariant 0 <= k <= |frs|
      invariant |out| == k
      invariant forall j :: 0 <= j < k ==> AppliedTo(frs[j], out[j], style, disk, outputFile, backup, writeFails)
      invariant after == disk.Keys + AppliedFiles(frs[..k], out, style, disk, outputFile, backup, writeFails)
    {
      var fr, added := ApplyOne(frs[k], style, disk, outputFile, backup, writeFails);
      ApplyStep(frs, k, out, fr, after, added, style, disk, outputFile, backup, writeFails);
      out := out + [fr];
      after := after + added;
      k := k + 1;
    }
    assert frs[..|frs|] == frs;
  }

  /** The body of _handle_apply's loop for one file result. */
  method ApplyOne(fr: FileResult, style: OutputStyle, disk: map<string, Option<string>>,
                  outputFile: Option<string>, backup: bool, writeFails: bool)
    returns (out: FileResult, added: set<string>)
    ensures AppliedTo(fr, out, style, disk, outputFile, backup, writeFails)
    ensures added == AppliedPaths(fr, out, style, disk, outputFile, backup, writeFails)
  {
    out := fr;
    added := {};
    if !HasChange(fr) {
      out := out.(success := true);
    } else {
      if BacksUp(fr, style, disk, outputFile, backup) {
        var b := BackupName(fr.filePath, disk.Keys);
        out := out.(backupPath := b);
        if b.Some? {
          added := added + {b.value};
        }
      }
      if writeFails {
        out := out.(success := false, errorMessage := Some(WriteFailed));
      } else {
        out := out.(success := true);
        added := added + {Target(fr, outputFile)};
      }
    }
  }

  /** Every changed file's target exists after an apply whose writes go
      through. */
  lemma {:induction false} AppliedFilesHasTargets(frs: seq<FileResult>, out: seq<FileResult>, style: OutputStyle,
                                                  disk: map<string, Option<string>>, outputFile: Option<string>,
                                                  backup: bool, k: nat)
    requires |out| == |frs| && k < |frs| && HasChange(frs[k])
    ensures Target(frs[k], outputFile) in AppliedFiles(frs, out, style, disk, outputFile, backup, false)
    decreases |frs|
  {
    var n := |frs| - 1;
    if k < n {
      assert frs[..n][k] == frs[k];
      AppliedFilesHasTargets(frs[..n], out[..n], style, disk, outputFile, backup, k);
    }
  }

  /** A path the apply adds is the target or the backup of a changed file. */
  lemma {:induction false} AppliedFilesOnly(frs: seq<FileResult>, out: seq<FileResult>, style: OutputStyle,
                                            disk: map<string, Option<string>>, outputFile: Option<string>, backup: bool,
                                            writeFails: bool, p: string)
    requires |out| == |frs|
    requires p in AppliedFiles(frs, out, style, disk, outputFile, backup, writeFails)
    ensures exists k :: 0 <= k < |frs| && HasChange(frs[k])
                        && (p == Target(frs[k], outputFile) || out[k].backupPath == Some(p))
    decreases |frs|
  {
    var n := |frs| - 1;
    if p in AppliedFiles(frs[..n], out[..n], style, disk, outputFile, backup, writeFails) {
      AppliedFilesOnly(frs[..n], out[..n], style, disk, outputFile, backup, writeFails, p);
      var k :| 0 <= k < n && HasChange(frs[..n][k])
               && (p == Target(frs[..n][k], outputFile) || out[..n][k].backupPath == Some(p));
      assert frs[..n][k] == frs[k] && out[..n][k] == out[k];
    }
  }

  /** One more pass of the apply loop keeps its invariant. */
  lemma ApplyStep(frs: seq<FileResult>, k: nat, out: seq<FileResult>, o: FileResult, after: set<string>,
                  added: set<string>, style: OutputStyle, disk: map<string, Option<string>>, outputFile: Option<string>,
                  backup: bool, writeFails: bool)
    requires k < |frs| && |out| == k
    requires forall j :: 0 <= j < k ==> AppliedTo(frs[j], out[j], style, disk, outputFile, backup, writeFails)
    requires after == disk.Keys + AppliedFiles(frs[..k], out, style, disk, outputFile, backup, writeFails)
    requires AppliedTo(frs[k], o, style, disk, outputFile, backup, writeFails)
    requires added == AppliedPaths(frs[k], o, style, disk, outputFile, backup, writeFails)
    ensures forall j :: 0 <= j < k + 1 ==> AppliedTo(frs[j], (out + [o])[j], style, disk, outputFile, backup, writeFails)
    ensures after + added == disk.Keys + AppliedFiles(frs[..k + 1], out + [o], style, disk, outputFile, backup, writeFails)
  {
    assert frs[..k + 1][..k] == frs[..k] && (out + [o])[..k] == out;
    forall j | 0 <= j < k + 1
      ensures AppliedTo(frs[j], (out + [o])[j], style, disk, outputFile, backup, writeFails)
    {
      if j < k {
        assert (out + [o])[j] == out[j];
      }
    }
  }

  /** The file result write_file prepares: the change, or the error of
      _prepare_content. The file's text is "" when it does not exist or
      cannot be read, as _read_file_safely gives it. */
  function Prepared(disk: map<string, Option<string>>, c: WriteConfig): FileResult {
    var present := c.filePath in disk;
    var original := if present && disk[c.filePath].Some? then disk[c.filePath].value else "";
    var prep := PrepareContent(c.operation, c.content, original, present);
    if prep.Err? then FileResult(c.filePath, None, false, Some(prep.error), None)
    else FileResult(c.filePath, Some(FileChange(c.filePath, original, prep.value, c.operation)),
                    false, None, None)
  }

  /** WriteEngine.write_file. Printing is left out; `writeFails` stands for
      the outcome of the file write in apply mode. */
  method WriteFile(disk: map<string, Option<string>>, path: string, content: string, mode: string, style: string,
                   operation: string, outputFile: Option<string>, backup: bool, createDirs: bool,
                   preservePermissions: bool, writeFails: bool)
    returns (r: Result<WriteResult, WriteError>, after: set<string>)
    ensures IsContentIdentical(disk, path, content, operation) ==>
              r == Ok(WriteResult(MakeWriteConfig(content, path, Overwrite, backup, createDirs, preservePermissions), []))
              && after == disk.Keys
    ensures !IsContentIdentical(disk, path, content, operation) ==>
              (r.Err? <==> ParseOperation(operation).None?) && (r.Err? ==> r.error == BadOperation && after == disk.Keys)
    ensures r.Ok? && !IsContentIdentical(disk, path, content, operation) ==>
              var c := MakeWriteConfig(content, path, ParseOperation(operation).value, backup, createDirs,
                                       preservePermissions);
              var fr := Prepared(disk, c);
              var frs := r.value.fileResults;
              && r.value.config == c
              && (fr.errorMessage.Some? ==> frs == [fr] && after == disk.Keys)
              && (fr.errorMessage.None? && ParseMode(mode).None? ==>
                    frs == [fr, FileResult(path, None, false, Some(BadMode), None)] && after == disk.Keys)
              && (fr.errorMessage.None? && ParseMode(mode).Some? && ParseStyle(style).None? ==>
                    frs == [fr, FileResult(path, None, false, Some(BadStyle), None)] && after == disk.Keys)
              && (fr.errorMessage.None? && ParseMode(mode) == Some(Preview) && ParseStyle(style).Some? ==>
                    frs == [fr] && after == disk.Keys)
              && (fr.errorMessage.None? && ParseMode(mode) == Some(Apply) && ParseStyle(style).Some? ==>
                    |frs| == 1
                    && AppliedTo(fr, frs[0], ParseStyle(style).value, disk, outputFile, backup, writeFails)
                    && after == disk.Keys + AppliedFiles([fr], frs, ParseStyle(style).value, disk, outputFile,
                                                         backup, writeFails))
  {
    after := disk.Keys;
    if IsContentIdentical(disk, path, content, operation) {
      r := Ok(WriteResult(MakeWriteConfig(content, path, Overwrite, backup, createDirs, preservePermissions), []));
      return;
    }
    var op := ParseOperation(operation);
    if op.None? {
      r := Err(BadOperation);
      return;
    }
    var c := MakeWriteConfig(content, path, op.value, backup, createDirs, preservePermissions);
    var fr := Prepared(disk, c);
    var frs := [fr];
    if fr.errorMessage.None? {
      var m := ParseMode(mode);
      var st := ParseStyle(style);
      if m.None? {
        frs := frs + [FileResult(path, None, false, Some(BadMode), None)];
      } else if st.None? {
        frs := frs + [FileResult(path, None, false, Some(BadStyle), None)];
      } else if m.value == Apply {
        frs, after := HandleApply(frs, st.value, disk, outputFile, backup, writeFails);
      }
    }
    r := Ok(WriteResult(c, frs));
  }

  /** A preview never marks a result as successful, so a previewed write
      reports success only when nothing was processed; an apply whose write
      goes through succeeds. */
  lemma PreviewAndApplySuccess(disk: map<string, Option<string>>, c: WriteConfig, style: OutputStyle,
                               outputFile: Option<string>, backup: bool, out: FileResult)
    requires Prepared(disk, c).errorMessage.None?
    requires AppliedTo(Prepared(disk, c), out, style, disk, outputFile, backup, false)
    ensures !Prepared(disk, c).success
    ensures out.success && AllSucceeded([out])
    ensures !AllSucceeded([Prepared(disk, c)])
  {
  }

  /** As written, operation_type and total_files_created ask the file
      system when they are read. Once write_file has created a missing file
      in apply mode (to the file itself, the write going through), the file
      exists: the result counts no file as created and calls the create
      "modified", although before the apply it counted one "created". */
  lemma CreateReportAfterApply(disk: map<string, Option<string>>, c: WriteConfig, style: OutputStyle, backup: bool,
                               out: FileResult)
    requires c.operation == Create && c.filePath !in disk && c.content != ""
    requires AppliedTo(Prepared(disk, c), out, style, disk, None, backup, false)
    ensures var after := disk.Keys + AppliedFiles([Prepared(disk, c)], [out], style, disk, None, backup, false);
            && out.success
            && FilesCreated([out], after) == 0
            && OperationType(out, after) == "modified"
  {
    var fr := Prepared(disk, c);
    assert HasChange(fr);
    assert [fr][..0] == [] && [out][..0] == [];
    assert c.filePath in AppliedPaths(fr, out, style, disk, None, backup, false);
  }

  /** The report as evidently intended, read against the files that
      existed when the change was prepared: the created file counts as
      created, and its operation reads "created". */
  lemma CreateReportAtPreparation(disk: map<string, Option<string>>, c: WriteConfig, style: OutputStyle, backup: bool,
                                  out: FileResult)
    requires c.operation == Create && c.filePath !in disk
    requires AppliedTo(Prepared(disk, c), out, style, disk, None, backup, false)
    ensures out.success
    ensures FilesCreated([out], disk.Keys) == 1
    ensures OperationType(out, disk.Keys) == "created"
  {
    assert [out][1..] == [];
  }
}

/** The ignore guard (morpher/tools/utils/ignore_controller.py): the two
    shell policies and their factory, the parsing of the ignore file, the
    pattern test (directory anchors and globs) and the access and command
    checks of IgnoreController. The ignore file is passed in as missing,
    unreadable (load then raises) or its text; resolving a path against the working
    directory is passed in as a function giving the relative POSIX path, or
    None when the path lies outside the working directory. */
module Ignore {
  import opened Wrappers
  import opened Text

  // ---------------------------------------------------------------------
  // Shell policies
  // ---------------------------------------------------------------------

  datatype Policy = Unix | PowerShell

  /** The policy's file_reading_commands. */
  function ReadingCommands(p: Policy): set<string> {
    match p
    case Unix => {"cat", "less", "more", "head", "tail", "grep", "awk", "sed"}
    case PowerShell => {"get-content", "gc", "type", "select-string", "sls"}
  }

  /** Whether iter_candidate_args yields the token: Unix drops flags
      starting with '-', PowerShell drops '/' flags and any token holding a
      ':' (parameter names and drive-qualified items). */
  predicate IsCandidate(p: Policy, a: string) {
    match p
    case Unix => !StartsWith(a, "-")
    case PowerShell => !StartsWith(a, "/") && ':' !in a
  }

  /** iter_candidate_args: the tokens the policy keeps, in order. */
  function CandidateArgs(p: Policy, parts: seq<string>): (r: seq<string>)
    ensures |r| <= |parts|
    ensures forall a :: a in r <==> a in parts && IsCandidate(p, a)
  {
    if |parts| == 0 then []
    else (if IsCandidate(p, parts[0]) then [parts[0]] else []) + CandidateArgs(p, parts[1..])
  }

  /** The candidates are a filter: dropping nothing but non-candidates, they
      keep the tokens' order. */
  lemma {:induction false} CandidateArgsAppend(p: Policy, a: seq<string>, b: seq<string>)
    ensures CandidateArgs(p, a + b) == CandidateArgs(p, a) + CandidateArgs(p, b)
    decreases |a|
  {
    if |a| > 0 {
      assert (a + b)[1..] == a[1..] + b;
      CandidateArgsAppend(p, a[1..], b);
    } else {
      assert a + b == b;
    }
  }

  /** ShellPolicyFactory.create_policy: "unix", "powershell" or "auto" in
      any case; `onWindows` stands for platform.system() == "Windows". None
      is the ValueError raised for any other name. */
  function CreatePolicy(shell: string, onWindows: bool): (r: Option<Policy>)
    ensures Upper(shell) == "UNIX" ==> r == Some(Unix)
    ensures Upper(shell) == "POWERSHELL" ==> r == Some(PowerShell)
    ensures Upper(shell) == "AUTO" ==> r == Some(if onWindows then PowerShell else Unix)
    ensures Upper(shell) !in {"UNIX", "POWERSHELL", "AUTO"} ==> r.None?
  {
    var u := Upper(shell);
    if u == "UNIX" then Some(Unix)
    else if u == "POWERSHELL" then Some(PowerShell)
    else if u == "AUTO" then Some(if onWindows then PowerShell else Unix)
    else None
  }

  /** The factory does not care about case. */
  lemma CreatePolicyIgnoresCase(shell: string, onWindows: bool)
    ensures CreatePolicy(Lower(shell), onWindows) == CreatePolicy(shell, onWindows)
  {
    UpperOfLower(shell);
  }

  // ---------------------------------------------------------------------
  // Tokens
  // ---------------------------------------------------------------------

  predicate NoSpace(w: string) {
    forall i :: 0 <= i < |w| ==> !IsSpace(w[i])
  }

  /** Length of the leading run of non-whitespace of s. */
  function WordLength(s: string): (n: nat)
    ensures n <= |s| && NoSpace(s[..n])
    ensures n == |s| || IsSpace(s[n])
  {
    if |s| > 0 && !IsSpace(s[0]) then
      var m := WordLength(s[1..]);
      assert s[1..][..m] == s[1..m + 1];
      m + 1
    else 0
  }

  /** The policies' tokenize, as a plain whitespace split: the maximal runs
      of non-whitespace, in order. */
  function Words(s: string): (r: seq<string>)
    ensures forall k :: 0 <= k < |r| ==> r[k] != [] && NoSpace(r[k])
    decreases |s|
  {
    var t := TrimLeft(s);
    if t == [] then []
    else
      var n := WordLength(t);
      [t[..n]] + Words(t[n..])
  }

  lemma TrimLeftSpaceCons(c: char, s: string)
    requires IsSpace(c)
    ensures TrimLeft([c] + s) == TrimLeft(s)
  {
    assert ([c] + s)[1..] == s;
  }

  /** A word, a blank and the rest tokenize as that word followed by the
      rest's tokens. */
  lemma WordsCons(w: string, rest: string)
    requires w != [] && NoSpace(w)
    ensures Words(w + " " + rest) == [w] + Words(rest)
  {
    var s := w + " " + rest;
    TrimLeftKeeps(s);
    assert s[|w|] == ' ';
    assert WordLength(s) == |w| by {
      WordLengthOf(w, " " + rest);
      assert s == w + (" " + rest);
    }
    assert s[..|w|] == w;
    assert s[|w|..] == [' '] + rest;
    TrimLeftSpaceCons(' ', rest);
  }

  lemma {:induction false} WordLengthOf(w: string, rest: string)
    requires NoSpace(w) && (rest == [] || IsSpace(rest[0]))
    ensures WordLength(w + rest) == |w|
    decreases |w|
  {
    if |w| > 0 {
      assert (w + rest)[1..] == w[1..] + rest;
      WordLengthOf(w[1..], rest);
    } else {
      assert w + rest == rest;
    }
  }

  /** A single word tokenizes as itself. */
  lemma WordsSingle(w: string)
    requires w != [] && NoSpace(w)
    ensures Words(w) == [w]
  {
    TrimLeftKeeps(w);
    WordLengthOf(w, "");
    assert w + "" == w;
    assert w[|w|..] == [];
  }

  /** Blank text has no tokens. */
  lemma WordsOfBlank(s: string)
    requires AllSpace(s)
    ensures Words(s) == []
  {
  }

  // ---------------------------------------------------------------------
  // Patterns
  // ---------------------------------------------------------------------

  /** fnmatch.fnmatch restricted to '*' (any run, '/' included) and '?'
      (any one character); every other character stands for itself. */
  function Glob(name: string, pat: string): bool
    decreases |pat|, |name|
  {
    if |pat| == 0 then |name| == 0
    else if pat[0] == '*' then Glob(name, pat[1..]) || (|name| > 0 && Glob(name[1..], pat))
    else |name| > 0 && (pat[0] == '?' || pat[0] == name[0]) && Glob(name[1..], pat[1..])
  }

  predicate NoWildcard(pat: string) {
    forall i :: 0 <= i < |pat| ==> pat[i] != '*' && pat[i] != '?'
  }

  /** A pattern without wildcards matches exactly itself. */
  lemma {:induction false} GlobLiteral(name: string, pat: string)
    requires NoWildcard(pat)
    ensures Glob(name, pat) <==> name == pat
    decreases |pat|
  {
    if |pat| > 0 && |name| > 0 {
      GlobLiteral(name[1..], pat[1..]);
      if name[0] == pat[0] && name[1..] == pat[1..] {
        assert name == [name[0]] + name[1..];
        assert pat == [pat[0]] + pat[1..];
      }
    }
  }

  /** "*" matches every name. */
  lemma {:induction false} GlobStar(name: string)
    ensures Glob(name, "*")
    decreases |name|
  {
    assert "*"[1..] == "";
    if |name| > 0 {
      GlobStar(name[1..]);
    }
  }

  /** "*" + suffix matches exactly the names ending in suffix, when the
      suffix has no wildcard. */
  lemma {:induction false} GlobStarSuffix(name: string, suffix: string)
    requires NoWildcard(suffix)
    ensures Glob(name, "*" + suffix) <==> EndsWith(name, suffix)
    decreases |name|
  {
    var pat := "*" + suffix;
    assert pat[1..] == suffix;
    GlobLiteral(name, suffix);
    if |name| > 0 {
      GlobStarSuffix(name[1..], suffix);
      if |suffix| <= |name| - 1 {
        assert name[1..][|name| - 1 - |suffix|..] == name[|name| - |suffix|..];
      }
      if |suffix| == |name| {
        assert name[|name| - |suffix|..] == name;
      }
    }
  }

  /** One pattern of _matches: a pattern ending in '/' is a directory
      anchored at the root; any other one is a glob. Leading slashes are
      dropped either way. */
  predicate PatternMatches(pat: string, rel: string) {
    var anchor := LStripChar(pat, '/');
    if EndsWith(pat, "/") then rel == RStripChar(anchor, '/') || StartsWith(rel, anchor)
    else Glob(rel, anchor)
  }

  /** A directory pattern only ever matches paths that start with its
      anchor: the directory itself or something under it, counted from the
      root. */
  lemma DirectoryPatternFromRoot(pat: string, rel: string)
    requires EndsWith(pat, "/") && PatternMatches(pat, rel)
    ensures StartsWith(rel, RStripChar(LStripChar(pat, '/'), '/'))
  {
    var anchor := LStripChar(pat, '/');
    var dir := RStripChar(anchor, '/');
    RStripCharPrefix(anchor, '/');
    if rel != dir {
      assert rel[..|dir|] == anchor[..|dir|];
    }
  }

  /** A leading slash before a glob is dropped, and '*' also crosses '/':
      a slash, a star and then a suffix ignore every path ending in the suffix, at
      any depth. */
  lemma SlashStarPattern(suffix: string, rel: string)
    requires NoWildcard(suffix) && !EndsWith(suffix, "/")
    ensures PatternMatches("/*" + suffix, rel) <==> EndsWith(rel, suffix)
  {
    var pat := "/*" + suffix;
    assert pat[1..] == "*" + suffix;
    assert LStripChar(pat[1..], '/') == "*" + suffix;
    assert LStripChar(pat, '/') == "*" + suffix;
    if |suffix| > 0 {
      assert pat[|pat| - 1] == suffix[|suffix| - 1];
    }
    assert !EndsWith(pat, "/");
    GlobStarSuffix(rel, suffix);
  }

  /** The index of the first pattern that matches rel; |pats| when none
      does. */
  function FirstMatch(pats: seq<string>, rel: string): (i: nat)
    ensures i <= |pats|
  {
    if |pats| == 0 then 0
    else if PatternMatches(pats[0], rel) then 0
    else 1 + FirstMatch(pats[1..], rel)
  }

  /** _matches as a predicate: some pattern matches. */
  predicate Ignored(pats: seq<string>, rel: string) {
    FirstMatch(pats, rel) < |pats|
  }

  /** FirstMatch is the first matching pattern: it matches, and none before
      it does. */
  lemma {:induction false} FirstMatchIsFirst(pats: seq<string>, rel: string)
    ensures FirstMatch(pats, rel) < |pats| ==> PatternMatches(pats[FirstMatch(pats, rel)], rel)
    ensures forall j :: 0 <= j < FirstMatch(pats, rel) ==> !PatternMatches(pats[j], rel)
    decreases |pats|
  {
    if |pats| > 0 && !PatternMatches(pats[0], rel) {
      var rest := pats[1..];
      FirstMatchIsFirst(rest, rel);
      forall j | 0 <= j < FirstMatch(pats, rel)
        ensures !PatternMatches(pats[j], rel)
      {
        if j > 0 {
          assert pats[j] == rest[j - 1];
        }
      }
    }
  }

  /** A path is ignored exactly when some pattern matches it. */
  lemma IgnoredIff(pats: seq<string>, rel: string)
    ensures Ignored(pats, rel) <==> exists k :: 0 <= k < |pats| && PatternMatches(pats[k], rel)
  {
    FirstMatchIsFirst(pats, rel);
    if exists k :: 0 <= k < |pats| && PatternMatches(pats[k], rel) {
      var k :| 0 <= k < |pats| && PatternMatches(pats[k], rel);
      assert !(k < FirstMatch(pats, rel));
    }
  }

  /** What validate_access answers once the patterns are loaded: allowed
      with no patterns, outside the working directory, or when no pattern
      matches. */
  predicate Allowed(pats: seq<string>, rel: Option<string>) {
    pats == [] || rel.None? || !Ignored(pats, rel.value)
  }

  // ---------------------------------------------------------------------
  // The ignore file
  // ---------------------------------------------------------------------

  /** A line load keeps: not blank once stripped, and not a comment. */
  predicate KeepsLine(line: string) {
    Strip(line) != [] && !StartsWith(Strip(line), "#")
  }

  /** The patterns load collects from the lines read so far. */
  function Patterns(lines: seq<string>): (r: seq<string>)
    ensures |r| <= |lines|
    ensures forall k :: 0 <= k < |r| ==> r[k] != [] && !StartsWith(r[k], "#") && Strip(r[k]) == r[k]
  {
    if |lines| == 0 then []
    else
      var last := lines[|lines| - 1];
      StripIdempotent(last);
      Patterns(lines[..|lines| - 1]) + (if KeepsLine(last) then [Strip(last)] else [])
  }

  /** Reading one more line adds its stripped form when it is kept. */
  lemma PatternsStep(lines: seq<string>, i: nat)
    requires i < |lines|
    ensures Patterns(lines[..i + 1])
         == Patterns(lines[..i]) + (if KeepsLine(lines[i]) then [Strip(lines[i])] else [])
  {
    assert lines[..i + 1][..i] == lines[..i];
  }

  /** Every pattern is the stripped form of a kept line. */
  lemma {:induction false} PatternsSound(lines: seq<string>, p: string)
    requires p in Patterns(lines)
    ensures exists k :: 0 <= k < |lines| && KeepsLine(lines[k]) && Strip(lines[k]) == p
    decreases |lines|
  {
    var init := lines[..|lines| - 1];
    if p in Patterns(init) {
      PatternsSound(init, p);
      var k :| 0 <= k < |init| && KeepsLine(init[k]) && Strip(init[k]) == p;
      assert lines[k] == init[k];
    } else {
      assert KeepsLine(lines[|lines| - 1]) && Strip(lines[|lines| - 1]) == p;
    }
  }

  /** Every kept line contributes its stripped form. */
  lemma {:induction false} PatternsComplete(lines: seq<string>, k: nat)
    requires k < |lines| && KeepsLine(lines[k])
    ensures Strip(lines[k]) in Patterns(lines)
    decreases |lines|
  {
    var init := lines[..|lines| - 1];
    if k < |lines| - 1 {
      assert init[k] == lines[k];
      PatternsComplete(init, k);
    }
  }

  /** The ignore file as load finds it: missing, present but unreadable
      (an OS error, or text that is not UTF-8, where read_text raises), or
      present with its text. */
  datatype IgnoreFile = Missing | Unreadable | Readable(text: string)

  /** The exception read_text raises out of load. */
  datatype LoadError = ReadFailed

  /** What load makes of the ignore file: no patterns when it is missing,
      the error when it cannot be read, else the patterns of its lines. */
  function LoadedPatterns(file: IgnoreFile): (r: Result<seq<string>, LoadError>)
    ensures r.Err? <==> file.Unreadable?
    ensures file.Missing? ==> r == Ok([])
  {
    match file
    case Missing => Ok([])
    case Unreadable => Err(ReadFailed)
    case Readable(text) => Ok(Patterns(SplitLines(text)))
  }

  /** The state after _ensure_loaded, from the state before it: a loaded
      controller keeps its patterns and cannot fail; otherwise load runs,
      and either succeeds with the file's patterns or raises, leaving the
      patterns emptied and the controller still not loaded. */
  predicate LoadedAs(wasLoaded: bool, before: seq<string>, file: IgnoreFile,
                     ok: bool, nowLoaded: bool, after: seq<string>) {
    if wasLoaded then ok && nowLoaded && after == before
    else
      && (ok <==> LoadedPatterns(file).Ok?)
      && (ok ==> nowLoaded && after == LoadedPatterns(file).value)
      && (!ok ==> !nowLoaded && after == [])
  }

  /** The first candidate argument whose access is refused, if any. */
  function FirstBlocked(pats: seq<string>, args: seq<string>, resolve: string -> Option<string>)
    : (r: Option<string>)
  {
    if |args| == 0 then None
    else if !Allowed(pats, resolve(args[0])) then Some(args[0])
    else FirstBlocked(pats, args[1..], resolve)
  }

  /** The blocked argument is refused and every earlier one is allowed;
      with none blocked, every argument is allowed. */
  lemma {:induction false} FirstBlockedIsFirst(pats: seq<string>, args: seq<string>,
                                               resolve: string -> Option<string>)
    ensures FirstBlocked(pats, args, resolve).None? <==>
              forall k :: 0 <= k < |args| ==> Allowed(pats, resolve(args[k]))
    ensures FirstBlocked(pats, args, resolve).Some? ==>
              exists k :: 0 <= k < |args| && args[k] == FirstBlocked(pats, args, resolve).value
                          && !Allowed(pats, resolve(args[k]))
                          && forall j :: 0 <= j < k ==> Allowed(pats, resolve(args[j]))
    decreases |args|
  {
    if |args| > 0 {
      FirstBlockedIsFirst(pats, args[1..], resolve);
      var r := FirstBlocked(pats, args, resolve);
      if Allowed(pats, resolve(args[0])) {
        if r.Some? {
          var k :| 0 <= k < |args[1..]| && args[1..][k] == r.value
                   && !Allowed(pats, resolve(args[1..][k]))
                   && forall j :: 0 <= j < k ==> Allowed(pats, resolve(args[1..][j]));
          assert args[k + 1] == r.value;
          forall j | 0 <= j < k + 1
            ensures Allowed(pats, resolve(args[j]))
          {
            if j > 0 {
              assert args[j] == args[1..][j - 1];
            }
          }
        } else {
          forall k | 0 <= k < |args|
            ensures Allowed(pats, resolve(args[k]))
          {
            if k > 0 {
              assert args[k] == args[1..][k - 1];
            }
          }
        }
      }
    }
  }

  /** validate_command once the patterns are loaded: nothing without
      patterns or tokens, or when the lower-cased first token is not a
      file-reading command; else the first candidate argument refused. */
  function CommandVerdict(p: Policy, pats: seq<string>, command: string, resolve: string -> Option<string>)
    : Option<string>
  {
    var parts := Words(command);
    if pats == [] || parts == [] || Lower(parts[0]) !in ReadingCommands(p) then None
    else FirstBlocked(pats, CandidateArgs(p, parts[1..]), resolve)
  }

  /** A reported argument is a candidate token after the command word,
      refused access; only file-reading commands are ever reported on. */
  lemma CommandVerdictSound(p: Policy, pats: seq<string>, command: string, resolve: string -> Option<string>)
    requires CommandVerdict(p, pats, command, resolve).Some?
    ensures var parts := Words(command);
            && |parts| > 0 && Lower(parts[0]) in ReadingCommands(p)
            && CommandVerdict(p, pats, command, resolve).value in parts[1..]
            && IsCandidate(p, CommandVerdict(p, pats, command, resolve).value)
            && !Allowed(pats, resolve(CommandVerdict(p, pats, command, resolve).value))
  {
    var parts := Words(command);
    FirstBlockedIsFirst(pats, CandidateArgs(p, parts[1..]), resolve);
  }

  /** A file-reading command given a flag and an ignored file is refused
      on that file: the flag is skipped without being looked at, whatever
      its own verdict would be. */
  lemma ReadingCommandBlocksIgnoredFile(pats: seq<string>, cmd: string, flag: string, file: string,
                                        resolve: string -> Option<string>)
    requires Lower(cmd) in ReadingCommands(Unix)
    requires cmd != [] && NoSpace(cmd) && flag != [] && NoSpace(flag) && file != [] && NoSpace(file)
    requires StartsWith(flag, "-") && !StartsWith(file, "-")
    requires !Allowed(pats, resolve(file))
    ensures CommandVerdict(Unix, pats, cmd + " " + flag + " " + file, resolve) == Some(file)
  {
    ThreeWords(cmd, flag, file);
    var parts := Words(cmd + " " + flag + " " + file);
    assert parts[1..] == [flag, file];
    FlagSkipped(flag, file);
  }

  lemma ThreeWords(a: string, b: string, c: string)
    requires a != [] && NoSpace(a) && b != [] && NoSpace(b) && c != [] && NoSpace(c)
    ensures Words(a + " " + b + " " + c) == [a, b, c]
  {
    var rest := b + " " + c;
    assert a + " " + b + " " + c == a + " " + rest;
    WordsSingle(c);
    WordsCons(b, c);
    assert Words(rest) == [b, c];
    WordsCons(a, rest);
  }

  lemma FlagSkipped(flag: string, file: string)
    requires StartsWith(flag, "-") && !StartsWith(file, "-")
    ensures CandidateArgs(Unix, [flag, file]) == [file]
  {
    assert [flag, file][1..] == [file];
    assert [file][1..] == [];
  }

  // ---------------------------------------------------------------------
  // The controller
  // ---------------------------------------------------------------------

  class IgnoreController {
    var patterns: seq<string>
    var loaded: bool
    const policy: Policy

    constructor(policy: Policy)
      ensures this.policy == policy && patterns == [] && !loaded
    {
      this.policy := policy;
      patterns := [];
      loaded := false;
    }

    /** load: rebuild the patterns from the file, line by line. The
        patterns are emptied first; a file that cannot be read raises
        before `loaded` is set. */
    method Load(file: IgnoreFile) returns (r: Result<(), LoadError>)
      modifies this
      ensures r.Ok? <==> LoadedPatterns(file).Ok?
      ensures r.Ok? ==> loaded && patterns == LoadedPatterns(file).value
      ensures r.Err? ==> patterns == [] && loaded == old(loaded)
    {
      patterns := [];
      if file.Unreadable? {
        return Err(ReadFailed);
      }
      if file.Readable? {
        var lines := SplitLines(file.text);
        var i := 0;
        while i < |lines|
          invariant 0 <= i <= |lines|
          invariant patterns == Patterns(lines[..i])
        {
          PatternsStep(lines, i);
          var line := Strip(lines[i]);
          if line != [] && !StartsWith(line, "#") {
            patterns := patterns + [line];
          }
          i := i + 1;
        }
        assert lines[..|lines|] == lines;
      }
      loaded := true;
      r := Ok(());
    }

    /** _ensure_loaded: the file is read only if it has not been yet. */
    method EnsureLoaded(file: IgnoreFile) returns (r: Result<(), LoadError>)
      modifies this
      ensures LoadedAs(old(loaded), old(patterns), file, r.Ok?, loaded, patterns)
    {
      r := Ok(());
      if !loaded {
        r := Load(file);
      }
    }

    /** _matches: the patterns are tried in order, stopping at the first
        that matches. */
    method Matches(rel: string) returns (b: bool)
      ensures b <==> Ignored(patterns, rel)
    {
      var pats := patterns;
      var i := 0;
      while i < |pats|
        invariant 0 <= i <= |pats|
        invariant i + FirstMatch(pats[i..], rel) == FirstMatch(pats, rel)
      {
        if PatternMatches(pats[i], rel) {
          return true;
        }
        assert pats[i..][1..] == pats[i + 1..];
        i := i + 1;
      }
      return false;
    }

    /** validate_access: `rel` is the resolved relative path, None when the
        path lies outside the working directory. An ignore file that cannot
        be read makes it raise (Err), not allow. */
    method ValidateAccess(file: IgnoreFile, rel: Option<string>) returns (r: Result<bool, LoadError>)
      modifies this
      ensures LoadedAs(old(loaded), old(patterns), file, r.Ok?, loaded, patterns)
      ensures r.Ok? ==> (r.value <==> Allowed(patterns, rel))
    {
      var loading := EnsureLoaded(file);
      if loading.Err? {
        return Err(loading.error);
      }
      if patterns == [] {
        return Ok(true);
      }
      if rel.None? {
        return Ok(true);
      }
      var ignored := Matches(rel.value);
      r := Ok(!ignored);
    }

    /** validate_command: the first candidate argument of a file-reading
        command that validate_access refuses; Err when the ignore file
        cannot be read. */
    method ValidateCommand(file: IgnoreFile, command: string, resolve: string -> Option<string>)
      returns (r: Result<Option<string>, LoadError>)
      modifies this
      ensures LoadedAs(old(loaded), old(patterns), file, r.Ok?, loaded, patterns)
      ensures r.Ok? ==> r.value == CommandVerdict(policy, patterns, command, resolve)
    {
      var loading := EnsureLoaded(file);
      if loading.Err? {
        return Err(loading.error);
      }
      if patterns == [] {
        return Ok(None);
      }
      var parts := Words(command);
      if parts == [] {
        return Ok(None);
      }
      if Lower(parts[0]) !in ReadingCommands(policy) {
        return Ok(None);
      }
      var args := CandidateArgs(policy, parts[1..]);
      ghost var pats := patterns;
      var i := 0;
      while i < |args|
        invariant 0 <= i <= |args|
        invariant loaded && patterns == pats
        invariant LoadedAs(old(loaded), old(patterns), file, true, loaded, patterns)
        invariant FirstBlocked(pats, args[i..], resolve) == FirstBlocked(pats, args, resolve)
      {
        var access := ValidateAccess(file, resolve(args[i]));
        if !access.value {
          return Ok(Some(args[i]));
        }
        assert args[i..][1..] == args[i + 1..];
        i := i + 1;
      }
      return Ok(None);
    }
  }
}

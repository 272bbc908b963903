# polymorpher file tools: a Dafny model

This project models the text-editing core of the polymorpher agent's file
tools, with the path guard and the result-tree utilities around it:

- the exact line/block matcher of the search-and-replace tool and its three
  renderers: the whole file, a pseudo git diff, and git conflict markers
  (`search_and_replace.dfy`);
- the bottom-to-top splicing of replacement blocks that both file renderers
  use, with a forward reference definition (`splice.dfy`);
- the whole-file write engine (`write.dfy`). It covers content preparation
  for create, overwrite, append and prepend, CR/CRLF normalisation, the
  identical-content short cut, the renderers, the choice of backup name,
  the safety warnings, the result bookkeeping and `write_file` itself;
- the `.morpherignore` guard, including its two shell policies and its
  command validator. `IgnoreController` is a class with the two fields
  that `load` rebuilds (`ignore_controller.dfy`);
- the path tree (`path_graph.dfy`): `add_child`, `add_path`, the chain
  compression `concentrate`, and the sorted pre-order `traverse` and
  `format`;
- the search tool's result formatting and bookkeeping (`search.dfy`): match
  listing with truncation, the tree with per-file matches, the list format,
  the directory-walk exclusion filter and the per-file line scan;
- the exclusion pattern lists and the Git LFS pattern reader
  (`ext_patterns.dfy`), and the blank-line cleaner script
  (`clean_blank_lines.dfy`).

`text.dfy` holds the string vocabulary the tools use:
- `str.strip` over a fixed whitespace set, and ASCII `lower`/`upper`;
- `split`/`join` on one character, and `splitlines`;
- decimal rendering of numbers, padding and repetition.

`wrappers.dfy` holds `Option` and `Result`.

File contents are parameters. For the search tools and the LFS reader,
`Option<string>` is `None` where the file is missing or cannot be read; their
readers catch the read error and skip the file. The write tool's file system
is a map from each existing path to `Option<string>`, `None` for a file that
exists but cannot be read: preparing reads it as "", and the identical-content
check answers false. The ignore file is read without a catch, so it has three
states: missing, unreadable (the guard then raises, modelled as an `Err`
result) or read. Elsewhere the file system is a set of existing names. The regular expression of the search tool is a
predicate `hit` on lines. The ignore guard takes the resolution of a path
relative to the working directory as a function `resolve` that gives `None`
outside it.

## Model

| member | source | states |
|---|---|---|
| CleanBlankLines.CleanLine | scripts/clean_blank_lines.py:10-13 | a line becomes "" exactly when it is whitespace only; any other line is kept as it is |
| CleanBlankLines.CleanLineIdempotent | scripts/clean_blank_lines.py:10-13 | cleaning a line twice is cleaning it once |
| CleanBlankLines.CleanSplit | scripts/clean_blank_lines.py:9-14 | the output's lines are the input's lines, same number and order, each cleaned |
| CleanBlankLines.CleanIdempotent | scripts/clean_blank_lines.py:5-14 | clean(clean(x)) == clean(x) |
| CleanBlankLines.CleanLineLength | scripts/clean_blank_lines.py:10-13 | a cleaned line is never longer, and keeps its length exactly when it is not a non-empty whitespace-only line |
| CleanBlankLines.SumLengthsClean | scripts/clean_blank_lines.py:10-13 | the total length of the lines never grows, and stays the same exactly when no line is non-empty whitespace only |
| CleanBlankLines.CleanLength | scripts/clean_blank_lines.py:9-14 | the output is never longer than the input; it has the same length, and indeed equals the input, exactly when no line is non-empty whitespace only |
| ExtPatterns.FirstFieldClean | morpher/tools/utils/ext_patterns.py:230 | a pattern read from a line holds no space and has nothing left to strip |
| ExtPatterns.FirstFieldOf | morpher/tools/utils/ext_patterns.py:230 | the line "pattern attributes" gives back the pattern, stripped |
| ExtPatterns.LfsOfSound | morpher/tools/utils/ext_patterns.py:228-231 | every pattern returned is the first field of some line that mentions filter=lfs |
| ExtPatterns.LfsOfComplete | morpher/tools/utils/ext_patterns.py:228-231 | every line that mentions filter=lfs contributes its first field |
| ExtPatterns.GetLfsPatterns | morpher/tools/utils/ext_patterns.py:217-237 | the loop returns the patterns of the filter=lfs lines in line order, and [] when .gitattributes is missing or unreadable |
| ExtPatterns.ExcludePatternsHas | morpher/tools/utils/ext_patterns.py:240-245 | the result starts with the whole unchanged base list, and holds a pattern exactly when the base list or the LFS patterns hold it |
| Ignore.CandidateArgs | morpher/tools/utils/ignore_controller.py:36-62 | the candidates are the tokens the policy keeps: no Unix token starting with '-', no PowerShell token starting with '/' or holding ':' |
| Ignore.CandidateArgsAppend | morpher/tools/utils/ignore_controller.py:36-62 | the candidate filter keeps token order: filtering a + b is filtering a, then b |
| Ignore.FlagSkipped | morpher/tools/utils/ignore_controller.py:36-40 | a Unix flag before a file name is dropped and the file name kept |
| Ignore.CreatePolicy | morpher/tools/utils/ignore_controller.py:69-84 | "unix", "powershell" and "auto" in any letter case give their policy, auto choosing by platform; any other name is an error |
| Ignore.CreatePolicyIgnoresCase | morpher/tools/utils/ignore_controller.py:70 | the factory's answer does not depend on letter case |
| Ignore.WordLength | morpher/tools/utils/ignore_controller.py:33-34 | the first token runs up to the first whitespace character |
| Ignore.Words | morpher/tools/utils/ignore_controller.py:33-34 | the tokenizer gives non-empty tokens without whitespace |
| Ignore.WordsCons | morpher/tools/utils/ignore_controller.py:33-34 | a token, a space and a rest tokenize to the token followed by the rest's tokens |
| Ignore.WordsSingle | morpher/tools/utils/ignore_controller.py:33-34 | a single token tokenizes to itself |
| Ignore.WordsOfBlank | morpher/tools/utils/ignore_controller.py:33-34 | a blank command has no tokens |
| Ignore.GlobLiteral | morpher/tools/utils/ignore_controller.py:119 | a pattern without wildcards matches exactly itself |
| Ignore.GlobStar | morpher/tools/utils/ignore_controller.py:119 | "*" matches every path |
| Ignore.GlobStarSuffix | morpher/tools/utils/ignore_controller.py:119 | "*" followed by a literal suffix matches exactly the paths ending with it |
| Ignore.DirectoryPatternFromRoot | morpher/tools/utils/ignore_controller.py:112-116 | a directory pattern only matches paths that start with its anchor, counted from the root |
| Ignore.SlashStarPattern | morpher/tools/utils/ignore_controller.py:118-120 | a file pattern's leading '/' is dropped before the glob: "/*" + a literal suffix matches exactly the paths ending in that suffix |
| Ignore.FirstMatchIsFirst | morpher/tools/utils/ignore_controller.py:109-121 | the loop stops at a pattern that matches, and no earlier pattern matches |
| Ignore.IgnoredIff | morpher/tools/utils/ignore_controller.py:109-121 | a path is ignored exactly when some pattern matches it |
| Ignore.Patterns | morpher/tools/utils/ignore_controller.py:98-102 | each kept pattern is non-empty, stripped, and not a comment |
| Ignore.PatternsSound | morpher/tools/utils/ignore_controller.py:98-102 | every pattern is the stripped form of a kept line of the file |
| Ignore.PatternsComplete | morpher/tools/utils/ignore_controller.py:98-102 | every kept line contributes its stripped form |
| Ignore.FirstBlockedIsFirst | morpher/tools/utils/ignore_controller.py:146-149 | None exactly when every candidate is allowed; otherwise the first refused candidate, all earlier ones allowed |
| Ignore.CommandVerdictSound | morpher/tools/utils/ignore_controller.py:136-149 | a reported argument follows a file-reading command word, is a candidate, and is refused |
| Ignore.ReadingCommandBlocksIgnoredFile | morpher/tools/utils/ignore_controller.py:136-149 | for any file-reading command word, flag and refused file, the command "cmd -flag file" reports the file, skipping the flag unexamined |
| Ignore.IgnoreController.constructor | morpher/tools/utils/ignore_controller.py:88-92 | a new controller has its policy, no patterns, and is not loaded |
| Ignore.LoadedPatterns | morpher/tools/utils/ignore_controller.py:94-103 | an error exactly when the file exists but cannot be read; no patterns when it is missing |
| Ignore.IgnoreController.Load | morpher/tools/utils/ignore_controller.py:94-103 | the patterns become exactly those of the file (none when it is missing) and the controller is loaded; an unreadable file raises, leaving the patterns emptied and the loaded flag as it was |
| Ignore.IgnoreController.EnsureLoaded | morpher/tools/utils/ignore_controller.py:105-107 | loads only when not yet loaded, passing on the read error; otherwise the patterns stay as they were and it cannot fail |
| Ignore.IgnoreController.Matches | morpher/tools/utils/ignore_controller.py:109-121 | true exactly when some pattern matches the path |
| Ignore.IgnoreController.ValidateAccess | morpher/tools/utils/ignore_controller.py:123-134 | loads once, raising (never allowing) when the ignore file cannot be read; allowed with no patterns, outside the working directory, or when no pattern matches |
| Ignore.IgnoreController.ValidateCommand | morpher/tools/utils/ignore_controller.py:136-149 | loads once, raising when the ignore file cannot be read; None without patterns, tokens or a file-reading command; otherwise the first refused candidate |
| PathGraph.PathJoinAssoc | morpher/tools/utils/path_graph.py:20 | joining names is associative, so a chain of merges gives one well-defined path |
| PathGraph.Components | morpher/tools/utils/path_graph.py:77 | a path has no more parts than '/'-separated pieces |
| PathGraph.ComponentsOfClean | morpher/tools/utils/path_graph.py:77 | parts that are already components are kept as they are |
| PathGraph.ComponentsClean | morpher/tools/utils/path_graph.py:77 | every part of a path is a component: not empty and not "." |
| PathGraph.PathPartsClean | morpher/tools/utils/path_graph.py:77 | every part is a component, except a leading "/" for an absolute path |
| PathGraph.PathPartsRoundTrip | morpher/tools/utils/path_graph.py:77 | components joined with '/' split back into the same parts |
| PathGraph.PathPartsRoundTripAbsolute | morpher/tools/utils/path_graph.py:77 | an absolute path's parts are "/" followed by its components |
| PathGraph.HeightChild | morpher/tools/utils/path_graph.py:18-24 | a child is strictly lower than its parent |
| PathGraph.NameLeTotal | morpher/tools/utils/path_graph.py:47 | the name order is total |
| PathGraph.NameLeTrans | morpher/tools/utils/path_graph.py:47 | the name order is transitive |
| PathGraph.InsertByName | morpher/tools/utils/path_graph.py:47 | inserting keeps every node and adds exactly one |
| PathGraph.SortByName | morpher/tools/utils/path_graph.py:47 | sorting by name gives a permutation of the children |
| PathGraph.InsertByNameSorted | morpher/tools/utils/path_graph.py:47 | inserting into a sorted list keeps it sorted |
| PathGraph.SortByNameSorted | morpher/tools/utils/path_graph.py:47 | the sorted children are in name order |
| PathGraph.SizeAllSorted | morpher/tools/utils/path_graph.py:47 | sorting keeps the node count |
| PathGraph.TraverseIsRowNames | morpher/tools/utils/path_graph.py:43-49 | traverse lists the names of the pre-order rows: a node, then its children's subtrees in name order |
| PathGraph.TraverseAllIsRowNames | morpher/tools/utils/path_graph.py:47-48 | the children's listings are concatenated in sorted order |
| PathGraph.TraverseLength | morpher/tools/utils/path_graph.py:43-49 | traverse lists one name per node |
| PathGraph.FormatIsRender | morpher/tools/utils/path_graph.py:51-60 | format prints the pre-order rows, one '\n'-terminated line each: the root bare, a node at depth d after d indents and the branch symbol |
| PathGraph.FormatAllIsRender | morpher/tools/utils/path_graph.py:57-59 | the children's blocks are printed in sorted order, one level deeper |
| PathGraph.RenderAppend | morpher/tools/utils/path_graph.py:55-59 | printing two runs of rows is printing each in turn |
| PathGraph.RowsCount | morpher/tools/utils/path_graph.py:51-60 | format prints one line per node |
| PathGraph.RowsAllCount | morpher/tools/utils/path_graph.py:57-59 | the children's blocks have one line per node below them |
| PathGraph.RowsDepths | morpher/tools/utils/path_graph.py:55-59 | a node's line comes first, at its depth, and every line below it is deeper |
| PathGraph.RowsAllDepths | morpher/tools/utils/path_graph.py:57-59 | no line of a child's block is shallower than the child |
| PathGraph.Merge | morpher/tools/utils/path_graph.py:18-21 | the merge loop leaves no single non-leaf child, keeps the leaf flag, and never adds nodes |
| PathGraph.Concentrate | morpher/tools/utils/path_graph.py:17-24 | concentrate keeps the node's leaf flag |
| PathGraph.ConcentrateAll | morpher/tools/utils/path_graph.py:23-24 | every child is concentrated in place: same number, same leaf flags |
| PathGraph.ConcentrateNode | morpher/tools/utils/path_graph.py:17-24 | the while loop and the loop over the children compute the compressed tree |
| PathGraph.ConcentrateCompressed | morpher/tools/utils/path_graph.py:17-24 | afterwards no node has exactly one child that is a non-leaf |
| PathGraph.ConcentrateAllCompressed | morpher/tools/utils/path_graph.py:23-24 | every concentrated child is compressed |
| PathGraph.MergeLeafPaths | morpher/tools/utils/path_graph.py:18-21 | merging keeps every leaf's full joined path |
| PathGraph.ConcentrateKeepsLeafPaths | morpher/tools/utils/path_graph.py:17-24 | concentrate keeps the set of full leaf paths, when no leaf has a single non-leaf child |
| PathGraph.ConcentrateAllKeepsLeafPaths | morpher/tools/utils/path_graph.py:23-24 | the same for a list of children |
| PathGraph.IndexOf | morpher/tools/utils/path_graph.py:13 | the position of the first child with the name, or the end when there is none |
| PathGraph.AddChildFinds | morpher/tools/utils/path_graph.py:12-15 | afterwards the child exists. An existing child leaves the node unchanged; otherwise one new childless child is appended; the search tree's add_child (morpher/tools/search.py:92-94) behaves the same, so an existing child keeps its meta |
| PathGraph.AddChildIdempotent | morpher/tools/utils/path_graph.py:12-15 | adding the same name again changes nothing, whatever leaf flag or meta it carries |
| PathGraph.AddChildUnique | morpher/tools/utils/path_graph.py:12-15 | add_child keeps child names unique |
| PathGraph.Insert | morpher/tools/utils/path_graph.py:35-41 | the walk leaves the starting node's own name, flag and meta alone |
| PathGraph.InsertDescend | morpher/tools/utils/path_graph.py:39-41 | below the first part, the tree is what adding the rest below that child gives |
| PathGraph.InsertAside | morpher/tools/utils/path_graph.py:39-41 | subtrees under other existing children are untouched |
| PathGraph.InsertIdempotent | morpher/tools/utils/path_graph.py:31-41 | adding a path that is already present changes nothing |
| PathGraph.InsertNewLeaf | morpher/tools/utils/path_graph.py:39-41 | a new path ends in a new childless leaf that carries the meta; the search tree's add_path (morpher/tools/search.py:119-124) attaches the file's matches to the final component only |
| PathGraph.InsertNewDirectory | morpher/tools/utils/path_graph.py:39-41 | a new intermediate component becomes a non-leaf without meta, as in the search tree's add_path (morpher/tools/search.py:119-124) |
| PathGraph.InsertKeeps | morpher/tools/utils/path_graph.py:39-41 | every node present before is still present |
| PathGraph.InsertUnique | morpher/tools/utils/path_graph.py:12-41 | child names stay unique at every node |
| PathGraph.Build | morpher/tools/utils/path_graph.py:74-78 | there is a tree exactly when there is a path |
| PathGraph.BuildSnoc | morpher/tools/utils/path_graph.py:75-78 | each path is added to the tree built from the earlier ones |
| PathGraph.BuildRootName | morpher/tools/utils/path_graph.py:32-33 | the root is named after the first part of the first path and is not a leaf |
| PathGraph.BuildHasAll | morpher/tools/utils/path_graph.py:74-78 | every path added is present in the tree, below the root |
| PathGraph.FromPaths | morpher/tools/utils/path_graph.py:69-83 | the loop builds the tree of all paths, compressed exactly when concentrate is set |
| Search.ShownIsMin | morpher/tools/search.py:50-53 | with a maximum of at least 1, min(len(matches), max) rows are shown |
| Search.FormatMatches | morpher/tools/search.py:38-59 | the loop with its break lists the shown rows in match order, then the note when matches exceed the maximum |
| Search.RowLines | morpher/tools/search.py:51 | one match row is one line |
| Search.RowsLines | morpher/tools/search.py:50-53 | n rows are n lines |
| Search.NoteLines | morpher/tools/search.py:55-57 | the truncation note is one line |
| Search.FormatMatchesLines | morpher/tools/search.py:49-59 | the listing has one line per shown match, plus one for the note exactly when matches exceed the maximum |
| Search.SearchFormatPlain | morpher/tools/search.py:126-166 | without match rows (only_filename, or no meta) the search tree prints like the plain tree |
| Search.SearchFormatAllPlain | morpher/tools/search.py:158-165 | the same for the sorted children |
| Search.LeafBlock | morpher/tools/search.py:149-156 | a leaf with meta prints its name line, then its match rows indented under the branch symbol |
| Search.HeaderEntireIff | morpher/tools/search.py:369-372 | the header says "entire file content returned" exactly when the match count equals the file's line count |
| Search.PrettyStrEmptyIff | morpher/tools/search.py:361-362 | the list format is "No matching results found" exactly when there are no results |
| Search.HeaderLines | morpher/tools/search.py:369-374 | a file header is one line |
| Search.BlocksLines | morpher/tools/search.py:366-377 | with only_filename, each file takes two lines, its header and a blank |
| Search.PrettyStrLines | morpher/tools/search.py:345-378 | with only_filename, n results give 2 + 2n lines |
| Search.PrettyGraph | morpher/tools/search.py:380-412 | no results give "No matching results found"; otherwise the count line, then the compressed tree of the results printed with their matches |
| Search.DirPatternsHas | morpher/tools/search.py:283 | the directory patterns are the patterns ending in '/', without their trailing '/' |
| Search.FilePatternsHas | morpher/tools/search.py:284 | the file patterns are the other patterns, without their leading '*' |
| Search.ExcludedAsWrittenIff | morpher/tools/search.py:283-298 | as written, a file is excluded exactly when some path part contains a directory pattern, or its name ends with a file pattern |
| Search.BaseHasOut | morpher/tools/utils/ext_patterns.py:29 | the base list holds "out/" |
| Search.LayoutExcludedBy | morpher/tools/search.py:293 | as written, any list holding "out/" excludes src/layout.py, because "layout.py" contains "out" |
| Search.LayoutExcludedAsWritten | morpher/tools/search.py:283-298 | as written, the base list excludes src/layout.py |
| Search.StarTailAsWritten | morpher/tools/search.py:297 | as written, a file pattern ending in '*' only excludes names that end in '*' |
| Search.StarTailFilter | morpher/tools/search.py:289-298 | on the filter itself: a pattern x + "*" survives lstrip('*') unchanged, so the test as written keeps x + rest (rest not ending in '*') while the intended glob excludes it |
| Search.DirMatchesSingle | morpher/tools/search.py:293 | corrected: a one-component directory pattern matches exactly when it is one of the file's directories |
| Search.LayoutKept | morpher/tools/search.py:293 | corrected: "out/" does not exclude src/layout.py |
| Search.GlobAgreesOnExtensions | morpher/tools/search.py:297 | corrected: on "*" + a literal suffix, the glob agrees with the source's suffix test |
| Search.GlobPrefixStar | morpher/tools/search.py:297 | corrected: a pattern with a trailing '*' matches every name with that prefix |
| Search.FilterFiles | morpher/tools/search.py:287-300 | the walk keeps exactly the files the chosen exclusion test keeps (the program's test as written, or the corrected one), in walk order |
| Search.WalkedIff | morpher/tools/search.py:287-300 | a path is kept exactly when it is a walked file that the chosen test does not exclude |
| Search.LayoutWalk | morpher/tools/search.py:287-300 | the program's walk drops src/layout.py under any list holding "out/"; the corrected walk under ["out/"] keeps it |
| Search.MatchesOfSound | morpher/tools/search.py:313-319 | every match is 1-indexed, hits its line, and holds that line stripped |
| Search.MatchesOfBelow | morpher/tools/search.py:313 | no match is past the last line |
| Search.MatchesOfAscending | morpher/tools/search.py:313-319 | match line numbers strictly increase |
| Search.MatchesOfComplete | morpher/tools/search.py:313-319 | every line that hits is reported |
| Search.ScannedIff | morpher/tools/search.py:321-326 | a file is reported exactly when one of its lines hits |
| Search.ScanFile | morpher/tools/search.py:308-326 | the loop over the lines counts them and collects the hits |
| Search.ScanAllReported | morpher/tools/search.py:305-328 | every reported file has matches and is the scan of some readable file |
| Search.ScanAllComplete | morpher/tools/search.py:305-328 | every readable file with a hit is reported, at the position after the files reported before it, so results follow file order |
| Search.SearchFiles | morpher/tools/search.py:305-328 | the loop over the files reports each readable file with a hit, in order; unreadable files are skipped |
| SearchReplace.NormalizeReplacement | morpher/tools/search_and_replace.py:50-53 | a string becomes its '\n'-split lines, which join back to it; a list is kept |
| SearchReplace.FindSingleLineMatches | morpher/tools/search_and_replace.py:97-109 | the loop computes the single-line scan over the window |
| SearchReplace.FindMultiLineMatches | morpher/tools/search_and_replace.py:111-136 | the while loop, jumping N on a hit and 1 on a miss, computes the block scan |
| SearchReplace.FindMatches | morpher/tools/search_and_replace.py:75-95 | the window is clamped, and the scan is multi-line exactly when the search has more than one line |
| SearchReplace.SingleLineMatchesSound | morpher/tools/search_and_replace.py:100-108 | every single-line match is inside the window, passes the line test, and carries its line and the replacement |
| SearchReplace.SingleLineMatchesIncreasing | morpher/tools/search_and_replace.py:100-109 | single-line matches come out in strictly increasing line order |
| SearchReplace.SingleLineMatchesExact | morpher/tools/search_and_replace.py:97-109 | line n is reported exactly when it is in the window and passes the line test |
| SearchReplace.MultiLineMatchesSound | morpher/tools/search_and_replace.py:117-129 | every block lies inside the window, every line pair passes the test, and the block text is the lines joined |
| SearchReplace.MultiLineMatchesDisjoint | morpher/tools/search_and_replace.py:130-134 | consecutive block starts differ by at least N, so blocks never overlap |
| SearchReplace.MultiLineMatchesMaximal | morpher/tools/search_and_replace.py:117-134 | every matching block in the window is reported or overlaps a reported one |
| SearchReplace.BlankSearchMatches | morpher/tools/search_and_replace.py:152-157 | the empty search matches exactly the whitespace-only lines |
| SearchReplace.EmptyWindowNoMatches | morpher/tools/search_and_replace.py:80-84 | start after end gives no match |
| SearchReplace.EmptySearchMatchesBlankLines | morpher/tools/search_and_replace.py:87 | an empty search reports exactly the blank lines of the window |
| SearchReplace.SingleLineMatchesUniform | morpher/tools/search_and_replace.py:103-107 | every single-line match covers one line and carries the replacement |
| SearchReplace.SingleLineMatchesPlaced | morpher/tools/search_and_replace.py:103-107 | single-line matches are in order, each naming the line it holds |
| SearchReplace.MultiLineMatchesUniform | morpher/tools/search_and_replace.py:123-128 | every block covers N lines and carries the replacement |
| SearchReplace.MultiLineMatchesPlaced | morpher/tools/search_and_replace.py:123-128 | blocks are in order and disjoint, each holding the lines it covers |
| SearchReplace.MatchesOfPlaced | morpher/tools/search_and_replace.py:75-95 | the matches of a file are in order, disjoint, each holding the lines it covers, all of the search's height |
| SearchReplace.PlacedOrdered | morpher/tools/search_and_replace.py:182-191 | in-order disjoint matches make in-order disjoint edits inside the file |
| SearchReplace.RenderedIsForward | morpher/tools/search_and_replace.py:181-193 | rendering bottom to top equals the forward result: gaps kept in order, each block in place of its range |
| SearchReplace.PlacedRenderedLineCount | morpher/tools/search_and_replace.py:181-193 | uniform placed matches grow the file by the same amount each |
| SearchReplace.RenderedLineCount | morpher/tools/search_and_replace.py:181-193 | the rendered file has the original line count plus, per match, R - N (conflict markers: R + 3) lines |
| SearchReplace.FormatDefault | morpher/tools/search_and_replace.py:163-193 | the content as read when nothing matched, "" when unreadable, else the content with the matches replaced |
| SearchReplace.FormatGitConflict | morpher/tools/search_and_replace.py:216-240 | the default output when nothing matched, else the content with a marked block per match |
| SearchReplace.NoMatchesKeepContent | morpher/tools/search_and_replace.py:166-172 | without matches both renderers give back the file as read |
| SearchReplace.FormatGitDiff | morpher/tools/search_and_replace.py:195-214 | "" without matches; otherwise the four header lines and one hunk per match, in match order |
| SearchReplace.AppendHunks | morpher/tools/search_and_replace.py:207-212 | the loop appends the hunks of the matches in order |
| SearchReplace.AppendHunk | morpher/tools/search_and_replace.py:208-212 | one hunk: the header, the '-' line, then each replacement line after '+' |
| SearchReplace.HunksAppend | morpher/tools/search_and_replace.py:207-212 | the hunks of a longer match list extend those of the shorter one |
| SearchReplace.HunksLength | morpher/tools/search_and_replace.py:207-212 | the hunks take 2 lines per match plus one per replacement line |
| SearchReplace.GitDiffMultiLineShowsUnprefixedLine | morpher/tools/search_and_replace.py:209-210 | a two-line match has hunk header -k,1, its first line after '-', and its second line unprefixed |
| SearchReplace.IdenticalMatchesConfig | morpher/tools/search_and_replace.py:315-324 | identical exactly when the stripped search equals the stripped, '\n'-joined replacement |
| SearchReplace.IdenticalIgnoresOuterSpace | morpher/tools/search_and_replace.py:324 | stripping both sides keeps them identical |
| SearchReplace.Readable | morpher/tools/search_and_replace.py:292-302 | only files whose content could be read are processed, never more than were found |
| SearchReplace.ScanFilesReadable | morpher/tools/search_and_replace.py:292-302 | one result per readable file, in file order, each with that file's matches |
| SearchReplace.ScanAll | morpher/tools/search_and_replace.py:292-302 | the loop with its try/except gives the results of the readable files |
| SearchReplace.ParseNames | morpher/tools/search_and_replace.py:305-306 | every mode and style parses from its own name, and a parsed name is that value's name |
| SearchReplace.ParseIgnoresCase | morpher/tools/search_and_replace.py:305-306 | parsing ignores letter case |
| SearchReplace.SearchAndReplace | morpher/tools/search_and_replace.py:248-313 | identical patterns give an empty result and read nothing; otherwise a missing path, bad mode or bad style is an error, else the scan results |
| SearchReplace.EngineReportsReadableFiles | morpher/tools/search_and_replace.py:284-302 | a successful run reports exactly the readable files, each with its matches |
| SearchReplace.TotalsBounds | morpher/tools/search_and_replace.py:61-67 | files with matches are at most the files and at most the matches; no matches exactly when no file has any |
| Splice.ApplyFromLast | morpher/tools/search_and_replace.py:182-191 | the reversed loop of slice assignments computes the bottom-to-top splice |
| Splice.SpliceFromLastWithin | morpher/tools/search_and_replace.py:182-191 | bottom-to-top splicing of ordered edits keeps the lines outside them and puts the forward result between |
| Splice.SpliceFromLastIsForward | morpher/tools/search_and_replace.py:182-191 | splicing ordered edits from the last one equals the forward result |
| Splice.ForwardLength | morpher/tools/search_and_replace.py:191 | the result has the original length plus the sum of block length minus span |
| Splice.ForwardKeepsLine | morpher/tools/search_and_replace.py:182-191 | a line outside every edit keeps its text, shifted by the growth of the edits before it |
| Splice.ForwardPlacesBlock | morpher/tools/search_and_replace.py:191 | each block appears where its range started, shifted by the growth of the edits before it |
| Write.ReplaceCr | morpher/tools/write.py:99 | every lone '\r' becomes '\n', everything else is kept |
| Write.NormalizeNewlines | morpher/tools/write.py:99 | the normalised content holds no '\r' and is no longer |
| Write.NormalizeKeepsPlainText | morpher/tools/write.py:99 | content without '\r' is unchanged |
| Write.NormalizeIdempotent | morpher/tools/write.py:99 | normalising twice is normalising once |
| Write.NormalizeCons | morpher/tools/write.py:99 | read from the left, for every text: "\r\n" becomes one '\n', a '\r' not followed by '\n' becomes one '\n', and any other character is kept |
| Write.MakeWriteConfig | morpher/tools/write.py:96-99 | the configured content holds no '\r', and content without '\r' is kept |
| Write.PrepareContent | morpher/tools/write.py:159-179 | create fails exactly on an existing file; create and overwrite give the content; append and prepend insert '\n' only when the first text is non-empty and lacks one |
| Write.AppendKeepsOriginal | morpher/tools/write.py:169-172 | an append starts with the original and ends with the content, at most one character longer than both |
| Write.PrependKeepsOriginal | morpher/tools/write.py:174-177 | a prepend starts with the content and ends with the original, at most one character longer than both |
| Write.OperationType | morpher/tools/write.py:70-82 | read against the files that exist at that moment: "no_change" exactly without a change, "created" exactly when the file does not exist; for an existing file "overwritten", "appended" or "prepended" by the operation, and "modified" for a create |
| Write.DefaultIsNewContent | morpher/tools/write.py:185-190 | the default rendering of a prepared change is its new content, "" without one |
| Write.NewFileDiffLines | morpher/tools/write.py:201-212 | a new-file diff is six header lines, the last saying +1,L, then exactly the L new lines after '+' |
| Write.ConflictLayout | morpher/tools/write.py:248-256 | a changed existing file renders as original and new text between the three markers |
| Write.ConflictOtherCases | morpher/tools/write.py:240-246 | without a change the conflict rendering is the default one; a new file is its content alone |
| Write.ContentWarnings | morpher/tools/write.py:282-295 | the size warning comes exactly over 1 MiB, the NUL warning exactly with a NUL; at most five warnings |
| Write.LineCountWarning | morpher/tools/write.py:286-289 | the line-count warning comes exactly over 10000 lines |
| Write.IdenticalMeansNoChange | morpher/tools/write.py:403-424 | a skipped write is one whose prepared overwrite differs from the file only in line endings and outer whitespace, and changes nothing when both texts are already normalised and stripped |
| Write.OnlyOverwriteSkipped | morpher/tools/write.py:403-424 | an append, prepend or create, a missing file or one that cannot be read is never skipped; an overwrite with the file's own text is |
| Write.BackupCandidateInjective | morpher/tools/write.py:432-436 | the backup candidates are all different |
| Write.BackupName | morpher/tools/write.py:426-436 | None exactly when the file is missing; otherwise the first candidate that does not exist, all earlier ones existing |
| Write.FirstFreeUnique | morpher/tools/write.py:432-436 | there is only one first free candidate |
| Write.FilesChanged | morpher/tools/write.py:112-114 | the changed files are at most the files |
| Write.FilesCreated | morpher/tools/write.py:116-118 | read against the files that exist at that moment: at most the files, and 0 exactly when no result has a change to a missing file |
| Write.AllSucceededIff | morpher/tools/write.py:120-122 | success exactly when every file result succeeded, so true with none |
| Write.CountsBounded | morpher/tools/write.py:112-114 | no changed file exactly when no result has a change |
| Write.HandleApply | morpher/tools/write.py:466-522 | one result per file: an unchanged one succeeds; a changed one takes the first free backup name when it backs up, and succeeds exactly when the write does; afterwards the files are those before plus each backup and each written target |
| Write.ApplyOne | morpher/tools/write.py:468-522 | one pass of the loop: the result as above, and the paths it adds |
| Write.AppliedFilesHasTargets | morpher/tools/write.py:483-511 | when the writes go through, every changed file's target exists afterwards |
| Write.AppliedFilesOnly | morpher/tools/write.py:483-511 | the apply adds no path but the target or the backup of a changed file |
| Write.WriteFile | morpher/tools/write.py:328-401 | identical content returns an empty result; a bad operation is an error; otherwise the prepared result, then a mode or style error, or the applied result; only an apply changes which files exist |
| Write.PreviewAndApplySuccess | morpher/tools/write.py:120-122 | a preview never marks its result successful; an apply whose write goes through succeeds |
| Write.CreateReportAfterApply | morpher/tools/write.py:116-118 | as written: after an apply-create of a missing file with content, the result reports 0 files created and the operation "modified" |
| Write.CreateReportAtPreparation | morpher/tools/write.py:116-118 | as intended: read against the files at preparation, the same result reports 1 file created and the operation "created" |

## Left out

- File and directory I/O: reading, writing, `exists`, `rglob`, `resolve`, `relative_to`, `mkdir`, `shutil.copy2`/`copystat` and `os.access`. Contents and existence are parameters; `SearchFiles` takes the files `rglob` yields and `FilterFiles` takes the walk's entries.
- All printing: the preview handlers, warnings and error messages, and the `__main__` demos.
- The interactive `write_and_ask` and `search_and_ask_replace` loops, which read from the terminal.
- The apply loop of the search-and-replace engine (morpher/tools/search_and_replace.py:354-382) only writes what the renderers compute, to the target or its `.diff` sibling. The renderers are modelled; the write is not.
- Write.FormatGitDiff: the `difflib.unified_diff` branch for a modified existing file is a library algorithm. The model gives `None` there.
- The regular expression of the search tool is the predicate `hit` on lines.
- Ignore.Glob: `fnmatch` is a simplified glob with `*` and `?`. It has no `[...]` classes and no case folding, and `*` also matches '/', as in `fnmatch`.
- Ignore.Words: `shlex.split` is a whitespace tokenizer. Quotes and escapes are not interpreted, and the PowerShell policy's non-POSIX quoting is not modelled.
- The "auto" shell policy reads the platform; `onWindows` is a parameter.
- Text.Strip and Text.Lower: `str.strip` uses a fixed whitespace set, and lower/upper case is ASCII only. Unicode case mapping is not modelled.
- Write.ContentWarnings: the 1 MiB and 10000-line thresholds are counted in characters, as `len` does; the message texts are left out. The path checks (outside the working directory, unresolvable, create over an existing file) take their answers as parameters.
- `validate_file_access` (permissions) is not part of this model.
- Write.IsContentIdentical: one text per file stands for both reads. The identical check always decodes as UTF-8 while preparing uses the configured encoding, which is not modelled, so a file readable under one encoding and not the other is not modelled.
- Write.HandleApply: each backup name is chosen against the files that existed before the loop, so with several file results a backup made for an earlier one is not seen by a later one. write_file always passes one.
- Write.BackupName: `with_suffix(suffix + ".backup")` is modelled as appending ".backup" or ".backup.N" to the path, which is what it does for a path with a file name. A failing `copy2` (which gives no backup) is not modelled.
- The path tree is a value, not a heap of nodes: `add_child`, `add_path` and `concentrate` return the new tree. So aliasing between nodes is not modelled. The `add_path` walk down `current_node` is the recursion `PathGraph.Insert`.
- PathGraph.PathParts: `Path(p).parts` on '/'-separated text. It drops empty and "." components and keeps ".."; a leading "//" and Windows drives are not modelled.
- PathGraph.FromPaths: an empty path list (where the source fails on `tree.root.concentrate()`) and an empty path (where `add_path` fails on `path_parts[0]`) are excluded by `requires`.
- PathGraph.ConcentrateKeepsLeafPaths: leaf paths are kept only when no leaf node has a single non-leaf child. Such a node is a file that is also a directory prefix, and merging renames it.
- Search.PrettyGraph: `as_text=False`, which returns the tree object itself, is left out. `os.path.relpath` of a result file is a parameter `relpath` of the list format.
- `is_within_workspace` and the checks in `search_file` before the walk: path resolution is I/O.
- SearchReplace.ScanFilesSnoc states only the result list's growth. That the list stays one result per readable file is `ScanFilesReadable`.

## Findings

| source | as written | input that shows it | evidently intended | confidence | as-written member | corrected member |
|---|---|---|---|---|---|---|
| morpher/tools/search.py:293 | a directory pattern excludes a file when it is a substring of any path part, the file name included | the file src/layout.py with the base pattern "out/": "layout.py" contains "out" | exclude files that lie inside a directory with that name | not executed | Search.LayoutExcludedAsWritten | Search.LayoutKept |
| morpher/tools/search.py:297 | a file pattern is compared as a literal suffix after dropping leading '*' only, so a trailing '*' stays literal | the base pattern "yarn-error.log*" does not exclude the file yarn-error.log.1: only names ending in "yarn-error.log*" are excluded | glob matching, as the ignore guard does with fnmatch | not executed | Search.StarTailFilter | Search.GlobPrefixStar |
| morpher/tools/write.py:118 | total_files_created and operation_type ask `exists()` when read, after the apply has written the file | write_file("demo_output.txt", "Demo content\nLine 2", mode="apply", operation="create") with the file missing: the demo then prints "Files created: 0", and the success line says "modified" | count and name the file as created, as decided when the change was prepared | not executed | Write.CreateReportAfterApply | Write.CreateReportAtPreparation |

`Search.Excluded` is the corrected filter: a directory pattern matches a run of whole directory names, and a file pattern is a glob on the file name. `FilterFiles` takes the test to use; the program runs it with the test as written, and `Search.LayoutWalk` shows the first finding on the walk itself. `Search.ExcludedAsWrittenIff` states the filter as written, and `Search.LayoutExcludedBy` shows that any list holding "out/" triggers the first finding. `Search.DirMatchesSingle` ties the corrected directory test to directory membership. `Search.GlobAgreesOnExtensions` shows that, for the patterns the source mostly has ("*" followed by an extension), the corrected glob agrees with the test as written.

The write engine is modelled as written: `Write.OperationType` and `Write.FilesCreated` take the set of files that exist when they are read, and `Write.WriteFile` returns that set as it stands after the call. `Write.CreateReportAfterApply` reads the report after the apply, as the source does; `Write.CreateReportAtPreparation` reads it against the files at preparation.

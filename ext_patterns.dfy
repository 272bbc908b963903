/** The exclusion patterns (morpher/tools/utils/ext_patterns.py): the
    fixed base list of directories and file patterns a search skips, and
    the patterns of files a repository stores with Git LFS, read from the
    text of its .gitattributes. */
module ExtPatterns {
  import opened Wrappers
  import opened Text

  /** Build and tool artifact directories. */
  const Artifact: seq<string> := [
    ".gradle/",
    ".idea/",
    ".parcel-cache/",
    ".pytest_cache/",
    ".next/",
    ".nuxt/",
    ".sass-cache/",
    ".terraform/",
    ".terragrunt-cache/",
    ".vs/",
    ".vscode/",
    "Pods/",
    "__pycache__/",
    "bin/",
    "build/",
    "bundle/",
    "coverage/",
    "deps/",
    "dist/",
    "env/",
    "node_modules/",
    "obj/",
    "out/",
    "pkg/",
    "pycache/",
    "target/dependency/",
    "temp/",
    "vendor/",
    "venv/"
  ]

  /** Images, fonts, audio and video. */
  const MediaFile: seq<string> := [
    "*.jpg",
    "*.jpeg",
    "*.png",
    "*.gif",
    "*.bmp",
    "*.ico",
    "*.webp",
    "*.tiff",
    "*.tif",
    "*.raw",
    "*.heic",
    "*.avif",
    "*.eps",
    "*.psd",
    "*.ttf",
    "*.otf",
    "*.woff",
    "*.woff2",
    "*.eot",
    "*.3gp",
    "*.aac",
    "*.aiff",
    "*.asf",
    "*.avi",
    "*.divx",
    "*.flac",
    "*.m4a",
    "*.m4v",
    "*.mkv",
    "*.mov",
    "*.mp3",
    "*.mp4",
    "*.mpeg",
    "*.mpg",
    "*.ogg",
    "*.opus",
    "*.rm",
    "*.rmvb",
    "*.vob",
    "*.wav",
    "*.webm",
    "*.wma",
    "*.wmv"
  ]

  /** Caches, backups, locks and swap files. */
  const CacheFile: seq<string> := [
    "*.DS_Store",
    "*.bak",
    "*.cache",
    "*.crdownload",
    "*.dmp",
    "*.dump",
    "*.eslintcache",
    "*.lock",
    "*.log",
    "*.old",
    "*.part",
    "*.partial",
    "*.pyc",
    "*.pyo",
    "*.stackdump",
    "*.swo",
    "*.swp",
    "*.temp",
    "*.tmp",
    "*.Thumbs.db"
  ]

  /** Environment and deployment configuration. */
  const ConfigFile: seq<string> := [
    "*.env*",
    "*.local",
    "*.development",
    "*.production"
  ]

  /** Archives, binaries and disk images. */
  const LargeDataFile: seq<string> := [
    "*.zip",
    "*.tar",
    "*.gz",
    "*.rar",
    "*.7z",
    "*.iso",
    "*.bin",
    "*.exe",
    "*.dll",
    "*.so",
    "*.dylib",
    "*.dat",
    "*.dmg",
    "*.msi"
  ]

  /** Database and tabular data files. */
  const DatabaseFile: seq<string> := [
    "*.arrow",
    "*.accdb",
    "*.aof",
    "*.avro",
    "*.bak",
    "*.bson",
    "*.csv",
    "*.db",
    "*.dbf",
    "*.dmp",
    "*.frm",
    "*.ibd",
    "*.mdb",
    "*.myd",
    "*.myi",
    "*.orc",
    "*.parquet",
    "*.pdb",
    "*.rdb",
    "*.sql",
    "*.sqlite"
  ]

  /** Geospatial data files. */
  const Geospatial: seq<string> := [
    "*.shp",
    "*.shx",
    "*.dbf",
    "*.prj",
    "*.sbn",
    "*.sbx",
    "*.shp.xml",
    "*.cpg",
    "*.gdb",
    "*.mdb",
    "*.gpkg",
    "*.kml",
    "*.kmz",
    "*.gml",
    "*.geojson",
    "*.dem",
    "*.asc",
    "*.img",
    "*.ecw",
    "*.las",
    "*.laz",
    "*.mxd",
    "*.qgs",
    "*.grd",
    "*.csv",
    "*.dwg",
    "*.dxf"
  ]

  /** Log files. */
  const LogFile: seq<string> := [
    "*.error",
    "*.log",
    "*.logs",
    "*.npm-debug.log*",
    "*.out",
    "*.stdout",
    "yarn-debug.log*",
    "yarn-error.log*"
  ]

  /** The base exclusion list: the .git directory, then every category in
      order. */
  const Base: seq<string> :=
    [".git/"] + Artifact + MediaFile + CacheFile + ConfigFile + LargeDataFile
    + DatabaseFile + Geospatial + LogFile

  // ---------------------------------------------------------------------
  // get_lfs_patterns
  // ---------------------------------------------------------------------

  const LfsMarker: string := "filter=lfs"

  /** line.split(" ")[0].strip(): the text before the first space, without
      surrounding whitespace. */
  function FirstField(line: string): string {
    Strip(Split(line, ' ')[0])
  }

  lemma StripKeepsOut(s: string, c: char)
    requires c !in s
    ensures c !in Strip(s)
  {
    var l := TrimLeft(s);
    assert forall k :: 0 <= k < |l| ==> l[k] in s;
    assert forall k :: 0 <= k < |Strip(s)| ==> Strip(s)[k] in l;
  }

  /** A pattern read from a line holds no space and has nothing left to
      strip. */
  lemma FirstFieldClean(line: string)
    ensures ' ' !in FirstField(line)
    ensures Strip(FirstField(line)) == FirstField(line)
  {
    StripKeepsOut(Split(line, ' ')[0], ' ');
    StripIdempotent(Split(line, ' ')[0]);
  }

  /** A .gitattributes line "<pattern> <attributes...>" gives its pattern
      back. */
  lemma FirstFieldOf(pattern: string, attributes: string)
    requires ' ' !in pattern
    ensures FirstField(pattern + " " + attributes) == Strip(pattern)
  {
    SplitAround(pattern, attributes, ' ');
    SplitNoSep(pattern, ' ');
  }

  /** The patterns of the lines that mention filter=lfs, in line order. */
  function LfsOf(lines: seq<string>): seq<string> {
    if |lines| == 0 then []
    else
      var last := lines[|lines| - 1];
      LfsOf(lines[..|lines| - 1]) + (if Contains(last, LfsMarker) then [FirstField(last)] else [])
  }

  /** Every pattern returned comes from a line that mentions filter=lfs. */
  lemma {:induction false} LfsOfSound(lines: seq<string>, k: nat)
    requires k < |LfsOf(lines)|
    ensures exists j :: 0 <= j < |lines| && Contains(lines[j], LfsMarker) && LfsOf(lines)[k] == FirstField(lines[j])
  {
    var n := |lines| - 1;
    var prev := LfsOf(lines[..n]);
    if k < |prev| {
      LfsOfSound(lines[..n], k);
      var j :| 0 <= j < n && Contains(lines[..n][j], LfsMarker) && prev[k] == FirstField(lines[..n][j]);
      assert lines[..n][j] == lines[j];
    } else {
      assert LfsOf(lines)[k] == FirstField(lines[n]);
    }
  }

  /** Every line that mentions filter=lfs contributes its pattern. */
  lemma {:induction false} LfsOfComplete(lines: seq<string>, j: nat)
    requires j < |lines| && Contains(lines[j], LfsMarker)
    ensures FirstField(lines[j]) in LfsOf(lines)
  {
    var n := |lines| - 1;
    if j < n {
      LfsOfComplete(lines[..n], j);
      assert lines[..n][j] == lines[j];
    }
  }

  /** get_lfs_patterns with the text of .gitattributes as input: None when
      the file is missing or cannot be read, which gives no patterns. */
  function LfsPatterns(attributes: Option<string>): seq<string> {
    if attributes.None? then [] else LfsOf(Split(attributes.value, '\n'))
  }

  /** get_lfs_patterns as the loop it runs over the lines. */
  method GetLfsPatterns(attributes: Option<string>) returns (patterns: seq<string>)
    ensures patterns == LfsPatterns(attributes)
  {
    patterns := [];
    if attributes.None? {
      return;
    }
    var lines := Split(attributes.value, '\n');
    var i := 0;
    while i < |lines|
      invariant 0 <= i <= |lines|
      invariant patterns == LfsOf(lines[..i])
    {
      assert lines[..i + 1][..i] == lines[..i];
      if Contains(lines[i], LfsMarker) {
        patterns := patterns + [FirstField(lines[i])];
      }
      i := i + 1;
    }
    assert lines[..|lines|] == lines;
  }

  /** get_exclude_patterns: the base list, then the LFS patterns. */
  function ExcludePatterns(attributes: Option<string>): seq<string> {
    Base + LfsPatterns(attributes)
  }

  /** The base list is copied, never changed: every call starts with the
      same base patterns, whatever the attributes, and adds exactly the
      LFS patterns. */
  lemma ExcludePatternsHas(attributes: Option<string>, p: string)
    ensures ExcludePatterns(attributes)[..|Base|] == Base
    ensures p in ExcludePatterns(attributes) <==> p in Base || p in LfsPatterns(attributes)
  {
  }
}

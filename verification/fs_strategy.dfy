/**
 * The filesystem input source: which files under the configured roots are
 * scanned, in which order, and which of them are read.
 *
 * Directory traversal (`WalkDir`), glob matching (`glob::Pattern`) and the
 * `std::fs` queries are not part of this model; they enter as the function
 * values of a `FileSystem` and a `Glob`.
 */
module FsStrategy {
  import opened Wrappers
  import opened Text
  import opened Paths
  import opened Config

  /** How a file's content is scanned. */
  datatype ContentFormat = Markdown | Json | Yaml

  /** A file's content, ready for a scanner. */
  datatype ValidationItem = ValidationItem(content: string)

  /** Directory names whose whole subtree is never entered. */
  const SKIP_DIRS: seq<string> := ["target", "node_modules", ".git", "vendor", ".gts-spec"]

  /** Path suffixes of files never scanned; the list is empty. */
  const SKIP_FILES: seq<string> := []

  /** The extensions `find_files` accepts. */
  const SUPPORTED_EXTENSIONS: seq<string> := ["md", "json", "yaml", "yml"]

  // ---------------------------------------------------------------------------
  // The environment
  // ---------------------------------------------------------------------------

  /** One entry of a directory walk: its path and whether it is a directory. */
  datatype DirEntry = DirEntry(path: FsPath, isDir: bool)

  /** What a directory walk sees: an entry with the subtrees below it, or an entry it could not read. */
  datatype DirTree = Node(entry: DirEntry, children: seq<DirTree>) | WalkError

  /**
   * The filesystem as the source queries it: existence and kind of a path
   * (symbolic links followed), the tree `WalkDir` walks from a root with or
   * without following links, a file's size when its metadata is readable,
   * and its contents when they are readable as UTF-8.
   */
  datatype FileSystem = FileSystem(
    pathExists: FsPath -> bool,
    isFile: FsPath -> bool,
    isDir: FsPath -> bool,
    walk: (FsPath, bool) -> DirTree,
    size: FsPath -> Option<u64>,
    read: FsPath -> Option<string>)

  /** Glob patterns of type `P`: compiling a pattern string, and matching a string against a pattern. */
  datatype Glob<!P> = Glob(compile: string -> Option<P>, matches: (P, string) -> bool)

  // ---------------------------------------------------------------------------
  // The per-path predicates
  // ---------------------------------------------------------------------------

  /** The format an extension selects, compared case-sensitively. */
  function FormatOfExtension(ext: string): Option<ContentFormat> {
    if ext == "md" then Some(Markdown)
    else if ext == "json" then Some(Json)
    else if ext == "yaml" || ext == "yml" then Some(Yaml)
    else None
  }

  /** `content_format_for`: the format a file is scanned as, by its (case-sensitive) extension. */
  function ContentFormatFor(p: FsPath): (r: Option<ContentFormat>)
    ensures r.Some? ==> Extension(p).Some?
  {
    match Extension(p)
    case None => None
    case Some(ext) => FormatOfExtension(ext)
  }

  /** `matches_file_pattern`: the extension is one of the supported ones. */
  predicate MatchesFilePattern(p: FsPath) {
    Extension(p).Some? && Extension(p).value in SUPPORTED_EXTENSIONS
  }

  /** The file filter and the format table agree: a file is selected exactly when it has a format. */
  lemma {:induction false} FilePatternIffFormat(p: FsPath)
    ensures MatchesFilePattern(p) <==> ContentFormatFor(p).Some?
  {
  }

  /** The format table, stated through the extension alone. */
  lemma {:induction false} FormatByExtension(p: FsPath)
    ensures ContentFormatFor(p) == Some(Markdown) <==> Extension(p) == Some("md")
    ensures ContentFormatFor(p) == Some(Json) <==> Extension(p) == Some("json")
    ensures ContentFormatFor(p) == Some(Yaml) <==> Extension(p) == Some("yaml") || Extension(p) == Some("yml")
  {
  }

  /** The name `WalkDir` reports for an entry: the last path component, or the whole path when there is none. */
  function EntryName(e: DirEntry): string {
    match FileName(e.path)
    case Some(name) => name
    case None => e.path.text
  }

  /** `is_not_skip_dir`: everything but a directory named in `SKIP_DIRS` is kept. */
  predicate IsNotSkipDir(e: DirEntry) {
    !(e.isDir && EntryName(e) in SKIP_DIRS)
  }

  /**
   * `matches_exclude`: some compiled pattern matches the full path text or
   * the path's file name.
   */
  function MatchesExclude<P>(p: FsPath, patterns: seq<P>, glob: Glob<P>): (r: bool)
    ensures r <==> (exists k :: 0 <= k < |patterns| &&
                     (glob.matches(patterns[k], p.text) || (FileName(p).Some? && glob.matches(patterns[k], FileName(p).value))))
  {
    if |patterns| == 0 then false
    else
      var pat := patterns[0];
      if glob.matches(pat, p.text) || (FileName(p).Some? && glob.matches(pat, FileName(p).value)) then true
      else
        var r := MatchesExclude(p, patterns[1..], glob);
        assert forall k :: 1 <= k < |patterns| ==> patterns[k] == patterns[1..][k - 1];
        r
  }

  /** The exclude strings that compile, compiled, in order; the others are dropped. */
  function CompilePatterns<P>(exclude: seq<string>, glob: Glob<P>): (patterns: seq<P>)
    ensures |patterns| <= |exclude|
    ensures forall k :: 0 <= k < |patterns| ==> exists j :: 0 <= j < |exclude| && glob.compile(exclude[j]) == Some(patterns[k])
    ensures forall j :: 0 <= j < |exclude| && glob.compile(exclude[j]).Some? ==> glob.compile(exclude[j]).value in patterns
  {
    if |exclude| == 0 then []
    else
      var init := CompilePatterns(exclude[..|exclude| - 1], glob);
      assert forall j :: 0 <= j < |exclude| - 1 ==> exclude[..|exclude| - 1][j] == exclude[j];
      match glob.compile(exclude[|exclude| - 1])
      case None => init
      case Some(pat) => init + [pat]
  }

  /** A file `find_files` may return: supported extension, no exclude pattern matching. */
  predicate Eligible<P>(p: FsPath, patterns: seq<P>, glob: Glob<P>) {
    MatchesFilePattern(p) && !MatchesExclude(p, patterns, glob)
  }

  /** Whether the path text ends with one of `suffixes`. */
  predicate EndsWithAny(text: string, suffixes: seq<string>) {
    exists k :: 0 <= k < |suffixes| && EndsWith(text, suffixes[k])
  }

  // ---------------------------------------------------------------------------
  // Discovery
  // ---------------------------------------------------------------------------

  /**
   * The entries a walk yields, parents before children: an unreadable entry
   * yields nothing, and a skipped directory yields neither itself nor
   * anything below it.
   */
  function WalkEntries(t: DirTree): seq<DirEntry>
    decreases t, 1
  {
    match t
    case WalkError => []
    case Node(e, children) => if IsNotSkipDir(e) then [e] + WalkForest(children) else []
  }

  function WalkForest(ts: seq<DirTree>): seq<DirEntry>
    decreases ts, 0
  {
    if |ts| == 0 then [] else WalkEntries(ts[0]) + WalkForest(ts[1..])
  }

  /** No entry of a skipped directory is ever yielded by a walk, the directory itself included. */
  lemma {:induction false} WalkSkipsSkipDirs(t: DirTree)
    ensures forall k :: 0 <= k < |WalkEntries(t)| ==> IsNotSkipDir(WalkEntries(t)[k])
    decreases t, 1
  {
    match t
    case WalkError =>
    case Node(e, children) =>
      if IsNotSkipDir(e) {
        ForestSkipsSkipDirs(children);
      }
  }

  lemma {:induction false} ForestSkipsSkipDirs(ts: seq<DirTree>)
    ensures forall k :: 0 <= k < |WalkForest(ts)| ==> IsNotSkipDir(WalkForest(ts)[k])
    decreases ts, 0
  {
    if |ts| > 0 {
      WalkSkipsSkipDirs(ts[0]);
      ForestSkipsSkipDirs(ts[1..]);
    }
  }

  /** The walked entries that are files, eligible, and not on the `SKIP_FILES` list. */
  function FilterEntries<P>(es: seq<DirEntry>, fs: FileSystem, patterns: seq<P>, glob: Glob<P>): seq<FsPath> {
    if |es| == 0 then []
    else
      var init := FilterEntries(es[..|es| - 1], fs, patterns, glob);
      var p := es[|es| - 1].path;
      if !fs.isFile(p) || !MatchesFilePattern(p) || MatchesExclude(p, patterns, glob) || EndsWithAny(p.text, SKIP_FILES) then init
      else init + [p]
  }

  /** Some walked entry has the path. */
  predicate Walked(es: seq<DirEntry>, p: FsPath) {
    exists k :: 0 <= k < |es| && es[k].path == p
  }

  /** One more entry: the path was walked before, or is the new entry's. */
  lemma {:induction false} WalkedSnoc(es: seq<DirEntry>, p: FsPath)
    requires |es| > 0
    ensures Walked(es, p) <==> Walked(es[..|es| - 1], p) || es[|es| - 1].path == p
  {
    var init := es[..|es| - 1];
    if Walked(es, p) {
      var k :| 0 <= k < |es| && es[k].path == p;
      if k < |es| - 1 {
        assert init[k].path == p;
      }
    }
    if Walked(init, p) {
      var k :| 0 <= k < |init| && init[k].path == p;
      assert es[k].path == p;
    }
  }

  /**
   * The `SKIP_FILES` check never removes a file: a path survives the filter
   * exactly when some walked entry has it, it is a file, and it is eligible.
   */
  lemma {:induction false} FilterEntriesMembers<P>(es: seq<DirEntry>, fs: FileSystem, patterns: seq<P>, glob: Glob<P>, p: FsPath)
    ensures p in FilterEntries(es, fs, patterns, glob) <==> Walked(es, p) && fs.isFile(p) && Eligible(p, patterns, glob)
    decreases |es|
  {
    if |es| > 0 {
      FilterEntriesMembers(es[..|es| - 1], fs, patterns, glob, p);
      WalkedSnoc(es, p);
      assert !EndsWithAny(es[|es| - 1].path.text, SKIP_FILES);
    }
  }


  /** The files one configured path contributes, before sorting. */
  function RootCandidates<P>(root: FsPath, fs: FileSystem, patterns: seq<P>, glob: Glob<P>, followLinks: bool): seq<FsPath> {
    if fs.isFile(root) then
      if Eligible(root, patterns, glob) then [root] else []
    else if fs.isDir(root) then
      FilterEntries(WalkEntries(fs.walk(root, followLinks)), fs, patterns, glob)
    else []
  }

  /** Every configured path's files, in configuration order. */
  function Candidates<P>(roots: seq<FsPath>, fs: FileSystem, patterns: seq<P>, glob: Glob<P>, followLinks: bool): seq<FsPath> {
    if |roots| == 0 then []
    else
      Candidates(roots[..|roots| - 1], fs, patterns, glob, followLinks)
      + RootCandidates(roots[|roots| - 1], fs, patterns, glob, followLinks)
  }

  /** Every candidate is eligible, whichever root it came from. */
  lemma {:induction false} CandidatesEligible<P>(roots: seq<FsPath>, fs: FileSystem, patterns: seq<P>, glob: Glob<P>, followLinks: bool)
    ensures forall k :: 0 <= k < |Candidates(roots, fs, patterns, glob, followLinks)| ==>
      Eligible(Candidates(roots, fs, patterns, glob, followLinks)[k], patterns, glob)
  {
    if |roots| > 0 {
      CandidatesEligible(roots[..|roots| - 1], fs, patterns, glob, followLinks);
      var root := roots[|roots| - 1];
      if !fs.isFile(root) && fs.isDir(root) {
        var es := WalkEntries(fs.walk(root, followLinks));
        forall p | p in FilterEntries(es, fs, patterns, glob)
          ensures Eligible(p, patterns, glob)
        {
          FilterEntriesMembers(es, fs, patterns, glob, p);
        }
      }
    }
  }

  // ---------------------------------------------------------------------------
  // Sorting and deduplication
  // ---------------------------------------------------------------------------

  /** Strictly increasing in `PathBuf` order, hence free of equal paths. */
  predicate Sorted(ps: seq<FsPath>) {
    forall i, j :: 0 <= i < j < |ps| ==> PathLess(ps[i], ps[j])
  }

  /** `p` placed in order; when an equal path is already present, `p` is dropped. */
  function Insert(xs: seq<FsPath>, p: FsPath): seq<FsPath> {
    if |xs| == 0 then [p]
    else if PathLess(p, xs[0]) then [p] + xs
    else if SamePath(p, xs[0]) then xs
    else [xs[0]] + Insert(xs[1..], p)
  }

  /**
   * `sort` then `dedup`: the stable sort keeps equal paths in input order and
   * `dedup` keeps the first of each run, so the first occurrence survives.
   */
  function SortDedup(ps: seq<FsPath>): seq<FsPath> {
    if |ps| == 0 then [] else Insert(SortDedup(ps[..|ps| - 1]), ps[|ps| - 1])
  }

  lemma {:induction false} InsertMembers(xs: seq<FsPath>, p: FsPath, x: FsPath)
    requires Sorted(xs)
    ensures x in Insert(xs, p) <==> x in xs || (x == p && forall k :: 0 <= k < |xs| ==> !SamePath(xs[k], p))
    decreases |xs|
  {
    if |xs| > 0 {
      if PathLess(p, xs[0]) {
        forall k | 0 <= k < |xs|
          ensures !SamePath(xs[k], p)
        {
          if k > 0 {
            PathOrder(p, xs[0], xs[k]);
          }
          PathOrder(p, xs[k], xs[k]);
        }
      } else if !SamePath(p, xs[0]) {
        InsertMembers(xs[1..], p, x);
        assert xs == [xs[0]] + xs[1..];
      }
    }
  }

  /** A path below every element of a sorted list can head it. */
  lemma {:induction false} SortedCons(x: FsPath, r: seq<FsPath>)
    requires Sorted(r)
    requires forall k :: 0 <= k < |r| ==> PathLess(x, r[k])
    ensures Sorted([x] + r)
  {
    forall i, j | 0 <= i < j < |[x] + r|
      ensures PathLess(([x] + r)[i], ([x] + r)[j])
    {
      assert ([x] + r)[j] == r[j - 1];
      if i > 0 {
        assert ([x] + r)[i] == r[i - 1];
      }
    }
  }

  /** Inserting a path above a bound keeps every element above it. */
  lemma {:induction false} InsertAbove(xs: seq<FsPath>, p: FsPath, lo: FsPath)
    requires forall k :: 0 <= k < |xs| ==> PathLess(lo, xs[k])
    requires PathLess(lo, p)
    ensures forall k :: 0 <= k < |Insert(xs, p)| ==> PathLess(lo, Insert(xs, p)[k])
    decreases |xs|
  {
    if |xs| > 0 && !PathLess(p, xs[0]) && !SamePath(p, xs[0]) {
      var tail := xs[1..];
      assert forall k :: 0 <= k < |tail| ==> tail[k] == xs[k + 1];
      InsertAbove(tail, p, lo);
      var r := Insert(tail, p);
      forall k | 0 <= k < |[xs[0]] + r|
        ensures PathLess(lo, ([xs[0]] + r)[k])
      {
        if k > 0 {
          assert ([xs[0]] + r)[k] == r[k - 1];
        }
      }
    } else if |xs| > 0 && PathLess(p, xs[0]) {
      forall k | 0 <= k < |[p] + xs|
        ensures PathLess(lo, ([p] + xs)[k])
      {
        if k > 0 {
          assert ([p] + xs)[k] == xs[k - 1];
        }
      }
    }
  }

  lemma {:induction false} InsertSorted(xs: seq<FsPath>, p: FsPath)
    requires Sorted(xs)
    ensures Sorted(Insert(xs, p))
    decreases |xs|
  {
    if |xs| > 0 {
      if PathLess(p, xs[0]) {
        forall j | 0 <= j < |xs|
          ensures PathLess(p, xs[j])
        {
          if j > 0 {
            PathOrder(p, xs[0], xs[j]);
          }
        }
        SortedCons(p, xs);
      } else if !SamePath(p, xs[0]) {
        var tail := xs[1..];
        PathOrder(p, xs[0], xs[0]);
        assert PathLess(xs[0], p);
        assert forall k :: 0 <= k < |tail| ==> tail[k] == xs[k + 1];
        InsertSorted(tail, p);
        InsertAbove(tail, p, xs[0]);
        SortedCons(xs[0], Insert(tail, p));
      }
    }
  }

  lemma {:induction false} SortDedupSorted(ps: seq<FsPath>)
    ensures Sorted(SortDedup(ps))
    decreases |ps|
  {
    if |ps| > 0 {
      SortDedupSorted(ps[..|ps| - 1]);
      InsertSorted(SortDedup(ps[..|ps| - 1]), ps[|ps| - 1]);
    }
  }

  lemma {:induction false} SortDedupFromInput(ps: seq<FsPath>, x: FsPath)
    requires x in SortDedup(ps)
    ensures x in ps
    decreases |ps|
  {
    var init := ps[..|ps| - 1];
    var last := ps[|ps| - 1];
    SortDedupSorted(init);
    InsertMembers(SortDedup(init), last, x);
    if x != last {
      SortDedupFromInput(init, x);
      assert ps == init + [last];
    }
  }

  lemma {:induction false} SortDedupCovers(ps: seq<FsPath>, k: nat)
    requires k < |ps|
    ensures exists x :: x in SortDedup(ps) && SamePath(x, ps[k])
    decreases |ps|
  {
    var init := ps[..|ps| - 1];
    var last := ps[|ps| - 1];
    var xs := SortDedup(init);
    SortDedupSorted(init);
    assert SortDedup(ps) == Insert(xs, last);
    if k < |ps| - 1 {
      SortDedupCovers(init, k);
      var x :| x in xs && SamePath(x, init[k]);
      InsertMembers(xs, last, x);
      assert x in SortDedup(ps) && SamePath(x, ps[k]);
    } else if forall j :: 0 <= j < |xs| ==> !SamePath(xs[j], last) {
      InsertMembers(xs, last, last);
      PathOrder(last, last, last);
      assert last in SortDedup(ps) && SamePath(last, ps[k]);
    } else {
      var j :| 0 <= j < |xs| && SamePath(xs[j], last);
      InsertMembers(xs, last, xs[j]);
      assert xs[j] in SortDedup(ps) && SamePath(xs[j], ps[k]);
    }
  }

  /** A sorted sequence holds no two equal paths. */
  lemma {:induction false} SortedNoDuplicates(ps: seq<FsPath>)
    requires Sorted(ps)
    ensures forall i, j :: 0 <= i < j < |ps| ==> !SamePath(ps[i], ps[j])
  {
    forall i, j | 0 <= i < j < |ps|
      ensures !SamePath(ps[i], ps[j])
    {
      PathOrder(ps[i], ps[j], ps[j]);
    }
  }

  /** `find_files`: the eligible files under the configured roots, sorted and deduplicated. */
  function FindFiles<P>(config: FsSourceConfig, fs: FileSystem, glob: Glob<P>): seq<FsPath> {
    var patterns := CompilePatterns(config.exclude, glob);
    SortDedup(Candidates(config.paths, fs, patterns, glob, config.followLinks))
  }

  /** What `find_files` returns is sorted, and so holds no two equal paths. */
  lemma {:induction false} FindFilesSorted<P>(config: FsSourceConfig, fs: FileSystem, glob: Glob<P>)
    ensures Sorted(FindFiles(config, fs, glob))
    ensures forall i, j :: 0 <= i < j < |FindFiles(config, fs, glob)| ==> !SamePath(FindFiles(config, fs, glob)[i], FindFiles(config, fs, glob)[j])
  {
    var cs := Candidates(config.paths, fs, CompilePatterns(config.exclude, glob), glob, config.followLinks);
    SortDedupSorted(cs);
    SortedNoDuplicates(SortDedup(cs));
  }

  /** Every file `find_files` returns was discovered under a configured path and is eligible. */
  lemma {:induction false} FindFilesEligible<P>(config: FsSourceConfig, fs: FileSystem, glob: Glob<P>, x: FsPath)
    requires x in FindFiles(config, fs, glob)
    ensures x in Candidates(config.paths, fs, CompilePatterns(config.exclude, glob), glob, config.followLinks)
    ensures Eligible(x, CompilePatterns(config.exclude, glob), glob)
  {
    var patterns := CompilePatterns(config.exclude, glob);
    var cs := Candidates(config.paths, fs, patterns, glob, config.followLinks);
    SortDedupFromInput(cs, x);
    CandidatesEligible(config.paths, fs, patterns, glob, config.followLinks);
    var k :| 0 <= k < |cs| && cs[k] == x;
  }

  /** Every discovered file is represented in what `find_files` returns. */
  lemma {:induction false} FindFilesCovers<P>(config: FsSourceConfig, fs: FileSystem, glob: Glob<P>, x: FsPath)
    requires x in Candidates(config.paths, fs, CompilePatterns(config.exclude, glob), glob, config.followLinks)
    ensures exists y :: y in FindFiles(config, fs, glob) && SamePath(x, y)
  {
    var cs := Candidates(config.paths, fs, CompilePatterns(config.exclude, glob), glob, config.followLinks);
    var k :| 0 <= k < |cs| && cs[k] == x;
    SortDedupCovers(cs, k);
    var y :| y in SortDedup(cs) && SamePath(y, cs[k]);
    assert SamePath(x, y);
  }

  // ---------------------------------------------------------------------------
  // Reading
  // ---------------------------------------------------------------------------

  /**
   * `read_validation_item`: a file larger than the limit is skipped (a file
   * whose size cannot be read is not), then a file without a format, then a
   * file that cannot be read as text.
   */
  function ReadValidationItem(fs: FileSystem, p: FsPath, maxFileSize: u64): (r: Option<ValidationItem>)
    ensures r.Some? <==>
      (fs.size(p).None? || fs.size(p).value <= maxFileSize) && ContentFormatFor(p).Some? && fs.read(p).Some?
    ensures r.Some? ==> r.value.content == fs.read(p).value
  {
    if fs.size(p).Some? && fs.size(p).value > maxFileSize then None
    else if ContentFormatFor(p).None? then None
    else
      match fs.read(p)
      case None => None
      case Some(content) => Some(ValidationItem(content))
  }

  /** The limit is inclusive: a readable file of exactly the limit's size is read. */
  lemma {:induction false} SizeAtLimitIsRead(fs: FileSystem, p: FsPath, maxFileSize: u64)
    requires fs.size(p) == Some(maxFileSize)
    requires MatchesFilePattern(p) && fs.read(p).Some?
    ensures ReadValidationItem(fs, p, maxFileSize) == Some(ValidationItem(fs.read(p).value))
  {
    FilePatternIffFormat(p);
  }

  /** Every file `find_files` returns passes the format step of the read gate. */
  lemma {:induction false} FoundFilesHaveFormat<P>(config: FsSourceConfig, fs: FileSystem, glob: Glob<P>, p: FsPath)
    requires p in FindFiles(config, fs, glob)
    ensures ContentFormatFor(p).Some?
  {
    FindFilesEligible(config, fs, glob, p);
    FilePatternIffFormat(p);
  }

  // ---------------------------------------------------------------------------
  // Examples
  // ---------------------------------------------------------------------------

  /** A bare file name is its own single component. */
  lemma {:induction false} BareFileName(name: string)
    requires ProperName(name)
    ensures FileName(FsPath(name)) == Some(name)
  {
    assert IndexOf(name, '/') == |name|;
    assert Split(name, '/') == [name];
    assert NormalComponents([name]) == [Normal(name)];
  }

  /** The extension of `stem.ext` is `ext` when `ext` has no dot and `stem` is not empty. */
  lemma {:induction false} ExtensionOfBareName(stem: string, ext: string)
    requires ProperName(stem + "." + ext) && |stem| > 0 && '.' !in ext
    ensures Extension(FsPath(stem + "." + ext)) == Some(ext)
  {
    var name := stem + "." + ext;
    BareFileName(name);
    assert name[|stem|] == '.';
    assert name[|stem| + 1..] == ext;
  }

  lemma {:induction false} ExtensionAfterStem(stem: string, ext: string)
    requires |stem| > 0 && |ext| > 0 && '/' !in stem && '/' !in ext && '.' !in ext
    ensures Extension(FsPath(stem + "." + ext)) == Some(ext)
  {
    var name := stem + "." + ext;
    assert |name| > 2;
    assert name[..|stem|] == stem && name[|stem|] == '.' && name[|stem| + 1..] == ext;
    assert '/' !in name;
    ExtensionOfBareName(stem, ext);
  }

  /** A `stem.ext` name is scanned in the format its extension selects. */
  lemma {:induction false} FormatOfStemExt(stem: string, ext: string)
    requires |stem| > 0 && |ext| > 0 && '/' !in stem && '/' !in ext && '.' !in ext
    ensures ContentFormatFor(FsPath(stem + "." + ext)) == FormatOfExtension(ext)
  {
    ExtensionAfterStem(stem, ext);
  }

  /** A bare `.md` file name is Markdown. */
  lemma {:induction false} MarkdownBareName(stem: string)
    requires |stem| > 0 && '/' !in stem
    ensures ContentFormatFor(FsPath(stem + "." + "md")) == Some(Markdown)
  {
    FormatOfStemExt(stem, "md");
  }

  /** A bare `.json` file name is JSON. */
  lemma {:induction false} JsonBareName(stem: string)
    requires |stem| > 0 && '/' !in stem
    ensures ContentFormatFor(FsPath(stem + "." + "json")) == Some(Json)
  {
    FormatOfStemExt(stem, "json");
  }

  /** Bare `.yaml` and `.yml` file names are YAML. */
  lemma {:induction false} YamlBareNames(stem: string)
    requires |stem| > 0 && '/' !in stem
    ensures ContentFormatFor(FsPath(stem + "." + "yaml")) == Some(Yaml)
    ensures ContentFormatFor(FsPath(stem + "." + "yml")) == Some(Yaml)
  {
    FormatOfStemExt(stem, "yaml");
    FormatOfStemExt(stem, "yml");
  }

  /** Extensions are compared case-sensitively: `.YAML` selects nothing. */
  lemma {:induction false} UppercaseYamlUnsupported(stem: string)
    requires |stem| > 0 && '/' !in stem
    ensures ContentFormatFor(FsPath(stem + "." + "YAML")).None?
  {
    FormatOfStemExt(stem, "YAML");
    assert "YAML"[0] != "json"[0] && "YAML"[0] != "yaml"[0];
  }

  /** Any other extension selects nothing. */
  lemma {:induction false} TextFileUnsupported(stem: string)
    requires |stem| > 0 && '/' !in stem
    ensures ContentFormatFor(FsPath(stem + "." + "txt")).None?
  {
    FormatOfStemExt(stem, "txt");
    assert "txt"[0] != "yml"[0];
  }

  /** A directory named in `SKIP_DIRS` is pruned; a plain file of the same name is kept. */
  lemma {:induction false} SkipDirNames(k: nat)
    requires k < |SKIP_DIRS|
    ensures !IsNotSkipDir(DirEntry(FsPath(SKIP_DIRS[k]), true))
    ensures IsNotSkipDir(DirEntry(FsPath(SKIP_DIRS[k]), false))
  {
    assert ProperName(SKIP_DIRS[k]);
    BareFileName(SKIP_DIRS[k]);
  }

  /** A name whose only dot is the leading one has no extension. */
  lemma {:induction false} HiddenFileExample()
    ensures ContentFormatFor(FsPath(".md")).None?
  {
  }
}

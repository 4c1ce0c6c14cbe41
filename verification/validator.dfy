/**
 * `validate_fs`: checks the configured roots, discovers the files, scans
 * each readable one with the scanner of its format, and folds the results
 * into a report.
 *
 * The Markdown and JSON scanners and the identifier checks behind the
 * walker are not part of this model; they enter as function values.
 */
module Validator {
  import opened Wrappers
  import opened Paths
  import opened Config
  import opened Report
  import opened Yaml
  import opened FsStrategy

  /**
   * The scanners `validate_fs` dispatches to: `scan_markdown_content(content,
   * file, vendor, strict, skip_tokens)`, `scan_json_content(content, file,
   * vendor, scan_keys)`, and the YAML parser and tree walker that
   * `scan_yaml_content` uses.
   */
  datatype Scanners<!V, E> = Scanners(
    markdown: (string, FsPath, Option<string>, bool, seq<string>) -> seq<E>,
    json: (string, FsPath, Option<string>, bool) -> seq<E>,
    yamlParser: YamlParser<V>,
    walk: Walker<V, E>)

  /** Why `validate_fs` refuses to run. */
  datatype ValidateError = NoPaths | PathDoesNotExist(path: FsPath)

  /** The position of the first configured root that does not exist, if any. */
  function FirstMissing(paths: seq<FsPath>, fs: FileSystem): (r: Option<nat>)
    ensures r.None? <==> forall k :: 0 <= k < |paths| ==> fs.pathExists(paths[k])
    ensures r.Some? ==> r.value < |paths| && !fs.pathExists(paths[r.value])
    ensures r.Some? ==> forall k :: 0 <= k < r.value ==> fs.pathExists(paths[k])
  {
    if |paths| == 0 then None
    else if !fs.pathExists(paths[0]) then Some(0)
    else
      match FirstMissing(paths[1..], fs)
      case None => None
      case Some(i) => Some(i + 1)
  }

  /** The scanner call for one file of a known format, with the options that format takes. */
  function Dispatch<V, E>(format: ContentFormat, content: string, file: FsPath, config: ValidationConfig, scanners: Scanners<V, E>): seq<E> {
    match format
    case Markdown => scanners.markdown(content, file, config.vendor, config.strict, config.skipTokens)
    case Json => scanners.json(content, file, config.vendor, config.scanKeys)
    case Yaml => ScanYamlContent(content, file, config.vendor, config.scanKeys, scanners.yamlParser, scanners.walk)
  }

  /** One iteration of the file loop: the file's errors, or `None` when the file is skipped. */
  function FileErrors<V, E>(file: FsPath, fs: FileSystem, maxFileSize: u64, config: ValidationConfig, scanners: Scanners<V, E>): Option<seq<E>> {
    match ReadValidationItem(fs, file, maxFileSize)
    case None => None
    case Some(item) =>
      match ContentFormatFor(file)
      case None => None
      case Some(format) => Some(Dispatch(format, item.content, file, config, scanners))
  }

  /** The running state of the file loop. */
  datatype Tally<E> = Tally(scanned: nat, errors: seq<E>)

  /** One file's outcome added to the running state: a skipped file leaves it alone. */
  function Step<E>(t: Tally<E>, outcome: Option<seq<E>>): Tally<E> {
    match outcome
    case None => t
    case Some(es) => Tally(t.scanned + 1, t.errors + es)
  }

  /** The file loop over `files`, in order. */
  function ScanFiles<V, E>(files: seq<FsPath>, fs: FileSystem, maxFileSize: u64, config: ValidationConfig, scanners: Scanners<V, E>): (t: Tally<E>)
    ensures t.scanned <= |files|
  {
    if |files| == 0 then Tally(0, [])
    else
      Step(ScanFiles(files[..|files| - 1], fs, maxFileSize, config, scanners),
           FileErrors(files[|files| - 1], fs, maxFileSize, config, scanners))
  }

  /** `validate_fs`. */
  function ValidateFs<V, E, P>(fsConfig: FsSourceConfig, config: ValidationConfig, fs: FileSystem, glob: Glob<P>, scanners: Scanners<V, E>): (r: Result<ValidationReport<E>, ValidateError>)
    ensures r == Failure(NoPaths) <==> |fsConfig.paths| == 0
    ensures r.Success? <==> |fsConfig.paths| > 0 && forall k :: 0 <= k < |fsConfig.paths| ==> fs.pathExists(fsConfig.paths[k])
    ensures r.Failure? && r.error.PathDoesNotExist? ==> r.error.path in fsConfig.paths && !fs.pathExists(r.error.path)
    ensures r.Failure? && r.error.PathDoesNotExist? ==>
      exists i :: 0 <= i < |fsConfig.paths| && fsConfig.paths[i] == r.error.path && !fs.pathExists(fsConfig.paths[i])
        && forall k :: 0 <= k < i ==> fs.pathExists(fsConfig.paths[k])
    ensures r.Success? ==> Consistent(r.value) && r.value.filesScanned <= |FindFiles(fsConfig, fs, glob)|
  {
    if |fsConfig.paths| == 0 then Failure(NoPaths)
    else
      match FirstMissing(fsConfig.paths, fs)
      case Some(i) => Failure(PathDoesNotExist(fsConfig.paths[i]))
      case None =>
        var files := FindFiles(fsConfig, fs, glob);
        if |files| == 0 then Success(ValidationReport(0, 0, true, []))
        else
          var t := ScanFiles(files, fs, fsConfig.maxFileSize, config, scanners);
          Success(BuildReport(t.scanned, t.errors))
  }

  /**
   * The loop of `validate_fs` as written: skip what does not read, count
   * and extend with what does.
   */
  method RunFileLoop<V, E>(files: seq<FsPath>, fs: FileSystem, maxFileSize: u64, config: ValidationConfig, scanners: Scanners<V, E>)
    returns (filesScanned: nat, errors: seq<E>)
    ensures Tally(filesScanned, errors) == ScanFiles(files, fs, maxFileSize, config, scanners)
  {
    filesScanned := 0;
    errors := [];
    var i := 0;
    while i < |files|
      invariant i <= |files|
      invariant Tally(filesScanned, errors) == ScanFiles(files[..i], fs, maxFileSize, config, scanners)
    {
      var file := files[i];
      assert files[..i + 1][..i] == files[..i];
      var item := ReadValidationItem(fs, file, maxFileSize);
      if item.Some? {
        var format := ContentFormatFor(file);
        if format.Some? {
          var fileErrors := Dispatch(format.value, item.value.content, file, config, scanners);
          filesScanned := filesScanned + 1;
          errors := errors + fileErrors;
        }
      }
      i := i + 1;
    }
    assert files[..i] == files;
  }

  // ---------------------------------------------------------------------------
  // Properties
  // ---------------------------------------------------------------------------

  /** Two runs of the loop, one after the other. */
  function Combine<E>(t: Tally<E>, u: Tally<E>): Tally<E> {
    Tally(t.scanned + u.scanned, t.errors + u.errors)
  }

  lemma {:induction false} StepCombine<E>(t: Tally<E>, u: Tally<E>, outcome: Option<seq<E>>)
    ensures Combine(t, Step(u, outcome)) == Step(Combine(t, u), outcome)
  {
    if outcome.Some? {
      assert t.errors + (u.errors + outcome.value) == (t.errors + u.errors) + outcome.value;
    }
  }

  /** The loop is a fold: scanning `a + b` is scanning `a`, then `b`. */
  lemma {:induction false} ScanFilesAppend<V, E>(a: seq<FsPath>, b: seq<FsPath>, fs: FileSystem, maxFileSize: u64, config: ValidationConfig, scanners: Scanners<V, E>)
    ensures ScanFiles(a + b, fs, maxFileSize, config, scanners)
         == Combine(ScanFiles(a, fs, maxFileSize, config, scanners), ScanFiles(b, fs, maxFileSize, config, scanners))
    decreases |b|
  {
    if |b| == 0 {
      assert a + b == a;
    } else {
      var b' := b[..|b| - 1];
      var last := b[|b| - 1];
      assert (a + b)[..|a + b| - 1] == a + b';
      assert (a + b)[|a + b| - 1] == last;
      ScanFilesAppend(a, b', fs, maxFileSize, config, scanners);
      StepCombine(ScanFiles(a, fs, maxFileSize, config, scanners), ScanFiles(b', fs, maxFileSize, config, scanners),
                  FileErrors(last, fs, maxFileSize, config, scanners));
    }
  }

  /** A file the read gate turns away changes neither the count nor the errors. */
  lemma {:induction false} SkippedFileNotCounted<V, E>(files: seq<FsPath>, file: FsPath, fs: FileSystem, maxFileSize: u64, config: ValidationConfig, scanners: Scanners<V, E>)
    requires ReadValidationItem(fs, file, maxFileSize).None?
    ensures ScanFiles(files + [file], fs, maxFileSize, config, scanners) == ScanFiles(files, fs, maxFileSize, config, scanners)
  {
    assert (files + [file])[..|files|] == files;
  }

  /**
   * A readable file is always dispatched: the read gate has already checked
   * the format, so the `None => continue` arm never runs.
   */
  lemma {:induction false} ReadableFileIsScanned<V, E>(file: FsPath, fs: FileSystem, maxFileSize: u64, config: ValidationConfig, scanners: Scanners<V, E>)
    ensures FileErrors(file, fs, maxFileSize, config, scanners).Some? <==> ReadValidationItem(fs, file, maxFileSize).Some?
  {
  }

  /** The number of files the read gate lets through. */
  function ReadableCount(files: seq<FsPath>, fs: FileSystem, maxFileSize: u64): nat {
    if |files| == 0 then 0
    else ReadableCount(files[..|files| - 1], fs, maxFileSize) + (if ReadValidationItem(fs, files[|files| - 1], maxFileSize).Some? then 1 else 0)
  }

  /** `files_scanned` counts exactly the files that were read. */
  lemma {:induction false} ScannedCountsReadable<V, E>(files: seq<FsPath>, fs: FileSystem, maxFileSize: u64, config: ValidationConfig, scanners: Scanners<V, E>)
    ensures ScanFiles(files, fs, maxFileSize, config, scanners).scanned == ReadableCount(files, fs, maxFileSize)
  {
    if |files| > 0 {
      ScannedCountsReadable(files[..|files| - 1], fs, maxFileSize, config, scanners);
      ReadableFileIsScanned(files[|files| - 1], fs, maxFileSize, config, scanners);
    }
  }

  /** Every reported error comes from scanning some read file with the scanner of its format. */
  lemma {:induction false} ScanErrorOrigin<V, E>(files: seq<FsPath>, fs: FileSystem, maxFileSize: u64, config: ValidationConfig, scanners: Scanners<V, E>, e: E)
    requires e in ScanFiles(files, fs, maxFileSize, config, scanners).errors
    ensures exists k :: (0 <= k < |files| && ReadValidationItem(fs, files[k], maxFileSize).Some? && ContentFormatFor(files[k]).Some?
                         && e in Dispatch(ContentFormatFor(files[k]).value, ReadValidationItem(fs, files[k], maxFileSize).value.content, files[k], config, scanners))
  {
    var n := |files|;
    var init := files[..n - 1];
    var t := ScanFiles(init, fs, maxFileSize, config, scanners);
    if e in t.errors {
      ScanErrorOrigin(init, fs, maxFileSize, config, scanners, e);
      var k :| 0 <= k < |init| && ReadValidationItem(fs, init[k], maxFileSize).Some? && ContentFormatFor(init[k]).Some?
        && e in Dispatch(ContentFormatFor(init[k]).value, ReadValidationItem(fs, init[k], maxFileSize).value.content, init[k], config, scanners);
      assert files[k] == init[k];
    } else {
      assert files[n - 1] == files[n - 1];
    }
  }

  /** With no discoverable file the report is empty and passing, whatever the scanners. */
  lemma {:induction false} NoFilesReport<V, E, P>(fsConfig: FsSourceConfig, config: ValidationConfig, fs: FileSystem, glob: Glob<P>, scanners: Scanners<V, E>)
    requires |fsConfig.paths| > 0 && forall k :: 0 <= k < |fsConfig.paths| ==> fs.pathExists(fsConfig.paths[k])
    requires FindFiles(fsConfig, fs, glob) == []
    ensures ValidateFs(fsConfig, config, fs, glob, scanners) == Success(ValidationReport(0, 0, true, []))
  {
  }

  /** The early return for no files gives the report the loop would have given anyway. */
  lemma {:induction false} EarlyReturnAgreesWithLoop<V, E>(fs: FileSystem, maxFileSize: u64, config: ValidationConfig, scanners: Scanners<V, E>)
    ensures BuildReport(ScanFiles([], fs, maxFileSize, config, scanners).scanned, ScanFiles([], fs, maxFileSize, config, scanners).errors)
         == ValidationReport(0, 0, true, [])
  {
  }

  /**
   * The report of a successful run: it scans the files `find_files` returns,
   * counting the ones that read and concatenating their errors in order.
   */
  lemma {:induction false} ReportIsTheFold<V, E, P>(fsConfig: FsSourceConfig, config: ValidationConfig, fs: FileSystem, glob: Glob<P>, scanners: Scanners<V, E>)
    requires ValidateFs(fsConfig, config, fs, glob, scanners).Success?
    ensures ValidateFs(fsConfig, config, fs, glob, scanners).value.filesScanned
         == ReadableCount(FindFiles(fsConfig, fs, glob), fs, fsConfig.maxFileSize)
    ensures ValidateFs(fsConfig, config, fs, glob, scanners).value.errors
         == ScanFiles(FindFiles(fsConfig, fs, glob), fs, fsConfig.maxFileSize, config, scanners).errors
  {
    ScannedCountsReadable(FindFiles(fsConfig, fs, glob), fs, fsConfig.maxFileSize, config, scanners);
  }

  /**
   * Markdown scanning ignores `scan_keys`; JSON and YAML scanning ignore
   * `strict` and `skip_tokens`.
   */
  lemma {:induction false} DispatchIgnores<V, E>(format: ContentFormat, content: string, file: FsPath, c1: ValidationConfig, c2: ValidationConfig, scanners: Scanners<V, E>)
    requires c1.vendor == c2.vendor
    requires format == Markdown ==> c1.strict == c2.strict && c1.skipTokens == c2.skipTokens
    requires format != Markdown ==> c1.scanKeys == c2.scanKeys
    ensures Dispatch(format, content, file, c1, scanners) == Dispatch(format, content, file, c2, scanners)
  {
  }

  /** A default source configuration names no roots, so `validate_fs` refuses it. */
  lemma {:induction false} DefaultSourceConfigRejected<V, E, P>(config: ValidationConfig, fs: FileSystem, glob: Glob<P>, scanners: Scanners<V, E>)
    ensures ValidateFs(DefaultFsSourceConfig(), config, fs, glob, scanners) == Failure(NoPaths)
  {
  }

  /**
   * Under the default validation options a Markdown file is scanned with no
   * vendor, relaxed discovery off and no skip tokens, and a JSON file with no
   * vendor and keys not scanned.
   */
  lemma {:induction false} DefaultValidationOptions<V, E>(content: string, file: FsPath, scanners: Scanners<V, E>)
    ensures Dispatch(Markdown, content, file, DefaultValidationConfig(), scanners) == scanners.markdown(content, file, None, false, [])
    ensures Dispatch(Json, content, file, DefaultValidationConfig(), scanners) == scanners.json(content, file, None, false)
  {
  }

  /** Default source options: no excludes, ten mebibytes, links followed. */
  lemma {:induction false} DefaultSourceOptions()
    ensures DefaultFsSourceConfig().exclude == [] && DefaultFsSourceConfig().followLinks
    ensures DefaultFsSourceConfig().maxFileSize == 10 * 1024 * 1024
  {
  }
}

# gts-rust core, modelled in Dafny

This project models two parts of the gts-rust repository (Global Type System).

**The `gts-validator` library.** Given a file-system source configuration and validation options, `validate_fs` does the following:
- it checks that at least one path was given and that every path exists;
- `find_files` discovers the candidate files (walking directories, skipping `SKIP_DIRS`, keeping supported extensions, dropping excluded paths), then sorts them and removes duplicates;
- `read_validation_item` reads each file behind a size gate and a format gate;
- it dispatches each file to the scanner of its format (Markdown, JSON or YAML);
- it folds the outcomes into a `ValidationReport` (files scanned, error count, `ok`, errors in order).

The YAML scanner is modelled in full. The splitting of lines into runs between `---` lines is stated once for any separator test and then used with the scanner's own test (the line trims to `---`). It first parses the whole stream; if that fails, it splits the text on `---` lines and parses and walks each segment on its own, so one malformed document cannot hide errors in its siblings.

**GTS identifier chains.** These are generated by the `gts_error` and `struct_to_gts_schema` attributes:
- an error type's `gts_id` is `gts://` followed by its base chain and its own `~`-terminated segment;
- `Display` is the title, a colon and the id;
- the `gts_error` attribute is accepted only with `type`, a `status` in 100..599 and `title`, on a struct with named fields or a unit struct;
- `error_metadata` leaves out `skip_metadata` fields, stores an `as_errors` field under `"errors"`, and returns `None` when no field is eligible;
- a schema type keeps its schema id verbatim, its base schema id is its chain minus the last segment, and an instance id is the schema id followed by the instance suffix.

Modules:
- `Wrappers`: `Option` and `Result`.
- `Text`: `str::lines`, `trim`, `split`, `strip_prefix` and `strip_suffix`, with their round trips.
- `Paths`: Unix path components, `file_name`, `extension`, and the component-wise order and equality that `Vec<PathBuf>::sort` and `dedup` use.
- `Config`: `ValidationConfig`, `FsSourceConfig` and their defaults.
- `Report`: `ValidationReport`.
- `Yaml`: `split_yaml_documents`, `scan_yaml_content`.
- `FsStrategy`: `strategy/fs.rs`.
- `Validator`: `validate_fs`.
- `GtsChain`: chains and type URIs.
- `ErrorType`: the `GtsError` contract and the declared error types.
- `SchemaId`: schema ids.

Collaborators whose source is not part of this model enter as function-valued parameters:
- the YAML parser (`serde_saphyr::from_multiple` / `from_str`);
- the JSON tree walker `walk_json_value`;
- the Markdown and JSON scanners;
- the file system: existence, file/directory tests, size, read, and the `WalkDir` traversal as a tree of entries;
- glob `Pattern::new` and `Pattern::matches`.

The validation error type, the YAML value type and the compiled glob pattern are type parameters.

## Model

| member | source | states |
|---|---|---|
| Text.BlankByMembership | gts-validator/src/format/yaml.rs:19 | a text is blank (trims to nothing) exactly when every character is Unicode white space |
| Text.BlankConcat | gts-validator/src/format/yaml.rs:18-19 | a joined text is blank exactly when both parts are blank |
| Text.LeadingEnd | gts-validator/src/format/yaml.rs:17 | the end of the white-space run starting at a position lies between that position and the end of the text |
| Text.LeadingEndSpec | gts-validator/src/format/yaml.rs:17 | that run is all white space and stops at the end of the text or at a character that is not white space |
| Text.TrailingStart | gts-validator/src/format/yaml.rs:17 | the start of the white-space run ending before a position lies at or before that position |
| Text.TrailingStartSpec | gts-validator/src/format/yaml.rs:17 | that run is all white space and starts at the beginning of the text or just after a character that is not white space |
| Text.TrimStartSpec | gts-validator/src/format/yaml.rs:17 | `trim_start` removes a blank prefix and nothing else: the result is a suffix, the removed part is blank, and the result does not start with white space |
| Text.TrimEndSpec | gts-validator/src/format/yaml.rs:17 | `trim_end` removes a blank suffix and nothing else: the result is a prefix, the removed part is blank, and the result does not end with white space |
| Text.TrimStartOfBlank | gts-validator/src/format/yaml.rs:19 | trimming a blank text leaves nothing |
| Text.TrimEmptyIsBlank | gts-validator/src/format/yaml.rs:19 | a text that trims to nothing is blank |
| Text.TrimUnchanged | gts-validator/src/format/yaml.rs:17 | a non-empty text that neither starts nor ends with white space is its own trim |
| Text.TrimEmptyIffBlank | gts-validator/src/format/yaml.rs:19 | `trim().is_empty()` holds exactly when the text is blank |
| Text.IndexOf | gts-macros/tests/gts_error_tests.rs:158 | the first occurrence: the character does not occur before the index, and the index is the end or holds the character |
| Text.LastIndexOf | gts-macros/tests/edge_cases_test.rs:200-205 | `None` exactly when the character is absent; otherwise an index holding the character with no later occurrence |
| Text.LastIndexOfAfter | gts-macros/tests/edge_cases_test.rs:200-205 | when the tail has no separator, the last separator is the one ending the head |
| Text.Split | gts-macros/tests/gts_error_tests.rs:158 | `split` yields at least one part |
| Text.SplitPartFree | gts-macros/tests/gts_error_tests.rs:158 | no part of a split holds the separator |
| Text.SplitPartsFree | gts-macros/tests/gts_error_tests.rs:158 | the same, for all parts at once |
| Text.SplitAtSeparator | gts-macros/tests/gts_error_tests.rs:158 | at the first separator, a split is the piece before it followed by the split of the rest |
| Text.JoinCons | gts-macros/tests/gts_error_tests.rs:158 | joining a piece in front of at least one more puts the separator between them |
| Text.SplitJoinRoundTrip | gts-macros/tests/gts_error_tests.rs:158 | joining the parts of a split with the separator gives back the text |
| Text.JoinSplitRoundTrip | gts-macros/tests/gts_error_tests.rs:158 | splitting a join of separator-free parts gives back the parts |
| Text.Lines | gts-validator/src/format/yaml.rs:16 | `str::lines` yields no lines exactly when the text is empty |
| Text.LinesHaveNoNewline | gts-validator/src/format/yaml.rs:16 | no line holds `\n` |
| Text.LinesAtNewline | gts-validator/src/format/yaml.rs:16 | the first `\n` ends the first line, with one `\r` before it removed; the rest of the text gives the other lines |
| Text.LinesJoinAtNewline | gts-validator/src/format/yaml.rs:16-18 | the rejoined lines are the first line, then `\n` and the rejoined lines of the rest, unless the rest is empty |
| Text.DropFinalNewlineAppend | gts-validator/src/format/yaml.rs:16 | a final newline belongs to the last piece of a text |
| Text.LinesJoinRoundTrip | gts-validator/src/format/yaml.rs:16-18 | for text without `\r`, the lines rejoined with `\n` are the text minus one final newline |
| Text.StripCrChars | gts-validator/src/format/yaml.rs:16 | removing a final `\r` loses no character other than `\r` and invents none |
| Text.LinesJoinCharFrom | gts-validator/src/format/yaml.rs:16-18 | every character of the rejoined lines occurs in the text |
| Text.LinesJoinCharTo | gts-validator/src/format/yaml.rs:16-18 | every character of the text other than `\n` and `\r` survives in the rejoined lines |
| Text.LinesJoinChars | gts-validator/src/format/yaml.rs:16-18 | the lines rejoined hold only characters of the text, and lose only `\n` and `\r` |
| Text.LinesPreserveBlank | gts-validator/src/format/yaml.rs:16-29 | the lines rejoined are blank exactly when the text is blank |
| Text.StripPrefix | gts-macros/tests/gts_error_tests.rs:156 | `Some` exactly when the prefix is a prefix, and the text is the prefix followed by the result |
| Text.StripSuffix | gts-macros/tests/gts_error_tests.rs:157 | `Some` exactly when the suffix ends the text, and the text is the result followed by the suffix |
| Paths.NormalComponents | gts-validator/src/strategy/fs.rs:107-108 | the pieces of a path become `..` or proper names (never empty, never `.`), at most one per piece |
| Paths.Components | gts-validator/src/strategy/fs.rs:107-108 | a path has a root component exactly when it starts with `/`; every later component is `..` or a proper name |
| Paths.NormalComponentsOfNames | gts-validator/src/strategy/fs.rs:107-108 | proper names are kept as they are, one `Normal` component each, in order |
| Paths.SplitAfterPiece | gts-validator/src/strategy/fs.rs:107-108 | a piece without `/` followed by `/` is the first part of the split |
| Paths.RelativeComponents | gts-validator/src/strategy/fs.rs:107-108 | proper names joined with `/` have exactly those names as components, in order |
| Paths.AbsoluteComponents | gts-validator/src/strategy/fs.rs:107-108 | with a leading `/`, the components are `RootDir` followed by the names |
| Paths.CurDirComponents | gts-validator/src/strategy/fs.rs:107-108 | with a leading `./`, the components are `CurDir` followed by the names |
| Paths.FileName | gts-validator/src/strategy/fs.rs:27-28 | a file name, when there is one, is a proper name |
| Paths.Extension | gts-validator/src/strategy/fs.rs:114 | an extension exists exactly when the file name's last `.` is not its first character; it holds no `.` and ends the file name after a `.` |
| Paths.StringLessIrreflexive | gts-validator/src/strategy/fs.rs:107 | the byte-wise order on names is irreflexive |
| Paths.StringLessTransitive | gts-validator/src/strategy/fs.rs:107 | the byte-wise order on names is transitive |
| Paths.StringLessTotal | gts-validator/src/strategy/fs.rs:107 | any two distinct names are ordered one way or the other |
| Paths.ComponentLessIrreflexive | gts-validator/src/strategy/fs.rs:107 | the component order is irreflexive |
| Paths.ComponentLessTransitive | gts-validator/src/strategy/fs.rs:107 | the component order is transitive |
| Paths.ComponentLessTotal | gts-validator/src/strategy/fs.rs:107 | any two distinct components are ordered |
| Paths.ComponentsLessIrreflexive | gts-validator/src/strategy/fs.rs:107 | the lexicographic order on component lists is irreflexive |
| Paths.ComponentsLessTransitive | gts-validator/src/strategy/fs.rs:107 | the lexicographic order on component lists is transitive |
| Paths.ComponentsLessTotal | gts-validator/src/strategy/fs.rs:107 | any two distinct component lists are ordered |
| Paths.PathOrder | gts-validator/src/strategy/fs.rs:107-108 | path order is a strict total order up to path equality, and equal paths are never ordered |
| Report.BuildReport | gts-validator/src/report.rs:10-19 | the report built from a count and errors keeps both, has `errors_count` equal to the number of errors, and is `ok` exactly when there are none |
| Report.OkIffNoErrorsCounted | gts-validator/src/report.rs:14-16 | in a consistent report, `ok` holds exactly when `errors_count` is 0 |
| Yaml.Separators | gts-validator/src/format/yaml.rs:17 | there are no more separator lines than lines |
| Yaml.SeparatorsSnoc | gts-validator/src/format/yaml.rs:17 | one more line adds itself to the separators exactly when it is a separator line |
| Yaml.SeparatorsAreSeparators | gts-validator/src/format/yaml.rs:17 | every separator found passes the separator test |
| Yaml.RunsOf | gts-validator/src/format/yaml.rs:14-25 | the lines fall into as many closed runs as there are separator lines, plus the open run |
| Yaml.RunsSnoc | gts-validator/src/format/yaml.rs:17-25 | a separator line closes the open run and opens an empty one; any other line extends the open run |
| Yaml.Groups | gts-validator/src/format/yaml.rs:16-27 | the lines fall into one group more than there are separators |
| Yaml.OpenRunHoldsNoSeparator | gts-validator/src/format/yaml.rs:17-25 | the open run holds no separator line |
| Yaml.ClosedRunHoldsNoSeparator | gts-validator/src/format/yaml.rs:17-25 | no closed run holds a separator line |
| Yaml.GroupsHoldNoSeparator | gts-validator/src/format/yaml.rs:17-25 | no group holds a separator line |
| Yaml.ReassembleSnoc | gts-validator/src/format/yaml.rs:17-22 | closing one more run at a separator appends that run and the separator to the reassembled lines |
| Yaml.ReassembleStep | gts-validator/src/format/yaml.rs:17-25 | if the reassembled runs followed by the open run give back the lines read so far, they still do after one more line, whatever that line is |
| Yaml.RunsReassemble | gts-validator/src/format/yaml.rs:16-27 | the closed runs with the separators put back after each, then the open run, are the input lines in order |
| Yaml.GroupsWithoutSeparators | gts-validator/src/format/yaml.rs:16-25 | lines without a separator form a single group |
| Yaml.KeepGroup | gts-validator/src/format/yaml.rs:18-21 | a group yields one document, its lines joined with `\n`, exactly when that join is not blank |
| Yaml.KeepDocuments | gts-validator/src/format/yaml.rs:18-31 | there are at most as many documents as groups, and none is blank |
| Yaml.KeptIndices | gts-validator/src/format/yaml.rs:16-33 | there is one kept index per document, each a position of a run |
| Yaml.KeptIndexText | gts-validator/src/format/yaml.rs:18-20 | each document is the join of the run at its kept index |
| Yaml.KeptIndicesIncrease | gts-validator/src/format/yaml.rs:16-33 | kept indices increase, so documents keep the order of their runs |
| Yaml.KeptIndexLast | gts-validator/src/format/yaml.rs:28-31 | the last run is kept exactly when its join is not blank |
| Yaml.KeptIndexEarlier | gts-validator/src/format/yaml.rs:18-21 | whether an earlier run is kept does not depend on the runs after it |
| Yaml.KeptIndexExactly | gts-validator/src/format/yaml.rs:18-21 | a run is kept exactly when its join is not blank |
| Yaml.KeepDocumentsSnoc | gts-validator/src/format/yaml.rs:18-21 | closing one more run appends its document, if any, to the documents |
| Yaml.YamlDocuments | gts-validator/src/format/yaml.rs:12-34 | at most one document more than separator lines, and no document blank |
| Yaml.SplitYamlDocuments | gts-validator/src/format/yaml.rs:12-34 | the loop over lines computes the documents of the group/keep definition |
| Yaml.LineStep | gts-validator/src/format/yaml.rs:17-25 | one more line: a separator closes the open run and appends its document, any other line extends the run |
| Yaml.CloseDocument | gts-validator/src/format/yaml.rs:18-21 | the push step yields at most one document, one exactly when the joined run is not blank, and then that joined run |
| Yaml.SingleDocumentWithoutSeparators | gts-validator/src/format/yaml.rs:16-31 | non-blank text without a separator line is one document: its lines rejoined with `\n` |
| Yaml.ParsedSegments | gts-validator/src/format/yaml.rs:51-55 | no more parsed segments than segments |
| Yaml.FallbackWalksParsedSegments | gts-validator/src/format/yaml.rs:51-58 | the fallback loop's errors are the walks of the segments that parse, in order; failing segments contribute nothing |
| Yaml.ScanYamlContent | gts-validator/src/format/yaml.rs:37-70 | the errors are the in-order walks, from `$` with the same vendor and `scan_keys`, of the stream's documents, or on stream failure of the segments that parse |
| Yaml.WalkDocumentsAppend | gts-validator/src/format/yaml.rs:64-67 | walking two document lists in turn gives the concatenation of their errors |
| Yaml.FallbackErrorsAppend | gts-validator/src/format/yaml.rs:51-58 | the fallback over two segment lists is the concatenation of the two fallbacks |
| Yaml.FallbackErrorsAround | gts-validator/src/format/yaml.rs:50-58 | a segment that parses contributes its walk at its own place between the fallbacks of the segments before and after it |
| Yaml.FallbackIsolation | gts-validator/src/format/yaml.rs:50-58 | on stream failure, any segment that parses has its walk's errors inside the result, whatever the other segments do |
| Yaml.WalkDocumentsOrigin | gts-validator/src/format/yaml.rs:57-66 | every error comes from walking one of the documents |
| Yaml.ScanYamlErrorOrigin | gts-validator/src/format/yaml.rs:43-69 | the scanner adds no error of its own: each error comes from walking a recovered document |
| Yaml.NothingParsedNothingWalked | gts-validator/src/format/yaml.rs:52-55 | when no segment parses, no segment is walked |
| Yaml.UnparseableYieldsNoErrors | gts-validator/src/format/yaml.rs:184-195 | content that parses neither as a stream nor segment by segment yields no errors |
| Yaml.LinesCons | gts-validator/src/format/yaml.rs:16 | a plain line followed by `\n` is the first line of the text |
| Yaml.LinesOfTerminated | gts-validator/src/format/yaml.rs:16 | plain lines, each followed by `\n`, read back as themselves |
| Yaml.ThreeDocumentLines | gts-validator/src/format/yaml.rs:216-222 | the three-document stream has the five expected lines |
| Yaml.RunsAfterPrefixStep | gts-validator/src/format/yaml.rs:17-25 | runs that agree past a common prefix of closed runs keep agreeing after one more line |
| Yaml.RunsAtSeparator | gts-validator/src/format/yaml.rs:17-25 | the runs of lines around a separator line are the groups before it followed by the runs after it |
| Yaml.GroupsAtSeparator | gts-validator/src/format/yaml.rs:16-27 | the groups of lines around a separator line are the groups before it followed by the groups after it |
| Yaml.GroupsOfOneLine | gts-validator/src/format/yaml.rs:25-27 | a single line that is not a separator is a single group |
| Yaml.DashesSeparate | gts-validator/src/format/yaml.rs:17 | `---` is a separator line |
| Yaml.ThreeDocumentGroups | gts-validator/src/format/yaml.rs:16-27 | the five lines group into three single-line groups |
| Yaml.ThreeDocumentDocuments | gts-validator/src/format/yaml.rs:216-222 | the stream `a --- b --- a` splits into the documents `a`, `b`, `a` |
| Yaml.MalformedMiddleDocumentIsolated | gts-validator/src/format/yaml.rs:213-230 | with the stream failing and the middle document malformed, the result is the walk of the first document followed by the walk of the last |
| Yaml.ParsedAroundRejected | gts-validator/src/format/yaml.rs:51-55 | of a segment that parses, one that does not and the first again, the two parses remain |
| Yaml.WalkedTwice | gts-validator/src/format/yaml.rs:64-67 | walking the same document twice reports its errors twice, in a row |
| Yaml.ContentLine | gts-validator/src/format/yaml.rs:17-19 | a line with no white space at either end, other than `---`, is neither a separator nor blank |
| Yaml.ValidDocumentIsPlain | gts-validator/src/format/yaml.rs:216-222 | the `$id` document of the mixed stream is a plain, non-separator, non-blank line |
| Yaml.MalformedDocumentIsPlain | gts-validator/src/format/yaml.rs:216-222 | the malformed document of the mixed stream is a plain, non-separator, non-blank line |
| Yaml.MixedStreamRecovery | gts-validator/src/format/yaml.rs:213-230 | the mixed stream from the source's test walks the valid document twice, so its errors are not suppressed |
| FsStrategy.ContentFormatFor | gts-validator/src/strategy/fs.rs:113-120 | a format is found only for a path with an extension |
| FsStrategy.FilePatternIffFormat | gts-validator/src/strategy/fs.rs:48-53 | the supported-extension filter holds exactly when a content format is found |
| FsStrategy.FormatByExtension | gts-validator/src/strategy/fs.rs:113-120 | Markdown exactly for `md`, JSON exactly for `json`, YAML exactly for `yaml` or `yml` (case-sensitive) |
| FsStrategy.MatchesExclude | gts-validator/src/strategy/fs.rs:22-34 | true exactly when some pattern matches the full path text or the file name |
| FsStrategy.CompilePatterns | gts-validator/src/strategy/fs.rs:61-65 | every compiled pattern comes from an exclude string, every string that compiles is kept, and none is invented |
| FsStrategy.WalkSkipsSkipDirs | gts-validator/src/strategy/fs.rs:38-45 | no entry of a walk is a skip directory (pruned subtrees are never entered) |
| FsStrategy.ForestSkipsSkipDirs | gts-validator/src/strategy/fs.rs:73-77 | the same for a list of subtrees |
| FsStrategy.FilterEntriesMembers | gts-validator/src/strategy/fs.rs:79-102 | a walked path is kept exactly when it is a file with a supported extension matching no exclude pattern; the empty `SKIP_FILES` removes nothing |
| FsStrategy.WalkedSnoc | gts-validator/src/strategy/fs.rs:73-79 | one more entry: a path was walked before or is the new entry's path |
| FsStrategy.CandidatesEligible | gts-validator/src/strategy/fs.rs:67-105 | every discovered file, from a file root or a directory root, is eligible |
| FsStrategy.InsertMembers | gts-validator/src/strategy/fs.rs:107-108 | inserting into a sorted list adds the path exactly when no equal path is present |
| FsStrategy.InsertSorted | gts-validator/src/strategy/fs.rs:107-108 | insertion keeps a list sorted |
| FsStrategy.SortedCons | gts-validator/src/strategy/fs.rs:107 | a path below every element of a sorted list can head it |
| FsStrategy.InsertAbove | gts-validator/src/strategy/fs.rs:107 | inserting a path above a bound keeps every element above that bound |
| FsStrategy.SortDedupSorted | gts-validator/src/strategy/fs.rs:107-108 | sort then dedup gives a sorted list |
| FsStrategy.SortDedupFromInput | gts-validator/src/strategy/fs.rs:107-108 | every path of the result is an input path |
| FsStrategy.SortDedupCovers | gts-validator/src/strategy/fs.rs:107-108 | every input path is represented in the result by an equal path |
| FsStrategy.SortedNoDuplicates | gts-validator/src/strategy/fs.rs:108 | a strictly sorted list holds no two equal paths |
| FsStrategy.FindFilesSorted | gts-validator/src/strategy/fs.rs:107-108 | `find_files` is sorted and holds no two equal paths |
| FsStrategy.FindFilesEligible | gts-validator/src/strategy/fs.rs:67-105 | each result was discovered under a configured path and is eligible |
| FsStrategy.FindFilesCovers | gts-validator/src/strategy/fs.rs:67-108 | every discovered file is represented in the result |
| FsStrategy.ReadValidationItem | gts-validator/src/strategy/fs.rs:125-139 | an item exactly when the size is unknown or within the limit, the format is supported and the read succeeds; its content is what was read |
| FsStrategy.SizeAtLimitIsRead | gts-validator/src/strategy/fs.rs:127-129 | a file exactly at the size limit is still read |
| FsStrategy.FoundFilesHaveFormat | gts-validator/src/strategy/fs.rs:69-87 | every file `find_files` returns has a content format |
| FsStrategy.BareFileName | gts-validator/src/strategy/fs.rs:27-28 | a single proper name is its own file name |
| FsStrategy.ExtensionOfBareName | gts-validator/src/strategy/fs.rs:50 | a bare `stem.ext` name has extension `ext` |
| FsStrategy.ExtensionAfterStem | gts-validator/src/strategy/fs.rs:114 | `stem.ext` with a non-empty stem and a non-empty, dot-free extension has extension `ext` |
| FsStrategy.FormatOfStemExt | gts-validator/src/strategy/fs.rs:113-120 | a `stem.ext` name is scanned in the format its extension selects |
| FsStrategy.MarkdownBareName | gts-validator/src/strategy/fs.rs:115 | a `.md` name is Markdown |
| FsStrategy.JsonBareName | gts-validator/src/strategy/fs.rs:116 | a `.json` name is JSON |
| FsStrategy.YamlBareNames | gts-validator/src/strategy/fs.rs:117 | `.yaml` and `.yml` names are YAML |
| FsStrategy.UppercaseYamlUnsupported | gts-validator/src/strategy/fs.rs:117-118 | extensions compare case-sensitively: a `.YAML` name has no format |
| FsStrategy.TextFileUnsupported | gts-validator/src/strategy/fs.rs:118 | a `.txt` name has no format |
| FsStrategy.SkipDirNames | gts-validator/src/strategy/fs.rs:38-45 | a directory named in `SKIP_DIRS` is dropped, and a file with that name is kept |
| FsStrategy.HiddenFileExample | gts-validator/src/strategy/fs.rs:113-120 | `.md` alone has no extension, so no format |
| Validator.FirstMissing | gts-validator/src/lib.rs:65-69 | no missing path exactly when every path exists; otherwise the first missing one |
| Validator.ScanFiles | gts-validator/src/lib.rs:86-116 | the file loop never counts more files than it was given |
| Validator.ValidateFs | gts-validator/src/lib.rs:56-125 | no paths is an error; success exactly when there are paths and all exist; a reported missing path is the first configured path, in order, that does not exist; a report is consistent and counts at most the found files |
| Validator.RunFileLoop | gts-validator/src/lib.rs:82-116 | the imperative loop computes the fold: the count and the errors of the recursive definition |
| Validator.StepCombine | gts-validator/src/lib.rs:114-115 | adding one file's outcome commutes with combining two partial results |
| Validator.ScanFilesAppend | gts-validator/src/lib.rs:86-116 | scanning two file lists in turn combines their counts and concatenates their errors |
| Validator.SkippedFileNotCounted | gts-validator/src/lib.rs:87-89 | a file `read_validation_item` rejects changes neither the count nor the errors |
| Validator.ReadableFileIsScanned | gts-validator/src/lib.rs:87-111 | a file is dispatched exactly when it reads, so the `None => continue` arm is unreachable |
| Validator.ScannedCountsReadable | gts-validator/src/lib.rs:86-114 | `files_scanned` is the number of readable files |
| Validator.ScanErrorOrigin | gts-validator/src/lib.rs:91-115 | every error comes from the scanner of some read file's format |
| Validator.NoFilesReport | gts-validator/src/lib.rs:73-80 | with valid paths and no files, the report is 0 scanned, 0 errors, ok, no errors |
| Validator.EarlyReturnAgreesWithLoop | gts-validator/src/lib.rs:73-124 | the early return gives the report the loop gives for no files |
| Validator.ReportIsTheFold | gts-validator/src/lib.rs:86-124 | a successful report counts the readable found files and holds their errors in `find_files` order |
| Validator.DispatchIgnores | gts-validator/src/lib.rs:91-110 | Markdown depends only on vendor, strict and skip tokens; JSON and YAML only on vendor and `scan_keys` |
| Validator.DefaultSourceConfigRejected | gts-validator/src/config.rs:49-58 | the default source configuration has no paths and is rejected |
| Validator.DefaultValidationOptions | gts-validator/src/config.rs:10-28 | the default options call the scanners with no vendor, no key scanning, relaxed discovery off and no skip tokens |
| Validator.DefaultSourceOptions | gts-validator/src/config.rs:49-58 | the default has no excludes, follows links and allows 10 MiB |
| GtsChain.ChainExtend | gts/src/error_type.rs:46-47 | extending the segments by one appends that segment and `~` to the chain |
| GtsChain.ChainIsJoin | gts/src/error_type.rs:46-47 | a non-empty chain is the `~`-join of its segments plus a final `~` |
| GtsChain.ChainPrefix | gts-macros/tests/gts_error_tests.rs:147-151 | the chain of leading segments is a prefix of the chain |
| GtsChain.UriSegments | gts-macros/tests/gts_error_tests.rs:153-177 | reading segments back yields at least one segment, none holding `~` |
| GtsChain.UriRoundTrip | gts-macros/tests/gts_error_tests.rs:153-177 | reading a type URI back gives the segments it was built from |
| GtsChain.UriShape | gts-macros/tests/gts_error_tests.rs:130-145 | a type URI starts with `gts://` and ends with `~` |
| GtsChain.ParentChain | gts-macros/tests/edge_cases_test.rs:200-205 | the parent chain is a proper prefix |
| GtsChain.ParentOfExtendedChain | gts-macros/tests/edge_cases_test.rs:200-205 | removing the last segment of an extended chain gives the original chain |
| GtsChain.ParentOfSingleSegment | gts-macros/tests/edge_cases_test.rs:139-142 | a one-segment chain has no parent |
| ErrorType.Segments | gts/src/error_type.rs:46-47 | an error type's segments end with its own type; a root has only that one |
| ErrorType.SegmentsCountDepth | gts-macros/tests/gts_error_tests.rs:153-177 | one segment per level of the base chain |
| ErrorType.RootGtsId | gts/src/error_type.rs:46 | a root's id is `gts://`, its type, `~` |
| ErrorType.ChildGtsId | gts/src/error_type.rs:47-49 | a child's id is `gts://`, its base's chain, its type, `~` |
| ErrorType.ChildIdExtendsBaseId | gts-macros/tests/gts_error_tests.rs:147-151 | a child's id strictly extends its base's id |
| ErrorType.GtsIdShape | gts-macros/tests/gts_error_tests.rs:130-177 | every id starts with `gts://`, ends with `~`, and reads back as its segments, as many as the depth |
| ErrorType.ExpandGtsError | gts/src/error_type.rs:53-61 | the attribute is accepted exactly with type, an in-range status and title on a named or unit struct; each rejection names its cause; the accepted status is in 100..599 and keeps the declared values |
| ErrorType.EligibleFields | gts/src/error_type.rs:63-69 | the eligible fields are fields not marked `skip_metadata`, and there are none exactly when every field is skipped |
| ErrorType.EligibleFieldKept | gts/src/error_type.rs:63-69 | every field not marked `skip_metadata` is among the eligible fields |
| ErrorType.EligibleFieldsCount | gts/src/error_type.rs:63-69 | there are exactly as many eligible fields as positions not marked `skip_metadata` |
| ErrorType.EligibleFieldsAppend | gts/src/error_type.rs:63-69 | declaration order is kept: the eligible fields of two field lists, one after the other |
| ErrorType.MetadataNoneIff | gts/src/error_type.rs:69 | `error_metadata` is `None` exactly when every field is `skip_metadata` |
| ErrorType.EntriesKeys | gts/src/error_type.rs:65-67 | a key is present exactly when some non-skipped field's key (`errors` for `as_errors`, else its name) is that key |
| ErrorType.EntriesValues | gts/src/error_type.rs:65-67 | with distinct keys, each non-skipped field's value sits under its key, and the map has one entry per field not marked `skip_metadata` |
| ErrorType.SkippedFieldAbsent | gts/src/error_type.rs:65 | a skipped field's name is absent unless another field claims it |
| ErrorType.DeclaredIds | gts-macros/tests/gts_error_tests.rs:117-128 | the ids of `BaseError` and `EntityNotFoundError` |
| ErrorType.DeclaredDisplays | gts-macros/tests/gts_error_tests.rs:242-266 | `Display` of the declared types is title, `": "`, id |
| ErrorType.DeclaredSegmentCounts | gts-macros/tests/gts_error_tests.rs:153-177 | the root id reads back as one segment, the child id as two |
| ErrorType.RootSegmentCount | gts-macros/tests/gts_error_tests.rs:153-164 | the id of `BaseError` reads back as one segment |
| ErrorType.ChildSegmentCount | gts-macros/tests/gts_error_tests.rs:166-177 | the id of `EntityNotFoundError` reads back as two segments |
| ErrorType.DeclaredAttributesExpand | gts-macros/tests/gts_error_tests.rs:11-25 | the declared attributes expand to the declared types, with status 500 and 404 kept |
| ErrorType.CompileFailCases | gts-macros/tests/compile_fail/gts_error_invalid_status.rs:3-8 | status 999, a missing status, title or type, an enum and a tuple struct are each rejected for their own reason |
| ErrorType.AsErrorsMetadata | gts-macros/tests/gts_error_tests.rs:326-346 | the `as_errors` field lands under `errors`, next to `entity_type`, two entries |
| ErrorType.SkipMetadataExample | gts-macros/tests/gts_error_tests.rs:311-324 | the skipped trace is left out, one entry remains |
| ErrorType.NoMetadataExamples | gts-macros/tests/gts_error_tests.rs:373-400 | unit structs and all-skipped structs have no metadata |
| SchemaId.GtsBaseSchemaId | gts-macros/tests/edge_cases_test.rs:139-142 | no base schema id exactly for a `base = true` type |
| SchemaId.GtsMakeInstanceId | gts-macros/tests/edge_cases_test.rs:153-160 | the instance id starts with the schema id and is exactly the suffix longer |
| SchemaId.WellFormedIsChain | gts-macros/tests/edge_cases_test.rs:61-64 | a well-formed schema type's id ends with `~` |
| SchemaId.BaseIdDropsLastSegment | gts-macros/tests/edge_cases_test.rs:200-205 | a child's base schema id is its own chain minus the last segment |
| SchemaId.InstanceSchemaId | gts-macros/tests/edge_cases_test.rs:153-160 | the schema id read from an instance id is a prefix of it ending with `~` |
| SchemaId.InstanceIdRoundTrip | gts-macros/tests/edge_cases_test.rs:153-160 | a suffix without `~` splits back off: the schema id and the suffix are recovered |
| SchemaId.SingleSegmentChain | gts-macros/tests/edge_cases_test.rs:133-142 | a one-segment chain has no parent, whatever dots and digits the segment holds |
| SchemaId.ChildSchemaExample | gts-macros/tests/edge_cases_test.rs:192-205 | `ChildUnitStructV1` is well formed, and its base schema id is the parent's id |
| SchemaId.VersionedSchemaExamples | gts-macros/tests/edge_cases_test.rs:133-142 | the `v2.1` and `v10.20` ids are single-segment base types with no base schema id |
| SchemaId.UnderscoreInstanceExample | gts-macros/tests/edge_cases_test.rs:145-160 | the instance id of `UnderscoreSegmentsV1` is its schema id followed by `test.app.instance.v1`, and the schema id reads back from it |

## Left out

- The identifier grammar, the Markdown scanner, the JSON scanner and `walk_json_value`: their sources (`validator.rs`, `normalize.rs`, `format/json.rs`, `format/markdown.rs`, `error.rs`) are not part of this model. They are uninterpreted parameters, so no property here depends on which identifiers are valid.
- `serde_saphyr`: the YAML parser is a parameter. Which texts parse, and the `serde_json::Value` they give, are not modelled.
- `gts-validator/src/strategy/mod.rs` is not part of this model. `ContentFormat` and `ValidationItem` are reconstructed from their uses in `fs.rs` and `lib.rs`.
- File-system I/O is a parameter: existence, file and directory tests, `metadata().len()`, `read_to_string`, and `WalkDir` traversal with symlink following. A walk is a tree of entries in which an unreadable entry is a `WalkError` and is dropped. Filesystem races between discovery and reading are not modelled.
- Glob pattern compilation and matching are parameters. The glob syntax is not modelled.
- Paths are Unix text. Non-UTF-8 paths, `to_string_lossy` and `to_str` failures are not modelled. `EntryName` takes the whole path when there is no file name.
- Path order is component-wise. Components compare as Rust's `Component` ordering does on Unix: root before `.` and `..`, names byte-wise by code point. Windows prefixes are not modelled.
- `scan_yaml_file` is a test-only wrapper around file reading. It is modelled only through `scan_yaml_content`.
- `output.rs`, `gts-validator/src/main.rs`, `gts-validator/tests/cli_tests.rs` and `gts-macros-cli/src/main.rs` are rendering, CLI and demo code. `main.rs` uses field names the library does not have, so the library types are modelled.
- Report.BuildReport: `files_scanned` and `errors_count` are unbounded naturals rather than `usize`. Overflow would need more than `usize::MAX` files.
- Text.Lines: follows `str::lines` in current Rust. A line ending in `\n` loses it and then one `\r`; a final line without `\n` keeps a trailing `\r`.
- Text.TrimStartSpec: `trim` uses the Unicode `White_Space` property as a fixed character set.
- ErrorType.ExpandGtsError: the macro source is not part of this model, so when several faults coexist the reported one is a chosen order: item shape, then `type`, `status` (presence, then range), `title`. Which attributes are accepted or rejected does not depend on that order.
- ErrorType.EntriesValues: a field marked both `skip_metadata` and `as_errors` is skipped. When two eligible fields share a key, the later one wins, as repeated `HashMap::insert` calls would.
- ErrorType.ExpandGtsError: `http::StatusCode` is modelled by its numeric value (`as_u16`). Its other methods are not.
- The `Debug` and `Clone` derives, `RFC 9457` problem details, and schema generation with serde (de)serialisation are not modelled. This covers the unit-struct JSON shape, renamed fields, generic-field introspection, and pretty versus compact output lengths.
- The `GtsError` trait methods are modelled as functions of a declared error type. Trait dispatch (`gts_id` through the trait agreeing with the inherent method) holds by construction.
- The five-part grammar inside a segment (vendor, package, namespace, type, version) is not checked. A segment is any text without `~`, so underscores and multi-digit versions need no special case.

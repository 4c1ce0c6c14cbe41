/**
 * The YAML scanner: splitting a multi-document stream on `---` lines, and
 * scanning a stream with a whole-stream parse that falls back to parsing each
 * split document on its own, so one malformed document cannot hide errors in
 * its siblings.
 *
 * The YAML parser and the JSON value walker are collaborators whose code is
 * not part of this model; they enter as function values.
 */
module Yaml {
  import opened Wrappers
  import opened Text
  import opened Paths

  // ---------------------------------------------------------------------------
  // Splitting a stream into documents
  // ---------------------------------------------------------------------------

  /** A line that splitting consumes as a document separator: `---` after trimming. */
  predicate IsSeparator(line: string) {
    Trim(line) == "---"
  }

  /**
   * The separator lines, in order. The splitting functions take the separator
   * test as a parameter: the scanner passes `IsSeparator`, and the structural
   * facts about runs hold whatever the test is.
   */
  function Separators(lines: seq<string>, isSep: string -> bool): (seps: seq<string>)
    ensures |seps| <= |lines|
  {
    if |lines| == 0 then []
    else
      var init := Separators(lines[..|lines| - 1], isSep);
      var l := lines[|lines| - 1];
      if isSep(l) then init + [l] else init
  }

  /** The separators of one more line. */
  lemma {:induction false} SeparatorsSnoc(ls: seq<string>, l: string, isSep: string -> bool)
    ensures Separators(ls + [l], isSep) == if isSep(l) then Separators(ls, isSep) + [l] else Separators(ls, isSep)
  {
    assert (ls + [l])[..|ls|] == ls;
  }

  /** Every separator line collected passes the separator test. */
  lemma {:induction false} SeparatorsAreSeparators(lines: seq<string>, k: nat, isSep: string -> bool)
    requires k < |Separators(lines, isSep)|
    ensures isSep(Separators(lines, isSep)[k])
    decreases |lines|
  {
    var init := lines[..|lines| - 1];
    if k < |Separators(init, isSep)| {
      SeparatorsAreSeparators(init, k, isSep);
    }
  }

  /**
   * The state of the splitting loop after some lines: the runs already closed
   * by a separator, and the run still being collected.
   */
  datatype Runs = Runs(closed: seq<seq<string>>, open: seq<string>)

  /** The runs after reading `lines`: a separator closes the open run, any other line extends it. */
  function RunsOf(lines: seq<string>, isSep: string -> bool): (r: Runs)
    ensures |r.closed| == |Separators(lines, isSep)|
  {
    if |lines| == 0 then Runs([], [])
    else
      var r := RunsOf(lines[..|lines| - 1], isSep);
      var l := lines[|lines| - 1];
      if isSep(l) then Runs(r.closed + [r.open], []) else Runs(r.closed, r.open + [l])
  }

  /** The runs of lines between separators, in order; a run may be empty. */
  function Groups(lines: seq<string>, isSep: string -> bool): (gs: seq<seq<string>>)
    ensures |gs| == |Separators(lines, isSep)| + 1
  {
    RunsOf(lines, isSep).closed + [RunsOf(lines, isSep).open]
  }

  /** The runs after one more line. */
  lemma {:induction false} RunsSnoc(ls: seq<string>, l: string, isSep: string -> bool)
    ensures RunsOf(ls + [l], isSep) ==
      if isSep(l) then Runs(RunsOf(ls, isSep).closed + [RunsOf(ls, isSep).open], [])
      else Runs(RunsOf(ls, isSep).closed, RunsOf(ls, isSep).open + [l])
  {
    assert (ls + [l])[..|ls|] == ls;
  }

  /** The open run holds no separator line. */
  lemma {:induction false} OpenRunHoldsNoSeparator(lines: seq<string>, k: nat, isSep: string -> bool)
    requires k < |RunsOf(lines, isSep).open|
    ensures !isSep(RunsOf(lines, isSep).open[k])
    decreases |lines|
  {
    var init := lines[..|lines| - 1];
    if k < |RunsOf(init, isSep).open| {
      OpenRunHoldsNoSeparator(init, k, isSep);
    }
  }

  /** A closed run holds no separator line. */
  lemma {:induction false} ClosedRunHoldsNoSeparator(lines: seq<string>, j: nat, k: nat, isSep: string -> bool)
    requires j < |RunsOf(lines, isSep).closed| && k < |RunsOf(lines, isSep).closed[j]|
    ensures !isSep(RunsOf(lines, isSep).closed[j][k])
    decreases |lines|
  {
    var init := lines[..|lines| - 1];
    var r := RunsOf(init, isSep);
    if j < |r.closed| {
      ClosedRunHoldsNoSeparator(init, j, k, isSep);
    } else {
      OpenRunHoldsNoSeparator(init, k, isSep);
    }
  }

  /** A separator line is consumed: it never appears inside a run. */
  lemma {:induction false} GroupsHoldNoSeparator(lines: seq<string>, j: nat, k: nat, isSep: string -> bool)
    requires j < |Groups(lines, isSep)| && k < |Groups(lines, isSep)[j]|
    ensures !isSep(Groups(lines, isSep)[j][k])
  {
    var r := RunsOf(lines, isSep);
    if j < |r.closed| {
      ClosedRunHoldsNoSeparator(lines, j, k, isSep);
    } else {
      OpenRunHoldsNoSeparator(lines, k, isSep);
    }
  }

  /** Closed runs put back together, each followed by the separator that closed it. */
  function Reassemble(closed: seq<seq<string>>, seps: seq<string>): seq<string>
    requires |closed| == |seps|
    decreases |seps|
  {
    if |seps| == 0 then []
    else Reassemble(closed[..|closed| - 1], seps[..|seps| - 1]) + closed[|closed| - 1] + [seps[|seps| - 1]]
  }

  /** Reassembling one more closed run and its separator. */
  lemma {:induction false} ReassembleSnoc(closed: seq<seq<string>>, seps: seq<string>, g: seq<string>, sep: string)
    requires |closed| == |seps|
    ensures Reassemble(closed + [g], seps + [sep]) == Reassemble(closed, seps) + g + [sep]
  {
    assert (closed + [g])[..|closed|] == closed;
    assert (seps + [sep])[..|seps|] == seps;
  }

  /** Reassembly survives one more line, whatever the line. */
  lemma {:induction false} ReassembleStep(ls: seq<string>, l: string, isSep: string -> bool)
    requires Reassemble(RunsOf(ls, isSep).closed, Separators(ls, isSep)) + RunsOf(ls, isSep).open == ls
    ensures Reassemble(RunsOf(ls + [l], isSep).closed, Separators(ls + [l], isSep)) + RunsOf(ls + [l], isSep).open == ls + [l]
  {
    RunsSnoc(ls, l, isSep);
    SeparatorsSnoc(ls, l, isSep);
    if isSep(l) {
      ReassembleSnoc(RunsOf(ls, isSep).closed, Separators(ls, isSep), RunsOf(ls, isSep).open, l);
    }
  }

  /** No line is lost, added or moved: the closed runs with their separators, then the open run, rebuild the input. */
  lemma {:induction false} RunsReassemble(lines: seq<string>, isSep: string -> bool)
    ensures Reassemble(RunsOf(lines, isSep).closed, Separators(lines, isSep)) + RunsOf(lines, isSep).open == lines
    decreases |lines|
  {
    if |lines| > 0 {
      var init := lines[..|lines| - 1];
      RunsReassemble(init, isSep);
      assert lines == init + [lines[|lines| - 1]];
      ReassembleStep(init, lines[|lines| - 1], isSep);
    }
  }

  /** Without separator lines, all lines form one run. */
  lemma {:induction false} GroupsWithoutSeparators(lines: seq<string>, isSep: string -> bool)
    requires forall k :: 0 <= k < |lines| ==> !isSep(lines[k])
    ensures RunsOf(lines, isSep) == Runs([], lines)
    ensures Groups(lines, isSep) == [lines]
    decreases |lines|
  {
    if |lines| > 0 {
      var init := lines[..|lines| - 1];
      GroupsWithoutSeparators(init, isSep);
      assert lines == init + [lines[|lines| - 1]];
    }
  }

  /** A run's text, joined with `\n`, kept unless blank. */
  function KeepGroup(g: seq<string>): (docs: seq<string>)
    ensures |docs| <= 1
    ensures |docs| == 1 <==> !IsBlank(JoinWith(g, '\n'))
    ensures |docs| == 1 ==> docs[0] == JoinWith(g, '\n')
  {
    var doc := JoinWith(g, '\n');
    TrimEmptyIffBlank(doc);
    if Trim(doc) == "" then [] else [doc]
  }

  /** The non-blank runs' texts, in order. */
  function KeepDocuments(gs: seq<seq<string>>): (docs: seq<string>)
    ensures |docs| <= |gs|
    ensures forall k :: 0 <= k < |docs| ==> !IsBlank(docs[k])
  {
    if |gs| == 0 then []
    else KeepDocuments(gs[..|gs| - 1]) + KeepGroup(gs[|gs| - 1])
  }

  /** Which runs survive: one run position per kept document. */
  function KeptIndices(gs: seq<seq<string>>): (idx: seq<nat>)
    ensures |idx| == |KeepDocuments(gs)|
    ensures forall k :: 0 <= k < |idx| ==> idx[k] < |gs|
  {
    if |gs| == 0 then []
    else
      var idx := KeptIndices(gs[..|gs| - 1]);
      if IsBlank(JoinWith(gs[|gs| - 1], '\n')) then idx else idx + [|gs| - 1]
  }

  /** Each kept document is the text of the run at its position. */
  lemma {:induction false} KeptIndexText(gs: seq<seq<string>>, k: nat)
    requires k < |KeptIndices(gs)|
    ensures KeepDocuments(gs)[k] == JoinWith(gs[KeptIndices(gs)[k]], '\n')
    decreases |gs|
  {
    var init := gs[..|gs| - 1];
    if k < |KeptIndices(init)| {
      KeptIndexText(init, k);
      KeptBeforeLast(gs, k);
    } else {
      KeptLast(gs);
    }
  }

  /** Dropping the last run leaves the earlier kept documents and their indices as they were. */
  lemma {:induction false} KeptBeforeLast(gs: seq<seq<string>>, k: nat)
    requires |gs| > 0 && k < |KeptIndices(gs[..|gs| - 1])|
    ensures KeepDocuments(gs)[k] == KeepDocuments(gs[..|gs| - 1])[k]
    ensures KeptIndices(gs)[k] == KeptIndices(gs[..|gs| - 1])[k]
    ensures gs[KeptIndices(gs)[k]] == gs[..|gs| - 1][KeptIndices(gs[..|gs| - 1])[k]]
  {
  }

  /** A kept last run is the last kept document, at the last index. */
  lemma {:induction false} KeptLast(gs: seq<seq<string>>)
    requires |gs| > 0 && |KeptIndices(gs[..|gs| - 1])| < |KeptIndices(gs)|
    ensures KeptIndices(gs)[|KeptIndices(gs[..|gs| - 1])|] == |gs| - 1
    ensures KeepDocuments(gs)[|KeptIndices(gs[..|gs| - 1])|] == JoinWith(gs[|gs| - 1], '\n')
  {
  }

  /** Kept documents keep the order of their runs. */
  lemma {:induction false} KeptIndicesIncrease(gs: seq<seq<string>>, k: nat, m: nat)
    requires k < m < |KeptIndices(gs)|
    ensures KeptIndices(gs)[k] < KeptIndices(gs)[m]
    decreases |gs|
  {
    var init := gs[..|gs| - 1];
    if m < |KeptIndices(init)| {
      KeptIndicesIncrease(init, k, m);
    }
  }

  /** The last run is kept exactly when its text is not blank. */
  lemma {:induction false} KeptIndexLast(gs: seq<seq<string>>)
    requires |gs| > 0
    ensures |gs| - 1 in KeptIndices(gs) <==> !IsBlank(JoinWith(gs[|gs| - 1], '\n'))
  {
    var idx := KeptIndices(gs[..|gs| - 1]);
    assert forall m :: 0 <= m < |idx| ==> idx[m] != |gs| - 1;
  }

  /** Whether an earlier run is kept does not depend on the last one. */
  lemma {:induction false} KeptIndexEarlier(gs: seq<seq<string>>, j: nat)
    requires j < |gs| - 1
    ensures j in KeptIndices(gs) <==> j in KeptIndices(gs[..|gs| - 1])
  {
    var idx := KeptIndices(gs[..|gs| - 1]);
    assert j in idx + [|gs| - 1] <==> j in idx;
  }

  /** A run is kept exactly when its text is not blank. */
  lemma {:induction false} KeptIndexExactly(gs: seq<seq<string>>, j: nat)
    requires j < |gs|
    ensures j in KeptIndices(gs) <==> !IsBlank(JoinWith(gs[j], '\n'))
    decreases |gs|
  {
    if j < |gs| - 1 {
      var init := gs[..|gs| - 1];
      KeptIndexExactly(init, j);
      KeptIndexEarlier(gs, j);
      assert init[j] == gs[j];
    } else {
      KeptIndexLast(gs);
    }
  }

  /** The documents `split_yaml_documents` returns, stated through runs. */
  function YamlDocuments(content: string): (docs: seq<string>)
    ensures |docs| <= |Separators(Lines(content), IsSeparator)| + 1
    ensures forall k :: 0 <= k < |docs| ==> !IsBlank(docs[k])
  {
    KeepDocuments(Groups(Lines(content), IsSeparator))
  }

  /** `split_yaml_documents`: one pass over the lines, closing a document at each separator. */
  method SplitYamlDocuments(content: string) returns (documents: seq<string>)
    ensures documents == YamlDocuments(content)
  {
    var lines := Lines(content);
    documents := [];
    var current: seq<string> := [];
    ghost var completed: seq<seq<string>> := [];
    var i := 0;
    while i < |lines|
      invariant 0 <= i <= |lines|
      invariant RunsOf(lines[..i], IsSeparator) == Runs(completed, current)
      invariant documents == KeepDocuments(completed)
    {
      completed, current, documents := ReadLine(lines, i, completed, current, documents);
      i := i + 1;
    }
    assert lines[..i] == lines;
    KeepDocumentsSnoc(completed, current);
    var kept := CloseDocument(current);
    assert kept == KeepGroup(current);
    documents := documents + kept;
  }

  /** One turn of the loop: a separator line closes the open run and pushes its document, any other line extends the run. */
  method ReadLine(lines: seq<string>, i: nat, ghost completed: seq<seq<string>>, current: seq<string>, documents: seq<string>)
    returns (ghost completed': seq<seq<string>>, current': seq<string>, documents': seq<string>)
    requires i < |lines|
    requires RunsOf(lines[..i], IsSeparator) == Runs(completed, current)
    requires documents == KeepDocuments(completed)
    ensures RunsOf(lines[..i + 1], IsSeparator) == Runs(completed', current')
    ensures documents' == KeepDocuments(completed')
  {
    var line := lines[i];
    LineStep(lines, i, completed, current);
    var atSeparator := SeparatorLine(line);
    if atSeparator {
      var kept := CloseDocument(current);
      assert kept == KeepGroup(current);
      documents' := documents + kept;
      completed' := completed + [current];
      current' := [];
    } else {
      documents' := documents;
      completed' := completed;
      current' := current + [line];
    }
  }

  /** The separator test of the loop: the line trims to `---`. */
  method SeparatorLine(line: string) returns (b: bool)
    ensures b <==> IsSeparator(line)
  {
    b := Trim(line) == "---";
  }

  /** The body of the push: join the run with `\n` and keep it unless it trims to nothing. */
  method CloseDocument(current: seq<string>) returns (kept: seq<string>)
    ensures |kept| <= 1
    ensures |kept| == 1 <==> !IsBlank(JoinWith(current, '\n'))
    ensures |kept| == 1 ==> kept[0] == JoinWith(current, '\n')
  {
    var doc := JoinWith(current, '\n');
    TrimEmptyIffBlank(doc);
    if Trim(doc) != "" {
      kept := [doc];
    } else {
      kept := [];
    }
  }

  /** One more line either closes the open run, adding its document if any, or extends it. */
  lemma {:induction false} LineStep(lines: seq<string>, i: nat, completed: seq<seq<string>>, current: seq<string>)
    requires i < |lines|
    requires RunsOf(lines[..i], IsSeparator) == Runs(completed, current)
    ensures IsSeparator(lines[i]) ==> RunsOf(lines[..i + 1], IsSeparator) == Runs(completed + [current], [])
    ensures IsSeparator(lines[i]) ==> KeepDocuments(completed + [current]) == KeepDocuments(completed) + KeepGroup(current)
    ensures !IsSeparator(lines[i]) ==> RunsOf(lines[..i + 1], IsSeparator) == Runs(completed, current + [lines[i]])
  {
    assert lines[..i + 1] == lines[..i] + [lines[i]];
    RunsSnoc(lines[..i], lines[i], IsSeparator);
    KeepDocumentsSnoc(completed, current);
  }

  /** Closing one more run appends its document, if any. */
  lemma {:induction false} KeepDocumentsSnoc(gs: seq<seq<string>>, g: seq<string>)
    ensures KeepDocuments(gs + [g]) == KeepDocuments(gs) + KeepGroup(g)
  {
    assert (gs + [g])[..|gs|] == gs;
  }

  /** Non-blank text without separator lines is one document: its lines rejoined with `\n`. */
  lemma {:induction false} SingleDocumentWithoutSeparators(content: string)
    requires !IsBlank(content)
    requires forall k :: 0 <= k < |Lines(content)| ==> !IsSeparator(Lines(content)[k])
    ensures YamlDocuments(content) == [JoinWith(Lines(content), '\n')]
  {
    GroupsWithoutSeparators(Lines(content), IsSeparator);
    LinesPreserveBlank(content);
    assert [Lines(content)][..0] == [];
  }

  // ---------------------------------------------------------------------------
  // Scanning
  // ---------------------------------------------------------------------------

  /** `serde_saphyr::from_multiple` (a whole stream) and `from_str` (one document). */
  datatype YamlParser<V> = YamlParser(
    fromMultiple: string -> Option<seq<V>>,
    fromStr: string -> Option<V>)

  /** `walk_json_value(value, file, vendor, pointer, scan_keys)`, returning the errors it appends. */
  type Walker<!V, E> = (V, FsPath, Option<string>, string, bool) -> seq<E>

  /** The JSON-pointer-like path every document walk starts from. */
  const ROOT_POINTER := "$"

  /** Each document walked from the root, errors concatenated in document order. */
  function WalkDocuments<V, E>(docs: seq<V>, walk: Walker<V, E>, file: FsPath, vendor: Option<string>, scanKeys: bool): seq<E>
    decreases |docs|
  {
    if |docs| == 0 then []
    else WalkDocuments(docs[..|docs| - 1], walk, file, vendor, scanKeys) + walk(docs[|docs| - 1], file, vendor, ROOT_POINTER, scanKeys)
  }

  /** One fallback segment: walked if it parses on its own, silently skipped if not. */
  function SegmentErrors<V, E>(segment: string, parser: YamlParser<V>, walk: Walker<V, E>, file: FsPath, vendor: Option<string>, scanKeys: bool): seq<E> {
    match parser.fromStr(segment)
    case None => []
    case Some(value) => walk(value, file, vendor, ROOT_POINTER, scanKeys)
  }

  /** The fallback loop over the split segments. */
  function FallbackErrors<V, E>(segments: seq<string>, parser: YamlParser<V>, walk: Walker<V, E>, file: FsPath, vendor: Option<string>, scanKeys: bool): seq<E>
    decreases |segments|
  {
    if |segments| == 0 then []
    else
      FallbackErrors(segments[..|segments| - 1], parser, walk, file, vendor, scanKeys)
      + SegmentErrors(segments[|segments| - 1], parser, walk, file, vendor, scanKeys)
  }

  /** The segments that parse on their own, in order. */
  function ParsedSegments<V>(segments: seq<string>, parser: YamlParser<V>): (values: seq<V>)
    ensures |values| <= |segments|
  {
    if |segments| == 0 then []
    else
      ParsedSegments(segments[..|segments| - 1], parser)
      + match parser.fromStr(segments[|segments| - 1])
        case None => []
        case Some(v) => [v]
  }

  /** The documents the scanner ends up walking: the whole stream, or else the segments that parse. */
  function RecoveredDocuments<V>(content: string, parser: YamlParser<V>): seq<V> {
    match parser.fromMultiple(content)
    case Some(docs) => docs
    case None => ParsedSegments(YamlDocuments(content), parser)
  }

  lemma {:induction false} FallbackWalksParsedSegments<V, E>(segments: seq<string>, parser: YamlParser<V>, walk: Walker<V, E>, file: FsPath, vendor: Option<string>, scanKeys: bool)
    ensures FallbackErrors(segments, parser, walk, file, vendor, scanKeys)
         == WalkDocuments(ParsedSegments(segments, parser), walk, file, vendor, scanKeys)
    decreases |segments|
  {
    if |segments| > 0 {
      var init := segments[..|segments| - 1];
      FallbackWalksParsedSegments(init, parser, walk, file, vendor, scanKeys);
      var ps := ParsedSegments(init, parser);
      match parser.fromStr(segments[|segments| - 1])
      case None =>
        assert ps + [] == ps;
      case Some(v) =>
        assert (ps + [v])[..|ps|] == ps;
    }
  }

  /**
   * `scan_yaml_content`: walk every document of the stream; when the stream
   * does not parse, walk each split segment that parses on its own.
   */
  function ScanYamlContent<V, E>(content: string, file: FsPath, vendor: Option<string>, scanKeys: bool, parser: YamlParser<V>, walk: Walker<V, E>): (errors: seq<E>)
    ensures errors == WalkDocuments(RecoveredDocuments(content, parser), walk, file, vendor, scanKeys)
  {
    match parser.fromMultiple(content)
    case Some(docs) => WalkDocuments(docs, walk, file, vendor, scanKeys)
    case None =>
      FallbackWalksParsedSegments(YamlDocuments(content), parser, walk, file, vendor, scanKeys);
      FallbackErrors(YamlDocuments(content), parser, walk, file, vendor, scanKeys)
  }

  lemma {:induction false} WalkDocumentsAppend<V, E>(a: seq<V>, b: seq<V>, walk: Walker<V, E>, file: FsPath, vendor: Option<string>, scanKeys: bool)
    ensures WalkDocuments(a + b, walk, file, vendor, scanKeys)
         == WalkDocuments(a, walk, file, vendor, scanKeys) + WalkDocuments(b, walk, file, vendor, scanKeys)
    decreases |b|
  {
    if |b| == 0 {
      assert a + b == a;
    } else {
      var b' := b[..|b| - 1];
      WalkDocumentsAppend(a, b', walk, file, vendor, scanKeys);
      assert (a + b)[..|a + b| - 1] == a + b';
    }
  }

  lemma {:induction false} FallbackErrorsAppend<V, E>(a: seq<string>, b: seq<string>, parser: YamlParser<V>, walk: Walker<V, E>, file: FsPath, vendor: Option<string>, scanKeys: bool)
    ensures FallbackErrors(a + b, parser, walk, file, vendor, scanKeys)
         == FallbackErrors(a, parser, walk, file, vendor, scanKeys) + FallbackErrors(b, parser, walk, file, vendor, scanKeys)
    decreases |b|
  {
    if |b| == 0 {
      assert a + b == a;
    } else {
      var b' := b[..|b| - 1];
      FallbackErrorsAppend(a, b', parser, walk, file, vendor, scanKeys);
      assert (a + b)[..|a + b| - 1] == a + b';
      assert (a + b)[|a + b| - 1] == b[|b| - 1];
    }
  }

  /** A segment that parses contributes its whole walk between its neighbours' errors. */
  lemma {:induction false} FallbackErrorsAround<V, E>(segs: seq<string>, k: nat, v: V, parser: YamlParser<V>, walk: Walker<V, E>, file: FsPath, vendor: Option<string>, scanKeys: bool)
    requires k < |segs|
    requires parser.fromStr(segs[k]) == Some(v)
    ensures FallbackErrors(segs, parser, walk, file, vendor, scanKeys)
         == FallbackErrors(segs[..k], parser, walk, file, vendor, scanKeys)
          + walk(v, file, vendor, ROOT_POINTER, scanKeys)
          + FallbackErrors(segs[k + 1..], parser, walk, file, vendor, scanKeys)
  {
    assert segs == segs[..k] + [segs[k]] + segs[k + 1..];
    FallbackErrorsAppend(segs[..k] + [segs[k]], segs[k + 1..], parser, walk, file, vendor, scanKeys);
    FallbackErrorsAppend(segs[..k], [segs[k]], parser, walk, file, vendor, scanKeys);
    assert FallbackErrors([segs[k]], parser, walk, file, vendor, scanKeys) == walk(v, file, vendor, ROOT_POINTER, scanKeys) by {
      assert [segs[k]][..0] == [];
    }
  }

  /**
   * Isolation: when the stream does not parse, the walk of any segment that
   * parses on its own appears in full, between the errors of the segments
   * before it and those of the segments after it, whatever those segments are.
   */
  lemma {:induction false} FallbackIsolation<V, E>(content: string, k: nat, v: V, file: FsPath, vendor: Option<string>, scanKeys: bool, parser: YamlParser<V>, walk: Walker<V, E>)
    requires parser.fromMultiple(content).None?
    requires k < |YamlDocuments(content)|
    requires parser.fromStr(YamlDocuments(content)[k]) == Some(v)
    ensures ScanYamlContent(content, file, vendor, scanKeys, parser, walk)
         == FallbackErrors(YamlDocuments(content)[..k], parser, walk, file, vendor, scanKeys)
          + walk(v, file, vendor, ROOT_POINTER, scanKeys)
          + FallbackErrors(YamlDocuments(content)[k + 1..], parser, walk, file, vendor, scanKeys)
  {
    FallbackErrorsAround(YamlDocuments(content), k, v, parser, walk, file, vendor, scanKeys);
  }

  lemma {:induction false} WalkDocumentsOrigin<V, E>(docs: seq<V>, e: E, walk: Walker<V, E>, file: FsPath, vendor: Option<string>, scanKeys: bool)
    requires e in WalkDocuments(docs, walk, file, vendor, scanKeys)
    ensures exists k :: 0 <= k < |docs| && e in walk(docs[k], file, vendor, ROOT_POINTER, scanKeys)
    decreases |docs|
  {
    var init := docs[..|docs| - 1];
    if e !in walk(docs[|docs| - 1], file, vendor, ROOT_POINTER, scanKeys) {
      WalkDocumentsOrigin(init, e, walk, file, vendor, scanKeys);
      var k :| 0 <= k < |init| && e in walk(init[k], file, vendor, ROOT_POINTER, scanKeys);
      assert init[k] == docs[k];
    }
  }

  /** The scanner adds nothing of its own: every error is one the walker produced for a recovered document. */
  lemma {:induction false} ScanYamlErrorOrigin<V, E>(content: string, e: E, file: FsPath, vendor: Option<string>, scanKeys: bool, parser: YamlParser<V>, walk: Walker<V, E>)
    requires e in ScanYamlContent(content, file, vendor, scanKeys, parser, walk)
    ensures exists k :: 0 <= k < |RecoveredDocuments(content, parser)|
                        && e in walk(RecoveredDocuments(content, parser)[k], file, vendor, ROOT_POINTER, scanKeys)
  {
    WalkDocumentsOrigin(RecoveredDocuments(content, parser), e, walk, file, vendor, scanKeys);
  }

  lemma {:induction false} NothingParsedNothingWalked<V>(segments: seq<string>, parser: YamlParser<V>)
    requires forall k :: 0 <= k < |segments| ==> parser.fromStr(segments[k]).None?
    ensures ParsedSegments(segments, parser) == []
    decreases |segments|
  {
    if |segments| > 0 {
      NothingParsedNothingWalked(segments[..|segments| - 1], parser);
    }
  }

  /** Content that parses neither as a stream nor segment by segment yields no errors at all. */
  lemma {:induction false} UnparseableYieldsNoErrors<V, E>(content: string, file: FsPath, vendor: Option<string>, scanKeys: bool, parser: YamlParser<V>, walk: Walker<V, E>)
    requires parser.fromMultiple(content).None?
    requires forall k :: 0 <= k < |YamlDocuments(content)| ==> parser.fromStr(YamlDocuments(content)[k]).None?
    ensures ScanYamlContent(content, file, vendor, scanKeys, parser, walk) == []
  {
    NothingParsedNothingWalked(YamlDocuments(content), parser);
  }

  // ---------------------------------------------------------------------------
  // A three-document stream with a malformed middle document
  // ---------------------------------------------------------------------------

  /** A line that `Lines` hands back unchanged: no line break, no trailing carriage return. */
  predicate PlainLine(line: string) {
    '\n' !in line && |line| > 0 && line[|line| - 1] != '\r'
  }

  /** Lines each followed by `\n`. */
  function Terminated(ls: seq<string>): string
    decreases |ls|
  {
    if |ls| == 0 then "" else ls[0] + "\n" + Terminated(ls[1..])
  }

  /** Documents `a`, `b` and `a` again, separated by `---` lines, with a final newline. */
  function ThreeDocumentStream(a: string, b: string): string {
    Terminated([a, "---", b, "---", a])
  }

  lemma {:induction false} LinesCons(line: string, rest: string)
    requires PlainLine(line)
    ensures Lines(line + "\n" + rest) == [line] + Lines(rest)
  {
    var s := line + "\n" + rest;
    var i := IndexOf(s, '\n');
    assert s[|line|] == '\n';
    assert s[..|line|] == line;
    assert i == |line|;
    assert s[i + 1..] == rest;
  }

  /** Plain lines, each terminated by `\n`, read back as themselves. */
  lemma {:induction false} LinesOfTerminated(ls: seq<string>)
    requires forall k :: 0 <= k < |ls| ==> PlainLine(ls[k])
    ensures Lines(Terminated(ls)) == ls
    decreases |ls|
  {
    if |ls| > 0 {
      LinesOfTerminated(ls[1..]);
      LinesCons(ls[0], Terminated(ls[1..]));
    }
  }

  lemma {:induction false} ThreeDocumentLines(a: string, b: string)
    requires PlainLine(a) && PlainLine(b)
    ensures Lines(ThreeDocumentStream(a, b)) == [a, "---", b, "---", a]
  {
    assert PlainLine("---");
    LinesOfTerminated([a, "---", b, "---", a]);
  }

  lemma {:induction false} DashesSeparate()
    ensures IsSeparator("---")
  {
    assert TrimStart("---") == "---";
    assert TrimEnd("---") == "---";
  }

  /** Runs that agree past a common prefix of closed runs keep agreeing after one more line. */
  lemma {:induction false} RunsAfterPrefixStep(zs: seq<string>, ys: seq<string>, l: string, pre: seq<seq<string>>, isSep: string -> bool)
    requires RunsOf(zs, isSep) == Runs(pre + RunsOf(ys, isSep).closed, RunsOf(ys, isSep).open)
    ensures RunsOf(zs + [l], isSep) == Runs(pre + RunsOf(ys + [l], isSep).closed, RunsOf(ys + [l], isSep).open)
  {
    RunsSnoc(zs, l, isSep);
    RunsSnoc(ys, l, isSep);
  }

  /** A separator line splits the runs: those before it, then those after it. */
  lemma {:induction false} RunsAtSeparator(xs: seq<string>, sep: string, ys: seq<string>, isSep: string -> bool)
    requires isSep(sep)
    ensures RunsOf(xs + [sep] + ys, isSep) == Runs(Groups(xs, isSep) + RunsOf(ys, isSep).closed, RunsOf(ys, isSep).open)
    decreases |ys|
  {
    if |ys| == 0 {
      assert xs + [sep] + ys == xs + [sep];
      RunsSnoc(xs, sep, isSep);
    } else {
      var init := ys[..|ys| - 1];
      var l := ys[|ys| - 1];
      RunsAtSeparator(xs, sep, init, isSep);
      assert xs + [sep] + ys == (xs + [sep] + init) + [l];
      assert ys == init + [l];
      RunsAfterPrefixStep(xs + [sep] + init, init, l, Groups(xs, isSep), isSep);
    }
  }

  /** The runs on either side of a separator line, one after the other. */
  lemma {:induction false} GroupsAtSeparator(xs: seq<string>, sep: string, ys: seq<string>, isSep: string -> bool)
    requires isSep(sep)
    ensures Groups(xs + [sep] + ys, isSep) == Groups(xs, isSep) + Groups(ys, isSep)
  {
    RunsAtSeparator(xs, sep, ys, isSep);
  }

  /** A single line that is not a separator is a single run. */
  lemma {:induction false} GroupsOfOneLine(a: string, isSep: string -> bool)
    requires !isSep(a)
    ensures Groups([a], isSep) == [[a]]
  {
    assert [a][..0] == [];
    assert RunsOf([a], isSep) == Runs([], [a]);
  }

  lemma {:induction false} ThreeDocumentGroups(a: string, b: string)
    requires !IsSeparator(a) && !IsSeparator(b)
    ensures Groups([a, "---", b, "---", a], IsSeparator) == [[a], [b], [a]]
  {
    DashesSeparate();
    GroupsOfOneLine(a, IsSeparator);
    GroupsOfOneLine(b, IsSeparator);
    GroupsAtSeparator([b], "---", [a], IsSeparator);
    assert [b] + ["---"] + [a] == [b, "---", a];
    GroupsAtSeparator([a], "---", [b, "---", a], IsSeparator);
    assert [a] + ["---"] + [b, "---", a] == [a, "---", b, "---", a];
  }

  /** The stream splits into its three documents, the malformed one included. */
  lemma {:induction false} ThreeDocumentDocuments(a: string, b: string)
    requires PlainLine(a) && PlainLine(b)
    requires !IsSeparator(a) && !IsSeparator(b)
    requires !IsBlank(a) && !IsBlank(b)
    ensures YamlDocuments(ThreeDocumentStream(a, b)) == [a, b, a]
  {
    ThreeDocumentLines(a, b);
    ThreeDocumentGroups(a, b);
    var gs := [[a], [b], [a]];
    assert JoinWith([a], '\n') == a;
    assert JoinWith([b], '\n') == b;
    assert KeepGroup([a]) == [a];
    assert KeepGroup([b]) == [b];
    assert gs[..2] == [[a], [b]] && gs[..2][..1] == [[a]] && gs[..2][..1][..0] == [];
    assert KeepDocuments(gs[..2][..1]) == [a];
    assert KeepDocuments(gs[..2]) == [a, b];
    assert Lines(ThreeDocumentStream(a, b)) == [a, "---", b, "---", a];
  }

  /**
   * With the whole stream rejected and the middle document malformed, both
   * copies of the valid document are still walked: the errors are the walk
   * of the valid document twice, and nothing from the malformed one.
   */
  lemma {:induction false} MalformedMiddleDocumentIsolated<V, E>(a: string, b: string, v: V, file: FsPath, vendor: Option<string>, scanKeys: bool, parser: YamlParser<V>, walk: Walker<V, E>)
    requires PlainLine(a) && PlainLine(b)
    requires !IsSeparator(a) && !IsSeparator(b)
    requires !IsBlank(a) && !IsBlank(b)
    requires parser.fromMultiple(ThreeDocumentStream(a, b)).None?
    requires parser.fromStr(a) == Some(v)
    requires parser.fromStr(b).None?
    ensures ScanYamlContent(ThreeDocumentStream(a, b), file, vendor, scanKeys, parser, walk)
         == walk(v, file, vendor, ROOT_POINTER, scanKeys) + walk(v, file, vendor, ROOT_POINTER, scanKeys)
  {
    ThreeDocumentDocuments(a, b);
    ParsedAroundRejected(a, b, v, parser);
    WalkedTwice(v, walk, file, vendor, scanKeys);
  }

  /** Of a segment that parses, one that does not, and the first again, only the two parses remain. */
  lemma {:induction false} ParsedAroundRejected<V>(a: string, b: string, v: V, parser: YamlParser<V>)
    requires parser.fromStr(a) == Some(v)
    requires parser.fromStr(b).None?
    ensures ParsedSegments([a, b, a], parser) == [v, v]
  {
    var segs := [a, b, a];
    assert segs[..2] == [a, b] && segs[..2][..1] == [a] && segs[..2][..1][..0] == [];
    assert ParsedSegments(segs[..2][..1], parser) == [v];
    assert ParsedSegments(segs[..2], parser) == [v];
  }

  /** Walking the same document twice reports its errors twice, in a row. */
  lemma {:induction false} WalkedTwice<V, E>(v: V, walk: Walker<V, E>, file: FsPath, vendor: Option<string>, scanKeys: bool)
    ensures WalkDocuments([v, v], walk, file, vendor, scanKeys)
         == walk(v, file, vendor, ROOT_POINTER, scanKeys) + walk(v, file, vendor, ROOT_POINTER, scanKeys)
  {
    var vs := [v, v];
    assert vs[..1] == [v] && vs[..1][..0] == [];
    assert WalkDocuments(vs[..1], walk, file, vendor, scanKeys) == walk(v, file, vendor, ROOT_POINTER, scanKeys);
  }

  const VALID_DOC := "$id: gts.y.core.pkg.mytype.v1~"
  const MALFORMED_DOC := "invalid: yaml: syntax:"

  /** A line with no white space at either end, other than `---`, is neither a separator nor blank. */
  lemma {:induction false} ContentLine(line: string)
    requires |line| > 0 && !IsWhitespace(line[0]) && !IsWhitespace(line[|line| - 1])
    requires line != "---"
    ensures !IsSeparator(line) && !IsBlank(line)
  {
    TrimUnchanged(line);
  }

  lemma {:induction false} ValidDocumentIsPlain()
    ensures PlainLine(VALID_DOC) && !IsSeparator(VALID_DOC) && !IsBlank(VALID_DOC)
  {
    ContentLine(VALID_DOC);
  }

  lemma {:induction false} MalformedDocumentIsPlain()
    ensures PlainLine(MALFORMED_DOC) && !IsSeparator(MALFORMED_DOC) && !IsBlank(MALFORMED_DOC)
  {
    ContentLine(MALFORMED_DOC);
  }

  /**
   * The recovery scenario with a `$id`-bearing document around an unparseable
   * `invalid: yaml: syntax:` line: only the valid document's walk is reported, twice.
   */
  lemma {:induction false} MixedStreamRecovery<V, E>(v: V, file: FsPath, vendor: Option<string>, scanKeys: bool, parser: YamlParser<V>, walk: Walker<V, E>)
    requires parser.fromMultiple(ThreeDocumentStream(VALID_DOC, MALFORMED_DOC)).None?
    requires parser.fromStr(VALID_DOC) == Some(v)
    requires parser.fromStr(MALFORMED_DOC).None?
    ensures ScanYamlContent(ThreeDocumentStream(VALID_DOC, MALFORMED_DOC), file, vendor, scanKeys, parser, walk)
         == walk(v, file, vendor, ROOT_POINTER, scanKeys) + walk(v, file, vendor, ROOT_POINTER, scanKeys)
  {
    ValidDocumentIsPlain();
    MalformedDocumentIsPlain();
    MalformedMiddleDocumentIsolated(VALID_DOC, MALFORMED_DOC, v, file, vendor, scanKeys, parser, walk);
  }
}

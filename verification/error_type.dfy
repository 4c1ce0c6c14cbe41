/**
 * Error types declared with the `gts_error` attribute: the attribute's
 * admissibility rules, the GTS identity of the declared type (its segment
 * chain, rooted at the chain of its base error type), its display text,
 * and the metadata collected from its fields.
 *
 * The procedural macro that expands the attribute is not part of this
 * model; what is modelled is the contract the `GtsError` trait documents
 * and the behaviour its tests pin down.
 */
module ErrorType {
  import opened Wrappers
  import opened Text
  import opened GtsChain

  /** The HTTP status range the attribute accepts. */
  const MIN_STATUS := 100
  const MAX_STATUS := 599

  /** The metadata key of a field marked `as_errors`. */
  const ERRORS_KEY := "errors"

  /** A declared error type: its own segment, the error type it extends, its HTTP status and its title. */
  datatype ErrorTypeDef = ErrorTypeDef(typeName: string, base: Option<ErrorTypeDef>, status: int, title: string)

  /** The chain segments of an error type: its base's segments, then its own. */
  function Segments(e: ErrorTypeDef): (segs: seq<string>)
    ensures |segs| >= 1 && segs[|segs| - 1] == e.typeName
    ensures e.base.None? ==> segs == [e.typeName]
    decreases e
  {
    match e.base
    case None => [e.typeName]
    case Some(b) => Segments(b) + [e.typeName]
  }

  /** The number of error types from `e` up to its root, `e` and the root included. */
  function Depth(e: ErrorTypeDef): nat
    decreases e
  {
    match e.base
    case None => 1
    case Some(b) => 1 + Depth(b)
  }

  /** `gts_id`: the full type URI. */
  function GtsId(e: ErrorTypeDef): string {
    Uri(Segments(e))
  }

  /** `Display`: the title, a colon, and the type URI. */
  function Display(e: ErrorTypeDef): string {
    e.title + ": " + GtsId(e)
  }

  /** An error type has one segment per level of its base chain. */
  lemma {:induction false} SegmentsCountDepth(e: ErrorTypeDef)
    ensures |Segments(e)| == Depth(e)
    decreases e
  {
    match e.base
    case None =>
    case Some(b) => SegmentsCountDepth(b);
  }

  /** A root error's id is `gts://` followed by its type and `~`. */
  lemma {:induction false} RootGtsId(e: ErrorTypeDef)
    requires e.base.None?
    ensures GtsId(e) == URI_PREFIX + e.typeName + [SEGMENT_END]
  {
    assert Chain([e.typeName]) == e.typeName + [SEGMENT_END] + Chain([]);
  }

  /** A child error's id is `gts://`, its base's chain, its own type, and `~`. */
  lemma {:induction false} ChildGtsId(e: ErrorTypeDef)
    requires e.base.Some?
    ensures GtsId(e) == URI_PREFIX + Chain(Segments(e.base.value)) + e.typeName + [SEGMENT_END]
  {
    ChainExtend(Segments(e.base.value), e.typeName);
  }

  /** A child's id begins with its base's id, so it contains the base's segment chain. */
  lemma {:induction false} ChildIdExtendsBaseId(e: ErrorTypeDef)
    requires e.base.Some?
    ensures GtsId(e.base.value) <= GtsId(e)
    ensures |GtsId(e.base.value)| < |GtsId(e)|
  {
    ChildGtsId(e);
  }

  /** Segment names that can be read back from the id: none of them contains `~`. */
  predicate ValidNames(e: ErrorTypeDef) {
    ValidSegments(Segments(e))
  }

  /**
   * The id starts with `gts://`, ends with `~`, and after removing both and
   * splitting on `~` yields one segment per level of the base chain.
   */
  lemma {:induction false} GtsIdShape(e: ErrorTypeDef)
    requires ValidNames(e)
    ensures URI_PREFIX <= GtsId(e) && EndsWith(GtsId(e), [SEGMENT_END])
    ensures UriSegments(GtsId(e)) == Some(Segments(e))
    ensures |UriSegments(GtsId(e)).value| == Depth(e)
  {
    UriShape(Segments(e));
    UriRoundTrip(Segments(e));
    SegmentsCountDepth(e);
  }

  // ---------------------------------------------------------------------------
  // The attribute
  // ---------------------------------------------------------------------------

  /** A field of the annotated struct and its value, with its two field-level markers. */
  datatype FieldDecl<J> = FieldDecl(name: string, skipMetadata: bool, asErrors: bool, value: J)

  /** The item the attribute is placed on. */
  datatype ItemShape<J> = NamedStruct(fields: seq<FieldDecl<J>>) | UnitStruct | TupleStruct | Enum

  /** The attribute's arguments as written; each may be absent. */
  datatype GtsErrorAttrs = GtsErrorAttrs(typeName: Option<string>, base: Option<ErrorTypeDef>, status: Option<int>, title: Option<string>)

  /** Why the attribute is rejected at compile time. */
  datatype AttrError = MissingType | MissingStatus | InvalidStatus(status: int) | MissingTitle | NotAStruct | TupleStructUnsupported

  /** What an accepted attribute produces: the error type and the struct's fields. */
  datatype GtsErrorType<J> = GtsErrorType(def: ErrorTypeDef, fields: seq<FieldDecl<J>>)

  /** Everything the attribute requires: `type`, `status` in range, `title`, and a struct with named fields or none. */
  predicate Admissible<J>(attrs: GtsErrorAttrs, shape: ItemShape<J>) {
    && attrs.typeName.Some?
    && attrs.status.Some? && MIN_STATUS <= attrs.status.value <= MAX_STATUS
    && attrs.title.Some?
    && (shape.NamedStruct? || shape.UnitStruct?)
  }

  /**
   * Expanding the attribute: the item shape is checked first, then the
   * arguments in the order `type`, `status`, `title`.
   */
  function ExpandGtsError<J>(attrs: GtsErrorAttrs, shape: ItemShape<J>): (r: Result<GtsErrorType<J>, AttrError>)
    ensures r.Success? <==> Admissible(attrs, shape)
    ensures r.Success? ==> MIN_STATUS <= r.value.def.status <= MAX_STATUS
    ensures r.Success? ==> r.value.def == ErrorTypeDef(attrs.typeName.value, attrs.base, attrs.status.value, attrs.title.value)
    ensures r.Success? ==> r.value.fields == (if shape.NamedStruct? then shape.fields else [])
    ensures r == Failure(MissingType) ==> attrs.typeName.None?
    ensures r == Failure(MissingStatus) ==> attrs.status.None?
    ensures r.Failure? && r.error.InvalidStatus? ==> attrs.status == Some(r.error.status) && !(MIN_STATUS <= r.error.status <= MAX_STATUS)
    ensures r == Failure(MissingTitle) ==> attrs.title.None?
    ensures r == Failure(NotAStruct) <==> shape.Enum?
    ensures r == Failure(TupleStructUnsupported) <==> shape.TupleStruct?
  {
    if shape.Enum? then Failure(NotAStruct)
    else if shape.TupleStruct? then Failure(TupleStructUnsupported)
    else if attrs.typeName.None? then Failure(MissingType)
    else if attrs.status.None? then Failure(MissingStatus)
    else if !(MIN_STATUS <= attrs.status.value <= MAX_STATUS) then Failure(InvalidStatus(attrs.status.value))
    else if attrs.title.None? then Failure(MissingTitle)
    else
      var fields := if shape.NamedStruct? then shape.fields else [];
      Success(GtsErrorType(ErrorTypeDef(attrs.typeName.value, attrs.base, attrs.status.value, attrs.title.value), fields))
  }

  // ---------------------------------------------------------------------------
  // Metadata
  // ---------------------------------------------------------------------------

  /** The key a field's value is stored under. */
  function MetaKey<J>(f: FieldDecl<J>): string {
    if f.asErrors then ERRORS_KEY else f.name
  }

  /** The positions of the fields not marked `skip_metadata`. */
  function EligiblePositions<J>(fields: seq<FieldDecl<J>>): set<int> {
    set k | 0 <= k < |fields| && !fields[k].skipMetadata
  }

  /** The fields that contribute metadata: those not marked `skip_metadata`, in declaration order. */
  function EligibleFields<J>(fields: seq<FieldDecl<J>>): (es: seq<FieldDecl<J>>)
    ensures forall k :: 0 <= k < |es| ==> !es[k].skipMetadata
    ensures forall f :: f in es ==> f in fields
    ensures |es| == 0 <==> forall k :: 0 <= k < |fields| ==> fields[k].skipMetadata
  {
    if |fields| == 0 then []
    else
      var init := fields[..|fields| - 1];
      var last := fields[|fields| - 1];
      var es := EligibleFields(init);
      assert forall k :: 0 <= k < |init| ==> init[k] == fields[k];
      if last.skipMetadata then es else es + [last]
  }

  /** No field without `skip_metadata` is left out. */
  lemma {:induction false} EligibleFieldKept<J>(fields: seq<FieldDecl<J>>, k: nat)
    requires k < |fields| && !fields[k].skipMetadata
    ensures fields[k] in EligibleFields(fields)
    decreases |fields|
  {
    var init := fields[..|fields| - 1];
    if k < |init| {
      EligibleFieldKept(init, k);
      assert init[k] == fields[k];
    }
  }

  /** There is one eligible field per position not marked `skip_metadata`. */
  lemma {:induction false} EligibleFieldsCount<J>(fields: seq<FieldDecl<J>>)
    ensures |EligibleFields(fields)| == |EligiblePositions(fields)|
    decreases |fields|
  {
    if |fields| == 0 {
      assert EligiblePositions(fields) == {};
    } else {
      var init := fields[..|fields| - 1];
      var n := |fields| - 1;
      EligibleFieldsCount(init);
      assert forall k :: 0 <= k < |init| ==> init[k] == fields[k];
      assert n !in EligiblePositions(init);
      if fields[n].skipMetadata {
        assert EligiblePositions(fields) == EligiblePositions(init);
      } else {
        assert EligiblePositions(fields) == EligiblePositions(init) + {n};
      }
    }
  }

  /** Declaration order is kept: the eligible fields of two field lists, one after the other. */
  lemma {:induction false} EligibleFieldsAppend<J>(a: seq<FieldDecl<J>>, b: seq<FieldDecl<J>>)
    ensures EligibleFields(a + b) == EligibleFields(a) + EligibleFields(b)
    decreases |b|
  {
    if |b| == 0 {
      assert a + b == a;
    } else {
      var b' := b[..|b| - 1];
      EligibleFieldsAppend(a, b');
      assert (a + b)[..|a + b| - 1] == a + b';
      assert (a + b)[|a + b| - 1] == b[|b| - 1];
    }
  }

  /** The metadata map, filled field by field in declaration order. */
  function Entries<J>(fields: seq<FieldDecl<J>>): map<string, J> {
    if |fields| == 0 then map[]
    else
      var m := Entries(fields[..|fields| - 1]);
      var last := fields[|fields| - 1];
      if last.skipMetadata then m else m[MetaKey(last) := last.value]
  }

  /** `error_metadata`: `None` when no field is eligible, else the map of the eligible fields. */
  function ErrorMetadata<J>(fields: seq<FieldDecl<J>>): Option<map<string, J>> {
    if |EligibleFields(fields)| == 0 then None else Some(Entries(fields))
  }

  /** Metadata is absent exactly when every field is marked `skip_metadata`. */
  lemma {:induction false} MetadataNoneIff<J>(fields: seq<FieldDecl<J>>)
    ensures ErrorMetadata(fields).None? <==> forall k :: 0 <= k < |fields| ==> fields[k].skipMetadata
  {
  }

  /** The keys are exactly the keys of the eligible fields: `errors` for `as_errors`, the field name otherwise. */
  lemma {:induction false} EntriesKeys<J>(fields: seq<FieldDecl<J>>, key: string)
    ensures key in Entries(fields) <==> exists k :: 0 <= k < |fields| && !fields[k].skipMetadata && MetaKey(fields[k]) == key
  {
    if |fields| > 0 {
      var init := fields[..|fields| - 1];
      EntriesKeys(init, key);
      if exists k :: 0 <= k < |init| && !init[k].skipMetadata && MetaKey(init[k]) == key {
        var k :| 0 <= k < |init| && !init[k].skipMetadata && MetaKey(init[k]) == key;
        assert fields[k] == init[k];
      }
      if exists k :: 0 <= k < |fields| && !fields[k].skipMetadata && MetaKey(fields[k]) == key {
        var k :| 0 <= k < |fields| && !fields[k].skipMetadata && MetaKey(fields[k]) == key;
        if k < |init| {
          assert init[k] == fields[k];
        }
      }
    }
  }

  /** The eligible fields have pairwise different keys. */
  predicate DistinctKeys<J>(fields: seq<FieldDecl<J>>) {
    forall i, j :: 0 <= i < j < |fields| && !fields[i].skipMetadata && !fields[j].skipMetadata ==> MetaKey(fields[i]) != MetaKey(fields[j])
  }

  /**
   * With distinct keys every eligible field is stored under its key with its
   * own value, and the map has one entry per eligible field.
   */
  lemma {:induction false} EntriesValues<J>(fields: seq<FieldDecl<J>>)
    requires DistinctKeys(fields)
    ensures forall k :: 0 <= k < |fields| && !fields[k].skipMetadata ==>
      MetaKey(fields[k]) in Entries(fields) && Entries(fields)[MetaKey(fields[k])] == fields[k].value
    ensures |Entries(fields)| == |EligibleFields(fields)|
    ensures |Entries(fields)| == |EligiblePositions(fields)|
  {
    if |fields| > 0 {
      var init := fields[..|fields| - 1];
      var last := fields[|fields| - 1];
      assert forall k :: 0 <= k < |init| ==> init[k] == fields[k];
      EntriesValues(init);
      EligibleFieldsCount(fields);
      if !last.skipMetadata {
        EntriesKeys(init, MetaKey(last));
      }
    }
  }

  /** A field marked `skip_metadata` leaves no entry under its name unless an eligible field claims that key. */
  lemma {:induction false} SkippedFieldAbsent<J>(fields: seq<FieldDecl<J>>, k: nat)
    requires k < |fields| && fields[k].skipMetadata
    requires forall j :: 0 <= j < |fields| && !fields[j].skipMetadata ==> MetaKey(fields[j]) != fields[k].name
    ensures fields[k].name !in Entries(fields)
  {
    EntriesKeys(fields, fields[k].name);
  }

  // ---------------------------------------------------------------------------
  // The declared error types
  // ---------------------------------------------------------------------------

  const BASE_ERROR := ErrorTypeDef("gts.cf.core.errors.err.v1", None, 500, "Error")
  const ENTITY_NOT_FOUND := ErrorTypeDef("cf.system.logical.not_found.v1", Some(BASE_ERROR), 404, "Not Found")
  const UNIT_ROOT_ERROR := ErrorTypeDef("gts.cf.core.errors.unit.v1", None, 500, "Unit Error")

  /** The ids of `BaseError` and `EntityNotFoundError`, written segment by segment. */
  lemma {:induction false} DeclaredIds()
    ensures GtsId(BASE_ERROR) == "gts://" + "gts.cf.core.errors.err.v1" + "~"
    ensures GtsId(ENTITY_NOT_FOUND) == "gts://" + ("gts.cf.core.errors.err.v1" + "~") + "cf.system.logical.not_found.v1" + "~"
  {
    var root := "gts.cf.core.errors.err.v1";
    RootGtsId(BASE_ERROR);
    ChildGtsId(ENTITY_NOT_FOUND);
    assert Segments(BASE_ERROR) == [root];
    assert Chain([root]) == root + "~" + Chain([]);
  }

  /** `Display` of the declared types: title, colon, id. */
  lemma {:induction false} DeclaredDisplays()
    ensures Display(BASE_ERROR) == "Error" + ": " + ("gts://" + "gts.cf.core.errors.err.v1" + "~")
    ensures Display(ENTITY_NOT_FOUND)
         == "Not Found" + ": " + ("gts://" + ("gts.cf.core.errors.err.v1" + "~") + "cf.system.logical.not_found.v1" + "~")
    ensures Display(UNIT_ROOT_ERROR) == "Unit Error" + ": " + ("gts://" + "gts.cf.core.errors.unit.v1" + "~")
  {
    DeclaredIds();
    RootGtsId(UNIT_ROOT_ERROR);
  }

  /** The root id reads back as one segment, the child id as two. */
  lemma {:induction false} DeclaredSegmentCounts()
    ensures UriSegments(GtsId(BASE_ERROR)).Some? && |UriSegments(GtsId(BASE_ERROR)).value| == 1
    ensures UriSegments(GtsId(ENTITY_NOT_FOUND)).Some? && |UriSegments(GtsId(ENTITY_NOT_FOUND)).value| == 2
  {
    RootSegmentCount();
    ChildSegmentCount();
  }

  /** The root id reads back as one segment. */
  lemma {:induction false} RootSegmentCount()
    ensures UriSegments(GtsId(BASE_ERROR)).Some? && |UriSegments(GtsId(BASE_ERROR)).value| == 1
  {
    assert SEGMENT_END !in BASE_ERROR.typeName;
    GtsIdShape(BASE_ERROR);
  }

  /** The child id reads back as two segments: its base's and its own. */
  lemma {:induction false} ChildSegmentCount()
    ensures UriSegments(GtsId(ENTITY_NOT_FOUND)).Some? && |UriSegments(GtsId(ENTITY_NOT_FOUND)).value| == 2
  {
    assert SEGMENT_END !in BASE_ERROR.typeName;
    assert SEGMENT_END !in ENTITY_NOT_FOUND.typeName;
    GtsIdShape(ENTITY_NOT_FOUND);
  }

  /** The attributes on `BaseError` and `EntityNotFoundError` expand to the declared types. */
  lemma {:induction false} DeclaredAttributesExpand<J>(gtsId: J)
    ensures ExpandGtsError<J>(GtsErrorAttrs(Some("gts.cf.core.errors.err.v1"), None, Some(500), Some("Error")), UnitStruct)
         == Success(GtsErrorType(BASE_ERROR, []))
    ensures ExpandGtsError(GtsErrorAttrs(Some("cf.system.logical.not_found.v1"), Some(BASE_ERROR), Some(404), Some("Not Found")),
                           NamedStruct([FieldDecl("gts_id", false, false, gtsId)]))
         == Success(GtsErrorType(ENTITY_NOT_FOUND, [FieldDecl("gts_id", false, false, gtsId)]))
  {
  }

  /** Each malformed attribute of the compile-fail cases is rejected for its own reason. */
  lemma {:induction false} CompileFailCases<J>(gtsId: J)
    ensures ExpandGtsError(GtsErrorAttrs(Some("cf.system.logical.not_found.v1"), None, Some(999), Some("Not Found")),
                           NamedStruct([FieldDecl("gts_id", false, false, gtsId)])) == Failure(InvalidStatus(999))
    ensures ExpandGtsError(GtsErrorAttrs(Some("cf.system.logical.not_found.v1"), None, None, Some("Not Found")),
                           NamedStruct([FieldDecl("gts_id", false, false, gtsId)])) == Failure(MissingStatus)
    ensures ExpandGtsError(GtsErrorAttrs(Some("cf.system.logical.not_found.v1"), None, Some(404), None),
                           NamedStruct([FieldDecl("gts_id", false, false, gtsId)])) == Failure(MissingTitle)
    ensures ExpandGtsError(GtsErrorAttrs(None, None, Some(404), Some("Not Found")),
                           NamedStruct([FieldDecl("gts_id", false, false, gtsId)])) == Failure(MissingType)
    ensures ExpandGtsError<J>(GtsErrorAttrs(Some("cf.system.logical.not_found.v1"), None, Some(404), Some("Not Found")), Enum)
         == Failure(NotAStruct)
    ensures ExpandGtsError<J>(GtsErrorAttrs(Some("cf.system.logical.not_found.v1"), None, Some(404), Some("Not Found")), TupleStruct)
         == Failure(TupleStructUnsupported)
  {
  }

  /** `ValidationFailedError`: the `as_errors` list lands under `errors`, next to `entity_type`. */
  lemma {:induction false} AsErrorsMetadata<J>(violations: J, entityType: J)
    ensures ErrorMetadata([FieldDecl("violations", false, true, violations), FieldDecl("entity_type", false, false, entityType)])
         == Some(map[ERRORS_KEY := violations, "entity_type" := entityType])
  {
    var f0 := FieldDecl("violations", false, true, violations);
    var f1 := FieldDecl("entity_type", false, false, entityType);
    var fields := [f0, f1];
    assert fields[..1] == [f0] && [f0][..0] == [];
    assert Entries([f0]) == map[ERRORS_KEY := violations];
    assert EligibleFields(fields) == fields;
    assert Entries(fields) == map[ERRORS_KEY := violations]["entity_type" := entityType];
  }

  /** `ConnectionRefusedError`: the skipped trace is left out, one entry remains. */
  lemma {:induction false} SkipMetadataExample<J>(targetHost: J, internalTrace: J)
    ensures ErrorMetadata([FieldDecl("target_host", false, false, targetHost), FieldDecl("internal_trace", true, false, internalTrace)])
         == Some(map["target_host" := targetHost])
  {
    var f0 := FieldDecl("target_host", false, false, targetHost);
    var f1 := FieldDecl("internal_trace", true, false, internalTrace);
    var fields := [f0, f1];
    assert fields[..1] == [f0] && [f0][..0] == [];
    assert Entries([f0]) == map["target_host" := targetHost];
    assert EligibleFields(fields) == [f0];
  }

  /** A unit struct, and a struct whose fields are all skipped, have no metadata. */
  lemma {:induction false} NoMetadataExamples<J>(debugInfo: J, stackTrace: J)
    ensures ErrorMetadata<J>([]).None?
    ensures ErrorMetadata([FieldDecl("debug_info", true, false, debugInfo), FieldDecl("stack_trace", true, false, stackTrace)]).None?
  {
    MetadataNoneIff<J>([]);
    MetadataNoneIff([FieldDecl("debug_info", true, false, debugInfo), FieldDecl("stack_trace", true, false, stackTrace)]);
  }
}

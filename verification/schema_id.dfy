/**
 * Schema types declared with the `struct_to_gts_schema` attribute: the
 * schema id they carry, the id of the schema they extend, and the ids of
 * their instances.
 *
 * The procedural macro, the JSON Schema it generates and serde's handling
 * of the struct are not part of this model.
 */
module SchemaId {
  import opened Wrappers
  import opened Text
  import opened GtsChain

  /** `base = true`, or `base = Parent`. */
  datatype SchemaBase = BaseTrue | Extends(parent: SchemaType)

  /** A schema type: the `schema_id` argument as written and the declared base. */
  datatype SchemaType = SchemaType(schemaId: string, base: SchemaBase)

  /** `gts_schema_id`: the declared id, verbatim. */
  function GtsSchemaId(t: SchemaType): string {
    t.schemaId
  }

  /** `gts_base_schema_id`: nothing for a base type, the parent's schema id for a child. */
  function GtsBaseSchemaId(t: SchemaType): (r: Option<string>)
    ensures r.None? <==> t.base.BaseTrue?
  {
    match t.base
    case BaseTrue => None
    case Extends(parent) => Some(GtsSchemaId(parent))
  }

  /** `gts_make_instance_id`: the schema id directly followed by the instance suffix. */
  function GtsMakeInstanceId(t: SchemaType, suffix: string): (id: string)
    ensures GtsSchemaId(t) <= id && |id| == |GtsSchemaId(t)| + |suffix|
  {
    GtsSchemaId(t) + suffix
  }

  /** A chain: non-empty text ending in `~`. */
  predicate IsChain(id: string) {
    |id| > 0 && id[|id| - 1] == SEGMENT_END
  }

  /** `child` is `parent` followed by exactly one more `~`-terminated segment. */
  predicate ExtendsByOneSegment(child: string, parent: string) {
    && parent <= child
    && IsChain(child[|parent|..])
    && SEGMENT_END !in child[|parent|..|child| - 1]
  }

  /** A base type carries a chain; a child carries its parent's chain plus one segment. */
  predicate WellFormed(t: SchemaType)
    decreases t
  {
    match t.base
    case BaseTrue => IsChain(t.schemaId)
    case Extends(parent) => WellFormed(parent) && ExtendsByOneSegment(t.schemaId, parent.schemaId)
  }

  lemma {:induction false} WellFormedIsChain(t: SchemaType)
    requires WellFormed(t)
    ensures IsChain(t.schemaId)
  {
    match t.base
    case BaseTrue =>
    case Extends(parent) =>
      assert t.schemaId[|parent.schemaId|..][|t.schemaId| - |parent.schemaId| - 1] == t.schemaId[|t.schemaId| - 1];
  }

  /** A child's base schema id is its own chain with the last segment removed. */
  lemma {:induction false} BaseIdDropsLastSegment(t: SchemaType)
    requires WellFormed(t) && t.base.Extends?
    ensures GtsBaseSchemaId(t) == ParentChain(t.schemaId)
  {
    var p := t.base.parent.schemaId;
    var c := t.schemaId;
    WellFormedIsChain(t.base.parent);
    var s := c[|p|..|c| - 1];
    assert c == p + s + [SEGMENT_END];
    assert StripSuffix(c, [SEGMENT_END]) == Some(p + s);
    LastIndexOfAfter(p, s, SEGMENT_END);
    assert (p + s)[..|p|] == p;
  }

  /** The schema id an instance id was made from: everything through its last `~`. */
  function InstanceSchemaId(instanceId: string): (r: Option<string>)
    ensures r.Some? ==> r.value <= instanceId && IsChain(r.value)
  {
    match LastIndexOf(instanceId, SEGMENT_END)
    case None => None
    case Some(i) => Some(instanceId[..i + 1])
  }

  /** A suffix without `~` can be split off again: the instance id gives back the schema id and the suffix. */
  lemma {:induction false} InstanceIdRoundTrip(t: SchemaType, suffix: string)
    requires IsChain(GtsSchemaId(t)) && SEGMENT_END !in suffix
    ensures InstanceSchemaId(GtsMakeInstanceId(t, suffix)) == Some(GtsSchemaId(t))
    ensures GtsMakeInstanceId(t, suffix)[|GtsSchemaId(t)|..] == suffix
  {
    var id := GtsSchemaId(t);
    LastIndexOfAfter(id, suffix, SEGMENT_END);
    assert (id + suffix)[..|id|] == id;
  }

  /** A chain of one segment reads back as that segment alone, whatever dots and digits it holds. */
  lemma {:induction false} SingleSegmentChain(seg: string)
    requires SEGMENT_END !in seg
    ensures ParentChain(Chain([seg])) == None
    ensures IsChain(Chain([seg]))
  {
    ParentOfSingleSegment(seg);
    assert Chain([seg]) == seg + [SEGMENT_END] + Chain([]);
  }

  // ---------------------------------------------------------------------------
  // The declared schema types
  // ---------------------------------------------------------------------------

  const PARENT_SCHEMA_ID := "gts.x.test.entities.parent.v1~"
  const CHILD_SEGMENT := "x.test.entities.child.v1"
  const PARENT := SchemaType(PARENT_SCHEMA_ID, BaseTrue)
  const CHILD := SchemaType(PARENT_SCHEMA_ID + CHILD_SEGMENT + "~", Extends(PARENT))

  /** `ChildUnitStructV1`: well formed, and its base schema id is the parent's id. */
  lemma {:induction false} ChildSchemaExample()
    ensures WellFormed(CHILD)
    ensures GtsBaseSchemaId(CHILD) == Some(PARENT_SCHEMA_ID)
    ensures ParentChain(GtsSchemaId(CHILD)) == Some(PARENT_SCHEMA_ID)
  {
    var c := CHILD.schemaId;
    assert c[|PARENT_SCHEMA_ID|..] == CHILD_SEGMENT + "~";
    assert c[|PARENT_SCHEMA_ID|..|c| - 1] == CHILD_SEGMENT;
    BaseIdDropsLastSegment(CHILD);
  }

  /** `VersionedStructV2_1` and `MultiVersionV10_20`: base types, ids kept verbatim, one segment each. */
  lemma {:induction false} VersionedSchemaExamples()
    ensures GtsBaseSchemaId(SchemaType(Chain(["gts.x.test.entities.versioned.v2.1"]), BaseTrue)).None?
    ensures ParentChain(Chain(["gts.x.test.entities.versioned.v2.1"])) == None
    ensures ParentChain(Chain(["gts.x.test.entities.multiversion.v10.20"])) == None
  {
    SingleSegmentChain("gts.x.test.entities.versioned.v2.1");
    SingleSegmentChain("gts.x.test.entities.multiversion.v10.20");
  }

  /** `UnderscoreSegmentsV1`: the instance id is the schema id with the suffix appended, and splits back. */
  lemma {:induction false} UnderscoreInstanceExample()
    ensures GtsMakeInstanceId(SchemaType("gts.vendor_name.package_name.namespace_name.type_name.v1~", BaseTrue), "test.app.instance.v1")
         == "gts.vendor_name.package_name.namespace_name.type_name.v1~" + "test.app.instance.v1"
    ensures InstanceSchemaId(GtsMakeInstanceId(SchemaType("gts.vendor_name.package_name.namespace_name.type_name.v1~", BaseTrue), "test.app.instance.v1"))
         == Some("gts.vendor_name.package_name.namespace_name.type_name.v1~")
  {
    var t := SchemaType("gts.vendor_name.package_name.namespace_name.type_name.v1~", BaseTrue);
    assert SEGMENT_END !in "test.app.instance.v1";
    InstanceIdRoundTrip(t, "test.app.instance.v1");
  }
}

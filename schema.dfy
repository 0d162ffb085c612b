/**
 * Index creation in the `/api/index` handler (server.js:103-142): the field-type
 * mapping `getType` (server.js:280-294), the schema built from the request's
 * `fields` object with a forced `__uid` TAG attribute (server.js:107-116), and
 * the key names the index and its records live under (server.js:106, 121-124).
 */
module Schema {
  import opened Wrappers
  import opened JsValues

  /** The backend attribute types `SchemaFieldTypes.TEXT`, `.TAG` and `.NUMERIC`. */
  datatype FieldType = Text | Tag | Numeric

  /** The string each backend type constant holds. */
  function TypeName(t: FieldType): (name: string)
    ensures GetType(Str(name)) == t
  {
    match t
    case Text => "TEXT"
    case Tag => "TAG"
    case Numeric => "NUMERIC"
  }

  /**
   * `getType`: a `switch` with strict equality, so only the exact strings
   * "TAG" and "NUMERIC" select those types; everything else, "VECTOR", other
   * spellings and non-strings included, falls back to TEXT. It never throws.
   */
  function GetType(declared: JsValue): (t: FieldType)
    ensures t == Tag <==> declared == Str("TAG")
    ensures t == Numeric <==> declared == Str("NUMERIC")
    ensures t == Text <==> declared != Str("TAG") && declared != Str("NUMERIC")
  {
    match declared
    case Str(s) =>
      if s == "TEXT" then Text
      else if s == "TAG" then Tag
      else if s == "NUMERIC" then Numeric
      else Text
    case _ => Text
  }

  /** The internal identifier attribute every index and record carries. */
  const Uid: string := "__uid"

  /**
   * One schema attribute, `{type, sortable}`. `sortable` is None for the `__uid`
   * attribute, which is written as `{type: 'TAG'}` without that key.
   */
  datatype SchemaField = SchemaField(fieldType: FieldType, sortable: Option<bool>)

  const UidField: SchemaField := SchemaField(Tag, None)

  /** The attribute compiled from one declared field `v`: `{type: getType(v.type), sortable: !!v.sortable}`. */
  function CompileField(v: JsValue): (f: SchemaField)
    requires !IsNullish(v)
    ensures f.fieldType == Tag <==> v.Obj? && Field(v.props, "type") == Str("TAG")
    ensures f.fieldType == Numeric <==> v.Obj? && Field(v.props, "type") == Str("NUMERIC")
    ensures f.sortable == Some(v.Obj? && Truthy(Field(v.props, "sortable")))
  {
    SchemaField(GetType(Prop(v, "type")), Some(Truthy(Prop(v, "sortable"))))
  }

  /** One reduce step per entry of `Object.entries(fields)`. */
  function SchemaSteps(entries: seq<(string, JsValue)>): (steps: seq<Option<(string, SchemaField)>>)
    requires forall i :: 0 <= i < |entries| ==> !IsNullish(entries[i].1)
    ensures |steps| == |entries|
    ensures forall i :: 0 <= i < |entries| ==> steps[i] == Some((entries[i].0, CompileField(entries[i].1)))
  {
    seq(|entries|, i requires 0 <= i < |entries| => Some((entries[i].0, CompileField(entries[i].1))))
  }

  function DeclaredNames(entries: seq<(string, JsValue)>): set<string> {
    set i | 0 <= i < |entries| :: entries[i].0
  }

  /**
   * The schema of server.js:107-116. Reading `v.type` throws when a declared
   * field's value is `null` (a JSON body holds no `undefined`, but the model
   * admits it). Otherwise the keys are the declared names plus `__uid`, and
   * `__uid` is TAG whatever was declared under that name.
   */
  function IndexSchema(entries: seq<(string, JsValue)>): (r: Result<map<string, SchemaField>, JsError>)
    ensures r.Failure? <==> exists i :: 0 <= i < |entries| && IsNullish(entries[i].1)
    ensures r.Success? ==> r.value.Keys == DeclaredNames(entries) + {Uid}
    ensures r.Success? ==> r.value[Uid] == UidField
  {
    if exists i :: 0 <= i < |entries| && IsNullish(entries[i].1) then Failure(TypeError)
    else
      var steps := SchemaSteps(entries);
      assert AssignedKeys(steps) == DeclaredNames(entries) by {
        forall k | k in DeclaredNames(entries) ensures k in AssignedKeys(steps) {
          var i :| 0 <= i < |entries| && entries[i].0 == k;
          assert steps[i].value.0 == k;
        }
      }
      Success(Assign(steps)[Uid := UidField])
  }

  /**
   * Every declared field other than `__uid` gets `getType` of its `type` and the
   * truthiness of its `sortable`; when a name repeats, its last entry decides.
   */
  lemma {:induction false} IndexSchemaEntry(entries: seq<(string, JsValue)>, i: int)
    requires IndexSchema(entries).Success?
    requires 0 <= i < |entries| && entries[i].0 != Uid
    requires forall j :: i < j < |entries| ==> entries[j].0 != entries[i].0
    ensures entries[i].0 in IndexSchema(entries).value
    ensures IndexSchema(entries).value[entries[i].0] ==
      SchemaField(GetType(Prop(entries[i].1, "type")), Some(Truthy(Prop(entries[i].1, "sortable"))))
  {
    var steps := SchemaSteps(entries);
    assert IsLastAssignment(steps, i);
    AssignLastWins(steps, i);
  }

  /** A field declared as VECTOR is not split: it compiles to one plain TEXT attribute. */
  lemma VectorFieldIsText()
    ensures IndexSchema([("embedding", Obj(map["type" := Str("VECTOR")]))]) ==
      Success(map["embedding" := SchemaField(Text, Some(false)), Uid := UidField])
  {
  }

  /** `!!v.sortable` is truthiness, so the string "false" still makes a field sortable. */
  lemma SortableIsTruthiness()
    ensures IndexSchema([("price", Obj(map["type" := Str("NUMERIC"), "sortable" := Str("false")]))]) ==
      Success(map["price" := SchemaField(Numeric, Some(true)), Uid := UidField])
  {
  }

  /** `'idx:' + indexName`, the name of the search index. */
  function IndexKey(indexName: string): (k: string)
    ensures |k| == |indexName| + 4 && k[..4] == "idx:" && k[4..] == indexName
  {
    "idx:" + indexName
  }

  /** `'vs:' + indexName`, the key prefix of the index's records. */
  function RecordPrefix(indexName: string): (p: string)
    ensures |p| == |indexName| + 3 && p[..3] == "vs:" && p[3..] == indexName
  {
    "vs:" + indexName
  }

  /** The arguments of `rc.ft.create(name, schema, {ON: 'HASH', PREFIX: prefix})`. */
  datatype CreateIndex = CreateIndex(name: string, schema: map<string, SchemaField>, on: string, prefix: string)

  /** The index-creation request of `/api/index`, or the TypeError the schema reduce throws. */
  function CreateIndexRequest(indexName: string, entries: seq<(string, JsValue)>): (r: Result<CreateIndex, JsError>)
    ensures r.Failure? <==> IndexSchema(entries).Failure?
    ensures r.Success? ==> r.value.schema == IndexSchema(entries).value && r.value.on == "HASH"
    ensures r.Success? ==> r.value.name == IndexKey(indexName) && r.value.prefix == RecordPrefix(indexName)
  {
    match IndexSchema(entries)
    case Failure(e) => Failure(e)
    case Success(schema) => Success(CreateIndex(IndexKey(indexName), schema, "HASH", RecordPrefix(indexName)))
  }
}

/**
 * CSV ingestion in the `/api/upload` handler (server.js:144-222): the field
 * metadata rebuilt from the index's FT.INFO attributes (server.js:163-170),
 * the record `addData` writes for one row (server.js:176-191), and the
 * `on('data')` handler that takes the first row as headers and writes one
 * record per later row (server.js:193-201). Redis writes are returned as values.
 */
module Upload {
  import opened Wrappers
  import opened JsValues
  import opened Coercion
  import Schema

  /** One entry of `index.attributes` from FT.INFO, as far as the core reads it. */
  datatype AttributeInfo = AttributeInfo(attribute: string, fieldType: JsValue, sortable: JsValue)

  /** The `{type, sortable}` value of the rebuilt `fields` map. */
  datatype FieldMeta = FieldMeta(fieldType: JsValue, sortable: JsValue)

  /** One `rc.hSet(key, record)` call. */
  datatype Write = HSet(key: string, record: map<string, JsValue>)

  // ---------------------------------------------------------------------------
  // server.js:164-170: attributes -> fields
  // ---------------------------------------------------------------------------

  function InfoSteps(attrs: seq<AttributeInfo>): (steps: seq<Option<(string, FieldMeta)>>)
    ensures |steps| == |attrs|
    ensures forall i :: 0 <= i < |attrs| ==>
      steps[i] == Some((attrs[i].attribute, FieldMeta(attrs[i].fieldType, attrs[i].sortable)))
  {
    seq(|attrs|, i requires 0 <= i < |attrs| => Some((attrs[i].attribute, FieldMeta(attrs[i].fieldType, attrs[i].sortable))))
  }

  /** The field metadata: keyed by exactly the attribute names. */
  function FieldsFromInfo(attrs: seq<AttributeInfo>): (fields: map<string, FieldMeta>)
    ensures fields.Keys == set i | 0 <= i < |attrs| :: attrs[i].attribute
  {
    var steps := InfoSteps(attrs);
    assert AssignedKeys(steps) == set i | 0 <= i < |attrs| :: attrs[i].attribute by {
      forall k | k in set i | 0 <= i < |attrs| :: attrs[i].attribute ensures k in AssignedKeys(steps) {
        var i :| 0 <= i < |attrs| && attrs[i].attribute == k;
        assert steps[i].value.0 == k;
      }
    }
    Assign(steps)
  }

  /** Each name maps to its attribute's type and sortable; a later duplicate overwrites an earlier one. */
  lemma FieldsFromInfoEntry(attrs: seq<AttributeInfo>, i: int)
    requires 0 <= i < |attrs|
    requires forall j :: i < j < |attrs| ==> attrs[j].attribute != attrs[i].attribute
    ensures FieldsFromInfo(attrs)[attrs[i].attribute] == FieldMeta(attrs[i].fieldType, attrs[i].sortable)
  {
    var steps := InfoSteps(attrs);
    assert IsLastAssignment(steps, i);
    AssignLastWins(steps, i);
  }

  // ---------------------------------------------------------------------------
  // server.js:178-179: `const field = fields[h]; if (field)`
  // ---------------------------------------------------------------------------

  /**
   * The lookup as written: `fields` is a plain object, so `fields[h]` also
   * finds the members it inherits from Object.prototype. Such a member is a
   * function, truthy, with no `type` or `sortable`.
   */
  function FieldForAsWritten(fields: map<string, FieldMeta>, h: string): (r: Option<FieldMeta>)
    ensures r.Some? <==> h in fields || h in ObjectPrototypeMembers
    ensures h in fields ==> r.value == fields[h]
    ensures h !in fields && h in ObjectPrototypeMembers ==> r.value == FieldMeta(Undefined, Undefined)
  {
    if h in fields then Some(fields[h])
    else if h in ObjectPrototypeMembers then Some(FieldMeta(Undefined, Undefined))
    else None
  }

  /** The intended lookup: only fields the index actually has. */
  function FieldFor(fields: map<string, FieldMeta>, h: string): (r: Option<FieldMeta>)
    ensures r.Some? <==> h in fields
    ensures r.Some? ==> r.value == fields[h]
  {
    if h in fields then Some(fields[h]) else None
  }

  // ---------------------------------------------------------------------------
  // server.js:176-191: addData
  // ---------------------------------------------------------------------------

  predicate IsNumericField(m: FieldMeta) {
    m.fieldType == Str("NUMERIC")
  }

  /** `row[i]`: the cell, or `undefined` past the end of the row. */
  function CellAt(row: seq<string>, i: nat): JsValue {
    if i < |row| then Str(row[i]) else Undefined
  }

  /** Column i names a declared non-NUMERIC field but the row has no cell i: `undefined.replace` throws. */
  predicate MissingCell(fields: map<string, FieldMeta>, headers: seq<string>, row: seq<string>, i: int) {
    && 0 <= i < |headers|
    && headers[i] in fields
    && !IsNumericField(fields[headers[i]])
    && i >= |row|
  }

  predicate RowThrows(fields: map<string, FieldMeta>, headers: seq<string>, row: seq<string>)
    ensures |row| >= |headers| ==> !RowThrows(fields, headers, row)
    ensures RowThrows(fields, headers, row) ==> |row| < |headers|
    ensures (forall h :: h in headers && h in fields ==> IsNumericField(fields[h])) ==> !RowThrows(fields, headers, row)
  {
    exists i :: 0 <= i < |headers| && MissingCell(fields, headers, row, i)
  }

  /** The value stored for column i of a declared field. */
  function CellValue(m: FieldMeta, row: seq<string>, i: nat): (v: JsValue)
    requires IsNumericField(m) || i < |row|
    ensures !IsNumericField(m) ==> v == Str(Sanitize(row[i]))
    ensures IsNumericField(m) && i < |row| ==> v.Num?
    ensures IsNumericField(m) && i >= |row| ==> v == Undefined
  {
    if IsNumericField(m) then ParseMaybeCurrency(CellAt(row, i))
    else Str(Sanitize(row[i]))
  }

  function RowSteps(fields: map<string, FieldMeta>, headers: seq<string>, row: seq<string>): (steps: seq<Option<(string, JsValue)>>)
    requires !RowThrows(fields, headers, row)
    ensures |steps| == |headers|
    ensures forall i :: 0 <= i < |headers| ==>
      (!MissingCell(fields, headers, row, i) &&
       steps[i] == if headers[i] in fields then Some((headers[i], CellValue(fields[headers[i]], row, i))) else None)
  {
    seq(|headers|, i requires 0 <= i < |headers| && !MissingCell(fields, headers, row, i) =>
      match FieldFor(fields, headers[i])
      case None => None
      case Some(m) => Some((headers[i], CellValue(m, row, i))))
  }

  function DeclaredHeaders(fields: map<string, FieldMeta>, headers: seq<string>): set<string> {
    set i | 0 <= i < |headers| && headers[i] in fields :: headers[i]
  }

  /** `'vs:' + indexName + ':' + uid`. The uid can be read back from the key. */
  function RecordKey(prefix: string, uid: string): (key: string)
    ensures |key| == |prefix| + 1 + |uid|
    ensures key[..|prefix|] == prefix && key[|prefix|] == ':' && key[|prefix| + 1..] == uid
  {
    prefix + ":" + uid
  }

  /** Under one prefix, distinct uids give distinct keys. */
  lemma RecordKeyInjective(prefix: string, u1: string, u2: string)
    requires RecordKey(prefix, u1) == RecordKey(prefix, u2)
    ensures u1 == u2
  {
  }

  /**
   * `addData(row)` with `uuid.v4()` given as `uid`. It throws when a declared
   * non-NUMERIC column has no cell; otherwise the record holds exactly the
   * declared headers plus `__uid`, `__uid` is the uid, and the key ends in the
   * same uid.
   */
  function AddData(fields: map<string, FieldMeta>, prefix: string, headers: seq<string>, row: seq<string>, uid: string): (r: Result<Write, JsError>)
    ensures r.Failure? <==> RowThrows(fields, headers, row)
    ensures r.Success? ==> r.value.key == RecordKey(prefix, uid)
    ensures r.Success? ==> r.value.record.Keys == DeclaredHeaders(fields, headers) + {Schema.Uid}
    ensures r.Success? ==> r.value.record[Schema.Uid] == Str(uid)
  {
    if RowThrows(fields, headers, row) then Failure(TypeError)
    else
      var steps := RowSteps(fields, headers, row);
      assert AssignedKeys(steps) == DeclaredHeaders(fields, headers) by {
        forall k | k in DeclaredHeaders(fields, headers) ensures k in AssignedKeys(steps) {
          var i :| 0 <= i < |headers| && headers[i] in fields && headers[i] == k;
          assert steps[i].value.0 == k;
        }
      }
      Success(HSet(RecordKey(prefix, uid), Assign(steps)[Schema.Uid := Str(uid)]))
  }

  /**
   * The value under a declared header other than `__uid` comes from the LAST
   * column with that header: the sanitised cell, or for a NUMERIC field
   * `parseMaybeCurrency` of the cell (`undefined` past the end of the row).
   */
  lemma {:induction false} AddDataValue(fields: map<string, FieldMeta>, prefix: string, headers: seq<string>, row: seq<string>, uid: string, i: int)
    requires !RowThrows(fields, headers, row)
    requires 0 <= i < |headers| && headers[i] in fields && headers[i] != Schema.Uid
    requires forall j :: i < j < |headers| ==> headers[j] != headers[i]
    ensures !IsNumericField(fields[headers[i]]) ==>
      (i < |row| && AddData(fields, prefix, headers, row, uid).value.record[headers[i]] == Str(Sanitize(row[i])))
    ensures IsNumericField(fields[headers[i]]) ==>
      AddData(fields, prefix, headers, row, uid).value.record[headers[i]] == ParseMaybeCurrency(CellAt(row, i))
  {
    var steps := RowSteps(fields, headers, row);
    assert !MissingCell(fields, headers, row, i);
    assert IsLastAssignment(steps, i);
    AssignLastWins(steps, i);
  }

  /** Headers that name no field of the index contribute nothing: every key is a declared field or `__uid`. */
  lemma RecordKeysAreDeclared(fields: map<string, FieldMeta>, prefix: string, headers: seq<string>, row: seq<string>, uid: string, k: string)
    requires AddData(fields, prefix, headers, row, uid).Success?
    requires k in AddData(fields, prefix, headers, row, uid).value.record
    ensures k == Schema.Uid || (k in fields && k in headers)
  {
  }

  /** A repeated header: the later column overwrites the earlier one. */
  lemma RepeatedHeaderLaterWins()
    ensures AddData(map["name" := FieldMeta(Str("TEXT"), Bool(false))], "vs:p", ["name", "name"], ["a", "b"], "u") ==
      Success(HSet("vs:p:u", map["name" := Str("b"), Schema.Uid := Str("u")]))
  {
    var fields := map["name" := FieldMeta(Str("TEXT"), Bool(false))];
    var headers, row := ["name", "name"], ["a", "b"];
    assert !RowThrows(fields, headers, row);
    AddDataValue(fields, "vs:p", headers, row, "u", 1);
    assert Sanitize("b") == "b" by { KeepOnlyUnchanged("b", IsSanitizedChar); }
    assert DeclaredHeaders(fields, headers) == {"name"};
    var w := AddData(fields, "vs:p", headers, row, "u").value;
    assert w.key == "vs:p:u";
    assert w.record.Keys == {"name", Schema.Uid};
    assert w.record == map["name" := Str("b"), Schema.Uid := Str("u")];
  }

  // ---------------------------------------------------------------------------
  // addData with the lookup as written
  // ---------------------------------------------------------------------------

  /**
   * What `fields[h]` finds for the given headers: the own fields, plus an
   * entry without `type` or `sortable` for each header that names an
   * inherited member the index does not declare.
   */
  function InheritedView(fields: map<string, FieldMeta>, headers: seq<string>): (view: map<string, FieldMeta>)
    ensures view.Keys == fields.Keys + set i | 0 <= i < |headers| && headers[i] in ObjectPrototypeMembers :: headers[i]
    ensures forall h :: h in fields ==> view[h] == fields[h]
    ensures forall i :: 0 <= i < |headers| ==> FieldFor(view, headers[i]) == FieldForAsWritten(fields, headers[i])
  {
    var inherited := set i | 0 <= i < |headers| && headers[i] in ObjectPrototypeMembers && headers[i] !in fields :: headers[i];
    map h | h in fields.Keys + inherited :: if h in fields then fields[h] else FieldMeta(Undefined, Undefined)
  }

  /**
   * `addData` with `const field = fields[h]` read as written. A header naming
   * an inherited member counts as a declared non-NUMERIC field: its sanitised
   * cell is stored under that header, and a missing cell throws.
   */
  function AddDataAsWritten(fields: map<string, FieldMeta>, prefix: string, headers: seq<string>, row: seq<string>, uid: string): (r: Result<Write, JsError>)
    ensures r.Failure? <==>
      exists i :: 0 <= i < |headers| && i >= |row| && FieldForAsWritten(fields, headers[i]).Some? &&
        !IsNumericField(FieldForAsWritten(fields, headers[i]).value)
    ensures r.Success? ==> r.value.key == RecordKey(prefix, uid)
    ensures r.Success? ==> (r.value.record.Keys ==
      (set i | 0 <= i < |headers| && FieldForAsWritten(fields, headers[i]).Some? :: headers[i]) + {Schema.Uid})
    ensures r.Success? ==> r.value.record[Schema.Uid] == Str(uid)
  {
    var view := InheritedView(fields, headers);
    assert DeclaredHeaders(view, headers) ==
      set i | 0 <= i < |headers| && FieldForAsWritten(fields, headers[i]).Some? :: headers[i];
    AddData(view, prefix, headers, row, uid)
  }

  /** Without a header that names an inherited member, the lookup as written and the intended one agree. */
  lemma AsWrittenAgreesWithoutInheritedHeaders(fields: map<string, FieldMeta>, prefix: string, headers: seq<string>, row: seq<string>, uid: string)
    requires forall i :: 0 <= i < |headers| ==> headers[i] !in ObjectPrototypeMembers
    ensures AddDataAsWritten(fields, prefix, headers, row, uid) == AddData(fields, prefix, headers, row, uid)
  {
    assert InheritedView(fields, headers) == fields;
  }

  /**
   * A header "constructor" over an index with no such field: the lookup as
   * written takes it for a declared non-NUMERIC field and the record stores
   * the sanitised cell under "constructor"; with the intended lookup the
   * record has no such key.
   */
  lemma InheritedHeaderIsTakenForField(fields: map<string, FieldMeta>, prefix: string, row: seq<string>, uid: string)
    requires "constructor" !in fields && |row| >= 1
    ensures FieldForAsWritten(fields, "constructor") == Some(FieldMeta(Undefined, Undefined))
    ensures AddDataAsWritten(fields, prefix, ["constructor"], row, uid).Success?
    ensures AddDataAsWritten(fields, prefix, ["constructor"], row, uid).value.record["constructor"] == Str(Sanitize(row[0]))
    ensures AddData(fields, prefix, ["constructor"], row, uid).Success?
    ensures "constructor" !in AddData(fields, prefix, ["constructor"], row, uid).value.record
  {
    var headers := ["constructor"];
    var view := InheritedView(fields, headers);
    assert headers[0] in ObjectPrototypeMembers;
    assert "constructor" in view && view["constructor"] == FieldMeta(Undefined, Undefined);
    assert !MissingCell(view, headers, row, 0);
    AddDataValue(view, prefix, headers, row, uid, 0);
  }

  // ---------------------------------------------------------------------------
  // server.js:193-201: the CSV stream's `on('data')` handler
  // ---------------------------------------------------------------------------

  predicate DistinctUids(uids: seq<string>) {
    forall i, j :: 0 <= i < j < |uids| ==> uids[i] != uids[j]
  }

  /**
   * Runs the `on('data')` handler over the parsed rows of an upload to index
   * `indexName`. `uids[i]` is what `uuid.v4()` returns while row i is handled
   * (the header row draws none). The first row becomes `headers`; each later
   * row issues one write, in row order, until `addData` throws, which ends the
   * stream. With distinct uids no two writes share a key.
   */
  method UploadRows(fields: map<string, FieldMeta>, indexName: string, rows: seq<seq<string>>, uids: seq<string>)
    returns (writes: seq<Write>, thrown: Option<JsError>)
    requires |uids| == |rows|
    ensures |writes| <= if |rows| == 0 then 0 else |rows| - 1
    ensures thrown.None? ==> |writes| == if |rows| == 0 then 0 else |rows| - 1
    ensures forall j :: 0 <= j < |writes| ==>
      AddData(fields, Schema.RecordPrefix(indexName), rows[0], rows[j + 1], uids[j + 1]) == Success(writes[j])
    ensures thrown.Some? ==>
      |writes| + 1 < |rows| &&
      AddData(fields, Schema.RecordPrefix(indexName), rows[0], rows[|writes| + 1], uids[|writes| + 1]).Failure?
    ensures DistinctUids(uids) ==> forall j, k :: 0 <= j < k < |writes| ==> writes[j].key != writes[k].key
  {
    var prefix := Schema.RecordPrefix(indexName);
    var headers: Option<seq<string>> := None;
    writes, thrown := [], None;
    var i := 0;
    while i < |rows| && thrown.None?
      invariant 0 <= i <= |rows|
      invariant headers.None? <==> i == 0
      invariant headers.Some? ==> headers.value == rows[0]
      invariant |writes| == if i == 0 then 0 else if thrown.None? then i - 1 else i - 2
      invariant forall j :: 0 <= j < |writes| ==>
        AddData(fields, prefix, rows[0], rows[j + 1], uids[j + 1]) == Success(writes[j])
      invariant thrown.Some? ==>
        |writes| + 1 < |rows| && AddData(fields, prefix, rows[0], rows[|writes| + 1], uids[|writes| + 1]).Failure?
    {
      var row := rows[i];
      if headers.None? {
        headers := Some(row);
      } else {
        match AddData(fields, prefix, headers.value, row, uids[i])
        case Success(w) => writes := writes + [w];
        case Failure(e) => thrown := Some(e);
      }
      i := i + 1;
    }
    forall j, k | 0 <= j < k < |writes| && DistinctUids(uids) ensures writes[j].key != writes[k].key {
      assert writes[j].key == RecordKey(prefix, uids[j + 1]);
      assert writes[k].key == RecordKey(prefix, uids[k + 1]);
      assert uids[j + 1] != uids[k + 1];
    }
  }
}

/** The soft-delete concern of a JSON:API resource adapter.

    A record's deletion marker (its deleted-at column) is exposed to clients
    as one JSON:API field. Deleting through the adapter always removes the
    record for good; a client that sets the field to a boolean-like value
    stamps the marker with the current time or clears it; and an update of a
    stored record that clears its marker is persisted as a restore rather
    than a save. */
module SoftDeletesModels {
  import opened Wrappers
  import opened Php
  import opened Eloquent

  /** The boolean-like values the adapter interprets itself, in its own order. */
  const BooleanLiterals: seq<Value> := [Bool(true), Bool(false), Int(1), Int(0), Str("1"), Str("0")]

  /** `true`, `1` or `'1'`: a value that stamps the deletion marker. */
  predicate DeletedLiteral(v: Value)
  {
    v == Bool(true) || v == Int(1) || v == Str("1")
  }

  /** `false`, `0` or `'0'`: a value that clears the deletion marker. */
  predicate ClearedLiteral(v: Value)
  {
    v == Bool(false) || v == Int(0) || v == Str("0")
  }

  /** The adapter of one resource type. Nothing in it changes after
      construction; its operations change the record they are given. */
  class Adapter {
    /** The adapter's override of the field name: None when the adapter does
        not declare one or declares it null. */
    const softDeleteField: Option<string>
    /** Turns a column name into a JSON:API member name. */
    const dasherize: string -> string
    /** The ordinary deserialiser of one attribute value. */
    const deserializeAttribute: (Value, string, Record) -> Value
    /** The ordinary deserialiser of a whole attribute collection. */
    const deserializeAttributes: (map<string, Value>, Record) -> map<string, Value>

    constructor (
      softDeleteField: Option<string>,
      dasherize: string -> string,
      deserializeAttribute: (Value, string, Record) -> Value,
      deserializeAttributes: (map<string, Value>, Record) -> map<string, Value>)
      ensures this.softDeleteField == softDeleteField && this.dasherize == dasherize
      ensures this.deserializeAttribute == deserializeAttribute
      ensures this.deserializeAttributes == deserializeAttributes
    {
      this.softDeleteField := softDeleteField;
      this.dasherize := dasherize;
      this.deserializeAttribute := deserializeAttribute;
      this.deserializeAttributes := deserializeAttributes;
    }

    /** Deleting a resource removes the record from storage, soft-delete
        support notwithstanding, and reports the outcome as a boolean. */
    method Delete(record: Record, reported: Value) returns (deleted: bool)
      modifies record
      ensures deleted == Truthy(reported)
      ensures record.calls == old(record.calls) + [Call.ForceDelete]
      ensures !record.inStorage
      ensures record.attributes == old(record.attributes) && record.original == old(record.original)
    {
      var result := record.ForceDelete(reported);
      deleted := Truthy(result);
    }

    /** Fills a record from a request's attributes: the soft-delete field,
        when present, is turned into the deletion marker; it is then removed
        from the collection, and the rest goes through the ordinary fill. */
    method FillAttributes(record: Record, attributes: Collection, now: int)
      modifies record, attributes
      ensures attributes.items == old(attributes.items) - {GetSoftDeleteField(record)}
      ensures GetSoftDeleteField(record) !in attributes.items
      ensures record.calls == old(record.calls)
                              + (if GetSoftDeleteField(record) in old(attributes.items)
                                 then [Call.ForceFill(SoftDeleteStamp(old(attributes.items), record, now))]
                                 else [])
                              + [Call.Fill(deserializeAttributes(attributes.items, record))]
      ensures record.attributes == old(record.attributes)
                                   + SoftDeleteStamp(old(attributes.items), record, now)
                                   + Fillable(deserializeAttributes(attributes.items, record), record.fillable)
      ensures record.original == old(record.original) && record.inStorage == old(record.inStorage)
      ensures GetSoftDeleteField(record) !in old(attributes.items)
              && GetSoftDeleteKey(record) !in Fillable(deserializeAttributes(attributes.items, record), record.fillable)
              ==> record.GetAttribute(GetSoftDeleteKey(record)) == old(record.GetAttribute(GetSoftDeleteKey(record)))
    {
      var field := GetSoftDeleteField(record);
      ghost var stamp := SoftDeleteStamp(attributes.items, record, now);
      if attributes.Has(field) {
        FillSoftDelete(record, field, attributes.Get(field), now);
        assert record.attributes == old(record.attributes) + stamp;
      } else {
        assert stamp == map[];
        assert record.attributes == old(record.attributes) + stamp;
      }
      attributes.Forget(field);
      record.Fill(deserializeAttributes(attributes.items, record));
    }

    /** What the soft-delete field of a request writes into the record with
        a force-fill: the deletion marker, or nothing when the field is absent. */
    function SoftDeleteStamp(items: map<string, Value>, record: Record, now: int): (stamp: map<string, Value>)
    {
      var field := GetSoftDeleteField(record);
      if field in items
      then map[GetSoftDeleteKey(record) := DeserializeSoftDelete(items[field], field, record, now)]
      else map[]
    }

    /** Writes the deserialised soft-delete value to the deletion marker. */
    method FillSoftDelete(record: Record, field: string, value: Value, now: int)
      modifies record
      ensures record.attributes == old(record.attributes)[GetSoftDeleteKey(record) := DeserializeSoftDelete(value, field, record, now)]
      ensures record.calls == old(record.calls)
                              + [Call.ForceFill(map[GetSoftDeleteKey(record) := DeserializeSoftDelete(value, field, record, now)])]
      ensures record.original == old(record.original) && record.inStorage == old(record.inStorage)
      ensures DeletedLiteral(value) ==> record.Trashed()
      ensures ClearedLiteral(value) ==> !record.Trashed()
    {
      var marker := DeserializeSoftDelete(value, field, record, now);
      FillOneKey(record.attributes, GetSoftDeleteKey(record), marker);
      record.ForceFill(map[GetSoftDeleteKey(record) := marker]);
      MarkerDecidesTrashed(this, record, value, field, now);
    }

    /** Interprets a client's soft-delete value: the values a boolean
        validator accepts, matched by type and value, mean "deleted now" or
        "not deleted"; anything else is deserialised like any attribute. */
    function DeserializeSoftDelete(value: Value, field: string, record: Record, now: int): (marker: Value)
      ensures DeletedLiteral(value) ==> marker == Timestamp(now)
      ensures ClearedLiteral(value) ==> marker == Null
      ensures !DeletedLiteral(value) && !ClearedLiteral(value)
              ==> marker == deserializeAttribute(value, field, record)
    {
      BooleanLiteralsAreDeletedOrCleared(value);
      if ContainsStrict(BooleanLiterals, value) then
        LiteralsReadAsBooleans(value);
        if Truthy(value) then Timestamp(now) else Null
      else
        deserializeAttribute(value, field, record)
    }

    /** The override of the field name, if the adapter declares one. */
    function SoftDeleteField(): (field: Option<string>)
    {
      softDeleteField
    }

    /** The JSON:API field that carries the soft-delete value: the override
        when it converts to true, the dasherised deleted-at column otherwise. */
    function GetSoftDeleteField(record: Record): (field: string)
      ensures SoftDeleteField().Some? && StringTruthy(SoftDeleteField().value) ==> field == SoftDeleteField().value
      ensures SoftDeleteField().None? || !StringTruthy(SoftDeleteField().value)
              ==> field == dasherize(record.deletedAtColumn)
    {
      match SoftDeleteField()
      case Some(f) => if StringTruthy(f) then f else dasherize(GetSoftDeleteKey(record))
      case None => dasherize(GetSoftDeleteKey(record))
    }

    /** The record attribute that holds the deletion marker. */
    function GetSoftDeleteKey(record: Record): (key: string)
    {
      record.deletedAtColumn
    }

    /** An update request as the adapter runs it: fill the record from the
        request's attributes, then persist it. A stored record whose marker
        is set in storage is restored when the request clears the marker,
        and a request that sets the marker ends in a save. */
    method FillAndPersist(record: Record, attributes: Collection, now: int)
      modifies record, attributes
      ensures attributes.items == old(attributes.items) - {GetSoftDeleteField(record)}
      ensures record.attributes == FilledAttributes(old(record.attributes), old(attributes.items), record, now)
      ensures record.inStorage && record.original == record.attributes
      ensures var key := GetSoftDeleteKey(record);
              var filled := FilledAttributes(old(record.attributes), old(attributes.items), record, now);
              var restore := && old(record.inStorage) && StringTruthy(key)
                             && key in filled && filled[key] == Null
                             && (key !in old(record.original) || old(record.original)[key] != Null);
              record.calls == old(record.calls)
                              + (if GetSoftDeleteField(record) in old(attributes.items)
                                 then [Call.ForceFill(SoftDeleteStamp(old(attributes.items), record, now))]
                                 else [])
                              + [Call.Fill(deserializeAttributes(attributes.items, record)),
                                 if restore then Call.Restore else Call.Save]
      ensures var field := GetSoftDeleteField(record);
              var key := GetSoftDeleteKey(record);
              && old(record.inStorage) && StringTruthy(key)
              && key in old(record.original) && old(record.original)[key] != Null
              && field in old(attributes.items) && ClearedLiteral(old(attributes.items)[field])
              && key !in Fillable(deserializeAttributes(old(attributes.items) - {field}, record), record.fillable)
              ==> record.calls[|record.calls| - 1] == Call.Restore && !record.Trashed()
      ensures var field := GetSoftDeleteField(record);
              var key := GetSoftDeleteKey(record);
              && field in old(attributes.items) && DeletedLiteral(old(attributes.items)[field])
              && key !in Fillable(deserializeAttributes(old(attributes.items) - {field}, record), record.fillable)
              ==> record.calls[|record.calls| - 1] == Call.Save && record.Trashed()
    {
      FillAttributes(record, attributes, now);
      assert record.attributes == FilledAttributes(old(record.attributes), old(attributes.items), record, now);
      Persist(record);
    }

    /** The attributes `attrs` of a record after it is filled from the
        request attributes `items`: the marker stamp, then the fillable part
        of the ordinary deserialisation of the rest. */
    function FilledAttributes(attrs: map<string, Value>, items: map<string, Value>, record: Record, now: int): map<string, Value>
    {
      attrs
      + SoftDeleteStamp(items, record, now)
      + Fillable(deserializeAttributes(items - {GetSoftDeleteField(record)}, record), record.fillable)
    }

    /** Writes the record after an update: a restore or a save. */
    method Persist(record: Record)
      modifies record
      ensures record.calls == old(record.calls) + [if old(WillRestore(record)) then Call.Restore else Call.Save]
      ensures record.attributes == old(record.attributes)
      ensures record.inStorage && record.original == record.attributes
    {
      SaveOrRestore(record);
    }

    /** Restores the record when the update clears its deletion marker, and
        saves it otherwise; exactly one of the two is called. */
    method SaveOrRestore(record: Record)
      modifies record
      ensures record.calls == old(record.calls) + [if old(WillRestore(record)) then Call.Restore else Call.Save]
      ensures record.attributes == old(record.attributes)
      ensures record.inStorage && record.original == record.attributes
    {
      if WillRestore(record) {
        record.Restore();
      } else {
        record.Save();
      }
    }

    /** A stored record is restored exactly when its deletion marker has been
        set to null and storage holds a different value (or none) for it. */
    function WillRestore(record: Record): (restore: bool)
      reads record
      ensures restore <==>
        && record.inStorage
        && StringTruthy(record.deletedAtColumn)
        && record.deletedAtColumn in record.attributes
        && record.attributes[record.deletedAtColumn] == Null
        && (record.deletedAtColumn !in record.original || record.original[record.deletedAtColumn] != Null)
    {
      if !record.inStorage then false
      else if !StringTruthy(GetSoftDeleteKey(record)) then false
      else record.IsDirty(GetSoftDeleteKey(record)) && !record.Trashed()
    }
  }

  /** Once the deserialised soft-delete value sits in the deleted-at column,
      a value that stamps the marker leaves the record trashed and one that
      clears it leaves the record not trashed. */
  lemma MarkerDecidesTrashed(a: Adapter, record: Record, value: Value, field: string, now: int)
    requires record.deletedAtColumn in record.attributes
    requires record.attributes[record.deletedAtColumn] == a.DeserializeSoftDelete(value, field, record, now)
    ensures DeletedLiteral(value) ==> record.Trashed()
    ensures ClearedLiteral(value) ==> !record.Trashed()
  {
  }

  /** The values the adapter interprets itself are exactly the three that
      stamp the marker and the three that clear it. */
  lemma BooleanLiteralsAreDeletedOrCleared(v: Value)
    ensures ContainsStrict(BooleanLiterals, v) <==> DeletedLiteral(v) || ClearedLiteral(v)
  {
  }

  /** Among the values the adapter interprets itself, exactly `true`, `1`
      and `'1'` convert to true. */
  lemma LiteralsReadAsBooleans(v: Value)
    requires ContainsStrict(BooleanLiterals, v)
    ensures Truthy(v) <==> DeletedLiteral(v)
    ensures !Truthy(v) <==> ClearedLiteral(v)
  {
    BooleanLiteralsAreDeletedOrCleared(v);
  }

  /** A boolean-like value sets the deletion marker (to the current time)
      exactly when it converts to true, and clears it otherwise. */
  lemma MarkerFollowsTruthiness(a: Adapter, value: Value, field: string, record: Record, now: int)
    requires ContainsStrict(BooleanLiterals, value)
    ensures a.DeserializeSoftDelete(value, field, record, now) in {Timestamp(now), Null}
    ensures a.DeserializeSoftDelete(value, field, record, now) != Null <==> Truthy(value)
  {
  }

  /** Values that merely look boolean, or convert to a boolean in PHP, are
      not interpreted: they go, unchanged, to the ordinary deserialiser with
      the same field and record. */
  lemma LookalikesAreDelegated(a: Adapter, field: string, record: Record, now: int)
    ensures a.DeserializeSoftDelete(Str("true"), field, record, now) == a.deserializeAttribute(Str("true"), field, record)
    ensures a.DeserializeSoftDelete(Str("yes"), field, record, now) == a.deserializeAttribute(Str("yes"), field, record)
    ensures a.DeserializeSoftDelete(Int(2), field, record, now) == a.deserializeAttribute(Int(2), field, record)
    ensures a.DeserializeSoftDelete(Null, field, record, now) == a.deserializeAttribute(Null, field, record)
  {
    assert !DeletedLiteral(Str("true")) && !ClearedLiteral(Str("true"));
    assert !DeletedLiteral(Str("yes")) && !ClearedLiteral(Str("yes"));
  }

  /** The field is the override exactly when the adapter declares one that
      converts to true in PHP; with no override, or one that converts to
      false, it is the dasherised deleted-at column. Whenever the field
      differs from that default, it is the override. */
  lemma FieldIsOverrideOrDefault(a: Adapter, record: Record)
    ensures a.softDeleteField.Some? && Truthy(Str(a.softDeleteField.value))
            ==> a.GetSoftDeleteField(record) == a.softDeleteField.value
    ensures a.softDeleteField.None? || !Truthy(Str(a.softDeleteField.value))
            ==> a.GetSoftDeleteField(record) == a.dasherize(record.deletedAtColumn)
    ensures a.GetSoftDeleteField(record) != a.dasherize(record.deletedAtColumn)
            ==> a.softDeleteField.Some? && Truthy(Str(a.softDeleteField.value))
                && a.GetSoftDeleteField(record) == a.softDeleteField.value
  {
  }

  /** The field depends on the record only through its deleted-at column,
      and not on the record at all when an override applies. */
  lemma FieldDependsOnlyOnColumn(a: Adapter, r1: Record, r2: Record)
    ensures r1.deletedAtColumn == r2.deletedAtColumn ==> a.GetSoftDeleteField(r1) == a.GetSoftDeleteField(r2)
    ensures a.softDeleteField.Some? && Truthy(Str(a.softDeleteField.value))
            ==> a.GetSoftDeleteField(r1) == a.GetSoftDeleteField(r2)
  {
  }

  /** The attribute the adapter writes the marker to is the one the record
      reads to tell whether it is trashed. */
  lemma SoftDeleteKeyIsTrashedColumn(a: Adapter, record: Record)
    ensures record.Trashed() <==> record.GetAttribute(a.GetSoftDeleteKey(record)) != Null
  {
  }
}

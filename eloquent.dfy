/** The parts of the ORM that the soft-delete adapter drives: a record with
    dirty tracking and a deleted-at column, and the attribute collection of a
    JSON:API request. Only the state changes the adapter relies on are
    modelled; every persistence call is appended to a ghost log. */
module Eloquent {
  import opened Php

  /** A call the adapter makes on a record, as it appears in the record's log. */
  datatype Call =
    | ForceFill(values: map<string, Value>)
    | Fill(values: map<string, Value>)
    | Save
    | Restore
    | ForceDelete

  /** Keeps the entries of `values` whose key may be mass-assigned. */
  function Fillable(values: map<string, Value>, fillable: set<string>): (kept: map<string, Value>)
    ensures kept.Keys == values.Keys * fillable
    ensures forall k :: k in kept ==> kept[k] == values[k]
  {
    map k | k in values && k in fillable :: values[k]
  }

  /** Force-filling one key is updating the attributes at that key. */
  lemma FillOneKey(attributes: map<string, Value>, key: string, v: Value)
    ensures attributes + map[key := v] == attributes[key := v]
  {
  }

  /** A stored (or not yet stored) model instance. */
  class Record {
    var attributes: map<string, Value>
    var original: map<string, Value>   // the attributes as last read from or written to storage
    var inStorage: bool                    // the record is in storage
    const deletedAtColumn: string
    const fillable: set<string>         // keys that `fill` may assign
    ghost var calls: seq<Call>

    constructor (deletedAtColumn: string, fillable: set<string>, stored: map<string, Value>, inStorage: bool)
      ensures this.deletedAtColumn == deletedAtColumn && this.fillable == fillable
      ensures attributes == stored && original == stored && this.inStorage == inStorage
      ensures calls == []
    {
      this.deletedAtColumn := deletedAtColumn;
      this.fillable := fillable;
      attributes := stored;
      original := stored;
      this.inStorage := inStorage;
      calls := [];
    }

    /** Reading an attribute that is not set gives null. */
    function GetAttribute(key: string): (v: Value)
      reads this
    {
      if key in attributes then attributes[key] else Null
    }

    /** The attribute at `key` has been set and differs from the stored one
        (or nothing is stored for it). */
    predicate IsDirty(key: string)
      reads this
    {
      key in attributes && (key !in original || attributes[key] != original[key])
    }

    /** The record carries a deletion marker. */
    predicate Trashed()
      reads this
    {
      GetAttribute(deletedAtColumn) != Null
    }

    /** Sets every given attribute, mass-assignment protection or not. */
    method ForceFill(values: map<string, Value>)
      modifies this
      ensures attributes == old(attributes) + values
      ensures original == old(original) && inStorage == old(inStorage)
      ensures calls == old(calls) + [Call.ForceFill(values)]
    {
      attributes := attributes + values;
      calls := calls + [Call.ForceFill(values)];
    }

    /** Sets the given attributes that may be mass-assigned; drops the others. */
    method Fill(values: map<string, Value>)
      modifies this
      ensures attributes == old(attributes) + Fillable(values, fillable)
      ensures original == old(original) && inStorage == old(inStorage)
      ensures calls == old(calls) + [Call.Fill(values)]
    {
      attributes := attributes + Fillable(values, fillable);
      calls := calls + [Call.Fill(values)];
    }

    /** Writes the record to storage: inserted if new, updated otherwise. */
    method Save()
      modifies this
      ensures inStorage && attributes == old(attributes) && original == attributes
      ensures calls == old(calls) + [Call.Save]
    {
      inStorage := true;
      original := attributes;
      calls := calls + [Call.Save];
    }

    /** Clears the deletion marker and writes the record to storage. */
    method Restore()
      modifies this
      ensures inStorage && attributes == old(attributes)[deletedAtColumn := Null] && original == attributes
      ensures !Trashed()
      ensures calls == old(calls) + [Call.Restore]
    {
      attributes := attributes[deletedAtColumn := Null];
      inStorage := true;
      original := attributes;
      calls := calls + [Call.Restore];
    }

    /** Removes the record from storage for good; `reported` is what the
        storage layer answers, and it is returned as is. */
    method ForceDelete(reported: Value) returns (result: Value)
      modifies this
      ensures result == reported
      ensures !inStorage && attributes == old(attributes) && original == old(original)
      ensures calls == old(calls) + [Call.ForceDelete]
    {
      inStorage := false;
      calls := calls + [Call.ForceDelete];
      result := reported;
    }
  }

  /** The attribute collection of a request, keyed by JSON:API field name. */
  class Collection {
    var items: map<string, Value>

    constructor (items: map<string, Value>)
      ensures this.items == items
    {
      this.items := items;
    }

    /** The key is present, whatever its value (null included). */
    predicate Has(key: string)
      reads this
    {
      key in items
    }

    /** The value at `key`, or null when it is absent. */
    function Get(key: string): (v: Value)
      reads this
    {
      if key in items then items[key] else Null
    }

    /** Removes `key` in place; the rest of the collection is kept. */
    method Forget(key: string)
      modifies this
      ensures items == old(items) - {key}
      ensures key !in items
    {
      items := items - {key};
    }
  }
}

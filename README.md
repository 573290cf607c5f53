# Soft-delete concern of a JSON:API resource adapter

This project models the trait that an Eloquent-backed JSON:API adapter mixes in when its records support soft deletion. The record's deletion marker is its deleted-at column. The trait exposes that marker to clients as one JSON:API field and governs four things:

- **Delete.** Deleting a resource always removes the record for good (a force delete). It never soft-deletes.
- **Interpreting the field.** A client's value for the soft-delete field is matched strictly (same type and same value) against `true, false, 1, 0, '1', '0'`. The truthy three stamp the marker with the current time. The falsy three clear it to null. Any other value goes, unchanged, to the adapter's ordinary attribute deserialiser.
- **Naming the field.** The field is the adapter's `softDeleteField` override when that converts to true in PHP. Otherwise it is the dasherised deleted-at column.
- **Filling and persisting.** Filling a record force-fills the marker only when the field is present. The field is always removed, in place, from the request's attribute collection before the ordinary fill. Persisting restores the record when it is stored, its soft-delete key converts to true in PHP (it is neither `""` nor `"0"`), the key is dirty and the record is not trashed. Otherwise it saves the record.

The Dafny model has four modules:

- `Php` (`php.dfy`) holds PHP values, their boolean conversion `Truthy`, and strict containment `ContainsStrict`.
- `Eloquent` (`eloquent.dfy`) abstracts the ORM. `Record` is a class with `attributes`, `original`, `inStorage` (the model's `exists` flag, a reserved word in Dafny), `deletedAtColumn` and the set of `fillable` keys. It has the derived notions `IsDirty` and `Trashed`, and a ghost log `calls` of the persistence calls made on it. `Collection` is the request's attribute collection, with `Has`, `Get` and an in-place `Forget`.
- `SoftDeletesModels` (`soft_deletes.dfy`) holds the trait as the class `Adapter`, plus the lemmas about it.
- `Wrappers` (`wrappers.dfy`) holds `Option`.

`SoftDeletesModels.Adapter.SoftDeleteField` (src/Eloquent/Concerns/SoftDeletesModels.php:123-126) and `SoftDeletesModels.Adapter.GetSoftDeleteKey` (lines 151-154) are helpers without contracts of their own, so the table below has no rows for them.
- `SoftDeleteField` returns the override. The model writes `None` both for an adapter that declares no `softDeleteField` property and for one whose property is null.
- `GetSoftDeleteKey` is the record's deleted-at column.
- The lemmas `FieldIsOverrideOrDefault` and `FieldDependsOnlyOnColumn` state what these helpers mean for the field name. `WillRestore` states what they mean for the persist policy.

`willRestore` returns false when the deleted-at column converts to false in PHP, that is, when it is `""` or `"0"` (lines 187-189). The model follows this.

## Model

| member | source | states |
|---|---|---|
| `Php.ContainsStrict` | src/Eloquent/Concerns/SoftDeletesModels.php:108 | strict containment holds exactly when some element is identical (same type and value) to the probe |
| `SoftDeletesModels.Adapter.Delete` | src/Eloquent/Concerns/SoftDeletesModels.php:40-43 | deleting makes exactly one force-delete call and leaves the attributes untouched, so no marker is stamped; the result is the storage layer's answer cast to bool |
| `SoftDeletesModels.Adapter.FillAttributes` | src/Eloquent/Concerns/SoftDeletesModels.php:61-72 | the soft-delete field is removed from the caller's collection; the ordinary fill receives the deserialisation of the collection without it; the marker is force-filled only when the field was present; when it was absent and the ordinary fill does not write the key, the key keeps its value |
| `SoftDeletesModels.Adapter.FillSoftDelete` | src/Eloquent/Concerns/SoftDeletesModels.php:81-92 | one force-fill writes the deserialised value to the soft-delete key and nothing else; a truthy literal leaves the record trashed and a falsy literal leaves it not trashed |
| `SoftDeletesModels.Adapter.DeserializeSoftDelete` | src/Eloquent/Concerns/SoftDeletesModels.php:106-113 | `true`, `1` and `'1'` give the current time; `false`, `0` and `'0'` give null; every other value gives the ordinary deserialiser's result for that same value, field and record |
| `SoftDeletesModels.Adapter.Persist` | src/Eloquent/Concerns/SoftDeletesModels.php:160-163 | persisting makes exactly one call, restore when `WillRestore` held beforehand and save otherwise; the attributes are unchanged and end up stored |
| `SoftDeletesModels.Adapter.SaveOrRestore` | src/Eloquent/Concerns/SoftDeletesModels.php:168-175 | exactly one of restore and save is called, chosen by `WillRestore` in the state before the call; the attributes are unchanged and the record is stored afterwards |
| `SoftDeletesModels.Adapter.WillRestore` | src/Eloquent/Concerns/SoftDeletesModels.php:181-192 | restore holds exactly when the record is stored, its deleted-at column converts to true in PHP (neither `""` nor `"0"`), the attribute there is set to null, and storage holds no value or a non-null value for it |
| `SoftDeletesModels.Adapter.FillAndPersist` | src/Eloquent/Concerns/SoftDeletesModels.php:61-175 | filling then persisting removes the soft-delete field from the collection. The record's attributes become the old ones plus the marker stamp plus the fillable part of the deserialised rest, and all of them are stored. The calls are exactly: the force-fill when the field is present, then the fill, then a restore or a save, chosen by the restore rule over the filled attributes. A stored, trashed record that a falsy literal clears ends restored and not trashed; a truthy literal ends in a save of a trashed record |
| `SoftDeletesModels.BooleanLiteralsAreDeletedOrCleared` | src/Eloquent/Concerns/SoftDeletesModels.php:108 | a value is among the six strictly matched literals exactly when it is one of the three that stamp the marker or one of the three that clear it |
| `SoftDeletesModels.FieldIsOverrideOrDefault` | src/Eloquent/Concerns/SoftDeletesModels.php:134-143 | for every override, the field is the override exactly when it is declared and converts to true in PHP, and otherwise the dasherised deleted-at column; a field other than that default is always the override |
| `SoftDeletesModels.FieldDependsOnlyOnColumn` | src/Eloquent/Concerns/SoftDeletesModels.php:134-154 | two records with the same deleted-at column get the same field, and when the override applies every record gets the same field |
| `SoftDeletesModels.LiteralsReadAsBooleans` | src/Eloquent/Concerns/SoftDeletesModels.php:108-109 | among the six literals, exactly `true`, `1` and `'1'` convert to true, and exactly `false`, `0` and `'0'` convert to false |

## Left out

- `findQuery` (src/Eloquent/Concerns/SoftDeletesModels.php:49-55) only builds a query-builder expression that includes trashed rows. It has no logic of its own.
- tests/Exceptions/Handler.php is a test-support error renderer. It dispatches to framework renderers and is not part of this model.
- `Str::dasherize` and the adapter's `deserializeAttribute` and `deserializeAttributes` are not part of this model. They are the adapter's constants `dasherize`, `deserializeAttribute` and `deserializeAttributes`. These are total functions, so the model's deserialisers cannot read the record's current state.
- `Carbon::now()` is the parameter `now`, and the model represents the resulting timestamp as `Timestamp(now)`.
- The ORM's `fill`, `forceFill`, `save`, `restore`, `forceDelete`, `isDirty` and `trashed` are abstract state changes on `Record`. Model events that can halt a save, restore or delete are not modelled. Neither are timestamps, casts, mutators, guarded attributes and the mass-assignment exception. `isDirty` compares with equality instead of the ORM's looser equivalence.
- `SoftDeletesModels.Adapter.Delete`: the storage layer's answer to `forceDelete` is the parameter `reported`, and the model does not derive it.
- `Php.ContainsStrict`: the collection's treatment of a callable argument as a predicate is not modelled. Values are plain data here.
- Field names and collection keys are strings. PHP's conversion of numeric-string array keys to integers is not modelled. Neither is the order of a collection's items.
- `softDeleteField` is modelled as a string or nothing. An override of another PHP type is not modelled.

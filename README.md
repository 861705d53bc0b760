# remove_container: a verified model

This project models the ifcopenshell use case `spatial.remove_container`. Given a product, it finds the
first relationship in the product's inverse attribute `ContainedInStructure`. That relationship is an
`IfcRelContainedInSpatialStructure` of the IFC schema (ISO 16739). The use case then takes the product
out of the relationship's `RelatedElements`. If nothing is left, it is meant to delete the relationship
from the file (line 20 passes the whole tuple instead; see "Findings"); otherwise it writes the
shortened list back.

Modules:

- `Lists` (`lists.dfy`) models Python's `list.remove`. `RemoveFirst` takes out the first occurrence;
  `IndexOf` finds that occurrence.
- `Entities` (`entities.dfy`) models the ifcopenshell `file`.
  - The `Store` class holds a map from entity id to `Entity` and the next free id. Ids are never reused.
  - It has two writes: entity removal (`file.remove`) and assignment to `RelatedElements`.
  - `ContainedInStructure` is derived, never stored. `ContainedIn` gives the containment
    relationships that list a product, in increasing id order.
  - `WellFormed` states the schema's demands on a containment relationship: `RelatedElements` is a
    non-empty set, and every reference names an existing non-relationship entity.
- `RemoveContainer` (`remove_container.dfy`) models the use case itself.
  - The `Usecase` class: its constructor merges the supplied settings over the defaults with a loop,
    and `Execute` changes the store.
  - `Detach` is the specification function that `Execute` is proved against.
  - Lemmas about `Detach` cover the cascade, idempotence, frame and well-formedness properties.
  - The section "Findings" covers the line-20 discrepancy.

Behaviour of the code that the model keeps:

- `product` defaults to `None`, so `execute` on a use case built without a product fails on the
  attribute lookup. The model returns `NotAnEntity(NoneValue)`.
- A `KeyError` is possible only if the caller later deletes the key from `settings`. It is modelled as
  `MissingKey("product")`.

Where the model departs from the code:

- The model always deletes an emptied containment relationship. Line 20 evidently intends this, but
  as written it passes the whole `ContainedInStructure` tuple to `file.remove` (see "Findings").

## Model

| member | source | states |
|---|---|---|
| `Lists.IndexOf` | src/ifcopenshell-python/ifcopenshell/api/spatial/remove_container.py:16 | The position `list.remove` acts on holds the product, and no earlier position does. |
| `Lists.RemoveFirst` | src/ifcopenshell-python/ifcopenshell/api/spatial/remove_container.py:15-16 | The copied list after `.remove(product)`: exactly one element shorter, and equal to the part before the first occurrence followed by the part after it, so the order of the other members is kept. |
| `Lists.RemoveFirstMultiset` | src/ifcopenshell-python/ifcopenshell/api/spatial/remove_container.py:16 | `.remove` takes away exactly one copy of the product, and every other element stays with its multiplicity. |
| `Lists.RemoveFirstNoDuplicates` | src/ifcopenshell-python/ifcopenshell/api/spatial/remove_container.py:16 | On a duplicate-free `RelatedElements`, the product no longer occurs after `.remove`, and the list stays duplicate-free. |
| `Entities.ContainedIn` | src/ifcopenshell-python/ifcopenshell/api/spatial/remove_container.py:12-15 | The derived inverse `ContainedInStructure`: strictly increasing ids that are exactly the containment relationships listing the product. So the relationship found at index 0 lists the product, and the `.remove` at line 16 cannot raise. |
| `Entities.Store.SetRelatedElements` | src/ifcopenshell-python/ifcopenshell/api/spatial/remove_container.py:18 | Assigning `RelatedElements` replaces that attribute of the one relationship. Every other attribute and every other entity is unchanged, and no id is reused. |
| `Entities.Store.Remove` | src/ifcopenshell-python/ifcopenshell/api/spatial/remove_container.py:20 | `file.remove` deletes exactly the given entity and nothing else. This is the one-entity case of `FileRemove`, the only case the corrected use case calls. |
| `RemoveContainer.WithDefaults` | src/ifcopenshell-python/ifcopenshell/api/spatial/remove_container.py:7-9 | The merged settings have `"product"`, which is `None` unless supplied. Every supplied key keeps its supplied value, and no other key appears. |
| `RemoveContainer.Usecase.constructor` | src/ifcopenshell-python/ifcopenshell/api/spatial/remove_container.py:5-9 | The loop over the supplied items, written over `{"product": None}`, leaves `settings` equal to the merged settings. The supplied settings default to the empty map, as `settings={}` does. |
| `RemoveContainer.Usecase.Execute` | src/ifcopenshell-python/ifcopenshell/api/spatial/remove_container.py:11-20 | It succeeds exactly when `settings["product"]` is an entity instance, and then the new entities are `Detach` of the old ones. This covers the no-container case, which succeeds without changing anything. A missing key, or a product that is not an entity instance (the `None` default), fails with that error and leaves the store unchanged. The id counter is unchanged, and well-formedness is kept. |
| `RemoveContainer.Detach` | src/ifcopenshell-python/ifcopenshell/api/spatial/remove_container.py:12-20 | With no container the store is unchanged. Otherwise only the first relationship `c[0]` may change, and no other entity is changed or removed. `c[0]` survives exactly when it had more than one member. A surviving `c[0]` keeps its other attributes, and its list is the old one minus the first occurrence of the product, one shorter and in the same order. |
| `RemoveContainer.DetachContains` | src/ifcopenshell-python/ifcopenshell/api/spatial/remove_container.py:15-20 | When the first container lists the product only once, after detaching a relationship still lists the product exactly when it listed it before and is not the first container. |
| `RemoveContainer.DetachDropsFirstContainer` | src/ifcopenshell-python/ifcopenshell/api/spatial/remove_container.py:15-20 | When the first container lists the product only once, the product's `ContainedInStructure` after detaching is the old one without its first element. |
| `RemoveContainer.DetachLeavesNoContainer` | src/ifcopenshell-python/ifcopenshell/api/spatial/remove_container.py:16-20 | A product in at most one containment relationship has an empty `ContainedInStructure` afterwards, whether the relationship was shortened or deleted. |
| `RemoveContainer.DetachIdempotent` | src/ifcopenshell-python/ifcopenshell/api/spatial/remove_container.py:12-20 | For such a product, a second run changes nothing: it takes the no-container branch. |
| `RemoveContainer.DetachKeepsOtherProducts` | src/ifcopenshell-python/ifcopenshell/api/spatial/remove_container.py:15-20 | Every other product's `ContainedInStructure` is exactly what it was, with no well-formedness assumption. |
| `RemoveContainer.DetachPreservesWellFormed` | src/ifcopenshell-python/ifcopenshell/api/spatial/remove_container.py:17-20 | Detaching keeps the store well formed: no relationship is left with empty `RelatedElements`, none gets a duplicate, and no reference dangles. |
| `RemoveContainer.FileRemove` | src/ifcopenshell-python/ifcopenshell/api/spatial/remove_container.py:20 | `file.remove` succeeds exactly when it is given one entity. It then deletes that id and keeps every other entity as it was. A tuple is refused with `NotAnEntityArgument`. |
| `RemoveContainer.DetachAsWritten` | src/ifcopenshell-python/ifcopenshell/api/spatial/remove_container.py:12-20 | The use case as written. When the product is the only member of its first container, handing `file.remove` the whole tuple fails with `NotAnEntityArgument`. In every other case (no container, or more than one member) it gives the same store as `Detach`. |
| `RemoveContainer.AsWrittenScenario` | src/ifcopenshell-python/ifcopenshell/api/spatial/remove_container.py:20 | A concrete store: wall 1, storey 2, relationship 3 with `RelatedElements = [1]`. As written, the use case fails. `Detach` removes exactly entity 3 and leaves the wall with no container. |

## Findings

| source | as written | input that shows it | evidently intended | confidence | as-written member | corrected member |
|---|---|---|---|---|---|---|
| src/ifcopenshell-python/ifcopenshell/api/spatial/remove_container.py:20 | `self.file.remove(contained_in_structure)` passes the whole inverse tuple, not the single relationship edited at lines 15 and 18 | a product P whose only container R has `RelatedElements = [P]` | `self.file.remove(contained_in_structure[0])`: deleting the emptied relationship R | medium, not executed; it assumes `file.remove` accepts only one entity | `RemoveContainer.DetachAsWritten` | `RemoveContainer.Detach` |

`DetachAsWritten` models the code as written. `AsWrittenScenario` is the concrete counterexample.
`Execute` and every lemma about `Detach` use the corrected behaviour.

## Left out

- The Blender add-on files are left out. The listener registration in `src/blenderbim/blenderbim/bim/module/model/handler.py` and the UI test harness in `src/blenderbim/test/bim/bootstrap.py` are host glue with no rules of their own.
- The use-case registry, the listener dispatcher and the generic error taxonomy are not modelled. No code for them is part of this model.
- `file.remove` internals are not modelled. Its reference scrubbing and cascades are not part of this model. Removal deletes the one id from the entity map. In a well-formed store nothing refers to a containment relationship, so nothing dangles. The as-written model assumes that it refuses a tuple before changing anything.
- The ifcopenshell inverse-attribute index is not modelled. `ContainedInStructure` is a function over the whole store. The model lists relationships in increasing id order; ifcopenshell's own order is not part of this model.
- Schema-dependent attribute availability is not modelled. Any entity instance is treated as having `ContainedInStructure`. An entity whose class lacks the attribute would raise `AttributeError` in the source.
- Python dict insertion order of `settings` is not modelled. `settings` is a map: its keys are unique, and only lookups are used, so the order in which the constructor's loop visits them does not matter.
- Entity creation and file I/O are not modelled. A store is built from already-loaded entities.
- `RemoveContainer.DetachLeavesNoContainer`: requires the product to be in at most one containment relationship, which that relationship lists only once. The source does not check either. With two containers, only the first is edited, as `DetachDropsFirstContainer` states. With a duplicate entry, the product stays listed.
- `RemoveContainer.DetachIdempotent`: requires the same as `DetachLeavesNoContainer`, for the same reason.

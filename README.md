# WidgetBase: identity and reverse-dependency bookkeeping

This project models `WidgetBase`, the base class of every entity in the
document graph of a parametric solid-modelling editor (boxes, cylinders, cuts,
transforms, ...). A widget carries three pieces of state:

- its identity: unattached (`_id` is `null`), attached under a positive id
  minted by the document, or disposed (`_id` is the string `"disposed"`);
- its dependency table `_dependencies`, a dictionary keyed by the id of each
  entity that links to this one. Registering a dependant stores the entity
  under its id. Unregistering stores `null` in that slot; the key is not
  deleted;
- its list of widget connectors.

Two modules make up the model:

- `Dependencies` (`dependencies.dfy`) models the table on values. `Identity`
  is the tagged identity state. `Add` and `Remove` return the new table or the
  error `WidgetBase` raises. `Dependants` is the listing
  `Object.keys(d).map(k => d[k]).filter(e => !!e)`: the keys in ascending
  order, since JavaScript enumerates integer-like keys that way, then their
  slots, then the non-empty slots' entities. The lemmas say what the listing
  contains and how many entries it has. They say how `Add` and `Remove` change
  it, and that registering and then unregistering an entity leaves the listing
  as it was.
- `Widgets` (`widget_base.dfy`) holds the class `WidgetBase`. Its fields are
  updated in place. Its methods are specified against `Add` and `Remove`, and
  its queries against `Dependants`. The invariant `Valid()` says that every key
  of the table is a positive id, so only an entity attached under such an id
  can be released. Two scenario methods exercise the class. The first,
  `CutDependantsScenario`, replays the dependant counts of a cut of two boxes
  (test/test_geometry_editor.js:196-198). The second,
  `ReleaseAndDisposeScenario`, exercises double registration, release and
  dispose, which the editor's tests do not cover.

Some behaviour of the code is easy to miss, and the model keeps it:

- `_removeDependantEntity` looks the entity up by its *current* identity. An
  unattached or disposed entity names no slot, because the add operation never
  writes the keys `"null"` or `"disposed"`. So an entity that was registered and
  then disposed can no longer be unregistered. The widget it links to then stays
  undeletable (`ReleaseAndDisposeScenario`).
- Dispose only changes the entity's own identity. Its own table still accepts
  registrations and removals of other entities. Only the operations that pass
  the disposed entity as the dependant fail.
- The assertions in `_addDependantEntity` and the `throw` in
  `_removeDependantEntity` both raise an exception. Both become an error result
  (`DepError`) that leaves the table unchanged. They are not preconditions.

## Model

| member | source | states |
|---|---|---|
| `Dependencies.Add` | lib/widget_base.js:12-18 | registration succeeds iff the dependant's id is positive and its slot does not hold an entity (absent or emptied slots both qualify); an unattached or disposed identity gives `NotRegistered`, an occupied slot gives `AlreadyDependant`; on success the slot holds the entity, every other slot is unchanged and the live ids gain exactly that id |
| `Dependencies.Remove` | lib/widget_base.js:20-27 | removal succeeds iff the slot named by the entity's current identity holds an entity, otherwise `NotADependant`; on success the key set is unchanged (the slot is emptied, not deleted), every other slot is unchanged and the live ids lose exactly that id |
| `Dependencies.SortedKeys` | lib/widget_base.js:33 | the enumeration of the table's keys: exactly the keys, each once, in strictly ascending order |
| `Dependencies.Slots` | lib/widget_base.js:33 | the `map` step: one entry per key, the slot stored under it |
| `Dependencies.Present` | lib/widget_base.js:33 | the `filter` step: keeps exactly the entities of the non-empty slots, never more entries than slots |
| `Dependencies.DependantsInIdOrder` | lib/widget_base.js:29-34 | the listing equals the entities of the live slots taken by ascending id |
| `Dependencies.DependantsDeterminedByLiveSlots` | lib/widget_base.js:26-33 | two tables whose live slots agree list the same dependants: emptied and absent slots are indistinguishable to the listing |
| `Dependencies.DependantsMembership` | lib/widget_base.js:33 | an entity is listed iff some slot of the table holds it |
| `Dependencies.DependantsCount` | lib/widget_base.js:33-37 | the listing has exactly one entry per live slot |
| `Dependencies.AddListsDependant` | lib/widget_base.js:15-17 | after a successful registration the entity is listed, the listing grows by exactly one and everything listed before is still listed |
| `Dependencies.RemoveUnlists` | lib/widget_base.js:22-26 | after a successful removal the listing shrinks by exactly one and lists precisely what the other slots hold |
| `Dependencies.AddRemoveRestores` | lib/widget_base.js:16-26 | register then unregister the same entity: the removal succeeds, the live ids and the listing are those of the original table, and registering again under that id succeeds |
| `Widgets.WidgetBase.constructor` | lib/widget_base.js:5-10 | a new widget keeps its name, is unattached, has an empty table (no dependants, deletable) and no connectors |
| `Widgets.WidgetBase.AddDependantEntity` | lib/widget_base.js:12-18 | succeeds iff the entity's id is positive and not among the live ids; the new table is the one `Add` gives, or unchanged with `Add`'s error; on success the entity is listed and the listing grows by one; keys stay positive |
| `Widgets.WidgetBase.RemoveDependantEntity` | lib/widget_base.js:20-27 | succeeds iff the entity is attached under a live id; the new table is the one `Remove` gives, or unchanged with `NotADependant`; on success the entity was attached under a positive id and the listing shrinks by one; keys stay positive |
| `Widgets.WidgetBase.GetDependantEntities` | lib/widget_base.js:29-34 | one entry per live slot; every entry is held by some slot and every entity held by a slot is listed |
| `Widgets.WidgetBase.CanDelete` | lib/widget_base.js:36-38 | true iff no slot holds an entity (the live ids are empty) |
| `Widgets.WidgetBase.Dispose` | lib/widget_base.js:40-42 | the identity becomes `Disposed`; table, connectors and name are unchanged |
| `Widgets.WidgetBase.GetWidgetConnectors` | lib/widget_base.js:44-46 | returns the stored connector list |

## Left out

- The `instanceof WidgetBase` checks (lib/widget_base.js:13, 21) are not modelled. Dafny's static typing makes them hold.
- The `!this._dependencies` guard (lib/widget_base.js:30) and the `|| []` fallback (lib/widget_base.js:45) are not modelled. The fields are always initialised, so neither branch can run.
- The text of the error messages is not modelled. The errors are the constructors of `DepError`, and `NotADependant` carries the identity that the message prints.
- JavaScript's coercion in `_id > 0` is not modelled. An identity is `Unattached`, `Attached(n)` with a natural `n`, or `Disposed`. Fractional or string ids are not represented.
- `Dependencies.SortedKeys`: JavaScript enumerates keys in ascending order only up to 2^32 - 2. Larger ids come out in insertion order, and the model does not capture that.
- How connectors are created and what they do is not modelled. No code in `WidgetBase` writes the connector list after construction, so connectors are opaque objects here.
- The document that mints ids, the connectors that call registration, and the entity variants, code generator and serializer are not part of this model. The scenario methods set ids directly, as the document does.

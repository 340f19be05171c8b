# Referenced fields of a reactive key-value model

This project models the reference-resolving store behind `hof-model`'s
"Referenced Fields" suite. A model holds named fields. A field set to the
string `"$ref:" + target` becomes a live alias of `target`: `get` and `toJSON`
return the target's current value, and a `set` on the target is reported as a
change of every field that references it, both in the bulk `change` event and
in the per-field `change:<field>` events, which carry `(new, old)`.

The package entry point that the suite loads with `require('../../')` is not
part of this model. The model is built from the behaviour the suite asserts
(test/spec/spec.references.js), plus the following choices for what the
suite leaves open:

- `set` parses its value once. `"$ref:" + t` becomes `Ref(t)`; anything else
  becomes `Literal(v)` (`Fields.Parse`).
- Resolution follows one hop. A reference to `t` reads as the raw text `t`
  holds. If that text is itself a marker, it is returned as is. A field
  that was never set, or a reference to one, reads as `None`
  (`Fields.Resolve`).
- A field is affected by a `set` when its resolved value differs before and
  after. A `set` that affects nothing emits nothing. Otherwise it emits one
  bulk `change` event first, then one `change:<field>` event per affected
  field. The mutated field comes first, then its referrers in the order the
  fields were first set (`Tracker.Tracked`, `Tracker.Notifications`).
- Events are returned by `Models.Model.Set` as data instead of being
  delivered to listeners.

Modules:

- `Fields` (fields.dfy) holds raw values, the marker, parsing and one-hop
  resolution.
- `Tracker` (tracker.dfy) is the change tracker. It computes the affected
  fields and the events, and proves that they are exactly the fields whose
  resolved value changed.
- `Models` (model.dfy) is the `Model` class, with its field map and key order
  updated in place by `Set`. It also provides `Get` and `ToJSON`.
- `References` (references.dfy) holds the suite's properties. The lemmas
  state them for any store, any two distinct fields and any values. The
  methods replay the fixture and each case on a `Model`, for any field names
  and literal values. `ReferencedFieldsSuite` calls them with the suite's own
  names and values: `parent`, `reffed`, `original value` and `new value`.

## Model

| member | source | states |
|---|---|---|
| `Fields.Parse` | test/spec/spec.references.js:10-11 | a value is a reference exactly when it starts with `$ref:`; the parsed value is well formed and renders back to the exact text given to `set` |
| `Fields.ParseRender` | test/spec/spec.references.js:10-11 | parsing the text of any well-formed raw value gives that raw value back |
| `Fields.RenderInjective` | test/spec/spec.references.js:10-11 | two well-formed raw values have the same text exactly when they are equal |
| `Tracker.PutKeepsValid` | test/spec/spec.references.js:9-11 | setting a field keeps every key in the order list exactly once; a new field is appended and an existing one keeps its place |
| `Tracker.ReferrerChangesSpec` | test/spec/spec.references.js:34-46 | the referrer changes name exactly the fields (other than the mutated one) that reference the mutated field, each once when the key order has no duplicates, all with the same new and old value |
| `Tracker.CollectReferrers` | test/spec/spec.references.js:37-38 | the walk over the fields in order yields exactly the referrer changes |
| `Tracker.ComputeAffected` | test/spec/spec.references.js:37-38 | the tracker reports exactly the fields whose resolved value differs before and after the `set`, each once with its new and old resolved values, the mutated field first |
| `Tracker.PayloadSpec` | test/spec/spec.references.js:38 | the bulk payload has exactly the reported fields as keys and, when no field is reported twice, each maps to that field's new value |
| `Tracker.PayloadOfDiff` | test/spec/spec.references.js:38 | the payload built from a change list that reports exactly the changed fields is the map from every changed field to its new resolved value |
| `Tracker.FieldEventsOf` | test/spec/spec.references.js:41-46 | the `change:<f>` events are the changes one for one and in order: the i-th event carries the i-th change's field with `(new, old)` |
| `Tracker.Unaffected` | test/spec/spec.references.js:34-39 | a field that is neither the mutated field nor a reference to it keeps its resolved value |
| `Tracker.ReferrerSees` | test/spec/spec.references.js:34-46 | a field referencing the mutated field resolves to the mutated field's raw value, before and after the `set` |
| `Tracker.TrackedIsDiff` | test/spec/spec.references.js:34-46 | the reported fields are exactly those whose resolved value differs before and after the `set`; each is reported once with its new and old resolved values, and the mutated field comes first |
| `Tracker.NotificationsOfDiff` | test/spec/spec.references.js:34-46 | the events built from a change list that reports exactly the changed fields announce that change (as `Tracker.SetEvents` states) |
| `Tracker.SetEvents` | test/spec/spec.references.js:34-46 | a `set` emits nothing exactly when no resolved value changed; otherwise its first event is the one bulk `change`, mapping every changed field and only those to its new value; every later event is a `change:<f>` event, no field gets two, and one exists for `(f, new, old)` exactly when `f` changed from old to new |
| `Tracker.ReferrersSeeRawChange` | test/spec/spec.references.js:34-46 | the fields referencing the mutated field see a change exactly when the mutated field's raw value changed |
| `Tracker.SetUnchangedIsQuiet` | test/spec/spec.references.js:24 | this model's policy for a `set` that repeats the stored value (the suite never repeats one): it emits no event |
| `Models.Model.constructor` | test/spec/spec.references.js:9 | a new model holds no fields |
| `Models.Model.Get` | test/spec/spec.references.js:14-15 | `get` returns the field's one-hop resolved value |
| `Models.Model.ToJSON` | test/spec/spec.references.js:18-19 | `toJSON` has exactly the store's fields as keys, each with its resolved value at the moment of the call |
| `Models.Model.Set` | test/spec/spec.references.js:10-11 | `set` replaces only the entry of the named field and keeps the store valid; a new field is appended to the key order; the returned events are those of the tracker |
| `References.ReferenceResolves` | test/spec/spec.references.js:8-16 | after `set(parent, v)` and `set(reffed, "$ref:" + parent)`, `reffed` still holds a reference and `get(reffed)` is `v`, for any store, any two distinct fields and any `v` |
| `References.LiveUpdate` | test/spec/spec.references.js:22-32 | setting the parent changes only the parent's entry; `reffed` stays a reference and reads the new value with no further call on it |
| `References.LiteralParentAffects` | test/spec/spec.references.js:34-46 | when a literal parent changes from `v` to `v2`, the changed fields are exactly the parent and its referrers, and each goes from `v` to `v2` |
| `References.ReferenceChangeEvents` | test/spec/spec.references.js:34-46 | when a literal parent changes from `v` to `v2`, the first event is the bulk `change` mapping the parent and every referrer, and nothing else, to `v2`; `change:<f>` events carry `(v2, v)` and are raised exactly once for each of those fields and for no other |
| `References.AnnouncedParentChange` | test/spec/spec.references.js:34-46 | events that announce a change in which exactly the parent and its referrers go from `v` to `v2` consist of the bulk payload mapping those fields to `v2`, then `change:<f>` events with `(v2, v)`, one for each of those fields and none for any other |
| `References.FixtureFollowers` | test/spec/spec.references.js:38 | in the suite's fixture, the parent and its referrers are exactly `parent` and `reffed` |
| `References.Fixture` | test/spec/spec.references.js:8-12 | for any two distinct names and any literal `v`, the fixture leaves `parent` holding the literal `v` and `reffed` holding a reference to `parent`, set in that order |
| `References.GetReturnsReferencedValue` | test/spec/spec.references.js:14-16 | `get(reffed)` is the parent's value `v` |
| `References.ToJSONReturnsReferencedValue` | test/spec/spec.references.js:18-20 | `toJSON()` is `{parent: v, reffed: v}` |
| `References.GetAfterChange` | test/spec/spec.references.js:22-26 | `get(reffed)` is `v` before and `v2` after `set(parent, v2)` |
| `References.ToJSONAfterChange` | test/spec/spec.references.js:28-32 | the `reffed` entry of `toJSON()` is `v` before and `v2` after `set(parent, v2)` |
| `References.ChangeEventForReference` | test/spec/spec.references.js:34-39 | `set(parent, v2)` with `v2 != v` emits one bulk `change` event, and it equals `{parent: v2, reffed: v2}` |
| `References.FieldChangeEventForReference` | test/spec/spec.references.js:41-46 | `set(parent, v2)` with `v2 != v` emits `change:reffed` with `(v2, v)`, new value first |

## Left out

- Listener registration and delivery (`on`, listener order, the test doubles). `Set` returns the emitted events as data.
- Re-entrant `set` from inside a listener. With no listeners, there is nothing to re-enter.
- Chained and cyclic references. Resolution is one hop by design: a reference to a reference reads as the marker text.
- Values other than strings. The suite only sets strings, and only strings can be reference markers.
- The bulk form `set({...})` and `set` options such as silent updates. The suite does not exercise them.
- Key order for integer-like field names. JavaScript objects list such keys before other keys; the model always keeps first-set order.
- Models.Model.Set: the event order (bulk `change` first, then `change:<field>` events) and the choice that a `set` changing no resolved value emits nothing are not fixed by the suite; they are this model's choices.
- Tracker.SetUnchangedIsQuiet: states a policy, not a promise of the suite; no line of the suite sets a field to the value it already holds.
- References.ChangeEventForReference: states the bulk event exactly but not the total number of events; `References.ReferenceChangeEvents` states which `change:<field>` events occur.
- The test harness (mocha, chai, sinon) and module loading.

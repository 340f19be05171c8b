/** Change tracking: which fields a `set` changes, and the events it emits. */
module Tracker {
  import opened Fields

  /** One affected field with its resolved value after and before the `set`,
      in the order a `change:<field>` listener receives them. */
  datatype Change = Change(field: Name, newValue: Option<string>, oldValue: Option<string>)

  /** An emitted event: the bulk `change` event with its payload, or a
      `change:<field>` event with its (new, old) arguments. */
  datatype Event =
    | Changed(payload: map<Name, Option<string>>)
    | FieldChanged(field: Name, newValue: Option<string>, oldValue: Option<string>)

  predicate Distinct(s: seq<Name>) {
    forall i, j | 0 <= i < j < |s| :: s[i] != s[j]
  }

  /** A store together with the order in which its fields were first set. */
  predicate StoreValid(store: Store, order: seq<Name>) {
    Distinct(order) &&
    (forall f | f in store :: f in order) &&
    (forall f | f in order :: f in store) &&
    (forall f | f in store :: WellFormed(store[f]))
  }

  /** Setting a field keeps the store consistent with its key order: a new
      field is appended, an existing one keeps its place. */
  lemma PutKeepsValid(store: Store, order: seq<Name>, name: Name, raw: Raw)
    requires StoreValid(store, order) && WellFormed(raw)
    ensures StoreValid(store[name := raw], if name in store then order else order + [name])
  {
    if name !in store {
      var order' := order + [name];
      forall i, j | 0 <= i < j < |order'| ensures order'[i] != order'[j] {
        if j == |order| {
          assert order[i] in order;
        }
      }
    }
  }

  predicate Reported(cs: seq<Change>, f: Name) {
    exists c | c in cs :: c.field == f
  }

  predicate DistinctFields(cs: seq<Change>) {
    forall i, j | 0 <= i < j < |cs| :: cs[i].field != cs[j].field
  }

  /** A field whose resolved value differs between the two stores. */
  predicate Affected(before: Store, after: Store, f: Name) {
    f in after && Resolve(before, f) != Resolve(after, f)
  }

  /** Every field whose resolved value differs, with its new resolved value. */
  function ChangedValues(before: Store, after: Store): map<Name, Option<string>> {
    map f | f in after && Resolve(before, f) != Resolve(after, f) :: Resolve(after, f)
  }

  /** The changes reported for the fields of `keys` (other than `name`) that
      reference `name`, in the order of `keys`, all moving from oldValue to newValue. */
  function ReferrerChanges(store: Store, keys: seq<Name>, name: Name,
                           newValue: Option<string>, oldValue: Option<string>): seq<Change>
  {
    if keys == [] then []
    else
      var f := keys[|keys| - 1];
      ReferrerChanges(store, keys[..|keys| - 1], name, newValue, oldValue)
      + (if f != name && f in store && store[f] == Ref(name) then [Change(f, newValue, oldValue)] else [])
  }

  /** The referrer changes name exactly the fields of `keys` other than `name`
      that hold a reference to `name`, each once when `keys` has no
      duplicates, all moving from oldValue to newValue. */
  lemma {:induction false} ReferrerChangesSpec(store: Store, keys: seq<Name>, name: Name,
                                               newValue: Option<string>, oldValue: Option<string>)
    ensures var r := ReferrerChanges(store, keys, name, newValue, oldValue);
            (forall c | c in r :: c.newValue == newValue && c.oldValue == oldValue) &&
            (forall f :: Reported(r, f) <==> f in keys && f != name && f in store && store[f] == Ref(name)) &&
            (Distinct(keys) ==> DistinctFields(r))
  {
    if keys != [] {
      var f := keys[|keys| - 1];
      var init := keys[..|keys| - 1];
      assert forall g :: g in keys <==> g in init || g == f;
      assert Distinct(keys) ==> Distinct(init) && f !in init by {
        if Distinct(keys) {
          forall k | 0 <= k < |init| ensures init[k] != f && forall j | k < j < |init| :: init[k] != init[j] {
            assert init[k] == keys[k];
          }
        }
      }
      ReferrerChangesSpec(store, init, name, newValue, oldValue);
      var rest := ReferrerChanges(store, init, name, newValue, oldValue);
      var last := if f != name && f in store && store[f] == Ref(name) then [Change(f, newValue, oldValue)] else [];
      ReportedAppend(rest, last);
      if last != [] {
        assert Reported(last, f);
        if Distinct(keys) {
          DistinctAppend(rest, last);
        }
      } else {
        assert rest + last == rest;
      }
    }
  }

  lemma ReportedAppend(a: seq<Change>, b: seq<Change>)
    ensures forall f :: Reported(a + b, f) <==> Reported(a, f) || Reported(b, f)
  {
    assert forall c :: c in a + b <==> c in a || c in b;
  }

  lemma DistinctAppend(a: seq<Change>, b: seq<Change>)
    requires DistinctFields(a) && DistinctFields(b)
    requires forall f | Reported(a, f) :: !Reported(b, f)
    ensures DistinctFields(a + b)
  {
    forall i, j | 0 <= i < j < |a + b| ensures (a + b)[i].field != (a + b)[j].field {
      if i < |a| && |a| <= j {
        assert (a + b)[i] == a[i] && a[i] in a;
        assert (a + b)[j] == b[j - |a|] && b[j - |a|] in b;
        assert Reported(a, a[i].field);
        assert !Reported(b, a[i].field);
      }
    }
  }

  /** The changes one `set(name, raw)` makes, in the order they are reported:
      the mutated field first if its resolved value changed, then every other
      field that references it, in the order the fields were first set, if
      what they see of it changed. */
  function Tracked(before: Store, order: seq<Name>, name: Name, raw: Raw): seq<Change> {
    var after := before[name := raw];
    var oldValue, newValue := Resolve(before, name), Resolve(after, name);
    var oldShared, newShared := Shared(before, name), Shared(after, name);
    (if oldValue != newValue then [Change(name, newValue, oldValue)] else [])
    + (if oldShared != newShared then ReferrerChanges(before, order, name, newShared, oldShared) else [])
  }

  lemma ReferrerChangesStep(store: Store, keys: seq<Name>, i: nat, name: Name,
                            newValue: Option<string>, oldValue: Option<string>)
    requires i < |keys|
    ensures ReferrerChanges(store, keys[..i + 1], name, newValue, oldValue)
         == ReferrerChanges(store, keys[..i], name, newValue, oldValue)
            + (if keys[i] != name && keys[i] in store && store[keys[i]] == Ref(name)
               then [Change(keys[i], newValue, oldValue)] else [])
  {
    assert keys[..i + 1][..i] == keys[..i];
  }

  /** The change tracker run by `set`: resolves the mutated field before and
      after the mutation, then walks the other fields in order and reports
      those that reference it. */
  method ComputeAffected(before: Store, order: seq<Name>, name: Name, raw: Raw) returns (changes: seq<Change>)
    requires StoreValid(before, order)
    ensures Describes(before, before[name := raw], changes)
    ensures Reported(changes, name) ==> changes[0].field == name
    ensures changes == Tracked(before, order, name, raw)
  {
    var oldValue := Resolve(before, name);
    var oldShared := Shared(before, name);
    var after := before[name := raw];
    var newValue := Resolve(after, name);
    var newShared := Shared(after, name);
    changes := if oldValue != newValue then [Change(name, newValue, oldValue)] else [];
    if oldShared != newShared {
      var referrers := CollectReferrers(before, order, name, newShared, oldShared);
      changes := changes + referrers;
    }
    TrackedIsDiff(before, order, name, raw);
  }

  /** The tracker's walk over the fields in order, keeping those (other than
      `name`) that reference `name`. */
  method CollectReferrers(store: Store, keys: seq<Name>, name: Name,
                          newValue: Option<string>, oldValue: Option<string>) returns (changes: seq<Change>)
    ensures changes == ReferrerChanges(store, keys, name, newValue, oldValue)
  {
    changes := [];
    var i := 0;
    while i < |keys|
      invariant 0 <= i <= |keys|
      invariant changes == ReferrerChanges(store, keys[..i], name, newValue, oldValue)
    {
      var f := keys[i];
      ReferrerChangesStep(store, keys, i, name, newValue, oldValue);
      if f != name && f in store && store[f] == Ref(name) {
        changes := changes + [Change(f, newValue, oldValue)];
      }
      i := i + 1;
    }
    assert keys[..i] == keys;
  }

  /** The payload of the bulk `change` event: each reported field mapped to its new value. */
  function Payload(cs: seq<Change>): map<Name, Option<string>> {
    if cs == [] then map[]
    else Payload(cs[..|cs| - 1])[cs[|cs| - 1].field := cs[|cs| - 1].newValue]
  }

  /** The payload's keys are exactly the reported fields and, when no field is
      reported twice, each maps to its change's new value. */
  lemma {:induction false} PayloadSpec(cs: seq<Change>)
    ensures forall f :: f in Payload(cs) <==> Reported(cs, f)
    ensures DistinctFields(cs) ==> forall c | c in cs :: c.field in Payload(cs) && Payload(cs)[c.field] == c.newValue
  {
    if cs != [] {
      var last := cs[|cs| - 1];
      var init := cs[..|cs| - 1];
      assert cs == init + [last];
      ReportedAppend(init, [last]);
      assert Reported([last], last.field);
      assert forall c :: c in cs <==> c in init || c == last;
      PayloadSpec(init);
      assert DistinctFields(cs) ==> DistinctFields(init) && forall c | c in init :: c.field != last.field by {
        if DistinctFields(cs) {
          forall k | 0 <= k < |init|
            ensures init[k].field != last.field && forall j | k < j < |init| :: init[k].field != init[j].field
          {
            assert init[k] == cs[k];
          }
        }
      }
    }
  }

  /** The events a `set` emits for its changes: nothing when no field changed;
      otherwise one bulk `change` event, then one `change:<field>` event per
      change, in order. */
  function Notifications(cs: seq<Change>): seq<Event> {
    if cs == [] then []
    else [Changed(Payload(cs))] + FieldEvents(cs)
  }

  function FieldEvents(cs: seq<Change>): seq<Event> {
    if cs == [] then []
    else [FieldChanged(cs[0].field, cs[0].newValue, cs[0].oldValue)] + FieldEvents(cs[1..])
  }

  /** The per-field events are exactly the changes, one for one. */
  lemma {:induction false} FieldEventsOf(cs: seq<Change>)
    ensures |FieldEvents(cs)| == |cs|
    ensures forall i | 0 <= i < |cs| :: FieldEvents(cs)[i] == FieldChanged(cs[i].field, cs[i].newValue, cs[i].oldValue)
    ensures forall e | e in FieldEvents(cs) :: e.FieldChanged?
    ensures forall f, n, o :: FieldChanged(f, n, o) in FieldEvents(cs) <==> Change(f, n, o) in cs
  {
    if cs != [] {
      FieldEventsOf(cs[1..]);
      assert forall c :: c in cs <==> c == cs[0] || c in cs[1..];
      forall i | 1 <= i < |cs|
        ensures FieldEvents(cs)[i] == FieldChanged(cs[i].field, cs[i].newValue, cs[i].oldValue)
      {
        assert FieldEvents(cs)[i] == FieldEvents(cs[1..])[i - 1];
      }
    }
  }

  /** Only the mutated field and the fields referencing it can change. */
  lemma Unaffected(before: Store, name: Name, raw: Raw, f: Name)
    requires f != name && !(f in before && before[f] == Ref(name))
    ensures Resolve(before, f) == Resolve(before[name := raw], f)
  {
  }

  /** The tracked changes are exactly the fields whose resolved value differs
      before and after the `set`, each reported once with its new and old
      resolved values, the mutated field first. */
  lemma TrackedIsDiff(before: Store, order: seq<Name>, name: Name, raw: Raw)
    requires StoreValid(before, order)
    ensures Describes(before, before[name := raw], Tracked(before, order, name, raw))
    ensures var cs := Tracked(before, order, name, raw);
            Reported(cs, name) ==> cs[0].field == name
  {
    var after := before[name := raw];
    var oldValue, newValue := Resolve(before, name), Resolve(after, name);
    var oldShared, newShared := Shared(before, name), Shared(after, name);
    var head := if oldValue != newValue then [Change(name, newValue, oldValue)] else [];
    var tail := if oldShared != newShared then ReferrerChanges(before, order, name, newShared, oldShared) else [];
    ReferrerChangesSpec(before, order, name, newShared, oldShared);
    assert Tracked(before, order, name, raw) == head + tail;
    assert forall f :: Reported(head, f) <==> f == name && oldValue != newValue by {
      if oldValue != newValue {
        assert head[0] in head;
      }
    }
    assert forall f :: Reported(tail, f) <==> f != name && f in before && before[f] == Ref(name) && oldShared != newShared;
    assert forall c | c in head :: c.newValue == Resolve(after, c.field) && c.oldValue == Resolve(before, c.field);
    assert forall c | c in tail :: c.newValue == Resolve(after, c.field) && c.oldValue == Resolve(before, c.field) by {
      forall c | c in tail ensures c.newValue == Resolve(after, c.field) && c.oldValue == Resolve(before, c.field) {
        assert Reported(tail, c.field);
        ReferrerSees(before, name, raw, c.field);
      }
    }
    forall f ensures Reported(head, f) || Reported(tail, f) <==> Affected(before, after, f) {
      if f != name {
        if f in before && before[f] == Ref(name) {
          ReferrerSees(before, name, raw, f);
        } else {
          Unaffected(before, name, raw, f);
        }
      }
    }
    DistinctAppend(head, tail);
    DescribesAppend(before, after, head, tail);
    if Reported(head + tail, name) {
      ReportedAppend(head, tail);
    }
  }

  /** A field referencing the mutated field sees its raw value, before and after. */
  lemma ReferrerSees(before: Store, name: Name, raw: Raw, f: Name)
    requires f != name && f in before && before[f] == Ref(name)
    ensures Resolve(before, f) == Shared(before, name)
    ensures Resolve(before[name := raw], f) == Shared(before[name := raw], name)
  {
  }

  lemma DescribesAppend(before: Store, after: Store, head: seq<Change>, tail: seq<Change>)
    requires DistinctFields(head + tail)
    requires forall f :: Reported(head, f) || Reported(tail, f) <==> Affected(before, after, f)
    requires forall c | c in head :: c.newValue == Resolve(after, c.field) && c.oldValue == Resolve(before, c.field)
    requires forall c | c in tail :: c.newValue == Resolve(after, c.field) && c.oldValue == Resolve(before, c.field)
    ensures Describes(before, after, head + tail)
  {
    ReportedAppend(head, tail);
    assert forall c :: c in head + tail <==> c in head || c in tail;
  }

  /** `cs` reports exactly the fields whose resolved value differs between
      the two stores, each once, with its new and old resolved values. */
  ghost predicate Describes(before: Store, after: Store, cs: seq<Change>) {
    DistinctFields(cs) &&
    (forall f :: Reported(cs, f) <==> Affected(before, after, f)) &&
    (forall c | c in cs :: c.newValue == Resolve(after, c.field) &&
                           c.oldValue == Resolve(before, c.field))
  }

  /** `evs` announces the difference between the two stores: nothing exactly
      when no resolved value changed; otherwise first one bulk `change` event
      whose payload maps every changed field, and only those, to its new
      resolved value, and after it only `change:<field>` events, exactly one
      for each changed field, with its new and old resolved values. */
  ghost predicate Announces(before: Store, after: Store, evs: seq<Event>) {
    (evs == [] <==> forall f | f in after :: Resolve(before, f) == Resolve(after, f)) &&
    (evs != [] ==> evs[0] == Changed(ChangedValues(before, after))) &&
    (forall i | 1 <= i < |evs| :: evs[i].FieldChanged?) &&
    (forall i, j | 1 <= i < j < |evs| :: evs[i].field != evs[j].field) &&
    (forall f, n, o :: FieldChanged(f, n, o) in evs <==>
                       Affected(before, after, f) && n == Resolve(after, f) && o == Resolve(before, f))
  }

  /** The payload built from a faithful change list is the map of changed values. */
  lemma PayloadOfDiff(before: Store, after: Store, cs: seq<Change>)
    requires Describes(before, after, cs)
    ensures Payload(cs) == ChangedValues(before, after)
  {
    var expected := ChangedValues(before, after);
    var payload := Payload(cs);
    PayloadSpec(cs);
    assert payload.Keys == expected.Keys;
    forall f | f in payload ensures payload[f] == expected[f] {
      var c :| c in cs && c.field == f;
    }
  }

  /** The events built from a faithful change list announce the difference. */
  lemma {:induction false} NotificationsOfDiff(before: Store, after: Store, cs: seq<Change>)
    requires Describes(before, after, cs)
    ensures Announces(before, after, Notifications(cs))
  {
    var evs := Notifications(cs);
    FieldEventsOf(cs);
    if cs == [] {
      forall f | f in after ensures Resolve(before, f) == Resolve(after, f) {
        assert !Reported(cs, f);
      }
    } else {
      assert Reported(cs, cs[0].field);
      PayloadOfDiff(before, after, cs);
      assert evs[1..] == FieldEvents(cs);
      forall i | 1 <= i < |evs| ensures evs[i] == FieldChanged(cs[i - 1].field, cs[i - 1].newValue, cs[i - 1].oldValue) {
        assert evs[i] == FieldEvents(cs)[i - 1];
      }
    }
    forall f, n, o ensures FieldChanged(f, n, o) in evs <==>
                           Affected(before, after, f) && n == Resolve(after, f) && o == Resolve(before, f) {
      assert FieldChanged(f, n, o) in evs <==> FieldChanged(f, n, o) in FieldEvents(cs);
      if Affected(before, after, f) {
        assert Reported(cs, f);
        var c :| c in cs && c.field == f;
        if n == Resolve(after, f) && o == Resolve(before, f) {
          assert c == Change(f, n, o);
        }
      }
    }
  }

  /** What `set(name, raw)` emits announces exactly how the resolved values
      of the store changed. */
  lemma SetEvents(before: Store, order: seq<Name>, name: Name, raw: Raw)
    requires StoreValid(before, order)
    ensures Announces(before, before[name := raw], Notifications(Tracked(before, order, name, raw)))
  {
    TrackedIsDiff(before, order, name, raw);
    NotificationsOfDiff(before, before[name := raw], Tracked(before, order, name, raw));
  }

  /** The referrers of the mutated field are reported exactly when its raw
      value changed: the marker encoding loses nothing, so two different raw
      values always look different to a referencing field. */
  lemma ReferrersSeeRawChange(before: Store, order: seq<Name>, name: Name, raw: Raw)
    requires StoreValid(before, order) && WellFormed(raw)
    ensures Shared(before, name) != Shared(before[name := raw], name) <==>
            !(name in before && before[name] == raw)
  {
    if name in before {
      RenderInjective(before[name], raw);
    }
  }

  /** Repeating a `set` with the value a field already holds changes nothing
      and emits nothing. */
  lemma SetUnchangedIsQuiet(before: Store, order: seq<Name>, name: Name, raw: Raw)
    requires name in before && before[name] == raw
    ensures Notifications(Tracked(before, order, name, raw)) == []
  {
    assert before[name := raw] == before;
  }
}

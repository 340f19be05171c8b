/** The "Referenced Fields" behaviour: a field set to "$ref:" + parent reads
    as the parent's current value and is reported when the parent changes.
    The lemmas state it for any store, any two distinct fields and any values;
    the methods replay the suite's fixture and each of its cases on a Model. */
module References {
  import opened Fields
  import opened Tracker
  import opened Models

  /** After `set(parent, v)` and `set(reffed, "$ref:" + parent)`, reading
      `reffed` gives v, and the store keeps `reffed` as a reference. */
  lemma ReferenceResolves(store: Store, parent: Name, reffed: Name, v: string)
    requires parent != reffed
    ensures var s := store[parent := Parse(v)][reffed := Parse(Marker + parent)];
            s[reffed] == Ref(parent) && Resolve(s, reffed) == Some(v)
  {
    MarkerOf(parent);
  }

  /** Setting the parent again changes only the parent's entry: `reffed`
      stays a reference and now reads as the new value. */
  lemma LiveUpdate(store: Store, parent: Name, reffed: Name, v2: string)
    requires parent != reffed && reffed in store && store[reffed] == Ref(parent)
    ensures var s := store[parent := Parse(v2)];
            s[reffed] == Ref(parent) && Resolve(s, reffed) == Some(v2) &&
            (forall f | f in store && f != parent :: s[f] == store[f])
  {
  }

  /** Which fields change, and how, when a literal parent goes from v to v2:
      the parent and the fields referencing it, each from v to v2. */
  lemma LiteralParentAffects(store: Store, parent: Name, v: string, v2: string)
    requires parent in store && store[parent] == Literal(v)
    requires v != v2 && !IsMarker(v2)
    ensures var after := store[parent := Parse(v2)];
            forall f :: Affected(store, after, f) <==> Follows(store, parent, f)
    ensures var after := store[parent := Parse(v2)];
            forall f | Follows(store, parent, f) :: Resolve(store, f) == Some(v) && Resolve(after, f) == Some(v2)
  {
    var after := store[parent := Parse(v2)];
    forall f ensures Affected(store, after, f) <==> Follows(store, parent, f) {
      if !Follows(store, parent, f) {
        Unaffected(store, parent, Parse(v2), f);
      }
    }
  }

  /** The parent itself, or a field holding a reference to it. */
  predicate Follows(store: Store, parent: Name, f: Name) {
    f in store && (f == parent || store[f] == Ref(parent))
  }

  /** Changing a literal parent from v to v2 emits one bulk `change` event
      whose payload maps the parent and every field referencing it, and
      nothing else, to v2; and a `change:<field>` event with (v2, v) for the
      parent and for each of those fields, and for no other field. */
  lemma ReferenceChangeEvents(store: Store, order: seq<Name>, parent: Name, v: string, v2: string)
    requires StoreValid(store, order)
    requires parent in store && store[parent] == Literal(v)
    requires v != v2 && !IsMarker(v2)
    ensures var evs := Notifications(Tracked(store, order, parent, Parse(v2)));
            |evs| >= 2 &&
            evs[0] == Changed(map f | f in store && Follows(store, parent, f) :: Some(v2)) &&
            (forall f, n, o :: FieldChanged(f, n, o) in evs <==>
                               Follows(store, parent, f) && n == Some(v2) && o == Some(v)) &&
            (forall i | 1 <= i < |evs| :: evs[i].FieldChanged?) &&
            (forall i, j | 1 <= i < j < |evs| :: evs[i].field != evs[j].field)
  {
    var after := store[parent := Parse(v2)];
    SetEvents(store, order, parent, Parse(v2));
    LiteralParentAffects(store, parent, v, v2);
    AnnouncedParentChange(store, after, Notifications(Tracked(store, order, parent, Parse(v2))), parent, v, v2);
  }

  lemma AnnouncedParentChange(store: Store, after: Store, evs: seq<Event>, parent: Name, v: string, v2: string)
    requires Announces(store, after, evs)
    requires parent in store
    requires forall f :: Affected(store, after, f) <==> Follows(store, parent, f)
    requires forall f | Follows(store, parent, f) :: Resolve(store, f) == Some(v) && Resolve(after, f) == Some(v2)
    ensures |evs| >= 2 &&
            evs[0] == Changed(map f | f in store && Follows(store, parent, f) :: Some(v2)) &&
            (forall f, n, o :: FieldChanged(f, n, o) in evs <==>
                               Follows(store, parent, f) && n == Some(v2) && o == Some(v)) &&
            (forall i | 1 <= i < |evs| :: evs[i].FieldChanged?) &&
            (forall i, j | 1 <= i < j < |evs| :: evs[i].field != evs[j].field)
  {
    assert Follows(store, parent, parent) && Affected(store, after, parent);
    var expected := map f | f in store && Follows(store, parent, f) :: Some(v2);
    var payload := ChangedValues(store, after);
    assert payload.Keys == expected.Keys by {
      forall f ensures f in payload <==> f in expected {
        assert f in payload <==> Affected(store, after, f);
      }
    }
    assert payload == expected;
    assert FieldChanged(parent, Some(v2), Some(v)) in evs;
  }

  /** The suite's fixture, for any two distinct field names and any literal
      value (the suite uses 'parent', 'reffed' and 'original value'): a new
      Model, then `set(parent, v)` and `set(reffed, "$ref:" + parent)`. */
  method Fixture(parent: Name, reffed: Name, v: string) returns (m: Model)
    requires parent != reffed && !IsMarker(v)
    ensures fresh(m) && m.Valid()
    ensures m.fields == map[parent := Literal(v), reffed := Ref(parent)]
    ensures m.order == [parent, reffed]
  {
    m := new Model();
    var _ := m.Set(parent, v);
    ParseMarker(parent);
    var _ := m.Set(reffed, Marker + parent);
  }

  /** In the fixture, the fields following the parent are the parent and the reference. */
  lemma FixtureFollowers(parent: Name, reffed: Name, v: string, v2: string)
    requires parent != reffed
    ensures var store := map[parent := Literal(v), reffed := Ref(parent)];
            (map f | f in store && Follows(store, parent, f) :: Some(v2)) == map[parent := Some(v2), reffed := Some(v2)]
  {
    var store := map[parent := Literal(v), reffed := Ref(parent)];
    assert Follows(store, parent, parent) && Follows(store, parent, reffed);
    assert store.Keys == {parent, reffed};
  }

  /** `get` returns the referenced field value. */
  method GetReturnsReferencedValue(parent: Name, reffed: Name, v: string) returns (got: Option<string>)
    requires parent != reffed && !IsMarker(v)
    ensures got == Some(v)
  {
    var m := Fixture(parent, reffed, v);
    got := m.Get(reffed);
  }

  /** `toJSON` returns the referenced field value. */
  method ToJSONReturnsReferencedValue(parent: Name, reffed: Name, v: string) returns (json: map<Name, Option<string>>)
    requires parent != reffed && !IsMarker(v)
    ensures json == map[parent := Some(v), reffed := Some(v)]
  {
    var m := Fixture(parent, reffed, v);
    json := m.ToJSON();
  }

  /** `get` returns the referenced field value after a change to the parent. */
  method GetAfterChange(parent: Name, reffed: Name, v: string, v2: string) returns (before: Option<string>, after: Option<string>)
    requires parent != reffed && !IsMarker(v) && !IsMarker(v2)
    ensures before == Some(v) && after == Some(v2)
  {
    var m := Fixture(parent, reffed, v);
    before := m.Get(reffed);
    var _ := m.Set(parent, v2);
    after := m.Get(reffed);
  }

  /** `toJSON` returns the referenced field value after a change to the parent. */
  method ToJSONAfterChange(parent: Name, reffed: Name, v: string, v2: string)
    returns (before: map<Name, Option<string>>, after: map<Name, Option<string>>)
    requires parent != reffed && !IsMarker(v) && !IsMarker(v2)
    ensures reffed in before && before[reffed] == Some(v)
    ensures reffed in after && after[reffed] == Some(v2)
  {
    var m := Fixture(parent, reffed, v);
    before := m.ToJSON();
    var _ := m.Set(parent, v2);
    after := m.ToJSON();
  }

  /** A `change` listener is called once, with {parent: v2, reffed: v2}. */
  method ChangeEventForReference(parent: Name, reffed: Name, v: string, v2: string) returns (events: seq<Event>)
    requires parent != reffed && !IsMarker(v) && !IsMarker(v2) && v != v2
    ensures |events| >= 1
    ensures events[0] == Changed(map[parent := Some(v2), reffed := Some(v2)])
    ensures forall i | 1 <= i < |events| :: events[i].FieldChanged?
  {
    var m := Fixture(parent, reffed, v);
    var store, order := m.fields, m.order;
    events := m.Set(parent, v2);
    ReferenceChangeEvents(store, order, parent, v, v2);
    FixtureFollowers(parent, reffed, v, v2);
  }

  /** A `change:reffed` listener is called with (v2, v): new value first. */
  method FieldChangeEventForReference(parent: Name, reffed: Name, v: string, v2: string) returns (events: seq<Event>)
    requires parent != reffed && !IsMarker(v) && !IsMarker(v2) && v != v2
    ensures FieldChanged(reffed, Some(v2), Some(v)) in events
  {
    var m := Fixture(parent, reffed, v);
    var store, order := m.fields, m.order;
    events := m.Set(parent, v2);
    ReferenceChangeEvents(store, order, parent, v, v2);
    assert Follows(store, parent, reffed);
  }

  /** The suite itself, with its own field names and values. */
  method ReferencedFieldsSuite() {
    NotMarker("original value");
    NotMarker("new value");
    var got := GetReturnsReferencedValue("parent", "reffed", "original value");
    assert got == Some("original value");
    var json := ToJSONReturnsReferencedValue("parent", "reffed", "original value");
    assert json["reffed"] == Some("original value");
    var before, after := GetAfterChange("parent", "reffed", "original value", "new value");
    assert before == Some("original value") && after == Some("new value");
    var events := ChangeEventForReference("parent", "reffed", "original value", "new value");
    assert events[0] == Changed(map["parent" := Some("new value"), "reffed" := Some("new value")]);
    events := FieldChangeEventForReference("parent", "reffed", "original value", "new value");
    assert FieldChanged("reffed", Some("new value"), Some("original value")) in events;
  }
}

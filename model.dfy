/** The store object: `get`, `set` and `toJSON` over a mutable field map. */
module Models {
  import opened Fields
  import opened Tracker

  class Model {
    /** Raw value of every field set so far. */
    var fields: Store
    /** The field names in the order they were first set (the iteration order
        of the underlying object). */
    var order: seq<Name>

    ghost predicate Valid()
      reads this
    {
      StoreValid(fields, order)
    }

    /** A new store holds no fields. */
    constructor ()
      ensures Valid() && fields == map[] && order == []
    {
      fields := map[];
      order := [];
    }

    /** `get(name)`: the resolved value of a field; None if it was never set. */
    method Get(name: Name) returns (value: Option<string>)
      ensures value == Resolve(fields, name)
    {
      if name !in fields {
        value := None;
      } else {
        match fields[name]
        case Literal(v) =>
          value := Some(v);
        case Ref(target) =>
          if target in fields {
            value := Some(Render(fields[target]));
          } else {
            value := None;
          }
      }
    }

    /** `toJSON()`: a fresh snapshot holding every field and only those, each
        with its resolved value as of now. */
    method ToJSON() returns (snapshot: map<Name, Option<string>>)
      requires Valid()
      ensures snapshot.Keys == fields.Keys
      ensures forall f | f in snapshot :: snapshot[f] == Resolve(fields, f)
    {
      snapshot := map[];
      var i := 0;
      while i < |order|
        invariant 0 <= i <= |order|
        invariant forall f :: f in snapshot <==> f in order[..i]
        invariant forall f | f in snapshot :: snapshot[f] == Resolve(fields, f)
      {
        var f := order[i];
        var value := Get(f);
        assert order[..i + 1] == order[..i] + [f];
        snapshot := snapshot[f := value];
        i := i + 1;
      }
      assert order[..i] == order;
    }

    /** `set(name, value)`: stores the parsed value under `name` (creating the
        field on first use, leaving every other field as it was) and returns
        the events it emits, as given by the change tracker. */
    method Set(name: Name, value: string) returns (events: seq<Event>)
      requires Valid()
      modifies this
      ensures Valid()
      ensures fields == old(fields)[name := Parse(value)]
      ensures order == if name in old(fields) then old(order) else old(order) + [name]
      ensures events == Notifications(Tracked(old(fields), old(order), name, Parse(value)))
    {
      var raw := Parse(value);
      var changes := ComputeAffected(fields, order, name, raw);
      PutKeepsValid(fields, order, name, raw);
      if name !in fields {
        order := order + [name];
      }
      fields := fields[name := raw];
      events := Notifications(changes);
    }
  }
}

/** Field values of the store: the raw value a field holds, the "$ref:" marker
    that turns a field into a live alias of another one, and one-hop resolution
    of a field to the value a reader sees. */
module Fields {

  datatype Option<+T> = None | Some(value: T)

  type Name = string

  /** The raw value last given to `set` for a field, parsed once. */
  datatype Raw = Literal(value: string) | Ref(target: Name)

  /** A string of the form Marker + target declares a reference to target. */
  const Marker: string := "$ref:"

  predicate IsMarker(s: string) {
    |Marker| <= |s| && s[..|Marker|] == Marker
  }

  /** A literal never looks like a reference marker: `set` would have parsed it as one. */
  predicate WellFormed(r: Raw) {
    r.Literal? ==> !IsMarker(r.value)
  }

  /** The text `set` was given for this raw value. */
  function Render(r: Raw): string {
    match r
    case Literal(v) => v
    case Ref(t) => Marker + t
  }

  /** Parses the value passed to `set`: a marker string becomes a reference,
      anything else is kept as a literal. */
  function Parse(s: string): (r: Raw)
    ensures r.Ref? <==> IsMarker(s)
    ensures WellFormed(r) && Render(r) == s
  {
    if IsMarker(s) then
      assert s == Marker + s[|Marker|..];
      Ref(s[|Marker|..])
    else Literal(s)
  }

  lemma MarkerOf(t: Name)
    ensures IsMarker(Marker + t) && (Marker + t)[|Marker|..] == t
  {
    assert (Marker + t)[..|Marker|] == Marker;
  }

  lemma ParseMarker(t: Name)
    ensures Parse(Marker + t) == Ref(t)
  {
    MarkerOf(t);
  }

  lemma NotMarker(s: string)
    requires s != [] && s[0] != Marker[0]
    ensures Parse(s) == Literal(s)
  {
  }

  /** Parsing the text of a well-formed raw value gives it back. */
  lemma ParseRender(r: Raw)
    requires WellFormed(r)
    ensures Parse(Render(r)) == r
  {
    if r.Ref? {
      MarkerOf(r.target);
    }
  }

  /** Rendering is one-to-one on well-formed raw values, so two fields show the
      same text exactly when they hold the same raw value. */
  lemma RenderInjective(a: Raw, b: Raw)
    requires WellFormed(a) && WellFormed(b)
    ensures Render(a) == Render(b) <==> a == b
  {
    if Render(a) == Render(b) {
      ParseRender(a);
      ParseRender(b);
    }
  }

  /** The field store: field name to raw value. */
  type Store = map<Name, Raw>

  /** What a field referencing `name` sees: the raw value of `name` as it was
      set (one hop, no further resolution), or None if `name` was never set. */
  function Shared(store: Store, name: Name): Option<string> {
    if name in store then Some(Render(store[name])) else None
  }

  /** The value `get(name)` returns: a literal as stored, a reference as what
      its target holds, None for a field that was never set. */
  function Resolve(store: Store, name: Name): Option<string> {
    if name !in store then None
    else match store[name]
      case Literal(v) => Some(v)
      case Ref(t) => Shared(store, t)
  }
}

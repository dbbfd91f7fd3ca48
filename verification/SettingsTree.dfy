/** Loading and saving a tree of object nodes, on values (src/plugin/src/Sleepy/Settings/objectnode.cpp:37-185,
    node.cpp:64-67, 102-116). The order of keys never matters, so objects are maps. */
module SettingsTree {
  import opened Wrappers
  import opened SettingsCodecs

  datatype OptionDesc = OptionDesc(codec: Codec, default: Value, globalOnly: bool)
  datatype ChildDesc = ChildDesc(schema: Schema, globalOnly: bool)

  /** The keys of an object node: options, and nodes of their own. */
  datatype Schema = Schema(options: map<string, OptionDesc>, children: map<string, ChildDesc>)

  /** What a node and the nodes below it hold. The quarantine keeps the entries that could not be loaded. */
  datatype State = State(values: map<string, Value>, overrides: set<string>, quarantine: map<string, Json>,
                         children: map<string, State>)

  /** Keys are options or nodes. */
  ghost predicate IsSchema(schema: Schema) {
    && schema.options.Keys !! schema.children.Keys
    && (forall k :: k in schema.children ==> IsSchema(schema.children[k].schema))
  }

  ghost predicate HasShape(schema: Schema, s: State) {
    && s.values.Keys == schema.options.Keys && s.overrides <= schema.options.Keys
    && s.children.Keys == schema.children.Keys
    && forall k :: k in schema.children ==> HasShape(schema.children[k].schema, s.children[k])
  }

  lemma ShapeOf(schema: Schema, s: State)
    requires HasShape(schema, s)
    ensures s.values.Keys == schema.options.Keys && s.overrides <= schema.options.Keys
    ensures s.children.Keys == schema.children.Keys
  {
  }

  lemma ShapeBelow(schema: Schema, s: State, k: string)
    requires HasShape(schema, s) && k in schema.children
    ensures k in s.children && HasShape(schema.children[k].schema, s.children[k])
  {
  }

  /** A layer over another one has that one's state to fall back on. */
  ghost predicate FallbackFits(schema: Schema, fallback: Option<State>) {
    fallback.Some? ==> HasShape(schema, fallback.value)
  }

  function DefaultOf(schema: Schema, fallback: Option<State>, k: string): Value
    requires k in schema.options && FallbackFits(schema, fallback)
  {
    if fallback.Some? then fallback.value.values[k] else schema.options[k].default
  }

  function ChildFallback(schema: Schema, fallback: Option<State>, k: string): (r: Option<State>)
    requires k in schema.children && FallbackFits(schema, fallback)
    ensures FallbackFits(schema.children[k].schema, r) && r.Some? == fallback.Some?
  {
    if fallback.Some? then Some(fallback.value.children[k]) else None
  }

  /** Whether a global option or node is looked at from a layer that may not define it. */
  predicate IsForeign(fallback: Option<State>, globalOnly: bool) {
    fallback.Some? && globalOnly
  }

  /** A node as constructed. */
  function Fresh(schema: Schema, fallback: Option<State>): (s: State)
    requires FallbackFits(schema, fallback)
    ensures HasShape(schema, s)
    decreases schema
  {
    State(map k | k in schema.options :: DefaultOf(schema, fallback, k), {}, map[],
          map k | k in schema.children :: Fresh(schema.children[k].schema, ChildFallback(schema, fallback, k)))
  }

  /** Back to fallbacks and defaults; a layer leaves global nodes and options alone. */
  function Reset(schema: Schema, fallback: Option<State>, globalOnly: bool, s: State): (r: State)
    requires FallbackFits(schema, fallback) && HasShape(schema, s)
    ensures HasShape(schema, r)
    decreases schema
  {
    if IsForeign(fallback, globalOnly) then s
    else
      State(ResetValues(schema, fallback, s.values), ResetOverrides(schema, fallback.Some?, s.overrides), map[],
            map k | k in schema.children :: ResetChild(schema, fallback, globalOnly, s, k))
  }

  function ResetValues(schema: Schema, fallback: Option<State>, values: map<string, Value>): map<string, Value>
    requires FallbackFits(schema, fallback) && values.Keys == schema.options.Keys
  {
    map k | k in schema.options ::
      if IsForeign(fallback, schema.options[k].globalOnly) then values[k] else DefaultOf(schema, fallback, k)
  }

  function ResetOverrides(schema: Schema, overlay: bool, overrides: set<string>): set<string> {
    set k | k in overrides && k in schema.options && overlay && schema.options[k].globalOnly
  }

  function ResetChild(schema: Schema, fallback: Option<State>, globalOnly: bool, s: State, k: string): (r: State)
    requires FallbackFits(schema, fallback) && HasShape(schema, s) && k in schema.children
    ensures HasShape(schema.children[k].schema, r)
    decreases schema, 0
  {
    Reset(schema.children[k].schema, ChildFallback(schema, fallback, k),
          globalOnly || schema.children[k].globalOnly, s.children[k])
  }

  /** Whether a layer takes an entry of its file as the value of an option. */
  predicate Accepts(schema: Schema, overlay: bool, globalOnly: bool, k: string, v: Json) {
    && k in schema.options && !((globalOnly || schema.options[k].globalOnly) && overlay)
    && Decode(schema.options[k].codec, v).Some?
  }

  predicate IsSubobject(schema: Schema, k: string, v: Json) {
    k in schema.children && v.Object?
  }

  /** A node that was given something other than an object still loses its quarantine. */
  function Cleared(schema: Schema, s: State): (r: State)
    requires HasShape(schema, s)
    ensures HasShape(schema, r)
  {
    s.(quarantine := map[])
  }

  function LoadValues(schema: Schema, fallback: Option<State>, globalOnly: bool, fields: map<string, Json>): map<string,
      Value>
    requires FallbackFits(schema, fallback)
  {
    map k | k in schema.options ::
      if k in fields && Accepts(schema, fallback.Some?, globalOnly, k, fields[k])
      then Decode(schema.options[k].codec, fields[k]).value else DefaultOf(schema, fallback, k)
  }

  function LoadOverrides(schema: Schema, overlay: bool, globalOnly: bool, fields: map<string, Json>): set<string> {
    set k | k in schema.options && k in fields && Accepts(schema, overlay, globalOnly, k, fields[k])
  }

  /** The entries that are neither loaded nor objects of a known node. */
  function LoadQuarantine(schema: Schema, overlay: bool, globalOnly: bool, fields: map<string, Json>): map<string,
      Json> {
    map k | k in fields && !Accepts(schema, overlay, globalOnly, k, fields[k])
      && !IsSubobject(schema, k, fields[k]) :: fields[k]
  }

  /** Replaces the state by what a JSON object says; what it does not say is reset. */
  function Load(schema: Schema, fallback: Option<State>, globalOnly: bool, s: State, fields: map<string,
                Json>): (r: State)
    requires FallbackFits(schema, fallback) && HasShape(schema, s)
    ensures HasShape(schema, r)
    decreases schema
  {
    State(LoadValues(schema, fallback, globalOnly, fields),
          LoadOverrides(schema, fallback.Some?, globalOnly, fields),
          LoadQuarantine(schema, fallback.Some?, globalOnly, fields),
          map k | k in schema.children :: LoadChild(schema, fallback, globalOnly, s, fields, k))
  }

  /** The node below a key: loaded from an object, reset if the key is missing or holds something else. */
  function LoadChild(schema: Schema, fallback: Option<State>, globalOnly: bool, s: State, fields: map<string, Json>,
                     k: string): (r: State)
    requires FallbackFits(schema, fallback) && HasShape(schema, s) && k in schema.children
    ensures HasShape(schema.children[k].schema, r)
    decreases schema, 0
  {
    var child, below := schema.children[k], ChildFallback(schema, fallback, k);
    var global := globalOnly || child.globalOnly;
    if k !in fields then Reset(child.schema, below, global, s.children[k])
    else if fields[k].Object? then Load(child.schema, below, global, s.children[k], fields[k].fields)
    else Reset(child.schema, below, global, Cleared(child.schema, s.children[k]))
  }

  /** Whether there is anything to save below a node. */
  predicate HasContent(schema: Schema, s: State)
    requires HasShape(schema, s)
    decreases schema
  {
    s.overrides != {} || s.quarantine != map[]
    || exists k :: k in schema.children && HasContent(schema.children[k].schema, s.children[k])
  }

  predicate IsSaved(schema: Schema, s: State, sparse: bool, k: string)
    requires HasShape(schema, s)
  {
    || (k in schema.options && (!sparse || k in s.overrides))
    || (k in schema.children && (!sparse || HasContent(schema.children[k].schema, s.children[k])))
    || k in s.quarantine
  }

  /** What a node is saved as: its overrides, or all of its options, and what is in quarantine. */
  function Save(schema: Schema, s: State, sparse: bool): map<string, Json>
    requires HasShape(schema, s)
    decreases schema
  {
    map k | k in schema.options.Keys + schema.children.Keys + s.quarantine.Keys && IsSaved(schema, s, sparse, k) ::
      SaveEntry(schema, s, sparse, k)
  }

  function SaveEntry(schema: Schema, s: State, sparse: bool, k: string): Json
    requires HasShape(schema, s) && IsSaved(schema, s, sparse, k)
    decreases schema, 0
  {
    if k in schema.options && (!sparse || k in s.overrides) then Encode(schema.options[k].codec, s.values[k])
    else if k in schema.children && (!sparse || HasContent(schema.children[k].schema, s.children[k]))
    then Object(Save(schema.children[k].schema, s.children[k], sparse))
    else s.quarantine[k]
  }

  /** A JSON object as a layer writes it back: decodable options re-encoded, known objects without content left out,
      everything else as it was. */
  function Canonical(schema: Schema, overlay: bool, globalOnly: bool, fields: map<string, Json>): map<string, Json>
    decreases schema
  {
    map k | k in fields && IsKept(schema, overlay, globalOnly, k, fields[k]) ::
      CanonicalEntry(schema, overlay, globalOnly, k, fields[k])
  }

  predicate IsKept(schema: Schema, overlay: bool, globalOnly: bool, k: string, v: Json)
    decreases schema, 1
  {
    !IsSubobject(schema, k, v) || CanonicalChild(schema, overlay, globalOnly, k, v) != map[]
  }

  function CanonicalEntry(schema: Schema, overlay: bool, globalOnly: bool, k: string, v: Json): Json
    decreases schema, 1
  {
    if Accepts(schema, overlay, globalOnly, k, v)
    then Encode(schema.options[k].codec, Decode(schema.options[k].codec, v).value)
    else if IsSubobject(schema, k, v) then Object(CanonicalChild(schema, overlay, globalOnly, k, v))
    else v
  }

  function CanonicalChild(schema: Schema, overlay: bool, globalOnly: bool, k: string, v: Json): map<string, Json>
    requires IsSubobject(schema, k, v)
    decreases schema, 0
  {
    Canonical(schema.children[k].schema, overlay, globalOnly || schema.children[k].globalOnly, v.fields)
  }

  // --- What a fresh layer loads and saves ---

  lemma {:induction false} FreshIsEmpty(schema: Schema, fallback: Option<State>)
    requires FallbackFits(schema, fallback)
    ensures !HasContent(schema, Fresh(schema, fallback))
    decreases schema
  {
    var s := Fresh(schema, fallback);
    forall k | k in schema.children ensures !HasContent(schema.children[k].schema, s.children[k]) {
      FreshIsEmpty(schema.children[k].schema, ChildFallback(schema, fallback, k));
    }
  }

  lemma {:induction false} ResetFresh(schema: Schema, fallback: Option<State>, globalOnly: bool)
    requires FallbackFits(schema, fallback)
    ensures Reset(schema, fallback, globalOnly, Fresh(schema, fallback)) == Fresh(schema, fallback)
    decreases schema
  {
    hide Reset, HasShape, IsForeign;
    if !IsForeign(fallback, globalOnly) {
      var s := Fresh(schema, fallback);
      var r := Reset(schema, fallback, globalOnly, s);
      ResetFields(schema, fallback, globalOnly, s);
      forall k | k in schema.children ensures r.children[k] == s.children[k] {
        ResetFresh(schema.children[k].schema, ChildFallback(schema, fallback, k),
                   globalOnly || schema.children[k].globalOnly);
      }
      assert r.values == s.values;
      SameState(r, s);
    } else {
      ForeignReset(schema, fallback, globalOnly, Fresh(schema, fallback));
    }
  }

  lemma ForeignReset(schema: Schema, fallback: Option<State>, globalOnly: bool, s: State)
    requires FallbackFits(schema, fallback) && HasShape(schema, s) && IsForeign(fallback, globalOnly)
    ensures Reset(schema, fallback, globalOnly, s) == s
  {
  }

  /** The parts of a node that was reset, one by one. */
  lemma ResetFields(schema: Schema, fallback: Option<State>, globalOnly: bool, s: State)
    requires FallbackFits(schema, fallback) && HasShape(schema, s) && !IsForeign(fallback, globalOnly)
    ensures var r := Reset(schema, fallback, globalOnly, s);
      && r.values == ResetValues(schema, fallback, s.values)
      && r.overrides == ResetOverrides(schema, fallback.Some?, s.overrides) && r.quarantine == map[]
      && r.children.Keys == schema.children.Keys
      && forall k :: k in schema.children ==> r.children[k] == ResetChild(schema, fallback, globalOnly, s, k)
  {
  }

  function LoadFresh(schema: Schema, fallback: Option<State>, globalOnly: bool, fields: map<string, Json>): (r: State)
    requires FallbackFits(schema, fallback)
    ensures HasShape(schema, r)
  {
    Load(schema, fallback, globalOnly, Fresh(schema, fallback), fields)
  }

  /** The node at `k` after loading: loaded itself from an object, fresh otherwise. */
  lemma LoadedChild(schema: Schema, fallback: Option<State>, globalOnly: bool, fields: map<string, Json>, k: string)
    requires FallbackFits(schema, fallback) && k in schema.children
    ensures var child := schema.children[k];
      LoadFresh(schema, fallback, globalOnly, fields).children[k]
      == if k in fields && fields[k].Object?
         then LoadFresh(child.schema, ChildFallback(schema, fallback, k),
                        globalOnly || child.globalOnly, fields[k].fields)
         else Fresh(child.schema, ChildFallback(schema, fallback, k))
  {
    var child, below, initial := schema.children[k], ChildFallback(schema, fallback, k), Fresh(schema, fallback);
    ResetFresh(child.schema, below, globalOnly || child.globalOnly);
    assert initial.children[k] == Fresh(child.schema, below);
    assert Cleared(child.schema, initial.children[k]) == initial.children[k];
    assert LoadFresh(schema, fallback, globalOnly, fields).children[k]
        == LoadChild(schema, fallback, globalOnly, initial, fields, k);
  }

  /** A node has content exactly if saving it gives entries. */
  lemma ContentIsSaved(schema: Schema, s: State)
    requires HasShape(schema, s)
    ensures HasContent(schema, s) <==> Save(schema, s, true) != map[]
  {
    hide SaveEntry;
    var saved := Save(schema, s, true);
    if s.overrides != {} {
      var k :| k in s.overrides;
      assert k in saved;
    } else if s.quarantine != map[] {
      var k :| k in s.quarantine;
      assert k in saved;
    } else if HasContent(schema, s) {
      var k :| k in schema.children && HasContent(schema.children[k].schema, s.children[k]);
      assert k in saved;
    } else {
      assert forall k :: k !in saved;
    }
  }

  /** Which keys are saved after loading, and as what, given the same for the node below. */
  lemma SavedEntry(schema: Schema, fallback: Option<State>, globalOnly: bool, fields: map<string, Json>, k: string)
    requires IsSchema(schema) && FallbackFits(schema, fallback)
    requires k in schema.children ==> SavesChild(schema, fallback, globalOnly, fields, k)
    ensures var s := LoadFresh(schema, fallback, globalOnly, fields);
      && (k in schema.options.Keys + schema.children.Keys + s.quarantine.Keys && IsSaved(schema, s, true, k)
          <==> k in fields && IsKept(schema, fallback.Some?, globalOnly, k, fields[k]))
      && (k in fields && IsKept(schema, fallback.Some?, globalOnly, k, fields[k]) ==>
          SaveEntry(schema, s, true, k) == CanonicalEntry(schema, fallback.Some?, globalOnly, k, fields[k]))
  {
    hide Save, Canonical, HasContent, HasShape, Encode, Decode, Fresh, Reset, LoadChild;
  }

  ghost predicate SavesChild(schema: Schema, fallback: Option<State>, globalOnly: bool, fields: map<string, Json>,
                             k: string)
    requires FallbackFits(schema, fallback) && k in schema.children
  {
    var child, s := schema.children[k].schema, LoadFresh(schema, fallback, globalOnly, fields).children[k];
    if k in fields && fields[k].Object? then
      var canonical := CanonicalChild(schema, fallback.Some?, globalOnly, k, fields[k]);
      Save(child, s, true) == canonical && (HasContent(child, s) <==> canonical != map[])
    else !HasContent(child, s)
  }

  /** Loading a JSON object and saving gives its canonical form, and content exactly if that has entries. */
  lemma {:induction false} SaveIsCanonical(schema: Schema, fallback: Option<State>, globalOnly: bool,
                                           fields: map<string, Json>)
    requires IsSchema(schema) && FallbackFits(schema, fallback)
    ensures var s := LoadFresh(schema, fallback, globalOnly, fields);
      && Save(schema, s, true) == Canonical(schema, fallback.Some?, globalOnly, fields)
      && (HasContent(schema, s) <==> Canonical(schema, fallback.Some?, globalOnly, fields) != map[])
    decreases schema
  {
    hide LoadChild, Fresh, Reset, Accepts, Encode, Decode, SaveEntry, CanonicalEntry, IsKept, IsSaved, HasShape,
      SavesChild;
    var s := LoadFresh(schema, fallback, globalOnly, fields);
    var saved, canonical := Save(schema, s, true), Canonical(schema, fallback.Some?, globalOnly, fields);
    forall k | k in schema.children ensures SavesChild(schema, fallback, globalOnly, fields, k) {
      ChildSaves(schema, fallback, globalOnly, fields, k);
    }
    forall k {
      SavedEntry(schema, fallback, globalOnly, fields, k);
    }
    assert saved == canonical;
    ContentIsSaved(schema, s);
  }

  lemma ChildSaves(schema: Schema, fallback: Option<State>, globalOnly: bool, fields: map<string, Json>, k: string)
    requires IsSchema(schema) && FallbackFits(schema, fallback) && k in schema.children
    ensures SavesChild(schema, fallback, globalOnly, fields, k)
    decreases schema, 0
  {
    hide Save, Canonical, HasContent, Load, Fresh, Reset, HasShape;
    var child, below := schema.children[k], ChildFallback(schema, fallback, k);
    LoadedChild(schema, fallback, globalOnly, fields, k);
    if k in fields && fields[k].Object? {
      SaveIsCanonical(child.schema, below, globalOnly || child.globalOnly, fields[k].fields);
    } else {
      FreshIsEmpty(child.schema, below);
    }
  }

  lemma SameState(s: State, t: State)
    requires s.values == t.values && s.overrides == t.overrides && s.quarantine == t.quarantine
    requires s.children.Keys == t.children.Keys && forall k :: k in s.children ==> s.children[k] == t.children[k]
    ensures s == t
  {
  }

  /** The parts of a loaded node, one by one. */
  lemma LoadedFields(schema: Schema, fallback: Option<State>, globalOnly: bool, fields: map<string, Json>)
    requires FallbackFits(schema, fallback)
    ensures var s := LoadFresh(schema, fallback, globalOnly, fields);
      && s.values == LoadValues(schema, fallback, globalOnly, fields)
      && s.overrides == LoadOverrides(schema, fallback.Some?, globalOnly, fields)
      && s.quarantine == LoadQuarantine(schema, fallback.Some?, globalOnly, fields)
      && s.children.Keys == schema.children.Keys
  {
  }

  lemma LoadNothing(schema: Schema, fallback: Option<State>, globalOnly: bool)
    requires FallbackFits(schema, fallback)
    ensures LoadFresh(schema, fallback, globalOnly, map[]) == Fresh(schema, fallback)
  {
    hide Reset, Load, LoadFresh, HasShape, LoadChild;
    var loaded, initial := LoadFresh(schema, fallback, globalOnly, map[]), Fresh(schema, fallback);
    LoadedFields(schema, fallback, globalOnly, map[]);
    forall k | k in schema.children ensures loaded.children[k] == initial.children[k] {
      LoadedChild(schema, fallback, globalOnly, map[], k);
    }
    assert LoadValues(schema, fallback, globalOnly, map[]) == initial.values;
    SameState(loaded, initial);
  }

  // --- Loading what was saved ---

  /** What the options a layer accepts decode to survives being saved and loaded. */
  ghost predicate IsStableSchema(schema: Schema, overlay: bool, globalOnly: bool) {
    && (forall k :: k in schema.options && !(overlay && (globalOnly || schema.options[k].globalOnly)) ==>
          IsStable(schema.options[k].codec))
    && (forall k :: k in schema.children ==>
          IsStableSchema(schema.children[k].schema, overlay, globalOnly || schema.children[k].globalOnly))
  }

  /** What becomes of an entry that is loaded and saved. */
  lemma EntryOf(schema: Schema, overlay: bool, globalOnly: bool, fields: map<string, Json>, k: string)
    requires IsSchema(schema)
    ensures var canonical := Canonical(schema, overlay, globalOnly, fields);
      && (k in canonical ==> k in fields)
      && (k in fields && !IsSubobject(schema, k, fields[k]) ==>
          k in canonical && canonical[k] ==
            if Accepts(schema, overlay, globalOnly, k, fields[k]) then Encode(schema.options[k].codec,
                                                        Decode(schema.options[k].codec, fields[k]).value)
                                            else fields[k])
      && (k in fields && IsSubobject(schema, k, fields[k]) ==>
          && (k in canonical <==> CanonicalChild(schema, overlay, globalOnly, k, fields[k]) != map[])
          && (k in canonical ==> canonical[k] == Object(CanonicalChild(schema, overlay, globalOnly, k, fields[k]))))
  {
    hide Encode, Decode, CanonicalChild;
  }

  /** An entry means the same after it was saved. */
  lemma EntryReloads(schema: Schema, overlay: bool, globalOnly: bool, fields: map<string, Json>, k: string)
    requires IsSchema(schema) && IsStableSchema(schema, overlay, globalOnly)
    ensures var canonical := Canonical(schema, overlay, globalOnly, fields);
      && (k in canonical ==> k in fields)
      && (k in fields && !IsSubobject(schema, k, fields[k]) ==>
          && k in canonical && !IsSubobject(schema, k, canonical[k])
          && Accepts(schema, overlay, globalOnly, k, canonical[k]) == Accepts(schema, overlay, globalOnly, k, fields[k])
          && (Accepts(schema, overlay, globalOnly, k, fields[k]) ==>
              Decode(schema.options[k].codec, canonical[k]) == Decode(schema.options[k].codec, fields[k]))
          && (!Accepts(schema, overlay, globalOnly, k, fields[k]) ==> canonical[k] == fields[k]))
      && (k in fields && IsSubobject(schema, k, fields[k]) ==>
          && (k in canonical <==> CanonicalChild(schema, overlay, globalOnly, k, fields[k]) != map[])
          && (k in canonical ==> canonical[k] == Object(CanonicalChild(schema, overlay, globalOnly, k, fields[k]))))
  {
    hide Encode, Decode, CanonicalChild, Canonical;
    EntryOf(schema, overlay, globalOnly, fields, k);
    if k in fields && Accepts(schema, overlay, globalOnly, k, fields[k]) {
      ReencodeDecodes(schema.options[k].codec, fields[k]);
    }
  }

  /** So it is loaded or put in quarantine as it was. */
  lemma EntryLoadsAlike(schema: Schema, overlay: bool, globalOnly: bool, fields: map<string, Json>, k: string)
    requires IsSchema(schema) && IsStableSchema(schema, overlay, globalOnly)
    ensures var canonical := Canonical(schema, overlay, globalOnly, fields);
      var (taken, before) := (k in canonical && Accepts(schema, overlay, globalOnly, k, canonical[k]),
                              k in fields && Accepts(schema, overlay, globalOnly, k, fields[k]));
      && taken == before
      && (taken ==> Decode(schema.options[k].codec, canonical[k]) == Decode(schema.options[k].codec, fields[k]))
      && (k in canonical && !taken && !IsSubobject(schema, k, canonical[k])
          <==> k in fields && !before && !IsSubobject(schema, k, fields[k]))
      && (k in fields && !before && !IsSubobject(schema, k, fields[k]) ==> canonical[k] == fields[k])
  {
    hide Canonical, CanonicalChild, Decode, IsStableSchema;
    EntryReloads(schema, overlay, globalOnly, fields, k);
  }

  lemma FieldsReload(schema: Schema, fallback: Option<State>, globalOnly: bool, fields: map<string, Json>)
    requires IsSchema(schema) && FallbackFits(schema, fallback) && IsStableSchema(schema, fallback.Some?, globalOnly)
    ensures var canonical, overlay := Canonical(schema, fallback.Some?, globalOnly, fields), fallback.Some?;
      && LoadValues(schema, fallback, globalOnly, canonical) == LoadValues(schema, fallback, globalOnly, fields)
      && LoadOverrides(schema, overlay, globalOnly, canonical) == LoadOverrides(schema, overlay, globalOnly, fields)
      && LoadQuarantine(schema, overlay, globalOnly, canonical) == LoadQuarantine(schema, overlay, globalOnly, fields)
  {
    hide Canonical, HasShape, Decode, DefaultOf, IsSchema, IsStableSchema, Accepts, IsSubobject;
    forall k {
      EntryLoadsAlike(schema, fallback.Some?, globalOnly, fields, k);
    }
  }

  /** Loading what was saved brings back the same values, overrides and quarantine everywhere. */
  lemma {:induction false} LoadCanonical(schema: Schema, fallback: Option<State>, globalOnly: bool,
                                         fields: map<string, Json>)
    requires IsSchema(schema) && FallbackFits(schema, fallback) && IsStableSchema(schema, fallback.Some?, globalOnly)
    ensures LoadFresh(schema, fallback, globalOnly, Canonical(schema, fallback.Some?, globalOnly, fields))
         == LoadFresh(schema, fallback, globalOnly, fields)
    decreases schema
  {
    hide *;
    var canonical := Canonical(schema, fallback.Some?, globalOnly, fields);
    var s, t := LoadFresh(schema, fallback, globalOnly, fields), LoadFresh(schema, fallback, globalOnly, canonical);
    LoadedFields(schema, fallback, globalOnly, fields);
    LoadedFields(schema, fallback, globalOnly, canonical);
    FieldsReload(schema, fallback, globalOnly, fields);
    forall k | k in schema.children ensures t.children[k] == s.children[k] {
      ChildReloads(schema, fallback, globalOnly, fields, k);
    }
    SameState(t, s);
  }

  lemma ChildReloads(schema: Schema, fallback: Option<State>, globalOnly: bool, fields: map<string, Json>, k: string)
    requires IsSchema(schema) && FallbackFits(schema, fallback) && IsStableSchema(schema, fallback.Some?, globalOnly)
      && k in schema.children
    ensures LoadFresh(schema, fallback, globalOnly, Canonical(schema, fallback.Some?, globalOnly, fields)).children[k]
         == LoadFresh(schema, fallback, globalOnly, fields).children[k]
    decreases schema, 0
  {
    hide Load, Canonical, HasShape, Accepts;
    var canonical := Canonical(schema, fallback.Some?, globalOnly, fields);
    var child, below := schema.children[k], ChildFallback(schema, fallback, k);
    EntryReloads(schema, fallback.Some?, globalOnly, fields, k);
    LoadedChild(schema, fallback, globalOnly, fields, k);
    LoadedChild(schema, fallback, globalOnly, canonical, k);
    LoadNothing(child.schema, below, globalOnly || child.globalOnly);
    if k in fields && fields[k].Object? {
      LoadCanonical(child.schema, below, globalOnly || child.globalOnly, fields[k].fields);
    }
  }

  /** Load, save, load and save: nothing changes any more. */
  ghost predicate SavesStably(schema: Schema, fallback: Option<State>, globalOnly: bool, fields: map<string, Json>)
    requires FallbackFits(schema, fallback)
  {
    var s := LoadFresh(schema, fallback, globalOnly, fields);
    var saved := Save(schema, s, true);
    var t := LoadFresh(schema, fallback, globalOnly, saved);
    t == s && Save(schema, t, true) == saved
  }

  lemma SaveIsStable(schema: Schema, fallback: Option<State>, globalOnly: bool, fields: map<string, Json>)
    requires IsSchema(schema) && FallbackFits(schema, fallback) && IsStableSchema(schema, fallback.Some?, globalOnly)
    ensures SavesStably(schema, fallback, globalOnly, fields)
  {
    SaveIsCanonical(schema, fallback, globalOnly, fields);
    LoadCanonical(schema, fallback, globalOnly, fields);
  }

  /** Whatever the file says, exactly if every accepted option is of such a type. */
  lemma StableIff(schema: Schema, fallback: Option<State>, globalOnly: bool)
    requires IsSchema(schema) && FallbackFits(schema, fallback)
    ensures IsStableSchema(schema, fallback.Some?, globalOnly)
       <==> forall fields :: SavesStably(schema, fallback, globalOnly, fields)
  {
    hide LoadFresh, Save, Canonical, IsStableSchema, HasShape;
    if IsStableSchema(schema, fallback.Some?, globalOnly) {
      forall fields ensures SavesStably(schema, fallback, globalOnly, fields) {
        SaveIsStable(schema, fallback, globalOnly, fields);
      }
    } else {
      var fields := LostFields(schema, fallback, globalOnly);
      SaveIsCanonical(schema, fallback, globalOnly, fields);
      assert !SavesStably(schema, fallback, globalOnly, fields);
    }
  }

  /** A file that means something else after it was loaded and saved. */
  lemma {:induction false} LostFields(schema: Schema, fallback: Option<State>, globalOnly: bool)
    returns (fields: map<string, Json>)
    requires IsSchema(schema) && FallbackFits(schema, fallback) && !IsStableSchema(schema, fallback.Some?, globalOnly)
    ensures LoadFresh(schema, fallback, globalOnly, Canonical(schema, fallback.Some?, globalOnly, fields))
         != LoadFresh(schema, fallback, globalOnly, fields)
    decreases schema
  {
    if k: string :| k in schema.options && !(fallback.Some? && (globalOnly || schema.options[k].globalOnly))
                    && !IsStable(schema.options[k].codec) {
      var json := LostJson(schema.options[k].codec);
      fields := map[k := json];
      LostOption(schema, fallback, globalOnly, k, json);
    } else {
      var k :| k in schema.children
        && !IsStableSchema(schema.children[k].schema, fallback.Some?, globalOnly || schema.children[k].globalOnly);
      var below := LostFields(schema.children[k].schema, ChildFallback(schema, fallback, k),
                              globalOnly || schema.children[k].globalOnly);
      fields := map[k := Object(below)];
      LostBelow(schema, fallback, globalOnly, k, below);
    }
  }

  lemma LostOption(schema: Schema, fallback: Option<State>, globalOnly: bool, k: string, json: Json)
    requires IsSchema(schema) && FallbackFits(schema, fallback) && k in schema.options
    requires !(fallback.Some? && (globalOnly || schema.options[k].globalOnly))
      && !Survives(schema.options[k].codec, json)
    ensures LoadFresh(schema, fallback, globalOnly, Canonical(schema, fallback.Some?, globalOnly, map[k := json]))
         != LoadFresh(schema, fallback, globalOnly, map[k := json])
  {
    hide LoadFresh, Encode, Decode, DefaultOf, HasShape, Canonical;
    var fields := map[k := json];
    var canonical := Canonical(schema, fallback.Some?, globalOnly, fields);
    EntryOf(schema, fallback.Some?, globalOnly, fields, k);
    LoadedFields(schema, fallback, globalOnly, fields);
    LoadedFields(schema, fallback, globalOnly, canonical);
    var s, t := LoadFresh(schema, fallback, globalOnly, fields), LoadFresh(schema, fallback, globalOnly, canonical);
    assert k in s.overrides && s.values[k] == Decode(schema.options[k].codec, json).value;
    assert k in t.overrides ==> Some(t.values[k]) == Decode(schema.options[k].codec, canonical[k]);
  }

  lemma LostBelow(schema: Schema, fallback: Option<State>, globalOnly: bool, k: string, below: map<string, Json>)
    requires IsSchema(schema) && FallbackFits(schema, fallback) && k in schema.children
    requires var child := schema.children[k];
      var (under, global) := (ChildFallback(schema, fallback, k), globalOnly || child.globalOnly);
      LoadFresh(child.schema, under, global, Canonical(child.schema, fallback.Some?, global, below))
      != LoadFresh(child.schema, under, global, below)
    ensures LoadFresh(schema, fallback, globalOnly,
                      Canonical(schema, fallback.Some?, globalOnly, map[k := Object(below)]))
         != LoadFresh(schema, fallback, globalOnly, map[k := Object(below)])
  {
    hide LoadFresh, HasShape, Decode, Canonical;
    var child, fields := schema.children[k], map[k := Object(below)];
    var canonical := Canonical(schema, fallback.Some?, globalOnly, fields);
    EntryOf(schema, fallback.Some?, globalOnly, fields, k);
    LoadedChild(schema, fallback, globalOnly, fields, k);
    LoadedChild(schema, fallback, globalOnly, canonical, k);
    LoadNothing(child.schema, ChildFallback(schema, fallback, k), globalOnly || child.globalOnly);
  }

  /** An input: the entry "b" for an enum with two names for 2, of which the one it is saved under is found as 1. */
  lemma TripletFile()
    ensures var schema, fields := Schema(map["o" := OptionDesc(EnumCodec(TRIPLET), EnumValue(1), false)], map[]),
      map["o" := String("b")];
      && LoadFresh(schema, None, false, fields).values["o"] == EnumValue(2)
      && Save(schema, LoadFresh(schema, None, false, fields), true) == map["o" := String("a")]
      && LoadFresh(schema, None, false, map["o" := String("a")]).values["o"] == EnumValue(1)
  {
    hide LoadFresh, Encode, Decode;
    TripletIsLost();
    var schema, fields := Schema(map["o" := OptionDesc(EnumCodec(TRIPLET), EnumValue(1), false)], map[]),
      map["o" := String("b")];
    LoadedFields(schema, None, false, fields);
    LoadedFields(schema, None, false, map["o" := String("a")]);
  }
}

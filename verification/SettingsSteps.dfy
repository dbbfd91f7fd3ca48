/** Resetting, loading and saving a node one key at a time, in any order, comes to the reset, the load and the saved
    form (src/plugin/src/Sleepy/Settings/objectnode.cpp:37-185, node.cpp:102-116). */
module SettingsSteps {
  import opened Wrappers
  import opened SettingsCodecs
  import opened SettingsTree

  lemma ChildReplaced(schema: Schema, s: State, k: string, child: State)
    requires HasShape(schema, s) && k in schema.children && HasShape(schema.children[k].schema, child)
    ensures HasShape(schema, s.(children := s.children[k := child]))
    ensures s.(children := s.children[k := child]) == WithChild(schema, s, k, child)
  {
  }

  function WithChild(schema: Schema, s: State, k: string, child: State): (r: State)
    requires HasShape(schema, s) && k in schema.children && HasShape(schema.children[k].schema, child)
    ensures HasShape(schema, r)
  {
    s.(children := s.children[k := child])
  }

  function WithOption(schema: Schema, s: State, k: string, v: Value, override: bool): (r: State)
    requires HasShape(schema, s) && k in schema.options
    ensures HasShape(schema, r)
  {
    s.(values := s.values[k := v], overrides := if override then s.overrides + {k} else s.overrides - {k})
  }

  function WithQuarantine(schema: Schema, s: State, k: string, v: Json): (r: State)
    requires HasShape(schema, s)
    ensures HasShape(schema, r)
  {
    s.(quarantine := s.quarantine[k := v])
  }

  lemma ChildSchema(schema: Schema, k: string)
    requires IsSchema(schema) && k in schema.children
    ensures IsSchema(schema.children[k].schema)
  {
  }

  lemma OneKind(schema: Schema, k: string)
    requires IsSchema(schema)
    ensures !(k in schema.options && k in schema.children)
  {
  }

  // --- The steps of a reset ---

  /** What a key holds once the node was reset, or before. */
  ghost predicate ResetKey(schema: Schema, under: Option<State>, globalOnly: bool, was: State, now: State,
                           rest: set<string>, k: string)
    requires FallbackFits(schema, under) && HasShape(schema, was) && HasShape(schema, now)
  {
    var done := k !in rest;
    && (k in schema.children ==>
          now.children[k] == if done then ResetChild(schema, under, globalOnly, was, k) else was.children[k])
    && (k in schema.options ==>
          && now.values[k] == (if done then ResetValues(schema, under, was.values)[k] else was.values[k])
          && (k in now.overrides <==>
              if done then k in ResetOverrides(schema, under.Some?, was.overrides) else k in was.overrides))
  }

  /** While a node is reset: the keys outside `rest` are done. */
  ghost predicate IsResetting(schema: Schema, under: Option<State>, globalOnly: bool, was: State, now: State,
                              rest: set<string>)
    requires FallbackFits(schema, under) && HasShape(schema, was) && HasShape(schema, now)
  {
    now.quarantine == map[] && forall k :: ResetKey(schema, under, globalOnly, was, now, rest, k)
  }

  lemma NothingReset(schema: Schema, under: Option<State>, globalOnly: bool, was: State)
    requires FallbackFits(schema, under) && HasShape(schema, was)
    ensures IsResetting(schema, under, globalOnly, was, Cleared(schema, was),
                        schema.options.Keys + schema.children.Keys)
  {
  }

  /** One key further. */
  function ResetStep(schema: Schema, under: Option<State>, globalOnly: bool, s: State, k: string): (r: State)
    requires FallbackFits(schema, under) && HasShape(schema, s) && (k in schema.children || k in schema.options)
    ensures HasShape(schema, r)
  {
    if k in schema.children then WithChild(schema, s, k, ResetChild(schema, under, globalOnly, s, k))
    else if IsForeign(under, schema.options[k].globalOnly) then s
    else WithOption(schema, s, k, DefaultOf(schema, under, k), false)
  }

  lemma ResetStepAt(schema: Schema, under: Option<State>, globalOnly: bool, was: State, now: State, rest: set<string>,
                    k: string, l: string)
    requires IsSchema(schema) && FallbackFits(schema, under) && HasShape(schema, was) && HasShape(schema, now)
    requires (k in schema.children || k in schema.options) && k in rest
    requires ResetKey(schema, under, globalOnly, was, now, rest, l)
    ensures ResetKey(schema, under, globalOnly, was, ResetStep(schema, under, globalOnly, now, k), rest - {k}, l)
  {
    hide HasShape, IsSchema, FallbackFits, Reset, DefaultOf;
    OneKind(schema, l);
    ShapeOf(schema, was);
    ShapeOf(schema, now);
    if l in schema.children {
      ShapeBelow(schema, was, l);
    }
  }

  lemma KeyReset(schema: Schema, under: Option<State>, globalOnly: bool, was: State, now: State, rest: set<string>,
                 k: string)
    requires IsSchema(schema) && FallbackFits(schema, under) && HasShape(schema, was) && HasShape(schema, now)
    requires IsResetting(schema, under, globalOnly, was, now, rest) && k in rest
      && (k in schema.children || k in schema.options)
    ensures IsResetting(schema, under, globalOnly, was, ResetStep(schema, under, globalOnly, now, k), rest - {k})
  {
    hide HasShape, Reset, ResetKey;
    forall l ensures ResetKey(schema, under, globalOnly, was, ResetStep(schema, under, globalOnly, now, k), rest - {k},
                              l) {
      ResetStepAt(schema, under, globalOnly, was, now, rest, k, l);
    }
  }

  lemma ResetAt(schema: Schema, under: Option<State>, globalOnly: bool, was: State, now: State, k: string)
    requires FallbackFits(schema, under) && HasShape(schema, was) && HasShape(schema, now)
      && !IsForeign(under, globalOnly)
    requires ResetKey(schema, under, globalOnly, was, now, {}, k)
    ensures var r := Reset(schema, under, globalOnly, was);
      && (k in schema.options ==> k in now.values && k in r.values && now.values[k] == r.values[k])
      && (k in schema.options ==> (k in now.overrides <==> k in r.overrides))
      && (k in schema.children ==> k in now.children && k in r.children && now.children[k] == r.children[k])
  {
  }

  lemma AllReset(schema: Schema, under: Option<State>, globalOnly: bool, was: State, now: State)
    requires FallbackFits(schema, under) && HasShape(schema, was) && HasShape(schema, now)
      && !IsForeign(under, globalOnly)
    requires IsResetting(schema, under, globalOnly, was, now, {})
    ensures now == Reset(schema, under, globalOnly, was)
  {
    hide Reset, ResetChild, ResetValues, ResetOverrides, HasShape, FallbackFits, ResetKey;
    var r := Reset(schema, under, globalOnly, was);
    forall k
      ensures k in schema.options ==> k in now.values && k in r.values && now.values[k] == r.values[k]
      ensures k in schema.options ==> (k in now.overrides <==> k in r.overrides)
      ensures k in schema.children ==> k in now.children && k in r.children && now.children[k] == r.children[k]
    {
      ResetAt(schema, under, globalOnly, was, now, k);
    }
    ResetFields(schema, under, globalOnly, was);
    ShapeOf(schema, now);
    ShapeOf(schema, r);
    assert now.values == r.values;
    assert now.overrides == r.overrides;
    SameState(now, r);
  }

  // --- The steps of a load ---

  /** The node below a key after its entry was loaded. */
  function SyncChild(schema: Schema, under: Option<State>, globalOnly: bool, s: State, k: string,
                     json: Json): (r: State)
    requires FallbackFits(schema, under) && HasShape(schema, s) && k in schema.children
    ensures HasShape(schema.children[k].schema, r)
  {
    var child := schema.children[k];
    if json.Object? then
      Load(child.schema, ChildFallback(schema, under, k), globalOnly || child.globalOnly, s.children[k], json.fields)
    else Cleared(child.schema, s.children[k])
  }

  predicate IsTaken(schema: Schema, overlay: bool, globalOnly: bool, k: string, v: Json) {
    Accepts(schema, overlay, globalOnly, k, v) || IsSubobject(schema, k, v)
  }

  /** What a key holds once its entry, if there is one, was loaded: nothing is said of it before. */
  ghost predicate LoadedKey(schema: Schema, under: Option<State>, globalOnly: bool, was: State, now: State,
                            fields: map<string, Json>, rest: set<string>, visited: set<string>, k: string)
    requires FallbackFits(schema, under) && HasShape(schema, was) && HasShape(schema, now)
  {
    var entry := Entry(fields, rest, k);
    var taken := entry.Some? && IsTaken(schema, under.Some?, globalOnly, k, entry.value);
    && (k in visited <==> taken)
    && (k in schema.children ==>
          now.children[k] ==
            if entry.Some? then SyncChild(schema, under, globalOnly, was, k, entry.value) else was.children[k])
    && (k in schema.options && taken && k !in schema.children ==>
          k in now.overrides && Some(now.values[k]) == Decode(schema.options[k].codec, entry.value))
    && (k in schema.options && !taken ==>
          (k in now.overrides <==> k in was.overrides) && now.values[k] == was.values[k])
    && (k in now.quarantine <==> entry.Some? && !taken)
    && (k in now.quarantine ==> now.quarantine[k] == entry.value)
  }

  /** While entries are loaded: those outside `rest` are done, and `visited` are those not in quarantine. */
  ghost predicate IsLoading(schema: Schema, under: Option<State>, globalOnly: bool, was: State, now: State,
                            fields: map<string, Json>, rest: set<string>, visited: set<string>)
    requires FallbackFits(schema, under) && HasShape(schema, was) && HasShape(schema, now)
  {
    forall k :: LoadedKey(schema, under, globalOnly, was, now, fields, rest, visited, k)
  }

  function Entry(fields: map<string, Json>, rest: set<string>, k: string): Option<Json> {
    if k in fields && k !in rest then Some(fields[k]) else None
  }

  lemma NothingLoaded(schema: Schema, under: Option<State>, globalOnly: bool, was: State, fields: map<string, Json>)
    requires FallbackFits(schema, under) && HasShape(schema, was) && was.quarantine == map[]
    ensures IsLoading(schema, under, globalOnly, was, was, fields, fields.Keys, {})
  {
  }

  function LoadKey(schema: Schema, under: Option<State>, globalOnly: bool, s: State, k: string, v: Json): (r: State)
    requires FallbackFits(schema, under) && HasShape(schema, s)
    ensures HasShape(schema, r)
  {
    if k in schema.children then
      var t := WithChild(schema, s, k, SyncChild(schema, under, globalOnly, s, k, v));
      if v.Object? then t else WithQuarantine(schema, t, k, v)
    else if Accepts(schema, under.Some?, globalOnly, k, v) then
      WithOption(schema, s, k, Decode(schema.options[k].codec, v).value, true)
    else WithQuarantine(schema, s, k, v)
  }

  lemma LoadKeyAt(schema: Schema, under: Option<State>, globalOnly: bool, was: State, now: State,
                  fields: map<string, Json>, rest: set<string>, visited: set<string>, k: string, l: string)
    requires IsSchema(schema) && FallbackFits(schema, under) && HasShape(schema, was) && HasShape(schema, now)
    requires LoadedKey(schema, under, globalOnly, was, now, fields, rest, visited, l) && k in fields && k in rest
    ensures LoadedKey(schema, under, globalOnly, was, LoadKey(schema, under, globalOnly, now, k, fields[k]), fields,
                      rest - {k},
                        if IsTaken(schema, under.Some?, globalOnly, k, fields[k]) then visited + {k} else visited, l)
  {
    hide LoadedKey, LoadKey, HasShape;
    if k == l {
      LoadKeyHere(schema, under, globalOnly, was, now, fields, rest, visited, k);
    } else {
      LoadKeyElsewhere(schema, under, globalOnly, was, now, fields, rest, visited, k, l);
    }
  }

  lemma LoadKeyElsewhere(schema: Schema, under: Option<State>, globalOnly: bool, was: State, now: State,
                         fields: map<string, Json>, rest: set<string>, visited: set<string>, k: string, l: string)
    requires IsSchema(schema) && FallbackFits(schema, under) && HasShape(schema, was) && HasShape(schema, now)
    requires LoadedKey(schema, under, globalOnly, was, now, fields, rest, visited, l) && k in fields && k in rest
      && k != l
    ensures LoadedKey(schema, under, globalOnly, was, LoadKey(schema, under, globalOnly, now, k, fields[k]), fields,
                      rest - {k},
                        if IsTaken(schema, under.Some?, globalOnly, k, fields[k]) then visited + {k} else visited, l)
  {
    hide HasShape, IsSchema, FallbackFits, SyncChild, Decode, IsTaken, Accepts;
    OneKind(schema, l);
    ShapeOf(schema, was);
    ShapeOf(schema, now);
  }

  lemma LoadKeyHere(schema: Schema, under: Option<State>, globalOnly: bool, was: State, now: State,
                    fields: map<string, Json>, rest: set<string>, visited: set<string>, k: string)
    requires IsSchema(schema) && FallbackFits(schema, under) && HasShape(schema, was) && HasShape(schema, now)
    requires LoadedKey(schema, under, globalOnly, was, now, fields, rest, visited, k) && k in fields && k in rest
    ensures LoadedKey(schema, under, globalOnly, was, LoadKey(schema, under, globalOnly, now, k, fields[k]), fields,
                      rest - {k},
                        if IsTaken(schema, under.Some?, globalOnly, k, fields[k]) then visited + {k} else visited, k)
  {
    hide HasShape, IsSchema, FallbackFits, SyncChild, Decode;
    OneKind(schema, k);
    ShapeOf(schema, was);
    ShapeOf(schema, now);
    if k in schema.children {
      SameSync(schema, under, globalOnly, was, now, k, fields[k]);
    }
  }

  lemma SameSync(schema: Schema, under: Option<State>, globalOnly: bool, s: State, t: State, k: string, v: Json)
    requires FallbackFits(schema, under) && HasShape(schema, s) && HasShape(schema, t) && k in schema.children
    requires s.children[k] == t.children[k]
    ensures SyncChild(schema, under, globalOnly, s, k, v) == SyncChild(schema, under, globalOnly, t, k, v)
  {
  }

  lemma KeyLoaded(schema: Schema, under: Option<State>, globalOnly: bool, was: State, now: State,
                  fields: map<string, Json>, rest: set<string>, visited: set<string>, k: string)
    requires IsSchema(schema) && FallbackFits(schema, under) && HasShape(schema, was) && HasShape(schema, now)
    requires IsLoading(schema, under, globalOnly, was, now, fields, rest, visited) && k in rest && k in fields
    ensures IsLoading(schema, under, globalOnly, was, LoadKey(schema, under, globalOnly, now, k, fields[k]), fields,
                      rest - {k},
                        if IsTaken(schema, under.Some?, globalOnly, k, fields[k]) then visited + {k} else visited)
  {
    hide HasShape, LoadedKey, LoadKey, IsTaken;
    var next := LoadKey(schema, under, globalOnly, now, k, fields[k]);
    var found := if IsTaken(schema, under.Some?, globalOnly, k, fields[k]) then visited + {k} else visited;
    forall l ensures LoadedKey(schema, under, globalOnly, was, next, fields, rest - {k}, found, l) {
      LoadKeyAt(schema, under, globalOnly, was, now, fields, rest, visited, k, l);
    }
  }

  /** What a key holds after the keys not found were reset, or before. */
  ghost predicate UnvisitedKey(schema: Schema, under: Option<State>, globalOnly: bool, was: State, now: State,
                               visited: set<string>, rest: set<string>, k: string)
    requires FallbackFits(schema, under) && HasShape(schema, was) && HasShape(schema, now)
  {
    var kept := k in visited || k in rest;
    && (k in schema.children ==>
          now.children[k] == if kept then was.children[k] else ResetChild(schema, under, globalOnly, was, k))
    && (k in schema.options ==>
          && (k in now.overrides <==> kept && k in was.overrides)
          && now.values[k] == if kept then was.values[k] else DefaultOf(schema, under, k))
  }

  /** While keys that were not found are reset: those outside `rest` are done. */
  ghost predicate IsUnvisiting(schema: Schema, under: Option<State>, globalOnly: bool, was: State, now: State,
                               visited: set<string>, rest: set<string>)
    requires FallbackFits(schema, under) && HasShape(schema, was) && HasShape(schema, now)
  {
    && now.quarantine == was.quarantine
    && forall k :: UnvisitedKey(schema, under, globalOnly, was, now, visited, rest, k)
  }

  lemma NothingUnvisited(schema: Schema, under: Option<State>, globalOnly: bool, was: State, visited: set<string>)
    requires FallbackFits(schema, under) && HasShape(schema, was)
    ensures IsUnvisiting(schema, under, globalOnly, was, was, visited, schema.options.Keys + schema.children.Keys)
  {
  }

  function UnvisitKey(schema: Schema, under: Option<State>, globalOnly: bool, s: State, k: string): (r: State)
    requires FallbackFits(schema, under) && HasShape(schema, s) && (k in schema.children || k in schema.options)
    ensures HasShape(schema, r)
  {
    if k in schema.children then WithChild(schema, s, k, ResetChild(schema, under, globalOnly, s, k))
    else WithOption(schema, s, k, DefaultOf(schema, under, k), false)
  }

  lemma UnvisitKeyAt(schema: Schema, under: Option<State>, globalOnly: bool, was: State, now: State,
                     visited: set<string>, rest: set<string>, k: string, l: string)
    requires IsSchema(schema) && FallbackFits(schema, under) && HasShape(schema, was) && HasShape(schema, now)
    requires (k in schema.children || k in schema.options) && k in rest
    requires UnvisitedKey(schema, under, globalOnly, was, now, visited, rest, l)
    ensures UnvisitedKey(schema, under, globalOnly, was,
                         if k in visited then now
                           else UnvisitKey(schema, under, globalOnly, now, k), visited, rest - {k}, l)
  {
    hide HasShape, IsSchema, FallbackFits, Reset, DefaultOf;
    OneKind(schema, l);
    ShapeOf(schema, was);
    ShapeOf(schema, now);
    if l in schema.children {
      ShapeBelow(schema, was, l);
    }
  }

  lemma KeyUnvisited(schema: Schema, under: Option<State>, globalOnly: bool, was: State, now: State,
                     visited: set<string>, rest: set<string>, k: string)
    requires IsSchema(schema) && FallbackFits(schema, under) && HasShape(schema, was) && HasShape(schema, now)
    requires IsUnvisiting(schema, under, globalOnly, was, now, visited, rest) && k in rest
    requires k in schema.options || k in schema.children
    ensures var next := if k in visited then now else UnvisitKey(schema, under, globalOnly, now, k);
      next.quarantine == now.quarantine && IsUnvisiting(schema, under, globalOnly, was, next, visited, rest - {k})
  {
    hide HasShape, Reset, UnvisitedKey;
    var next := if k in visited then now else UnvisitKey(schema, under, globalOnly, now, k);
    forall l ensures UnvisitedKey(schema, under, globalOnly, was, next, visited, rest - {k}, l) {
      UnvisitKeyAt(schema, under, globalOnly, was, now, visited, rest, k, l);
    }
  }

  /** What an option holds after both passes, and what is in quarantine. */
  lemma LoadedAt(schema: Schema, under: Option<State>, globalOnly: bool, was: State, mid: State, now: State,
                 fields: map<string, Json>, visited: set<string>, k: string)
    requires IsSchema(schema) && FallbackFits(schema, under) && HasShape(schema, was) && HasShape(schema, mid)
      && HasShape(schema, now)
    requires LoadedKey(schema, under, globalOnly, Cleared(schema, was), mid, fields, {}, visited, k)
    requires UnvisitedKey(schema, under, globalOnly, mid, now, visited, {}, k)
    ensures var overlay := under.Some?;
      && (k in schema.options ==> k in now.values && now.values[k] == LoadValues(schema, under, globalOnly, fields)[k])
      && (k in now.overrides <==> k in LoadOverrides(schema, overlay, globalOnly, fields))
      && (k in mid.quarantine <==> k in LoadQuarantine(schema, overlay, globalOnly, fields))
      && (k in mid.quarantine ==> mid.quarantine[k] == LoadQuarantine(schema, overlay, globalOnly, fields)[k])
  {
    hide HasShape, IsSchema, FallbackFits, ResetChild, SyncChild, DefaultOf, Decode;
    OneKind(schema, k);
    ShapeOf(schema, was);
    ShapeOf(schema, mid);
    ShapeOf(schema, now);
  }

  /** The node below a key after both passes. */
  lemma LoadedBelow(schema: Schema, under: Option<State>, globalOnly: bool, was: State, mid: State, now: State,
                    fields: map<string, Json>, visited: set<string>, k: string)
    requires IsSchema(schema) && FallbackFits(schema, under) && HasShape(schema, was) && HasShape(schema, mid)
      && HasShape(schema, now)
    requires LoadedKey(schema, under, globalOnly, Cleared(schema, was), mid, fields, {}, visited, k)
    requires UnvisitedKey(schema, under, globalOnly, mid, now, visited, {}, k) && k in schema.children
    ensures k in now.children && now.children[k] == LoadChild(schema, under, globalOnly, was, fields, k)
  {
    hide HasShape, Reset, Load, DefaultOf, Decode;
    ShapeOf(schema, now);
    ShapeBelow(schema, was, k);
    ShapeBelow(schema, mid, k);
  }

  /** Both passes together are the load. */
  lemma AllLoaded(schema: Schema, under: Option<State>, globalOnly: bool, was: State, mid: State, now: State,
                  fields: map<string, Json>, visited: set<string>)
    requires IsSchema(schema) && FallbackFits(schema, under) && HasShape(schema, was) && HasShape(schema, mid)
      && HasShape(schema, now)
    requires IsLoading(schema, under, globalOnly, Cleared(schema, was), mid, fields, {}, visited)
    requires IsUnvisiting(schema, under, globalOnly, mid, now, visited, {})
    ensures now == Load(schema, under, globalOnly, was, fields)
  {
    hide HasShape, LoadedKey, UnvisitedKey, LoadValues, LoadOverrides, LoadQuarantine, LoadChild, Entry;
    var r := Load(schema, under, globalOnly, was, fields);
    forall k {
      LoadedAt(schema, under, globalOnly, was, mid, now, fields, visited, k);
    }
    forall k | k in schema.children {
      LoadedBelow(schema, under, globalOnly, was, mid, now, fields, visited, k);
    }
    ShapeOf(schema, now);
    ShapeOf(schema, r);
    assert now.values == r.values;
    assert now.overrides == r.overrides;
    assert now.quarantine == r.quarantine;
    SameState(now, r);
  }

  // --- The steps of a save ---

  /** What the options and nodes below alone are saved as. */
  function SaveOwn(schema: Schema, s: State, sparse: bool, k: string): Option<Json>
    requires HasShape(schema, s) && (k in schema.children || k in schema.options)
  {
    if k in schema.children then
      if !sparse || HasContent(schema.children[k].schema, s.children[k])
      then Some(Object(Save(schema.children[k].schema, s.children[k], sparse))) else None
    else if !sparse || k in s.overrides then Some(Encode(schema.options[k].codec, s.values[k])) else None
  }

  /** While a node is saved: the keys outside `rest` are written if they are to be. */
  ghost predicate IsSaving(schema: Schema, s: State, sparse: bool, json: map<string, Json>, rest: set<string>)
    requires HasShape(schema, s)
  {
    && json.Keys <= schema.options.Keys + schema.children.Keys
    && forall k :: k in schema.children || k in schema.options ==>
      (if k in json then Some(json[k]) else None) == if k in rest then None else SaveOwn(schema, s, sparse, k)
  }

  lemma OptionSaved(schema: Schema, s: State, sparse: bool, k: string)
    requires IsSchema(schema) && HasShape(schema, s) && k in schema.options
    ensures SaveOwn(schema, s, sparse, k)
         == if !sparse || k in s.overrides then Some(Encode(schema.options[k].codec, s.values[k])) else None
  {
  }

  lemma NothingSaved(schema: Schema, s: State, sparse: bool)
    requires HasShape(schema, s)
    ensures IsSaving(schema, s, sparse, map[], schema.options.Keys + schema.children.Keys)
  {
  }

  lemma KeySaved(schema: Schema, s: State, sparse: bool, json: map<string, Json>, rest: set<string>, k: string)
    requires HasShape(schema, s) && IsSaving(schema, s, sparse, json, rest) && k in rest
    requires k in schema.children || k in schema.options
    ensures match SaveOwn(schema, s, sparse, k)
      case Some(v) => IsSaving(schema, s, sparse, json[k := v], rest - {k})
      case None => IsSaving(schema, s, sparse, json, rest - {k})
  {
    hide HasShape, SaveOwn;
  }

  /** Entries in quarantine come on top, but never replace anything. */
  lemma AllSaved(schema: Schema, s: State, sparse: bool, json: map<string, Json>)
    requires IsSchema(schema) && HasShape(schema, s) && IsSaving(schema, s, sparse, json, {})
    ensures s.quarantine + json == Save(schema, s, sparse)
  {
    hide HasShape, HasContent, IsSchema, Encode, SaveEntry, SaveOwn, IsSaving;
    var saved := Save(schema, s, sparse);
    forall k ensures (k in s.quarantine + json <==> k in saved)
      && (k in saved ==> (s.quarantine + json)[k] == saved[k]) {
      SavedAt(schema, s, sparse, json, k);
    }
  }

  lemma SavedAt(schema: Schema, s: State, sparse: bool, json: map<string, Json>, k: string)
    requires IsSchema(schema) && HasShape(schema, s) && IsSaving(schema, s, sparse, json, {})
    ensures k in json || k in s.quarantine
       <==> k in schema.options.Keys + schema.children.Keys + s.quarantine.Keys && IsSaved(schema, s, sparse, k)
    ensures k in json ==> IsSaved(schema, s, sparse, k) && json[k] == SaveEntry(schema, s, sparse, k)
    ensures k !in json && k in s.quarantine ==> SaveEntry(schema, s, sparse, k) == s.quarantine[k]
  {
    hide HasShape, HasContent, IsSchema, Encode, Save;
    OneKind(schema, k);
    ShapeOf(schema, s);
  }
}

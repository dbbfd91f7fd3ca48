/** Saving a tree of object nodes as users and files left it, and loading it again
    (src/plugin/src/Sleepy/Settings/objectnode.cpp:12-25, 37-185, node.cpp:102-116, 155-213, 228-234). */
module SettingsRoundTrip {
  import opened Wrappers
  import opened SettingsCodecs
  import opened SettingsTree
  import opened SettingsSteps

  // --- What every state keeps ---

  /** What is overridden is the layer's own and is not in quarantine; everything else is inherited. What is in
      quarantine could not be loaded. In an exact state, what is overridden is read as it is saved. */
  ghost predicate IsSound(schema: Schema, fallback: Option<State>, globalOnly: bool, s: State, exact: bool)
    requires FallbackFits(schema, fallback) && HasShape(schema, s)
    decreases schema
  {
    IsNodeSound(schema, fallback, globalOnly, s, exact) && forall k :: k in schema.children ==>
      IsSound(schema.children[k].schema, ChildFallback(schema, fallback, k),
              globalOnly || schema.children[k].globalOnly, s.children[k], exact)
  }

  ghost predicate IsNodeSound(schema: Schema, fallback: Option<State>, globalOnly: bool, s: State, exact: bool)
    requires FallbackFits(schema, fallback) && HasShape(schema, s)
  {
    && (forall k :: k in schema.options ==> IsOptionSound(schema, fallback, globalOnly, s, k, exact))
    && (forall k :: k in s.quarantine ==> IsUnloadable(schema, fallback.Some?, globalOnly, k, s.quarantine[k]))
  }

  ghost predicate IsOptionSound(schema: Schema, fallback: Option<State>, globalOnly: bool, s: State, k: string,
                                exact: bool)
    requires FallbackFits(schema, fallback) && HasShape(schema, s) && k in schema.options
  {
    if k in s.overrides then
      && !IsForeign(fallback, globalOnly || schema.options[k].globalOnly)
      && (exact ==> IsInverted(schema.options[k].codec, s.values[k])) && k !in s.quarantine
    else s.values[k] == DefaultOf(schema, fallback, k)
  }

  predicate IsUnloadable(schema: Schema, overlay: bool, globalOnly: bool, k: string, v: Json) {
    !Accepts(schema, overlay, globalOnly, k, v) && !IsSubobject(schema, k, v)
  }

  // --- What a saved state reloads as ---

  /** Whether an entry in quarantine is hidden by the node of the same key, which has something to save now. */
  predicate IsShadowed(schema: Schema, s: State, k: string)
    requires HasShape(schema, s)
  {
    k in schema.children && HasContent(schema.children[k].schema, s.children[k])
  }

  /** The state without such entries. */
  function Settled(schema: Schema, s: State): (r: State)
    requires HasShape(schema, s)
    ensures HasShape(schema, r)
    decreases schema
  {
    State(s.values, s.overrides, map k | k in s.quarantine && !IsShadowed(schema, s, k) :: s.quarantine[k],
          map k | k in schema.children :: Settled(schema.children[k].schema, s.children[k]))
  }

  predicate IsSettled(schema: Schema, s: State)
    requires HasShape(schema, s)
    decreases schema
  {
    && (forall k :: k in s.quarantine ==> !IsShadowed(schema, s, k))
    && (forall k :: k in schema.children ==> IsSettled(schema.children[k].schema, s.children[k]))
  }

  lemma {:induction false} SettledIff(schema: Schema, s: State)
    requires HasShape(schema, s)
    ensures Settled(schema, s) == s <==> IsSettled(schema, s)
    decreases schema
  {
    hide HasContent;
    var r := Settled(schema, s);
    forall k | k in schema.children
      ensures r.children[k] == s.children[k] <==> IsSettled(schema.children[k].schema, s.children[k])
    {
      SettledIff(schema.children[k].schema, s.children[k]);
    }
    ShapeOf(schema, s);
    if IsSettled(schema, s) {
      assert r.quarantine == s.quarantine;
      SameState(r, s);
    } else if k: string :| k in s.quarantine && IsShadowed(schema, s, k) {
      assert k !in r.quarantine;
    }
  }

  /** A node with nothing to save is as good as new. */
  lemma {:induction false} EmptyIsFresh(schema: Schema, fallback: Option<State>, globalOnly: bool, s: State,
                                        exact: bool)
    requires FallbackFits(schema, fallback) && HasShape(schema, s)
    requires IsSound(schema, fallback, globalOnly, s, exact) && !HasContent(schema, s)
    ensures s == Fresh(schema, fallback) && Settled(schema, s) == s
    decreases schema
  {
    var initial, r := Fresh(schema, fallback), Settled(schema, s);
    forall k | k in schema.children ensures s.children[k] == initial.children[k] && r.children[k] == s.children[k] {
      EmptyIsFresh(schema.children[k].schema, ChildFallback(schema, fallback, k),
                   globalOnly || schema.children[k].globalOnly, s.children[k], exact);
    }
    assert s.values == initial.values;
    SameState(s, initial);
    SameState(r, s);
  }

  /** What an entry of the saved form means. */
  lemma SavedMeans(schema: Schema, fallback: Option<State>, globalOnly: bool, s: State, k: string,
                   exact: bool)
    requires IsSchema(schema) && FallbackFits(schema, fallback) && HasShape(schema, s)
      && IsSound(schema, fallback, globalOnly, s, exact)
    ensures var saved, overlay := Save(schema, s, true), fallback.Some?;
      && (exact ==> (k in saved && Accepts(schema, overlay, globalOnly, k, saved[k]) <==> k in s.overrides))
      && (exact && k in s.overrides ==> Decode(schema.options[k].codec, saved[k]) == Some(s.values[k]))
      && (k in saved && IsSubobject(schema, k, saved[k]) <==> IsShadowed(schema, s, k))
      && (IsShadowed(schema, s, k) ==> saved[k] == Object(Save(schema.children[k].schema, s.children[k], true)))
      && (k in saved && k !in s.overrides && !IsShadowed(schema, s, k) <==>
          k in s.quarantine && !IsShadowed(schema, s, k))
      && (k in s.quarantine && !IsShadowed(schema, s, k) ==> saved[k] == s.quarantine[k])
  {
    hide Encode, Decode, HasContent, HasShape, DefaultOf;
    ShapeOf(schema, s);
    assert k in schema.options ==> IsOptionSound(schema, fallback, globalOnly, s, k, exact);
  }

  /** Values and overrides come back everywhere, and so does what is in quarantine unless it is hidden. */
  lemma {:induction false} SavedReloads(schema: Schema, fallback: Option<State>, globalOnly: bool, s: State)
    requires IsSchema(schema) && FallbackFits(schema, fallback) && HasShape(schema, s)
      && IsSound(schema, fallback, globalOnly, s, true)
    ensures LoadFresh(schema, fallback, globalOnly, Save(schema, s, true)) == Settled(schema, s)
    decreases schema
  {
    hide LoadFresh, Save, HasContent, HasShape, Accepts, Decode, IsSubobject, IsSound, IsShadowed, IsSchema;
    var saved, r := Save(schema, s, true), Settled(schema, s);
    var t := LoadFresh(schema, fallback, globalOnly, saved);
    LoadedFields(schema, fallback, globalOnly, saved);
    ShapeOf(schema, s);
    forall k {
      SavedMeans(schema, fallback, globalOnly, s, k, true);
    }
    assert t.values == r.values by {
      forall k | k in schema.options && k !in s.overrides ensures t.values[k] == r.values[k] {
        InheritedValue(schema, fallback, globalOnly, s, k);
      }
    }
    assert t.overrides == r.overrides;
    assert t.quarantine == r.quarantine;
    forall k | k in schema.children ensures t.children[k] == r.children[k] {
      ChildReloaded(schema, fallback, globalOnly, s, k);
    }
    SameState(t, r);
  }

  lemma InheritedValue(schema: Schema, fallback: Option<State>, globalOnly: bool, s: State, k: string)
    requires FallbackFits(schema, fallback) && HasShape(schema, s) && IsSound(schema, fallback, globalOnly, s, true)
    requires k in schema.options && k !in s.overrides
    ensures k in s.values && s.values[k] == DefaultOf(schema, fallback, k)
  {
    assert IsOptionSound(schema, fallback, globalOnly, s, k, true);
  }

  lemma ChildReloaded(schema: Schema, fallback: Option<State>, globalOnly: bool, s: State, k: string)
    requires IsSchema(schema) && FallbackFits(schema, fallback) && HasShape(schema, s)
      && IsSound(schema, fallback, globalOnly, s, true)
    requires k in schema.children
    ensures LoadFresh(schema, fallback, globalOnly, Save(schema, s, true)).children[k] == Settled(schema, s).children[k]
    decreases schema, 0
  {
    hide LoadFresh, Save, Load, HasContent, HasShape;
    var child, below, saved := schema.children[k], ChildFallback(schema, fallback, k), Save(schema, s, true);
    ShapeBelow(schema, s, k);
    SavedMeans(schema, fallback, globalOnly, s, k, true);
    LoadedChild(schema, fallback, globalOnly, saved, k);
    if HasContent(child.schema, s.children[k]) {
      SavedReloads(child.schema, below, globalOnly || child.globalOnly, s.children[k]);
    } else {
      EmptyIsFresh(child.schema, below, globalOnly || child.globalOnly, s.children[k], true);
    }
  }

  /** So the whole state comes back exactly if no entry in quarantine is hidden by a node. */
  lemma ReloadsIff(schema: Schema, fallback: Option<State>, globalOnly: bool, s: State)
    requires IsSchema(schema) && FallbackFits(schema, fallback) && HasShape(schema, s)
      && IsSound(schema, fallback, globalOnly, s, true)
    ensures LoadFresh(schema, fallback, globalOnly, Save(schema, s, true)) == s <==> IsSettled(schema, s)
  {
    SavedReloads(schema, fallback, globalOnly, s);
    SettledIff(schema, s);
  }

  // --- The states of a layer ---

  /** What happens to a node, or to the file of the whole tree, which holds an object or an array. A user's write to an
      option of another layer happens there. */
  datatype Change =
    | LoadFile(fields: map<string, Json>)
    | LoadArray
    | WriteOption(key: string, value: Value)
    | ResetOption(key: string)
    | ResetNode

  ghost predicate CanChange(schema: Schema, overlay: bool, globalOnly: bool, path: seq<string>, change: Change) {
    if path != [] then
      && path[0] in schema.children && !change.LoadFile? && !change.LoadArray?
      && CanChange(schema.children[path[0]].schema, overlay,
                   globalOnly || schema.children[path[0]].globalOnly, path[1..], change)
    else
      match change
      case WriteOption(k, v) =>
        k in schema.options && !(overlay && (globalOnly || schema.options[k].globalOnly))
      case ResetOption(k) => k in schema.options
      case _ => true
  }

  /** What a user writes is read as it is saved, and so is what files say. */
  ghost predicate IsExact(schema: Schema, overlay: bool, globalOnly: bool, path: seq<string>, change: Change)
    requires CanChange(schema, overlay, globalOnly, path, change)
  {
    if path != [] then
      IsExact(schema.children[path[0]].schema, overlay, globalOnly || schema.children[path[0]].globalOnly, path[1..],
              change)
    else
      match change
      case LoadFile(_) => IsStableSchema(schema, overlay, globalOnly)
      case WriteOption(k, v) => IsInverted(schema.options[k].codec, v)
      case _ => true
  }

  /** The tree after a change of the node at a path. */
  function Changed(schema: Schema, fallback: Option<State>, globalOnly: bool, s: State, path: seq<string>,
                   change: Change): (r: State)
    requires FallbackFits(schema, fallback) && HasShape(schema, s)
      && CanChange(schema, fallback.Some?, globalOnly, path, change)
    ensures HasShape(schema, r)
    decreases schema
  {
    if path != [] then
      var child := schema.children[path[0]];
      WithChild(schema, s, path[0],
                Changed(child.schema, ChildFallback(schema, fallback, path[0]),
                        globalOnly || child.globalOnly, s.children[path[0]], path[1..], change))
    else
      match change
      case LoadFile(fields) => Load(schema, fallback, globalOnly, s, fields)
      case LoadArray => Cleared(schema, s)
      case WriteOption(k, v) => UserWritten(schema, s, k, v, true)
      case ResetOption(k) =>
        if IsForeign(fallback, globalOnly || schema.options[k].globalOnly) then s
        else UserWritten(schema, s, k, DefaultOf(schema, fallback, k), false)
      case ResetNode => Reset(schema, fallback, globalOnly, s)
  }

  function UserWritten(schema: Schema, s: State, k: string, v: Value, override: bool): (r: State)
    requires HasShape(schema, s) && k in schema.options
    ensures HasShape(schema, r)
  {
    WithOption(schema, s, k, v, override).(quarantine := s.quarantine - {k})
  }

  /** The tree once the layer below has other values. */
  function Following(schema: Schema, below: State, s: State): (r: State)
    requires HasShape(schema, below) && HasShape(schema, s)
    ensures HasShape(schema, r)
    decreases schema
  {
    State(map k | k in schema.options ::
          if k in s.overrides then s.values[k] else below.values[k], s.overrides, s.quarantine,
          map k | k in schema.children :: Following(schema.children[k].schema, below.children[k], s.children[k]))
  }

  lemma {:induction false} FreshSound(schema: Schema, fallback: Option<State>, globalOnly: bool, exact: bool)
    requires FallbackFits(schema, fallback)
    ensures IsSound(schema, fallback, globalOnly, Fresh(schema, fallback), exact)
    decreases schema
  {
    var s := Fresh(schema, fallback);
    forall k | k in schema.children
      ensures IsSound(schema.children[k].schema, ChildFallback(schema, fallback, k),
                      globalOnly || schema.children[k].globalOnly, s.children[k], exact)
    {
      FreshSound(schema.children[k].schema, ChildFallback(schema, fallback, k),
                 globalOnly || schema.children[k].globalOnly, exact);
    }
  }

  lemma {:induction false} FollowingSound(schema: Schema, below: State, after: State, globalOnly: bool, s: State,
                                          exact: bool)
    requires HasShape(schema, below) && HasShape(schema, after) && HasShape(schema, s)
      && IsSound(schema, Some(below), globalOnly, s, exact)
    ensures IsSound(schema, Some(after), globalOnly, Following(schema, after, s), exact)
    decreases schema
  {
    hide IsNodeSound, HasShape;
    var r := Following(schema, after, s);
    ShapeOf(schema, s);
    FollowingNodeSound(schema, below, after, globalOnly, s, exact);
    forall k | k in schema.children
      ensures IsSound(schema.children[k].schema, ChildFallback(schema, Some(after), k),
                      globalOnly || schema.children[k].globalOnly, r.children[k], exact)
    {
      ShapeBelow(schema, s, k);
      ShapeBelow(schema, below, k);
      ShapeBelow(schema, after, k);
      FollowingSound(schema.children[k].schema, below.children[k], after.children[k],
                     globalOnly || schema.children[k].globalOnly, s.children[k], exact);
    }
  }

  lemma FollowingNodeSound(schema: Schema, below: State, after: State, globalOnly: bool, s: State, exact: bool)
    requires HasShape(schema, below) && HasShape(schema, after) && HasShape(schema, s)
      && IsNodeSound(schema, Some(below), globalOnly, s, exact)
    ensures IsNodeSound(schema, Some(after), globalOnly, Following(schema, after, s), exact)
  {
    hide IsInverted, IsUnloadable;
    forall k | k in schema.options ensures IsOptionSound(schema, Some(after), globalOnly, Following(schema, after, s),
                                                         k, exact) {
      assert IsOptionSound(schema, Some(below), globalOnly, s, k, exact);
    }
  }

  lemma {:induction false} ResetSound(schema: Schema, fallback: Option<State>, globalOnly: bool, s: State, exact: bool)
    requires FallbackFits(schema, fallback) && HasShape(schema, s) && IsSound(schema, fallback, globalOnly, s, exact)
    ensures IsSound(schema, fallback, globalOnly, Reset(schema, fallback, globalOnly, s), exact)
    decreases schema
  {
    hide IsNodeSound, Reset, HasShape;
    if IsForeign(fallback, globalOnly) {
      ForeignReset(schema, fallback, globalOnly, s);
    } else {
      var r := Reset(schema, fallback, globalOnly, s);
      ResetFields(schema, fallback, globalOnly, s);
      ResetNodeSound(schema, fallback, globalOnly, s, exact);
      forall k | k in schema.children
        ensures IsSound(schema.children[k].schema, ChildFallback(schema, fallback, k),
                        globalOnly || schema.children[k].globalOnly, r.children[k], exact)
      {
        ShapeBelow(schema, s, k);
        ResetSound(schema.children[k].schema, ChildFallback(schema, fallback, k),
                   globalOnly || schema.children[k].globalOnly, s.children[k], exact);
      }
    }
  }

  lemma ResetNodeSound(schema: Schema, fallback: Option<State>, globalOnly: bool, s: State, exact: bool)
    requires FallbackFits(schema, fallback) && HasShape(schema, s)
      && IsNodeSound(schema, fallback, globalOnly, s, exact)
    requires !IsForeign(fallback, globalOnly)
    ensures IsNodeSound(schema, fallback, globalOnly, Reset(schema, fallback, globalOnly, s), exact)
  {
    hide IsInverted, IsUnloadable, HasShape, Reset, DefaultOf;
    var r := Reset(schema, fallback, globalOnly, s);
    ResetFields(schema, fallback, globalOnly, s);
    ShapeOf(schema, s);
    forall k | k in schema.options ensures IsOptionSound(schema, fallback, globalOnly, r, k, exact) {
      assert IsOptionSound(schema, fallback, globalOnly, s, k, exact);
    }
  }

  lemma ClearedSound(schema: Schema, fallback: Option<State>, globalOnly: bool, s: State, exact: bool)
    requires FallbackFits(schema, fallback) && HasShape(schema, s) && IsSound(schema, fallback, globalOnly, s, exact)
    ensures IsSound(schema, fallback, globalOnly, Cleared(schema, s), exact)
  {
    var r := Cleared(schema, s);
    assert IsNodeSound(schema, fallback, globalOnly, r, exact) by {
      hide IsInverted;
      forall k | k in schema.options ensures IsOptionSound(schema, fallback, globalOnly, r, k, exact) {
        assert IsOptionSound(schema, fallback, globalOnly, s, k, exact);
      }
    }
  }

  lemma {:induction false} LoadSound(schema: Schema, fallback: Option<State>, globalOnly: bool, s: State,
                                     fields: map<string, Json>, exact: bool)
    requires FallbackFits(schema, fallback) && HasShape(schema, s) && IsSound(schema, fallback, globalOnly, s, exact)
    requires exact ==> IsStableSchema(schema, fallback.Some?, globalOnly)
    ensures IsSound(schema, fallback, globalOnly, Load(schema, fallback, globalOnly, s, fields), exact)
    decreases schema
  {
    hide IsNodeSound, HasShape, LoadChild;
    var r := Load(schema, fallback, globalOnly, s, fields);
    LoadNodeSound(schema, fallback, globalOnly, s, fields, exact);
    forall k | k in schema.children
      ensures IsSound(schema.children[k].schema, ChildFallback(schema, fallback, k),
                      globalOnly || schema.children[k].globalOnly, r.children[k], exact)
    {
      ChildLoadSound(schema, fallback, globalOnly, s, fields, k, exact);
    }
  }

  lemma LoadNodeSound(schema: Schema, fallback: Option<State>, globalOnly: bool, s: State, fields: map<string, Json>,
                      exact: bool)
    requires FallbackFits(schema, fallback) && HasShape(schema, s)
      && (exact ==> IsStableSchema(schema, fallback.Some?, globalOnly))
    ensures IsNodeSound(schema, fallback, globalOnly, Load(schema, fallback, globalOnly, s, fields), exact)
  {
    hide Decode, HasShape, LoadChild, IsInverted;
    var r := Load(schema, fallback, globalOnly, s, fields);
    forall k | k in schema.options ensures IsOptionSound(schema, fallback, globalOnly, r, k, exact) {
      if exact && k in r.overrides {
        LoadedInverted(schema.options[k].codec, fields[k]);
      }
    }
  }

  lemma LoadedInverted(codec: Codec, json: Json)
    requires IsStable(codec) && Decode(codec, json).Some?
    ensures IsInverted(codec, Decode(codec, json).value)
  {
    hide Decode, Encode;
    ReencodeDecodes(codec, json);
  }

  lemma ChildLoadSound(schema: Schema, fallback: Option<State>, globalOnly: bool, s: State, fields: map<string, Json>,
                       k: string, exact: bool)
    requires FallbackFits(schema, fallback) && HasShape(schema, s) && IsSound(schema, fallback, globalOnly, s, exact)
    requires (exact ==> IsStableSchema(schema, fallback.Some?, globalOnly)) && k in schema.children
    ensures IsSound(schema.children[k].schema, ChildFallback(schema, fallback, k),
                    globalOnly || schema.children[k].globalOnly, LoadChild(schema, fallback, globalOnly, s, fields, k),
                    exact)
    decreases schema, 0
  {
    hide Decode, Load, Reset;
    var child, below := schema.children[k], ChildFallback(schema, fallback, k);
    var global := globalOnly || child.globalOnly;
    ShapeBelow(schema, s, k);
    if k !in fields {
      ResetSound(child.schema, below, global, s.children[k], exact);
    } else if fields[k].Object? {
      LoadSound(child.schema, below, global, s.children[k], fields[k].fields, exact);
    } else {
      ClearedSound(child.schema, below, global, s.children[k], exact);
      ResetSound(child.schema, below, global, Cleared(child.schema, s.children[k]), exact);
    }
  }

  lemma UserWriteSound(schema: Schema, fallback: Option<State>, globalOnly: bool, s: State, k: string, v: Value,
                       override: bool, exact: bool)
    requires FallbackFits(schema, fallback) && HasShape(schema, s) && IsSound(schema, fallback, globalOnly, s, exact)
      && k in schema.options
    requires if override then !IsForeign(fallback, globalOnly || schema.options[k].globalOnly)
      && (exact ==> IsInverted(schema.options[k].codec, v))
             else v == DefaultOf(schema, fallback, k)
    ensures IsSound(schema, fallback, globalOnly, UserWritten(schema, s, k, v, override), exact)
  {
    hide IsNodeSound, HasShape;
    NodeWriteSound(schema, fallback, globalOnly, s, k, v, override, exact);
  }

  lemma NodeWriteSound(schema: Schema, fallback: Option<State>, globalOnly: bool, s: State, k: string, v: Value,
                       override: bool, exact: bool)
    requires FallbackFits(schema, fallback) && HasShape(schema, s)
      && IsNodeSound(schema, fallback, globalOnly, s, exact)
    requires k in schema.options
    requires if override then !IsForeign(fallback, globalOnly || schema.options[k].globalOnly)
      && (exact ==> IsInverted(schema.options[k].codec, v))
             else v == DefaultOf(schema, fallback, k)
    ensures IsNodeSound(schema, fallback, globalOnly, UserWritten(schema, s, k, v, override), exact)
  {
    hide IsInverted, HasShape, IsUnloadable, DefaultOf;
    ShapeOf(schema, s);
    forall l | l in schema.options ensures IsOptionSound(schema, fallback, globalOnly,
                                                         UserWritten(schema, s, k, v, override), l, exact) {
      assert IsOptionSound(schema, fallback, globalOnly, s, l, exact);
    }
  }

  lemma {:induction false} ChangedSound(schema: Schema, fallback: Option<State>, globalOnly: bool, s: State,
                                        path: seq<string>, change: Change, exact: bool)
    requires FallbackFits(schema, fallback) && HasShape(schema, s) && IsSound(schema, fallback, globalOnly, s, exact)
    requires CanChange(schema, fallback.Some?, globalOnly, path, change)
      && (exact ==> IsExact(schema, fallback.Some?, globalOnly, path, change))
    ensures IsSound(schema, fallback, globalOnly, Changed(schema, fallback, globalOnly, s, path, change), exact)
    decreases schema
  {
    hide IsInverted, Load, Reset, HasShape;
    if path != [] {
      var k := path[0];
      ShapeBelow(schema, s, k);
      ChangedSound(schema.children[k].schema, ChildFallback(schema, fallback, k),
                   globalOnly || schema.children[k].globalOnly, s.children[k], path[1..], change, exact);
      ChildReplacedSound(schema, fallback, globalOnly, s, k,
                         Changed(schema.children[k].schema, ChildFallback(schema, fallback, k),
                                 globalOnly || schema.children[k].globalOnly, s.children[k], path[1..], change), exact);
    } else {
      match change
      case LoadFile(fields) => LoadSound(schema, fallback, globalOnly, s, fields, exact);
      case LoadArray => ClearedSound(schema, fallback, globalOnly, s, exact);
      case WriteOption(k, v) => UserWriteSound(schema, fallback, globalOnly, s, k, v, true, exact);
      case ResetOption(k) => UserWriteSound(schema, fallback, globalOnly, s, k, DefaultOf(schema, fallback, k), false,
                                            exact);
      case ResetNode => ResetSound(schema, fallback, globalOnly, s, exact);
    }
  }

  lemma ChildReplacedSound(schema: Schema, fallback: Option<State>, globalOnly: bool, s: State, k: string, child: State,
                           exact: bool)
    requires FallbackFits(schema, fallback) && HasShape(schema, s) && IsSound(schema, fallback, globalOnly, s, exact)
    requires k in schema.children && HasShape(schema.children[k].schema, child)
    requires IsSound(schema.children[k].schema, ChildFallback(schema, fallback, k),
                     globalOnly || schema.children[k].globalOnly, child, exact)
    ensures IsSound(schema, fallback, globalOnly, WithChild(schema, s, k, child), exact)
  {
    hide IsNodeSound, HasShape;
    var r := WithChild(schema, s, k, child);
    NodeSoundSame(schema, fallback, globalOnly, s, r, exact);
    ShapeOf(schema, s);
  }

  /** Whether a node is sound depends on its own fields only. */
  lemma NodeSoundSame(schema: Schema, fallback: Option<State>, globalOnly: bool, s: State, r: State, exact: bool)
    requires FallbackFits(schema, fallback) && HasShape(schema, s) && HasShape(schema, r)
      && IsNodeSound(schema, fallback, globalOnly, s, exact)
    requires r.values == s.values && r.overrides == s.overrides && r.quarantine == s.quarantine
    ensures IsNodeSound(schema, fallback, globalOnly, r, exact)
  {
    hide IsInverted, HasShape, IsUnloadable, DefaultOf;
    forall l | l in schema.options ensures IsOptionSound(schema, fallback, globalOnly, r, l, exact) {
      assert IsOptionSound(schema, fallback, globalOnly, s, l, exact);
    }
  }

  // --- Runs ---

  /** A change of the layer, or of the one below. */
  datatype Event = Here(path: seq<string>, change: Change) | Below(state: State)

  ghost predicate IsHistory(schema: Schema, overlay: bool, events: seq<Event>) {
    forall i :: 0 <= i < |events| ==>
      match events[i]
      case Here(path, change) => CanChange(schema, overlay, false, path, change)
      case Below(state) => overlay && HasShape(schema, state)
  }

  ghost predicate IsExactHistory(schema: Schema, overlay: bool, events: seq<Event>)
    requires IsHistory(schema, overlay, events)
  {
    forall i :: 0 <= i < |events| && events[i].Here? ==>
      IsExact(schema, overlay, false, events[i].path, events[i].change)
  }

  /** The layer below and the layer after some events. */
  ghost function Run(schema: Schema, fallback: Option<State>, events: seq<Event>): (r: (Option<State>, State))
    requires FallbackFits(schema, fallback) && IsHistory(schema, fallback.Some?, events)
    ensures FallbackFits(schema, r.0) && r.0.Some? == fallback.Some? && HasShape(schema, r.1)
  {
    if events == [] then (fallback, Fresh(schema, fallback))
    else
      var n := |events| - 1;
      var (under, s) := Run(schema, fallback, events[..n]);
      match events[n]
      case Here(path, change) => (under, Changed(schema, under, false, s, path, change))
      case Below(state) => (Some(state), Following(schema, state, s))
  }

  lemma {:induction false} RunSound(schema: Schema, fallback: Option<State>, events: seq<Event>, exact: bool)
    requires FallbackFits(schema, fallback) && IsHistory(schema, fallback.Some?, events)
    requires exact ==> IsExactHistory(schema, fallback.Some?, events)
    ensures var (under, s) := Run(schema, fallback, events); IsSound(schema, under, false, s, exact)
  {
    hide IsSound, Changed, Following, CanChange, HasShape;
    if events == [] {
      FreshSound(schema, fallback, false, exact);
    } else {
      var n := |events| - 1;
      RunSound(schema, fallback, events[..n], exact);
      var (under, s) := Run(schema, fallback, events[..n]);
      match events[n]
      case Here(path, change) => ChangedSound(schema, under, false, s, path, change, exact);
      case Below(state) => FollowingSound(schema, under.value, state, false, s, exact);
    }
  }

  /** After any run, what is saved reloads as the state but for what a node hides in quarantine. */
  lemma RunReloads(schema: Schema, fallback: Option<State>, events: seq<Event>)
    requires IsSchema(schema) && FallbackFits(schema, fallback) && IsHistory(schema, fallback.Some?, events)
    requires IsExactHistory(schema, fallback.Some?, events)
    ensures var (under, s) := Run(schema, fallback, events);
      && LoadFresh(schema, under, false, Save(schema, s, true)) == Settled(schema, s)
      && (LoadFresh(schema, under, false, Save(schema, s, true)) == s <==> IsSettled(schema, s))
  {
    hide IsSound, HasShape, Run, LoadFresh, Save, Settled;
    RunSound(schema, fallback, events, true);
    var (under, s) := Run(schema, fallback, events);
    SavedReloads(schema, under, false, s);
    SettledIff(schema, s);
  }

  /** An input for which it does not: a file has a number for a node, then a user writes an option of that node. What is
      saved has the node in the number's place. */
  lemma NumberIsHidden()
    ensures var child := Schema(map["o" := OptionDesc(BoolCodec, BoolValue(false), false)], map[]);
      var schema := Schema(map[], map["c" := ChildDesc(child, false)]);
      var events := [Here([], LoadFile(map["c" := Number(5.0)])), Here(["c"], WriteOption("o", BoolValue(true)))];
      && IsSchema(schema) && IsHistory(schema, false, events) && IsExactHistory(schema, false, events)
      && var s := Run(schema, None, events).1;
         "c" in s.quarantine && !IsSettled(schema, s) && "c" !in Settled(schema, s).quarantine
  {
    hide Changed, Run, IsSettled, Settled, Fresh, LoadFresh, HasShape;
    var child := Schema(map["o" := OptionDesc(BoolCodec, BoolValue(false), false)], map[]);
    var schema := Schema(map[], map["c" := ChildDesc(child, false)]);
    var (load, write) := (LoadFile(map["c" := Number(5.0)]), WriteOption("o", BoolValue(true)));
    assert ["c"][1..] == [] && CanChange(child, false, false, [], write);
    TwoChanges(schema, None, [], load, ["c"], write);
    FirstLoad(schema, None, load.fields);
    NumberIsKept(schema, "c", 5.0);
    WriteShadows(schema, LoadFresh(schema, None, false, load.fields), "c", "o", BoolValue(true));
  }

  lemma NumberIsKept(schema: Schema, k: string, x: real)
    requires IsSchema(schema) && k in schema.children
    ensures k in LoadFresh(schema, None, false, map[k := Number(x)]).quarantine
  {
    hide LoadFresh;
    LoadedFields(schema, None, false, map[k := Number(x)]);
  }

  /** The first thing that happens may be that a file is loaded. */
  lemma FirstLoad(schema: Schema, fallback: Option<State>, fields: map<string, Json>)
    requires FallbackFits(schema, fallback)
    ensures Changed(schema, fallback, false, Fresh(schema, fallback), [], LoadFile(fields))
         == LoadFresh(schema, fallback, false, fields)
  {
    hide Fresh, Load;
  }

  lemma OneChange(schema: Schema, fallback: Option<State>, path: seq<string>, change: Change)
    requires FallbackFits(schema, fallback) && CanChange(schema, fallback.Some?, false, path, change)
    ensures var events := [Here(path, change)];
      && IsHistory(schema, fallback.Some?, events)
      && Run(schema, fallback, events)
         == (fallback, Changed(schema, fallback, false, Fresh(schema, fallback), path, change))
  {
    hide Changed, CanChange, Fresh, HasShape;
    assert [Here(path, change)][..0] == [];
  }

  lemma TwoChanges(schema: Schema, fallback: Option<State>, path: seq<string>, change: Change, path': seq<string>,
                   change': Change)
    requires FallbackFits(schema, fallback) && CanChange(schema, fallback.Some?, false, path, change)
      && CanChange(schema, fallback.Some?, false, path', change')
    ensures var events := [Here(path, change), Here(path', change')];
      && IsHistory(schema, fallback.Some?, events)
      && Run(schema, fallback, events).1
         == Changed(schema, fallback, false,
                    Changed(schema, fallback, false, Fresh(schema, fallback), path, change), path', change')
  {
    hide Changed, CanChange, Fresh, HasShape;
    var events := [Here(path, change), Here(path', change')];
    assert events[..1] == [Here(path, change)];
    OneChange(schema, fallback, path, change);
  }

  lemma WrittenBelow(schema: Schema, s: State, k: string, o: string, v: Value)
    requires HasShape(schema, s) && k in schema.children && CanChange(schema, false, false, [k], WriteOption(o, v))
    ensures HasShape(schema.children[k].schema, s.children[k]) && o in schema.children[k].schema.options
    ensures Changed(schema, None, false, s, [k], WriteOption(o, v))
         == WithChild(schema, s, k, UserWritten(schema.children[k].schema, s.children[k], o, v, true))
  {
    hide Load, Reset, UserWritten, WithChild, IsInverted;
    ShapeBelow(schema, s, k);
    assert [k][1..] == [];
  }

  /** A user's write to an option of a node hides what is in quarantine under the node's key. */
  lemma WriteShadows(schema: Schema, s: State, k: string, o: string, v: Value)
    requires HasShape(schema, s) && k in schema.children && k in s.quarantine
    requires CanChange(schema, false, false, [k], WriteOption(o, v))
    ensures var t := Changed(schema, None, false, s, [k], WriteOption(o, v));
      k in t.quarantine && !IsSettled(schema, t) && k !in Settled(schema, t).quarantine
  {
    hide Changed, CanChange, HasShape;
    WrittenBelow(schema, s, k, o, v);
    var t := Changed(schema, None, false, s, [k], WriteOption(o, v));
    assert o in t.children[k].overrides;
    assert IsShadowed(schema, t, k);
  }
}

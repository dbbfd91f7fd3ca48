/** Loading a file again: when the result depends only on the file, and when remains of the previous load survive
    (src/plugin/src/Sleepy/Settings/objectnode.cpp:68-93, 170-185, node.cpp:102-116). */
module SettingsReload {
  import opened Wrappers
  import opened SettingsCodecs
  import opened SettingsTree

  /** No node below is global, or the layer is the global one. */
  ghost predicate OwnsAllNodes(schema: Schema, overlay: bool) {
    overlay ==> forall k :: k in schema.children ==>
      !schema.children[k].globalOnly && OwnsAllNodes(schema.children[k].schema, overlay)
  }

  /** A layer holds the underlying value of every global option, as no override. */
  ghost predicate RespectsGlobals(schema: Schema, fallback: Option<State>, globalOnly: bool, s: State)
    requires FallbackFits(schema, fallback) && HasShape(schema, s)
    decreases schema
  {
    && (forall k :: k in schema.options && IsForeign(fallback, globalOnly || schema.options[k].globalOnly) ==>
          k !in s.overrides && s.values[k] == DefaultOf(schema, fallback, k))
    && (forall k :: k in schema.children ==>
          RespectsGlobals(schema.children[k].schema, ChildFallback(schema, fallback, k),
                          globalOnly || schema.children[k].globalOnly, s.children[k]))
  }

  lemma {:induction false} FreshRespects(schema: Schema, fallback: Option<State>, globalOnly: bool)
    requires FallbackFits(schema, fallback)
    ensures RespectsGlobals(schema, fallback, globalOnly, Fresh(schema, fallback))
    decreases schema
  {
    var s := Fresh(schema, fallback);
    forall k | k in schema.children
      ensures RespectsGlobals(schema.children[k].schema, ChildFallback(schema, fallback, k),
                              globalOnly || schema.children[k].globalOnly, s.children[k])
    {
      FreshRespects(schema.children[k].schema, ChildFallback(schema, fallback, k),
                    globalOnly || schema.children[k].globalOnly);
    }
  }

  /** Resetting a node of a layer that owns all nodes below makes it as good as new. */
  lemma {:induction false} ResetForgets(schema: Schema, fallback: Option<State>, globalOnly: bool, s: State)
    requires FallbackFits(schema, fallback) && HasShape(schema, s) && !IsForeign(fallback, globalOnly)
    requires RespectsGlobals(schema, fallback, globalOnly, s) && OwnsAllNodes(schema, fallback.Some?)
    ensures Reset(schema, fallback, globalOnly, s) == Fresh(schema, fallback)
    decreases schema
  {
    hide Reset, HasShape;
    var r, initial := Reset(schema, fallback, globalOnly, s), Fresh(schema, fallback);
    ResetFields(schema, fallback, globalOnly, s);
    forall k | k in schema.children ensures r.children[k] == initial.children[k] {
      var child, below := schema.children[k], ChildFallback(schema, fallback, k);
      ShapeBelow(schema, s, k);
      ResetForgets(child.schema, below, globalOnly || child.globalOnly, s.children[k]);
    }
    ShapeOf(schema, s);
    assert r.values == initial.values;
    SameState(r, initial);
  }

  /** Loading depends on nothing but the file if the layer owns all nodes below. */
  lemma {:induction false} LoadForgets(schema: Schema, fallback: Option<State>, globalOnly: bool, s: State,
                                       fields: map<string, Json>)
    requires FallbackFits(schema, fallback) && HasShape(schema, s) && !IsForeign(fallback, globalOnly)
    requires RespectsGlobals(schema, fallback, globalOnly, s) && OwnsAllNodes(schema, fallback.Some?)
    ensures Load(schema, fallback, globalOnly, s, fields) == LoadFresh(schema, fallback, globalOnly, fields)
    decreases schema
  {
    hide LoadValues, LoadOverrides, LoadQuarantine, LoadChild, Reset, Fresh, RespectsGlobals, OwnsAllNodes;
    var r, loaded := Load(schema, fallback, globalOnly, s, fields), LoadFresh(schema, fallback, globalOnly, fields);
    forall k | k in schema.children ensures r.children[k] == loaded.children[k] {
      ChildForgets(schema, fallback, globalOnly, s, fields, k);
    }
    SameState(r, loaded);
  }

  lemma ChildForgets(schema: Schema, fallback: Option<State>, globalOnly: bool, s: State, fields: map<string, Json>,
                     k: string)
    requires FallbackFits(schema, fallback) && HasShape(schema, s) && !IsForeign(fallback, globalOnly)
    requires RespectsGlobals(schema, fallback, globalOnly, s) && OwnsAllNodes(schema, fallback.Some?)
      && k in schema.children
    ensures LoadChild(schema, fallback, globalOnly, s, fields, k)
         == LoadFresh(schema, fallback, globalOnly, fields).children[k]
    decreases schema, 0
  {
    hide Reset, Fresh, Load, LoadFresh;
    var child, below := schema.children[k], ChildFallback(schema, fallback, k);
    var global := globalOnly || child.globalOnly;
    LoadedChild(schema, fallback, globalOnly, fields, k);
    if k in fields && fields[k].Object? {
      LoadForgets(child.schema, below, global, s.children[k], fields[k].fields);
    } else {
      ClearedRespects(child.schema, below, global, s.children[k]);
      ResetForgets(child.schema, below, global, s.children[k]);
      ResetForgets(child.schema, below, global, Cleared(child.schema, s.children[k]));
    }
  }

  lemma ClearedRespects(schema: Schema, fallback: Option<State>, globalOnly: bool, s: State)
    requires FallbackFits(schema, fallback) && HasShape(schema, s) && RespectsGlobals(schema, fallback, globalOnly, s)
    ensures RespectsGlobals(schema, fallback, globalOnly, Cleared(schema, s))
  {
  }

  lemma {:induction false} LoadRespects(schema: Schema, fallback: Option<State>, globalOnly: bool, fields: map<string,
                                        Json>)
    requires FallbackFits(schema, fallback)
    ensures RespectsGlobals(schema, fallback, globalOnly, LoadFresh(schema, fallback, globalOnly, fields))
    decreases schema
  {
    hide Reset, Fresh, Load, LoadFresh;
    var s := LoadFresh(schema, fallback, globalOnly, fields);
    LoadedFields(schema, fallback, globalOnly, fields);
    forall k | k in schema.children
      ensures RespectsGlobals(schema.children[k].schema, ChildFallback(schema, fallback, k),
                              globalOnly || schema.children[k].globalOnly, s.children[k])
    {
      var child, below := schema.children[k], ChildFallback(schema, fallback, k);
      LoadedChild(schema, fallback, globalOnly, fields, k);
      FreshRespects(child.schema, below, globalOnly || child.globalOnly);
      if k in fields && fields[k].Object? {
        LoadRespects(child.schema, below, globalOnly || child.globalOnly, fields[k].fields);
      }
    }
  }

  /** The result of loading `second` after `first` is that of loading `second` alone. */
  ghost predicate IsForgotten(schema: Schema, fallback: Option<State>, first: map<string, Json>, second: map<string,
                              Json>)
    requires FallbackFits(schema, fallback)
  {
    Load(schema, fallback, false, LoadFresh(schema, fallback, false, first), second)
    == LoadFresh(schema, fallback, false, second)
  }

  /** A file whose section for a global node no later load of the layer gets rid of. */
  ghost function StaleSection(schema: Schema): map<string, Json>
    requires !OwnsAllNodes(schema, true)
  {
    var k :| k in schema.children && (schema.children[k].globalOnly || !OwnsAllNodes(schema.children[k].schema, true));
    var child := schema.children[k];
    map[k := Object(if child.globalOnly then map["stale" := Null] else StaleSection(child.schema))]
  }

  /** A layer keeps what is in the quarantine of a global node, and puts everything there. */
  lemma StaleStays(schema: Schema, fallback: Option<State>)
    requires FallbackFits(schema, fallback) && fallback.Some?
    ensures Reset(schema, fallback, true, LoadFresh(schema, fallback, true, map["stale" := Null]))
         != Fresh(schema, fallback)
  {
    hide Load, LoadFresh;
    LoadedFields(schema, fallback, true, map["stale" := Null]);
    assert "stale" in LoadQuarantine(schema, true, true, map["stale" := Null]);
  }

  lemma {:induction false} StaleSurvives(schema: Schema, fallback: Option<State>)
    requires FallbackFits(schema, fallback) && fallback.Some? && !OwnsAllNodes(schema, true)
    ensures Reset(schema, fallback, false, LoadFresh(schema, fallback, false, StaleSection(schema)))
         != Fresh(schema, fallback)
    ensures !IsForgotten(schema, fallback, StaleSection(schema), map[])
    decreases schema
  {
    hide Load, LoadFresh, Accepts, DefaultOf;
    var fields := StaleSection(schema);
    var k :| k in schema.children && k in fields && fields[k].Object?
      && fields[k].fields ==
        if schema.children[k].globalOnly then map["stale" := Null] else StaleSection(schema.children[k].schema);
    var child, below := schema.children[k], ChildFallback(schema, fallback, k);
    var s := LoadFresh(schema, fallback, false, fields);
    LoadedChild(schema, fallback, false, fields, k);
    if child.globalOnly {
      StaleStays(child.schema, below);
    } else {
      StaleSurvives(child.schema, below);
    }
    assert Reset(child.schema, below, child.globalOnly, s.children[k]) != Fresh(child.schema, below);
    assert Reset(schema, fallback, false, s).children[k] != Fresh(schema, fallback).children[k];
    LoadNothing(schema, fallback, false);
    ResetOnNothing(schema, fallback, s, k);
  }

  lemma ResetOnNothing(schema: Schema, fallback: Option<State>, s: State, k: string)
    requires FallbackFits(schema, fallback) && HasShape(schema, s) && k in schema.children
    ensures Load(schema, fallback, false, s, map[]).children[k]
         == Reset(schema.children[k].schema, ChildFallback(schema, fallback, k), schema.children[k].globalOnly,
                  s.children[k])
  {
  }

  /** Loads forget what was loaded before exactly if no node of the layer belongs to the one below. */
  lemma ForgetsIff(schema: Schema, fallback: Option<State>)
    requires FallbackFits(schema, fallback)
    ensures (forall first, second :: IsForgotten(schema, fallback, first, second))
       <==> OwnsAllNodes(schema, fallback.Some?)
  {
    hide Load, LoadFresh, HasShape, StaleSection;
    if OwnsAllNodes(schema, fallback.Some?) {
      forall first, second ensures IsForgotten(schema, fallback, first, second) {
        LoadRespects(schema, fallback, false, first);
        LoadForgets(schema, fallback, false, LoadFresh(schema, fallback, false, first), second);
      }
    } else {
      StaleSurvives(schema, fallback);
    }
  }
}

/** Which changes by a user mark a layer for saving
    (src/plugin/src/Sleepy/Settings/node.cpp:64-67, 102-116, 155-213, objectnode.cpp:12-25). */
module SettingsMarks {
  import opened Wrappers
  import opened SettingsCodecs
  import opened SettingsTree
  import opened SettingsSteps
  import opened SettingsReload
  import opened SettingsRoundTrip
  import SettingsFile

  // --- Resetting a node ---

  /** A value or an override changes, here or below. */
  ghost predicate Moves(schema: Schema, s: State, t: State)
    requires HasShape(schema, s) && HasShape(schema, t)
    decreases schema
  {
    s.values != t.values || s.overrides != t.overrides
    || exists k :: k in schema.children && Moves(schema.children[k].schema, s.children[k], t.children[k])
  }

  ghost predicate HasOverride(schema: Schema, s: State)
    requires HasShape(schema, s)
    decreases schema
  {
    s.overrides != {} || exists k :: k in schema.children && HasOverride(schema.children[k].schema, s.children[k])
  }

  /** A reset takes an entry out of quarantine that no node hides, here or below. */
  ghost predicate LosesEntry(schema: Schema, fallback: Option<State>, globalOnly: bool, s: State)
    requires FallbackFits(schema, fallback) && HasShape(schema, s)
    decreases schema
  {
    && !IsForeign(fallback, globalOnly)
    && ((exists k :: k in s.quarantine && !IsShadowed(schema, s, k))
        || exists k :: k in schema.children &&
             LosesEntry(schema.children[k].schema, ChildFallback(schema, fallback, k),
                        globalOnly || schema.children[k].globalOnly, s.children[k]))
  }

  ghost predicate BelowLoses(schema: Schema, fallback: Option<State>, globalOnly: bool, s: State, k: string)
    requires FallbackFits(schema, fallback) && HasShape(schema, s)
  {
    k in schema.children &&
    LosesEntry(schema.children[k].schema, ChildFallback(schema, fallback, k),
               globalOnly || schema.children[k].globalOnly, s.children[k])
  }

  /** A reset changes values or overrides exactly if there is an override. */
  lemma {:induction false} ResetMovesIff(schema: Schema, fallback: Option<State>, globalOnly: bool, s: State)
    requires FallbackFits(schema, fallback) && HasShape(schema, s) && IsSound(schema, fallback, globalOnly, s, false)
    ensures Moves(schema, s, Reset(schema, fallback, globalOnly, s)) <==> HasOverride(schema, s)
    decreases schema
  {
    hide Reset, IsNodeSound;
    var t := Reset(schema, fallback, globalOnly, s);
    forall k | k in schema.children
      ensures Moves(schema.children[k].schema, s.children[k],
                    ResetChild(schema, fallback, globalOnly, s, k)) <==>
              HasOverride(schema.children[k].schema, s.children[k])
    {
      ShapeBelow(schema, s, k);
      ResetMovesIff(schema.children[k].schema, ChildFallback(schema, fallback, k),
                    globalOnly || schema.children[k].globalOnly, s.children[k]);
    }
    if IsForeign(fallback, globalOnly) {
      ForeignReset(schema, fallback, globalOnly, s);
      ForeignStays(schema, fallback, globalOnly, s);
      NothingMoves(schema, s);
    } else {
      ResetFields(schema, fallback, globalOnly, s);
      OwnReset(schema, fallback, globalOnly, s);
    }
  }

  lemma OwnReset(schema: Schema, fallback: Option<State>, globalOnly: bool, s: State)
    requires FallbackFits(schema, fallback) && HasShape(schema, s)
      && IsNodeSound(schema, fallback, globalOnly, s, false)
    requires !IsForeign(fallback, globalOnly)
    ensures ResetOverrides(schema, fallback.Some?, s.overrides) == {}
    ensures s.overrides == {} ==> ResetValues(schema, fallback, s.values) == s.values
  {
    hide IsInverted, IsUnloadable;
    ShapeOf(schema, s);
    forall k | k in schema.options ensures IsOptionSound(schema, fallback, globalOnly, s, k, false) {
    }
  }

  lemma {:induction false} NothingMoves(schema: Schema, s: State)
    requires HasShape(schema, s)
    ensures !Moves(schema, s, s)
    decreases schema
  {
    forall k | k in schema.children ensures !Moves(schema.children[k].schema, s.children[k], s.children[k]) {
      NothingMoves(schema.children[k].schema, s.children[k]);
    }
  }

  /** What belongs to the layer below has no override. */
  lemma {:induction false} ForeignStays(schema: Schema, fallback: Option<State>, globalOnly: bool, s: State)
    requires FallbackFits(schema, fallback) && HasShape(schema, s) && IsSound(schema, fallback, globalOnly, s, false)
    requires IsForeign(fallback, globalOnly)
    ensures !HasOverride(schema, s)
    decreases schema
  {
    hide IsInverted, IsUnloadable;
    forall k | k in schema.children ensures !HasOverride(schema.children[k].schema, s.children[k]) {
      ForeignStays(schema.children[k].schema, ChildFallback(schema, fallback, k), true, s.children[k]);
    }
    forall k | k in schema.options ensures k !in s.overrides {
      assert IsOptionSound(schema, fallback, globalOnly, s, k, false);
    }
  }

  // --- What a reset drops from the saved form ---

  /** The saved form of a node without overrides: nodes that have something to save, and what is in quarantine. */
  lemma SavedPlainly(schema: Schema, fallback: Option<State>, globalOnly: bool, s: State, k: string)
    requires IsSchema(schema) && FallbackFits(schema, fallback) && HasShape(schema, s)
      && IsSound(schema, fallback, globalOnly, s, false) && s.overrides == {}
    ensures var saved := Save(schema, s, true);
      && (k in saved <==> IsShadowed(schema, s, k) || k in s.quarantine)
      && (IsShadowed(schema, s, k) ==> saved[k] == Object(Save(schema.children[k].schema, s.children[k], true)))
  {
    hide Save, HasShape, IsSound, IsShadowed;
    SavedMeans(schema, fallback, globalOnly, s, k, false);
  }

  lemma EmptyStays(schema: Schema, fallback: Option<State>, globalOnly: bool, s: State)
    requires FallbackFits(schema, fallback) && HasShape(schema, s) && IsSound(schema, fallback, globalOnly, s, false)
      && !HasContent(schema, s)
    ensures !HasContent(schema, Reset(schema, fallback, globalOnly, s))
  {
    hide Reset, HasContent, IsSound, HasShape;
    EmptyIsFresh(schema, fallback, globalOnly, s, false);
    ResetFresh(schema, fallback, globalOnly);
  }

  ghost predicate IsLost(schema: Schema, fallback: Option<State>, globalOnly: bool, s: State, k: string)
    requires FallbackFits(schema, fallback) && HasShape(schema, s)
  {
    (k in s.quarantine && !IsShadowed(schema, s, k)) || BelowLoses(schema, fallback, globalOnly, s, k)
  }

  /** What a reset does to one entry of the saved form: it differs or is gone exactly if something is lost. */
  ghost predicate IsDropped(schema: Schema, fallback: Option<State>, globalOnly: bool, s: State,
                            before: map<string, Json>, after: map<string, Json>, k: string)
    requires FallbackFits(schema, fallback) && HasShape(schema, s)
  {
    if IsLost(schema, fallback, globalOnly, s, k) then k in before && (k in after ==> after[k] != before[k])
    else (k in after <==> k in before) && (k in before ==> after[k] == before[k])
  }

  /** What is saved changes exactly if such an entry is lost, given that there is no override to lose. */
  lemma {:induction false} ResetLosesIff(schema: Schema, fallback: Option<State>, globalOnly: bool, s: State)
    requires IsSchema(schema) && FallbackFits(schema, fallback) && HasShape(schema, s)
      && IsSound(schema, fallback, globalOnly, s, false) && !HasOverride(schema, s)
    ensures Save(schema, Reset(schema, fallback, globalOnly, s), true) != Save(schema, s, true)
       <==> LosesEntry(schema, fallback, globalOnly, s)
    decreases schema
  {
    hide Reset, Save, IsSound, IsSchema, HasOverride, IsShadowed;
    if IsForeign(fallback, globalOnly) {
      ForeignReset(schema, fallback, globalOnly, s);
    } else {
      var before, after := Save(schema, s, true), Save(schema, Reset(schema, fallback, globalOnly, s), true);
      forall k: string ensures IsDropped(schema, fallback, globalOnly, s, before, after, k) {
        EntryDropped(schema, fallback, globalOnly, s, k);
      }
      EntriesDropped(schema, fallback, globalOnly, s, before, after);
    }
  }

  lemma EntriesDropped(schema: Schema, fallback: Option<State>, globalOnly: bool, s: State, before: map<string, Json>,
                       after: map<string, Json>)
    requires FallbackFits(schema, fallback) && HasShape(schema, s) && !IsForeign(fallback, globalOnly)
    requires forall k: string :: IsDropped(schema, fallback, globalOnly, s, before, after, k)
    ensures after != before <==> LosesEntry(schema, fallback, globalOnly, s)
  {
    hide IsShadowed, IsForeign, IsLost, LosesEntry;
    if k: string :| IsLost(schema, fallback, globalOnly, s, k) {
      LossShows(schema, fallback, globalOnly, s, k);
      assert IsDropped(schema, fallback, globalOnly, s, before, after, k);
    } else {
      forall k: string ensures (k in before <==> k in after) && (k in before ==> before[k] == after[k]) {
        assert IsDropped(schema, fallback, globalOnly, s, before, after, k);
      }
      if LosesEntry(schema, fallback, globalOnly, s) {
        LosesSome(schema, fallback, globalOnly, s);
      }
    }
  }

  lemma LossShows(schema: Schema, fallback: Option<State>, globalOnly: bool, s: State, k: string)
    requires FallbackFits(schema, fallback) && HasShape(schema, s) && !IsForeign(fallback, globalOnly)
    requires IsLost(schema, fallback, globalOnly, s, k)
    ensures LosesEntry(schema, fallback, globalOnly, s)
  {
  }

  lemma LosesSome(schema: Schema, fallback: Option<State>, globalOnly: bool, s: State)
    requires FallbackFits(schema, fallback) && HasShape(schema, s) && LosesEntry(schema, fallback, globalOnly, s)
    ensures exists k: string :: IsLost(schema, fallback, globalOnly, s, k)
  {
    hide IsShadowed;
    if k: string :| k in s.quarantine && !IsShadowed(schema, s, k) {
      assert IsLost(schema, fallback, globalOnly, s, k);
    } else {
      var k :| k in schema.children &&
        LosesEntry(schema.children[k].schema, ChildFallback(schema, fallback, k),
                   globalOnly || schema.children[k].globalOnly, s.children[k]);
      assert IsLost(schema, fallback, globalOnly, s, k);
    }
  }

  lemma EntryDropped(schema: Schema, fallback: Option<State>, globalOnly: bool, s: State, k: string)
    requires IsSchema(schema) && FallbackFits(schema, fallback) && HasShape(schema, s)
      && IsSound(schema, fallback, globalOnly, s, false) && !HasOverride(schema, s) && !IsForeign(fallback, globalOnly)
    ensures IsDropped(schema, fallback, globalOnly, s, Save(schema, s, true),
                      Save(schema, Reset(schema, fallback, globalOnly, s), true), k)
    decreases schema, 1
  {
    hide Reset, Save, HasContent, IsSound, LosesEntry, IsSchema;
    var t := Reset(schema, fallback, globalOnly, s);
    ResetSound(schema, fallback, globalOnly, s, false);
    ResetFields(schema, fallback, globalOnly, s);
    SavedPlainly(schema, fallback, globalOnly, s, k);
    SavedPlainly(schema, fallback, globalOnly, t, k);
    if k in schema.children {
      ChildLosesIff(schema, fallback, globalOnly, s, k);
    }
  }

  /** What a reset does to the saved form of a node below. */
  ghost predicate ChildLoses(schema: Schema, fallback: Option<State>, globalOnly: bool, s: State, k: string)
    requires FallbackFits(schema, fallback) && HasShape(schema, s) && k in schema.children
  {
    var child, c, r := schema.children[k], s.children[k], ResetChild(schema, fallback, globalOnly, s, k);
    && (Save(child.schema, r, true) != Save(child.schema, c, true) <==>
        BelowLoses(schema, fallback, globalOnly, s, k))
    && (HasContent(child.schema, r) ==> HasContent(child.schema, c))
    && (HasContent(child.schema, c) <==> Save(child.schema, c, true) != map[])
    && (HasContent(child.schema, r) <==> Save(child.schema, r, true) != map[])
  }

  lemma ChildLosesIff(schema: Schema, fallback: Option<State>, globalOnly: bool, s: State, k: string)
    requires IsSchema(schema) && FallbackFits(schema, fallback) && HasShape(schema, s)
      && IsSound(schema, fallback, globalOnly, s, false) && !HasOverride(schema, s) && k in schema.children
    ensures ChildLoses(schema, fallback, globalOnly, s, k)
    decreases schema, 0
  {
    hide Reset, Save, HasContent, LosesEntry, IsNodeSound, HasShape;
    var child, below := schema.children[k], ChildFallback(schema, fallback, k);
    ShapeBelow(schema, s, k);
    var c := s.children[k];
    ResetLosesIff(child.schema, below, globalOnly || child.globalOnly, c);
    ContentIsSaved(child.schema, c);
    ContentIsSaved(child.schema, ResetChild(schema, fallback, globalOnly, s, k));
    if !HasContent(child.schema, c) {
      EmptyStays(child.schema, below, globalOnly || child.globalOnly, c);
    }
  }

  /** A reset that changes what is saved changes a value or an override exactly if there is an override, or no such
      entry. */
  lemma ResetMovesWhatCounts(schema: Schema, fallback: Option<State>, globalOnly: bool, s: State)
    requires IsSchema(schema) && FallbackFits(schema, fallback) && HasShape(schema, s)
      && IsSound(schema, fallback, globalOnly, s, false)
    ensures var t := Reset(schema, fallback, globalOnly, s);
      (Save(schema, t, true) != Save(schema, s, true) ==> Moves(schema, s, t))
      <==> HasOverride(schema, s) || !LosesEntry(schema, fallback, globalOnly, s)
  {
    hide *;
    ResetMovesIff(schema, fallback, globalOnly, s);
    if !HasOverride(schema, s) {
      ResetLosesIff(schema, fallback, globalOnly, s);
    }
  }

  /** Without an override, and if no node belongs to the layer below, that is exactly if there is something to save. */
  lemma {:induction false} LosesIffContent(schema: Schema, fallback: Option<State>, globalOnly: bool, s: State)
    requires FallbackFits(schema, fallback) && HasShape(schema, s) && !HasOverride(schema, s)
    requires !IsForeign(fallback, globalOnly) && OwnsAllNodes(schema, fallback.Some?)
    ensures LosesEntry(schema, fallback, globalOnly, s) <==> HasContent(schema, s)
    decreases schema
  {
    forall k | k in schema.children
      ensures BelowLoses(schema, fallback, globalOnly, s, k) <==> HasContent(schema.children[k].schema, s.children[k])
    {
      LosesIffContent(schema.children[k].schema, ChildFallback(schema, fallback, k),
                      globalOnly || schema.children[k].globalOnly, s.children[k]);
    }
    if k: string :| k in s.quarantine {
      assert !IsShadowed(schema, s, k) || HasContent(schema.children[k].schema, s.children[k]);
    }
  }

  // --- Any change by a user ---

  /** Whether a change marks the layer: it moves something, or takes an option's entry out of quarantine. */
  ghost predicate IsMarked(schema: Schema, fallback: Option<State>, globalOnly: bool, s: State, path: seq<string>,
                           change: Change)
    requires FallbackFits(schema, fallback) && HasShape(schema, s)
      && CanChange(schema, fallback.Some?, globalOnly, path, change)
    decreases schema
  {
    if path != [] then
      IsMarked(schema.children[path[0]].schema, ChildFallback(schema, fallback, path[0]),
               globalOnly || schema.children[path[0]].globalOnly, s.children[path[0]], path[1..], change)
    else
      || Moves(schema, s, Changed(schema, fallback, globalOnly, s, [], change))
      || match change
         case WriteOption(k, _) => k in s.quarantine
         case ResetOption(k) => k in s.quarantine && !IsForeign(fallback, globalOnly || schema.options[k].globalOnly)
         case _ => false
  }

  /** A node is reset that has no override, here or below, but entries in quarantine that were saved. */
  ghost predicate IsMissed(schema: Schema, fallback: Option<State>, globalOnly: bool, s: State, path: seq<string>,
                           change: Change)
    requires FallbackFits(schema, fallback) && HasShape(schema, s)
      && CanChange(schema, fallback.Some?, globalOnly, path, change)
    decreases schema
  {
    if path != [] then
      IsMissed(schema.children[path[0]].schema, ChildFallback(schema, fallback, path[0]),
               globalOnly || schema.children[path[0]].globalOnly, s.children[path[0]], path[1..], change)
    else change.ResetNode? && !HasOverride(schema, s) && LosesEntry(schema, fallback, globalOnly, s)
  }

  predicate IsUsers(change: Change) {
    !change.LoadFile? && !change.LoadArray?
  }

  /** What is saved of a tree changes exactly if what is saved of the node that is changed does. */
  lemma SavedAbove(schema: Schema, fallback: Option<State>, globalOnly: bool, s: State, k: string, child: State)
    requires IsSchema(schema) && FallbackFits(schema, fallback) && HasShape(schema, s)
      && IsSound(schema, fallback, globalOnly, s, false)
    requires k in schema.children && HasShape(schema.children[k].schema, child)
    requires IsSound(schema.children[k].schema, ChildFallback(schema, fallback, k),
                     globalOnly || schema.children[k].globalOnly, child, false)
    ensures k in s.children && HasShape(schema.children[k].schema, s.children[k])
    ensures Save(schema, WithChild(schema, s, k, child), true) == Save(schema, s, true)
       <==> Save(schema.children[k].schema, child, true) == Save(schema.children[k].schema, s.children[k], true)
  {
    hide Save, HasContent, IsSound, IsSchema;
    var t := WithChild(schema, s, k, child);
    ShapeBelow(schema, s, k);
    ChildReplacedSound(schema, fallback, globalOnly, s, k, child, false);
    ContentIsSaved(schema.children[k].schema, child);
    ContentIsSaved(schema.children[k].schema, s.children[k]);
    SavedMeans(schema, fallback, globalOnly, s, k, false);
    SavedMeans(schema, fallback, globalOnly, t, k, false);
    if Save(schema.children[k].schema, child, true) == Save(schema.children[k].schema, s.children[k], true) {
      SavedAlike(schema, s, k, child);
    }
  }

  lemma SavedAlike(schema: Schema, s: State, k: string, child: State)
    requires HasShape(schema, s) && k in schema.children && HasShape(schema.children[k].schema, child)
    requires Save(schema.children[k].schema, child, true) == Save(schema.children[k].schema, s.children[k], true)
    requires HasContent(schema.children[k].schema, child) == HasContent(schema.children[k].schema, s.children[k])
    ensures Save(schema, WithChild(schema, s, k, child), true) == Save(schema, s, true)
  {
    hide HasContent, HasShape, Encode;
    ShapeOf(schema, s);
    var t := WithChild(schema, s, k, child);
    forall l | l in schema.options.Keys + schema.children.Keys + s.quarantine.Keys
      ensures IsSaved(schema, t, true, l) == IsSaved(schema, s, true, l)
      ensures IsSaved(schema, s, true, l) ==> SaveEntry(schema, t, true, l) == SaveEntry(schema, s, true, l)
    {
    }
  }

  /** A change that alters what is saved marks the layer, with that one exception. */
  lemma {:induction false} ChangeMarksIff(schema: Schema, fallback: Option<State>, globalOnly: bool, s: State,
                                          path: seq<string>, change: Change)
    requires IsSchema(schema) && FallbackFits(schema, fallback) && HasShape(schema, s)
      && IsSound(schema, fallback, globalOnly, s, false)
    requires CanChange(schema, fallback.Some?, globalOnly, path, change) && IsUsers(change)
    ensures var t := Changed(schema, fallback, globalOnly, s, path, change);
      (Save(schema, t, true) != Save(schema, s, true) ==> IsMarked(schema, fallback, globalOnly, s, path, change))
      <==> !IsMissed(schema, fallback, globalOnly, s, path, change)
    decreases schema
  {
    hide Save, HasShape, IsNodeSound, Reset, Load, Moves, HasOverride, LosesEntry, IsInverted, DefaultOf;
    if path != [] {
      var k := path[0];
      var child, below := schema.children[k], ChildFallback(schema, fallback, k);
      ShapeBelow(schema, s, k);
      ChangeMarksIff(child.schema, below, globalOnly || child.globalOnly, s.children[k], path[1..], change);
      ChangedSound(child.schema, below, globalOnly || child.globalOnly, s.children[k], path[1..], change, false);
      SavedAbove(schema, fallback, globalOnly, s, k,
                 Changed(child.schema, below, globalOnly || child.globalOnly, s.children[k], path[1..], change));
    } else {
      match change
      case WriteOption(k, v) => WriteMoves(schema, s, k, v, true);
      case ResetOption(k) => WriteMoves(schema, s, k, DefaultOf(schema, fallback, k), false);
      case ResetNode => ResetMovesWhatCounts(schema, fallback, globalOnly, s);
    }
  }

  /** A write or reset of an option that neither moves anything nor takes an entry out of quarantine changes nothing. */
  lemma WriteMoves(schema: Schema, s: State, k: string, v: Value, override: bool)
    requires HasShape(schema, s) && k in schema.options
    ensures var t := UserWritten(schema, s, k, v, override); !Moves(schema, s, t) && k !in s.quarantine ==> t == s
  {
    hide HasShape;
    assert k !in s.quarantine ==> s.quarantine - {k} == s.quarantine;
  }

  /** In every state a layer can come to. */
  lemma RunMarksIff(schema: Schema, fallback: Option<State>, events: seq<Event>, path: seq<string>, change: Change)
    requires IsSchema(schema) && FallbackFits(schema, fallback) && IsHistory(schema, fallback.Some?, events)
    requires CanChange(schema, fallback.Some?, false, path, change) && IsUsers(change)
    ensures var (under, s) := Run(schema, fallback, events);
      var t := Changed(schema, under, false, s, path, change);
      (Save(schema, t, true) != Save(schema, s, true) ==> IsMarked(schema, under, false, s, path, change))
      <==> !IsMissed(schema, under, false, s, path, change)
  {
    hide IsSound, HasShape, Run, Save, Changed, IsMarked, IsMissed, CanChange;
    RunSound(schema, fallback, events, false);
    var (under, s) := Run(schema, fallback, events);
    ChangeMarksIff(schema, under, false, s, path, change);
  }

  /** So that is when the file layer's steps say what users do. */
  lemma FileLearnsIff(f: SettingsFile.State, schema: Schema, fallback: Option<State>, events: seq<Event>,
                      path: seq<string>, change: Change)
    requires IsSchema(schema) && FallbackFits(schema, fallback) && IsHistory(schema, fallback.Some?, events)
    requires CanChange(schema, fallback.Some?, false, path, change) && IsUsers(change)
    requires f.tree == Object(Save(schema, Run(schema, fallback, events).1, true))
    ensures var (under, s) := Run(schema, fallback, events);
      var t := Changed(schema, under, false, s, path, change);
      SettingsFile.IsEnabled(f, SettingsFile.Event.UserWrite(Object(Save(schema, t, true)),
                                                             IsMarked(schema, under, false, s, path, change)))
      <==> !IsMissed(schema, under, false, s, path, change)
  {
    hide HasShape, Run, Save, Changed, IsMarked, IsMissed, CanChange;
    RunMarksIff(schema, fallback, events, path, change);
  }

  /** An input: a node is reset whose only entry below is unknown. The entry is not saved any more, but nothing asks for
      saving, although the quarantine of the node itself is empty. */
  lemma ResetIsMissed()
    ensures var node := Schema(map[], map["c" := ChildDesc(Schema(map[], map[]), false)]);
      var schema := Schema(map[], map["a" := ChildDesc(node, false)]);
      var events := [Here([], LoadFile(map["a" := Object(map["c" := Object(map["x" := Null])])]))];
      && IsSchema(schema) && IsHistory(schema, false, events)
      && var s := Run(schema, None, events).1;
         var t := Changed(schema, None, false, s, ["a"], ResetNode);
         && s.children["a"].quarantine == map[] && Save(schema, t, true) != Save(schema, s, true)
         && !IsMarked(schema, None, false, s, ["a"], ResetNode)
  {
    hide Run, Changed, Fresh, LoadFresh, Save, IsMarked, LosesEntry, HasOverride;
    var node := Schema(map[], map["c" := ChildDesc(Schema(map[], map[]), false)]);
    var schema := Schema(map[], map["a" := ChildDesc(node, false)]);
    var load := LoadFile(map["a" := Object(map["c" := Object(map["x" := Null])])]);
    OneChange(schema, None, [], load);
    FirstLoad(schema, None, load.fields);
    LoadedChild(schema, None, false, load.fields, "a");
    UnknownBelow(node, "c", "x");
    assert ["a"][1..] == [];
    RunMarksIff(schema, None, [Here([], load)], ["a"], ResetNode);
  }

  lemma UnknownBelow(schema: Schema, k: string, x: string)
    requires schema == Schema(map[], map[k := ChildDesc(Schema(map[], map[]), false)])
    ensures var s := LoadFresh(schema, None, false, map[k := Object(map[x := Null])]);
      s.quarantine == map[] && !HasOverride(schema, s) && LosesEntry(schema, None, false, s)
  {
    hide Load, LoadFresh, Fresh, HasContent;
    var child, section := schema.children[k].schema, map[x := Null];
    LoadedFields(schema, None, false, map[k := Object(section)]);
    LoadedChild(schema, None, false, map[k := Object(section)], k);
    LoadedFields(child, None, false, section);
    var s := LoadFresh(schema, None, false, map[k := Object(section)]);
    assert s.children[k] == LoadFresh(child, None, false, section);
    assert x in s.children[k].quarantine && !IsShadowed(child, s.children[k], x);
  }
}

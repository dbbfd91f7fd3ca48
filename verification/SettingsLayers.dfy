/** One object node of the settings in the global layer and in the layers over it, and how writes travel between them
    (src/plugin/src/Sleepy/Settings/node.cpp:64-234, macros.hpp:78-89, objectnode.cpp:12-25, 68-185). */
module SettingsLayers {
  import opened Wrappers
  import opened SettingsCodecs
  import opened SettingsTree
  import opened SettingsSteps
  import SettingsFile

  /** Who is writing. */
  datatype WriteOrigin = Init | File | FileReset | Layer | Qml | QmlReset

  predicate IsUser(origin: WriteOrigin) {
    origin.Qml? || origin.QmlReset?
  }

  /** The options of a node in one layer, and whether the layer has something to save. */
  datatype Options = Options(values: map<string, Value>, overrides: set<string>, quarantine: map<string, Json>,
                             dirty: bool)

  /** The node in one layer as a node without nodes below. */
  ghost function AsState(s: Options): State {
    State(s.values, s.overrides, s.quarantine, map[])
  }

  ghost function Plain(options: map<string, OptionDesc>): Schema {
    Schema(options, map[])
  }

  /** What a write does to the node it reaches. */
  function Written(s: Options, origin: WriteOrigin, key: string, value: Value): Options
    requires key in s.values
  {
    var overrides :=
      match origin
      case Init => s.overrides
      case Layer => s.overrides
      case File => s.overrides + {key}
      case Qml => s.overrides + {key}
      case FileReset => s.overrides - {key}
      case QmlReset => s.overrides - {key};
    var news := value != s.values[key] || overrides != s.overrides || key in s.quarantine;
    Options(s.values[key := value], overrides,
            if IsUser(origin) then s.quarantine - {key} else s.quarantine,
            s.dirty || (IsUser(origin) && news))
  }

  /** The value is the new one whoever writes; users and files override, resets take that back, and only users take the
      option out of quarantine and mark the layer. */
  lemma WrittenIs(s: Options, key: string, value: Value)
    requires key in s.values
    ensures forall origin :: Written(s, origin, key, value).values == s.values[key := value]
    ensures Written(s, Qml, key, value).overrides == Written(s, File, key, value).overrides == s.overrides + {key}
    ensures Written(s, QmlReset, key, value).overrides == Written(s, FileReset, key, value).overrides
         == s.overrides - {key}
    ensures Written(s, Layer, key, value).overrides == Written(s, Init, key, value).overrides == s.overrides
    ensures Written(s, Qml, key, value).quarantine == Written(s, QmlReset, key, value).quarantine
      == s.quarantine - {key}
    ensures forall origin :: origin == File || origin == FileReset || origin == Layer || origin == Init ==>
      Written(s, origin, key, value).quarantine == s.quarantine && Written(s, origin, key, value).dirty == s.dirty
    ensures Written(s, Qml, key, value).dirty <==>
      s.dirty || value != s.values[key] || key !in s.overrides || key in s.quarantine
    ensures Written(s, QmlReset, key, value).dirty <==>
      s.dirty || value != s.values[key] || key in s.overrides || key in s.quarantine
  {
  }

  /** A layer whose options take the values below wherever it does not override them. */
  function Follow(s: Options, below: map<string, Value>): Options
    requires s.values.Keys == below.Keys
  {
    s.(values := map k | k in below :: if k in s.overrides then s.values[k] else below[k])
  }

  /** A layer agrees with the one below: what it does not override it inherits, and it overrides nothing global. */
  ghost predicate Follows(s: Options, below: map<string, Value>, options: map<string, OptionDesc>, globalOnly: bool) {
    && s.values.Keys == below.Keys == options.Keys
    && (forall k :: k in options && k !in s.overrides ==> s.values[k] == below[k])
    && (forall k :: k in options && (globalOnly || options[k].globalOnly) ==> k !in s.overrides)
  }

  /** What a global layer does not override has its default. */
  ghost predicate HoldsDefaults(s: Options, options: map<string, OptionDesc>) {
    s.values.Keys == options.Keys && forall k :: k in options && k !in s.overrides ==> s.values[k] == options[k].default
  }

  /** Only options are overridden, and none is both overridden and in quarantine. */
  ghost predicate IsTidy(s: Options) {
    s.overrides <= s.values.Keys && s.overrides !! s.quarantine.Keys
  }

  /** What holds between a layer and the one below whenever nothing is going on. */
  ghost predicate Agrees(s: Options, below: map<string, Value>, options: map<string, OptionDesc>, globalOnly: bool) {
    Follows(s, below, options, globalOnly) && IsTidy(s)
  }

  /** A user's write or reset leaves no option both overridden and in quarantine, and marks the layer for saving
      exactly if it makes a difference to what is saved or shown. */
  lemma UserWriteTidy(s: Options, origin: WriteOrigin, key: string, value: Value)
    requires key in s.values && IsTidy(s) && IsUser(origin)
    ensures var t := Written(s, origin, key, value);
      && IsTidy(t) && (key in t.overrides <==> origin.Qml?) && key !in t.quarantine
      && (t.dirty <==> s.dirty || t != s)
      && forall k :: k in s.values && k != key ==>
           t.values[k] == s.values[k] && (k in t.overrides <==> k in s.overrides)
  {
  }

  /** After a write below, the layer above that follows still follows, and what it overrides is as it was. */
  lemma FollowFollows(s: Options, below: map<string, Value>, after: map<string, Value>, options: map<string,
                      OptionDesc>, globalOnly: bool)
    requires Follows(s, below, options, globalOnly) && after.Keys == options.Keys
    ensures var t := Follow(s, after);
      && Follows(t, after, options, globalOnly)
      && t.overrides == s.overrides && t.quarantine == s.quarantine && t.dirty == s.dirty
      && forall k :: k in s.overrides && k in options ==> t.values[k] == s.values[k]
  {
  }

  lemma FollowsKeys(s: Options, below: map<string, Value>, options: map<string, OptionDesc>, globalOnly: bool)
    requires Follows(s, below, options, globalOnly)
    ensures s.values.Keys == below.Keys == options.Keys
  {
  }

  /** A layer that follows is as if it had just been made to. */
  lemma FollowsIsFixed(s: Options, below: map<string, Value>, options: map<string, OptionDesc>, globalOnly: bool)
    requires Follows(s, below, options, globalOnly)
    ensures Follow(s, below) == s
  {
  }

  /** Passing one changed value on is enough. */
  lemma FollowOne(s: Options, below: map<string, Value>, key: string, value: Value, options: map<string, OptionDesc>,
                  globalOnly: bool)
    requires Follows(s, below, options, globalOnly) && key in options
    ensures Follow(s, below[key := value])
         == if key in s.overrides then s else Written(s, Layer, key, value)
  {
  }

  class OptionNode {
    const options: map<string, OptionDesc>
    const globalOnly: bool
    const fallback: OptionNode?
    var values: map<string, Value>
    var overrides: set<string>
    var quarantine: map<string, Json>
    /** The origin of writes to this layer, and whether a save is due. */
    var writeOrigin: WriteOrigin
    var dirty: bool
    /** The nodes of the layers above. */
    var listeners: seq<OptionNode>

    /** A node of the global layer starts with its defaults. */
    constructor Global(options: map<string, OptionDesc>, globalOnly: bool)
      ensures IsPart() && fallback == null && listeners == [] && this.options == options
        && this.globalOnly == globalOnly
      ensures Current() == Options(map k | k in options :: options[k].default, {}, map[], false)
    {
      this.options, this.globalOnly, fallback, listeners := options, globalOnly, null, [];
      values := map k | k in options :: options[k].default;
      overrides, quarantine, dirty, writeOrigin := {}, map[], false, Qml;
    }

    /** A node of a layer above starts with the values below, and listens to them. */
    constructor Over(below: OptionNode, globalOnly: bool)
      requires below.IsCoherent()
      modifies below`listeners
      ensures IsPart() && fallback == below && below.listeners == old(below.listeners) + [this]
      ensures Current() == Options(below.values, {}, map[], false)
    {
      options, this.globalOnly, fallback, listeners := below.options, globalOnly, below, [];
      values, overrides, quarantine, dirty, writeOrigin := below.values, {}, map[], false, Qml;
      new;
      below.listeners := below.listeners + [this];
    }

    ghost function Current(): Options
      reads `values, `overrides, `quarantine, `dirty
    {
      Options(values, overrides, quarantine, dirty)
    }

    ghost function Tree(): State
      reads `values, `overrides, `quarantine, `dirty
    {
      AsState(Current())
    }

    /** A layer above another one: it has the same options and none above it. */
    ghost predicate IsLayerOver(below: OptionNode)
      reads `listeners, `values, `overrides
    {
      && fallback == below && this != below && listeners == [] && options == below.options
      && values.Keys == options.Keys && overrides <= options.Keys
    }

    /** The layers over this one. */
    ghost predicate HasLayers()
      reads `listeners, `values, `overrides, listeners
    {
      && values.Keys == options.Keys && overrides <= options.Keys
      && (fallback != null ==> IsLayerOver(fallback))
      && (forall l :: l in listeners ==> l.IsLayerOver(this))
      && (forall i, j :: 0 <= i < j < |listeners| ==> listeners[i] != listeners[j])
    }

    /** All layers over this one follow it. */
    ghost predicate IsFollowed()
      reads `listeners, `values, `overrides, listeners
    {
      HasLayers() && forall l :: l in listeners ==> Follows(l.Current(), values, options, l.globalOnly)
    }

    /** Whether a write is none of this layer's business. */
    predicate Forwards(origin: WriteOrigin, key: string)
      requires key in options
    {
      IsGlobal(key) && IsUser(origin) && fallback != null
    }

    predicate IsGlobal(key: string)
      requires key in options
    {
      globalOnly || options[key].globalOnly
    }

    ghost function ForwardReach(origin: WriteOrigin, key: string): set<object>
      requires key in options
      reads fallback
    {
      if Forwards(origin, key) && origin.Qml? then {fallback} + (set l | l in fallback.listeners) else {}
    }

    twostate predicate Kept(l: OptionNode)
      reads l
    {
      l.Current() == old(l.Current()) && l.writeOrigin == old(l.writeOrigin)
    }

    /** The layer above has this layer's values now wherever it does not override them. */
    twostate predicate Followed(l: OptionNode)
      reads this, l
    {
      && old(l.values).Keys == values.Keys && l.Current() == Follow(old(l.Current()), values)
      && l.writeOrigin == old(l.writeOrigin)
    }

    /** The layers above followed; a write that only fills a new node in tells nobody. */
    twostate predicate Told(origin: WriteOrigin)
      reads this, listeners
    {
      listeners == old(listeners) && forall l :: l in listeners ==> if origin.Init? then Kept(l) else Followed(l)
    }

    /** An option of this layer was written, and the layers above followed. */
    twostate predicate Wrote(origin: WriteOrigin, key: string, value: Value)
      reads this, listeners
    {
      && HasLayers() && listeners == old(listeners) && writeOrigin == old(writeOrigin)
      && key in old(values) && Current() == Written(old(Current()), origin, key, value) && Told(origin)
    }

    /** This layer and those above are as they were. */
    twostate predicate Untouched()
      reads this, listeners
    {
      HasLayers() && listeners == old(listeners) && Kept(this) && forall l :: l in listeners ==> Kept(l)
    }

    /** What a write through this layer comes to. */
    twostate predicate WroteThrough(origin: WriteOrigin, key: string, value: Value)
      requires key in options
      reads this, listeners, fallback, if fallback == null then [] else fallback.listeners
    {
      if !Forwards(origin, key) then Wrote(origin, key, value)
      else if origin.Qml? then fallback.Wrote(origin, key, value)
      else fallback.Untouched()
    }

    /** The setter of an option. */
    method SetOption(key: string, value: Value)
      requires key in options && IsFollowed()
        && (Forwards(writeOrigin, key) ==> fallback.IsFollowed() && this in fallback.listeners)
      modifies this, listeners, ForwardReach(writeOrigin, key)
      ensures WroteThrough(old(writeOrigin), key, value)
      decreases if fallback == null then 1 else if IsUser(writeOrigin) then 2 else 0, 3
    {
      hide Written, Follow;
      var forwarded := ForwardGlobalWrite(key, value);
      if forwarded {
        return;
      }
      ghost var was := Current();
      var needsNotify := value != values[key];
      values := values[key := value];
      RecordWrite(key, needsNotify, was);
    }

    /** Writes an option on behalf of another origin than the current one, which is restored. */
    method SetOptionAs(origin: WriteOrigin, key: string, value: Value)
      requires key in options && IsFollowed()
      requires Forwards(origin, key) ==> origin.QmlReset? && fallback.IsFollowed() && this in fallback.listeners
      modifies this, listeners
      ensures WroteThrough(origin, key, value) && writeOrigin == old(writeOrigin)
      decreases if fallback == null then 1 else if IsUser(origin) then 2 else 0, 4
    {
      hide Written, Follow, Follows, IsUser, IsGlobal;
      var previous := writeOrigin;
      writeOrigin := origin;
      SetOption(key, value);
      writeOrigin := previous;
      if Forwards(origin, key) {
        assert fallback.Untouched();
      } else {
        assert Wrote(origin, key, value);
      }
    }

    /** A user's write to a global option goes to the layer below instead; a reset is ignored. */
    method ForwardGlobalWrite(key: string, value: Value) returns (forwarded: bool)
      requires key in options && HasLayers()
      requires Forwards(writeOrigin, key) ==> fallback.IsFollowed() && this in fallback.listeners
      modifies ForwardReach(writeOrigin, key)
      ensures forwarded == Forwards(old(writeOrigin), key)
      ensures if forwarded then WroteThrough(old(writeOrigin), key, value)
        else Kept(this) && listeners == old(listeners)
      decreases if fallback != null && IsUser(writeOrigin) then 2 else 0, 2
    {
      var origin := writeOrigin;
      if (!globalOnly && !options[key].globalOnly) || !IsUser(origin) || fallback == null {
        return false;
      }
      if origin.QmlReset? {
        return true;
      }
      fallback.SetOptionAs(origin, key, value);
      return true;
    }

    /** Updates the override, the quarantine and the need to save, and passes a change on to the layers above. */
    method RecordWrite(key: string, changed: bool, ghost was: Options)
      requires key in options && HasLayers()
      requires was.values.Keys == options.Keys && Current() == was.(values := was.values[key := values[key]])
      requires changed == (values[key] != was.values[key])
      requires forall l :: l in listeners ==> Follows(l.Current(), was.values, options, l.globalOnly)
      modifies this, listeners
      ensures HasLayers() && writeOrigin == old(writeOrigin) && listeners == old(listeners) && values == old(values)
      ensures Current() == Written(was, writeOrigin, key, values[key]) && Told(writeOrigin)
      decreases if fallback == null then 1 else 0, 2
    {
      if writeOrigin.Init? {
        return;
      }
      Record(key, changed, was);
      if changed {
        Notify(key, was);
      } else {
        assert values == was.values;
        forall l | l in listeners ensures Followed(l) {
          FollowsIsFixed(l.Current(), was.values, options, l.globalOnly);
        }
      }
    }

    /** The part of a write that concerns this layer alone. */
    method Record(key: string, changed: bool, ghost was: Options)
      requires key in was.values && key in values && writeOrigin != Init
      requires Current() == was.(values := was.values[key := values[key]])
        && changed == (values[key] != was.values[key])
      modifies this`overrides, this`quarantine, this`dirty
      ensures Current() == Written(was, writeOrigin, key, values[key])
    {
      var nowDirty := changed;
      match writeOrigin {
        case File =>
          nowDirty := nowDirty || key !in overrides;
          overrides := overrides + {key};
        case Qml =>
          nowDirty := nowDirty || key !in overrides;
          overrides := overrides + {key};
        case FileReset =>
          nowDirty := nowDirty || key in overrides;
          overrides := overrides - {key};
        case QmlReset =>
          nowDirty := nowDirty || key in overrides;
          overrides := overrides - {key};
        case _ =>
      }
      if IsUser(writeOrigin) {
        nowDirty := nowDirty || key in quarantine;
        quarantine := quarantine - {key};
        if nowDirty {
          dirty := true;
        }
      }
    }

    /** Passes a change of one value on to the layers above. */
    method Notify(key: string, ghost was: Options)
      requires key in options && HasLayers() && was.values.Keys == options.Keys
        && values == was.values[key := values[key]]
      requires forall l :: l in listeners ==> Follows(l.Current(), was.values, options, l.globalOnly)
      modifies listeners
      ensures HasLayers() && listeners == old(listeners) && Current() == old(Current())
        && writeOrigin == old(writeOrigin)
      ensures forall l :: l in listeners ==> Followed(l)
      decreases if fallback == null then 1 else 0, 1
    {
      hide Written, Follow, Follows;
      ghost var all, now := listeners, values;
      forall l | l in all ensures l.values.Keys == now.Keys {
        FollowsKeys(l.Current(), was.values, options, l.globalOnly);
      }
      for i := 0 to |listeners|
        invariant HasLayers() && listeners == all && Current() == old(Current()) && writeOrigin == old(writeOrigin)
        invariant forall l :: l in all[i..] ==> l.Current() == old(l.Current()) && l.writeOrigin == old(l.writeOrigin)
        invariant forall l :: l in all[..i] ==>
          l.Current() == Follow(old(l.Current()), now) && l.writeOrigin == old(l.writeOrigin)
      {
        var l := listeners[i];
        assert l in all && l in all[i..];
        FollowOne(l.Current(), was.values, key, values[key], options, l.globalOnly);
        l.OnFallbackNotify(key);
      }
    }

    /** The layer below changed a value. */
    method OnFallbackNotify(key: string)
      requires fallback != null && IsLayerOver(fallback) && key in options && key in fallback.values
      modifies this
      ensures IsLayerOver(fallback) && writeOrigin == old(writeOrigin)
      ensures Current() ==
        if key in old(overrides) then old(Current()) else Written(old(Current()), Layer, key, fallback.values[key])
      decreases 0, 5
    {
      if key in overrides {
        return;
      }
      SetOptionAs(Layer, key, fallback.values[key]);
    }

    // --- What users and files do ---

    /** The global layer this layer lies over, or is. */
    ghost function Home(): OptionNode {
      if fallback == null then this else fallback
    }

    /** Between two events: every layer follows the global one, is tidy, and takes writes as the user's. */
    ghost predicate IsCoherent()
      reads this, listeners
    {
      && fallback == null && HasLayers() && IsTidy(Current()) && HoldsDefaults(Current(), options) && writeOrigin.Qml?
      && forall l :: l in listeners ==> Agrees(l.Current(), values, options, l.globalOnly) && l.writeOrigin.Qml?
    }

    /** This is one of the layers of a coherent tree. */
    ghost predicate IsPart()
      reads this, fallback, Home().listeners
    {
      Home().IsCoherent() && (fallback != null ==> this in fallback.listeners)
    }

    /** What that means for the options: a layer has the global value wherever it does not override it, and the global
        layer the default; a layer overrides nothing global, and nothing that is in quarantine. */
    lemma CoherentMeans(l: OptionNode, k: string)
      requires IsCoherent() && l in listeners && k in options
      ensures k in l.values && k in values && (k !in l.overrides ==> l.values[k] == values[k])
      ensures l.globalOnly || options[k].globalOnly ==> k !in l.overrides
      ensures !(k in l.overrides && k in l.quarantine) && !(k in overrides && k in quarantine)
      ensures k !in overrides ==> values[k] == options[k].default
    {
    }

    ghost function Whole(): set<object>
      reads this, fallback
    {
      {Home()} + (set l | l in Home().listeners)
    }

    /** A write from QML. */
    method Write(key: string, value: Value)
      requires IsPart() && key in options
      modifies Whole()
      ensures IsPart() && WroteThrough(Qml, key, value)
      ensures fallback != null && !IsGlobal(key) ==> OnlyThis()
      ensures var l := if fallback != null && (globalOnly || options[key].globalOnly) then fallback else this;
        key in l.values && l.values[key] == value && key in l.overrides && key !in l.quarantine
    {
      hide Written, Follow, Follows, IsTidy, HoldsDefaults;
      PartFollows();
      ghost var was := Home().Current();
      SetOption(key, value);
      WrittenIs(if Forwards(Qml, key) then was else old(Current()), key, value);
      if fallback == null || IsGlobal(key) {
        UserWriteTidy(was, Qml, key, value);
        OwnWriteDefaults(was, Qml, key, value, Home().options);
        StillCoherent(was.values);
      } else {
        OwnWriteAgrees(old(Current()), was.values, key, value, options, globalOnly);
      }
    }

    /** The user takes back an override; global options of another layer are left alone. */
    method ResetOption(key: string)
      requires IsPart() && key in options
      modifies Whole()
      ensures IsPart()
      ensures WroteThrough(QmlReset, key, if fallback == null then options[key].default else old(fallback.values)[key])
      ensures fallback != null && !IsGlobal(key) ==> OnlyThis()
      ensures fallback == null || (!globalOnly && !options[key].globalOnly) ==>
        && key in values && key !in overrides && key !in quarantine
        && values[key] == if fallback == null then options[key].default else old(fallback.values)[key]
    {
      hide Written, Follow, Follows, IsTidy, HoldsDefaults;
      PartFollows();
      ghost var was := Home().Current();
      var v := if fallback != null then fallback.values[key] else options[key].default;
      SetOptionAs(QmlReset, key, v);
      WrittenIs(old(Current()), key, v);
      if fallback == null {
        UserWriteTidy(was, QmlReset, key, v);
        OwnWriteDefaults(was, QmlReset, key, v, options);
        StillCoherent(was.values);
      } else if !IsGlobal(key) {
        OwnResetAgrees(old(Current()), was.values, key, options, globalOnly);
      }
    }

    /** Nothing changed but this layer. */
    twostate predicate OnlyThis()
      reads fallback, if fallback == null then [] else fallback.listeners
    {
      && fallback != null && Kept(fallback) && fallback.listeners == old(fallback.listeners)
      && forall l :: l in fallback.listeners && l != this ==> Kept(l)
    }

    lemma PartFollows()
      requires IsPart()
      ensures Home().IsFollowed() && IsFollowed() && Current().overrides <= options.Keys
    {
    }

    /** A write to the global layer leaves everything coherent. */
    twostate lemma StillCoherent(was: map<string, Value>)
      requires old(IsPart()) && was == old(Home().values) && Home().HasLayers()
        && Home().listeners == old(Home().listeners)
      requires IsTidy(Home().Current()) && HoldsDefaults(Home().Current(), Home().options) && Home().writeOrigin.Qml?
      requires forall l :: l in Home().listeners ==> Home().Followed(l)
      ensures IsPart()
    {
      hide Follow, Follows, IsTidy, HoldsDefaults;
      forall l | l in Home().listeners ensures Agrees(l.Current(), Home().values, options, l.globalOnly) {
        FollowAgrees(old(l.Current()), was, Home().values, options, l.globalOnly);
      }
    }

    /** Nor does a change of a layer that still agrees with the global one. */
    twostate lemma StillPart()
      requires old(IsPart()) && OnlyThis() && listeners == old(listeners) && writeOrigin.Qml?
      requires Agrees(Current(), fallback.values, options, globalOnly)
      requires forall l :: l in fallback.listeners ==> l.listeners == old(l.listeners)
      ensures IsPart()
    {
      forall l | l in fallback.listeners
        ensures l.IsLayerOver(fallback) && Agrees(l.Current(), fallback.values, options, l.globalOnly)
          && l.writeOrigin.Qml?
      {
        assert l == this || Kept(l);
        assert old(l.IsLayerOver(fallback));
      }
    }

    ghost function Below(): Option<State>
      reads fallback
    {
      if fallback == null then None else Some(State(fallback.values, {}, map[], map[]))
    }

    /** The layers above as they were at the start of a load or reset, and since then only followed this layer. */
    ghost predicate HasFollowed(start: map<OptionNode, (Options, WriteOrigin)>)
      reads this, listeners
    {
      forall l :: l in listeners ==>
        && l in start && start[l].0.values.Keys == values.Keys && l.Current() == Follow(start[l].0, values)
        && l.writeOrigin == start[l].1
    }

    ghost function Above(): map<OptionNode, (Options, WriteOrigin)>
      reads this, listeners
    {
      map l | l in listeners :: (l.Current(), l.writeOrigin)
    }

    lemma AboveFollowed()
      requires IsFollowed()
      ensures HasFollowed(Above())
    {
      hide Follow, Follows;
      forall l | l in listeners ensures l.values.Keys == values.Keys && l.Current() == Follow(l.Current(), values) {
        FollowsKeys(l.Current(), values, options, l.globalOnly);
        FollowsIsFixed(l.Current(), values, options, l.globalOnly);
      }
    }

    /** A write to this very layer, as while a file is loaded: the layers above follow at once. */
    method FileWrite(key: string, value: Value, ghost start: map<OptionNode, (Options, WriteOrigin)>)
      requires HasPlace() && HasFollowed(start) && key in options && writeOrigin != Init && !Forwards(writeOrigin, key)
      requires writeOrigin.File? || writeOrigin.FileReset? || (writeOrigin.QmlReset? && quarantine == map[])
      modifies this, listeners
      ensures HasPlace() && HasFollowed(start) && writeOrigin == old(writeOrigin) && listeners == old(listeners)
      ensures Below() == old(Below()) && Current() == Written(old(Current()), writeOrigin, key, value)
      ensures Tree() == WithOption(Plain(options), old(Tree()), key, value, writeOrigin.File?)
      ensures (!IsUser(writeOrigin) ==> dirty == old(dirty)) && (old(quarantine) == map[] ==> quarantine == map[])
    {
      hide Written, Follow, Follows, HasShape, WithOption;
      ghost var was, all := Current(), listeners;
      WrittenKeys(was, writeOrigin, key, value);
      WrittenIsStep(was, options, writeOrigin, key, value);
      SetOption(key, value);
      forall l | l in listeners
        ensures Follows(l.Current(), values, options, l.globalOnly) && l.Current() == Follow(start[l].0, values)
      {
        assert l in all;
        FollowFollows(old(l.Current()), was.values, values, options, l.globalOnly);
        FollowAgain(start[l].0, was.values, values);
      }
    }

    /** Takes over the entries of a file that can be loaded, and puts the others in quarantine. */
    method LoadFromJson(fields: map<string, Json>) returns (visited: set<string>)
      requires HasPlace() && quarantine == map[]
      modifies this, listeners
      ensures HasPlace() && writeOrigin == old(writeOrigin) && listeners == old(listeners) && dirty == old(dirty)
      ensures Below() == old(Below()) && forall l :: l in listeners ==> Followed(l)
      ensures IsLoading(Plain(options), Below(), globalOnly, old(Tree()), Tree(), fields, {}, visited)
    {
      hide Written, Follow, Follows, IsLoading, Decode, HasShape, WithOption, WithQuarantine;
      ghost var was, under, start := Tree(), Below(), Above();
      AboveFollowed();
      var previous := writeOrigin;
      writeOrigin := File;
      visited := {};
      var rest := fields.Keys;
      NothingLoaded(Plain(options), under, globalOnly, was, fields);
      while rest != {}
        invariant rest <= fields.Keys && HasPlace() && writeOrigin == File && listeners == old(listeners)
          && dirty == old(dirty)
        invariant Below() == under && HasFollowed(start)
        invariant IsLoading(Plain(options), under, globalOnly, was, Tree(), fields, rest, visited)
      {
        var k :| k in rest;
        KeyLoaded(Plain(options), under, globalOnly, was, Tree(), fields, rest, visited, k);
        if k !in options {
          Quarantine(k, fields[k], start);
        } else if (globalOnly || options[k].globalOnly) && fallback != null {
          Quarantine(k, fields[k], start);
        } else {
          var val := Decode(options[k].codec, fields[k]);
          if val.None? {
            Quarantine(k, fields[k], start);
          } else {
            visited := visited + {k};
            FileWrite(k, val.value, start);
          }
        }
        rest := rest - {k};
      }
      writeOrigin := previous;
    }

    /** The layers over this one follow it, and the layer below is of the same form. */
    ghost predicate HasPlace()
      reads this, listeners, fallback
    {
      IsFollowed() && FallbackFits(Plain(options), Below()) && HasShape(Plain(options), Tree()) && fallback != this
    }

    method Quarantine(key: string, value: Json, ghost start: map<OptionNode, (Options, WriteOrigin)>)
      requires HasPlace() && HasFollowed(start)
      modifies `quarantine
      ensures HasPlace() && HasFollowed(start) && Below() == old(Below())
        && Tree() == WithQuarantine(Plain(options), old(Tree()), key, value)
    {
      quarantine := quarantine[key := value];
    }

    /** What the layer below has for an option, or its default. */
    method Default(key: string) returns (v: Value)
      requires HasPlace() && key in options
      ensures v == DefaultOf(Plain(options), Below(), key)
    {
      return if fallback != null then fallback.values[key] else options[key].default;
    }

    /** Resets every option that was not found in the file. */
    method ResetUnvisited(visited: set<string>)
      requires HasPlace()
      modifies this, listeners
      ensures HasPlace() && writeOrigin == old(writeOrigin) && listeners == old(listeners) && dirty == old(dirty)
      ensures Below() == old(Below()) && forall l :: l in listeners ==> Followed(l)
      ensures IsUnvisiting(Plain(options), Below(), globalOnly, old(Tree()), Tree(), visited, {})
    {
      hide Written, Follow, Follows, IsUnvisiting, HasShape, WithOption, DefaultOf;
      ghost var was, under, start := Tree(), Below(), Above();
      AboveFollowed();
      var previous := writeOrigin;
      writeOrigin := FileReset;
      var rest := options.Keys;
      NothingUnvisited(Plain(options), under, globalOnly, was, visited);
      assert options.Keys + Plain(options).children.Keys == options.Keys;
      while rest != {}
        invariant rest <= options.Keys && HasPlace() && writeOrigin == FileReset && listeners == old(listeners)
          && dirty == old(dirty)
        invariant Below() == under && HasFollowed(start)
        invariant IsUnvisiting(Plain(options), under, globalOnly, was, Tree(), visited, rest)
      {
        var k :| k in rest;
        KeyUnvisited(Plain(options), under, globalOnly, was, Tree(), visited, rest, k);
        if k !in visited {
          var v := Default(k);
          FileWrite(k, v, start);
        }
        rest := rest - {k};
      }
      writeOrigin := previous;
    }

    /** Back to what the layer below has, or to the defaults; a layer leaves global nodes alone. Entries in quarantine
        are dropped, but only changed values and overrides make the layer worth saving. */
    method ResetToDefaults(origin: WriteOrigin)
      requires IsPart() && (origin.FileReset? || origin.QmlReset?)
      modifies this, listeners
      ensures IsPart() && listeners == old(listeners) && forall l :: l in listeners ==> Followed(l)
      ensures FallbackFits(Plain(options), Below()) && Below() == old(Below())
      ensures Current() ==
        if globalOnly && fallback != null then old(Current()) else ResetAll(old(Current()), options, Below(), origin)
    {
      hide Written, Follow, Follows, IsTidy, Agrees, IsResetting, Fresh, HoldsDefaults, HasShape, ResetAll;
      PartFollows();
      PartTidy();
      ghost var was, under := Current(), Below();
      forall l | l in listeners ensures Followed(l) {
        FollowsIsFixed(l.Current(), was.values, options, l.globalOnly);
      }
      if globalOnly && fallback != null {
        return;
      }
      quarantine := map[];
      ShapeCleared(options, was);
      ResetEach(origin, was);
      ResetAgrees(was, options, under, globalOnly, origin);
      if fallback == null {
        StillCoherent(was.values);
      } else {
        StillPart();
      }
    }

    /** Resets the options one by one on behalf of an origin. */
    method ResetEach(origin: WriteOrigin, ghost was: Options)
      requires HasPlace() && (origin.FileReset? || origin.QmlReset?) && Current() == was.(quarantine := map[])
      requires HasShape(Plain(options), AsState(was)) && !IsForeign(Below(), globalOnly)
      requires fallback != null ==> Agrees(was, fallback.values, options, globalOnly)
      modifies this, listeners
      ensures HasPlace() && writeOrigin == old(writeOrigin) && listeners == old(listeners) && Below() == old(Below())
      ensures Current() == ResetAll(was, options, Below(), origin) && forall l :: l in listeners ==> Followed(l)
    {
      hide Follow, Follows, Agrees, IsResetting, HasShape, ResetAll;
      AboveFollowed();
      ghost var start := Above();
      var previous := writeOrigin;
      writeOrigin := origin;
      ResetOptions(was, start);
      writeOrigin := previous;
    }

    /** Does so; global options of the layer below are skipped. */
    method ResetOptions(ghost was: Options, ghost start: map<OptionNode, (Options, WriteOrigin)>)
      requires HasPlace() && HasFollowed(start) && (writeOrigin.FileReset? || writeOrigin.QmlReset?)
      requires HasShape(Plain(options), AsState(was)) && Current() == was.(quarantine := map[])
        && !IsForeign(Below(), globalOnly)
      requires fallback != null ==> Agrees(was, fallback.values, options, globalOnly)
      modifies this, listeners
      ensures HasPlace() && HasFollowed(start) && writeOrigin == old(writeOrigin) && listeners == old(listeners)
      ensures Below() == old(Below()) && Current() == ResetAll(was, options, Below(), writeOrigin)
    {
      hide Written, Agrees, IsResetting, HasShape, DefaultOf, WithOption, ResetAll, HasFollowed, Below;
      ghost var origin, first, under := writeOrigin, AsState(was), Below();
      assert under.Some? <==> fallback != null by { AboutBelow(); }
      var rest := options.Keys;
      NothingReset(Plain(options), under, globalOnly, first);
      assert options.Keys + Plain(options).children.Keys == options.Keys;
      while rest != {}
        invariant rest <= options.Keys && HasPlace() && writeOrigin == origin && listeners == old(listeners)
        invariant IsResetting(Plain(options), under, globalOnly, first, Tree(), rest) && Below() == under
        invariant (dirty <==> IsMarked(was, Current(), origin)) && quarantine == map[] && HasFollowed(start)
      {
        var k :| k in rest;
        KeyReset(Plain(options), under, globalOnly, first, Tree(), rest, k);
        if !options[k].globalOnly || fallback == null {
          var v := Default(k);
          ghost var before := Current();
          FileWrite(k, v, start);
          ResetMatters(options, under, globalOnly, was, before, origin, rest, k);
        }
        rest := rest - {k};
      }
      AllReset(Plain(options), under, globalOnly, first, Tree());
      AboutBelow();
      ResetIsAll(was, options, under, globalOnly, Current(), origin);
    }

    lemma AboutBelow()
      ensures Below() == if fallback == null then None else Some(State(fallback.values, {}, map[], map[]))
    {
    }

    lemma PartTidy()
      requires IsPart()
      ensures IsTidy(Current()) && HasPlace()
      ensures if fallback != null then Agrees(Current(), fallback.values, options, globalOnly)
        else HoldsDefaults(Current(), options)
    {
    }

    /** Loads a file into the layer. Layers above a global layer follow, and otherwise only this layer changes. */
    method SyncJson(fields: map<string, Json>)
      requires IsPart()
      modifies this, listeners
      ensures IsPart() && listeners == old(listeners) && dirty == old(dirty)
        && forall l :: l in listeners ==> Followed(l)
      ensures FallbackFits(Plain(options), Below()) && HasShape(Plain(options), old(Tree()))
      ensures Tree() == Load(Plain(options), Below(), globalOnly, old(Tree()), fields)
    {
      hide Written, Follow, Follows, IsTidy, Agrees, IsLoading, IsUnvisiting, HoldsDefaults, HasShape, Load;
      PartFollows();
      PartTidy();
      ghost var was, under := Current(), Below();
      quarantine := map[];
      ShapeCleared(options, was);
      forall l | l in listeners ensures Followed(l) {
        FollowsIsFixed(l.Current(), was.values, options, l.globalOnly);
      }
      var visited := LoadFromJson(fields);
      ghost var mid := Current();
      ResetUnvisited(visited);
      AllLoaded(Plain(options), under, globalOnly, AsState(was), AsState(mid), Tree(), fields, visited);
      LoadedAgrees(was, options, under, globalOnly, Current(), fields);
      forall l | l in listeners ensures Followed(l) {
        FollowAgain(old(l.Current()), mid.values, values);
      }
      if fallback == null {
        StillCoherent(was.values);
      } else {
        StillPart();
      }
    }
  }

  /** Only the latest values below count. */
  lemma FollowAgain(s: Options, below: map<string, Value>, after: map<string, Value>)
    requires s.values.Keys == below.Keys == after.Keys
    ensures Follow(Follow(s, below), after) == Follow(s, after)
  {
  }

  lemma WrittenKeys(s: Options, origin: WriteOrigin, key: string, value: Value)
    requires key in s.values
    ensures Written(s, origin, key, value).values.Keys == s.values.Keys
  {
  }

  /** A layer still agrees with the one below after the user takes back an override, or tries to where he cannot. */
  lemma OwnResetAgrees(s: Options, below: map<string, Value>, key: string, options: map<string, OptionDesc>,
                       globalOnly: bool)
    requires Agrees(s, below, options, globalOnly) && key in options
    ensures key in s.values && key in below
    ensures Agrees(Written(s, QmlReset, key, below[key]), below, options, globalOnly)
  {
  }

  /** A layer still agrees with the one below after it followed a write there. */
  lemma FollowAgrees(s: Options, below: map<string, Value>, after: map<string, Value>, options: map<string, OptionDesc>,
                     globalOnly: bool)
    requires Agrees(s, below, options, globalOnly) && after.Keys == options.Keys
    ensures s.values.Keys == after.Keys && Agrees(Follow(s, after), after, options, globalOnly)
  {
  }

  /** A layer still agrees with the one below after the user overrides an option of its own. */
  lemma OwnWriteAgrees(s: Options, below: map<string, Value>, key: string, value: Value, options: map<string,
                       OptionDesc>, globalOnly: bool)
    requires Agrees(s, below, options, globalOnly) && key in options && !globalOnly && !options[key].globalOnly
    ensures key in s.values && Agrees(Written(s, Qml, key, value), below, options, globalOnly)
  {
  }

  lemma OwnWriteDefaults(s: Options, origin: WriteOrigin, key: string, value: Value, options: map<string, OptionDesc>)
    requires HoldsDefaults(s, options) && key in options
      && (origin.Qml? || (origin.QmlReset? && value == options[key].default))
    ensures key in s.values && HoldsDefaults(Written(s, origin, key, value), options)
  {
  }

  // --- Loads and resets ---

  /** While a file is loaded or a node reset, a write is the step of that. */
  lemma WrittenIsStep(s: Options, options: map<string, OptionDesc>, origin: WriteOrigin, k: string, v: Value)
    requires HasShape(Plain(options), AsState(s)) && k in options
    requires origin.File? || origin.FileReset? || (origin.QmlReset? && s.quarantine == map[])
    ensures k in s.values && HasShape(Plain(options), AsState(Written(s, origin, k, v)))
    ensures AsState(Written(s, origin, k, v)) == WithOption(Plain(options), AsState(s), k, v, origin.File?)
    ensures var t := Written(s, origin, k, v);
      (!IsUser(origin) ==> t.dirty == s.dirty) && (s.quarantine == map[] ==> t.quarantine == map[])
  {
  }

  lemma ShapeCleared(options: map<string, OptionDesc>, s: Options)
    requires HasShape(Plain(options), AsState(s))
    ensures HasShape(Plain(options), AsState(s.(quarantine := map[])))
    ensures AsState(s.(quarantine := map[])) == Cleared(Plain(options), AsState(s))
  {
  }

  /** A loaded layer agrees with the one below, or holds its defaults. */
  lemma LoadedAgrees(was: Options, options: map<string, OptionDesc>, under: Option<State>, globalOnly: bool, s: Options,
                     fields: map<string, Json>)
    requires FallbackFits(Plain(options), under) && HasShape(Plain(options), AsState(was))
    requires AsState(s) == Load(Plain(options), under, globalOnly, AsState(was), fields)
    ensures IsTidy(s)
    ensures if under.Some? then Agrees(s, under.value.values, options, globalOnly) else HoldsDefaults(s, options)
  {
  }

  /** Whether a reset that came to `now` marks the layer for saving. */
  ghost predicate IsMarked(was: Options, now: Options, origin: WriteOrigin) {
    was.dirty || (IsUser(origin) && (now.values != was.values || now.overrides != was.overrides))
  }

  /** The node after a reset as a whole. */
  ghost function ResetAll(s: Options, options: map<string, OptionDesc>, under: Option<State>,
                          origin: WriteOrigin): Options
    requires FallbackFits(Plain(options), under)
  {
    var r := Options(Fresh(Plain(options), under).values, {}, map[], s.dirty);
    r.(dirty := IsMarked(s, r, origin))
  }

  /** A reset of an option matters exactly if value or override differ from those before. */
  lemma ResetMatters(options: map<string, OptionDesc>, under: Option<State>, globalOnly: bool, was: Options,
                     now: Options, origin: WriteOrigin, rest: set<string>, k: string)
    requires FallbackFits(Plain(options), under) && HasShape(Plain(options), AsState(was))
      && HasShape(Plain(options), AsState(now))
    requires k in rest && k in options
      && IsResetting(Plain(options), under, globalOnly, AsState(was), AsState(now), rest)
    requires (origin.FileReset? || origin.QmlReset?) && (now.dirty <==> IsMarked(was, now, origin))
    ensures k in now.values
    ensures var t := Written(now, origin, k, DefaultOf(Plain(options), under, k));
      && HasShape(Plain(options), AsState(t)) && (t.dirty <==> IsMarked(was, t, origin))
      && AsState(t) == WithOption(Plain(options), AsState(now), k, DefaultOf(Plain(options), under, k), false)
  {
    hide DefaultOf;
    assert ResetKey(Plain(options), under, globalOnly, AsState(was), AsState(now), rest, k);
  }

  /** Global options of the layer below hold its value and no override already, so skipping them is resetting them. */
  lemma ResetIsAll(was: Options, options: map<string, OptionDesc>, under: Option<State>, globalOnly: bool, now: Options,
                   origin: WriteOrigin)
    requires FallbackFits(Plain(options), under) && HasShape(Plain(options), AsState(was))
      && !IsForeign(under, globalOnly)
    requires under.Some? ==> Agrees(was, under.value.values, options, globalOnly)
    requires AsState(now) == Reset(Plain(options), under, globalOnly, AsState(was))
      && (now.dirty <==> IsMarked(was, now, origin))
    ensures now == ResetAll(was, options, under, origin)
  {
  }

  /** A layer that was reset agrees with the one below, or holds its defaults. */
  lemma ResetAgrees(was: Options, options: map<string, OptionDesc>, under: Option<State>, globalOnly: bool,
                    origin: WriteOrigin)
    requires FallbackFits(Plain(options), under)
    ensures var s := ResetAll(was, options, under, origin);
      && IsTidy(s)
      && if under.Some? then Agrees(s, under.value.values, options, globalOnly) else HoldsDefaults(s, options)
  {
  }

  // --- What is marked for saving ---

  /** A write or reset of an option by the user that changes what is saved marks the layer for saving. */
  lemma UserWriteIsSaved(f: SettingsFile.State, s: Options, options: map<string, OptionDesc>, origin: WriteOrigin,
                         key: string, value: Value)
    requires HasShape(Plain(options), AsState(s)) && IsTidy(s) && IsUser(origin) && key in options
    requires f.tree == Object(Save(Plain(options), AsState(s), true))
    ensures key in s.values
    ensures var t := Written(s.(dirty := false), origin, key, value);
      && HasShape(Plain(options), AsState(t))
      && SettingsFile.IsEnabled(f,
                                SettingsFile.Event.UserWrite(Object(Save(Plain(options), AsState(t), true)), t.dirty))
  {
    hide Save;
    UserWriteTidy(s.(dirty := false), origin, key, value);
  }

  /** A reset of the whole node does so exactly if it has overrides, or nothing in quarantine: the reset drops what is
      in quarantine, but that alone does not mark the layer. */
  lemma ResetMarksIff(s: Options, options: map<string, OptionDesc>, under: Option<State>)
    requires FallbackFits(Plain(options), under) && HasShape(Plain(options), AsState(s)) && !s.dirty
    requires forall k :: k in options && k !in s.overrides ==> s.values[k] == DefaultOf(Plain(options), under, k)
    ensures var t := ResetAll(s, options, under, QmlReset);
      && HasShape(Plain(options), AsState(t))
      && ((Save(Plain(options), AsState(t), true) != Save(Plain(options), AsState(s), true) ==> t.dirty)
          <==> s.overrides != {} || s.quarantine == map[])
  {
    hide Save;
    var t := ResetAll(s, options, under, QmlReset);
    ContentIsSaved(Plain(options), AsState(s));
    ContentIsSaved(Plain(options), AsState(t));
    assert s.overrides == {} ==> t.values == s.values;
  }

  /** An input: a node with nothing but an entry in quarantine. */
  lemma ResetForgetsToSave()
    ensures var s := Options(map[], {}, map["x" := Null], false);
      var t := ResetAll(s, map[], None, QmlReset);
      && !t.dirty && HasShape(Plain(map[]), AsState(s)) && HasShape(Plain(map[]), AsState(t))
      && Save(Plain(map[]), AsState(s), true) != map[] && Save(Plain(map[]), AsState(t), true) == map[]
  {
    hide Save;
    var s := Options(map[], {}, map["x" := Null], false);
    assert "x" in s.quarantine;
    ContentIsSaved(Plain(map[]), AsState(s));
    ContentIsSaved(Plain(map[]), AsState(ResetAll(s, map[], None, QmlReset)));
  }
}

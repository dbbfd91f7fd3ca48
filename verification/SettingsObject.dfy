/** Object nodes as objects that are updated in place, against the functions of SettingsTree
    (src/plugin/src/Sleepy/Settings/objectnode.cpp:37-185, node.cpp:64-67, 102-116, quarantine.cpp:7-25). */
module SettingsObject {
  import opened Wrappers
  import opened SettingsCodecs
  import opened SettingsTree
  import opened SettingsSteps

  class ObjectNode {
    const schema: Schema
    const globalOnly: bool
    const fallback: ObjectNode?
    const children: map<string, ObjectNode>
    var values: map<string, Value>
    var overrides: set<string>
    var quarantine: map<string, Json>
    /** This node and all nodes below. */
    ghost const Repr: set<ObjectNode>

    /** The tree of nodes follows the schema, shares no nodes, and lies over a tree of the same form. */
    ghost predicate IsTree()
      decreases schema, if fallback == null then 0 else 1
    {
      && this in Repr && children.Keys == schema.children.Keys
      && (forall k :: k in children ==> IsBranch(k) && children[k].IsTree())
      && (forall k, l :: k in children && l in children && k != l ==> children[k].Repr !! children[l].Repr)
      && (fallback != null ==> LiesOver(fallback) && fallback.IsTree())
    }

    ghost predicate IsBranch(k: string)
      requires k in children && k in schema.children
    {
      var child := children[k];
      && child.Repr <= Repr && this !in child.Repr
      && child.schema == schema.children[k].schema && child.globalOnly == (globalOnly || schema.children[k].globalOnly)
      && (fallback == null ==> child.fallback == null)
      && (fallback != null ==> k in fallback.children && child.fallback == fallback.children[k])
    }

    ghost predicate LiesOver(under: ObjectNode) {
      under.fallback == null && under.schema == schema && under.Repr !! Repr
    }

    ghost function Current(): State
      requires IsTree()
      reads Repr
      decreases schema
    {
      State(values, overrides, quarantine, map k | k in children :: children[k].Current())
    }

    ghost predicate Valid()
      reads Repr
    {
      IsTree() && IsSchema(schema) && HasShape(schema, Current())
    }

    ghost function Under(): Option<State>
      requires IsTree()
      reads if fallback == null then {} else fallback.Repr
    {
      if fallback == null then None else Some(fallback.Current())
    }

    ghost predicate IsReady()
      reads Repr, if fallback == null then {} else fallback.Repr
    {
      Valid() && FallbackFits(schema, Under())
    }

    /** A child's fallback is the child of the fallback. */
    lemma ChildReady(k: string)
      requires IsReady() && k in children
      ensures children[k].IsReady() && children[k].Under() == ChildFallback(schema, Under(), k)
      ensures children[k].Current() == Current().children[k] && children[k].schema == schema.children[k].schema
      ensures fallback == null ==> children[k].fallback == null
    {
    }

    /** A node starts out with the values of the layer below, or its defaults. */
    constructor (schema: Schema, fallback: ObjectNode?, globalOnly: bool)
      requires IsSchema(schema)
      requires fallback != null ==> fallback.IsReady() && fallback.schema == schema && fallback.fallback == null
      ensures this.schema == schema && this.fallback == fallback && this.globalOnly == globalOnly
      ensures fresh(Repr) && IsReady() && Current() == Fresh(schema, Under())
      decreases schema
    {
      hide IsReady, IsTree, Current, Under, IsSchema, Fresh, IsKid, LiesOver;
      if fallback != null {
        fallback.ReadyParts();
      }
      var kids: map<string, ObjectNode>;
      ghost var repr: set<ObjectNode>;
      kids, repr := NewChildren(schema, fallback, globalOnly);
      this.schema, this.fallback, this.globalOnly, children := schema, fallback, globalOnly, kids;
      values := map k | k in schema.options ::
        if fallback != null then fallback.values[k] else schema.options[k].default;
      overrides, quarantine := {}, map[];
      Repr := {this} + repr;
      new;
      assert fallback != null ==> fallback.Repr !! Repr;
      Assembled();
    }

    /** The fields and children of a node just made. */
    ghost predicate IsAssembled()
      reads this, Repr, if fallback == null then {} else fallback.Repr
    {
      && IsSchema(schema) && this in Repr && children.Keys == schema.children.Keys
      && (fallback != null ==>
           fallback.fallback == null && fallback.IsReady() && fallback.schema == schema && fallback.Repr !! Repr)
      && (forall k :: k in children ==> children[k].Repr <= Repr && this !in children[k].Repr)
      && (forall k, l :: k in children && l in children && k != l ==> children[k].Repr !! children[l].Repr)
    }

    lemma AssembledTree()
      requires IsAssembled() && forall k :: k in children ==> IsKid(children[k], schema, fallback, globalOnly, k)
      ensures IsTree() && FallbackFits(schema, Under()) && (fallback != null ==> fallback.IsTree())
    {
    }

    lemma BuiltBelow(k: string)
      requires IsTree() && k in children && FallbackFits(schema, Under()) && (fallback != null ==> fallback.IsTree())
      requires IsKid(children[k], schema, fallback, globalOnly, k)
      ensures children[k].Current() == Fresh(schema, Under()).children[k]
    {
    }

    lemma Assembled()
      requires IsAssembled() && (forall k :: k in children ==> IsKid(children[k], schema, fallback, globalOnly, k))
      requires overrides == {} && quarantine == map[] && values.Keys == schema.options.Keys
      requires forall k :: k in values ==>
        values[k] == if fallback != null then fallback.values[k] else schema.options[k].default
      ensures IsReady() && Current() == Fresh(schema, Under())
    {
      hide HasShape, IsSchema, IsKid, IsBranch, LiesOver;
      AssembledTree();
      forall k | k in children ensures children[k].Current() == Fresh(schema, Under()).children[k] {
        BuiltBelow(k);
      }
      assert Under().Some? ==> Under().value.values == fallback.values;
      assert values == Fresh(schema, Under()).values;
      SameState(Current(), Fresh(schema, Under()));
    }

    /** The children of a node about to be made. */
    static method NewChildren(schema: Schema, fallback: ObjectNode?, globalOnly: bool)
      returns (kids: map<string, ObjectNode>, ghost repr: set<ObjectNode>)
      requires IsSchema(schema)
      requires fallback != null ==> fallback.IsReady() && fallback.schema == schema && fallback.fallback == null
      ensures kids.Keys == schema.children.Keys && fresh(repr)
      ensures AreApart(kids, repr) && forall k :: k in kids ==> IsKid(kids[k], schema, fallback, globalOnly, k)
      decreases schema, 1
    {
      hide ObjectNode.IsReady, ObjectNode.IsTree, ObjectNode.Current, ObjectNode.Under, ObjectNode.IsKid, IsSchema,
        Fresh, AreApart;
      kids, repr := map[], {};
      NothingApart();
      if fallback != null {
        fallback.ReadyParts();
      }
      var rest := schema.children.Keys;
      while rest != {}
        invariant rest <= schema.children.Keys && kids.Keys == schema.children.Keys - rest && fresh(repr)
        invariant AreApart(kids, repr)
        invariant forall k :: k in kids ==> IsKid(kids[k], schema, fallback, globalOnly, k)
      {
        var k :| k in rest;
        var kid := NewChild(schema, fallback, globalOnly, k, kids, repr);
        ApartOneMore(kids, repr, k, kid);
        kids := kids[k := kid];
        repr := repr + kid.Repr;
        rest := rest - {k};
      }
    }

    static method NewChild(schema: Schema, fallback: ObjectNode?, globalOnly: bool, k: string, ghost others: map<string,
                           ObjectNode>, ghost repr: set<ObjectNode>) returns (kid: ObjectNode)
      requires IsSchema(schema) && k in schema.children && others.Keys <= schema.children.Keys
      requires fallback != null ==> fallback.IsReady() && fallback.schema == schema && fallback.fallback == null
      requires fallback != null ==> fallback.children.Keys == schema.children.Keys
      requires forall l :: l in others ==> IsKid(others[l], schema, fallback, globalOnly, l)
      ensures forall l :: l in others ==> IsKid(others[l], schema, fallback, globalOnly, l)
      ensures fresh(kid.Repr) && kid.Repr !! repr && IsKid(kid, schema, fallback, globalOnly, k)
      decreases schema, 0
    {
      hide ObjectNode.IsReady, ObjectNode.IsTree, ObjectNode.Current, ObjectNode.Under, IsSchema, Fresh;
      ChildSchema(schema, k);
      if fallback != null {
        fallback.ReadyParts();
        fallback.ChildReady(k);
      }
      var below := if fallback == null then null else fallback.children[k];
      kid := new ObjectNode(schema.children[k].schema, below, globalOnly || schema.children[k].globalOnly);
    }

    static ghost predicate IsKid(kid: ObjectNode, schema: Schema, fallback: ObjectNode?, globalOnly: bool, k: string)
      requires k in schema.children && (fallback != null ==> fallback.children.Keys == schema.children.Keys)
      reads kid, kid.Repr,
        if fallback == null then {} else fallback.Repr, if kid.fallback == null then {} else kid.fallback.Repr
    {
      && kid.schema == schema.children[k].schema && kid.globalOnly == (globalOnly || schema.children[k].globalOnly)
      && kid.fallback == (if fallback == null then null else fallback.children[k])
      && kid.IsReady() && kid.Current() == Fresh(kid.schema, kid.Under())
    }

    lemma ReadyParts()
      requires IsReady()
      ensures IsTree() && this in Repr && IsSchema(schema) && FallbackFits(schema, Under())
        && Under().Some? == (fallback != null)
      ensures HasShape(schema, Current()) && Current().values == values && Current().overrides == overrides
      ensures Current().quarantine == quarantine && children.Keys == schema.children.Keys
    {
    }

    /** Writing to a node's own fields changes nothing below or under it. */
    twostate lemma OwnFields()
      requires IsTree()
      requires forall n :: n in Repr && n != this ==> unchanged(n)
      requires fallback != null ==> forall n :: n in fallback.Repr ==> unchanged(n)
      ensures Under() == old(Under())
      ensures Current() == State(values, overrides, quarantine, old(Current()).children)
    {
      forall k | k in children ensures children[k].Current() == old(children[k].Current()) {
        assert forall n :: n in children[k].Repr ==> unchanged(n);
      }
    }

    /** Writes an option; a write from the file overrides the layer below, a reset does not. */
    method SetValue(key: string, value: Value, override: bool)
      requires IsReady() && key in schema.options
      modifies this
      ensures IsReady() && Under() == old(Under())
      ensures Current() == WithOption(schema, old(Current()), key, value, override)
    {
      values := values[key := value];
      overrides := if override then overrides + {key} else overrides - {key};
      OwnFields();
    }

    method ClearQuarantine()
      requires IsReady()
      modifies this
      ensures IsReady() && Under() == old(Under()) && Current() == Cleared(schema, old(Current()))
    {
      quarantine := map[];
      OwnFields();
    }

    method QuarantineKey(key: string, value: Json)
      requires IsReady()
      modifies this
      ensures IsReady() && Under() == old(Under())
      ensures Current() == WithQuarantine(schema, old(Current()), key, value)
    {
      quarantine := quarantine[key := value];
      OwnFields();
    }

    /** What the layer below has for an option, or else its default. */
    method Default(key: string) returns (v: Value)
      requires IsReady() && key in schema.options
      ensures v == DefaultOf(schema, Under(), key)
    {
      v := if fallback != null then fallback.values[key] else schema.options[key].default;
    }

    /** Writing to the nodes below one key changes nothing else. */
    twostate lemma BelowChanged(k: string)
      requires IsTree() && k in children
      requires forall n :: n in Repr && n !in children[k].Repr ==> unchanged(n)
      requires fallback != null ==> forall n :: n in fallback.Repr ==> unchanged(n)
      ensures Under() == old(Under())
      ensures var was := old(Current()); Current() == was.(children := was.children[k := children[k].Current()])
    {
      forall l | l in children && l != k ensures children[l].Current() == old(children[l].Current()) {
        assert forall n :: n in children[l].Repr ==> unchanged(n);
      }
      OneChanged(Current().children, old(Current()).children, k);
    }

    method ResetNode(k: string)
      requires IsReady() && k in schema.children
      modifies Repr
      ensures IsReady() && Under() == old(Under())
      ensures Current() == WithChild(schema, old(Current()), k,
                                     ResetChild(schema, Under(), globalOnly, old(Current()), k))
      decreases schema, 0
    {
      hide Reset, HasShape;
      ChildReady(k);
      children[k].ResetToDefaults();
      BelowChanged(k);
      ChildReplaced(schema, old(Current()), k, children[k].Current());
    }

    /** Back to fallbacks and defaults. */
    method ResetToDefaults()
      requires IsReady()
      modifies Repr
      ensures IsReady() && Under() == old(Under()) && Current() == Reset(schema, Under(), globalOnly, old(Current()))
      decreases schema
    {
      hide IsReady, IsTree, Current, Under, Reset, IsResetting, WithChild, WithOption, HasShape;
      ReadyParts();
      ghost var was, under := Current(), Under();
      if globalOnly && fallback != null {
        ForeignReset(schema, under, globalOnly, was);
        return;
      }
      ClearQuarantine();
      var rest := schema.options.Keys + schema.children.Keys;
      NothingReset(schema, under, globalOnly, was);
      while rest != {}
        invariant rest <= schema.options.Keys + schema.children.Keys
        invariant IsReady() && Under() == under && HasShape(schema, Current())
        invariant IsResetting(schema, under, globalOnly, was, Current(), rest)
      {
        var k :| k in rest;
        KeyReset(schema, under, globalOnly, was, Current(), rest, k);
        if k in schema.children {
          ResetNode(k);
        } else if !schema.options[k].globalOnly || fallback == null {
          var v := Default(k);
          SetValue(k, v, false);
        }
        rest := rest - {k};
      }
      AllReset(schema, under, globalOnly, was, Current());
    }

    /** Whether there is anything to save in this node or below. */
    method HasAny() returns (any: bool)
      requires IsReady()
      ensures any == HasContent(schema, Current())
      decreases schema, 0
    {
      hide IsReady, IsTree, Current, HasShape;
      ReadyParts();
      if overrides != {} || quarantine != map[] {
        return true;
      }
      var rest := schema.children.Keys;
      while rest != {}
        invariant rest <= schema.children.Keys
        invariant forall k :: k in schema.children && k !in rest ==>
          !HasContent(schema.children[k].schema, Current().children[k])
      {
        var k :| k in rest;
        ChildReady(k);
        var below := children[k].HasAny();
        if below {
          return true;
        }
        rest := rest - {k};
      }
      return false;
    }

    /** The entry for the node below a key. */
    method NodeToJson(k: string, sparse: bool) returns (entry: Option<Json>)
      requires IsReady() && k in schema.children
      ensures entry == SaveOwn(schema, Current(), sparse, k)
      decreases schema, 0
    {
      hide HasShape, Save, HasContent;
      ChildReady(k);
      var below := true;
      if sparse {
        below := children[k].HasAny();
      }
      if !below {
        return None;
      }
      var child := children[k].ToJson(sparse);
      return Some(Object(child));
    }

    /** The JSON the node is saved as. */
    method ToJson(sparse: bool) returns (json: map<string, Json>)
      requires IsReady()
      ensures json == Save(schema, Current(), sparse)
      decreases schema, 1
    {
      hide IsReady, IsTree, Current, HasContent, HasShape, IsSaving, Save, SaveOwn;
      ReadyParts();
      ghost var s := Current();
      json := map[];
      var rest := schema.options.Keys + schema.children.Keys;
      NothingSaved(schema, s, sparse);
      while rest != {}
        invariant rest <= schema.options.Keys + schema.children.Keys
        invariant IsSaving(schema, s, sparse, json, rest)
      {
        var k :| k in rest;
        KeySaved(schema, s, sparse, json, rest, k);
        if k in schema.children {
          var child := NodeToJson(k, sparse);
          if child.Some? {
            json := json[k := child.value];
          }
        } else if !sparse || k in overrides {
          OptionSaved(schema, s, sparse, k);
          json := json[k := Encode(schema.options[k].codec, values[k])];
        } else {
          OptionSaved(schema, s, sparse, k);
        }
        rest := rest - {k};
      }
      AllSaved(schema, s, sparse, json);
      json := Apply(quarantine, json);
    }

    /** Loads the node below a key. */
    method SyncNode(k: string, json: Json) returns (ok: bool)
      requires IsReady() && k in schema.children
      modifies Repr
      ensures IsReady() && Under() == old(Under()) && ok == json.Object?
      ensures Current() == WithChild(schema, old(Current()), k,
                                     SyncChild(schema, Under(), globalOnly, old(Current()), k, json))
      decreases schema, 0
    {
      hide Load, HasShape;
      ChildReady(k);
      ok := children[k].SyncJson(json);
      BelowChanged(k);
      ChildReplaced(schema, old(Current()), k, children[k].Current());
    }

    /** Loads the entries of a JSON object and tells which keys it found a value or an object for. */
    method LoadFromJson(fields: map<string, Json>) returns (visited: set<string>)
      requires IsReady() && Current().quarantine == map[]
      modifies Repr
      ensures IsReady() && Under() == old(Under()) && HasShape(schema, Current())
      ensures IsLoading(schema, Under(), globalOnly, old(Current()), Current(), fields, {}, visited)
      decreases schema, 1
    {
      hide IsReady, IsTree, Current, Under, Decode, SyncChild, IsLoading, WithChild, WithOption, WithQuarantine,
        HasShape;
      ReadyParts();
      ghost var was, under := Current(), Under();
      visited := {};
      var rest := fields.Keys;
      NothingLoaded(schema, under, globalOnly, was, fields);
      while rest != {}
        invariant rest <= fields.Keys && IsReady() && Under() == under && HasShape(schema, Current())
        invariant IsLoading(schema, under, globalOnly, was, Current(), fields, rest, visited)
      {
        var k :| k in rest;
        KeyLoaded(schema, under, globalOnly, was, Current(), fields, rest, visited, k);
        if k in schema.children {
          var ok := SyncNode(k, fields[k]);
          if ok {
            visited := visited + {k};
          } else {
            QuarantineKey(k, fields[k]);
          }
        } else if k !in schema.options {
          QuarantineKey(k, fields[k]);
        } else if (globalOnly || schema.options[k].globalOnly) && fallback != null {
          QuarantineKey(k, fields[k]);
        } else {
          var val := Decode(schema.options[k].codec, fields[k]);
          if val.None? {
            QuarantineKey(k, fields[k]);
          } else {
            visited := visited + {k};
            SetValue(k, val.value, true);
          }
        }
        rest := rest - {k};
      }
    }

    /** Resets every key that was not found. */
    method ResetUnvisited(visited: set<string>)
      requires IsReady()
      modifies Repr
      ensures IsReady() && Under() == old(Under()) && HasShape(schema, Current())
      ensures IsUnvisiting(schema, Under(), globalOnly, old(Current()), Current(), visited, {})
      decreases schema, 1
    {
      hide IsReady, IsTree, Current, Under, Reset, IsUnvisiting, WithChild, WithOption, HasShape;
      ReadyParts();
      ghost var was, under := Current(), Under();
      var rest := schema.options.Keys + schema.children.Keys;
      NothingUnvisited(schema, under, globalOnly, was, visited);
      while rest != {}
        invariant rest <= schema.options.Keys + schema.children.Keys
        invariant IsReady() && Under() == under && HasShape(schema, Current())
        invariant IsUnvisiting(schema, under, globalOnly, was, Current(), visited, rest)
      {
        var k :| k in rest;
        KeyUnvisited(schema, under, globalOnly, was, Current(), visited, rest, k);
        if k !in visited {
          if k in schema.children {
            ResetNode(k);
          } else {
            var v := Default(k);
            SetValue(k, v, false);
          }
        }
        rest := rest - {k};
      }
    }

    /** Replaces the state of the tree by what a file says. */
    method SyncJson(json: Json) returns (ok: bool)
      requires IsReady()
      modifies Repr
      ensures IsReady() && Under() == old(Under()) && ok == json.Object?
      ensures Current() ==
        if ok then Load(schema, Under(), globalOnly, old(Current()), json.fields) else Cleared(schema, old(Current()))
      decreases schema, 2
    {
      hide IsReady, IsTree, Current, Under, IsLoading, IsUnvisiting, HasShape, Load;
      ReadyParts();
      ghost var was, under := Current(), Under();
      ClearQuarantine();
      if !json.Object? {
        return false;
      }
      var visited := LoadFromJson(json.fields);
      ghost var mid := Current();
      ResetUnvisited(visited);
      AllLoaded(schema, under, globalOnly, was, mid, Current(), json.fields, visited);
      return true;
    }
  }

  /** The trees below share no nodes, and have them in `repr`. */
  ghost predicate AreApart(kids: map<string, ObjectNode>, repr: set<ObjectNode>) {
    && (forall k :: k in kids ==> kids[k].Repr <= repr)
    && forall k, l :: k in kids && l in kids && k != l ==> kids[k].Repr !! kids[l].Repr
  }

  lemma NothingApart()
    ensures AreApart(map[], {})
  {
  }

  lemma ApartOneMore(kids: map<string, ObjectNode>, repr: set<ObjectNode>, k: string, kid: ObjectNode)
    requires AreApart(kids, repr) && k !in kids && kid.Repr !! repr
    ensures AreApart(kids[k := kid], repr + kid.Repr)
  {
  }

  lemma OneChanged<V>(m: map<string, V>, was: map<string, V>, k: string)
    requires m.Keys == was.Keys && k in m && forall l :: l in m && l != k ==> m[l] == was[l]
    ensures m == was[k := m[k]]
  {
  }

  method Apply(quarantine: map<string, Json>, json: map<string, Json>) returns (result: map<string, Json>)
    ensures result == quarantine + json
  {
    result := json;
    var rest := quarantine.Keys;
    while rest != {}
      invariant rest <= quarantine.Keys
      invariant result.Keys == json.Keys + (quarantine.Keys - rest)
      invariant forall k :: k in result ==> result[k] == if k in json then json[k] else quarantine[k]
    {
      var k :| k in rest;
      if k !in result {
        result := result[k := quarantine[k]];
      }
      rest := rest - {k};
    }
  }
}

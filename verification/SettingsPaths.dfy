/** What loading and saving a tree of nodes mean for the node at the end of a path of keys, told from what the file
    holds at that path (src/plugin/src/Sleepy/Settings/objectnode.cpp:37-185, node.cpp:64-67). */
module SettingsPaths {
  import opened Wrappers
  import opened SettingsCodecs
  import opened SettingsTree

  ghost predicate IsPath(schema: Schema, path: seq<string>)
    decreases |path|
  {
    path == [] || (path[0] in schema.children && IsPath(schema.children[path[0]].schema, path[1..]))
  }

  ghost function SchemaAt(schema: Schema, path: seq<string>): Schema
    requires IsPath(schema, path)
    decreases |path|
  {
    if path == [] then schema else SchemaAt(schema.children[path[0]].schema, path[1..])
  }

  /** Whether a node on the path may only be defined by the global layer. */
  ghost predicate IsGlobalAt(schema: Schema, path: seq<string>)
    requires IsPath(schema, path)
    decreases |path|
  {
    path != [] && (schema.children[path[0]].globalOnly || IsGlobalAt(schema.children[path[0]].schema, path[1..]))
  }

  ghost function NodeAt(schema: Schema, s: State, path: seq<string>): (r: State)
    requires HasShape(schema, s) && IsPath(schema, path)
    ensures HasShape(SchemaAt(schema, path), r)
    decreases |path|
  {
    if path == [] then s else NodeAt(schema.children[path[0]].schema, s.children[path[0]], path[1..])
  }

  /** What a file holds at a path, as far as there are objects on it. */
  ghost function FieldsAt(fields: map<string, Json>, path: seq<string>): Option<map<string, Json>>
    decreases |path|
  {
    if path == [] then Some(fields)
    else if path[0] in fields && fields[path[0]].Object? then FieldsAt(fields[path[0]].fields, path[1..])
    else None
  }

  // --- Loading ---

  /** A node the file has an object for holds what that object says: an entry an option of the layer's own decodes is
      its value and an override, an object for a node below is left to it, everything else goes into quarantine.
      Options without such an entry have the value of the layer below, or the default. */
  lemma {:induction false} LoadedAt(schema: Schema, fallback: Option<State>, globalOnly: bool, s: State,
                                    fields: map<string, Json>, path: seq<string>, k: string)
    requires FallbackFits(schema, fallback) && HasShape(schema, s) && IsPath(schema, path)
    requires FieldsAt(fields, path).Some?
    ensures var (node, file) := (NodeAt(schema, Load(schema, fallback, globalOnly, s, fields), path),
                                 FieldsAt(fields, path).value);
      var (options, children) := (SchemaAt(schema, path).options, SchemaAt(schema, path).children);
      var taken := k in options && k in file && Decode(options[k].codec, file[k]).Some?
                   && (fallback.None? || !(globalOnly || IsGlobalAt(schema, path) || options[k].globalOnly));
      && (k in node.overrides <==> taken)
      && (taken ==> Some(node.values[k]) == Decode(options[k].codec, file[k]))
      && (k in options && !taken ==>
          node.values[k] == if fallback.None? then options[k].default
                            else NodeBelow(schema, fallback, path).value.values[k])
      && (k in node.quarantine <==> k in file && !taken && !(k in children && file[k].Object?))
      && (k in node.quarantine ==> node.quarantine[k] == file[k])
    decreases |path|
  {
    hide Decode, Reset, HasShape;
    if path != [] {
      var child := schema.children[path[0]];
      ShapeBelow(schema, s, path[0]);
      LoadedAt(child.schema, ChildFallback(schema, fallback, path[0]), globalOnly || child.globalOnly,
               s.children[path[0]], fields[path[0]].fields, path[1..], k);
    }
  }

  /** The node of the layer below, if there is one. */
  ghost function NodeBelow(schema: Schema, fallback: Option<State>, path: seq<string>): Option<State>
    requires FallbackFits(schema, fallback) && IsPath(schema, path)
  {
    if fallback.None? then None else Some(NodeAt(schema, fallback.value, path))
  }

  /** A node whose quarantine is empty, and whose option `k` is as below, or the default: as it was before only if it
      may be defined by the global layer alone and this is another one. */
  ghost predicate IsBackTo(schema: Schema, below: Option<State>, before: State, node: State, k: string)
    requires FallbackFits(schema, below) && HasShape(schema, before) && HasShape(schema, node)
  {
    && node.quarantine == map[]
    && (k in node.overrides <==>
        k in before.overrides && k in schema.options && below.Some? && schema.options[k].globalOnly)
    && (k in schema.options ==>
        node.values[k] == if below.None? then schema.options[k].default
                          else if schema.options[k].globalOnly then before.values[k]
                          else below.value.values[k])
  }

  /** What a reset leaves of a node: options only the global layer may define stay as they were in any other layer,
      and so does everything of a node only the global layer may define. All else is back to what is below. */
  lemma {:induction false} ResetAt(schema: Schema, fallback: Option<State>, globalOnly: bool, s: State,
                                   path: seq<string>, k: string)
    requires FallbackFits(schema, fallback) && HasShape(schema, s) && IsPath(schema, path)
    ensures var (node, before) :=
      (NodeAt(schema, Reset(schema, fallback, globalOnly, s), path), NodeAt(schema, s, path));
      if fallback.Some? && (globalOnly || IsGlobalAt(schema, path)) then node == before
      else IsBackTo(SchemaAt(schema, path), NodeBelow(schema, fallback, path), before, node, k)
    decreases |path|
  {
    if path != [] && !IsForeign(fallback, globalOnly) {
      var child := schema.children[path[0]];
      ResetAt(child.schema, ChildFallback(schema, fallback, path[0]), globalOnly || child.globalOnly,
              s.children[path[0]], path[1..], k);
    }
  }

  /** A node the file has no object for is reset; if there is something else in its place, it loses its quarantine. */
  lemma {:induction false} MissingAt(schema: Schema, fallback: Option<State>, globalOnly: bool, s: State,
                                     fields: map<string, Json>, path: seq<string>, k: string)
    requires FallbackFits(schema, fallback) && HasShape(schema, s) && IsPath(schema, path)
    requires FieldsAt(fields, path).None?
    ensures var (node, before) := (NodeAt(schema, Load(schema, fallback, globalOnly, s, fields), path),
                                   NodeAt(schema, s, path));
      var (above, last) := (FieldsAt(fields, path[..|path| - 1]), path[|path| - 1]);
      if fallback.Some? && (globalOnly || IsGlobalAt(schema, path))
      then node == if above.Some? && last in above.value then before.(quarantine := map[]) else before
      else IsBackTo(SchemaAt(schema, path), NodeBelow(schema, fallback, path), before, node, k)
    decreases |path|
  {
    hide Load, Reset, IsBackTo, HasShape;
    var child, below := schema.children[path[0]], ChildFallback(schema, fallback, path[0]);
    var global := globalOnly || child.globalOnly;
    ShapeBelow(schema, s, path[0]);
    ChildLoaded(schema, fallback, globalOnly, s, fields, path[0]);
    if path[0] !in fields {
      ResetAt(child.schema, below, global, s.children[path[0]], path[1..], k);
    } else if fields[path[0]].Object? {
      assert path[..|path| - 1][0] == path[0] && path[..|path| - 1][1..] == path[1..][..|path| - 2];
      MissingAt(child.schema, below, global, s.children[path[0]], fields[path[0]].fields, path[1..], k);
    } else {
      ResetAt(child.schema, below, global, Cleared(child.schema, s.children[path[0]]), path[1..], k);
      if path[1..] == [] {
        QuarantineIsGone(child.schema, below, s.children[path[0]],
                         NodeAt(schema, Load(schema, fallback, globalOnly, s, fields), path), k);
      }
    }
  }

  lemma QuarantineIsGone(schema: Schema, below: Option<State>, before: State, node: State, k: string)
    requires FallbackFits(schema, below) && HasShape(schema, before) && HasShape(schema, node)
    ensures IsBackTo(schema, below, before, node, k) == IsBackTo(schema, below, Cleared(schema, before), node, k)
  {
  }

  lemma ChildLoaded(schema: Schema, fallback: Option<State>, globalOnly: bool, s: State, fields: map<string, Json>,
                    k: string)
    requires FallbackFits(schema, fallback) && HasShape(schema, s) && k in schema.children
    ensures k in Load(schema, fallback, globalOnly, s, fields).children
    ensures Load(schema, fallback, globalOnly, s, fields).children[k]
         == LoadChild(schema, fallback, globalOnly, s, fields, k)
  {
  }

  // --- Saving ---

  ghost predicate HoldsSome(s: State) {
    s.overrides != {} || s.quarantine != map[]
  }

  ghost predicate HoldsSomeAt(schema: Schema, s: State, path: seq<string>)
    requires HasShape(schema, s)
  {
    IsPath(schema, path) && HoldsSome(NodeAt(schema, s, path))
  }

  /** There is something to save exactly if a node somewhere has an override or an entry in quarantine. */
  lemma ContentIff(schema: Schema, s: State)
    requires HasShape(schema, s)
    ensures HasContent(schema, s) <==> exists path :: HoldsSomeAt(schema, s, path)
  {
    hide HasShape, HasContent;
    if HasContent(schema, s) {
      var path := ContentBelow(schema, s);
    }
    forall path | HoldsSomeAt(schema, s, path) ensures HasContent(schema, s) {
      HasContentOf(SchemaAt(schema, path), NodeAt(schema, s, path));
      ContentAbove(schema, s, path);
    }
  }

  lemma {:induction false} ContentAbove(schema: Schema, s: State, path: seq<string>)
    requires HasShape(schema, s) && IsPath(schema, path) && HasContent(SchemaAt(schema, path), NodeAt(schema, s, path))
    ensures HasContent(schema, s)
    decreases |path|
  {
    if path != [] {
      ContentAbove(schema.children[path[0]].schema, s.children[path[0]], path[1..]);
    }
  }

  lemma HasContentOf(schema: Schema, s: State)
    requires HasShape(schema, s) && HoldsSome(s)
    ensures HasContent(schema, s)
  {
  }

  lemma {:induction false} ContentBelow(schema: Schema, s: State) returns (path: seq<string>)
    requires HasShape(schema, s) && HasContent(schema, s)
    ensures HoldsSomeAt(schema, s, path)
    decreases schema
  {
    path := [];
    if !HoldsSome(s) {
      var k :| k in schema.children && HasContent(schema.children[k].schema, s.children[k]);
      var below := ContentBelow(schema.children[k].schema, s.children[k]);
      path := [k] + below;
      assert path[1..] == below;
    }
  }

  /** A file has an object for each node that has something to save, or for all. It holds the options that are
      overridden, or all, then the nodes below that have something to save, or all, and what else is in quarantine. */
  lemma {:induction false} SavedAt(schema: Schema, s: State, sparse: bool, path: seq<string>, k: string)
    requires IsSchema(schema) && HasShape(schema, s) && IsPath(schema, path)
    requires !sparse || path == [] || HasContent(SchemaAt(schema, path), NodeAt(schema, s, path))
    ensures FieldsAt(Save(schema, s, sparse), path).Some?
    ensures var (file, node) := (FieldsAt(Save(schema, s, sparse), path).value, NodeAt(schema, s, path));
      var (options, children) := (SchemaAt(schema, path).options, SchemaAt(schema, path).children);
      if k in options && (!sparse || k in node.overrides)
      then k in file && file[k] == Encode(options[k].codec, node.values[k])
      else if k in children && (!sparse || HasContent(children[k].schema, node.children[k]))
      then k in file && file[k].Object?
      else (k in file <==> k in node.quarantine) && (k in file ==> file[k] == node.quarantine[k])
    decreases |path|
  {
    hide Encode, Save, HasShape, HasContent;
    if path == [] {
      SavedHere(schema, s, sparse, k);
    } else {
      var child := schema.children[path[0]].schema;
      ShapeBelow(schema, s, path[0]);
      if sparse {
        ContentAbove(child, s.children[path[0]], path[1..]);
      }
      SavedAt(child, s.children[path[0]], sparse, path[1..], k);
      SavedBelow(schema, s, sparse, path[0]);
    }
  }

  lemma SavedHere(schema: Schema, s: State, sparse: bool, k: string)
    requires IsSchema(schema) && HasShape(schema, s)
    ensures var file := Save(schema, s, sparse);
      if k in schema.options && (!sparse || k in s.overrides)
      then k in file && file[k] == Encode(schema.options[k].codec, s.values[k])
      else if k in schema.children && (!sparse || HasContent(schema.children[k].schema, s.children[k]))
      then k in file && file[k].Object?
      else (k in file <==> k in s.quarantine) && (k in file ==> file[k] == s.quarantine[k])
  {
    hide Encode, HasContent;
  }

  lemma SavedBelow(schema: Schema, s: State, sparse: bool, k: string)
    requires IsSchema(schema) && HasShape(schema, s) && k in schema.children
    requires !sparse || HasContent(schema.children[k].schema, s.children[k])
    ensures k in Save(schema, s, sparse)
      && Save(schema, s, sparse)[k] == Object(Save(schema.children[k].schema, s.children[k], sparse))
  {
  }
}

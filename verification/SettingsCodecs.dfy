/** JSON values and the codecs of option values (src/plugin/src/Sleepy/Settings/codecs.cpp). */
module SettingsCodecs {
  import opened Wrappers

  datatype Json =
    | Null
    | Bool(b: bool)
    | Number(r: real)
    | String(s: string)
    | Array(items: seq<Json>)
    | Object(fields: map<string, Json>)

  /** An option value; lists and maps of variants are kept as the JSON they convert to. */
  datatype Value =
    | BoolValue(b: bool)
    | IntValue(i: int)
    | RealValue(r: real)
    | StringValue(s: string)
    | EnumValue(e: int)
    | ListValue(items: seq<Value>)
    | VariantList(variants: seq<Json>)
    | VariantMap(entries: map<string, Json>)

  datatype Enumerator = Enumerator(name: string, value: int)

  datatype Codec =
    | BoolCodec
    | IntCodec
    | RealCodec
    | StringCodec
    | EnumCodec(enumerators: seq<Enumerator>)
    | ListCodec(element: Codec)
    | VariantListCodec
    | VariantMapCodec

  const INT_MIN: int := -0x8000_0000
  const INT_MAX: int := 0x7FFF_FFFF

  /** Upper case letters to lower case, for comparing names. */
  function Fold(s: string): string {
    seq(|s|, i requires 0 <= i < |s| => if 'A' <= s[i] <= 'Z' then s[i] - 'A' + 'a' else s[i])
  }

  /** The first enumerator called `name`, up to case. */
  function FindName(enumerators: seq<Enumerator>, name: string): (r: nat)
    ensures r <= |enumerators|
    ensures r < |enumerators| ==> Fold(enumerators[r].name) == Fold(name)
    ensures forall i :: 0 <= i < r ==> Fold(enumerators[i].name) != Fold(name)
  {
    if enumerators == [] || Fold(enumerators[0].name) == Fold(name) then 0
    else FindName(enumerators[1..], name) + 1
  }

  /** The first enumerator with a value. */
  function FindValue(enumerators: seq<Enumerator>, value: int): (r: nat)
    ensures r <= |enumerators|
    ensures r < |enumerators| ==> enumerators[r].value == value
    ensures forall i :: 0 <= i < r ==> enumerators[i].value != value
  {
    if enumerators == [] || enumerators[0].value == value then 0
    else FindValue(enumerators[1..], value) + 1
  }

  function DecodeAll(codec: Codec, items: seq<Json>): (r: Option<seq<Value>>)
    ensures r.Some? ==>
      |r.value| == |items| && forall i :: 0 <= i < |items| ==> Decode(codec, items[i]) == Some(r.value[i])
    ensures r.None? ==> exists i :: 0 <= i < |items| && Decode(codec, items[i]).None?
    decreases codec, 1, |items|
  {
    if items == [] then Some([])
    else
      match Decode(codec, items[0])
      case None => None
      case Some(v) =>
        match DecodeAll(codec, items[1..])
        case None => None
        case Some(rest) => Some([v] + rest)
  }

  /** What a JSON value means for an option; nothing if it has the wrong type or is out of range. */
  function Decode(codec: Codec, json: Json): Option<Value>
    decreases codec, 0, 0
  {
    match codec
    case BoolCodec => if json.Bool? then Some(BoolValue(json.b)) else None
    case IntCodec =>
      if !json.Number? || json.r.Floor as real != json.r then None
      else if json.r.Floor < INT_MIN || json.r.Floor > INT_MAX then None
      else Some(IntValue(json.r.Floor))
    case RealCodec => if json.Number? then Some(RealValue(json.r)) else None
    case StringCodec => if json.String? then Some(StringValue(json.s)) else None
    case EnumCodec(enumerators) =>
      if !json.String? then None
      else
        var i := FindName(enumerators, json.s);
        if i == |enumerators| then None else Some(EnumValue(enumerators[i].value))
    case ListCodec(element) =>
      if !json.Array? then None
      else
        (match DecodeAll(element, json.items)
         case None => None
         case Some(items) => Some(ListValue(items)))
    case VariantListCodec => if json.Array? then Some(VariantList(json.items)) else None
    case VariantMapCodec => if json.Object? then Some(VariantMap(json.fields)) else None
  }

  /** Plain types take JSON of their own kind only, and whole numbers of 32 bits as integers. */
  lemma PlainDecodes(json: Json)
    ensures Decode(BoolCodec, json) == match json case Bool(b) => Some(BoolValue(b)) case _ => None
    ensures Decode(RealCodec, json) == match json case Number(r) => Some(RealValue(r)) case _ => None
    ensures Decode(StringCodec, json) == match json case String(s) => Some(StringValue(s)) case _ => None
    ensures Decode(VariantListCodec, json) == match json case Array(items) => Some(VariantList(items)) case _ => None
    ensures Decode(VariantMapCodec, json) == match json case Object(fields) => Some(VariantMap(fields)) case _ => None
  {
  }

  lemma IntDecodes(json: Json, i: int)
    ensures Decode(IntCodec, json) == Some(IntValue(i)) <==>
      json == Number(i as real) && -2147483648 <= i <= 2147483647
    ensures Decode(IntCodec, json).Some? <==>
      json.Number? && json.r.Floor as real == json.r && -2147483648.0 <= json.r <= 2147483647.0
  {
  }

  /** Names are compared letter by letter, up to the case of ASCII letters. */
  lemma FoldIs(s: string, t: string)
    ensures Fold(s) == Fold(t) <==> |s| == |t| && forall i :: 0 <= i < |s| ==>
      || s[i] == t[i] || ('A' <= s[i] <= 'Z' && t[i] == s[i] - 'A' + 'a')
      || ('A' <= t[i] <= 'Z' && s[i] == t[i] - 'A' + 'a')
  {
    if Fold(s) == Fold(t) {
      assert |s| == |Fold(s)| == |Fold(t)| == |t|;
      forall i | 0 <= i < |s|
        ensures || s[i] == t[i] || ('A' <= s[i] <= 'Z' && t[i] == s[i] - 'A' + 'a')
          || ('A' <= t[i] <= 'Z' && s[i] == t[i] - 'A' + 'a')
      {
        assert Fold(s)[i] == Fold(t)[i];
      }
    }
  }

  /** An enum takes the value of the first enumerator of that name up to case, and nothing else; a list is taken
      exactly if all its elements are, element by element. */
  lemma OthersDecode(json: Json, enumerators: seq<Enumerator>, k: nat, element: Codec)
    ensures Decode(EnumCodec(enumerators), json).Some? <==>
      json.String? && exists i :: 0 <= i < |enumerators| && Fold(enumerators[i].name) == Fold(json.s)
    ensures json.String? && k < |enumerators| && Fold(enumerators[k].name) == Fold(json.s) ==>
      (forall i :: 0 <= i < k ==> Fold(enumerators[i].name) != Fold(json.s)) ==>
      Decode(EnumCodec(enumerators), json) == Some(EnumValue(enumerators[k].value))
    ensures Decode(ListCodec(element), json).Some? <==>
      json.Array? && forall i :: 0 <= i < |json.items| ==> Decode(element, json.items[i]).Some?
    ensures Decode(ListCodec(element), json).Some? ==>
      var v := Decode(ListCodec(element), json).value;
      && v.ListValue? && |v.items| == |json.items|
      && forall i :: 0 <= i < |v.items| ==> Decode(element, json.items[i]) == Some(v.items[i])
  {
  }

  function EncodeAll(codec: Codec, items: seq<Value>): (r: seq<Json>)
    ensures |r| == |items|
    decreases codec, 1, |items|
  {
    if items == [] then [] else [Encode(codec, items[0])] + EncodeAll(codec, items[1..])
  }

  /** The JSON an option value is saved as; null if it is no value of the type. */
  function Encode(codec: Codec, value: Value): Json
    decreases codec, 0, 0
  {
    match codec
    case BoolCodec => if value.BoolValue? then Bool(value.b) else Null
    case IntCodec => if value.IntValue? then Number(value.i as real) else Null
    case RealCodec => if value.RealValue? then Number(value.r) else Null
    case StringCodec => if value.StringValue? then String(value.s) else Null
    case EnumCodec(enumerators) =>
      if !value.EnumValue? then Null
      else
        var i := FindValue(enumerators, value.e);
        if i == |enumerators| then Null else String(enumerators[i].name)
    case ListCodec(element) => if value.ListValue? then Array(EncodeAll(element, value.items)) else Null
    case VariantListCodec => if value.VariantList? then Array(value.variants) else Null
    case VariantMapCodec => if value.VariantMap? then Object(value.entries) else Null
  }

  /** Values are saved as JSON of the same kind, enums as the name of the first enumerator with that value. */
  lemma Encodes(b: bool, i: int, r: real, s: string, json: Json, enumerators: seq<Enumerator>, k: nat)
    ensures Encode(BoolCodec, BoolValue(b)) == Bool(b) && Encode(IntCodec, IntValue(i)) == Number(i as real)
    ensures Encode(RealCodec, RealValue(r)) == Number(r) && Encode(StringCodec, StringValue(s)) == String(s)
    ensures json.Array? ==> Encode(VariantListCodec, VariantList(json.items)) == json
    ensures json.Object? ==> Encode(VariantMapCodec, VariantMap(json.fields)) == json
    ensures k < |enumerators| && (forall j :: 0 <= j < k ==> enumerators[j].value != enumerators[k].value) ==>
      Encode(EnumCodec(enumerators), EnumValue(enumerators[k].value)) == String(enumerators[k].name)
  {
  }

  /** The values an option of the codec's type can take. */
  ghost predicate HasType(codec: Codec, value: Value)
    decreases codec, 0, 0
  {
    match codec
    case BoolCodec => value.BoolValue?
    case IntCodec => value.IntValue? && INT_MIN <= value.i <= INT_MAX
    case RealCodec => value.RealValue?
    case StringCodec => value.StringValue?
    case EnumCodec(enumerators) => value.EnumValue? && FindValue(enumerators, value.e) < |enumerators|
    case ListCodec(element) => value.ListValue?
      && forall i :: 0 <= i < |value.items| ==> HasType(element, value.items[i])
    case VariantListCodec => value.VariantList?
    case VariantMapCodec => value.VariantMap?
  }

  /** No enumerator whose name a value is saved under is shadowed: the first one spelt the same up to case has the
      same value. */
  ghost predicate IsUnshadowed(enumerators: seq<Enumerator>) {
    forall k :: 0 <= k < |enumerators| && FindValue(enumerators, enumerators[k].value) == k ==>
      enumerators[FindName(enumerators, enumerators[k].name)].value == enumerators[k].value
  }

  ghost predicate IsFaithful(codec: Codec) {
    match codec
    case EnumCodec(enumerators) => IsUnshadowed(enumerators)
    case ListCodec(element) => IsFaithful(element)
    case _ => true
  }

  lemma {:induction false} DecodedHasType(codec: Codec, json: Json)
    ensures Decode(codec, json).Some? ==> HasType(codec, Decode(codec, json).value)
    decreases codec, 0, 0
  {
    if Decode(codec, json).Some? {
      match codec
      case EnumCodec(enumerators) =>
        assert enumerators[FindName(enumerators, json.s)].value == Decode(codec, json).value.e;
      case ListCodec(element) =>
        var items := DecodeAll(element, json.items).value;
        forall i | 0 <= i < |items| ensures HasType(element, items[i]) {
          DecodedHasType(element, json.items[i]);
        }
      case _ =>
    }
  }

  /** Every value of a type survives saving and loading if no saved name is shadowed. */
  lemma {:induction false} EncodeInverts(codec: Codec, value: Value)
    requires IsFaithful(codec) && HasType(codec, value)
    ensures Decode(codec, Encode(codec, value)) == Some(value)
    decreases codec, 0, 0
  {
    match codec
    case IntCodec => assert (value.i as real).Floor == value.i;
    case EnumCodec(enumerators) => assert enumerators[FindValue(enumerators, value.e)].value == value.e;
    case ListCodec(element) => EncodeAllInverts(element, value.items);
    case _ =>
  }

  lemma {:induction false} EncodeAllInverts(codec: Codec, items: seq<Value>)
    requires IsFaithful(codec) && forall i :: 0 <= i < |items| ==> HasType(codec, items[i])
    ensures DecodeAll(codec, EncodeAll(codec, items)) == Some(items)
    decreases codec, 1, |items|
  {
    hide Decode, Encode, HasType, IsFaithful;
    if items != [] {
      EncodeInverts(codec, items[0]);
      EncodeAllInverts(codec, items[1..]);
      var saved := EncodeAll(codec, items);
      assert saved[0] == Encode(codec, items[0]) && saved[1..] == EncodeAll(codec, items[1..]);
      assert [items[0]] + items[1..] == items;
    }
  }

  /** For an enum the condition is exact: if a saved name is shadowed, its value comes back as another one. */
  lemma UnshadowedIffRoundTrip(enumerators: seq<Enumerator>)
    ensures IsUnshadowed(enumerators) <==> forall value :: HasType(EnumCodec(enumerators), value) ==>
      IsInverted(EnumCodec(enumerators), value)
  {
    FaithfulIffRoundTrip(EnumCodec(enumerators));
  }

  ghost predicate IsInverted(codec: Codec, value: Value) {
    Decode(codec, Encode(codec, value)) == Some(value)
  }

  /** And so it is for every type. */
  lemma FaithfulIffRoundTrip(codec: Codec)
    ensures IsFaithful(codec) <==> forall value :: HasType(codec, value) ==> IsInverted(codec, value)
  {
    if IsFaithful(codec) {
      forall value | HasType(codec, value) ensures IsInverted(codec, value) {
        EncodeInverts(codec, value);
      }
    } else {
      var value := LostValue(codec);
      assert !IsInverted(codec, value);
    }
  }

  lemma {:induction false} LostValue(codec: Codec) returns (value: Value)
    requires !IsFaithful(codec)
    ensures HasType(codec, value) && Decode(codec, Encode(codec, value)) != Some(value)
    decreases codec
  {
    match codec
    case EnumCodec(enumerators) =>
      var k :| 0 <= k < |enumerators| && FindValue(enumerators, enumerators[k].value) == k
        && enumerators[FindName(enumerators, enumerators[k].name)].value != enumerators[k].value;
      value := EnumValue(enumerators[k].value);
    case ListCodec(element) =>
      var item := LostValue(element);
      value := ListValue([item]);
      assert EncodeAll(element, [item]) == [Encode(element, item)];
  }

  // --- What was loaded, saved and loaded again ---

  /** Values that come from a file are fewer: of two enumerators spelt the same up to case only the first is ever found.
      Those values need a name that is found again. */
  ghost predicate Reencodes(enumerators: seq<Enumerator>) {
    forall i :: 0 <= i < |enumerators| && FindName(enumerators, enumerators[i].name) == i ==>
      var saved := enumerators[FindValue(enumerators, enumerators[i].value)].name;
      enumerators[FindName(enumerators, saved)].value == enumerators[i].value
  }

  ghost predicate IsStable(codec: Codec) {
    match codec
    case EnumCodec(enumerators) => Reencodes(enumerators)
    case ListCodec(element) => IsStable(element)
    case _ => true
  }

  ghost predicate Survives(codec: Codec, json: Json) {
    Decode(codec, json).Some? ==> Decode(codec, Encode(codec, Decode(codec, json).value)) == Decode(codec, json)
  }

  /** What was decoded and saved decodes to the same value again. */
  lemma {:induction false} ReencodeDecodes(codec: Codec, json: Json)
    requires IsStable(codec)
    ensures Survives(codec, json)
    decreases codec, 0, 0
  {
    if Decode(codec, json).Some? {
      match codec
      case EnumCodec(enumerators) =>
        var i := FindName(enumerators, json.s);
        assert FindName(enumerators, enumerators[i].name) == i;
      case ListCodec(element) =>
        ReencodeAll(element, json.items);
      case _ =>
        DecodedHasType(codec, json);
        EncodeInverts(codec, Decode(codec, json).value);
    }
  }

  lemma {:induction false} ReencodeAll(codec: Codec, items: seq<Json>)
    requires IsStable(codec)
    ensures var all := DecodeAll(codec, items); all.Some? ==> DecodeAll(codec, EncodeAll(codec, all.value)) == all
    decreases codec, 1, |items|
  {
    hide Decode, Encode, IsStable;
    if items != [] && DecodeAll(codec, items).Some? {
      var values := DecodeAll(codec, items).value;
      ReencodeDecodes(codec, items[0]);
      ReencodeAll(codec, items[1..]);
      assert values[1..] == DecodeAll(codec, items[1..]).value;
      var saved := EncodeAll(codec, values);
      assert saved[0] == Encode(codec, values[0]) && saved[1..] == EncodeAll(codec, values[1..]);
    }
  }

  /** Otherwise some JSON does not. */
  lemma {:induction false} LostJson(codec: Codec) returns (json: Json)
    requires !IsStable(codec)
    ensures !Survives(codec, json)
    decreases codec
  {
    match codec
    case EnumCodec(enumerators) =>
      var i :| 0 <= i < |enumerators| && FindName(enumerators, enumerators[i].name) == i
        && var saved := enumerators[FindValue(enumerators, enumerators[i].value)].name;
           enumerators[FindName(enumerators, saved)].value != enumerators[i].value;
      json := String(enumerators[i].name);
    case ListCodec(element) =>
      var item := LostJson(element);
      var value := Decode(element, item).value;
      json := Array([item]);
      SingleItem(element, item, value);
      assert Encode(codec, ListValue([value])) == Array([Encode(element, value)]);
      assert DecodeAll(element, [Encode(element, value)]) != Some([value]);
  }

  lemma SingleItem(codec: Codec, item: Json, value: Value)
    requires Decode(codec, item) == Some(value)
    ensures DecodeAll(codec, [item]) == Some([value]) && EncodeAll(codec, [value]) == [Encode(codec, value)]
  {
    hide Decode, Encode;
    var all := DecodeAll(codec, [item]);
    assert all.Some? ==> all.value == [value];
    assert [value][1..] == [] && EncodeAll(codec, []) == [];
  }

  lemma StableIffReencodes(codec: Codec)
    ensures IsStable(codec) <==> forall json :: Survives(codec, json)
  {
    if IsStable(codec) {
      forall json ensures Survives(codec, json) {
        ReencodeDecodes(codec, json);
      }
    } else {
      var json := LostJson(codec);
    }
  }

  // --- Two enums ---

  /** Two names that differ only in case, and a third one for the value of the second. */
  const TWINS := [Enumerator("A", 1), Enumerator("a", 2)]
  const TRIPLET := TWINS + [Enumerator("b", 2)]

  /** Of the twins the second is shadowed, but no file ever means it. */
  lemma TwinsAreStable()
    ensures !IsUnshadowed(TWINS) && Reencodes(TWINS)
  {
    TwinNames(TWINS);
    assert FindValue(TWINS, 2) == 1;
  }

  /** The third name means the value of the second, is saved as that and comes back as the first. */
  lemma TripletIsLost()
    ensures Decode(EnumCodec(TRIPLET), String("b")) == Some(EnumValue(2))
    ensures Encode(EnumCodec(TRIPLET), EnumValue(2)) == String("a")
    ensures Decode(EnumCodec(TRIPLET), String("a")) == Some(EnumValue(1))
    ensures !Reencodes(TRIPLET)
  {
    TwinNames(TRIPLET);
    assert FindValue(TRIPLET, 2) == 1;
    assert TRIPLET[2].name == "b" && FindName(TRIPLET, TRIPLET[2].name) == 2;
  }

  lemma TwinNames(enumerators: seq<Enumerator>)
    requires enumerators == TWINS || enumerators == TRIPLET
    ensures FindName(enumerators, "A") == FindName(enumerators, "a") == 0
    ensures |enumerators| == 3 ==> FindName(enumerators, "b") == 2
  {
    assert Fold("A") == Fold("a") == "a" && Fold("b") == "b" && "a"[0] != "b"[0];
    assert Fold(enumerators[0].name) == Fold(enumerators[1].name) == "a";
    assert |enumerators| == 3 ==> Fold(enumerators[2].name) == "b";
  }

  /** The search for an enumerator by name. */
  method DecodeEnum(enumerators: seq<Enumerator>, json: Json) returns (r: Option<Value>)
    ensures r == Decode(EnumCodec(enumerators), json)
  {
    if !json.String? {
      return None;
    }
    var i := 0;
    while i < |enumerators|
      invariant 0 <= i <= FindName(enumerators, json.s)
    {
      if Fold(enumerators[i].name) != Fold(json.s) {
        i := i + 1;
        continue;
      }
      return Some(EnumValue(enumerators[i].value));
    }
    return None;
  }

  /** A list is taken whole or not at all. */
  method DecodeList(element: Codec, json: Json) returns (r: Option<Value>)
    ensures r == Decode(ListCodec(element), json)
  {
    if !json.Array? {
      return None;
    }
    var items, list, i := json.items, [], 0;
    while i < |items|
      invariant i == |list| <= |items|
      invariant forall k :: 0 <= k < i ==> Decode(element, items[k]) == Some(list[k])
    {
      var result := Decode(element, items[i]);
      if result.None? {
        return None;
      }
      list := list + [result.value];
      i := i + 1;
    }
    assert DecodeAll(element, items).Some? && DecodeAll(element, items).value == list;
    return Some(ListValue(list));
  }
}

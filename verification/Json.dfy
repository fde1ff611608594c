/** `JsonValue` and `JsonSerializer`. */
module Json {
  import opened SortedEntries
  import opened Text
  import opened Decimal

  /** A value keeps its number as text. The members of an object are the contents of a map
      with string keys, in key order. */
  datatype Value =
    | Null
    | Boolean(b: bool)
    | Number(text: string)
    | String(s: string)
    | Array(items: seq<Value>)
    | Object(members: seq<Member>)
  {
    /** `JsonValue::append`: arrays grow, every other value is left alone. */
    function Append(v: Value): Value {
      if Array? then Array(items + [v]) else this
    }

    /** `JsonValue::set`: objects get the member, every other value is left alone. */
    function Set(key: string, v: Value): Value {
      if Object? then Object(Put(StrLess, members, Pair(key, v))) else this
    }
  }

  type Member = Pair<string, Value>

  /** `set` is an update of the map of an object, also of a key it has, and `append` adds an
      element at the end of an array; on any other value they do nothing. */
  lemma ChangesOfValues(v: Value, key: string, w: Value)
    requires v.Object? ==> Sorted(StrLess, v.members)
    ensures v.Object? ==> v.Set(key, w).Object? && MapOf(v.Set(key, w).members) == MapOf(v.members)[key := w]
    ensures v.Array? ==> v.Append(w).Array? && |v.Append(w).items| == |v.items| + 1
                         && v.items < v.Append(w).items && v.Append(w).items[|v.items|] == w
    ensures !v.Object? ==> v.Set(key, w) == v
    ensures !v.Array? ==> v.Append(w) == v
  {
    if v.Object? {
      StrLessIsTotalOrder();
      PutIsMapUpdate(StrLess, v.members, Pair(key, w));
    }
  }

  /** A value the program can hold: C strings without NUL and with a right length field, which
      the loops over them run up to, numbers whose text `stoi` reads without overflow, object
      members as a map keeps them. */
  ghost predicate Representable(v: Value) {
    match v
    case Null => true
    case Boolean(_) => true
    case Number(text) => '\0' !in text && StoiMagnitude(text) < 0x8000_0000
    case String(s) => '\0' !in s
    case Array(items) => forall i :: 0 <= i < |items| ==> Representable(items[i])
    case Object(members) =>
      && Sorted(StrLess, members)
      && forall i :: 0 <= i < |members| ==> '\0' !in members[i].key && Representable(members[i].value)
  }

  // ----- the text of a value -----

  function Escape(s: string): string {
    if s == [] then []
    else (if s[0] == '"' || s[0] == '\\' then ['\\', s[0]] else [s[0]]) + Escape(s[1..])
  }

  function Quoted(s: string): string {
    "\"" + Escape(s) + "\""
  }

  function Serialized(v: Value): string
    decreases v, 0
  {
    match v
    case Null => "null"
    case Boolean(b) => if b then "true" else "false"
    case Number(text) => ToString(StoiValue(text))
    case String(s) => Quoted(s)
    case Array(items) => "[" + SerializedItems(items, true) + "]"
    case Object(members) => "{" + SerializedMembers(members, true) + "}"
  }

  function Separator(first: bool): string {
    if first then "" else ","
  }

  function SerializedItems(items: seq<Value>, first: bool): string
    decreases items, 1
  {
    if items == [] then [] else Separator(first) + Serialized(items[0]) + SerializedItems(items[1..], false)
  }

  function SerializedMember(m: Member): string
    decreases m, 1
  {
    Quoted(m.key) + ":" + Serialized(m.value)
  }

  function SerializedMembers(members: seq<Member>, first: bool): string
    decreases members, 2
  {
    if members == [] then []
    else Separator(first) + SerializedMember(members[0]) + SerializedMembers(members[1..], false)
  }

  /** Writing a list element by element. */
  lemma ItemsFrom(before: string, items: seq<Value>, i: nat, first: bool)
    requires i < |items|
    ensures before + SerializedItems(items[i..], first) ==
              before + Separator(first) + Serialized(items[i]) + SerializedItems(items[i + 1..], false)
  {
    assert items[i..][1..] == items[i + 1..];
  }

  lemma MembersFrom(before: string, members: seq<Member>, i: nat, first: bool)
    requires i < |members|
    ensures before + SerializedMembers(members[i..], first) ==
              before + Separator(first) + SerializedMember(members[i]) + SerializedMembers(members[i + 1..], false)
  {
    assert members[i..][1..] == members[i + 1..];
  }

  // ----- JsonSerializer -----

  method SerializeString(s: string) returns (result: string)
    ensures result == Quoted(s)
  {
    result := "\"";
    var i := 0;
    while i < |s|
      invariant 0 <= i <= |s| && result + Escape(s[i..]) == "\"" + Escape(s)
    {
      if s[i] == '"' || s[i] == '\\' {
        result := result + ['\\'];
      }
      result := result + [s[i]];
      i := i + 1;
    }
    result := result + "\"";
  }

  method SerializeValue(v: Value) returns (result: string)
    requires Representable(v)
    ensures result == Serialized(v)
    decreases v, 2
  {
    match v {
      case Null => result := "null";
      case Boolean(b) => result := if b then "true" else "false";
      case Number(text) =>
        var n := Stoi(text);
        result := ToString(n as int);
      case String(s) => result := SerializeString(s);
      case Array(items) => result := SerializeArray(items);
      case Object(members) => result := SerializeObject(members);
    }
  }

  method SerializeArray(items: seq<Value>) returns (result: string)
    requires Representable(Array(items))
    ensures result == Serialized(Array(items))
    decreases items, 1
  {
    result := "[";
    var first := true;
    for i := 0 to |items|
      invariant first == (i == 0)
      invariant result + SerializedItems(items[i..], first) == "[" + SerializedItems(items, true)
    {
      ItemsFrom(result, items, i, first);
      assert first ==> result + "" == result;
      if !first {
        result := result + ",";
      }
      var text := SerializeValue(items[i]);
      result := result + text;
      first := false;
    }
    assert result + [] == result;
    result := result + "]";
  }

  method SerializeObject(members: seq<Member>) returns (result: string)
    requires Representable(Object(members))
    ensures result == Serialized(Object(members))
    decreases members, 1
  {
    result := "{";
    var first := true;
    for i := 0 to |members|
      invariant first == (i == 0)
      invariant result + SerializedMembers(members[i..], first) == "{" + SerializedMembers(members, true)
    {
      MembersFrom(result, members, i, first);
      assert first ==> result + "" == result;
      if !first {
        result := result + ",";
      }
      var text := SerializeMember(members[i]);
      result := result + text;
      first := false;
    }
    assert result + [] == result;
    result := result + "}";
  }

  method SerializeMember(pair: Member) returns (result: string)
    requires '\0' !in pair.key && Representable(pair.value)
    ensures result == SerializedMember(pair)
    decreases pair, 3
  {
    result := SerializeString(pair.key);
    result := result + ":";
    var text := SerializeValue(pair.value);
    result := result + text;
  }
}

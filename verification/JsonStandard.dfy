/** Which texts the serializer writes are texts of RFC 8259, and what they stand for. */
module JsonStandard {
  import opened SortedEntries
  import opened Text
  import opened Decimal
  import opened Json
  import G = JsonGrammar

  /** The code units of a string. */
  function Units(s: string): seq<int> {
    if s == [] then [] else [s[0] as int] + Units(s[1..])
  }

  /** What a value is, in the terms of the standard. */
  function DocumentOf(v: Value): G.Document
    decreases v, 0
  {
    match v
    case Null => G.NullDoc
    case Boolean(b) => G.BoolDoc(b)
    case Number(text) => G.NumberDoc(ToString(StoiValue(text)))
    case String(s) => G.StringDoc(Units(s))
    case Array(items) => G.ArrayDoc(DocumentsOf(items))
    case Object(members) => G.ObjectDoc(MembersOf(members))
  }

  function DocumentsOf(items: seq<Value>): seq<G.Document>
    decreases items, 1
  {
    if items == [] then [] else [DocumentOf(items[0])] + DocumentsOf(items[1..])
  }

  function MemberOf(m: Member): (seq<int>, G.Document)
    decreases m, 1
  {
    (Units(m.key), DocumentOf(m.value))
  }

  function MembersOf(members: seq<Member>): seq<(seq<int>, G.Document)>
    decreases members, 2
  {
    if members == [] then [] else [MemberOf(members[0])] + MembersOf(members[1..])
  }

  /** No control character, which the standard wants escaped and the serializer writes as it is. */
  predicate Plain(s: string) {
    forall c :: c in s ==> c as int >= 0x20
  }

  ghost predicate Clean(v: Value)
    decreases v, 0
  {
    match v
    case Null => true
    case Boolean(_) => true
    case Number(_) => true
    case String(s) => Plain(s)
    case Array(items) => AllClean(items)
    case Object(members) => AllMembersClean(members)
  }

  ghost predicate AllClean(items: seq<Value>)
    decreases items, 1
  {
    forall i :: 0 <= i < |items| ==> Clean(items[i])
  }

  ghost predicate AllMembersClean(members: seq<Member>)
    decreases members, 2
  {
    forall i :: 0 <= i < |members| ==> MemberClean(members[i])
  }

  ghost predicate MemberClean(m: Member)
    decreases m, 1
  {
    Plain(m.key) && Clean(m.value)
  }

  /** What can stand behind a value without prolonging it. */
  predicate Ends(rest: string) {
    rest == [] || rest[0] == ',' || rest[0] == ']' || rest[0] == '}'
  }

  // ----- strings -----

  lemma Shift(a: string, b: string)
    requires a != []
    ensures (a + b)[0] == a[0] && (a + b)[1..] == a[1..] + b
  {
  }

  lemma OneCharacter(c: char, w: string)
    requires c != '"' && c != '\\'
    ensures G.Characters([c] + w) == if c as int < 0x20 then G.Fails else G.Prefixed(c as int, G.Characters(w))
  {
    Shift([c], w);
  }

  lemma OneEscape(c: char, w: string)
    requires c == '"' || c == '\\'
    ensures G.Characters(['\\', c] + w) == G.Prefixed(c as int, G.Characters(w))
  {
    assert (['\\', c] + w)[2..] == w;
  }

  lemma {:induction false} CharactersOf(s: string, rest: string)
    ensures G.Characters(Escape(s) + ("\"" + rest)) == if Plain(s) then G.Reads(Units(s), rest) else G.Fails
  {
    var tail := "\"" + rest;
    if s == [] {
      assert Escape(s) + tail == tail;
      ClosingQuote(rest);
    } else {
      var w := Escape(s[1..]) + tail;
      CharactersOf(s[1..], rest);
      PlainParts(s);
      EscapeStep(s, tail);
      if s[0] == '"' || s[0] == '\\' {
        OneEscape(s[0], w);
      } else {
        OneCharacter(s[0], w);
      }
    }
  }

  lemma ClosingQuote(rest: string)
    ensures G.Characters("\"" + rest) == G.Reads([], rest)
  {
    Shift("\"", rest);
  }

  lemma EscapeStep(s: string, tail: string)
    requires s != []
    ensures Escape(s) + tail ==
              (if s[0] == '"' || s[0] == '\\' then ['\\', s[0]] else [s[0]]) + (Escape(s[1..]) + tail)
  {
  }

  lemma PlainParts(s: string)
    requires s != []
    ensures Plain(s) <==> s[0] as int >= 0x20 && Plain(s[1..])
  {
    if s[0] as int >= 0x20 && Plain(s[1..]) {
      forall c | c in s ensures c as int >= 0x20 {
        assert c == s[0] || c in s[1..];
      }
    }
    if Plain(s) {
      assert s[0] in s;
      forall c | c in s[1..] ensures c as int >= 0x20 {
        assert c in s;
      }
    }
  }

  // ----- numbers -----

  lemma {:induction false} RunOf(d: string, rest: string)
    requires (forall c :: c in d ==> G.IsDigit(c)) && (rest == [] || !G.IsDigit(rest[0]))
    ensures G.DigitRun(d + rest) == |d|
  {
    if d == [] {
      assert d + rest == rest;
    } else {
      Shift(d, rest);
      RunOf(d[1..], rest);
    }
  }

  lemma WholePart(n: nat, rest: string)
    requires Ends(rest)
    ensures G.IntLength(Digits(n) + rest) == |Digits(n)|
    ensures G.FractionLength(rest) == 0 && G.ExponentLength(rest) == 0
  {
    var d := Digits(n);
    Shift(d, rest);
    RunOf(d, rest);
    if n > 0 {
      NoLeadingZero(n);
    }
  }

  lemma NumberOf(n: int, rest: string)
    requires Ends(rest)
    ensures G.Number(ToString(n) + rest) == G.Reads(G.NumberDoc(ToString(n)), rest)
  {
    if n < 0 {
      NegativeOf(-n, rest, ToString(n));
    } else {
      PositiveOf(n, rest, ToString(n));
    }
  }

  lemma NegativeOf(m: nat, rest: string, text: string)
    requires Ends(rest) && text == "-" + Digits(m)
    ensures G.Number(text + rest) == G.Reads(G.NumberDoc(text), rest)
  {
    WholePart(m, rest);
    NegativeNumber(Digits(m), rest);
    assert text + rest == "-" + (Digits(m) + rest);
  }

  lemma PositiveOf(m: nat, rest: string, text: string)
    requires Ends(rest) && text == Digits(m)
    ensures G.Number(text + rest) == G.Reads(G.NumberDoc(text), rest)
  {
    WholePart(m, rest);
    assert Digits(m)[0] in Digits(m);
    PositiveNumber(text, rest);
  }

  lemma PositiveNumber(d: string, rest: string)
    requires d != [] && d[0] != '-'
    requires G.IntLength(d + rest) == |d| && G.FractionLength(rest) == 0 && G.ExponentLength(rest) == 0
    ensures G.Number(d + rest) == G.Reads(G.NumberDoc(d), rest)
  {
    var t := d + rest;
    assert t[0..] == t && t[|d|..] == rest && t[..|d|] == d && t[0] == d[0];
  }

  lemma NegativeNumber(d: string, rest: string)
    requires d != []
    requires G.IntLength(d + rest) == |d| && G.FractionLength(rest) == 0 && G.ExponentLength(rest) == 0
    ensures G.Number("-" + (d + rest)) == G.Reads(G.NumberDoc("-" + d), rest)
  {
    var t := "-" + (d + rest);
    assert t[1..] == d + rest && t[1 + |d|..] == rest && t[..1 + |d|] == "-" + d;
  }

  // ----- values -----

  lemma NumberStarts(n: int)
    ensures ToString(n) != [] && (ToString(n)[0] == '-' || IsDigit(ToString(n)[0]))
  {
  }

  lemma WordRead(v: Value, rest: string)
    requires v.Null? || v.Boolean?
    ensures G.Value(Serialized(v) + rest) == G.Reads(DocumentOf(v), rest)
  {
    assert ("null" + rest)[4..] == rest && ("true" + rest)[4..] == rest && ("false" + rest)[5..] == rest;
  }

  lemma NumberRead(n: int, rest: string)
    requires Ends(rest)
    ensures G.Value(ToString(n) + rest) == G.Reads(G.NumberDoc(ToString(n)), rest)
  {
    NumberStarts(n);
    Shift(ToString(n), rest);
    NumberOf(n, rest);
  }

  lemma StringRead(s: string, rest: string)
    ensures G.Value(Quoted(s) + rest) == if Plain(s) then G.Reads(G.StringDoc(Units(s)), rest) else G.Fails
  {
    CharactersOf(s, rest);
    QuotedRead(Escape(s) + ("\"" + rest));
    assert Quoted(s) + rest == "\"" + (Escape(s) + ("\"" + rest));
  }

  lemma QuotedRead(w: string)
    ensures G.Value("\"" + w) == match G.Characters(w)
                                 case Fails => G.Fails
                                 case Reads(units, rest) => G.Reads(G.StringDoc(units), rest)
  {
    Shift("\"", w);
  }

  /** A value is read to its end and stands for what it is, exactly when it has no control character. */
  lemma {:induction false} ValueOf(v: Value, rest: string)
    requires Ends(rest)
    ensures G.Value(Serialized(v) + rest) == if Clean(v) then G.Reads(DocumentOf(v), rest) else G.Fails
    decreases v, 0
  {
    match v
    case Null => WordRead(v, rest);
    case Boolean(b) => WordRead(v, rest);
    case Number(text) => NumberRead(StoiValue(text), rest);
    case String(s) => StringRead(s, rest);
    case Array(items) => ArrayOf(items, rest);
    case Object(members) => ObjectOf(members, rest);
  }

  /** A text that begins with no white space is not shortened. */
  lemma NoSkip(t: string)
    requires t == [] || !G.IsSpace(t[0])
    ensures G.Skip(t) == t
  {
  }

  lemma ValueStarts(v: Value)
    ensures Serialized(v) != [] && !G.IsSpace(Serialized(v)[0]) && Serialized(v)[0] != ']'
  {
    if v.Number? {
      NumberStarts(StoiValue(v.text));
    }
  }

  /** An array behind its opening bracket. */
  lemma ArrayRead(t: string)
    requires t == [] || !G.IsSpace(t[0])
    ensures t != [] && t[0] == ']' ==> G.Value("[" + t) == G.Reads(G.ArrayDoc([]), t[1..])
    ensures !(t != [] && t[0] == ']') ==>
              G.Value("[" + t) == match G.Items(t)
                                  case Fails => G.Fails
                                  case Reads(items, rest) => G.Reads(G.ArrayDoc(items), rest)
  {
    NoSkip(t);
    Shift("[", t);
    ArrayBehind("[" + t, t);
  }

  lemma ArrayBehind(all: string, t: string)
    requires all != [] && all[0] == '[' && G.Skip(all[1..]) == t
    ensures G.Value(all) ==
              if t != [] && t[0] == ']' then G.Reads(G.ArrayDoc([]), t[1..])
              else match G.Items(t)
                case Fails => G.Fails
                case Reads(items, rest) => G.Reads(G.ArrayDoc(items), rest)
  {
  }

  lemma {:induction false} ArrayOf(items: seq<Value>, rest: string)
    ensures G.Value(Serialized(Array(items)) + rest) ==
              if AllClean(items) then G.Reads(G.ArrayDoc(DocumentsOf(items)), rest) else G.Fails
    decreases items, 2
  {
    var inner, end := SerializedItems(items, true), "]" + rest;
    assert Serialized(Array(items)) + rest == "[" + (inner + end);
    if items == [] {
      assert inner + end == end && end[0] == ']' && end[1..] == rest;
      ArrayRead(end);
    } else {
      ItemsOf(items, rest);
      ItemsStart(items, end);
      ArrayRead(inner + end);
    }
  }

  lemma ItemsStart(items: seq<Value>, end: string)
    requires items != []
    ensures var t := SerializedItems(items, true) + end;
            t == Serialized(items[0]) + (SerializedItems(items[1..], false) + end)
            && t != [] && !G.IsSpace(t[0]) && t[0] != ']'
  {
    ValueStarts(items[0]);
    var first, others := Serialized(items[0]), SerializedItems(items[1..], false);
    FirstItem(items);
    assert (first + others) + end == first + (others + end);
    Shift(first, others + end);
  }

  lemma FirstItem(items: seq<Value>)
    requires items != []
    ensures SerializedItems(items, true) == Serialized(items[0]) + SerializedItems(items[1..], false)
  {
    assert "" + Serialized(items[0]) == Serialized(items[0]);
  }

  lemma CommaFirst(items: seq<Value>)
    requires items != []
    ensures SerializedItems(items, false) == "," + SerializedItems(items, true)
  {
    var first, others := Serialized(items[0]), SerializedItems(items[1..], false);
    assert "," + first + others == "," + ("" + first + others);
  }

  /** What stands behind the first of some elements: the closing bracket, or a comma and the others. */
  lemma ItemsBehind(items: seq<Value>, rest: string)
    requires items != []
    ensures var u := SerializedItems(items[1..], false) + ("]" + rest);
            && u != [] && Ends(u) && G.Skip(u) == u && u[0] == (if |items| == 1 then ']' else ',')
            && u[1..] == if |items| == 1 then rest else SerializedItems(items[1..], true) + ("]" + rest)
  {
    var others, end := items[1..], "]" + rest;
    var u := SerializedItems(others, false) + end;
    if others == [] {
      assert u == end && end[1..] == rest;
    } else {
      CommaFirst(others);
      assert u == "," + (SerializedItems(others, true) + end);
      Shift(",", SerializedItems(others, true) + end);
    }
    NoSkip(u);
  }

  lemma {:induction false} ItemsOf(items: seq<Value>, rest: string)
    requires items != []
    ensures G.Items(SerializedItems(items, true) + ("]" + rest)) ==
              if AllClean(items) then G.Reads(DocumentsOf(items), rest) else G.Fails
    decreases items, 1
  {
    var end, others := "]" + rest, items[1..];
    var u := SerializedItems(others, false) + end;
    ItemsStart(items, end);
    ItemsBehind(items, rest);
    ValueOf(items[0], u);
    CleanParts(items);
    if others == [] {
      assert DocumentsOf(items) == [DocumentOf(items[0])];
    } else {
      ItemsOf(others, rest);
      ItemsStart(others, end);
      NoSkip(u[1..]);
    }
  }

  lemma CleanParts(items: seq<Value>)
    requires items != []
    ensures AllClean(items) <==> Clean(items[0]) && AllClean(items[1..])
  {
    assert forall i :: 0 < i < |items| ==> items[i] == items[1..][i - 1];
    if AllClean(items[1..]) && Clean(items[0]) {
      forall i | 0 <= i < |items| ensures Clean(items[i]) {
        assert i > 0 ==> Clean(items[1..][i - 1]);
      }
    }
  }

  /** An object behind its opening brace. */
  lemma ObjectRead(t: string)
    requires t == [] || !G.IsSpace(t[0])
    ensures t != [] && t[0] == '}' ==> G.Value("{" + t) == G.Reads(G.ObjectDoc([]), t[1..])
    ensures !(t != [] && t[0] == '}') ==>
              G.Value("{" + t) == match G.Members(t)
                                  case Fails => G.Fails
                                  case Reads(members, rest) => G.Reads(G.ObjectDoc(members), rest)
  {
    NoSkip(t);
    Shift("{", t);
    ObjectBehind("{" + t, t);
  }

  lemma ObjectBehind(all: string, t: string)
    requires all != [] && all[0] == '{' && G.Skip(all[1..]) == t
    ensures G.Value(all) ==
              if t != [] && t[0] == '}' then G.Reads(G.ObjectDoc([]), t[1..])
              else match G.Members(t)
                case Fails => G.Fails
                case Reads(members, rest) => G.Reads(G.ObjectDoc(members), rest)
  {
  }

  lemma {:induction false} ObjectOf(members: seq<Member>, rest: string)
    ensures G.Value(Serialized(Object(members)) + rest) ==
              if AllMembersClean(members) then G.Reads(G.ObjectDoc(MembersOf(members)), rest) else G.Fails
    decreases members, 3
  {
    var inner, end := SerializedMembers(members, true), "}" + rest;
    assert Serialized(Object(members)) + rest == "{" + (inner + end);
    if members == [] {
      assert inner + end == end && end[0] == '}' && end[1..] == rest;
      ObjectRead(end);
    } else {
      MembersRead(members, rest);
      MembersStart(members, end);
      ObjectRead(inner + end);
    }
  }

  lemma MembersStart(members: seq<Member>, end: string)
    requires members != []
    ensures var t := SerializedMembers(members, true) + end;
            t == SerializedMember(members[0]) + (SerializedMembers(members[1..], false) + end)
            && t != [] && t[0] == '"'
  {
    var first, others := SerializedMember(members[0]), SerializedMembers(members[1..], false);
    assert "" + first == first;
    assert (first + others) + end == first + (others + end);
    assert first[0] == '"';
  }

  lemma MembersBehind(members: seq<Member>, rest: string)
    requires members != []
    ensures var u := SerializedMembers(members[1..], false) + ("}" + rest);
            && u != [] && Ends(u) && G.Skip(u) == u && u[0] == (if |members| == 1 then '}' else ',')
            && u[1..] == if |members| == 1 then rest else SerializedMembers(members[1..], true) + ("}" + rest)
  {
    var others, end := members[1..], "}" + rest;
    var u := SerializedMembers(others, false) + end;
    if others == [] {
      assert u == end && end[1..] == rest;
    } else {
      assert "" + SerializedMember(others[0]) == SerializedMember(others[0]);
      assert SerializedMembers(others, false) == "," + SerializedMembers(others, true);
      assert u == "," + (SerializedMembers(others, true) + end);
      Shift(",", SerializedMembers(others, true) + end);
    }
    NoSkip(u);
  }

  lemma {:induction false} MemberRead(m: Member, u: string)
    requires Ends(u)
    ensures G.Member(SerializedMember(m) + u) == if MemberClean(m) then G.Reads(MemberOf(m), u) else G.Fails
    decreases m, 1
  {
    var value := Serialized(m.value) + u;
    var w := Escape(m.key) + ("\"" + (":" + value));
    MemberSpelt(m, u);
    CharactersOf(m.key, ":" + value);
    ValueStarts(m.value);
    Shift(Serialized(m.value), u);
    if Plain(m.key) {
      MemberParts(w, Units(m.key), value);
    } else {
      NoMember(w);
    }
    ValueOf(m.value, u);
  }

  lemma MemberSpelt(m: Member, u: string)
    ensures SerializedMember(m) + u == "\"" + (Escape(m.key) + ("\"" + (":" + (Serialized(m.value) + u))))
  {
    var e, v := Escape(m.key), Serialized(m.value);
    assert (("\"" + e + "\"") + ":" + v) + u == "\"" + (e + ("\"" + (":" + (v + u))));
  }

  lemma NoMember(w: string)
    requires G.Characters(w).Fails?
    ensures G.Member("\"" + w).Fails?
  {
    Shift("\"", w);
  }

  lemma MemberParts(w: string, key: seq<int>, value: string)
    requires G.Characters(w) == G.Reads(key, ":" + value) && value != [] && !G.IsSpace(value[0])
    ensures G.Member("\"" + w) == match G.Value(value)
                                  case Fails => G.Fails
                                  case Reads(d, rest) => G.Reads((key, d), rest)
  {
    Shift("\"", w);
    Shift(":", value);
    NoSkip(":" + value);
    NoSkip(value);
  }

  lemma {:induction false} MembersRead(members: seq<Member>, rest: string)
    requires members != []
    ensures G.Members(SerializedMembers(members, true) + ("}" + rest)) ==
              if AllMembersClean(members) then G.Reads(MembersOf(members), rest) else G.Fails
    decreases members, 2
  {
    var end, others := "}" + rest, members[1..];
    var u := SerializedMembers(others, false) + end;
    MembersStart(members, end);
    MembersBehind(members, rest);
    MemberRead(members[0], u);
    CleanMemberParts(members);
    if others == [] {
      assert MembersOf(members) == [MemberOf(members[0])];
    } else {
      MembersRead(others, rest);
      MembersStart(others, end);
      NoSkip(u[1..]);
    }
  }

  lemma CleanMemberParts(members: seq<Member>)
    requires members != []
    ensures AllMembersClean(members) <==> MemberClean(members[0]) && AllMembersClean(members[1..])
  {
    assert forall i :: 0 < i < |members| ==> members[i] == members[1..][i - 1];
    if AllMembersClean(members[1..]) && MemberClean(members[0]) {
      forall i | 0 <= i < |members| ensures MemberClean(members[i]) {
        assert i > 0 ==> MemberClean(members[1..][i - 1]);
      }
    }
  }

  /** The serializer's text is a text of the standard that stands for the value, exactly when no
      string and no key in the value has a control character. */
  lemma {:induction false} SerializedIsStandard(v: Value)
    ensures G.Text(Serialized(v)) == if Clean(v) then G.Reads(DocumentOf(v), []) else G.Fails
  {
    ValueOf(v, []);
    ValueStarts(v);
    NoSkip(Serialized(v));
    assert Serialized(v) + [] == Serialized(v);
  }

  /** The serializer itself. */
  method SerializeStandard(v: Value) returns (text: string)
    requires Representable(v)
    ensures G.Text(text) == if Clean(v) then G.Reads(DocumentOf(v), []) else G.Fails
  {
    text := SerializeValue(v);
    SerializedIsStandard(v);
  }
}

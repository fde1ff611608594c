/** What a value becomes when it is serialized and parsed again, and when that is the value itself. */
module JsonRoundTrip {
  import opened SortedEntries
  import opened Text
  import opened Decimal
  import opened Json
  import opened JsonParsing

  /** A text behind a value does not prolong a number. `,`, `]`, `}` and the end qualify. */
  predicate Follows(rest: string) {
    rest == [] || !IsNumberChar(rest[0])
  }

  predicate EndsOpen(s: string) {
    s != [] && s[|s| - 1] == '\\'
  }

  function Doubled(s: string): (d: string)
    ensures |d| >= |s|
  {
    if s == [] then [] else (if s[0] == '\\' then "\\\\" else [s[0]]) + Doubled(s[1..])
  }

  function PrintedBack(text: string): string {
    Printed(StoiValue(text))
  }

  /** The value the parser makes of the text of `v`: backslashes are doubled, since the parser
      takes them away in front of quotes only, and numbers are rounded to eight digits. */
  function Returned(v: Value): Value
    decreases v, 0
  {
    match v
    case Null => v
    case Boolean(_) => v
    case Number(text) => Number(PrintedBack(text))
    case String(s) => String(Doubled(s))
    case Array(items) => Array(ReturnedItems(items))
    case Object(members) => Object(ReturnedMembers([], members))
  }

  function ReturnedItems(items: seq<Value>): seq<Value>
    decreases items, 1
  {
    if items == [] then [] else [Returned(items[0])] + ReturnedItems(items[1..])
  }

  function ReturnedMember(m: Member): Member
    decreases m, 1
  {
    Pair(Doubled(m.key), Returned(m.value))
  }

  function ReturnedMembers(before: seq<Member>, members: seq<Member>): seq<Member>
    decreases members, 2
  {
    if members == [] then before
    else ReturnedMembers(Put(StrLess, before, ReturnedMember(members[0])), members[1..])
  }

  /** No string in the value, key or not, ends with a backslash. */
  ghost predicate Closed(v: Value)
    decreases v, 0
  {
    match v
    case Null => true
    case Boolean(_) => true
    case Number(_) => true
    case String(s) => !EndsOpen(s)
    case Array(items) => AllClosed(items)
    case Object(members) => AllMembersClosed(members)
  }

  ghost predicate AllClosed(items: seq<Value>)
    decreases items, 1
  {
    forall i :: 0 <= i < |items| ==> Closed(items[i])
  }

  ghost predicate AllMembersClosed(members: seq<Member>)
    decreases members, 2
  {
    forall i :: 0 <= i < |members| ==> MemberClosed(members[i])
  }

  ghost predicate MemberClosed(m: Member)
    decreases m, 1
  {
    !EndsOpen(m.key) && Closed(m.value)
  }

  // ----- strings -----

  lemma {:induction false} ScanEscaped(s: string, rest: string)
    requires !EndsOpen(s)
    ensures Scanned(Escape(s) + ("\"" + rest)) == Done(Doubled(s), rest)
  {
    var tail := "\"" + rest;
    if s == [] {
      assert Escape(s) + tail == tail;
    } else {
      var u := Escape(s[1..]) + tail;
      ScanEscaped(s[1..], rest);
      if s[0] == '"' {
        Prepend(['\\', '"'], Escape(s[1..]), tail);
      } else if s[0] == '\\' {
        Prepend(['\\', '\\'], Escape(s[1..]), tail);
        assert u[0] != '"';
        ScanTwo('\\', '\\', u);
      } else {
        Prepend([s[0]], Escape(s[1..]), tail);
      }
    }
  }

  lemma Prepend(a: string, b: string, c: string)
    ensures (a + b) + c == a + (b + c)
    ensures (a + (b + c))[|a|..] == b + c
  {
    assert (a + b) + c == a + (b + c);
  }

  /** A character that does not end the string, and does not escape a quote, is kept. */
  lemma ScanPlain(c: char, u: string)
    requires c != '"' && u != [] && u[0] != '"' && Scanned(u).Done?
    ensures Scanned([c] + u) == Done([c] + Scanned(u).value, Scanned(u).rest)
  {
    assert ([c] + u)[1..] == u;
  }

  lemma ScanTwo(c: char, d: char, u: string)
    requires c != '"' && d != '"' && u != [] && u[0] != '"' && Scanned(u).Done?
    ensures Scanned([c, d] + u) == Done([c, d] + Scanned(u).value, Scanned(u).rest)
  {
    var v := [d] + u;
    ScanPlain(d, u);
    ScanPlain(c, v);
    assert [c] + v == [c, d] + u;
    assert [c] + Scanned(v).value == [c, d] + Scanned(u).value;
  }

  /** The scanner never takes a backslash for the last character of a string. */
  lemma {:induction false} ScannedIsClosed(t: string)
    ensures Scanned(t).Done? ==> !EndsOpen(Scanned(t).value)
  {
    if t == [] || t[0] == '"' {
    } else {
      if |t| >= 2 && t[0] == '\\' && t[1] == '"' {
        ScannedIsClosed(t[2..]);
      } else {
        ScannedIsClosed(t[1..]);
      }
    }
  }

  lemma {:induction false} DoubledIsSame(s: string)
    ensures Doubled(s) == s <==> '\\' !in s
    ensures |Doubled(s)| == |s| <==> '\\' !in s
  {
    if s == [] {
    } else {
      DoubledIsSame(s[1..]);
      assert s == [s[0]] + s[1..];
      if '\\' !in s {
        assert Doubled(s) == [s[0]] + Doubled(s[1..]);
      }
    }
  }

  /** A string survives the round trip exactly when it holds no backslash. */
  lemma {:induction false} StringSurvives(s: string, rest: string)
    ensures Scanned(Escape(s) + ("\"" + rest)) == Done(s, rest) <==> '\\' !in s
  {
    ScannedIsClosed(Escape(s) + ("\"" + rest));
    DoubledIsSame(s);
    if !EndsOpen(s) {
      ScanEscaped(s, rest);
    } else {
      assert s[|s| - 1] in s;
    }
  }

  // ----- parsed values hold closed strings only -----

  lemma ParsedNumberIsClosed(inexact: Rounding, t: string)
    ensures Closed(ParsedNumber(inexact, t).value)
  {
  }

  lemma {:induction false} ParsedIsClosed(inexact: Rounding, t: string)
    ensures ParsedValue(inexact, t).Done? ==> Closed(ParsedValue(inexact, t).value)
    decreases |t|, 0
  {
    if t == [] {
      ParsedNumberIsClosed(inexact, t);
    } else {
      match t[0]
      case '{' => ParsedMembersAreClosed(inexact, [], t[1..]);
      case '[' => ParsedItemsAreClosed(inexact, [], t[1..]);
      case '"' => ScannedIsClosed(t[1..]);
      case _ => ParsedNumberIsClosed(inexact, t);
    }
  }

  lemma {:induction false} ParsedItemsAreClosed(inexact: Rounding, items: seq<Value>, t: string)
    requires AllClosed(items)
    ensures ParsedItems(inexact, items, t).Done? ==> Closed(ParsedItems(inexact, items, t).value)
    decreases |t|, 1
  {
    if t == [] || t[0] == ']' {
    } else {
      ParsedIsClosed(inexact, t);
      match ParsedValue(inexact, t)
      case Stuck =>
      case Done(v, rest) =>
        if |SkipComma(rest)| < |t| {
          ParsedItemsAreClosed(inexact, items + [v], SkipComma(rest));
        }
    }
  }

  lemma {:induction false} ParsedMembersAreClosed(inexact: Rounding, members: seq<Member>, t: string)
    requires AllMembersClosed(members)
    ensures ParsedMembers(inexact, members, t).Done? ==> Closed(ParsedMembers(inexact, members, t).value)
    decreases |t|, 1
  {
    if t == [] || t[0] == '}' {
    } else {
      ScannedIsClosed(t[1..]);
      match Scanned(t[1..])
      case Stuck =>
      case Done(key, rest) =>
        if rest != [] {
          ParsedIsClosed(inexact, rest[1..]);
          match ParsedValue(inexact, rest[1..])
          case Stuck =>
          case Done(v, rest2) =>
            ParsedMembersAreClosed(inexact, Put(StrLess, members, Pair(key, v)), SkipComma(rest2));
        }
    }
  }

  // ----- what comes back -----

  lemma NumberReturns(inexact: Rounding, text: string, rest: string)
    requires StoiMagnitude(text) < 0x8000_0000 && Follows(rest)
    ensures var t := ToString(StoiValue(text)) + rest;
            ParsedValue(inexact, t) == Done(Number(PrintedBack(text)), rest)
  {
    var n := StoiValue(text);
    var tok := ToString(n);
    StodOfToString(n);
    WholeToken(tok, rest);
    assert (tok + rest)[|tok|..] == rest;
    assert tok[0] == '-' || IsDigit(tok[0]);
  }

  lemma {:induction false} WholeToken(tok: string, rest: string)
    requires (forall c :: c in tok ==> IsNumberChar(c)) && Follows(rest)
    ensures NumberToken(tok + rest) == tok
  {
    if tok != [] {
      WholeToken(tok[1..], rest);
      assert (tok + rest)[1..] == tok[1..] + rest;
    } else {
      assert tok + rest == rest;
    }
  }

  lemma SerializedStart(v: Value)
    ensures Serialized(v) != []
    ensures Serialized(v)[0] !in {']', '}', ','}
  {
    if v.Number? {
      var tok := ToString(StoiValue(v.text));
      assert tok[0] == '-' || IsDigit(tok[0]);
    }
  }

  /** A closed value is parsed back, as what it returns as, and parsing stops at the end of its text. */
  lemma {:induction false} ValueReturns(inexact: Rounding, v: Value, rest: string)
    requires Representable(v) && Closed(v) && Follows(rest)
    ensures ParsedValue(inexact, Serialized(v) + rest) == Done(Returned(v), rest)
    decreases v, 0
  {
    match v
    case Null => assert ("null" + rest)[4..] == rest;
    case Boolean(b) => BooleanReturns(inexact, b, rest);
    case Number(text) => NumberReturns(inexact, text, rest);
    case String(s) =>
      ScanEscaped(s, rest);
      QuotedText(s, rest);
    case Array(items) =>
      ItemsReturn(inexact, [], items, rest);
      ArrayInside(inexact, SerializedItems(items, true), rest);
      assert [] + ReturnedItems(items) == ReturnedItems(items);
    case Object(members) =>
      MembersReturn(inexact, [], members, rest);
      ObjectInside(inexact, SerializedMembers(members, true), rest);
  }

  lemma ArrayInside(inexact: Rounding, inner: string, rest: string)
    ensures ParsedValue(inexact, "[" + inner + "]" + rest) == ParsedItems(inexact, [], inner + ("]" + rest))
  {
    Bracketed("[", inner, "]", rest);
  }

  lemma ObjectInside(inexact: Rounding, inner: string, rest: string)
    ensures ParsedValue(inexact, "{" + inner + "}" + rest) == ParsedMembers(inexact, [], inner + ("}" + rest))
  {
    Bracketed("{", inner, "}", rest);
  }

  lemma BooleanReturns(inexact: Rounding, b: bool, rest: string)
    ensures ParsedValue(inexact, Serialized(Boolean(b)) + rest) == Done(Boolean(b), rest)
  {
    assert ("true" + rest)[4..] == rest && ("false" + rest)[5..] == rest;
  }

  lemma QuotedText(s: string, rest: string)
    ensures Quoted(s) + rest == "\"" + (Escape(s) + ("\"" + rest))
    ensures (Quoted(s) + rest)[1..] == Escape(s) + ("\"" + rest)
  {
  }

  lemma Bracketed(open: string, inner: string, close: string, rest: string)
    requires |open| == 1
    ensures (open + inner + close + rest)[0] == open[0]
    ensures (open + inner + close + rest)[1..] == inner + (close + rest)
  {
  }

  lemma {:induction false} ItemsReturn(inexact: Rounding, before: seq<Value>, items: seq<Value>, rest: string)
    requires (forall i :: 0 <= i < |items| ==> Representable(items[i])) && AllClosed(items)
    ensures ParsedItems(inexact, before, SerializedItems(items, true) + ("]" + rest)) ==
              Done(Array(before + ReturnedItems(items)), rest)
    decreases items, 1
  {
    if items == [] {
      assert [] + ("]" + rest) == "]" + rest && before + [] == before;
    } else {
      var end := "]" + rest;
      FirstItem(items, end);
      ItemReturns(inexact, before, items[0], SerializedItems(items[1..], false) + end);
      ItemsReturn(inexact, before + [Returned(items[0])], items[1..], rest);
      ReturnedFirst(before, items);
    }
  }

  lemma ReturnedFirst(before: seq<Value>, items: seq<Value>)
    requires items != []
    ensures (before + [Returned(items[0])]) + ReturnedItems(items[1..]) == before + ReturnedItems(items)
  {
    var first, others := [Returned(items[0])], ReturnedItems(items[1..]);
    assert ReturnedItems(items) == first + others;
    assert (before + first) + others == before + (first + others);
  }

  lemma {:induction false} ItemReturns(inexact: Rounding, before: seq<Value>, item: Value, tail: string)
    requires Representable(item) && Closed(item) && Follows(tail)
    ensures ParsedItems(inexact, before, Serialized(item) + tail) ==
              ParsedItems(inexact, before + [Returned(item)], SkipComma(tail))
    decreases item, 1
  {
    SerializedStart(item);
    ValueReturns(inexact, item, tail);
  }

  /** The text of a list is the text of its first element, and behind the comma, if there is
      one, the text of the others. */
  lemma FirstItem(items: seq<Value>, end: string)
    requires items != [] && end != [] && end[0] == ']'
    ensures var tail := SerializedItems(items[1..], false) + end;
            && SerializedItems(items, true) + end == Serialized(items[0]) + tail
            && SkipComma(tail) == SerializedItems(items[1..], true) + end
            && Follows(tail)
  {
    var others := items[1..];
    Prepend(Serialized(items[0]), SerializedItems(others, false), end);
    assert "" + Serialized(items[0]) == Serialized(items[0]);
    if others != [] {
      Prepend(",", Serialized(others[0]), SerializedItems(others[1..], false));
      assert "" + Serialized(others[0]) == Serialized(others[0]);
      Prepend(",", SerializedItems(others, true), end);
    }
  }

  lemma {:induction false} MembersReturn(inexact: Rounding, before: seq<Member>, members: seq<Member>, rest: string)
    requires forall i :: 0 <= i < |members| ==> Representable(members[i].value)
    requires AllMembersClosed(members)
    ensures ParsedMembers(inexact, before, SerializedMembers(members, true) + ("}" + rest)) ==
              Done(Object(ReturnedMembers(before, members)), rest)
    decreases members, 2
  {
    if members == [] {
      assert [] + ("}" + rest) == "}" + rest;
    } else {
      var end := "}" + rest;
      var tail := SerializedMembers(members[1..], false) + end;
      FirstMember(members, end);
      MemberReturns(inexact, before, members[0], tail);
      MembersReturn(inexact, Put(StrLess, before, ReturnedMember(members[0])), members[1..], rest);
    }
  }

  lemma {:induction false} FirstMember(members: seq<Member>, end: string)
    requires members != [] && end != [] && end[0] == '}'
    ensures var tail := SerializedMembers(members[1..], false) + end;
            && SerializedMembers(members, true) + end == SerializedMember(members[0]) + tail
            && SkipComma(tail) == SerializedMembers(members[1..], true) + end
            && Follows(tail)
  {
    var others := members[1..];
    Prepend(SerializedMember(members[0]), SerializedMembers(others, false), end);
    assert "" + SerializedMember(members[0]) == SerializedMember(members[0]);
    if others != [] {
      Prepend(",", SerializedMember(others[0]), SerializedMembers(others[1..], false));
      assert "" + SerializedMember(others[0]) == SerializedMember(others[0]);
      Prepend(",", SerializedMembers(others, true), end);
    }
  }

  lemma {:induction false} MemberReturns(inexact: Rounding, before: seq<Member>, m: Member, tail: string)
    requires Representable(m.value) && MemberClosed(m) && Follows(tail)
    ensures ParsedMembers(inexact, before, SerializedMember(m) + tail) ==
              ParsedMembers(inexact, Put(StrLess, before, ReturnedMember(m)), SkipComma(tail))
    decreases m, 1
  {
    var t, value := SerializedMember(m) + tail, Serialized(m.value) + tail;
    MemberText(m, tail);
    ScanEscaped(m.key, ":" + value);
    ValueReturns(inexact, m.value, tail);
    MembersStep(inexact, before, t, Doubled(m.key), value, Returned(m.value), tail);
  }

  lemma MemberText(m: Member, tail: string)
    ensures SerializedMember(m) + tail == "\"" + (Escape(m.key) + ("\"" + (":" + (Serialized(m.value) + tail))))
    ensures (SerializedMember(m) + tail)[1..] == Escape(m.key) + ("\"" + (":" + (Serialized(m.value) + tail)))
  {
    var value := Serialized(m.value);
    assert Quoted(m.key) + ":" + value + tail == Quoted(m.key) + (":" + (value + tail));
    QuotedText(m.key, ":" + (value + tail));
  }

  /** One member is parsed. */
  lemma MembersStep(inexact: Rounding, before: seq<Member>, t: string, key: string, rest: string,
                    v: Value, rest2: string)
    requires t != [] && t[0] == '"' && Scanned(t[1..]) == Done(key, ":" + rest)
    requires ParsedValue(inexact, rest) == Done(v, rest2)
    ensures ParsedMembers(inexact, before, t) ==
              ParsedMembers(inexact, Put(StrLess, before, Pair(key, v)), SkipComma(rest2))
  {
    assert (":" + rest)[1..] == rest;
  }

  // ----- which values come back unchanged -----

  /** No backslashes, and integers of at most eight digits, kept as `%d` prints them. */
  ghost predicate Survives(v: Value)
    decreases v, 0
  {
    match v
    case Null => true
    case Boolean(_) => true
    case Number(text) => text == ToString(StoiValue(text)) && -100_000_000 < StoiValue(text) < 100_000_000
    case String(s) => '\\' !in s
    case Array(items) => AllSurvive(items)
    case Object(members) => AllMembersSurvive(members)
  }

  ghost predicate AllSurvive(items: seq<Value>)
    decreases items, 1
  {
    forall i :: 0 <= i < |items| ==> Survives(items[i])
  }

  ghost predicate AllMembersSurvive(members: seq<Member>)
    decreases members, 2
  {
    forall i :: 0 <= i < |members| ==> MemberSurvives(members[i])
  }

  ghost predicate MemberSurvives(m: Member)
    decreases m, 1
  {
    '\\' !in m.key && Survives(m.value)
  }

  lemma {:induction false} SurvivorIsClosed(v: Value)
    requires Survives(v)
    ensures Closed(v)
    decreases v, 0
  {
    match v
    case String(s) => assert s != [] ==> s[|s| - 1] in s;
    case Array(items) =>
      forall i | 0 <= i < |items| ensures Closed(items[i]) {
        SurvivorIsClosed(items[i]);
      }
    case Object(members) =>
      forall i | 0 <= i < |members| ensures MemberClosed(members[i]) {
        MemberSurvivorIsClosed(members[i]);
      }
    case _ =>
  }

  lemma {:induction false} MemberSurvivorIsClosed(m: Member)
    requires MemberSurvives(m)
    ensures MemberClosed(m)
    decreases m, 1
  {
    SurvivorIsClosed(m.value);
    assert m.key != [] ==> m.key[|m.key| - 1] in m.key;
  }

  lemma NumberIsSame(text: string)
    ensures PrintedBack(text) == text <==>
              text == ToString(StoiValue(text)) && -100_000_000 < StoiValue(text) < 100_000_000
  {
    EightDigitsSurvive(StoiValue(text));
    SameText(text, PrintedBack(text), StoiValue(text));
  }

  lemma SameText(text: string, back: string, n: int)
    requires StoiValue(text) == n
    requires StoiValue(back) == n <==> -100_000_000 < n < 100_000_000
    requires back == ToString(n) <==> -100_000_000 < n < 100_000_000
    ensures back == text <==> text == ToString(n) && -100_000_000 < n < 100_000_000
  {
  }

  /** A representable value is what it returns as exactly when it survives. */
  lemma {:induction false} ReturnedIsSame(v: Value)
    requires Representable(v)
    ensures Returned(v) == v <==> Survives(v)
    decreases v, 0
  {
    match v
    case Number(text) => NumberIsSame(text);
    case String(s) => DoubledIsSame(s);
    case Array(items) => ItemsAreSame(items);
    case Object(members) => MembersAreSame(members);
    case _ =>
  }

  lemma {:induction false} ItemsAreSame(items: seq<Value>)
    requires forall i :: 0 <= i < |items| ==> Representable(items[i])
    ensures ReturnedItems(items) == items <==> AllSurvive(items)
    decreases items, 1
  {
    if items == [] {
    } else {
      var others := items[1..];
      ReturnedIsSame(items[0]);
      ItemsAreSame(others);
      assert items == [items[0]] + others;
      assert AllSurvive(items) <==> Survives(items[0]) && AllSurvive(others) by {
        assert forall i :: 0 < i < |items| ==> items[i] == others[i - 1];
      }
      assert ReturnedItems(items)[0] == Returned(items[0]) && ReturnedItems(items)[1..] == ReturnedItems(others);
    }
  }

  function KeyLengths(members: seq<Member>): nat {
    if members == [] then 0 else |members[0].key| + KeyLengths(members[1..])
  }

  lemma {:induction false} KeyLengthsAppend(a: seq<Member>, b: seq<Member>)
    ensures KeyLengths(a + b) == KeyLengths(a) + KeyLengths(b)
  {
    if a == [] {
      assert a + b == b;
    } else {
      KeyLengthsAppend(a[1..], b);
      assert (a + b)[1..] == a[1..] + b;
    }
  }

  /** A member that comes anew adds itself; any other leaves the number of members. */
  lemma PutCounts(members: seq<Member>, m: Member)
    ensures |Put(StrLess, members, m)| <= |members| + 1
    ensures |Put(StrLess, members, m)| == |members| + 1 ==>
              KeyLengths(Put(StrLess, members, m)) == KeyLengths(members) + |m.key|
  {
    var k := Rank(StrLess, members, m.key);
    if !Has(StrLess, members, m.key) {
      KeyLengthsAppend(members[..k] + [m], members[k..]);
      KeyLengthsAppend(members[..k], [m]);
      KeyLengthsAppend(members[..k], members[k..]);
      assert members[..k] + members[k..] == members;
    }
  }

  /** If as many members come back as went out, each was new, and the keys came back at their
      doubled lengths. */
  lemma {:induction false} ReturnedCounts(before: seq<Member>, members: seq<Member>)
    ensures |ReturnedMembers(before, members)| <= |before| + |members|
    ensures |ReturnedMembers(before, members)| == |before| + |members| ==>
              && KeyLengths(ReturnedMembers(before, members)) >= KeyLengths(before) + KeyLengths(members)
              && (KeyLengths(ReturnedMembers(before, members)) == KeyLengths(before) + KeyLengths(members) ==>
                    PlainKeys(members))
    decreases members
  {
    if members == [] {
    } else {
      var m := ReturnedMember(members[0]);
      PutCounts(before, m);
      DoubledIsSame(members[0].key);
      ReturnedCounts(Put(StrLess, before, m), members[1..]);
      assert members == [members[0]] + members[1..];
    }
  }

  ghost predicate PlainKeys(members: seq<Member>) {
    forall i :: 0 <= i < |members| ==> '\\' !in members[i].key
  }

  /** Members with plain keys come back in place, each with what its value returns as. */
  lemma {:induction false} PlainMembersReturn(members: seq<Member>, p: nat, before: seq<Member>)
    requires Sorted(StrLess, members) && PlainKeys(members) && p <= |members| && |before| == p
    requires forall i :: 0 <= i < p ==> before[i] == ReturnedMember(members[i])
    ensures |ReturnedMembers(before, members[p..])| == |members|
    ensures forall i :: 0 <= i < |members| ==> ReturnedMembers(before, members[p..])[i] == ReturnedMember(members[i])
    decreases |members| - p
  {
    if p == |members| {
    } else {
      var m := ReturnedMember(members[p]);
      PlainPut(members, p, before);
      assert members[p..][1..] == members[p + 1..];
      PlainMembersReturn(members, p + 1, before + [m]);
    }
  }

  lemma PlainPut(members: seq<Member>, p: nat, before: seq<Member>)
    requires Sorted(StrLess, members) && PlainKeys(members) && p < |members| && |before| == p
    requires forall i :: 0 <= i < p ==> before[i] == ReturnedMember(members[i])
    ensures Put(StrLess, before, ReturnedMember(members[p])) == before + [ReturnedMember(members[p])]
  {
    var m := ReturnedMember(members[p]);
    DoubledIsSame(members[p].key);
    SortedPairs(StrLess, members);
    forall i | 0 <= i < p ensures StrLess(before[i].key, m.key) {
      DoubledIsSame(members[i].key);
    }
    assert Rank(StrLess, before, m.key) == p;
  }

  lemma {:induction false} MembersAreSame(members: seq<Member>)
    requires Sorted(StrLess, members)
    requires forall i :: 0 <= i < |members| ==> Representable(members[i].value)
    ensures ReturnedMembers([], members) == members <==> AllMembersSurvive(members)
    decreases members, 2
  {
    if ReturnedMembers([], members) == members {
      ReturnedCounts([], members);
    }
    if PlainKeys(members) {
      PlainMembersReturn(members, 0, []);
      assert members[0..] == members;
      forall i | 0 <= i < |members| ensures ReturnedMember(members[i]) == members[i] <==> MemberSurvives(members[i]) {
        MemberIsSame(members[i]);
      }
    }
  }

  lemma {:induction false} MemberIsSame(m: Member)
    requires Representable(m.value)
    ensures ReturnedMember(m) == m <==> MemberSurvives(m)
    decreases m, 1
  {
    DoubledIsSame(m.key);
    ReturnedIsSame(m.value);
  }

  /** The round trip: a value comes back from its own text, with parsing stopped at the end of
      that text, exactly when no string or key in it holds a backslash and every number is an
      integer of at most eight digits in its own notation. */
  lemma {:induction false} RoundTrip(inexact: Rounding, v: Value, rest: string)
    requires Representable(v) && Follows(rest)
    ensures ParsedValue(inexact, Serialized(v) + rest) == Done(v, rest) <==> Survives(v)
  {
    ParsedIsClosed(inexact, Serialized(v) + rest);
    ReturnedIsSame(v);
    if Survives(v) {
      SurvivorIsClosed(v);
    }
    if Closed(v) {
      ValueReturns(inexact, v, rest);
    }
  }

  /** The serializer and the parser themselves. */
  method SerializeAndParse(inexact: Rounding, v: Value) returns (w: Value)
    requires Representable(v) && Closed(v)
    ensures w == Returned(v)
    ensures w == v <==> Survives(v)
  {
    var text := SerializeValue(v);
    ValueReturns(inexact, v, "");
    ReturnedIsSame(v);
    assert text + "" == text;
    var parser := new JsonParser(text, inexact);
    assert parser.Unread() == text;
    w := parser.ParseValue();
  }
}

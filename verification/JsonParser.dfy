/** `JsonParser`: what it computes, as a function of the text that is still unread, and the
    cursor-driven parser itself. */
module JsonParsing {
  import C = CStrings
  import opened SortedEntries
  import opened Text
  import opened Decimal
  import opened Json

  /** `Stuck` stands for the texts on which the source runs past the end of its buffer or goes
      round without advancing. */
  datatype Parsed<T> = Stuck | Done(value: T, rest: string)

  /** The string that ends at the first quote not taken for an escaped one, and what follows.
      A backslash before a quote goes, every other backslash stays. */
  function Scanned(t: string): (p: Parsed<string>)
    ensures p.Done? ==> |p.rest| < |t|
  {
    if t == [] then Stuck
    else if t[0] == '"' then Done([], t[1..])
    else if |t| >= 2 && t[0] == '\\' && t[1] == '"' then
      match Scanned(t[2..])
      case Stuck => Stuck
      case Done(s, rest) => Done(['"'] + s, rest)
    else
      match Scanned(t[1..])
      case Stuck => Stuck
      case Done(s, rest) => Done([t[0]] + s, rest)
  }

  predicate IsNumberChar(c: char) {
    IsDigit(c) || c == '-' || c == '.' || c == 'e' || c == 'E'
  }

  /** Exactly the digits, the minus sign, the point and the two letters for an exponent; no plus sign. */
  lemma NumberCharacters(c: char)
    ensures IsNumberChar(c) <==>
              c in {'0', '1', '2', '3', '4', '5', '6', '7', '8', '9', '-', '.', 'e', 'E'}
  {
    var n := c as int;
    assert 0x30 <= n <= 0x39 ==> n as char == c;
  }

  function NumberToken(t: string): (tok: string)
    ensures tok <= t && (|tok| < |t| ==> !IsNumberChar(t[|tok|]))
    ensures forall c :: c in tok ==> IsNumberChar(c)
  {
    if t == [] || !IsNumberChar(t[0]) then [] else [t[0]] + NumberToken(t[1..])
  }

  /** What printing the double that `stod` makes of a token gives, where rounding comes in. */
  type Rounding = string -> string

  /** A number is kept as `%.8g` prints what `stod` reads. */
  function NumberText(inexact: Rounding, tok: string): string {
    if IsExact(tok) then Printed8g('-' in Read(tok), Decimal.Value(OnlyDigits(Read(tok)))) else inexact(tok)
  }

  function ParsedNumber(inexact: Rounding, t: string): (p: Parsed<Value>)
    ensures p.Done? && |p.rest| <= |t|
  {
    var tok := NumberToken(t);
    Done(Number(NumberText(inexact, tok)), t[|tok|..])
  }

  function SkipComma(t: string): string {
    if t != [] && t[0] == ',' then t[1..] else t
  }

  function ParsedValue(inexact: Rounding, t: string): (p: Parsed<Value>)
    ensures p.Done? ==> |p.rest| <= |t|
    decreases |t|, 0
  {
    if t == [] then ParsedNumber(inexact, t)
    else match t[0]
      case '{' => ParsedMembers(inexact, [], t[1..])
      case '[' => ParsedItems(inexact, [], t[1..])
      case '"' => (match Scanned(t[1..])
                   case Stuck => Stuck
                   case Done(s, rest) => Done(String(s), rest))
      case 't' => if |t| < 4 then Stuck else Done(Boolean(true), t[4..])
      case 'f' => if |t| < 5 then Stuck else Done(Boolean(false), t[5..])
      case 'n' => if |t| < 4 then Stuck else Done(Null, t[4..])
      case _ => ParsedNumber(inexact, t)
  }

  /** The rest of an array whose elements so far are `items`. */
  function ParsedItems(inexact: Rounding, items: seq<Value>, t: string): (p: Parsed<Value>)
    ensures p.Done? ==> |p.rest| <= |t|
    decreases |t|, 1
  {
    if t == [] then Stuck
    else if t[0] == ']' then Done(Array(items), t[1..])
    else match ParsedValue(inexact, t)
      case Stuck => Stuck
      case Done(v, rest) =>
        if |SkipComma(rest)| < |t| then ParsedItems(inexact, items + [v], SkipComma(rest)) else Stuck
  }

  /** The rest of an object whose members so far are `members`. The character in front of a key
      and the one behind it are skipped unseen. */
  function ParsedMembers(inexact: Rounding, members: seq<Member>, t: string): (p: Parsed<Value>)
    ensures p.Done? ==> |p.rest| <= |t|
    decreases |t|, 1
  {
    if t == [] then Stuck
    else if t[0] == '}' then Done(Object(members), t[1..])
    else match Scanned(t[1..])
      case Stuck => Stuck
      case Done(key, rest) =>
        if rest == [] then Stuck
        else match ParsedValue(inexact, rest[1..])
          case Stuck => Stuck
          case Done(v, rest2) => ParsedMembers(inexact, Put(StrLess, members, Pair(key, v)), SkipComma(rest2))
  }

  class JsonParser {
    var json: string
    var pos: nat
    const inexact: Rounding

    constructor (text: string, inexact: Rounding)
      ensures json == text && pos == 0 && this.inexact == inexact
    {
      json, pos, this.inexact := text, 0, inexact;
    }

    /** The text not yet read. */
    function Unread(): string
      requires pos <= |json|
      reads this
    {
      json[pos..]
    }

    /** `string::erase(pos, 1)` on the buffer; its effect on the text is that of `CString.Erase`. */
    method EraseAt(p: nat)
      requires p < |json|
      modifies this`json
      ensures json == old(json)[..p] + old(json)[p + 1..] == C.Erased(old(json), p, 1)
    {
      json := json[..p] + json[p + 1..];
    }

    /** One turn of the string loop: drops a backslash that escapes a quote, then passes a character. */
    method PassCharacter(ghost read: string, ghost unread: string)
      requires json == read + unread && pos == |read|
      requires unread != [] && unread[0] != '"'
      modifies this
      ensures pos == |read| + 1
      ensures json == read + [Passed(unread)[0]] + Passed(unread)[1..]
    {
      assert CharAt(json, pos) == unread[0];
      if CharAt(json, pos) == '\\' && CharAt(json, pos + 1) == '"' {
        EraseAt(pos);
        assert json == read + unread[1..];
      }
      pos := pos + 1;
    }

    /** Removes escape characters from the buffer as it goes. What was read before stays as it
        was, what is still unread is only moved, and in between stands the unescaped string. */
    method ParseString() returns (s: string)
      requires pos < |json| && Scanned(json[pos + 1..]).Done?
      modifies this
      ensures pos <= |json| && Scanned(old(json)[old(pos) + 1..]) == Done(s, Unread())
      ensures json == old(json)[..old(pos) + 1] + s + "\"" + Unread()
    {
      pos := pos + 1;
      var start := pos;
      ghost var before, all := json[..pos], Scanned(json[pos..]);
      PassString(before);
      s := json[start..pos];
      assert s == all.value;
      pos := pos + 1;
      assert Unread() == all.rest;
    }

    /** The loop: stops at the quote behind the unescaped string. */
    method PassString(ghost before: string)
      requires pos <= |json| && before == json[..pos] && Scanned(json[pos..]).Done?
      modifies this
      ensures var p := Scanned(old(json)[old(pos)..]);
              pos == |before| + |p.value| && json == before + p.value + "\"" + p.rest
    {
      ghost var all, read, unread := Scanned(json[pos..]), before, json[pos..];
      while CharAt(json, pos) != '"'
        invariant json == read + unread && pos == |read| && before <= read
        invariant Scanned(unread).Done? && Scanned(unread).rest == all.rest
        invariant read + Scanned(unread).value == before + all.value
        decreases |json| - pos
      {
        PassCharacter(read, unread);
        PassedScan(read, unread);
        read, unread := read + [Passed(unread)[0]], Passed(unread)[1..];
      }
      AtQuote(read, unread);
    }

    method ParseNumber() returns (v: Value)
      requires pos <= |json|
      modifies this
      ensures pos <= |json| && json == old(json) && ParsedNumber(inexact, old(Unread())) == Done(v, Unread())
    {
      var start := pos;
      ghost var t, token := json[pos..], NumberToken(json[pos..]);
      PassToken();
      TokenInPlace(json, start);
      v := NumberOf(json[start..pos], t);
    }

    /** The loop: stops behind the longest run of number characters. */
    method PassToken()
      requires pos <= |json|
      modifies this`pos
      ensures pos == old(pos) + |NumberToken(old(Unread()))| <= |json|
    {
      ghost var start, token := pos, NumberToken(json[pos..]);
      TokenInPlace(json, pos);
      while IsNumberChar(CharAt(json, pos))
        invariant start <= pos <= start + |token| <= |json|
        decreases |json| - pos
      {
        pos := pos + 1;
      }
    }

    /** `JsonValue(double)`: what `stod` reads, as `%.8g` prints it. */
    method NumberOf(tok: string, ghost t: string) returns (v: Value)
      requires tok == NumberToken(t)
      ensures ParsedNumber(inexact, t) == Done(v, t[|tok|..])
    {
      var negative, magnitude := Stod(tok);
      if IsExact(tok) {
        ExactMagnitude(tok, magnitude);
        v := Number(Printed8g(negative, magnitude.Floor));
      } else {
        v := Number(inexact(tok));
      }
    }

    method ParseBoolean() returns (v: Value)
      requires pos < |json| && (if json[pos] == 't' then pos + 4 else pos + 5) <= |json|
      modifies this`pos
      ensures v == Boolean(json[old(pos)] == 't')
      ensures pos == old(pos) + (if v.b then 4 else 5)
    {
      if CharAt(json, pos) == 't' {
        pos := pos + 4;
        v := Boolean(true);
      } else {
        pos := pos + 5;
        v := Boolean(false);
      }
    }

    method ParseNull() returns (v: Value)
      requires pos + 4 <= |json|
      modifies this`pos
      ensures v == Null && pos == old(pos) + 4
    {
      pos := pos + 4;
      v := Null;
    }

    method ParseValue() returns (v: Value)
      requires pos <= |json| && ParsedValue(inexact, Unread()).Done?
      modifies this
      ensures pos <= |json| && ParsedValue(inexact, old(Unread())) == Done(v, Unread())
      decreases |json| - pos, 2
    {
      ghost var t := Unread();
      match CharAt(json, pos) {
        case '{' => v := ParseObject();
        case '[' => v := ParseArray();
        case '"' =>
          assert t[1..] == json[pos + 1..];
          var s := ParseString();
          v := String(s);
        case 't' => v := ParseBoolean();
        case 'f' => v := ParseBoolean();
        case 'n' => v := ParseNull();
        case _ => v := ParseNumber();
      }
    }

    method ParseArray() returns (arr: Value)
      requires pos < |json| && ParsedItems(inexact, [], json[pos + 1..]).Done?
      modifies this
      ensures pos <= |json| && ParsedItems(inexact, [], old(json)[old(pos) + 1..]) == Done(arr, Unread())
      decreases |json| - pos, 1
    {
      ghost var all := ParsedItems(inexact, [], json[pos + 1..]);
      arr := Array([]);
      pos := pos + 1;
      while CharAt(json, pos) != ']'
        invariant pos <= |json| && |json| - pos < old(|json| - pos)
        invariant arr.Array? && ParsedItems(inexact, arr.items, Unread()) == all
        decreases |json| - pos
      {
        var val := ParseValue();
        arr := arr.Append(val);
        if CharAt(json, pos) == ',' {
          pos := pos + 1;
        }
      }
      pos := pos + 1;
    }

    method ParseObject() returns (obj: Value)
      requires pos < |json| && ParsedMembers(inexact, [], json[pos + 1..]).Done?
      modifies this
      ensures pos <= |json| && ParsedMembers(inexact, [], old(json)[old(pos) + 1..]) == Done(obj, Unread())
      decreases |json| - pos, 1
    {
      ghost var all := ParsedMembers(inexact, [], json[pos + 1..]);
      obj := Object([]);
      pos := pos + 1;
      while CharAt(json, pos) != '}'
        invariant pos <= |json| && |json| - pos < old(|json| - pos)
        invariant obj.Object? && ParsedMembers(inexact, obj.members, Unread()) == all
        decreases |json| - pos
      {
        obj := ParseMember(obj);
      }
      pos := pos + 1;
    }

    /** One turn of the loop over members. */
    method ParseMember(obj: Value) returns (more: Value)
      requires pos <= |json| && CharAt(json, pos) != '}'
      requires obj.Object? && ParsedMembers(inexact, obj.members, Unread()).Done?
      modifies this
      ensures pos <= |json| && |json| - pos < old(|json| - pos)
      ensures more.Object?
      ensures ParsedMembers(inexact, more.members, Unread()) == ParsedMembers(inexact, obj.members, old(Unread()))
      decreases |json| - pos, 1
    {
      ghost var t := Unread();
      MembersUnfold(inexact, obj.members, t);
      assert t[1..] == json[pos + 1..];
      var key := ParseString();
      ghost var rest := Unread();
      pos := pos + 1;
      assert Unread() == rest[1..];
      var val := ParseValue();
      more := obj.Set(key, val);
      if CharAt(json, pos) == ',' {
        pos := pos + 1;
      }
    }
  }

  lemma ExactMagnitude(tok: string, magnitude: real)
    requires IsExact(tok)
    requires magnitude == Magnitude(Read(tok))
    ensures magnitude.Floor == Decimal.Value(OnlyDigits(Read(tok)))
  {
    NoDecimals(Read(tok));
  }

  /** What is left to parse behind the next member of an object. */
  lemma MembersUnfold(inexact: Rounding, members: seq<Member>, t: string)
    requires t != [] && t[0] != '}' && ParsedMembers(inexact, members, t).Done?
    ensures Scanned(t[1..]).Done? && Scanned(t[1..]).rest != []
    ensures var s := Scanned(t[1..]); var v := ParsedValue(inexact, s.rest[1..]);
            && v.Done?
            && ParsedMembers(inexact, members, t) ==
                 ParsedMembers(inexact, Put(StrLess, members, Pair(s.value, v.value)), SkipComma(v.rest))
  {
  }

  lemma TokenInPlace(json: string, pos: nat)
    requires pos <= |json|
    ensures var tok := NumberToken(json[pos..]);
            && pos + |tok| <= |json| && json[pos..pos + |tok|] == tok && json[pos..][|tok|..] == json[pos + |tok|..]
            && (forall i :: pos <= i < pos + |tok| ==> IsNumberChar(json[i]))
            && (pos + |tok| < |json| ==> !IsNumberChar(json[pos + |tok|]))
  {
    var t, tok := json[pos..], NumberToken(json[pos..]);
    assert forall i :: 0 <= i < |tok| ==> t[i] == tok[i] && tok[i] in tok;
    assert |tok| < |t| ==> t[|tok|] == json[pos + |tok|];
  }

  lemma AtQuote(read: string, unread: string)
    requires unread != [] && unread[0] == '"'
    ensures Scanned(unread) == Done([], unread[1..])
    ensures read + [] == read && read + unread == read + "\"" + unread[1..]
  {
  }

  /** What is unread once a backslash in front of a quote is dropped. */
  ghost function Passed(t: string): (u: string)
    requires t != []
    ensures u != [] && |u| <= |t|
  {
    if |t| >= 2 && t[0] == '\\' && t[1] == '"' then t[1..] else t
  }

  lemma PassedScan(done: string, t: string)
    requires t != [] && t[0] != '"' && Scanned(t).Done?
    ensures var u := Passed(t);
            && Scanned(u[1..]).Done? && Scanned(u[1..]).rest == Scanned(t).rest
            && (done + [u[0]]) + Scanned(u[1..]).value == done + Scanned(t).value
  {
    assert |t| >= 2 && t[0] == '\\' && t[1] == '"' ==> t[1..][1..] == t[2..];
  }
}

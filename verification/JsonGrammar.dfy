/** The texts of RFC 8259, and what they stand for: a reader that follows the grammar of its
    sections 2 to 7 character by character. It knows nothing of this program. */
module JsonGrammar {
  /** What a text stands for. A number is kept as its text, a string as the code units it consists of. */
  datatype Document =
    | NullDoc
    | BoolDoc(b: bool)
    | NumberDoc(literal: string)
    | StringDoc(units: seq<int>)
    | ArrayDoc(items: seq<Document>)
    | ObjectDoc(members: seq<(seq<int>, Document)>)

  datatype Reading<+T> = Fails | Reads(value: T, rest: string)

  // ----- section 2: white space -----

  predicate IsSpace(c: char) {
    c == ' ' || c == '\t' || c == '\n' || c == '\r'
  }

  function Skip(t: string): (u: string)
    ensures |u| <= |t|
  {
    if t != [] && IsSpace(t[0]) then Skip(t[1..]) else t
  }

  // ----- section 6: numbers -----

  predicate IsDigit(c: char) {
    '0' <= c <= '9'
  }

  /** The number of digits at the front of a text. */
  function DigitRun(t: string): (n: nat)
    ensures n <= |t|
  {
    if t == [] || !IsDigit(t[0]) then 0 else 1 + DigitRun(t[1..])
  }

  /** Behind the sign: one zero, or digits that do not begin with one. */
  function IntLength(t: string): (n: nat)
    ensures n <= |t|
  {
    if t != [] && t[0] == '0' then 1 else DigitRun(t)
  }

  /** A point and at least one digit, or nothing; negative for a point without a digit. */
  function FractionLength(t: string): (n: int)
    ensures n <= |t|
  {
    if t == [] || t[0] != '.' then 0
    else if DigitRun(t[1..]) == 0 then -1
    else 1 + DigitRun(t[1..])
  }

  /** An `e`, a sign or none, and at least one digit, or nothing; negative without a digit. */
  function ExponentLength(t: string): (n: int)
    ensures n <= |t|
  {
    if t == [] || (t[0] != 'e' && t[0] != 'E') then 0
    else
      var signed := |t| >= 2 && (t[1] == '+' || t[1] == '-');
      var digits := DigitRun(if signed then t[2..] else t[1..]);
      if digits == 0 then -1 else (if signed then 2 else 1) + digits
  }

  function Number(t: string): (r: Reading<Document>)
    ensures r.Reads? ==> |r.rest| < |t|
  {
    var sign := if t != [] && t[0] == '-' then 1 else 0;
    var whole := IntLength(t[sign..]);
    if whole == 0 then Fails
    else
      var fraction := FractionLength(t[sign + whole..]);
      if fraction < 0 then Fails
      else
        var exponent := ExponentLength(t[sign + whole + fraction..]);
        if exponent < 0 then Fails
        else
          var n := sign + whole + fraction + exponent;
          Reads(NumberDoc(t[..n]), t[n..])
  }

  // ----- section 7: strings -----

  predicate IsHex(c: char) {
    IsDigit(c) || 'a' <= c <= 'f' || 'A' <= c <= 'F'
  }

  function HexValue(c: char): int
    requires IsHex(c)
  {
    if IsDigit(c) then c as int - '0' as int
    else if 'a' <= c <= 'f' then 10 + (c as int - 'a' as int)
    else 10 + (c as int - 'A' as int)
  }

  /** The character that a two-character escape stands for, -1 if there is none. */
  function Escaped(c: char): int {
    match c
    case '"' => 0x22
    case '\\' => 0x5C
    case '/' => 0x2F
    case 'b' => 0x08
    case 'f' => 0x0C
    case 'n' => 0x0A
    case 'r' => 0x0D
    case 't' => 0x09
    case _ => -1
  }

  /** The string whose opening quote has been read, up to and with its closing quote. */
  function Characters(t: string): (r: Reading<seq<int>>)
    ensures r.Reads? ==> |r.rest| < |t|
  {
    if t == [] then Fails
    else if t[0] == '"' then Reads([], t[1..])
    else if t[0] == '\\' then
      if |t| >= 6 && t[1] == 'u' && IsHex(t[2]) && IsHex(t[3]) && IsHex(t[4]) && IsHex(t[5]) then
        Prefixed(0x1000 * HexValue(t[2]) + 0x100 * HexValue(t[3]) + 0x10 * HexValue(t[4]) + HexValue(t[5]),
                 Characters(t[6..]))
      else if |t| >= 2 && Escaped(t[1]) >= 0 then Prefixed(Escaped(t[1]), Characters(t[2..]))
      else Fails
    else if t[0] as int < 0x20 then Fails
    else Prefixed(t[0] as int, Characters(t[1..]))
  }

  function Prefixed(unit: int, r: Reading<seq<int>>): Reading<seq<int>> {
    match r
    case Fails => Fails
    case Reads(units, rest) => Reads([unit] + units, rest)
  }

  // ----- sections 3 to 5: values -----

  function Word(word: string, d: Document, t: string): (r: Reading<Document>)
    requires word != []
    ensures r.Reads? ==> |r.rest| < |t|
  {
    if word <= t then Reads(d, t[|word|..]) else Fails
  }

  /** A value at the front of a text that does not begin with white space. */
  function Value(t: string): (r: Reading<Document>)
    ensures r.Reads? ==> |r.rest| < |t|
    decreases |t|, 0
  {
    if t == [] then Fails
    else match t[0]
      case 'n' => Word("null", NullDoc, t)
      case 't' => Word("true", BoolDoc(true), t)
      case 'f' => Word("false", BoolDoc(false), t)
      case '"' =>
        (match Characters(t[1..])
         case Fails => Fails
         case Reads(units, rest) => Reads(StringDoc(units), rest))
      case '[' =>
        var u := Skip(t[1..]);
        if u != [] && u[0] == ']' then Reads(ArrayDoc([]), u[1..])
        else (match Items(u)
              case Fails => Fails
              case Reads(items, rest) => Reads(ArrayDoc(items), rest))
      case '{' =>
        var u := Skip(t[1..]);
        if u != [] && u[0] == '}' then Reads(ObjectDoc([]), u[1..])
        else (match Members(u)
              case Fails => Fails
              case Reads(members, rest) => Reads(ObjectDoc(members), rest))
      case _ => Number(t)
  }

  /** One value or more with commas between them, and the closing bracket. */
  function Items(t: string): (r: Reading<seq<Document>>)
    ensures r.Reads? ==> |r.rest| < |t|
    decreases |t|, 1
  {
    match Value(t)
    case Fails => Fails
    case Reads(d, rest) =>
      var u := Skip(rest);
      if u == [] then Fails
      else if u[0] == ']' then Reads([d], u[1..])
      else if u[0] != ',' then Fails
      else match Items(Skip(u[1..]))
        case Fails => Fails
        case Reads(items, after) => Reads([d] + items, after)
  }

  function Member(t: string): (r: Reading<(seq<int>, Document)>)
    ensures r.Reads? ==> |r.rest| < |t|
    decreases |t|, 1
  {
    if t == [] || t[0] != '"' then Fails
    else match Characters(t[1..])
      case Fails => Fails
      case Reads(key, rest) =>
        var u := Skip(rest);
        if u == [] || u[0] != ':' then Fails
        else match Value(Skip(u[1..]))
          case Fails => Fails
          case Reads(d, after) => Reads((key, d), after)
  }

  /** One member or more with commas between them, and the closing brace. */
  function Members(t: string): (r: Reading<seq<(seq<int>, Document)>>)
    ensures r.Reads? ==> |r.rest| < |t|
    decreases |t|, 2
  {
    match Member(t)
    case Fails => Fails
    case Reads(m, rest) =>
      var u := Skip(rest);
      if u == [] then Fails
      else if u[0] == '}' then Reads([m], u[1..])
      else if u[0] != ',' then Fails
      else match Members(Skip(u[1..]))
        case Fails => Fails
        case Reads(members, after) => Reads([m] + members, after)
  }

  /** A whole text: a value with white space around it and nothing else. */
  function Text(t: string): Reading<Document> {
    match Value(Skip(t))
    case Fails => Fails
    case Reads(d, rest) => if Skip(rest) == [] then Reads(d, []) else Fails
  }
}

/** Integers as text: `sprintf("%d")`, `sprintf("%.8g")` on whole numbers, and the two readers
    `stoi` and `stod`. */
module Decimal {
  import opened Text

  newtype int32 = x: int | -0x8000_0000 <= x < 0x8000_0000

  predicate IsDigit(c: char) {
    '0' <= c <= '9'
  }

  function DigitValue(c: char): (d: nat)
    requires IsDigit(c)
    ensures d <= 9
  {
    c as int - '0' as int
  }

  function DigitChar(d: nat): (c: char)
    requires d <= 9
    ensures IsDigit(c) && DigitValue(c) == d
  {
    (d + '0' as int) as char
  }

  /** The decimal digits of `n`, without leading zeros. */
  function Digits(n: nat): (s: string)
    ensures s != [] && forall c :: c in s ==> IsDigit(c)
  {
    if n < 10 then [DigitChar(n)] else Digits(n / 10) + [DigitChar(n % 10)]
  }

  function ToString(n: int): string {
    if n < 0 then "-" + Digits(-n) else Digits(n)
  }

  /** The number a string of digits stands for. */
  function Value(s: string): nat
    requires forall c :: c in s ==> IsDigit(c)
  {
    if s == [] then 0 else 10 * Value(s[..|s| - 1]) + DigitValue(s[|s| - 1])
  }

  lemma {:induction false} ValueOfDigits(n: nat)
    ensures Value(Digits(n)) == n
  {
    if n < 10 {
    } else {
      ValueOfDigits(n / 10);
      assert Digits(n)[..|Digits(n)| - 1] == Digits(n / 10);
    }
  }

  lemma {:induction false} ValueGrows(s: string, k: nat)
    requires (forall c :: c in s ==> IsDigit(c)) && k <= |s|
    ensures Value(s[..k]) <= Value(s)
  {
    if k < |s| {
      ValueGrows(s[..|s| - 1], k);
      assert s[..|s| - 1][..k] == s[..k];
    } else {
      assert s[..k] == s;
    }
  }

  lemma {:induction false} ValueStep(s: string, k: nat)
    requires (forall c :: c in s ==> IsDigit(c)) && k < |s|
    ensures Value(s[..k + 1]) == 10 * Value(s[..k]) + DigitValue(s[k]) <= Value(s)
  {
    assert s[..k + 1][..k] == s[..k];
    ValueGrows(s, k + 1);
  }

  // ----- which number a string of digits is -----

  function Pow10(k: nat): (p: nat)
    ensures p > 0
  {
    if k == 0 then 1 else 10 * Pow10(k - 1)
  }

  lemma {:induction false} PowAdd(a: nat, b: nat)
    ensures Pow10(a + b) == Pow10(a) * Pow10(b)
  {
    if a == 0 {
    } else {
      PowAdd(a - 1, b);
      Product(10, Pow10(a - 1), Pow10(b));
    }
  }

  lemma Product(a: nat, b: nat, c: nat)
    ensures (a * b) * c == a * (b * c)
  {
  }

  lemma TenTimes(a: nat, p: nat)
    ensures 10 * (a * p) == a * (10 * p)
  {
  }

  /** Numbers of one length are ordered as their digits are, and there are no more numbers than
      strings of that length. So the digits '0' to '9' are 0 to 9, and each place counts ten
      times the one behind it. */
  lemma {:induction false} ValueOrder(a: string, b: string)
    requires (forall c :: c in a ==> IsDigit(c)) && (forall c :: c in b ==> IsDigit(c)) && |a| == |b|
    ensures Value(a) < Value(b) <==> StrLess(a, b)
    ensures Value(a) == Value(b) <==> a == b
    ensures Value(a) < Pow10(|a|)
    decreases |a|
  {
    if a == [] {
    } else {
      var n := |a| - 1;
      ValueOrder(a[..n], b[..n]);
      ValueOrder(b[..n], a[..n]);
      StrLessSnoc(a[..n], a[n], b[..n], b[n]);
      StrLessDecides(a[..n], b[..n]);
      DigitOrder(a[n], b[n]);
      assert a == a[..n] + [a[n]] && b == b[..n] + [b[n]];
    }
  }

  lemma DigitOrder(c: char, d: char)
    requires IsDigit(c) && IsDigit(d)
    ensures DigitValue(c) < DigitValue(d) <==> c < d
    ensures DigitValue(c) == DigitValue(d) <==> c == d
  {
  }

  lemma {:induction false} StrLessSnoc(a: string, c: char, b: string, d: char)
    requires |a| == |b|
    ensures StrLess(a + [c], b + [d]) <==> StrLess(a, b) || (a == b && c < d)
  {
    if a == [] {
    } else {
      StrLessSnoc(a[1..], c, b[1..], d);
      assert (a + [c])[1..] == a[1..] + [c] && (b + [d])[1..] == b[1..] + [d];
      assert a == b <==> a[0] == b[0] && a[1..] == b[1..] by {
        assert a == [a[0]] + a[1..] && b == [b[0]] + b[1..];
      }
    }
  }

  lemma {:induction false} ValueConcat(a: string, b: string)
    requires (forall c :: c in a ==> IsDigit(c)) && (forall c :: c in b ==> IsDigit(c))
    ensures Value(a + b) == Value(a) * Pow10(|b|) + Value(b)
  {
    if b == [] {
      assert a + b == a;
    } else {
      var n := |b| - 1;
      ValueConcat(a, b[..n]);
      assert (a + b)[..|a + b| - 1] == a + b[..n];
      ConcatStep(Value(a), Pow10(n), Value(b[..n]), DigitValue(b[n]), Value(a + b[..n]));
    }
  }

  lemma ConcatStep(x: nat, p: nat, y: nat, d: nat, v: nat)
    requires v == x * p + y
    ensures 10 * v + d == x * (10 * p) + (10 * y + d)
  {
    TenTimes(x, p);
  }

  // ----- stoi -----

  /** The digits at the front of `s`. */
  function LeadingDigits(s: string): (d: string)
    ensures forall c :: c in d ==> IsDigit(c)
    ensures d <= s && (|d| < |s| ==> !IsDigit(s[|d|]))
  {
    if s == [] || !IsDigit(s[0]) then [] else [s[0]] + LeadingDigits(s[1..])
  }

  function Unsigned(s: string): string {
    if s != [] && (s[0] == '-' || s[0] == '+') then s[1..] else s
  }

  function StoiMagnitude(s: string): nat {
    Value(LeadingDigits(Unsigned(s)))
  }

  function StoiValue(s: string): int {
    var m: int := StoiMagnitude(s);
    if s != [] && s[0] == '-' then -m else m
  }

  /** `stoi` accumulates in an `int`: every intermediate result is in range whenever the
      magnitude is, and only then. */
  method Stoi(s: string) returns (r: int32)
    requires StoiMagnitude(s) < 0x8000_0000
    ensures r as int == StoiValue(s)
  {
    var sign: int32, i: nat := 1, 0;
    if CharAt(s, i) == '-' {
      sign := -1;
      i := i + 1;
    } else if CharAt(s, i) == '+' {
      i := i + 1;
    }
    assert s[i..] == Unsigned(s);
    var res := StoiLoop(s, i);
    return sign * res;
  }

  method StoiLoop(s: string, start: nat) returns (res: int32)
    requires start <= |s| && Value(LeadingDigits(s[start..])) < 0x8000_0000
    ensures res as int == Value(LeadingDigits(s[start..]))
  {
    ghost var t, done := LeadingDigits(s[start..]), "";
    res := 0;
    var i := start;
    while i < |s|
      invariant start <= i <= |s| && i - start == |done| <= |t| && done == t[..|done|]
      invariant res as int == Value(done)
    {
      if !IsDigit(s[i]) {
        break;
      }
      assert s[start..][|done|] == s[i];
      assert |done| < |t| && t[|done|] == s[i];
      ValueStep(t, |done|);
      done := t[..|done| + 1];
      res := res * 10 + (DigitValue(s[i]) as int32);
      i := i + 1;
    }
    if i < |s| {
      assert s[start..][|done|] == s[i];
    }
    assert done == t;
  }

  /** `stoi` undoes `to_string`, and overflows on no 32-bit integer but the smallest. */
  lemma StoiOfToString(n: int)
    ensures StoiValue(ToString(n)) == n
    ensures StoiMagnitude(ToString(n)) == if n < 0 then -n else n
    ensures -0x8000_0000 <= n < 0x8000_0000 ==>
              (StoiMagnitude(ToString(n)) < 0x8000_0000 <==> n != -0x8000_0000)
  {
    var m := if n < 0 then -n else n;
    ValueOfDigits(m);
    AllLeading(Digits(m));
    assert Unsigned(ToString(n)) == Digits(m);
  }

  lemma {:induction false} AllLeading(s: string)
    requires forall c :: c in s ==> IsDigit(c)
    ensures LeadingDigits(s) == s
  {
    if s == [] {
    } else {
      AllLeading(s[1..]);
    }
  }

  /** What `stoi` reads: digits, negative behind a minus sign, and as they are behind a plus sign
      or none; nothing behind them matters, and without digits there is zero. */
  lemma StoiReads(d: string, rest: string)
    requires (forall c :: c in d ==> IsDigit(c)) && (rest == [] || !IsDigit(rest[0]))
    ensures StoiValue("-" + (d + rest)) == 0 - Value(d)
    ensures StoiValue("+" + (d + rest)) == Value(d)
    ensures d != [] || rest == [] || rest[0] !in {'-', '+'} ==> StoiValue(d + rest) == Value(d)
  {
    LeadingOf(d, rest);
    SignedReads('-', d + rest);
    SignedReads('+', d + rest);
    assert d != [] ==> (d + rest)[0] == d[0] && d[0] in d;
    assert d == [] ==> d + rest == rest;
  }

  lemma SignedReads(sign: char, t: string)
    requires sign == '-' || sign == '+'
    ensures StoiValue([sign] + t) == if sign == '-' then 0 - Value(LeadingDigits(t)) else Value(LeadingDigits(t))
  {
    assert ([sign] + t)[1..] == t;
  }

  lemma {:induction false} LeadingOf(d: string, rest: string)
    requires (forall c :: c in d ==> IsDigit(c)) && (rest == [] || !IsDigit(rest[0]))
    ensures LeadingDigits(d + rest) == d
  {
    if d == [] {
      assert d + rest == rest;
    } else {
      LeadingOf(d[1..], rest);
      assert (d + rest)[0] == d[0] && (d + rest)[1..] == d[1..] + rest;
      assert d == [d[0]] + d[1..];
    }
  }

  // ----- stod -----

  /** The characters `stod` looks at: it stops at the first one that is neither a digit, a
      minus sign nor a point. An exponent is never looked at. */
  function Read(tok: string): (t: string)
    ensures t <= tok
    ensures |t| < |tok| ==> !IsDigit(tok[|t|]) && tok[|t|] != '-' && tok[|t|] != '.'
    ensures forall c :: c in t ==> IsDigit(c) || c == '-' || c == '.'
  {
    if tok == [] || !(IsDigit(tok[0]) || tok[0] == '-' || tok[0] == '.') then [] else [tok[0]] + Read(tok[1..])
  }

  function OnlyDigits(tok: string): (d: string)
    ensures forall c :: c in d ==> IsDigit(c)
  {
    if tok == [] then [] else if IsDigit(tok[0]) then [tok[0]] + OnlyDigits(tok[1..]) else OnlyDigits(tok[1..])
  }

  /** How many digits stand behind the first point. */
  function Decimals(tok: string): nat {
    if tok == [] then 0 else if tok[0] == '.' then |OnlyDigits(tok[1..])| else Decimals(tok[1..])
  }

  /** The value of a digit `k` places behind the point. */
  function Shift(k: nat): real {
    if k == 0 then 1.0 else Shift(k - 1) / 10.0
  }

  lemma {:induction false} ShiftIsPower(k: nat)
    ensures Shift(k) * (Pow10(k) as real) == 1.0
  {
    if k == 0 {
    } else {
      ShiftIsPower(k - 1);
      var shift, power := Shift(k - 1), Pow10(k - 1) as real;
      assert (shift / 10.0) * (10.0 * power) == shift * power;
    }
  }

  function Scaled(n: nat, k: nat): real {
    (n as real) * Shift(k)
  }

  /** All digits of a text, shifted by the number of them behind its first point. */
  function Magnitude(t: string): real {
    Scaled(Value(OnlyDigits(t)), Decimals(t))
  }

  /** `stod`, in exact arithmetic: all digits it reads, shifted by the number of them behind the
      first point. A minus sign anywhere makes the number negative, so the result is a sign and
      a magnitude: a negative zero is a number of its own. */
  method Stod(tok: string) returns (negative: bool, magnitude: real)
    ensures negative == ('-' in Read(tok))
    ensures magnitude == Magnitude(Read(tok))
  {
    var result, factor;
    negative, result, factor := StodLoop(tok);
    magnitude := result * factor;
  }

  method StodLoop(tok: string) returns (negative: bool, result: real, factor: real)
    ensures negative == ('-' in Read(tok))
    ensures result == Value(OnlyDigits(Read(tok))) as real && factor == Shift(Decimals(Read(tok)))
  {
    var decimal := false;
    negative, result, factor := false, 0.0, 1.0;
    ghost var t, done := Read(tok), "";
    var i := 0;
    while i < |tok|
      invariant i == |done| <= |t| <= |tok| && done == t[..i]
      invariant negative == ('-' in done) && decimal == ('.' in done)
      invariant result == Value(OnlyDigits(done)) as real && factor == Shift(Decimals(done))
    {
      var c := tok[i];
      if c == '-' {
        negative := true;
      } else if c == '.' {
        decimal := true;
      } else {
        if IsDigit(c) {
          if decimal {
            factor := factor / 10.0;
          }
          result := result * 10.0 + (DigitValue(c) as real);
        } else {
          break;
        }
      }
      assert t[i] == c;
      DigitsStep(done, c);
      DecimalsStep(done, c);
      done := done + [c];
      i := i + 1;
    }
    assert done == t;
  }

  lemma {:induction false} OnlyDigitsAppend(a: string, b: string)
    ensures OnlyDigits(a + b) == OnlyDigits(a) + OnlyDigits(b)
  {
    if a == [] {
      assert a + b == b;
    } else {
      OnlyDigitsAppend(a[1..], b);
      assert (a + b)[0] == a[0] && (a + b)[1..] == a[1..] + b;
      if IsDigit(a[0]) {
        assert [a[0]] + (OnlyDigits(a[1..]) + OnlyDigits(b)) == [a[0]] + OnlyDigits(a[1..]) + OnlyDigits(b);
      }
    }
  }

  lemma {:induction false} DigitsStep(a: string, c: char)
    ensures Value(OnlyDigits(a + [c])) ==
              if IsDigit(c) then 10 * Value(OnlyDigits(a)) + DigitValue(c) else Value(OnlyDigits(a))
  {
    OnlyDigitsAppend(a, [c]);
    var ds := OnlyDigits(a);
    if IsDigit(c) {
      assert OnlyDigits([c]) == [c];
      assert (ds + [c])[..|ds|] == ds;
    } else {
      assert OnlyDigits([c]) == [] && ds + [] == ds;
    }
  }

  lemma {:induction false} DecimalsStep(a: string, c: char)
    ensures Decimals(a + [c]) == Decimals(a) + if '.' in a && IsDigit(c) then 1 else 0
    ensures Shift(Decimals(a + [c])) == if '.' in a && IsDigit(c) then Shift(Decimals(a)) / 10.0 else Shift(Decimals(a))
  {
    if a == [] {
      assert [c][1..] == [];
    } else {
      assert (a + [c])[1..] == a[1..] + [c];
      if a[0] == '.' {
        OnlyDigitsAppend(a[1..], [c]);
      } else {
        DecimalsStep(a[1..], c);
      }
    }
  }

  lemma {:induction false} NoDecimals(tok: string)
    requires '.' !in tok
    ensures Decimals(tok) == 0
  {
    if tok == [] {
    } else {
      NoDecimals(tok[1..]);
    }
  }

  /** What `stod` reads: the digits in front of a point count as they are, those behind it as
      tenths, hundredths and so on; a minus sign in front makes the number negative; an exponent
      or anything else behind does not matter. */
  lemma {:induction false} StodReads(sign: string, a: string, b: string, rest: string)
    requires sign in {"", "-"}
    requires (forall c :: c in a ==> IsDigit(c)) && (forall c :: c in b ==> IsDigit(c))
    requires rest == [] || !(IsDigit(rest[0]) || rest[0] == '-' || rest[0] == '.')
    ensures var t := Read((sign + a + "." + b) + rest);
            && ('-' in t <==> sign == "-")
            && Magnitude(t) == Value(a) as real + Scaled(Value(b), |b|)
  {
    ReadOf(sign + a + "." + b, rest);
    PartsOf(sign, a, b);
    MagnitudeOf(sign + a + "." + b, a, b);
  }

  lemma MagnitudeOf(t: string, a: string, b: string)
    requires (forall c :: c in a ==> IsDigit(c)) && (forall c :: c in b ==> IsDigit(c))
    requires OnlyDigits(t) == a + b && Decimals(t) == |b|
    ensures Magnitude(t) == Value(a) as real + Scaled(Value(b), |b|)
  {
    ValueConcat(a, b);
    Share(Value(a), Value(b), Value(a + b), |b|);
  }

  lemma {:induction false} PartsOf(sign: string, a: string, b: string)
    requires sign in {"", "-"}
    requires (forall c :: c in a ==> IsDigit(c)) && (forall c :: c in b ==> IsDigit(c))
    ensures var t := sign + a + "." + b; OnlyDigits(t) == a + b && Decimals(t) == |b| && ('-' in t <==> sign == "-")
  {
    AllDigits(a);
    AllDigits(b);
    assert sign + a + "." + b == (sign + a) + ("." + b);
    OnlyDigitsAppend(sign + a, "." + b);
    OnlyDigitsAppend(sign, a);
    assert ("." + b)[1..] == b && OnlyDigits("." + b) == b;
    assert OnlyDigits(sign) == [] && [] + a == a;
    PointAt(sign + a, b);
  }

  lemma {:induction false} ReadOf(t: string, rest: string)
    requires forall c :: c in t ==> IsDigit(c) || c == '-' || c == '.'
    requires rest == [] || !(IsDigit(rest[0]) || rest[0] == '-' || rest[0] == '.')
    ensures Read(t + rest) == t
  {
    if t == [] {
      assert t + rest == rest;
    } else {
      ReadOf(t[1..], rest);
      assert (t + rest)[0] == t[0] && (t + rest)[1..] == t[1..] + rest;
      assert t == [t[0]] + t[1..];
    }
  }

  lemma {:induction false} PointAt(a: string, b: string)
    requires '.' !in a && forall c :: c in b ==> IsDigit(c)
    ensures Decimals(a + ("." + b)) == |b|
  {
    if a == [] {
      AllDigits(b);
      assert a + ("." + b) == "." + b && ("." + b)[1..] == b;
    } else {
      PointAt(a[1..], b);
      assert (a + ("." + b))[0] == a[0] && (a + ("." + b))[1..] == a[1..] + ("." + b);
    }
  }

  lemma Share(x: nat, y: nat, v: nat, k: nat)
    requires v == x * Pow10(k) + y
    ensures Scaled(v, k) == x as real + Scaled(y, k)
  {
    ShiftIsPower(k);
    var p, s := Pow10(k), Shift(k);
    assert v as real == (x as real) * (p as real) + (y as real);
    assert ((x as real) * (p as real)) * s == (x as real) * (s * (p as real));
  }

  /** Whole numbers up to this bound are doubles, and `stod` reaches them without rounding. */
  const EXACT: nat := 0x20_0000_0000_0000

  /** `stod` reads the token without rounding. */
  predicate IsExact(tok: string) {
    '.' !in Read(tok) && Value(OnlyDigits(Read(tok))) <= EXACT
  }

  /** `stod` undoes `to_string(int)`. */
  lemma StodOfToString(n: int)
    ensures Read(ToString(n)) == ToString(n) && '.' !in ToString(n)
    ensures '-' in ToString(n) <==> n < 0
    ensures Value(OnlyDigits(ToString(n))) == if n < 0 then -n else n
  {
    var m: nat := if n < 0 then -n else n;
    ValueOfDigits(m);
    AllDigits(Digits(m));
    if n < 0 {
      assert ToString(n)[1..] == Digits(m);
    }
  }

  lemma {:induction false} AllDigits(s: string)
    requires forall c :: c in s ==> IsDigit(c)
    ensures OnlyDigits(s) == s && Read(s) == s
  {
    if s == [] {
    } else {
      AllDigits(s[1..]);
    }
  }

  // ----- sprintf("%.8g") on whole numbers -----

  /** `n / unit`, rounded to the nearest whole number and to the even one when halfway. */
  function RoundHalfEven(n: nat, unit: nat): nat
    requires unit > 0
  {
    var q, r := n / unit, n % unit;
    if 2 * r < unit || (2 * r == unit && q % 2 == 0) then q else q + 1
  }

  function StripZeros(s: string): string {
    if s != [] && s[|s| - 1] == '0' then StripZeros(s[..|s| - 1]) else s
  }

  function TwoDigits(x: nat): string {
    if x < 10 then "0" + Digits(x) else Digits(x)
  }

  /** Up to eight digits are printed as they are; a longer number is rounded to eight
      significant digits and printed with an exponent, trailing zeros dropped. */
  function Printed8g(negative: bool, magnitude: nat): string {
    (if negative then "-" else "")
    + if magnitude < 100_000_000 then Digits(magnitude) else Scientific(magnitude)
  }

  function Printed(n: int): string {
    if n < 0 then Printed8g(true, -n) else Printed8g(false, n)
  }

  function Scientific(magnitude: nat): (s: string)
    requires magnitude >= 100_000_000
    ensures |s| >= 2 && IsDigit(s[0]) && (s[1] == '.' || s[1] == 'e')
  {
    var d := |Digits(magnitude)|;
    LengthOfDigits(magnitude, 8);
    var q := RoundHalfEven(magnitude, Pow10(d - 8));
    var (mantissa, exponent) := if q == 100_000_000 then (10_000_000, d) else (q, d - 1);
    var ds := Digits(mantissa);
    var fraction := StripZeros(ds[1..]);
    [ds[0]] + (if fraction == [] then [] else "." + fraction) + "e+" + TwoDigits(exponent)
  }

  lemma {:induction false} LengthOfDigits(n: nat, k: nat)
    requires n >= Pow10(k)
    ensures |Digits(n)| > k
  {
    if k == 0 {
    } else {
      LengthOfDigits(n / 10, k - 1);
    }
  }

  lemma {:induction false} DigitsLength(n: nat, k: nat)
    requires 1 <= k && Pow10(k - 1) <= n < Pow10(k)
    ensures |Digits(n)| == k && Digits(n)[0] != '0'
  {
    if k == 1 {
    } else {
      DigitsLength(n / 10, k - 1);
    }
  }

  /** `q` units are the multiple of `unit` nearest to `m`, the even one of two that are equally near. */
  ghost predicate IsNearest(q: nat, m: nat, unit: nat) {
    var n := q * unit;
    var off := if n < m then m - n else n - m;
    2 * off <= unit && (2 * off == unit ==> q % 2 == 0)
  }

  lemma RoundedIsNearest(m: nat, unit: nat)
    requires unit > 0
    ensures IsNearest(RoundHalfEven(m, unit), m, unit)
  {
    var q, rest := m / unit, m % unit;
    Halves(m, unit, q, rest, q * unit, (q + 1) * unit);
  }

  lemma Halves(m: nat, unit: nat, q: nat, rest: nat, below: nat, above: nat)
    requires below == q * unit && above == (q + 1) * unit && m == below + rest && rest < unit
    ensures 2 * rest <= unit && (2 * rest == unit ==> q % 2 == 0) ==> IsNearest(q, m, unit)
    ensures 2 * rest >= unit && (2 * rest == unit ==> q % 2 == 1) ==> IsNearest(q + 1, m, unit)
  {
    assert above == below + unit;
  }

  lemma {:induction false} StripValue(a: string, s: string)
    requires (forall c :: c in a ==> IsDigit(c)) && (forall c :: c in s ==> IsDigit(c))
    ensures |StripZeros(s)| <= |s| && (forall c :: c in StripZeros(s) ==> IsDigit(c))
    ensures StripZeros(s) == [] || StripZeros(s)[|StripZeros(s)| - 1] != '0'
    ensures Value(a + s) == Value(a + StripZeros(s)) * Pow10(|s| - |StripZeros(s)|)
  {
    if s == [] || s[|s| - 1] != '0' {
    } else {
      var n := |s| - 1;
      StripValue(a, s[..n]);
      assert (a + s)[..|a + s| - 1] == a + s[..n];
      TenTimes(Value(a + StripZeros(s)), Pow10(n - |StripZeros(s)|));
    }
  }

  // The parts of a number with an exponent, read from its characters.

  function UpToE(s: string): (u: string)
    ensures |u| <= |s|
  {
    if s == [] || s[0] == 'e' then [] else [s[0]] + UpToE(s[1..])
  }

  function BehindE(s: string): string {
    if |UpToE(s)| < |s| then s[|UpToE(s)| + 1..] else []
  }

  /** A first digit that is not zero, and behind a point, if there is one, digits of which the
      last is not zero. */
  predicate IsMantissa(u: string) {
    && u != [] && IsDigit(u[0]) && u[0] != '0'
    && (|u| == 1 || (|u| >= 3 && u[1] == '.' && u[|u| - 1] != '0' && forall i :: 2 <= i < |u| ==> IsDigit(u[i])))
  }

  /** A plus sign and at least two digits, of which the first is zero only if there are two. */
  predicate IsExponent(x: string) {
    |x| >= 3 && x[0] == '+' && (forall c :: c in x[1..] ==> IsDigit(c)) && (|x| > 3 ==> x[1] != '0')
  }

  lemma {:induction false} UpToEOf(u: string, x: string)
    requires 'e' !in u
    ensures UpToE(u + ("e" + x)) == u && BehindE(u + ("e" + x)) == x
  {
    var s := u + ("e" + x);
    if u == [] {
      assert s == "e" + x && s[1..] == x;
    } else {
      UpToEOf(u[1..], x);
      assert s[0] == u[0] && s[1..] == u[1..] + ("e" + x);
      assert u == [u[0]] + u[1..];
      assert s[|u| + 1..] == x;
    }
  }

  function Shifted(n: nat, k: nat): nat {
    n * Pow10(k)
  }

  lemma ShiftedAdd(n: nat, j: nat, k: nat)
    ensures Shifted(Shifted(n, j), k) == Shifted(n, j + k)
  {
    PowAdd(j, k);
    Product(n, Pow10(j), Pow10(k));
  }

  lemma {:induction false} NoLeadingZero(n: nat)
    requires n > 0
    ensures Digits(n)[0] != '0'
  {
    if n < 10 {
    } else {
      NoLeadingZero(n / 10);
    }
  }

  lemma ExponentText(e: nat)
    ensures IsExponent("+" + TwoDigits(e)) && Value(("+" + TwoDigits(e))[1..]) == e
  {
    ValueOfDigits(e);
    ValueConcat("0", Digits(e));
    assert ("+" + TwoDigits(e))[1..] == TwoDigits(e);
    if e >= 10 {
      NoLeadingZero(e);
      LengthOfDigits(e, 1);
    }
  }

  function Pointed(first: char, fraction: string): string {
    [first] + if fraction == [] then [] else "." + fraction
  }

  lemma PointedParts(c: char, f: string)
    requires IsDigit(c) && c != '0' && (forall x :: x in f ==> IsDigit(x)) && (f == [] || f[|f| - 1] != '0')
    ensures IsMantissa(Pointed(c, f)) && 'e' !in Pointed(c, f)
    ensures OnlyDigits(Pointed(c, f)) == [c] + f
  {
    var u := Pointed(c, f);
    if f == [] {
      assert u == [c] && u[1..] == [] && OnlyDigits(u) == [c] + [];
    } else {
      DigitsBehindPoint(c, f);
      MantissaWithFraction(c, f);
    }
  }

  lemma MantissaWithFraction(c: char, f: string)
    requires IsDigit(c) && c != '0' && (forall x :: x in f ==> IsDigit(x)) && f != [] && f[|f| - 1] != '0'
    ensures IsMantissa([c] + ("." + f)) && 'e' !in [c] + ("." + f)
  {
    var u := [c] + ("." + f);
    forall i | 2 <= i < |u| ensures IsDigit(u[i]) {
      assert u[i] == f[i - 2] && f[i - 2] in f;
    }
    forall i | 0 <= i < |u| ensures u[i] != 'e' {
      assert i >= 2 ==> IsDigit(u[i]);
    }
  }

  lemma DigitsBehindPoint(c: char, f: string)
    requires IsDigit(c) && forall x :: x in f ==> IsDigit(x)
    ensures OnlyDigits([c] + ("." + f)) == [c] + f
  {
    AllDigits(f);
    assert ([c] + ("." + f))[1..] == "." + f && ("." + f)[1..] == f;
  }

  /** The mantissa that eight digits are printed as. */
  lemma {:induction false} MantissaText(ds: string)
    requires |ds| == 8 && (forall c :: c in ds ==> IsDigit(c)) && ds[0] != '0'
    ensures var f := StripZeros(ds[1..]); var u := Pointed(ds[0], f);
            && IsMantissa(u) && 'e' !in u && OnlyDigits(u) == [ds[0]] + f && |f| <= 7
            && Value(ds) == Shifted(Value([ds[0]] + f), 7 - |f|)
  {
    var f := StripZeros(ds[1..]);
    StripValue([ds[0]], ds[1..]);
    assert [ds[0]] + ds[1..] == ds;
    PointedParts(ds[0], f);
  }

  lemma PowUnits(d: nat)
    requires d >= 8
    ensures Pow10(d - 1) == 10_000_000 * Pow10(d - 8) && Pow10(d) == 100_000_000 * Pow10(d - 8)
  {
    PowAdd(7, d - 8);
    assert Pow10(7) == 10_000_000;
  }

  /** The eight digits, and what they count. */
  lemma RoundedDigits(m: nat, d: nat)
    requires 9 <= d && Pow10(d - 1) <= m < Pow10(d)
    ensures m >= 100_000_000 && |Digits(m)| == d
    ensures 10_000_000 <= RoundHalfEven(m, Pow10(d - 8)) <= 100_000_000
  {
    DigitsLength(m, d);
    PowUnits(d);
    PowUnits(d - 1);
    Quotient(m, Pow10(d - 8));
  }

  lemma Quotient(m: nat, unit: nat)
    requires unit > 0 && 10_000_000 * unit <= m < 100_000_000 * unit
    ensures 10_000_000 <= m / unit < 100_000_000
  {
    var q, rest := m / unit, m % unit;
    assert m == q * unit + rest && (q + 1) * unit == q * unit + unit;
    if q < 10_000_000 {
      Times(q + 1, 10_000_000, unit);
    }
    if q >= 100_000_000 {
      Times(100_000_000, q, unit);
    }
  }

  lemma Times(a: nat, b: nat, unit: nat)
    requires a <= b
    ensures a * unit <= b * unit
  {
    assert b * unit == a * unit + (b - a) * unit;
  }

  /** What the mantissa and the exponent are for `q` units of the eighth digit. */
  function MantissaOf(q: nat): nat {
    if q == 100_000_000 then 10_000_000 else q
  }

  function ExponentOf(q: nat, d: nat): nat
    requires d >= 1
  {
    if q == 100_000_000 then d else d - 1
  }

  lemma {:induction false} MantissaShift(q: nat, d: nat, n: nat, k: nat)
    requires 9 <= d && k <= 7 && MantissaOf(q) == Shifted(n, k)
    ensures Shifted(n, ExponentOf(q, d) - 7 + k) == Shifted(q, d - 8)
  {
    var e := ExponentOf(q, d);
    ShiftedAdd(n, k, e - 7);
    if q == 100_000_000 {
      ShiftedAdd(10_000_000, 1, d - 8);
      assert Shifted(10_000_000, 1) == 100_000_000;
    }
  }

  lemma ScientificText(m: nat, d: nat, q: nat)
    requires m >= 100_000_000 && |Digits(m)| == d >= 9 && q == RoundHalfEven(m, Pow10(d - 8))
    ensures var ds := Digits(MantissaOf(q));
            Scientific(m) == Pointed(ds[0], StripZeros(ds[1..])) + ("e" + ("+" + TwoDigits(ExponentOf(q, d))))
  {
    var ds := Digits(MantissaOf(q));
    var u, x := Pointed(ds[0], StripZeros(ds[1..])), TwoDigits(ExponentOf(q, d));
    assert Scientific(m) == u + "e+" + x;
    assert u + "e+" + x == u + ("e" + ("+" + x));
  }

  lemma {:induction false} ScientificParts(m: nat, d: nat, q: nat) returns (u: string, e: nat)
    requires m >= 100_000_000 && |Digits(m)| == d >= 9
    requires q == RoundHalfEven(m, Pow10(d - 8)) && 10_000_000 <= q <= 100_000_000
    ensures Scientific(m) == u + ("e" + ("+" + TwoDigits(e)))
    ensures IsMantissa(u) && 'e' !in u && |OnlyDigits(u)| <= 8 && e >= 8
    ensures Shifted(Value(OnlyDigits(u)), e + 1 - |OnlyDigits(u)|) == Shifted(q, d - 8)
  {
    ScientificText(m, d, q);
    u, e := MantissaParts(q, d), ExponentOf(q, d);
    var ds := Digits(MantissaOf(q));
    EightDigits(q);
    MantissaText(ds);
    ValueOfDigits(MantissaOf(q));
    var f := StripZeros(ds[1..]);
    MantissaShift(q, d, Value([ds[0]] + f), 7 - |f|);
  }

  function MantissaParts(q: nat, d: nat): string {
    var ds := Digits(MantissaOf(q));
    Pointed(ds[0], StripZeros(ds[1..]))
  }

  lemma EightDigits(q: nat)
    requires 10_000_000 <= q <= 100_000_000
    ensures |Digits(MantissaOf(q))| == 8 && Digits(MantissaOf(q))[0] != '0'
  {
    assert Pow10(7) == 10_000_000 && Pow10(8) == 100_000_000;
    DigitsLength(MantissaOf(q), 8);
  }

  lemma SignedParts(negative: bool, u: string, x: string, n: nat)
    requires PartsSpell(u, x, n) && 'e' !in u
    ensures var text := (if negative then "-" else "") + (u + ("e" + x));
            && text != [] && (text[0] == '-' <==> negative)
            && Spells(Unsigned(text), n)
  {
    var body := u + ("e" + x);
    var text := (if negative then "-" else "") + body;
    UpToEOf(u, x);
    assert body[0] == u[0];
    assert Unsigned(text) == body;
  }

  /** Mantissa `u` and exponent `x` stand for a number of at most eight digits times a power of
      ten, and `n` is that number. */
  ghost predicate PartsSpell(u: string, x: string, n: nat) {
    && IsMantissa(u) && IsExponent(x)
    && var ds, e := OnlyDigits(u), Value(x[1..]);
       |ds| <= 8 && |ds| <= e + 1 && Shifted(Value(ds), e + 1 - |ds|) == n
  }

  ghost predicate Spells(t: string, n: nat) {
    PartsSpell(UpToE(t), BehindE(t), n)
  }

  lemma {:induction false} SpelledParts(u: string, e: nat, n: nat)
    requires IsMantissa(u) && |OnlyDigits(u)| <= 8 && e >= 8
    requires n == Shifted(Value(OnlyDigits(u)), e + 1 - |OnlyDigits(u)|)
    ensures PartsSpell(u, "+" + TwoDigits(e), n)
  {
    ExponentText(e);
  }

  lemma {:induction false} ScientificSpells(negative: bool, m: nat, d: nat, q: nat) returns (n: nat)
    requires m >= 100_000_000 && |Digits(m)| == d >= 9
    requires q == RoundHalfEven(m, Pow10(d - 8)) && 10_000_000 <= q <= 100_000_000
    ensures Printed8g(negative, m) != [] && (Printed8g(negative, m)[0] == '-' <==> negative)
    ensures Spells(Unsigned(Printed8g(negative, m)), n) && n == Shifted(q, d - 8)
  {
    var u, e;
    u, e, n := PartsOfUnits(m, d, q);
    SignedParts(negative, u, "+" + TwoDigits(e), n);
    PrintedLong(negative, m, u + ("e" + ("+" + TwoDigits(e))));
  }

  lemma {:induction false} PartsOfUnits(m: nat, d: nat, q: nat) returns (u: string, e: nat, n: nat)
    requires m >= 100_000_000 && |Digits(m)| == d >= 9
    requires q == RoundHalfEven(m, Pow10(d - 8)) && 10_000_000 <= q <= 100_000_000
    ensures Scientific(m) == u + ("e" + ("+" + TwoDigits(e))) && 'e' !in u
    ensures PartsSpell(u, "+" + TwoDigits(e), n) && n == Shifted(q, d - 8)
  {
    u, e := ScientificParts(m, d, q);
    n := Shifted(q, d - 8);
    SpelledParts(u, e, n);
  }

  lemma PrintedLong(negative: bool, m: nat, body: string)
    requires m >= 100_000_000 && Scientific(m) == body
    ensures Printed8g(negative, m) == (if negative then "-" else "") + body
  {
  }

  /** The text of a number of nine or more digits, read from its characters: sign, mantissa and
      exponent as `%.8g` writes them, and together the number `n` of at most eight significant
      digits that is nearest, `q` units of the eighth digit, an even number of them when halfway. */
  lemma {:induction false} ScientificIsNearest(negative: bool, m: nat, d: nat) returns (q: nat, n: nat)
    requires 9 <= d && Pow10(d - 1) <= m < Pow10(d)
    ensures Printed8g(negative, m) != [] && (Printed8g(negative, m)[0] == '-' <==> negative)
    ensures Spells(Unsigned(Printed8g(negative, m)), n)
    ensures n == Shifted(q, d - 8) && IsNearest(q, m, Pow10(d - 8))
  {
    RoundedDigits(m, d);
    q := RoundHalfEven(m, Pow10(d - 8));
    RoundedIsNearest(m, Pow10(d - 8));
    n := ScientificSpells(negative, m, d, q);
  }

  /** A number of at most eight digits is printed as its digits, with a minus sign if it is
      negative, zero included; `stod` reads the text back as the same sign and magnitude. */
  lemma PrintedReadsBack(negative: bool, m: nat)
    requires m < 100_000_000
    ensures var t := Printed8g(negative, m);
            && Read(t) == t && '.' !in t && ('-' in t <==> negative) && Value(OnlyDigits(t)) == m
            && |t| <= if negative then 9 else 8
  {
    var ds := Digits(m);
    ValueOfDigits(m);
    AllDigits(ds);
    assert Pow10(8) == 100_000_000;
    AtMost(m, 8);
    assert Printed8g(negative, m) == (if negative then "-" else "") + ds;
    BehindMinus(ds);
    assert "" + ds == ds;
  }

  lemma BehindMinus(ds: string)
    requires forall c :: c in ds ==> IsDigit(c)
    ensures Read("-" + ds) == "-" + ds && OnlyDigits("-" + ds) == ds && '.' !in "-" + ds
  {
    AllDigits(ds);
    assert ("-" + ds)[1..] == ds;
  }

  lemma {:induction false} AtMost(n: nat, k: nat)
    requires k >= 1 && n < Pow10(k)
    ensures |Digits(n)| <= k
  {
    if n < 10 {
    } else {
      AtMost(n / 10, k - 1);
    }
  }

  /** An integer that was parsed is kept as the text `%.8g` prints for it. `stoi` reads that
      text back as the same integer exactly when it has at most eight digits, and then the
      text is the integer's own. */
  lemma {:induction false} EightDigitsSurvive(n: int)
    ensures -100_000_000 < n < 100_000_000 <==> StoiValue(Printed(n)) == n
    ensures -100_000_000 < n < 100_000_000 <==> Printed(n) == ToString(n)
    ensures !(-100_000_000 < n < 100_000_000) ==> StoiMagnitude(Printed(n)) <= 9
  {
    StoiOfToString(n);
    if -100_000_000 < n < 100_000_000 {
      assert "" + Digits(if n < 0 then -n else n) == Digits(if n < 0 then -n else n);
    } else {
      LongIsCutShort(n < 0, if n < 0 then -n else n);
    }
  }

  lemma LongIsCutShort(negative: bool, m: nat)
    requires m >= 100_000_000
    ensures StoiMagnitude(Printed8g(negative, m)) <= 9
  {
    var body := Scientific(m);
    var text := Printed8g(negative, m);
    assert text == (if negative then "-" else "") + body;
    assert Unsigned(text) == body;
    FirstDigitOnly(body);
  }

  lemma FirstDigitOnly(s: string)
    requires |s| >= 2 && IsDigit(s[0]) && !IsDigit(s[1])
    ensures Value(LeadingDigits(s)) <= 9
  {
    assert LeadingDigits(s[1..]) == [];
    assert LeadingDigits(s) == [s[0]];
    assert Value([s[0]]) == DigitValue(s[0]);
  }
}

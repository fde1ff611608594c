/** C strings as sequences of characters, and their `strcmp` order. */
module Text {
  import opened SortedEntries

  /** The terminator that ends the characters of a C string can be read as well. */
  function CharAt(s: string, i: nat): char
    requires i <= |s|
  {
    if i < |s| then s[i] else '\0'
  }

  /** `strcmp(a, b) < 0`. */
  function StrLess(a: string, b: string): bool {
    b != [] && (a == [] || a[0] < b[0] || (a[0] == b[0] && StrLess(a[1..], b[1..])))
  }

  lemma {:induction false} StrLessDecides(a: string, b: string)
    ensures !(StrLess(a, b) && StrLess(b, a))
    ensures a == b || StrLess(a, b) || StrLess(b, a)
  {
    if a == [] || b == [] {
    } else {
      StrLessDecides(a[1..], b[1..]);
      if a[0] == b[0] && a[1..] == b[1..] {
        assert a == [a[0]] + a[1..] == b;
      }
    }
  }

  lemma {:induction false} StrLessIsTransitive(a: string, b: string, c: string)
    requires StrLess(a, b) && StrLess(b, c)
    ensures StrLess(a, c)
  {
    if a == [] || !(a[0] == b[0] == c[0]) {
    } else {
      StrLessIsTransitive(a[1..], b[1..], c[1..]);
    }
  }

  /** The order of string keys is one a map can be kept in. */
  lemma StrLessIsTotalOrder()
    ensures TotalOrder(StrLess)
  {
    forall a: string, b: string
      ensures !StrLess(a, a) && (a == b || StrLess(a, b) || StrLess(b, a))
    {
      StrLessDecides(a, a);
      StrLessDecides(a, b);
    }
    forall a: string, b: string, c: string | StrLess(a, b) && StrLess(b, c) ensures StrLess(a, c) {
      StrLessIsTransitive(a, b, c);
    }
  }
}

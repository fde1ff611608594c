/** `lxcd::string`: a NUL-terminated buffer with a length field of its own. */
module CStrings {
  import opened Text

  /** `string::npos`, the largest size_t. */
  const NPOS: nat := 0xFFFF_FFFF_FFFF_FFFF

  function Min(a: nat, b: nat): nat {
    if a < b then a else b
  }

  // ----- what the editing operations do to the text -----

  function Erased(t: string, pos: nat, count: nat): string {
    t[..Min(pos, |t|)] + t[Min(pos + count, |t|)..]
  }

  function Inserted(t: string, pos: nat, s: string): string
    requires pos <= |t|
  {
    t[..pos] + s + t[pos..]
  }

  function Replaced(t: string, pos: nat, count: nat, s: string): string {
    if pos > |t| then t else t[..pos] + s + t[Min(pos + count, |t|)..]
  }

  lemma ReplaceIsEraseThenInsert(t: string, pos: nat, count: nat, s: string)
    requires pos <= |t|
    ensures pos <= |Erased(t, pos, count)|
    ensures Replaced(t, pos, count, s) == Inserted(Erased(t, pos, count), pos, s)
  {
    var e := Erased(t, pos, count);
    assert e[..pos] == t[..pos] && e[pos..] == t[Min(pos + count, |t|)..];
  }

  lemma ErasedInside(t: string, pos: nat, count: nat)
    requires pos + count <= |t|
    ensures |Erased(t, pos, count)| == |t| - count
    ensures forall i :: 0 <= i < |t| - count ==> Erased(t, pos, count)[i] == t[if i < pos then i else i + count]
  {
  }

  lemma InsertedInside(t: string, pos: nat, s: string)
    requires pos <= |t|
    ensures var r := Inserted(t, pos, s);
            && |r| == |t| + |s|
            && (forall i :: 0 <= i < |r| ==>
                  r[i] == if i < pos then t[i] else if i < pos + |s| then s[i - pos] else t[i - |s|])
  {
  }

  lemma ReplacedInside(t: string, pos: nat, count: nat, s: string)
    requires pos <= |t|
    ensures var r, n := Replaced(t, pos, count, s), Min(count, |t| - pos);
            && |r| == |t| - n + |s|
            && (forall i :: 0 <= i < |r| ==>
                  r[i] == if i < pos then t[i] else if i < pos + |s| then s[i - pos] else t[i - |s| + n])
  {
  }

  lemma EraseUndoesInsert(t: string, pos: nat, s: string)
    requires pos <= |t|
    ensures Erased(Inserted(t, pos, s), pos, |s|) == t
  {
    var i := Inserted(t, pos, s);
    assert i[..pos] == t[..pos] && i[pos + |s|..] == t[pos..];
  }

  class CString {
    var data: array<char>
    var size: nat
    ghost var text: string   // the characters in front of the first NUL

    /** The buffer holds the text and its terminator; the length field may be too large. */
    ghost predicate Valid()
      reads this, data
    {
      && |text| < data.Length && data[|text|] == '\0' && |text| <= size <= NPOS
      && (forall i :: 0 <= i < |text| ==> data[i] == text[i] && text[i] != '\0')
    }

    /** The length field is right. */
    ghost predicate Exact()
      reads this, data
    {
      Valid() && size == |text|
    }

    constructor (s: string)
      requires '\0' !in s && |s| < NPOS
      ensures Exact() && text == s && fresh(data)
    {
      var buffer := new char[|s| + 1](i requires 0 <= i <= |s| => if i < |s| then s[i] else '\0');
      data, size, text := buffer, |s|, s;
    }

    /** The copy constructor: the copy's buffer has room for the length field it takes over,
        which that of the original need not have. */
    constructor Copy(other: CString)
      requires other.Valid() && other.size < NPOS
      ensures Valid() && text == other.text && size == other.size && data.Length == size + 1 && fresh(data)
    {
      var buffer := new char[other.size + 1];
      var length := other.StrLen();
      forall i | 0 <= i <= length { buffer[i] := other.data[i]; }
      data, size, text := buffer, other.size, other.text;
    }

    /** `strlen` */
    method StrLen() returns (n: nat)
      requires Valid()
      ensures n == |text|
    {
      n := 0;
      while data[n] != '\0'
        invariant n <= |text|
        invariant n < |text| ==> data[n] == text[n] && text[n] in text
        decreases |text| - n
      {
        n := n + 1;
      }
    }

    /** The condition on `count` keeps the 64-bit sum `pos + count` from wrapping. If the length
        field is too large, what is erased must lie in the text: then the text is still right. */
    method Erase(pos: nat, count: nat)
      requires Valid() && size < data.Length && (count == NPOS || pos + count <= NPOS)
      requires Exact() || pos + count <= |text|
      modifies this, data
      ensures Valid() && data == old(data) && text == Erased(old(text), pos, count)
      ensures size == old(size) -
                (if pos >= old(size) then 0 else if pos + count >= old(size) then old(size) - pos else count)
      ensures old(Exact()) ==> Exact()
    {
      if pos >= size {
        return;
      }
      if count == NPOS || pos + count >= size {
        size := pos;
        data[size] := '\0';
        text := text[..pos];
        return;
      }
      ghost var t, left := text, Erased(text, pos, count);
      ErasedInside(t, pos, count);
      MoveDown(pos, count);
      size := size - count;
      text := left;
    }

    /** `memmove`: the characters behind the gap, the one at `size` included, move down over it. */
    method MoveDown(pos: nat, count: nat)
      requires pos + count <= size < data.Length
      modifies data
      ensures forall i :: 0 <= i < pos ==> data[i] == old(data[i])
      ensures forall i :: pos <= i <= size - count ==> data[i] == old(data[i + count])
    {
      forall i | 0 <= i < size - pos - count + 1 {
        data[pos + i] := data[pos + count + i];
      }
      forall i | pos <= i <= size - count ensures data[i] == old(data[i + count]) {
        assert data[pos + (i - pos)] == old(data[pos + count + (i - pos)]);
      }
    }

    /** A new buffer with `pos` characters of this one, `str`, and `count` more from `start` on. */
    method Assembled(pos: nat, str: string, start: nat, count: nat, length: nat) returns (newData: array<char>)
      requires pos <= data.Length && start + count <= data.Length && pos + |str| + count <= length
      ensures fresh(newData) && newData.Length == length
      ensures forall i :: 0 <= i < pos ==> newData[i] == data[i]
      ensures forall i :: pos <= i < pos + |str| ==> newData[i] == str[i - pos]
      ensures forall i :: pos + |str| <= i < pos + |str| + count ==> newData[i] == data[i - |str| - pos + start]
    {
      newData := new char[length];
      forall i | 0 <= i < pos { newData[i] := data[i]; }
      forall i | pos <= i < pos + |str| { newData[i] := str[i - pos]; }
      forall i | pos + |str| <= i < pos + |str| + count { newData[i] := data[i - |str| - pos + start]; }
    }

    /** Behind the text nothing inserted is seen; a string with too large a length field brings
        its terminator along and cuts off what follows it. */
    method Insert(pos: nat, str: CString)
      requires Valid() && size < data.Length && str.Valid() && str.size < str.data.Length
      requires pos <= size && size + str.size < NPOS
      modifies this
      ensures Valid() && fresh(data) && size == old(size + str.size) < data.Length
      ensures text == old(if pos > |text| then text
                          else if str.Exact() then Inserted(text, pos, str.text)
                          else text[..pos] + str.text)
      ensures old(Exact() && str.Exact()) ==> Exact()
    {
      var newSize := size + str.size;
      var newData := Assembled(pos, str.data[..str.size], pos, size - pos, newSize + 1);
      newData[newSize] := '\0';
      if pos <= |text| {
        InsertedInside(text, pos, str.text);
        ghost var seen := if str.size == |str.text| then Inserted(text, pos, str.text) else text[..pos] + str.text;
        assert forall i :: 0 <= i < |seen| ==> newData[i] == seen[i] && seen[i] != '\0';
        text := seen;
      }
      data := newData;
      size := newSize;
    }

    /** With a length field that is too large, what is replaced must lie in the text. */
    method Replace(pos: nat, count: nat, str: string)
      requires Valid() && size < data.Length && '\0' !in str && pos + count <= NPOS && size + |str| < NPOS
      requires Exact() || pos > size || pos + count <= |text|
      modifies this
      ensures Valid() && size < data.Length
      ensures text == if pos > old(size) then old(text) else Replaced(old(text), pos, count, str)
      ensures old(Exact()) ==> Exact()
    {
      if pos > size {
        return;
      }
      var n := if pos + count > size then size - pos else count;
      var newSize := size - n + |str|;
      var length := StrLen();
      var newData := Assembled(pos, str, pos + n, length - pos - n + 1, newSize + 1);
      ghost var seen := Replaced(text, pos, count, str);
      ReplacedInside(text, pos, count, str);
      assert n == Min(count, |text| - pos) && |seen| == |text| - n + |str|;
      forall i | 0 <= i < |seen| ensures newData[i] == seen[i] && seen[i] != '\0' {
        if pos <= i < pos + |str| {
          assert str[i - pos] in str;
        }
      }
      text := seen;
      data := newData;
      size := newSize;
    }

    /** `reserve`, which is `resize`: growing moves the length field along with the buffer,
        shrinking cuts the text and leaves the length field. */
    method Reserve(n: nat)
      requires Valid() && n < NPOS && (n <= size ==> n < data.Length)
      modifies this, data
      ensures Valid() && text == old(text[..Min(n, |text|)])
      ensures size == (if n <= old(size) then old(size) else n) && n < data.Length
      ensures fresh(data) || data == old(data)
    {
      if n <= size {
        data[n] := '\0';
        text := text[..Min(n, |text|)];
      } else {
        var newData := new char[n + 1](_ => '\0');
        var length := StrLen();
        forall i | 0 <= i <= length { newData[i] := data[i]; }
        data := newData;
        size := n;
      }
    }

    /** `operator+=` on a C string counts the appended characters twice, once in `reserve` and
        once itself. The text is right, the length field only if nothing was appended. */
    method Append(str: string)
      requires Valid() && '\0' !in str && size + 2 * |str| < NPOS
      requires str == [] ==> size < data.Length
      modifies this, data
      ensures Valid() && text == old(text) + str
      ensures size == old(size) + 2 * |str|
      ensures old(Exact()) ==> (Exact() <==> str == [])
      ensures data == old(data) || fresh(data)
    {
      Reserve(size + |str|);
      var end := StrLen();
      forall i | 0 <= i <= |str| {
        data[end + i] := if i < |str| then str[i] else '\0';
      }
      size := size + |str|;
      text := text + str;
    }

    // ----- comparing -----

    /** `operator==`: equal length fields, and the same text. */
    method Equals(other: CString) returns (equal: bool)
      requires Valid() && other.Valid()
      ensures equal <==> Same(this, other)
    {
      if size != other.size {
        return false;
      }
      var i := FirstDifference(other);
      equal := data[i] == other.data[i];
    }

    /** `operator<`: `strcmp` looks at the texts only. */
    method Less(other: CString) returns (less: bool)
      requires Valid() && other.Valid()
      ensures less <==> StrLess(text, other.text)
    {
      var i := FirstDifference(other);
      LessAt(text, other.text, i);
      less := data[i] < other.data[i];
    }

    /** Where `strcmp` stops: at the first difference, or at the end of both texts. */
    method FirstDifference(other: CString) returns (i: nat)
      requires Valid() && other.Valid()
      ensures i <= |text| && i <= |other.text| && text[..i] == other.text[..i]
      ensures data[i] == CharAt(text, i) && other.data[i] == CharAt(other.text, i)
      ensures data[i] == other.data[i] <==> text == other.text
    {
      i := 0;
      while data[i] == other.data[i] && data[i] != '\0'
        invariant i <= |text| && i <= |other.text| && text[..i] == other.text[..i]
        invariant i < |text| ==> data[i] == text[i] && text[i] in text
        invariant i < |other.text| ==> other.data[i] == other.text[i] && other.text[i] in other.text
        decreases |text| - i
      {
        i := i + 1;
      }
      if data[i] == other.data[i] {
        assert text == text[..i] && other.text == other.text[..i];
      }
    }
  }

  lemma {:induction false} LessAt(a: string, b: string, i: nat)
    requires '\0' !in a && '\0' !in b && i <= |a| && i <= |b| && a[..i] == b[..i]
    requires CharAt(a, i) == CharAt(b, i) ==> a == b
    ensures CharAt(a, i) < CharAt(b, i) <==> StrLess(a, b)
  {
    if i == 0 {
      StrLessDecides(a, b);
      if a != [] && b != [] {
        assert a[0] in a && b[0] in b;
      }
    } else {
      assert a[0] == a[..i][0] && b[0] == b[..i][0];
      assert a[1..][..i - 1] == a[..i][1..] && b[1..][..i - 1] == b[..i][1..];
      LessAt(a[1..], b[1..], i - 1);
    }
  }

  /** What `operator==` compares. */
  ghost predicate Same(a: CString, b: CString)
    reads a, b
  {
    a.size == b.size && a.text == b.text
  }

  /** A map finds a key by `<` and then asks `==`. The two fit together on a pair of strings
      exactly when equal texts have equal length fields, and so whenever both fields are right. */
  lemma OrderFitsEquality(a: CString, b: CString)
    requires a.Valid() && b.Valid()
    ensures (!StrLess(a.text, b.text) && !StrLess(b.text, a.text) <==> Same(a, b))
            <==> (a.text == b.text ==> a.size == b.size)
    ensures a.Exact() && b.Exact() ==> (!StrLess(a.text, b.text) && !StrLess(b.text, a.text) <==> Same(a, b))
  {
    StrLessDecides(a.text, b.text);
  }

  /** The length field is twice that of the text, as `+=` makes it of an empty string. */
  ghost predicate Appended(a: CString)
    reads a, a.data
  {
    a.Valid() && a.size == 2 * |a.text|
  }

  /** Two strings that were both built from nothing with `+=` are equal when their texts are:
      the length fields are wrong in the same way. */
  lemma AppendedEqual(a: CString, b: CString)
    requires Appended(a) && Appended(b)
    ensures Same(a, b) <==> a.text == b.text
  {
  }

  /** Two strings with the text "a", the second one built with `+=`: neither is less, and they are not equal. */
  method UnequalTwins() returns (a: CString, b: CString)
    ensures a.Valid() && b.Valid() && a.text == b.text == "a"
    ensures !StrLess(a.text, b.text) && !StrLess(b.text, a.text) && !Same(a, b)
  {
    a := new CString("a");
    b := new CString("");
    b.Append("a");
    assert b.text == "" + "a" == "a";
  }
}

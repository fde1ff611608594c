/** Path normalisation of the HTTP handler. */
module Paths {
  import opened CStrings
  import opened Splitting

  /** The text with every run of slashes made one; `prev` says that a slash was just kept. */
  function CollapsedFrom(s: string, prev: bool): string {
    if s == [] then []
    else if s[0] == '/' then (if prev then [] else "/") + CollapsedFrom(s[1..], true)
    else [s[0]] + CollapsedFrom(s[1..], false)
  }

  function Collapsed(s: string): string {
    CollapsedFrom(s, false)
  }

  /** The result is built with `+=`, character by character, which makes its length field twice
      what it should be. */
  method ReplaceDoubleSlashes(str: string) returns (result: CString)
    requires '\0' !in str && 2 * |str| < NPOS
    ensures fresh(result) && fresh(result.data) && Appended(result) && result.text == Collapsed(str)
  {
    result := new CString("");
    var prevIsSlash := false;
    for i := 0 to |str|
      invariant fresh(result) && fresh(result.data) && Appended(result) && |result.text| <= i
      invariant result.text + CollapsedFrom(str[i..], prevIsSlash) == Collapsed(str)
    {
      CollapsedStep(result.text, str, i, prevIsSlash);
      if str[i] == '/' {
        if !prevIsSlash {
          result.Append([str[i]]);
          prevIsSlash := true;
        }
      } else {
        result.Append([str[i]]);
        prevIsSlash := false;
      }
    }
    assert result.text + [] == result.text;
  }

  lemma CollapsedStep(before: string, str: string, i: nat, prev: bool)
    requires i < |str|
    ensures before + CollapsedFrom(str[i..], prev) ==
              (if str[i] == '/' && prev then before else before + [str[i]]) + CollapsedFrom(str[i + 1..], str[i] == '/')
  {
    assert str[i..][0] == str[i] && str[i..][1..] == str[i + 1..];
  }

  // ----- what normalisation keeps and removes -----

  ghost predicate NoDoubleSlash(s: string) {
    forall i :: 0 <= i < |s| - 1 ==> !(s[i] == '/' && s[i + 1] == '/')
  }

  predicate Leads(s: string) {
    s != [] && s[0] == '/'
  }

  predicate Trails(s: string) {
    s != [] && s[|s| - 1] == '/'
  }

  lemma {:induction false} CollapsedHasNoDouble(s: string, prev: bool)
    ensures NoDoubleSlash(CollapsedFrom(s, prev))
    ensures prev ==> !Leads(CollapsedFrom(s, prev))
  {
    if s == [] {
    } else {
      CollapsedHasNoDouble(s[1..], s[0] == '/');
    }
  }

  lemma {:induction false} NoDoubleIsCollapsed(s: string, prev: bool)
    requires NoDoubleSlash(s) && !(prev && Leads(s))
    ensures CollapsedFrom(s, prev) == s
  {
    if s == [] {
    } else {
      assert NoDoubleSlash(s[1..]) by {
        assert forall i :: 0 <= i < |s| - 1 ==> s[1..][i] == s[i + 1];
      }
      NoDoubleIsCollapsed(s[1..], s[0] == '/');
    }
  }

  /** No two slashes are left side by side, and normalising again changes nothing. */
  lemma CollapsedIsNormal(s: string)
    ensures NoDoubleSlash(Collapsed(s))
    ensures Collapsed(Collapsed(s)) == Collapsed(s)
    ensures Collapsed(s) == s <==> NoDoubleSlash(s)
  {
    CollapsedHasNoDouble(s, false);
    NoDoubleIsCollapsed(Collapsed(s), false);
    if NoDoubleSlash(s) {
      NoDoubleIsCollapsed(s, false);
    }
  }

  function NonEmpty(ps: seq<string>): seq<string> {
    if ps == [] then [] else (if ps[0] == [] then [] else [ps[0]]) + NonEmpty(ps[1..])
  }

  /** The names a path is made of. */
  function Segments(s: string): seq<string> {
    NonEmpty(Split(s, '/'))
  }

  lemma SegmentsBehindSlash(x: string)
    ensures Segments("/" + x) == Segments(x)
  {
    assert ("/" + x)[1..] == x;
    assert ([[]] + Split(x, '/'))[1..] == Split(x, '/');
  }

  /** A character in front of a path starts a segment of its own or prolongs the first one. */
  lemma SegmentsBehindCharacter(c: char, x: string)
    requires c != '/'
    ensures x == [] || x[0] == '/' ==> Segments([c] + x) == [[c]] + Segments(x)
    ensures !(x == [] || x[0] == '/') ==>
              Segments(x) != [] && Segments([c] + x) == [[c] + Segments(x)[0]] + Segments(x)[1..]
  {
    var ps := Split(x, '/');
    assert ([c] + x)[1..] == x;
    var qs := [[c] + ps[0]] + ps[1..];
    assert Split([c] + x, '/') == qs && qs[1..] == ps[1..];
    if x == [] || x[0] == '/' {
      assert ps[0] == [];
      assert [c] + [] == [c];
      assert NonEmpty(ps) == [] + NonEmpty(ps[1..]);
    } else {
      assert ps[0] != [];
      assert NonEmpty(ps) == [ps[0]] + NonEmpty(ps[1..]);
      assert NonEmpty(ps)[1..] == NonEmpty(ps[1..]);
    }
  }

  /** Normalisation keeps the segments, in order, and whether the path starts with a slash. */
  lemma {:induction false} CollapsedKeepsSegments(s: string, prev: bool)
    ensures Segments(CollapsedFrom(s, prev)) == Segments(s)
    ensures !prev ==> Leads(CollapsedFrom(s, prev)) == Leads(s) && (CollapsedFrom(s, prev) == [] <==> s == [])
  {
    if s == [] {
    } else {
      assert [s[0]] + s[1..] == s;
      if s[0] == '/' {
        CollapsedKeepsSegments(s[1..], true);
        SegmentsBehindSlash(s[1..]);
        SegmentsBehindSlash(CollapsedFrom(s[1..], true));
        assert [] + CollapsedFrom(s[1..], true) == CollapsedFrom(s[1..], true);
      } else {
        CollapsedKeepsSegments(s[1..], false);
        SegmentsBehindCharacter(s[0], s[1..]);
        SegmentsBehindCharacter(s[0], CollapsedFrom(s[1..], false));
      }
    }
  }

  function Slash(b: bool): string {
    if b then "/" else ""
  }

  /** The segments with single slashes between them, and one behind them if `trail`. */
  function Body(segments: seq<string>, trail: bool): string {
    if segments == [] then [] else Join(segments, '/') + Slash(trail)
  }

  /** A normalised path is spelt out by its segments and its outer slashes. */
  lemma {:induction false} CollapsedIsSpelt(s: string, prev: bool)
    ensures CollapsedFrom(s, prev) == Slash(!prev && Leads(s)) + Body(Segments(s), Trails(s))
  {
    if s == [] {
    } else {
      var x := s[1..];
      assert s == [s[0]] + x;
      if s[0] == '/' {
        CollapsedIsSpelt(x, true);
        SpeltSlash(x);
        assert "" + Body(Segments(x), Trails(x)) == Body(Segments(x), Trails(x));
      } else {
        CollapsedIsSpelt(x, false);
        SpeltCharacter(s[0], x);
      }
    }
  }

  lemma SpeltSlash(x: string)
    ensures Body(Segments("/" + x), Trails("/" + x)) == Body(Segments(x), Trails(x))
  {
    SegmentsBehindSlash(x);
    if x == [] {
      assert Split(x, '/') == [[]];
    }
  }

  lemma SpeltCharacter(c: char, x: string)
    requires c != '/'
    ensures [c] + (Slash(Leads(x)) + Body(Segments(x), Trails(x))) == Body(Segments([c] + x), Trails([c] + x))
  {
    SegmentsBehindCharacter(c, x);
    if x == [] {
      assert Segments(x) == [] && Body([[c]], false) == [c];
    } else {
      assert Trails([c] + x) == Trails(x);
      if !Leads(x) {
        SpeltProlonged(c, Segments(x), Trails(x));
      } else if Segments(x) == [] {
        AllSlashes(x);
        assert [c] + ("/" + []) == Body([[c]], true);
      } else {
        SpeltInFront(c, Segments(x), Trails(x));
      }
    }
  }

  lemma SpeltProlonged(c: char, segs: seq<string>, trail: bool)
    requires segs != []
    ensures [c] + ("" + Body(segs, trail)) == Body([[c] + segs[0]] + segs[1..], trail)
  {
    SpeltLonger(c, segs);
    assert [c] + (Join(segs, '/') + Slash(trail)) == [c] + Join(segs, '/') + Slash(trail);
  }

  lemma SpeltInFront(c: char, segs: seq<string>, trail: bool)
    requires segs != []
    ensures [c] + ("/" + Body(segs, trail)) == Body([[c]] + segs, trail)
  {
    SpeltFirst([c], segs);
    assert [c] + ("/" + (Join(segs, '/') + Slash(trail))) == [c] + ['/'] + Join(segs, '/') + Slash(trail);
  }

  lemma SpeltFirst(name: string, segs: seq<string>)
    requires segs != []
    ensures Join([name] + segs, '/') == name + ['/'] + Join(segs, '/')
  {
    assert ([name] + segs)[1..] == segs;
  }

  lemma SpeltLonger(c: char, segs: seq<string>)
    requires segs != []
    ensures Join([[c] + segs[0]] + segs[1..], '/') == [c] + Join(segs, '/')
  {
    var more := [[c] + segs[0]] + segs[1..];
    assert more[1..] == segs[1..];
  }

  lemma {:induction false} AllSlashes(s: string)
    requires s != [] && Segments(s) == []
    ensures Trails(s)
  {
    assert s == [s[0]] + s[1..];
    if |s| <= 1 {
    } else {
      SegmentsBehindSlash(s[1..]);
      AllSlashes(s[1..]);
    }
  }

  lemma {:induction false} CollapsedKeepsTrail(s: string, prev: bool)
    requires prev ==> Segments(s) != []
    ensures Trails(CollapsedFrom(s, prev)) == Trails(s)
  {
    CollapsedIsSpelt(s, prev);
    var segs := Segments(s);
    if segs == [] {
      if s != [] {
        AllSlashes(s);
      }
    } else {
      SegmentsAreNames(s);
      JoinEndsInName(segs);
    }
  }

  lemma SegmentsAreNames(s: string)
    ensures forall i :: 0 <= i < |Segments(s)| ==> Segments(s)[i] != [] && '/' !in Segments(s)[i]
  {
    SplitPieces(s, '/');
    NonEmptyOf(Split(s, '/'));
  }

  lemma {:induction false} NonEmptyOf(ps: seq<string>)
    requires Free(ps, '/')
    ensures forall i :: 0 <= i < |NonEmpty(ps)| ==> NonEmpty(ps)[i] != [] && '/' !in NonEmpty(ps)[i]
  {
    if ps == [] {
    } else {
      NonEmptyOf(ps[1..]);
    }
  }

  lemma {:induction false} JoinEndsInName(ps: seq<string>)
    requires ps != [] && forall i :: 0 <= i < |ps| ==> ps[i] != [] && '/' !in ps[i]
    ensures Join(ps, '/') != [] && !Trails(Join(ps, '/'))
  {
    if |ps| == 1 {
      assert ps[0][|ps[0]| - 1] in ps[0];
    } else {
      JoinEndsInName(ps[1..]);
    }
  }

  /** Two paths are equal exactly when they have the same segments in the same order and agree
      on the leading and on the trailing slash. */
  method ArePathsEqual(path1: string, path2: string) returns (equal: bool)
    requires '\0' !in path1 && '\0' !in path2 && 2 * |path1| < NPOS && 2 * |path2| < NPOS
    ensures equal <==>
              && Segments(path1) == Segments(path2)
              && Leads(path1) == Leads(path2)
              && Trails(path1) == Trails(path2)
  {
    var path1Normalized := ReplaceDoubleSlashes(path1);
    var path2Normalized := ReplaceDoubleSlashes(path2);
    equal := path1Normalized.Equals(path2Normalized);
    AppendedEqual(path1Normalized, path2Normalized);
    PathEquality(path1, path2);
  }

  lemma PathEquality(a: string, b: string)
    ensures Collapsed(a) == Collapsed(b) <==>
              Segments(a) == Segments(b) && Leads(a) == Leads(b) && Trails(a) == Trails(b)
  {
    CollapsedIsSpelt(a, false);
    CollapsedIsSpelt(b, false);
    CollapsedKeepsSegments(a, false);
    CollapsedKeepsSegments(b, false);
    CollapsedKeepsTrail(a, false);
    CollapsedKeepsTrail(b, false);
  }
}

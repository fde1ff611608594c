/** Searching and splitting text: `string::find`, `rfind`, `substr` and `split`, and the
    tokenizer of `parseProcMounts`. */
module Splitting {
  import opened CStrings
  import opened Text

  // ----- searching -----

  predicate MatchesAt(t: string, sub: string, i: nat) {
    i + |sub| <= |t| && t[i..i + |sub|] == sub
  }

  /** `find`: the first match at or after `pos`. */
  function Find(t: string, sub: string, pos: nat): (r: nat)
    requires pos <= |t| < NPOS
    ensures r == NPOS || (pos <= r && MatchesAt(t, sub, r))
    ensures forall i: nat :: pos <= i < Min(r, |t| + 1) ==> !MatchesAt(t, sub, i)
    decreases |t| - pos
  {
    if MatchesAt(t, sub, pos) then pos
    else if pos == |t| then NPOS
    else Find(t, sub, pos + 1)
  }

  /** `substr`, clamped to the text. */
  function Sub(t: string, pos: nat, len: nat): (r: string) {
    var p := Min(pos, |t|);
    t[p..p + Min(len, |t| - p)]
  }

  /** `rfind`: `pos` bounds the end of the match, not its start as in the standard library. */
  method RFind(t: string, str: string, pos: nat) returns (r: nat)
    requires |t| < NPOS
    ensures str == [] ==> r == Min(pos, |t|)
    ensures str != [] && r != NPOS ==> r + |str| <= Min(pos, |t|) && MatchesAt(t, str, r)
    ensures str != [] ==> forall i: nat :: (r == NPOS || r < i) && i + |str| <= Min(pos, |t|) ==> !MatchesAt(t, str, i)
  {
    var p := Min(pos, |t|);
    var len := |str|;
    if len == 0 {
      return p;
    }
    var i := p;
    while i >= len
      invariant i <= p
      invariant forall k: nat :: i < k + len <= p ==> !MatchesAt(t, str, k)
    {
      if t[i - len..i] == str {
        return i - len;
      }
      assert !MatchesAt(t, str, i - len);
      i := i - 1;
    }
    return NPOS;
  }

  // ----- splitting -----

  /** The pieces between the delimiters. */
  function Split(t: string, d: char): (ps: seq<string>)
    ensures ps != []
  {
    if t == [] then [[]]
    else
      var ps := Split(t[1..], d);
      if t[0] == d then [[]] + ps else [[t[0]] + ps[0]] + ps[1..]
  }

  function Join(ps: seq<string>, d: char): string
    requires ps != []
  {
    if |ps| == 1 then ps[0] else ps[0] + [d] + Join(ps[1..], d)
  }

  function Count(t: string, d: char): nat {
    if t == [] then 0 else (if t[0] == d then 1 else 0) + Count(t[1..], d)
  }

  ghost predicate Free(ps: seq<string>, d: char) {
    forall i :: 0 <= i < |ps| ==> d !in ps[i]
  }

  /** Joining undoes splitting; the pieces hold no delimiter and are one more than there are delimiters. */
  lemma {:induction false} SplitPieces(t: string, d: char)
    ensures Join(Split(t, d), d) == t
    ensures Free(Split(t, d), d)
    ensures |Split(t, d)| == Count(t, d) + 1
  {
    if t == [] {
    } else {
      SplitPieces(t[1..], d);
      var ps := Split(t[1..], d);
      assert t == [t[0]] + t[1..];
      if t[0] == d {
        assert Split(t, d)[1..] == ps;
        assert [] + [d] + t[1..] == t;
      } else {
        var qs := Split(t, d);
        assert qs[1..] == ps[1..];
        if |ps| == 1 {
          assert Join(qs, d) == [t[0]] + t[1..];
        } else {
          assert Join(qs, d) == [t[0]] + Join(ps, d);
        }
        assert forall i :: 0 < i < |qs| ==> qs[i] == ps[i];
      }
    }
  }

  /** Splitting undoes joining of delimiter-free pieces, so `Split` is the only way to split. */
  lemma {:induction false} SplitOfJoin(ps: seq<string>, d: char)
    requires ps != [] && Free(ps, d)
    ensures Split(Join(ps, d), d) == ps
  {
    if |ps| == 1 {
      SplitFree(ps[0], d);
    } else {
      SplitOfJoin(ps[1..], d);
      SplitFirst(ps[0], Join(ps[1..], d), d);
      assert ps[0] + [d] + Join(ps[1..], d) == ps[0] + ([d] + Join(ps[1..], d));
    }
  }

  lemma {:induction false} SplitFree(s: string, d: char)
    requires d !in s
    ensures Split(s, d) == [s]
  {
    if s == [] {
      assert Split(s, d) == [[]];
    } else {
      SplitFree(s[1..], d);
      assert [s[0]] + s[1..] == s;
    }
  }

  /** A piece, a delimiter and more text split into the piece and the split text. */
  lemma {:induction false} SplitFirst(s: string, rest: string, d: char)
    requires d !in s
    ensures Split(s + ([d] + rest), d) == [s] + Split(rest, d)
  {
    var t := s + ([d] + rest);
    if s == [] {
      assert t == [d] + rest && t[1..] == rest;
      assert [s] == [[]];
    } else {
      SplitFirst(s[1..], rest, d);
      assert t[1..] == s[1..] + ([d] + rest);
      assert [s[0]] + s[1..] == s;
    }
  }

  /** A delimiter behind a delimiter-free stretch ends a piece. */
  lemma PieceEnds(tokens: seq<string>, t: string, start: nat, i: nat, d: char)
    requires start <= i < |t| && t[i] == d && d !in t[start..i]
    ensures tokens + Split(t[start..], d) == tokens + [t[start..i]] + Split(t[i + 1..], d)
  {
    assert t[start..] == t[start..i] + ([d] + t[i + 1..]);
    SplitFirst(t[start..i], t[i + 1..], d);
  }

  lemma LastPiece(tokens: seq<string>, t: string, start: nat, d: char)
    requires start <= |t| && d !in t[start..]
    ensures tokens + Split(t[start..], d) == tokens + [t[start..]]
  {
    SplitFree(t[start..], d);
  }

  /** The split loop, with the terminator as a last delimiter. */
  method SplitText(t: string, delimiter: char) returns (tokens: seq<string>)
    requires '\0' !in t
    ensures tokens == Split(t, delimiter)
  {
    tokens := [];
    var start, i := 0, 0;
    while i <= |t|
      invariant 0 <= start <= i <= |t| + 1
      invariant i <= |t| ==> delimiter !in t[start..i] && tokens + Split(t[start..], delimiter) == Split(t, delimiter)
      invariant i > |t| ==> tokens == Split(t, delimiter)
    {
      var c := CharAt(t, i);
      if c == delimiter || c == '\0' {
        if i == |t| {
          assert t[start..|t|] == t[start..];
          LastPiece(tokens, t, start, delimiter);
        } else {
          PieceEnds(tokens, t, start, i, delimiter);
        }
        tokens := tokens + [t[start..i]];
        start := i + 1;
      }
      i := i + 1;
    }
  }

  /** The tokenizer of a line of /proc/mounts, written with `find` and `substr`, splits at spaces. */
  method TokenizeLine(line: string) returns (tokens: seq<string>)
    requires |line| < NPOS
    ensures tokens == Split(line, ' ')
  {
    tokens := [];
    var pos := 0;
    while true
      invariant 0 <= pos <= |line|
      invariant tokens + Split(line[pos..], ' ') == Split(line, ' ')
      decreases |line| - pos
    {
      var nextPos := Find(line, " ", pos);
      SpaceFree(line, pos, nextPos);
      if nextPos == NPOS {
        assert line[pos..|line|] == line[pos..];
        LastPiece(tokens, line, pos, ' ');
        tokens := tokens + [Sub(line, pos, NPOS)];
        break;
      }
      PieceEnds(tokens, line, pos, nextPos, ' ');
      tokens := tokens + [Sub(line, pos, nextPos - pos)];
      pos := nextPos + 1;
    }
  }

  lemma SubIsSlice(line: string, pos: nat, len: nat)
    requires pos <= |line|
    ensures Sub(line, pos, len) == line[pos..Min(pos + len, |line|)]
  {
  }

  lemma SpaceFree(line: string, pos: nat, next: nat)
    requires pos <= |line| < NPOS && next == Find(line, " ", pos)
    ensures next == NPOS || (pos <= next < |line| && line[next] == ' ')
    ensures ' ' !in line[pos..Min(next, |line|)]
    ensures Sub(line, pos, if next == NPOS then NPOS else next - pos) == line[pos..Min(next, |line|)]
  {
    var end := Min(next, |line|);
    forall i | pos <= i < end ensures line[i] != ' ' {
      assert !MatchesAt(line, " ", i);
      assert line[i..i + 1] == [line[i]];
    }
    if next != NPOS {
      assert line[next..next + 1] == " ";
    }
    SubIsSlice(line, pos, if next == NPOS then NPOS else next - pos);
  }

  /** `split(' ')` and the tokenizer agree on every line. */
  method BothTokenizers(line: string) returns (a: seq<string>, b: seq<string>)
    requires '\0' !in line && |line| < NPOS
    ensures a == b == Split(line, ' ') && Join(a, ' ') == line
  {
    a := SplitText(line, ' ');
    b := TokenizeLine(line);
    SplitPieces(line, ' ');
  }
}

/** The two functions of Go's `strings` package that the program uses:
    `strings.Split` with a one-character separator and `strings.Trim(s, " ")`. */
module Strings {

  /** Position of the first occurrence of `c` in `s`. */
  function IndexOf(s: string, c: char): (i: nat)
    requires c in s
    ensures i < |s| && s[i] == c
    ensures c !in s[..i]
  {
    if s[0] == c then 0
    else
      assert s == [s[0]] + s[1..];
      var j := IndexOf(s[1..], c);
      assert s[..j + 1] == [s[0]] + s[1..][..j];
      j + 1
  }

  /** The inverse of `Split`: the parts glued together with the separator between them. */
  function Join(parts: seq<string>, sep: char): string
  {
    if parts == [] then ""
    else if |parts| == 1 then parts[0]
    else parts[0] + [sep] + Join(parts[1..], sep)
  }

  /** `strings.Split(s, string(sep))`: the maximal separator-free pieces of `s`, in
      order; an empty `s` gives one empty piece, and no piece is trimmed. */
  function Split(s: string, sep: char): (parts: seq<string>)
    ensures |parts| >= 1
    ensures forall k :: 0 <= k < |parts| ==> sep !in parts[k]
    ensures Join(parts, sep) == s
    decreases |s|
  {
    if sep !in s then [s]
    else
      var i := IndexOf(s, sep);
      var rest := Split(s[i + 1..], sep);
      assert s == s[..i] + [sep] + s[i + 1..];
      assert ([s[..i]] + rest)[1..] == rest;
      [s[..i]] + rest
  }

  /** Splitting a joined list of separator-free pieces gives the pieces back. */
  lemma {:induction false} SplitJoin(parts: seq<string>, sep: char)
    requires |parts| >= 1
    requires forall k :: 0 <= k < |parts| ==> sep !in parts[k]
    ensures Split(Join(parts, sep), sep) == parts
  {
    if |parts| > 1 {
      assert sep !in parts[0];
      SplitAtFirst(parts[0], sep, Join(parts[1..], sep));
      SplitJoin(parts[1..], sep);
      assert parts == [parts[0]] + parts[1..];
    } else {
      assert sep !in parts[0];
    }
  }

  /** A separator-free prefix followed by the separator is the first piece. */
  lemma SplitAtFirst(p: string, sep: char, tail: string)
    requires sep !in p
    ensures Split(p + [sep] + tail, sep) == [p] + Split(tail, sep)
  {
    var s := p + [sep] + tail;
    assert s[|p|] == sep;
    var i := IndexOf(s, sep);
    NotBefore(s, sep, i, |p|);
    assert s[..i] == p;
    assert s[i + 1..] == tail;
  }

  lemma NotBefore(s: string, c: char, i: nat, j: nat)
    requires i <= |s| && j < |s| && c !in s[..i]
    ensures j < i ==> s[j] != c
  {
    if j < i {
      assert s[..i][j] == s[j];
    }
  }

  /** True when every character of `s` is a space (so also when `s` is empty). */
  predicate AllSpaces(s: string)
  {
    forall k :: 0 <= k < |s| ==> s[k] == ' '
  }

  /** `strings.TrimLeft(s, " ")`: `s` without its leading spaces. */
  function TrimLeft(s: string): (r: string)
    ensures |r| <= |s| && r == s[|s| - |r|..]
    ensures AllSpaces(s[..|s| - |r|])
    ensures r == [] || r[0] != ' '
  {
    if s != [] && s[0] == ' ' then
      var r := TrimLeft(s[1..]);
      assert s[1..][|s| - 1 - |r|..] == s[|s| - |r|..];
      r
    else s
  }

  /** `strings.TrimRight(s, " ")`: `s` without its trailing spaces. */
  function TrimRight(s: string): (r: string)
    ensures |r| <= |s| && r == s[..|r|]
    ensures AllSpaces(s[|r|..])
    ensures r == [] || r[|r| - 1] != ' '
  {
    if s != [] && s[|s| - 1] == ' ' then
      var t := s[..|s| - 1];
      var r := TrimRight(t);
      assert t[..|r|] == s[..|r|];
      assert s[|r|..] == t[|r|..] + [s[|s| - 1]];
      AllSpacesConcat(t[|r|..], [s[|s| - 1]]);
      r
    else s
  }

  /** `strings.Trim(s, " ")`: only the space character is removed, at both ends; the
      result is empty exactly when `s` holds nothing but spaces. */
  function TrimSpaces(s: string): (r: string)
    ensures r == [] <==> AllSpaces(s)
    ensures r == [] || (r[0] != ' ' && r[|r| - 1] != ' ')
  {
    TrimmedEmptyIffSpaces(s);
    TrimmedEndsAreNotSpaces(s);
    TrimRight(TrimLeft(s))
  }

  /** Trimming both ends leaves nothing exactly when there was nothing but spaces. */
  lemma TrimmedEmptyIffSpaces(s: string)
    ensures TrimRight(TrimLeft(s)) == [] <==> AllSpaces(s)
  {
    LeadingSpacesOnly(s);
    TrailingSpacesOnly(TrimLeft(s));
  }

  /** `s` is its leading spaces followed by `TrimLeft(s)`, so it is all spaces
      exactly when `TrimLeft(s)` is. */
  lemma LeadingSpacesOnly(s: string)
    ensures AllSpaces(s) <==> AllSpaces(TrimLeft(s))
  {
    var left := TrimLeft(s);
    var spaces := s[..|s| - |left|];
    assert s == spaces + left;
    AllSpacesConcat(spaces, left);
  }

  /** `TrimRight(s)` is empty exactly when `s` is all spaces: what it keeps ends with
      a character other than a space. */
  lemma TrailingSpacesOnly(s: string)
    ensures AllSpaces(s) <==> TrimRight(s) == []
  {
    var r := TrimRight(s);
    if r == [] {
      assert s[|r|..] == s;
    } else {
      assert s[|r| - 1] == r[|r| - 1];
    }
  }

  /** A non-empty result of trimming both ends starts and ends with a character other
      than a space: its first character is the first of `TrimLeft(s)`. */
  lemma TrimmedEndsAreNotSpaces(s: string)
    ensures var r := TrimRight(TrimLeft(s)); r == [] || (r[0] != ' ' && r[|r| - 1] != ' ')
  {
    var left := TrimLeft(s);
    var r := TrimRight(left);
    if r != [] {
      assert r == left[..|r|];
      assert r[0] == left[0];
    }
  }

  lemma AllSpacesConcat(a: string, b: string)
    ensures AllSpaces(a + b) <==> AllSpaces(a) && AllSpaces(b)
  {
    if AllSpaces(a + b) {
      forall k | 0 <= k < |a|
        ensures a[k] == ' '
      {
        assert a[k] == (a + b)[k];
      }
      forall k | 0 <= k < |b|
        ensures b[k] == ' '
      {
        assert b[k] == (a + b)[|a| + k];
      }
    }
    if AllSpaces(a) && AllSpaces(b) {
      forall k | 0 <= k < |a + b|
        ensures (a + b)[k] == ' '
      {
        if k < |a| {
          assert (a + b)[k] == a[k];
        } else {
          assert (a + b)[k] == b[k - |a|];
        }
      }
    }
  }
}

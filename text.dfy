/** String routines of the JavaScript `String` API used by the dashboard:
    `split` on a character or on a class of characters, `join`, `trim` and
    `toLowerCase`. */
module Text {

  /** The characters that JavaScript's `trim()` removes and that the regular
      expression class `\s` matches: WhiteSpace and LineTerminator of
      ECMAScript (section 12.2 and 12.3 of ECMA-262). */
  predicate IsSpace(c: char)
  {
    c == '\t' || c == '\n' || c == '\U{000B}' || c == '\U{000C}' || c == '\r' || c == ' ' ||
    c == '\U{00A0}' || c == '\U{1680}' || ('\U{2000}' <= c <= '\U{200A}') ||
    c == '\U{2028}' || c == '\U{2029}' || c == '\U{202F}' || c == '\U{205F}' ||
    c == '\U{3000}' || c == '\U{FEFF}'
  }

  /** Splits `s` at every character satisfying `isSep`, keeping empty parts,
      as `String.prototype.split` does for a one-character separator. */
  function SplitBy(s: string, isSep: char -> bool): (parts: seq<string>)
    ensures |parts| >= 1
    ensures forall i, k | 0 <= i < |parts| && 0 <= k < |parts[i]| :: !isSep(parts[i][k])
  {
    if s == [] then [[]]
    else if isSep(s[0]) then [[]] + SplitBy(s[1..], isSep)
    else
      var rest := SplitBy(s[1..], isSep);
      [[s[0]] + rest[0]] + rest[1..]
  }

  /** `s.split(sep)` for a one-character separator. */
  function Split(s: string, sep: char): (parts: seq<string>)
    ensures |parts| >= 1
    ensures forall i | 0 <= i < |parts| :: sep !in parts[i]
  {
    var parts := SplitBy(s, c => c == sep);
    parts
  }

  /** `parts.join(sep)`. */
  function Join(parts: seq<string>, sep: char): string
  {
    if parts == [] then []
    else if |parts| == 1 then parts[0]
    else parts[0] + [sep] + Join(parts[1..], sep)
  }

  /** Splitting and joining again on the same character gives back the string. */
  lemma {:induction false} JoinSplit(s: string, sep: char)
    ensures Join(Split(s, sep), sep) == s
  {
    JoinSplitBy(s, sep);
  }

  lemma {:induction false} JoinSplitBy(s: string, sep: char)
    ensures Join(SplitBy(s, c => c == sep), sep) == s
  {
    var f := c => c == sep;
    if s == [] {
    } else if s[0] == sep {
      JoinSplitBy(s[1..], sep);
      assert SplitBy(s, f) == [[]] + SplitBy(s[1..], f);
    } else {
      JoinSplitBy(s[1..], sep);
      var rest := SplitBy(s[1..], f);
      assert SplitBy(s, f) == [[s[0]] + rest[0]] + rest[1..];
      if |rest| == 1 {
      } else {
        assert rest == [rest[0]] + rest[1..];
        assert Join(rest, sep) == rest[0] + [sep] + Join(rest[1..], sep);
      }
    }
  }

  /** A prefix without separators is glued onto the first part. */
  lemma {:induction false} SplitByPrefix(p: string, t: string, isSep: char -> bool)
    requires forall k | 0 <= k < |p| :: !isSep(p[k])
    ensures SplitBy(p + t, isSep) == [p + SplitBy(t, isSep)[0]] + SplitBy(t, isSep)[1..]
  {
    if p == [] {
      assert p + t == t;
      var r := SplitBy(t, isSep);
      assert p + r[0] == r[0];
      assert r == [r[0]] + r[1..];
    } else {
      assert (p + t)[0] == p[0];
      assert (p + t)[1..] == p[1..] + t;
      SplitByPrefix(p[1..], t, isSep);
      assert [p[0]] + (p[1..] + SplitBy(t, isSep)[0]) == p + SplitBy(t, isSep)[0];
    }
  }

  /** Joining parts that contain no separator and splitting again gives back
      the parts: the other half of the round trip. */
  lemma {:induction false} SplitByJoin(parts: seq<string>, sep: char, isSep: char -> bool)
    requires |parts| >= 1
    requires isSep(sep)
    requires forall i, k | 0 <= i < |parts| && 0 <= k < |parts[i]| :: !isSep(parts[i][k])
    ensures SplitBy(Join(parts, sep), isSep) == parts
  {
    if |parts| == 1 {
      SplitByPrefix(parts[0], [], isSep);
      assert parts[0] + [] == parts[0];
    } else {
      var tail := Join(parts[1..], sep);
      SplitByJoin(parts[1..], sep, isSep);
      assert Join(parts, sep) == parts[0] + ([sep] + tail);
      SplitByPrefix(parts[0], [sep] + tail, isSep);
      assert ([sep] + tail)[1..] == tail;
      assert SplitBy([sep] + tail, isSep) == [[]] + SplitBy(tail, isSep);
      assert parts[0] + [] == parts[0];
      assert parts == [parts[0]] + parts[1..];
    }
  }

  lemma SplitJoin(parts: seq<string>, sep: char)
    requires |parts| >= 1
    requires forall i | 0 <= i < |parts| :: sep !in parts[i]
    ensures Split(Join(parts, sep), sep) == parts
  {
    SplitByJoin(parts, sep, c => c == sep);
  }

  /** `s.trim()`: drops leading and trailing white space. What is left is a
      piece of `s` whose cut-off ends are all white space and whose own ends
      are not. */
  function Trim(s: string): (r: string)
    ensures |r| <= |s|
    ensures r != [] ==> !IsSpace(r[0]) && !IsSpace(r[|r| - 1])
    ensures exists i :: PaddedPiece(s, i, r)
  {
    var t := TrimStart(s);
    var r := TrimEnd(t);
    TrimPiece(s, t, r);
    r
  }

  /** `r` occurs in `s` at offset `i`, with only white space before and after. */
  predicate PaddedPiece(s: string, i: int, r: string)
  {
    0 <= i <= |s| - |r| && r == s[i..i + |r|] && AllSpace(s[..i]) && AllSpace(s[i + |r|..])
  }

  /** A prefix `r` of a suffix `t` of `s`, with white space cut off on both
      sides, is a padded piece of `s`. */
  lemma TrimPiece(s: string, t: string, r: string)
    requires |t| <= |s| && t == s[|s| - |t|..] && AllSpace(s[..|s| - |t|])
    requires |r| <= |t| && r == t[..|r|] && AllSpace(t[|r|..])
    ensures PaddedPiece(s, |s| - |t|, r)
  {
    var i := |s| - |t|;
    assert s[i..i + |r|] == t[..|r|];
    assert s[i + |r|..] == t[|r|..];
  }

  function TrimStart(s: string): (r: string)
    ensures |r| <= |s|
    ensures r != [] ==> !IsSpace(r[0])
    ensures r == s[|s| - |r|..]
    ensures AllSpace(s[..|s| - |r|])
  {
    if s != [] && IsSpace(s[0]) then TrimStart(s[1..]) else s
  }

  function TrimEnd(s: string): (r: string)
    ensures |r| <= |s|
    ensures r != [] ==> !IsSpace(r[|r| - 1])
    ensures r == s[..|r|]
    ensures AllSpace(s[|r|..])
  {
    if s != [] && IsSpace(s[|s| - 1]) then TrimEnd(s[..|s| - 1]) else s
  }

  predicate AllSpace(p: string)
  {
    forall k | 0 <= k < |p| :: IsSpace(p[k])
  }

  lemma {:induction false} TrimStartPadded(p: string, s: string)
    requires AllSpace(p)
    requires s != [] ==> !IsSpace(s[0])
    ensures TrimStart(p + s) == s
  {
    if p != [] {
      assert (p + s)[0] == p[0];
      assert (p + s)[1..] == p[1..] + s;
      TrimStartPadded(p[1..], s);
    } else {
      assert p + s == s;
    }
  }

  lemma {:induction false} TrimEndPadded(s: string, p: string)
    requires AllSpace(p)
    requires s != [] ==> !IsSpace(s[|s| - 1])
    ensures TrimEnd(s + p) == s
  {
    if p != [] {
      assert (s + p)[|s + p| - 1] == p[|p| - 1];
      assert (s + p)[..|s + p| - 1] == s + p[..|p| - 1];
      TrimEndPadded(s, p[..|p| - 1]);
    } else {
      assert s + p == s;
    }
  }

  /** `trim()` removes exactly the white space padding around a string that
      neither starts nor ends with white space. */
  lemma TrimPadded(p1: string, s: string, p2: string)
    requires AllSpace(p1) && AllSpace(p2)
    requires s != [] ==> !IsSpace(s[0]) && !IsSpace(s[|s| - 1])
    ensures Trim(p1 + s + p2) == s
  {
    assert p1 + s + p2 == p1 + (s + p2);
    if s == [] {
      assert s + p2 == p2;
      TrimStartPadded(p1 + p2, []);
      assert p1 + p2 + [] == p1 + p2;
    } else {
      TrimStartPadded(p1, s + p2);
    }
    TrimEndPadded(s, p2);
  }

  /** `toLowerCase()` on the ASCII letters. */
  function ToLower(s: string): (r: string)
    ensures |r| == |s|
  {
    if s == [] then [] else [LowerChar(s[0])] + ToLower(s[1..])
  }

  function LowerChar(c: char): char
  {
    if 'A' <= c <= 'Z' then (c - 'A' + 'a') as char else c
  }

  /** `toLowerCase()` maps each character on its own and leaves no ASCII
      capital letter. */
  lemma {:induction false} ToLowerChars(s: string)
    ensures forall k | 0 <= k < |s| :: ToLower(s)[k] == LowerChar(s[k])
    ensures forall k | 0 <= k < |s| :: !('A' <= ToLower(s)[k] <= 'Z')
  {
    if s != [] {
      ToLowerChars(s[1..]);
      assert forall k | 1 <= k < |s| :: ToLower(s)[k] == ToLower(s[1..])[k - 1];
    }
  }

  /** Lower-casing never turns a character into white space or back. */
  lemma LowerKeepsSpace(c: char)
    ensures IsSpace(LowerChar(c)) <==> IsSpace(c)
  {
  }
}

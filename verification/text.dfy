/** The string operations of the source, on `string` = `seq<char>`:
    `indexOf`, `replace` with a string pattern, `split`, `join`,
    `startsWith`, `replace(/c/g, "")` and `trim`. */
module Text {

  /** Index of the first `c` in `s`, or `|s|` when `s` has none. */
  function FirstIndex(s: string, c: char): (r: nat)
    ensures r <= |s|
    ensures r < |s| ==> s[r] == c
    ensures forall i :: 0 <= i < r ==> s[i] != c
  {
    if s == [] then 0
    else if s[0] == c then 0
    else 1 + FirstIndex(s[1..], c)
  }

  lemma FirstIndexAbsent(s: string, c: char)
    ensures FirstIndex(s, c) == |s| <==> c !in s
  {
    var i := FirstIndex(s, c);
    if i < |s| {
      assert s[i] == c;
    }
  }

  /** `s.replace(c, rep)` with a one-character string pattern: JavaScript
      replaces the first occurrence only. */
  function ReplaceFirst(s: string, c: char, rep: string): (r: string)
    ensures c !in s ==> r == s
    ensures c in s ==> exists i :: 0 <= i < |s| && s[i] == c && c !in s[..i]
                                   && r == s[..i] + rep + s[i + 1..]
  {
    FirstIndexAbsent(s, c);
    var i := FirstIndex(s, c);
    if i == |s| then s
    else
      assert c !in s[..i];
      s[..i] + rep + s[i + 1..]
  }

  /** `parts.join(sep)`. */
  function Join(parts: seq<string>, sep: string): string
  {
    if |parts| == 0 then ""
    else if |parts| == 1 then parts[0]
    else parts[0] + sep + Join(parts[1..], sep)
  }

  /** `s.split(c)` with a one-character separator: the pieces between the
      occurrences of `c`; always at least one piece. */
  function Split(s: string, c: char): (r: seq<string>)
    ensures |r| >= 1
    ensures forall i :: 0 <= i < |r| ==> c !in r[i]
    ensures Join(r, [c]) == s
    decreases |s|
  {
    FirstIndexAbsent(s, c);
    var i := FirstIndex(s, c);
    if i == |s| then [s]
    else
      var rest := Split(s[i + 1..], c);
      assert c !in s[..i];
      assert s == s[..i] + [c] + s[i + 1..];
      [s[..i]] + rest
  }

  /** The first piece of a split is the text before the first separator. */
  lemma SplitHead(s: string, c: char)
    ensures Split(s, c)[0] == s[..FirstIndex(s, c)]
  {
  }

  /** Splitting a join of separator-free pieces gives the pieces back: with
      the `ensures Join(Split(s, c), [c]) == s` of `Split`, the two are inverse. */
  lemma {:induction false} SplitJoin(parts: seq<string>, c: char)
    requires |parts| >= 1
    requires forall i :: 0 <= i < |parts| ==> c !in parts[i]
    ensures Split(Join(parts, [c]), c) == parts
    decreases |parts|
  {
    var s := Join(parts, [c]);
    if |parts| == 1 {
      FirstIndexAbsent(s, c);
    } else {
      var tail := Join(parts[1..], [c]);
      assert s == parts[0] + [c] + tail;
      FirstIndexAfter(parts[0], c, tail);
      assert s[|parts[0]| + 1..] == tail;
      assert s[..|parts[0]|] == parts[0];
      SplitJoin(parts[1..], c);
    }
  }

  /** The first `c` of `a + [c] + b` sits right after `a` when `a` has none. */
  lemma FirstIndexAfter(a: string, c: char, b: string)
    requires c !in a
    ensures FirstIndex(a + [c] + b, c) == |a|
  {
    var s := a + [c] + b;
    var i := FirstIndex(s, c);
    assert s[|a|] == c;
  }

  /** `s.startsWith(p)`: a character-level prefix test. */
  predicate StartsWith(s: string, p: string) {
    |p| <= |s| && s[..|p|] == p
  }

  /** `s.replace(/c/g, "")`: every `c` removed, the other characters kept in order. */
  function RemoveChar(s: string, c: char): (r: string)
    ensures c !in r
    ensures forall x :: x != c ==> (x in r <==> x in s)
    ensures c !in s ==> r == s
  {
    if s == [] then []
    else
      assert forall x :: x in s <==> x == s[0] || x in s[1..];
      (if s[0] == c then [] else [s[0]]) + RemoveChar(s[1..], c)
  }

  /** The whitespace and line terminators `String.prototype.trim` removes:
      tab, vertical tab, form feed, space, no-break space, the byte order
      mark, every other space separator of Unicode category Zs (U+1680,
      U+2000 to U+200A, U+202F, U+205F, U+3000), line feed, carriage
      return and the Unicode line and paragraph separators. */
  predicate IsSpace(ch: char) {
    ch == ' ' || ch == '\t' || ch == '\n' || ch == '\r' || ch == '\U{B}' || ch == '\U{C}'
    || ch == '\U{A0}' || ch == '\U{FEFF}' || ch == '\U{2028}' || ch == '\U{2029}'
    || ch == '\U{1680}' || ('\U{2000}' <= ch <= '\U{200A}') || ch == '\U{202F}'
    || ch == '\U{205F}' || ch == '\U{3000}'
  }

  function TrimStart(s: string): (r: string)
    ensures |r| <= |s| && r == s[|s| - |r|..]
    ensures r == [] || !IsSpace(r[0])
    ensures forall i :: 0 <= i < |s| - |r| ==> IsSpace(s[i])
  {
    if s != [] && IsSpace(s[0]) then TrimStart(s[1..]) else s
  }

  function TrimEnd(s: string): (r: string)
    ensures |r| <= |s| && r == s[..|r|]
    ensures r == [] || !IsSpace(r[|r| - 1])
    ensures forall i :: |r| <= i < |s| ==> IsSpace(s[i])
  {
    if s != [] && IsSpace(s[|s| - 1]) then TrimEnd(s[..|s| - 1]) else s
  }

  /** `s.trim()`: `s` without leading and trailing whitespace. */
  function Trim(s: string): (r: string)
  {
    TrimEnd(TrimStart(s))
  }

  /** `t` is the piece of `s` starting at `a`, and everything of `s` before
      and after it is whitespace. */
  predicate CutFrom(s: string, a: int, t: string) {
    && 0 <= a <= |s| - |t| && t == s[a..a + |t|]
    && (forall i :: 0 <= i < a ==> IsSpace(s[i]))
    && (forall i :: a + |t| <= i < |s| ==> IsSpace(s[i]))
  }

  /** The trimmed text has no whitespace at either end, it is empty
      exactly when `s` is all whitespace, and it is the piece of `s` left
      once a whitespace prefix and a whitespace suffix are cut off. */
  lemma TrimSpec(s: string)
    ensures Trim(s) == [] || (!IsSpace(Trim(s)[0]) && !IsSpace(Trim(s)[|Trim(s)| - 1]))
    ensures Trim(s) == [] <==> forall i :: 0 <= i < |s| ==> IsSpace(s[i])
    ensures exists a :: CutFrom(s, a, Trim(s))
  {
    var a := TrimCut(s);
    if Trim(s) != [] {
      assert Trim(s)[0] == s[a];
    }
  }

  /** Where the trimmed text starts in `s`. */
  lemma TrimCut(s: string) returns (a: int)
    ensures CutFrom(s, a, Trim(s))
  {
    var t := TrimStart(s);
    var u := TrimEnd(t);
    a := |s| - |t|;
    SpacesShift(s, a, |u|);
    assert u == s[a..a + |u|];
  }

  /** Whitespace at the end of a suffix of `s` is whitespace at the end of
      `s`. */
  lemma SpacesShift(s: string, a: int, n: int)
    requires 0 <= a <= |s| && 0 <= n <= |s| - a
    requires forall i :: n <= i < |s[a..]| ==> IsSpace(s[a..][i])
    ensures forall i :: a + n <= i < |s| ==> IsSpace(s[i])
  {
    forall i | a + n <= i < |s|
      ensures IsSpace(s[i])
    {
      assert s[i] == s[a..][i - a];
    }
  }
}

/**
  String primitives used by the lineage viewer: Python's `str.strip`, `str.lower`,
  `str.split(sep)` and `str.split(sep, 1)`, and JavaScript's `indexOf` / `String.trim`.
  Strings are sequences of Unicode scalar values.
 */
module Text {

  /** Characters for which Python's `str.isspace()` holds (what `str.strip()` removes). */
  predicate IsPyWhitespace(c: char) {
    || c == ' ' || c == '\t' || c == '\n' || c == '\r' || c == '\U{B}' || c == '\U{C}'
    || ('\U{1C}' <= c <= '\U{1F}') || c == '\U{85}' || c == '\U{A0}' || c == '\U{1680}'
    || ('\U{2000}' <= c <= '\U{200A}') || c == '\U{2028}' || c == '\U{2029}'
    || c == '\U{202F}' || c == '\U{205F}' || c == '\U{3000}'
  }

  /** Characters JavaScript's `String.prototype.trim` removes (WhiteSpace and LineTerminator). */
  predicate IsJsWhitespace(c: char) {
    || c == ' ' || c == '\t' || c == '\n' || c == '\r' || c == '\U{B}' || c == '\U{C}'
    || c == '\U{A0}' || c == '\U{FEFF}' || c == '\U{1680}'
    || ('\U{2000}' <= c <= '\U{200A}') || c == '\U{2028}' || c == '\U{2029}'
    || c == '\U{202F}' || c == '\U{205F}' || c == '\U{3000}'
  }

  /** Drops the leading characters satisfying `ws`. */
  function TrimStart(s: string, ws: char -> bool): (r: string)
    ensures |r| <= |s| && r == s[|s| - |r|..]
    ensures forall i :: 0 <= i < |s| - |r| ==> ws(s[i])
    ensures r == [] || !ws(r[0])
  {
    if |s| > 0 && ws(s[0]) then TrimStart(s[1..], ws) else s
  }

  /** Drops the trailing characters satisfying `ws`. */
  function TrimEnd(s: string, ws: char -> bool): (r: string)
    ensures |r| <= |s| && r == s[..|r|]
    ensures forall i :: |r| <= i < |s| ==> ws(s[i])
    ensures r == [] || !ws(r[|r| - 1])
  {
    if |s| > 0 && ws(s[|s| - 1]) then TrimEnd(s[..|s| - 1], ws) else s
  }

  /**
    Strips `ws` characters from both ends: the result is the infix of `s` that
    remains once the maximal whitespace prefix and suffix are removed.
   */
  function Strip(s: string, ws: char -> bool): (r: string)
    ensures |r| <= |s|
    ensures r == [] || (!ws(r[0]) && !ws(r[|r| - 1]))
  {
    TrimEnd(TrimStart(s, ws), ws)
  }

  /** Stripping keeps only characters of `s`, and every one of them that is not `ws`. */
  lemma StripChars(s: string, ws: char -> bool)
    ensures forall c :: c in Strip(s, ws) ==> c in s
    ensures forall c :: c in s && !ws(c) ==> c in Strip(s, ws)
  {
    var t := TrimStart(s, ws);
    SuffixChars(s, t, ws);
    PrefixChars(t, TrimEnd(t, ws), ws);
  }

  /**
    `Strip` keeps exactly the infix left once the maximal runs of `ws` characters are
    cut from both ends: the cut parts are all `ws`, and the kept part (when non-empty)
    neither starts nor ends with a `ws` character.
   */
  lemma StripInfix(s: string, ws: char -> bool)
    ensures exists i, j :: StrippedAt(s, ws, i, j) && Strip(s, ws) == s[i..j]
  {
    var t := TrimStart(s, ws);
    TrimmedInfix(s, t, TrimEnd(t, ws), ws);
  }

  /** Trimming the start and then the end leaves an infix cut at `ws` runs. */
  lemma TrimmedInfix(s: string, t: string, r: string, ws: char -> bool)
    requires |t| <= |s| && t == s[|s| - |t|..]
    requires forall i :: 0 <= i < |s| - |t| ==> ws(s[i])
    requires |r| <= |t| && r == t[..|r|]
    requires forall i :: |r| <= i < |t| ==> ws(t[i])
    ensures StrippedAt(s, ws, |s| - |t|, |s| - |t| + |r|)
    ensures r == s[|s| - |t|..|s| - |t| + |r|]
  {
    var i := |s| - |t|;
    assert forall k :: i + |r| <= k < |s| ==> s[k] == t[k - i];
  }

  /** `s[i..j]` is what is left of `s` once a run of `ws` characters is cut from each end. */
  predicate StrippedAt(s: string, ws: char -> bool, i: int, j: int) {
    && 0 <= i <= j <= |s|
    && (forall k :: 0 <= k < i ==> ws(s[k]))
    && (forall k :: j <= k < |s| ==> ws(s[k]))
  }

  /**
    The stripped text is unique: any infix left by cutting `ws` runs from both ends
    that neither starts nor ends with a `ws` character is `Strip`'s result.
   */
  lemma StripUnique(s: string, ws: char -> bool, i: int, j: int)
    requires StrippedAt(s, ws, i, j)
    requires i == j || (!ws(s[i]) && !ws(s[j - 1]))
    ensures Strip(s, ws) == s[i..j]
  {
    var r := Strip(s, ws);
    StripInfix(s, ws);
    var i', j' :| StrippedAt(s, ws, i', j') && r == s[i'..j'];
    if i < j {
      assert i' == j' || (r[0] == s[i'] && r[|r| - 1] == s[j' - 1]);
      CutsAgree(s, ws, i, j, i', j');
    } else {
      assert forall k :: 0 <= k < |s| ==> ws(s[k]);
    }
  }

  /** Two cuts agree when the first one leaves a non-empty text not framed by `ws`. */
  lemma CutsAgree(s: string, ws: char -> bool, i: int, j: int, i': int, j': int)
    requires StrippedAt(s, ws, i, j) && StrippedAt(s, ws, i', j')
    requires i < j && !ws(s[i]) && !ws(s[j - 1])
    requires i' == j' || (!ws(s[i']) && !ws(s[j' - 1]))
    ensures i == i' && j == j'
  {
  }

  /** A suffix left after dropping whitespace keeps every other character of `s`. */
  lemma SuffixChars(s: string, t: string, ws: char -> bool)
    requires |t| <= |s| && t == s[|s| - |t|..]
    requires forall i :: 0 <= i < |s| - |t| ==> ws(s[i])
    ensures forall c :: c in t ==> c in s
    ensures forall c :: c in s && !ws(c) ==> c in t
  {
    forall c | c in s && !ws(c) ensures c in t {
      var i :| 0 <= i < |s| && s[i] == c;
      assert t[i - (|s| - |t|)] == c;
    }
  }

  /** A prefix left after dropping whitespace keeps every other character of `s`. */
  lemma PrefixChars(s: string, t: string, ws: char -> bool)
    requires |t| <= |s| && t == s[..|t|]
    requires forall i :: |t| <= i < |s| ==> ws(s[i])
    ensures forall c :: c in t ==> c in s
    ensures forall c :: c in s && !ws(c) ==> c in t
  {
    forall c | c in s && !ws(c) ensures c in t {
      var i :| 0 <= i < |s| && s[i] == c;
      assert t[i] == c;
    }
  }

  /** ASCII upper-case letters map to lower case; every other character is kept. */
  function LowerChar(c: char): char {
    if 'A' <= c <= 'Z' then (c as int - 'A' as int + 'a' as int) as char else c
  }

  predicate IsUpper(c: char) {
    'A' <= c <= 'Z'
  }

  /**
    Python's `str.lower()` restricted to ASCII letters: each capital moves 32 code
    points down the table to its small letter, and every other character is kept.
   */
  function Lower(s: string): (r: string)
    ensures |r| == |s|
    ensures forall i :: 0 <= i < |s| ==> r[i] == if IsUpper(s[i]) then (s[i] as int + 32) as char else s[i]
  {
    seq(|s|, i requires 0 <= i < |s| => LowerChar(s[i]))
  }

  /** No capital survives lower-casing, and a character is kept exactly when it is not a capital. */
  lemma LowerNoUpper(s: string)
    ensures forall i :: 0 <= i < |s| ==> !IsUpper(Lower(s)[i])
    ensures forall i :: 0 <= i < |s| ==> (Lower(s)[i] == s[i] <==> !IsUpper(s[i]))
  {
  }

  /** Lower-casing twice is lower-casing once. */
  lemma LowerIdempotent(s: string)
    ensures Lower(Lower(s)) == Lower(s)
  {
    LowerNoUpper(s);
  }

  /** JavaScript's `indexOf`: the first position of `c` in `s`, or -1 when absent. */
  function IndexOf<T(==)>(s: seq<T>, c: T): (r: int)
    ensures r == -1 <==> c !in s
    ensures r != -1 ==> 0 <= r < |s| && s[r] == c && c !in s[..r]
  {
    if |s| == 0 then -1
    else if s[0] == c then 0
    else
      var k := IndexOf(s[1..], c);
      if k == -1 then -1
      else
        assert s[..k + 1] == [s[0]] + s[1..][..k];
        k + 1
  }

  /**
    Python's `s.split(sep, 1)` when `sep` occurs: the text before and the text after
    the first `sep`.
   */
  function SplitFirst(s: string, sep: char): (r: (string, string))
    requires sep in s
    ensures sep !in r.0
    ensures r.0 + [sep] + r.1 == s
  {
    var i := IndexOf(s, sep);
    assert s[..i] + [sep] + s[i + 1..] == s;
    (s[..i], s[i + 1..])
  }

  /** A split around the first `sep` is determined by its sep-free prefix. */
  lemma SplitFirstUnique(s: string, sep: char, a: string, b: string)
    requires sep !in a && a + [sep] + b == s
    ensures sep in s && SplitFirst(s, sep) == (a, b)
  {
    assert s[|a|] == sep;
    var r := SplitFirst(s, sep);
    assert forall j :: 0 <= j < |a| ==> s[j] == a[j];
    assert forall j :: 0 <= j < |r.0| ==> s[j] == r.0[j];
    assert r.0 == s[..|a|] == a;
    assert r.1 == s[|a| + 1..] == b;
  }

  /** Concatenation is associative (stated once so that callers need not re-derive it). */
  lemma ConcatAssoc<T>(x: seq<T>, y: seq<T>, z: seq<T>)
    ensures (x + y) + z == x + (y + z)
  {
  }

  /** Joins pieces with `sep` between consecutive ones (the inverse of `Split`). */
  function Join(parts: seq<string>, sep: char): string
  {
    if |parts| == 0 then ""
    else if |parts| == 1 then parts[0]
    else parts[0] + [sep] + Join(parts[1..], sep)
  }

  /**
    Python's `s.split(sep)` for a one-character separator: never empty, no piece
    holds `sep`, and joining the pieces with `sep` gives back `s`.
   */
  function Split(s: string, sep: char): (r: seq<string>)
    ensures |r| >= 1
    ensures forall i :: 0 <= i < |r| ==> sep !in r[i]
    ensures Join(r, sep) == s
    decreases |s|
  {
    if sep !in s then [s]
    else
      var (head, rest) := SplitFirst(s, sep);
      [head] + Split(rest, sep)
  }

  /** Splitting a join of sep-free pieces recovers the pieces. */
  lemma {:induction false} SplitJoin(parts: seq<string>, sep: char)
    requires |parts| >= 1
    requires forall i :: 0 <= i < |parts| ==> sep !in parts[i]
    ensures Split(Join(parts, sep), sep) == parts
    decreases |parts|
  {
    if |parts| == 1 {
      assert Join(parts, sep) == parts[0];
    } else {
      var s := Join(parts, sep);
      var rest := Join(parts[1..], sep);
      assert s == parts[0] + [sep] + rest;
      SplitFirstUnique(s, sep, parts[0], rest);
      SplitJoin(parts[1..], sep);
      assert Split(s, sep) == [parts[0]] + Split(rest, sep);
      assert [parts[0]] + parts[1..] == parts;
    }
  }
}

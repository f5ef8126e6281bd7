/**
 * The few JavaScript string operations the page script relies on, over
 * Dafny strings (sequences of Unicode scalar values): `trim`, ASCII
 * `toLowerCase`, `startsWith`, `endsWith`, `indexOf` of one character and
 * `split` on one character, with `Join` as the inverse of `Split`.
 */
module Strings {
  import opened Wrappers

  /** The characters ECMAScript counts as WhiteSpace or LineTerminator: what `\s` and `trim` use. */
  predicate IsWhitespace(c: char) {
    || c == '\t' || c == '\n' || c == '\U{000B}' || c == '\U{000C}' || c == '\r' || c == ' '
    || c == '\U{00A0}' || c == '\U{1680}' || ('\U{2000}' <= c <= '\U{200A}')
    || c == '\U{2028}' || c == '\U{2029}' || c == '\U{202F}' || c == '\U{205F}'
    || c == '\U{3000}' || c == '\U{FEFF}'
  }

  predicate AllWhitespace(s: string) {
    forall i :: 0 <= i < |s| ==> IsWhitespace(s[i])
  }

  /** True when `s` neither begins nor ends with whitespace. */
  predicate IsTrimmed(s: string) {
    s == [] || (!IsWhitespace(s[0]) && !IsWhitespace(s[|s| - 1]))
  }

  /** JavaScript's `String.prototype.trim`: leading and trailing whitespace removed. */
  function Trim(s: string): (r: string)
    ensures IsTrimmed(r)
    ensures |r| <= |s|
  {
    if s != [] && IsWhitespace(s[0]) then Trim(s[1..])
    else if s != [] && IsWhitespace(s[|s| - 1]) then Trim(s[..|s| - 1])
    else s
  }

  /** Trimming yields the empty string exactly when every character is whitespace. */
  lemma {:induction false} TrimEmptyIff(s: string)
    ensures Trim(s) == [] <==> AllWhitespace(s)
  {
    if s != [] && IsWhitespace(s[0]) {
      TrimEmptyIff(s[1..]);
      assert s == [s[0]] + s[1..];
    } else if s != [] && IsWhitespace(s[|s| - 1]) {
      TrimEmptyIff(s[..|s| - 1]);
      assert !IsWhitespace(s[0]);
    }
  }

  /**
   * Trimming removes whitespace at the two ends and nothing else: the result
   * is the part of `s` between a run of leading and a run of trailing
   * whitespace.
   */
  lemma {:induction false} TrimIsSlice(s: string) returns (k: nat)
    ensures k + |Trim(s)| <= |s| && Trim(s) == s[k..k + |Trim(s)|]
    ensures AllWhitespace(s[..k]) && AllWhitespace(s[k + |Trim(s)|..])
  {
    var t := Trim(s);
    if s != [] && IsWhitespace(s[0]) {
      assert t == Trim(s[1..]);
      var j := TrimIsSlice(s[1..]);
      k := j + 1;
      SlicesAfterHead(s, j, |t|);
      WhitespaceConcat([s[0]], s[1..][..j]);
    } else if s != [] && IsWhitespace(s[|s| - 1]) {
      var u := s[..|s| - 1];
      assert t == Trim(u);
      k := TrimIsSlice(u);
      SlicesBeforeLast(s, k, |t|);
      WhitespaceConcat(u[k + |t|..], [s[|s| - 1]]);
    } else {
      k := 0;
    }
  }

  /** Two whitespace runs make one. */
  lemma WhitespaceConcat(a: string, b: string)
    requires AllWhitespace(a) && AllWhitespace(b)
    ensures AllWhitespace(a + b)
  {
  }

  /** Slices of `s` past its head, read as slices of `s[1..]`. */
  lemma SlicesAfterHead<T>(s: seq<T>, j: nat, m: nat)
    requires j + m < |s|
    ensures s[..j + 1] == [s[0]] + s[1..][..j]
    ensures s[j + 1..j + 1 + m] == s[1..][j..j + m]
    ensures s[j + 1 + m..] == s[1..][j + m..]
  {
  }

  /** Slices of `s`, read as slices of `s` without its last element. */
  lemma SlicesBeforeLast<T>(s: seq<T>, k: nat, m: nat)
    requires k + m < |s|
    ensures s[..k] == s[..|s| - 1][..k]
    ensures s[k..k + m] == s[..|s| - 1][k..k + m]
    ensures s[k + m..] == s[..|s| - 1][k + m..] + [s[|s| - 1]]
  {
  }

  /** A string without leading or trailing whitespace is its own trim. */
  lemma TrimOfTrimmed(s: string)
    requires IsTrimmed(s)
    ensures Trim(s) == s
  {
  }

  /** Whitespace in front of a trimmed string is all that `trim` removes. */
  lemma TrimAfterSpace(s: string)
    requires IsTrimmed(s)
    ensures Trim(" " + s) == s
  {
    assert (" " + s)[1..] == s;
  }

  /** A space after the text changes nothing `trim` keeps. */
  lemma {:induction false} TrimTrailingSpace(s: string)
    ensures Trim(s + " ") == Trim(s)
  {
    var t := s + " ";
    if s == [] {
      assert t[1..] == [];
    } else if IsWhitespace(s[0]) {
      assert t[1..] == s[1..] + " ";
      TrimTrailingSpace(s[1..]);
    } else {
      assert t[..|t| - 1] == s;
    }
  }

  /** JavaScript's `toLowerCase` on one character, restricted to ASCII letters. */
  function LowerChar(c: char): (r: char)
    ensures IsWhitespace(r) <==> IsWhitespace(c)
    ensures (r == '@') <==> (c == '@')
    ensures (r == '.') <==> (c == '.')
    ensures !('A' <= r <= 'Z')
  {
    if 'A' <= c <= 'Z' then (c as int + 32) as char else c
  }

  function ToLower(s: string): (r: string)
    ensures |r| == |s|
    ensures forall i :: 0 <= i < |s| ==> r[i] == LowerChar(s[i])
  {
    seq(|s|, i requires 0 <= i < |s| => LowerChar(s[i]))
  }

  /** `s.indexOf(p) === 0`. */
  predicate StartsWith(s: string, p: string) {
    |p| <= |s| && s[..|p|] == p
  }

  /** `s.endsWith(x)`. */
  predicate EndsWith(s: string, x: string) {
    |x| <= |s| && s[|s| - |x|..] == x
  }

  /** The first position of `c` in `s`, as `s.indexOf(c)` with -1 read as None. */
  function IndexOf(s: string, c: char): (r: Option<nat>)
    ensures r.None? <==> c !in s
    ensures r.Some? ==> r.value < |s| && s[r.value] == c && c !in s[..r.value]
  {
    if s == [] then None
    else if s[0] == c then Some(0)
    else
      match IndexOf(s[1..], c)
      case None => None
      case Some(i) => assert s[..i + 1] == [s[0]] + s[1..][..i]; Some(i + 1)
  }

  /** The parts, separated by single `sep` characters: the inverse of `Split`. */
  function Join(parts: seq<string>, sep: char): string
    requires |parts| >= 1
  {
    if |parts| == 1 then parts[0] else parts[0] + [sep] + Join(parts[1..], sep)
  }

  /** JavaScript's `s.split(sep)` for a one-character separator. */
  function Split(s: string, sep: char): (parts: seq<string>)
    ensures |parts| >= 1
    ensures forall i :: 0 <= i < |parts| ==> sep !in parts[i]
    ensures Join(parts, sep) == s
    decreases |s|
  {
    match IndexOf(s, sep)
    case None => [s]
    case Some(i) =>
      var rest := Split(s[i + 1..], sep);
      assert s == s[..i] + [sep] + s[i + 1..];
      [s[..i]] + rest
  }

  /** Splitting a joined list gives the list back when no part holds the separator. */
  lemma {:induction false} SplitJoin(parts: seq<string>, sep: char)
    requires |parts| >= 1
    requires forall i :: 0 <= i < |parts| ==> sep !in parts[i]
    ensures Split(Join(parts, sep), sep) == parts
    decreases |parts|
  {
    if |parts| > 1 {
      var s := Join(parts, sep);
      var tail := Join(parts[1..], sep);
      assert s == parts[0] + ([sep] + tail);
      assert s[..|parts[0]|] == parts[0];
      var k := IndexOf(s, sep);
      assert s[|parts[0]|] == sep;
      assert k.Some? && k.value == |parts[0]|;
      assert s[|parts[0]| + 1..] == tail;
      SplitJoin(parts[1..], sep);
    }
  }

  /** A part without the separator, then the separator: `split` cuts there first. */
  lemma SplitFirst(p: string, sep: char, rest: string)
    requires sep !in p
    ensures Split(p + [sep] + rest, sep) == [p] + Split(rest, sep)
  {
    var s := p + [sep] + rest;
    assert s[..|p|] == p;
    assert s[|p|] == sep;
    var k := IndexOf(s, sep);
    assert k.Some? && k.value == |p|;
    assert s[|p| + 1..] == rest;
  }
}

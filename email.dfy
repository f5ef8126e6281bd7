/**
 * `validateEmail` (script.js): the address is lower-cased and matched
 * against `^[^\s@]+@[^\s@]+\.[^\s@]+$`. The regular expression is replaced
 * by a direct character-level check, `HasEmailShape`, and the pattern's own
 * reading (three non-empty runs of "plain" characters around an `@` and a
 * `.`) is kept as `MatchesPattern`; the two are proved equal.
 */
module EmailCheck {
  import opened Wrappers
  import opened Strings

  /** A character the class `[^\s@]` accepts. */
  predicate Plain(c: char) {
    !IsWhitespace(c) && c != '@'
  }

  predicate AllPlain(s: string) {
    forall i :: 0 <= i < |s| ==> Plain(s[i])
  }

  /**
   * The check as one would write it by hand: a non-empty local part before
   * the first `@`, no whitespace and no second `@` anywhere, and a `.` in the
   * domain that is neither its first nor its last character.
   */
  predicate HasEmailShape(s: string) {
    match IndexOf(s, '@')
    case None => false
    case Some(at) =>
      var domain := s[at + 1..];
      && 0 < at
      && AllPlain(s[..at])
      && AllPlain(domain)
      && exists k :: 0 < k < |domain| - 1 && domain[k] == '.'
  }

  /** The regular expression read literally: `L@D.T` with L, D and T non-empty runs of plain characters. */
  ghost predicate MatchesPattern(s: string) {
    exists at, dot :: PatternAt(s, at, dot)
  }

  ghost predicate PatternAt(s: string, at: int, dot: int) {
    && 0 < at && at + 1 < dot && dot + 1 < |s|
    && s[at] == '@' && s[dot] == '.'
    && AllPlain(s[..at]) && AllPlain(s[at + 1..dot]) && AllPlain(s[dot + 1..])
  }

  /** `validateEmail(email)`: the pattern test after lower-casing. */
  predicate ValidateEmail(email: string) {
    HasEmailShape(ToLower(email))
  }

  /** The hand-written check accepts exactly the strings the pattern matches. */
  lemma ShapeIffPattern(s: string)
    ensures HasEmailShape(s) <==> MatchesPattern(s)
  {
    if HasEmailShape(s) {
      ShapeGivesPattern(s);
    }
    if MatchesPattern(s) {
      var at, dot :| PatternAt(s, at, dot);
      PatternGivesShape(s, at, dot);
    }
  }

  lemma ShapeGivesPattern(s: string)
    requires HasEmailShape(s)
    ensures MatchesPattern(s)
  {
    var at := IndexOf(s, '@').value;
    var domain := s[at + 1..];
    var k :| 0 < k < |domain| - 1 && domain[k] == '.';
    var dot := at + 1 + k;
    assert s[at + 1..dot] == domain[..k];
    assert s[dot + 1..] == domain[k + 1..];
    assert PatternAt(s, at, dot);
  }

  lemma PatternGivesShape(s: string, at: int, dot: int)
    requires PatternAt(s, at, dot)
    ensures HasEmailShape(s)
  {
    var i := IndexOf(s, '@');
    assert i.Some? && i.value <= at;
    assert i.value == at;
    var domain := s[at + 1..];
    assert domain == s[at + 1..dot] + [s[dot]] + s[dot + 1..];
    assert AllPlain(domain);
    assert domain[dot - at - 1] == '.';
  }

  /** Lower-casing keeps every plain character plain and every `@` and `.` in place. */
  lemma LowerKeepsPattern(s: string, at: int, dot: int)
    ensures PatternAt(ToLower(s), at, dot) <==> PatternAt(s, at, dot)
  {
    var t := ToLower(s);
    if 0 < at && at + 1 < dot && dot + 1 < |s| {
      PlainSliceLower(s, 0, at);
      PlainSliceLower(s, at + 1, dot);
      PlainSliceLower(s, dot + 1, |s|);
      assert t[..at] == t[0..at] && s[..at] == s[0..at];
      assert t[dot + 1..] == t[dot + 1..|s|] && s[dot + 1..] == s[dot + 1..|s|];
    }
  }

  lemma PlainSliceLower(s: string, i: int, j: int)
    requires 0 <= i <= j <= |s|
    ensures AllPlain(ToLower(s)[i..j]) <==> AllPlain(s[i..j])
  {
    var t := ToLower(s);
    if AllPlain(s[i..j]) {
      forall k | 0 <= k < j - i ensures Plain(t[i..j][k]) {
        assert s[i..j][k] == s[i + k];
      }
    }
    if AllPlain(t[i..j]) {
      forall k | 0 <= k < j - i ensures Plain(s[i..j][k]) {
        assert t[i..j][k] == t[i + k];
      }
    }
  }

  /** Lower-casing never changes whether the pattern matches. */
  lemma LowerCaseIrrelevant(s: string)
    ensures MatchesPattern(ToLower(s)) <==> MatchesPattern(s)
  {
    if MatchesPattern(s) {
      var at, dot :| PatternAt(s, at, dot);
      LowerKeepsPattern(s, at, dot);
    }
    if MatchesPattern(ToLower(s)) {
      var at, dot :| PatternAt(ToLower(s), at, dot);
      LowerKeepsPattern(s, at, dot);
    }
  }

  /** `validateEmail` accepts exactly the strings of shape `L@D.T`, whatever their case. */
  lemma ValidateEmailIffPattern(email: string)
    ensures ValidateEmail(email) <==> MatchesPattern(email)
  {
    ShapeIffPattern(ToLower(email));
    LowerCaseIrrelevant(email);
  }

  /** An accepted address has no whitespace at either end: trimming it changes nothing. */
  lemma AcceptedIsTrimmed(email: string)
    requires ValidateEmail(email)
    ensures email != [] && Trim(email) == email
  {
    ValidateEmailIffPattern(email);
    var at, dot :| PatternAt(email, at, dot);
    assert email[..at][0] == email[0];
    assert email[dot + 1..][|email| - dot - 2] == email[|email| - 1];
    TrimOfTrimmed(email);
  }

  /** An address of the expected shape is accepted, capital letters and all. */
  lemma AcceptsMixedCase()
    ensures ValidateEmail("Al@Ex.com")
  {
    assert PatternAt("Al@Ex.com", 2, 5);
    ValidateEmailIffPattern("Al@Ex.com");
  }

  /** A domain without a dot is refused. */
  lemma RefusesDotlessDomain()
    ensures !ValidateEmail("al@ex")
  {
    NoPatternWithoutDot("al@ex");
    ValidateEmailIffPattern("al@ex");
  }

  /** A domain that starts with its dot is refused. */
  lemma RefusesLeadingDot()
    ensures !ValidateEmail("a@.com")
  {
    ValidateEmailIffPattern("a@.com");
  }

  /** Whitespace anywhere is refused. */
  lemma RefusesSpace()
    ensures !ValidateEmail("a b@c.de")
  {
    ValidateEmailIffPattern("a b@c.de");
    assert !Plain("a b@c.de"[1]);
  }

  lemma NoPatternWithoutDot(s: string)
    requires '.' !in s
    ensures !MatchesPattern(s)
  {
  }
}

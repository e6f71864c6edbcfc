/**
 The validation constants of the student record and whole-string matchers
 for its two regular expressions, EMAIL_PATTERN = ^[A-Za-z0-9+_.-]+@(.+)$
 and PHONE_PATTERN = \d{10}, as String.matches applies them.
 */
module Validation {
  import opened JavaLang

  const PHONE_LENGTH: nat := 10
  const MIN_MARKS: real := 0.0
  const MAX_MARKS: real := 100.0

  // ---------------------------------------------------------------------
  // Character classes
  // ---------------------------------------------------------------------

  /** \d without the UNICODE_CHARACTER_CLASS flag: an ASCII digit. */
  predicate IsAsciiDigit(c: char) {
    '0' <= c <= '9'
  }

  /** The bracket class [A-Za-z0-9+_.-] in front of the '@'. */
  predicate IsLocalPartChar(c: char) {
    ('A' <= c <= 'Z') || ('a' <= c <= 'z') || IsAsciiDigit(c)
    || c == '+' || c == '_' || c == '.' || c == '-'
  }

  /** The characters '.' refuses when DOTALL and UNIX_LINES are off. */
  predicate IsLineTerminator(c: char) {
    c == '\n' || c == '\r' || c == '\U{0085}' || c == '\U{2028}' || c == '\U{2029}'
  }

  // ---------------------------------------------------------------------
  // \d{10}
  // ---------------------------------------------------------------------

  /** Whole-string match of s against \d{n}: n repetitions of one digit. */
  function MatchesDigits(s: string, n: nat): (b: bool)
    ensures b <==> |s| == n && forall i :: 0 <= i < |s| ==> IsAsciiDigit(s[i])
  {
    if n == 0 then s == []
    else s != [] && IsAsciiDigit(s[0]) && MatchesDigits(s[1..], n - 1)
  }

  // ---------------------------------------------------------------------
  // ^[A-Za-z0-9+_.-]+@(.+)$
  // ---------------------------------------------------------------------

  /** How far the greedy [A-Za-z0-9+_.-]+ runs from the start of s. */
  function LocalPartLength(s: string): (k: nat)
    ensures k <= |s|
    ensures forall i :: 0 <= i < k ==> IsLocalPartChar(s[i])
    ensures k < |s| ==> !IsLocalPartChar(s[k])
  {
    if s != [] && IsLocalPartChar(s[0]) then 1 + LocalPartLength(s[1..]) else 0
  }

  /** Whether (.+)$ accepts the rest of the input: non-empty, no line terminator. */
  function MatchesAnyRun(s: string): (b: bool)
    ensures b <==> s != [] && forall i :: 0 <= i < |s| ==> !IsLineTerminator(s[i])
  {
    if s == [] then false
    else !IsLineTerminator(s[0]) && (s[1..] == [] || MatchesAnyRun(s[1..]))
  }

  /**
   The shape the email pattern describes: a non-empty run of local-part
   characters, an '@' at index k, then at least one character and no line
   terminator up to the end.
   */
  ghost predicate IsEmailSplitAt(s: string, k: int) {
    && 0 < k && k + 1 < |s| && s[k] == '@'
    && (forall i :: 0 <= i < k ==> IsLocalPartChar(s[i]))
    && (forall j :: k < j < |s| ==> !IsLineTerminator(s[j]))
  }

  ghost predicate IsEmailShaped(s: string) {
    exists k :: IsEmailSplitAt(s, k)
  }

  /**
   A string of that shape can only be split where the greedy local-part run
   ends, and the split there holds exactly when an '@' follows the run and
   the rest is accepted by (.+)$.
   */
  lemma EmailSplitAtRunEnd(s: string)
    ensures IsEmailShaped(s) <==> IsEmailSplitAt(s, LocalPartLength(s))
    ensures IsEmailSplitAt(s, LocalPartLength(s)) <==>
      var k := LocalPartLength(s);
      0 < k < |s| && s[k] == '@' && MatchesAnyRun(s[k + 1..])
  {
    var k := LocalPartLength(s);
    if 0 < k < |s| && s[k] == '@' && MatchesAnyRun(s[k + 1..]) {
      var rest := s[k + 1..];
      forall j | k < j < |s| ensures !IsLineTerminator(s[j]) {
        assert s[j] == rest[j - k - 1];
      }
      assert IsEmailSplitAt(s, k);
    }
    if IsEmailShaped(s) {
      var k' :| IsEmailSplitAt(s, k');
      assert !IsLocalPartChar('@');
      // the run cannot stop before the '@', nor run across it
      assert !IsLocalPartChar(s[k']);
      assert k < |s| ==> !IsLocalPartChar(s[k]);
      assert k == k';
      var rest := s[k + 1..];
      assert forall i :: 0 <= i < |rest| ==> rest[i] == s[k + 1 + i];
    }
  }

  /**
   Whole-string match against the email pattern: exactly the strings of the
   shape above. The bracket class cannot match '@', so the greedy run stops
   at the only place the '@' can be.
   */
  function MatchesEmail(s: string): (b: bool)
    ensures b <==> IsEmailShaped(s)
    ensures b ==> IsEmailSplitAt(s, LocalPartLength(s))
  {
    EmailSplitAtRunEnd(s);
    var k := LocalPartLength(s);
    0 < k < |s| && s[k] == '@' && MatchesAnyRun(s[k + 1..])
  }

  // ---------------------------------------------------------------------
  // Blank strings
  // ---------------------------------------------------------------------

  /** s holds a character other than white space and control characters up to U+0020. */
  ghost predicate HasVisibleChar(s: string) {
    exists i :: 0 <= i < |s| && !IsTrimmable(s[i])
  }

  /** x != null && !x.trim().isEmpty() */
  predicate NotBlank(x: JString)
    ensures NotBlank(x) <==> x.Some? && HasVisibleChar(x.value)
  {
    TrimEmptyIffAllTrimmable(if x.Some? then x.value else []);
    x.Some? && Trim(x.value) != []
  }
}

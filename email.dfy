/**
 * The client's `isValidEmail`: a test of the regular expression
 * `^[^\s@]+@[^\s@]+\.[^\s@]+$`, stated as the set of strings it matches.
 */
module Email {

  /** The JavaScript `\s` class: WhiteSpace and LineTerminator characters of ECMAScript. */
  predicate IsWhitespace(c: char) {
    || c == ' ' || c == '\t' || c == '\n' || c == '\r' || c == '\U{000B}' || c == '\U{000C}'
    || c == '\U{00A0}' || c == '\U{1680}' || ('\U{2000}' <= c <= '\U{200A}')
    || c == '\U{2028}' || c == '\U{2029}' || c == '\U{202F}' || c == '\U{205F}'
    || c == '\U{3000}' || c == '\U{FEFF}'
  }

  /** A character of the class `[^\s@]`. */
  predicate Plain(c: char) {
    c != '@' && !IsWhitespace(c)
  }

  /** `s[lo..hi]` matches `[^\s@]+`. */
  predicate PlainRun(s: string, lo: int, hi: int)
    requires 0 <= lo <= hi <= |s|
  {
    lo < hi && forall k | lo <= k < hi :: Plain(s[k])
  }

  /**
   * `isValidEmail`: the whole string is a run, `@`, a run, `.`, a run. The `.` may be
   * any dot after the `@` that the regex can backtrack to.
   */
  predicate IsValidEmail(email: string) {
    exists i, j | 0 < i < |email| && i + 1 < j < |email| - 1 ::
      && email[i] == '@' && email[j] == '.'
      && PlainRun(email, 0, i) && PlainRun(email, i + 1, j) && PlainRun(email, j + 1, |email|)
  }

  /** The domain part has a `.` that is neither its first nor its last character. */
  predicate HasInnerDot(domain: string) {
    exists j | 0 < j < |domain| - 1 :: domain[j] == '.'
  }

  /**
   * What a valid address looks like: exactly one `@`, no whitespace, a non-empty
   * part before the `@`, and a dot strictly inside the part after it.
   */
  ghost predicate WellFormedAddress(s: string) {
    && multiset(s)['@'] == 1
    && (forall k | 0 <= k < |s| :: !IsWhitespace(s[k]))
    && exists i | 0 <= i < |s| && s[i] == '@' :: 0 < i && HasInnerDot(s[i + 1..])
  }

  /** Two `@` at different places count twice. */
  lemma TwoAts(s: string, i: int, k: int)
    requires 0 <= i < k < |s| && s[i] == '@' && s[k] == '@'
    ensures multiset(s)['@'] >= 2
  {
    assert s == s[..k] + s[k..];
    assert s[..k][i] == '@';
    assert s[k..][0] == '@';
    assert multiset(s[..k])['@'] >= 1;
    assert multiset(s[k..])['@'] >= 1;
  }

  /** A string with no `@` outside position `i` counts one `@` if `s[i]` is one. */
  lemma OneAt(s: string, i: int)
    requires 0 <= i < |s| && s[i] == '@'
    requires forall k | 0 <= k < |s| && k != i :: s[k] != '@'
    ensures multiset(s)['@'] == 1
  {
    assert s == s[..i] + [s[i]] + s[i + 1..];
    assert '@' !in s[..i];
    assert '@' !in s[i + 1..];
    assert multiset(s) == multiset(s[..i]) + multiset([s[i]]) + multiset(s[i + 1..]);
  }

  /** Every string the regex accepts is a well-formed address. */
  lemma AcceptedIsWellFormed(s: string)
    requires IsValidEmail(s)
    ensures WellFormedAddress(s)
  {
    var i, j :| 0 < i < |s| && i + 1 < j < |s| - 1
      && s[i] == '@' && s[j] == '.'
      && PlainRun(s, 0, i) && PlainRun(s, i + 1, j) && PlainRun(s, j + 1, |s|);
    forall k | 0 <= k < |s| && k != i ensures s[k] != '@' && !IsWhitespace(s[k]) {
      if k < i { assert Plain(s[k]); }
      else if k < j { assert Plain(s[k]); }
      else if k > j { assert Plain(s[k]); }
    }
    OneAt(s, i);
    var d := s[i + 1..];
    assert d[j - i - 1] == '.';
    assert HasInnerDot(d);
  }

  /** Every well-formed address is accepted by the regex. */
  lemma WellFormedIsAccepted(s: string)
    requires WellFormedAddress(s)
    ensures IsValidEmail(s)
  {
    var i :| 0 <= i < |s| && s[i] == '@' && 0 < i && HasInnerDot(s[i + 1..]);
    var d := s[i + 1..];
    var m :| 0 < m < |d| - 1 && d[m] == '.';
    var j := i + 1 + m;
    assert s[j] == '.';
    forall k | 0 <= k < |s| && k != i ensures Plain(s[k]) {
      if s[k] == '@' {
        if k < i { TwoAts(s, k, i); } else { TwoAts(s, i, k); }
      }
    }
    assert PlainRun(s, 0, i) && PlainRun(s, i + 1, j) && PlainRun(s, j + 1, |s|);
  }

  /** The regex accepts exactly the well-formed addresses (both directions). */
  lemma IsValidEmailCharacterization(s: string)
    ensures IsValidEmail(s) <==> WellFormedAddress(s)
  {
    if IsValidEmail(s) { AcceptedIsWellFormed(s); }
    if WellFormedAddress(s) { WellFormedIsAccepted(s); }
  }

  /** The address of the worked example is accepted. */
  lemma AcceptsExampleAddress()
    ensures IsValidEmail("ada@example.com")
  {
    var s := "ada@example.com";
    assert s[3] == '@' && s[11] == '.';
    assert PlainRun(s, 0, 3) && PlainRun(s, 4, 11) && PlainRun(s, 12, |s|);
  }

  /** A string with no `@` is refused, as submitting "not-an-email" is. */
  lemma RejectsNotAnEmail()
    ensures !IsValidEmail("not-an-email")
  {
    var s := "not-an-email";
    assert forall k | 0 <= k < |s| :: s[k] != '@';
  }
}

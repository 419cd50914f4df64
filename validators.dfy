/** The input checks of the authentication routes (server/routes/authRouter.mjs,
    lines 113-138): three regular expressions and the classifier that decides
    whether a login identifier is an email address or a username.

    Each validator is written in the shape of its regular expression (where the
    literal parts sit, what the character classes admit), and a lemma states the
    same language in plain terms. */
module Validators {

  /** Characters matched by `\s` in an ECMAScript regular expression: the
      WhiteSpace code points (tab, vertical tab, form feed, space, no-break
      space, zero width no-break space and the space separators) and the
      LineTerminator code points. */
  predicate IsWhitespace(c: char) {
    var n := c as int;
    n == 0x09 || n == 0x0B || n == 0x0C || n == 0x20 || n == 0xA0 || n == 0xFEFF
    || n == 0x1680 || (0x2000 <= n <= 0x200A) || n == 0x202F || n == 0x205F || n == 0x3000
    || IsLineTerminator(c)
  }

  /** Characters that `.` does not match in a regular expression without the
      `s` flag. */
  predicate IsLineTerminator(c: char) {
    c == '\n' || c == '\r' || c as int == 0x2028 || c as int == 0x2029
  }

  // ---------------------------------------------------------------------------
  // Email: /^[^\s@]+@[^\s@]+\.[^\s@]+$/
  // ---------------------------------------------------------------------------

  /** The character class `[^\s@]`. */
  predicate IsEmailAtom(c: char) {
    !IsWhitespace(c) && c != '@'
  }

  /** Every character of `s` is in `[^\s@]`. */
  predicate AllEmailAtoms(s: string) {
    forall k | 0 <= k < |s| :: IsEmailAtom(s[k])
  }

  /** The email regular expression matches `s` with its `@` at position `at`
      and the `.` it needs at position `dot`: the three runs around them are
      non-empty runs of `[^\s@]`. */
  predicate EmailSplitAt(s: string, at: int, dot: int) {
    && 0 < at < |s|
    && at + 1 < dot < |s| - 1
    && s[at] == '@'
    && s[dot] == '.'
    && AllEmailAtoms(s[..at])
    && AllEmailAtoms(s[at + 1..dot])
    && AllEmailAtoms(s[dot + 1..])
  }

  /** The email regular expression matches the whole of `s`. */
  predicate IsValidEmail(s: string): (b: bool)
    ensures b ==> '@' in s && |s| >= 5
  {
    exists at, dot | 0 < at < |s| && at + 1 < dot < |s| - 1 :: EmailSplitAt(s, at, dot)
  }

  /** The number of occurrences of `c` in `s`. */
  function Count(s: string, c: char): (n: nat)
    ensures n <= |s|
    ensures n == 0 <==> forall k | 0 <= k < |s| :: s[k] != c
  {
    if s == [] then 0
    else (if s[0] == c then 1 else 0) + Count(s[1..], c)
  }

  lemma {:induction false} CountConcat(a: string, b: string, c: char)
    ensures Count(a + b, c) == Count(a, c) + Count(b, c)
  {
    if a == [] {
      assert a + b == b;
    } else {
      assert (a + b)[1..] == a[1..] + b;
      CountConcat(a[1..], b, c);
    }
  }

  /** Counting `c` in `s` split around position `i`. */
  lemma CountAround(s: string, i: nat, c: char)
    requires i < |s|
    ensures Count(s, c) == Count(s[..i], c) + (if s[i] == c then 1 else 0) + Count(s[i + 1..], c)
  {
    assert s == s[..i] + ([s[i]] + s[i + 1..]);
    CountConcat(s[..i], [s[i]] + s[i + 1..], c);
    CountConcat([s[i]], s[i + 1..], c);
    assert Count([s[i]], c) == if s[i] == c then 1 else 0 by {
      assert [s[i]][1..] == [];
    }
  }

  /** `s` contains no `\s` character. */
  ghost predicate NoWhitespace(s: string) {
    forall k | 0 <= k < |s| :: !IsWhitespace(s[k])
  }

  /** `d` holds a `.` that is neither its first nor its last character. */
  ghost predicate HasInnerDot(d: string) {
    exists k | 0 < k < |d| - 1 :: d[k] == '.'
  }

  /** The email shape in plain terms: no whitespace, exactly one `@`, a
      non-empty part before it, and a part after it with an inner `.`. */
  ghost predicate EmailShape(s: string) {
    && NoWhitespace(s)
    && Count(s, '@') == 1
    && exists at | 0 <= at < |s| :: s[at] == '@' && 0 < at && HasInnerDot(s[at + 1..])
  }

  /** A slice of `s` is a run of `[^\s@]` exactly when every character of
      `s` in that range is. */
  lemma AtomsOfSlice(s: string, lo: nat, hi: nat, t: string)
    requires lo <= hi <= |s| && t == s[lo..hi]
    ensures AllEmailAtoms(t) <==> forall k | lo <= k < hi :: IsEmailAtom(s[k])
  {
  }

  /** A slice of `s` holds no `c` exactly when no character of `s` in that
      range is `c`. */
  lemma CountOfSlice(s: string, lo: nat, hi: nat, t: string, c: char)
    requires lo <= hi <= |s| && t == s[lo..hi]
    ensures Count(t, c) == 0 <==> forall k | lo <= k < hi :: s[k] != c
  {
  }

  /** Outside its `@`, a string the regular expression accepts holds no `@`
      and no whitespace. */
  lemma EmailSplitChars(s: string, at: int, dot: int)
    requires EmailSplitAt(s, at, dot)
    ensures NoWhitespace(s)
    ensures forall k | 0 <= k < |s| && k != at :: s[k] != '@'
  {
  }

  /** The regular expression only accepts strings of the plain shape. */
  lemma EmailRegexHasShape(s: string)
    requires IsValidEmail(s)
    ensures EmailShape(s)
  {
    var at, dot :| EmailSplitAt(s, at, dot);
    EmailSplitChars(s, at, dot);
    assert Count(s, '@') == 1 by {
      CountAround(s, at, '@');
      CountOfSlice(s, 0, at, s[..at], '@');
      CountOfSlice(s, at + 1, |s|, s[at + 1..], '@');
    }
    assert HasInnerDot(s[at + 1..]) by {
      var d := s[at + 1..];
      assert d[dot - at - 1] == s[dot];
    }
  }

  /** Every string of the plain shape is accepted by the regular expression. */
  lemma EmailShapeMatchesRegex(s: string)
    requires EmailShape(s)
    ensures IsValidEmail(s)
  {
    var at :| 0 <= at < |s| && s[at] == '@' && 0 < at && HasInnerDot(s[at + 1..]);
    var d := s[at + 1..];
    var k :| 0 < k < |d| - 1 && d[k] == '.';
    var dot := at + 1 + k;
    assert s[dot] == '.';
    assert forall m | 0 <= m < |s| && m != at :: s[m] != '@' by {
      CountAround(s, at, '@');
      CountOfSlice(s, 0, at, s[..at], '@');
      CountOfSlice(s, at + 1, |s|, d, '@');
    }
    AtomsOfSlice(s, 0, at, s[..at]);
    AtomsOfSlice(s, at + 1, dot, s[at + 1..dot]);
    AtomsOfSlice(s, dot + 1, |s|, s[dot + 1..]);
    assert EmailSplitAt(s, at, dot);
  }

  /** The email regular expression accepts exactly the strings of the plain
      email shape (a loose two-part shape, not the addr-spec of RFC 5322). */
  lemma EmailShapeIsRegex(s: string)
    ensures IsValidEmail(s) <==> EmailShape(s)
  {
    if IsValidEmail(s) {
      EmailRegexHasShape(s);
    }
    if EmailShape(s) {
      EmailShapeMatchesRegex(s);
    }
  }

  // ---------------------------------------------------------------------------
  // Password: /^(?=.*\d)(?=.*[!@#$%^&*])(?=.*[a-z])(?=.*[A-Z]).{8,}$/
  // ---------------------------------------------------------------------------

  /** The four character classes a password must draw from. */
  datatype CharClass = Digit | Special | Lower | Upper

  /** `\d`, `[!@#$%^&*]`, `[a-z]` and `[A-Z]`. */
  predicate InClass(c: char, cls: CharClass) {
    match cls
    case Digit => '0' <= c <= '9'
    case Special => c == '!' || c == '@' || c == '#' || c == '$' || c == '%' || c == '^' || c == '&' || c == '*'
    case Lower => 'a' <= c <= 'z'
    case Upper => 'A' <= c <= 'Z'
  }

  /** The lookahead `(?=.*X)` at the start of `s`: some character of class
      `cls` is preceded only by characters that `.` matches. */
  predicate LookaheadFinds(s: string, cls: CharClass) {
    exists k | 0 <= k < |s| :: InClass(s[k], cls) && forall m | 0 <= m < k :: !IsLineTerminator(s[m])
  }

  /** The password regular expression matches the whole of `s`: the four
      lookaheads succeed at the start, then `.{8,}$` consumes all of `s`. */
  predicate IsValidPassword(s: string): (b: bool)
    ensures b ==> |s| >= 8 && forall cls :: Contains(s, cls)
  {
    && LookaheadFinds(s, Digit)
    && LookaheadFinds(s, Special)
    && LookaheadFinds(s, Lower)
    && LookaheadFinds(s, Upper)
    && |s| >= 8
    && forall k | 0 <= k < |s| :: !IsLineTerminator(s[k])
  }

  /** `s` has at least one character of class `cls`. */
  ghost predicate Contains(s: string, cls: CharClass) {
    exists k | 0 <= k < |s| :: InClass(s[k], cls)
  }

  /** The password policy in plain terms: at least eight characters, no line
      terminator, and at least one character of every class. */
  lemma PasswordPolicy(s: string)
    ensures IsValidPassword(s) <==>
      |s| >= 8 && (forall k | 0 <= k < |s| :: !IsLineTerminator(s[k])) && forall cls :: Contains(s, cls)
  {
    if |s| >= 8 && (forall k | 0 <= k < |s| :: !IsLineTerminator(s[k])) && forall cls :: Contains(s, cls) {
      forall cls ensures LookaheadFinds(s, cls) {
        assert Contains(s, cls);
      }
      assert LookaheadFinds(s, Digit) && LookaheadFinds(s, Special);
      assert LookaheadFinds(s, Lower) && LookaheadFinds(s, Upper);
    }
    if IsValidPassword(s) {
      forall cls ensures Contains(s, cls) {
        assert LookaheadFinds(s, cls) by {
          match cls
          case Digit =>
          case Special =>
          case Lower =>
          case Upper =>
        }
      }
    }
  }

  /** A password that lacks any one of the four classes is refused, however
      long it is. */
  lemma MissingClassRejected(s: string, cls: CharClass)
    requires !Contains(s, cls)
    ensures !IsValidPassword(s)
  {
  }

  // ---------------------------------------------------------------------------
  // Username: /^[a-z0-9_.]{2,}$/
  // ---------------------------------------------------------------------------

  /** The character class `[a-z0-9_.]`. */
  predicate IsUsernameChar(c: char) {
    'a' <= c <= 'z' || '0' <= c <= '9' || c == '_' || c == '.'
  }

  /** The username regular expression matches the whole of `s`. */
  predicate IsValidUsername(s: string): (b: bool)
    ensures b ==> '@' !in s && |s| >= 2
  {
    |s| >= 2 && forall k | 0 <= k < |s| :: IsUsernameChar(s[k])
  }

  /** No string is both a valid email and a valid username: an email holds an
      `@`, which the username alphabet lacks. */
  lemma EmailIsNeverUsername(s: string)
    ensures !(IsValidEmail(s) && IsValidUsername(s))
  {
  }

  // ---------------------------------------------------------------------------
  // checkEmailOrUsername
  // ---------------------------------------------------------------------------

  /** The three answers of the classifier: "email", "username", "invalid". */
  datatype IdKind = Email | Username | Invalid

  /** Classifies a login identifier. The email test comes first, but since no
      string passes both tests the order never decides the answer: the result
      is `Email` exactly for valid emails and `Username` exactly for valid
      usernames. */
  function CheckEmailOrUsername(s: string): (k: IdKind)
    ensures k == Email <==> IsValidEmail(s)
    ensures k == Username <==> IsValidUsername(s)
    ensures k == Invalid <==> !IsValidEmail(s) && !IsValidUsername(s)
  {
    EmailIsNeverUsername(s);
    if IsValidEmail(s) then Email
    else if IsValidUsername(s) then Username
    else Invalid
  }
}

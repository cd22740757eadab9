/** The PII redactor of the governance service: three ordered, global regular
    expression substitutions (SSN, then e-mail, then policy id). Each pattern
    is modelled by a declarative description of the spans it matches
    (`IsSpan`) and by an explicit matcher that follows the regex engine's
    choices at one start position (`Find`); `ReplaceAll` is the engine's
    left-to-right replace-all loop. */
module Redaction {
  import opened Common

  const SSN_TOKEN: string := "[REDACTED_SSN]"
  const EMAIL_TOKEN: string := "[REDACTED_EMAIL]"
  const POLICY_TOKEN: string := "[REDACTED_POLICY_ID]"

  /** `SSN_PATTERN`, `EMAIL_PATTERN`, `POLICY_PATTERN`. */
  datatype Pattern = Ssn | Email | Policy

  function Token(p: Pattern): string
  {
    match p
    case Ssn => SSN_TOKEN
    case Email => EMAIL_TOKEN
    case Policy => POLICY_TOKEN
  }

  /** `\w`: ASCII letters, digits and underscore. */
  predicate IsWordChar(c: char)
  {
    IsAsciiLetter(c) || IsAsciiDigit(c) || c == '_'
  }

  /** `\b` at position `k` (between `s[k-1]` and `s[k]`). */
  predicate Boundary(s: string, k: nat)
    requires k <= |s|
  {
    (k > 0 && IsWordChar(s[k - 1])) != (k < |s| && IsWordChar(s[k]))
  }

  /** The character classes the three patterns use. */
  datatype CharClass = Digit | Letter | LocalPart | DomainPart

  predicate InClass(c: char, cls: CharClass)
  {
    match cls
    case Digit => IsAsciiDigit(c)
    case Letter => IsAsciiLetter(c)
    case LocalPart => IsAsciiLetter(c) || IsAsciiDigit(c) || c == '.' || c == '_' || c == '%' || c == '+' || c == '-'
    case DomainPart => IsAsciiLetter(c) || IsAsciiDigit(c) || c == '.' || c == '-'
  }

  predicate InRange(w: string, a: nat, b: nat, cls: CharClass)
    requires a <= b <= |w|
  {
    forall k :: a <= k < b ==> InClass(w[k], cls)
  }

  // ---------------------------------------------------------------------------
  // What each pattern matches, as a property of the matched text (its shape)
  // and, for the two patterns with `\b`, of the characters around it.

  /** `\d{3}-\d{2}-\d{4}` or `\d{9}`. */
  predicate SsnShape(w: string)
  {
    || (|w| == 11 && InRange(w, 0, 3, Digit) && w[3] == '-' && InRange(w, 4, 6, Digit) && w[6] == '-' && InRange(w, 7, 11, Digit))
    || (|w| == 9 && InRange(w, 0, 9, Digit))
  }

  /** `[a-zA-Z0-9._%+-]+@[a-zA-Z0-9.-]+\.[a-zA-Z]{2,6}`, with the `@` at `at`
      and the last dot at `dot`. */
  predicate EmailParts(w: string, at: nat, dot: nat)
  {
    && 0 < at && at + 1 < dot && dot + 3 <= |w| <= dot + 7
    && InRange(w, 0, at, LocalPart) && w[at] == '@'
    && InRange(w, at + 1, dot, DomainPart) && w[dot] == '.'
    && InRange(w, dot + 1, |w|, Letter)
  }

  ghost predicate EmailShape(w: string)
  {
    exists at: nat, dot: nat :: EmailParts(w, at, dot)
  }

  /** The first `|prefix|` characters spell `prefix`, ignoring ASCII case. */
  predicate LabelIs(w: string, prefix: string)
  {
    |prefix| <= |w| && ToUpper(w[..|prefix|]) == prefix
  }

  /** `(?i)(POL|POLICY)-\d{4,10}`. */
  predicate PolicyShape(w: string)
  {
    || (LabelIs(w, "POL-") && 8 <= |w| <= 14 && InRange(w, 4, |w|, Digit))
    || (LabelIs(w, "POLICY-") && 11 <= |w| <= 17 && InRange(w, 7, |w|, Digit))
  }

  ghost predicate Shape(p: Pattern, w: string)
  {
    match p
    case Ssn => SsnShape(w)
    case Email => EmailShape(w)
    case Policy => PolicyShape(w)
  }

  /** The SSN and policy patterns are wrapped in `\b`; the e-mail one is not. */
  predicate NeedsBoundary(p: Pattern)
  {
    p != Email
  }

  /** `s[i..j]` is a match of pattern `p` when the engine tries position `i`. */
  ghost predicate IsSpan(p: Pattern, s: string, i: nat, j: nat)
  {
    && i <= j <= |s|
    && Shape(p, s[i..j])
    && (NeedsBoundary(p) ==> Boundary(s, i) && Boundary(s, j))
  }

  // ---------------------------------------------------------------------------
  // The matchers: what the regex engine does when it tries one start position.

  /** `\b\d{3}-\d{2}-\d{4}\b|\b\d{9}\b`, the dashed alternative first. */
  function SsnAt(s: string, i: nat): (r: Option<nat>)
    requires i <= |s|
    ensures r.Some? ==> i < r.value <= |s| && IsSpan(Ssn, s, i, r.value)
    ensures r.None? ==> forall j: nat :: !IsSpan(Ssn, s, i, j)
  {
    if !Boundary(s, i) then None
    else if i + 11 <= |s| && InRange(s, i, i + 3, Digit) && s[i + 3] == '-' && InRange(s, i + 4, i + 6, Digit)
            && s[i + 6] == '-' && InRange(s, i + 7, i + 11, Digit) && Boundary(s, i + 11)
    then
      assert SsnShape(s[i..i + 11]);
      Some(i + 11)
    else if i + 9 <= |s| && InRange(s, i, i + 9, Digit) && Boundary(s, i + 9) then
      assert SsnShape(s[i..i + 9]);
      Some(i + 9)
    else
      assert forall j: nat :: !IsSpan(Ssn, s, i, j) by {
        forall j: nat ensures !IsSpan(Ssn, s, i, j) {
          if IsSpan(Ssn, s, i, j) {
            SsnSpanAlternatives(s, i, j);
          }
        }
      }
      None
  }

  /** An SSN span read off the text: one of the two alternatives, with its
      `\b` tests. */
  lemma SsnSpanAlternatives(s: string, i: nat, j: nat)
    requires IsSpan(Ssn, s, i, j)
    ensures Boundary(s, i)
    ensures || (j == i + 11 && InRange(s, i, i + 3, Digit) && s[i + 3] == '-' && InRange(s, i + 4, i + 6, Digit)
                && s[i + 6] == '-' && InRange(s, i + 7, i + 11, Digit) && Boundary(s, i + 11))
            || (j == i + 9 && InRange(s, i, i + 9, Digit) && Boundary(s, i + 9))
  {
    var w := s[i..j];
    assert forall k :: i <= k < j ==> s[k] == w[k - i];
  }

  /** The end of the longest run of `cls` characters starting at `k`. */
  function RunEnd(s: string, k: nat, cls: CharClass): (e: nat)
    requires k <= |s|
    ensures k <= e <= |s|
    ensures InRange(s, k, e, cls)
    ensures e < |s| ==> !InClass(s[e], cls)
    decreases |s| - k
  {
    if k < |s| && InClass(s[k], cls) then RunEnd(s, k + 1, cls) else k
  }

  /** A dot at `m` followed by at least two letters: where `\.[a-zA-Z]{2,6}`
      can match. */
  predicate TldAt(s: string, m: nat)
    requires m < |s|
  {
    s[m] == '.' && RunEnd(s, m + 1, Letter) >= m + 3
  }

  /** Backtracking of the greedy `[a-zA-Z0-9.-]+`: the engine gives back one
      character at a time, so the dot it settles on is the LAST position below
      `hi` (and at least `lo`) where `\.[a-zA-Z]{2,6}` matches. */
  function TldDot(s: string, lo: nat, hi: nat): (r: Option<nat>)
    requires hi <= |s|
    ensures r.Some? ==> lo <= r.value < hi && TldAt(s, r.value)
    ensures r.Some? ==> forall m :: r.value < m < hi ==> !TldAt(s, m)
    ensures r.None? ==> forall m :: lo <= m < hi ==> !TldAt(s, m)
    decreases hi
  {
    if hi <= lo then None
    else if TldAt(s, hi - 1) then Some(hi - 1)
    else TldDot(s, lo, hi - 1)
  }

  /** `[a-zA-Z0-9._%+-]+@[a-zA-Z0-9.-]+\.[a-zA-Z]{2,6}` at position `i`: the
      local part is the whole run of local-part characters (no `@` can be given
      back to it), the domain backtracks to the last usable dot, and the
      top-level domain takes up to six letters. */
  function EmailAt(s: string, i: nat): (r: Option<nat>)
    requires i <= |s|
    ensures r.Some? ==> i + 6 <= r.value <= |s| && IsAsciiLetter(s[r.value - 1])
  {
    var at := RunEnd(s, i, LocalPart);
    if at == i || at == |s| || s[at] != '@' then None
    else
      var e := RunEnd(s, at + 1, DomainPart);
      match TldDot(s, at + 2, e)
      case None => None
      case Some(m) =>
        var letters := RunEnd(s, m + 1, Letter) - (m + 1);
        var j := m + 1 + Min(letters, 6);
        assert InClass(s[j - 1], Letter);
        Some(j)
  }

  function Min(a: int, b: int): int
  {
    if a <= b then a else b
  }

  /** The greedy `\d{4,n}` followed by `\b`: the engine tries `n` digits,
      then gives one back at a time down to four. */
  function BacktrackDigits(s: string, p: nat, n: nat): (r: Option<nat>)
    requires 4 <= n && p + n <= |s|
    ensures r.Some? ==> p + 4 <= r.value <= p + n && Boundary(s, r.value)
    ensures r.Some? ==> forall q :: r.value < q <= p + n ==> !Boundary(s, q)
    ensures r.None? ==> forall q :: p + 4 <= q <= p + n ==> !Boundary(s, q)
    decreases n
  {
    if Boundary(s, p + n) then Some(p + n)
    else if n == 4 then None
    else BacktrackDigits(s, p, n - 1)
  }

  /** One alternative of `(POL|POLICY)-\d{4,10}\b`, the prefix (with its dash)
      given. */
  function PolicyWith(s: string, i: nat, prefix: string): Option<nat>
    requires i <= |s|
  {
    if i + |prefix| <= |s| && ToUpper(s[i..i + |prefix|]) == prefix then
      var p := i + |prefix|;
      var d := RunEnd(s, p, Digit) - p;
      if d < 4 then None else BacktrackDigits(s, p, Min(d, 10))
    else None
  }

  /** `(?i)\b(POL|POLICY)-\d{4,10}\b`, the shorter prefix first. */
  function PolicyAt(s: string, i: nat): (r: Option<nat>)
    requires i <= |s|
    ensures r.Some? ==> i + 8 <= r.value <= |s| && Boundary(s, i) && Boundary(s, r.value)
  {
    if !Boundary(s, i) then None
    else
      match PolicyWith(s, i, "POL-")
      case Some(j) => Some(j)
      case None => PolicyWith(s, i, "POLICY-")
  }

  // ---------------------------------------------------------------------------
  // The matchers agree with the spans: each finds a span when one exists,
  // never reports a non-span, and (for the e-mail pattern, where several
  // spans can start at one position) settles on the longest.

  lemma {:induction false} RunEndAtLeast(s: string, k: nat, x: nat, cls: CharClass)
    requires k <= x <= |s| && InRange(s, k, x, cls)
    ensures RunEnd(s, k, cls) >= x
    decreases x - k
  {
    if k < x {
      RunEndAtLeast(s, k + 1, x, cls);
    }
  }

  lemma EmailAtSound(s: string, i: nat)
    requires i <= |s| && EmailAt(s, i).Some?
    ensures i < EmailAt(s, i).value <= |s| && IsSpan(Email, s, i, EmailAt(s, i).value)
  {
    var at := RunEnd(s, i, LocalPart);
    var e := RunEnd(s, at + 1, DomainPart);
    var m := TldDot(s, at + 2, e).value;
    var j := EmailAt(s, i).value;
    var w := s[i..j];
    assert EmailParts(w, at - i, m - i);
  }

  lemma SliceInRange(s: string, i: nat, k: nat, a: nat, b: nat, cls: CharClass)
    requires i <= k <= |s| && a <= b <= k - i
    requires InRange(s[i..k], a, b, cls)
    ensures InRange(s, i + a, i + b, cls)
  {
    forall t | i + a <= t < i + b ensures InClass(s[t], cls) {
      assert s[t] == s[i..k][t - i];
    }
  }

  /** The positions of the `@` and of the last dot of an e-mail span, and
      what the engine sees there. */
  lemma EmailAnchors(s: string, i: nat, k: nat) returns (at: nat, dot: nat)
    requires i <= |s| && IsSpan(Email, s, i, k)
    ensures i < at && at + 2 <= dot && dot + 3 <= k <= dot + 7
    ensures RunEnd(s, i, LocalPart) == at && s[at] == '@'
    ensures k <= RunEnd(s, at + 1, DomainPart)
    ensures s[dot] == '.' && InRange(s, dot + 1, k, Letter)
  {
    var w := s[i..k];
    assert EmailShape(w);
    var a: nat, d: nat :| EmailParts(w, a, d);
    at, dot := i + a, i + d;
    SliceInRange(s, i, k, 0, a, LocalPart);
    SliceInRange(s, i, k, a + 1, d, DomainPart);
    SliceInRange(s, i, k, d + 1, k - i, Letter);
    assert s[at] == w[a];
    assert s[dot] == w[d];
    RunEndAtLeast(s, i, at, LocalPart);
    assert InRange(s, at + 1, k, DomainPart);
    RunEndAtLeast(s, at + 1, k, DomainPart);
  }

  lemma EmailAtComplete(s: string, i: nat, k: nat)
    requires i <= |s| && IsSpan(Email, s, i, k)
    ensures EmailAt(s, i).Some? && EmailAt(s, i).value >= k
  {
    var at, dot := EmailAnchors(s, i, k);
    EmailAtReaches(s, i, k, at, dot);
  }

  lemma EmailAtReaches(s: string, i: nat, k: nat, at: nat, dot: nat)
    requires i <= |s| && k <= |s|
    requires i < at && at + 2 <= dot && dot + 3 <= k <= dot + 7
    requires RunEnd(s, i, LocalPart) == at && s[at] == '@'
    requires k <= RunEnd(s, at + 1, DomainPart)
    requires s[dot] == '.' && InRange(s, dot + 1, k, Letter)
    ensures EmailAt(s, i).Some? && EmailAt(s, i).value >= k
  {
    var e := RunEnd(s, at + 1, DomainPart);
    RunEndAtLeast(s, dot + 1, k, Letter);
    assert TldAt(s, dot);
    var r := TldDot(s, at + 2, e);
    assert r.Some? && r.value >= dot;
    var m := r.value;
    EmailAtIs(s, i, at, m);
    if m != dot {
      assert !InClass(s[m], Letter);
    }
  }

  lemma EmailAtIs(s: string, i: nat, at: nat, m: nat)
    requires i < at < |s| && at == RunEnd(s, i, LocalPart) && s[at] == '@'
    requires TldDot(s, at + 2, RunEnd(s, at + 1, DomainPart)) == Some(m)
    ensures EmailAt(s, i) == Some(m + 1 + Min(RunEnd(s, m + 1, Letter) - (m + 1), 6))
  {
  }

  /** `EMAIL_PATTERN` at one position finds the longest e-mail span there,
      and nothing when there is none. */
  lemma EmailAtCorrect(s: string, i: nat)
    requires i <= |s|
    ensures EmailAt(s, i).Some? ==>
      i < EmailAt(s, i).value <= |s| && IsSpan(Email, s, i, EmailAt(s, i).value) &&
      forall k: nat :: IsSpan(Email, s, i, k) ==> k <= EmailAt(s, i).value
    ensures EmailAt(s, i).None? ==> forall k: nat :: !IsSpan(Email, s, i, k)
  {
    if EmailAt(s, i).Some? {
      EmailAtSound(s, i);
    }
    forall k: nat | IsSpan(Email, s, i, k)
      ensures EmailAt(s, i).Some? && k <= EmailAt(s, i).value
    {
      EmailAtComplete(s, i, k);
    }
  }

  lemma PolicyWithSound(s: string, i: nat, prefix: string)
    requires i <= |s| && Boundary(s, i) && PolicyWith(s, i, prefix).Some?
    requires prefix == "POL-" || prefix == "POLICY-"
    ensures i < PolicyWith(s, i, prefix).value <= |s| && IsSpan(Policy, s, i, PolicyWith(s, i, prefix).value)
  {
    var p := i + |prefix|;
    var j := PolicyWith(s, i, prefix).value;
    assert p + 4 <= j;
    var w := s[i..j];
    assert w[..|prefix|] == s[i..p] by {
      assert forall t :: 0 <= t < |prefix| ==> w[t] == s[i + t];
    }
    assert InRange(w, |prefix|, |w|, Digit) by {
      assert forall t :: |prefix| <= t < |w| ==> w[t] == s[i + t];
    }
  }

  /** The prefix of a policy span and the digit run after it. */
  lemma PolicyAnchors(s: string, i: nat, k: nat) returns (prefix: string)
    requires IsSpan(Policy, s, i, k)
    ensures prefix == "POL-" || prefix == "POLICY-"
    ensures i + |prefix| + 4 <= k <= i + |prefix| + 10
    ensures ToUpper(s[i..i + |prefix|]) == prefix
    ensures RunEnd(s, i + |prefix|, Digit) == k
    ensures Boundary(s, i) && Boundary(s, k)
  {
    var w := s[i..k];
    prefix := if LabelIs(w, "POL-") && 8 <= |w| <= 14 && InRange(w, 4, |w|, Digit) then "POL-" else "POLICY-";
    var p := i + |prefix|;
    assert s[i..p] == w[..|prefix|];
    SliceInRange(s, i, k, |prefix|, k - i, Digit);
    RunEndAtLeast(s, p, k, Digit);
  }

  /** A policy span is found, whichever of its two prefixes it has. */
  lemma PolicySpanFound(s: string, i: nat, k: nat)
    requires IsSpan(Policy, s, i, k)
    ensures PolicyAt(s, i) == Some(k)
  {
    var prefix := PolicyAnchors(s, i, k);
    PolicyWithIs(s, i, k, prefix);
    if prefix == "POLICY-" {
      LongPrefixNotShort(s, i);
    }
  }

  lemma PolicyWithIs(s: string, i: nat, k: nat, prefix: string)
    requires prefix == "POL-" || prefix == "POLICY-"
    requires i + |prefix| + 4 <= k <= i + |prefix| + 10 && k <= |s|
    requires ToUpper(s[i..i + |prefix|]) == prefix
    requires RunEnd(s, i + |prefix|, Digit) == k
    requires Boundary(s, k)
    ensures PolicyWith(s, i, prefix) == Some(k)
  {
  }

  /** Text that starts with `POLICY-` does not start with `POL-`. */
  lemma LongPrefixNotShort(s: string, i: nat)
    requires i + 7 <= |s| && ToUpper(s[i..i + 7]) == "POLICY-"
    ensures PolicyWith(s, i, "POL-").None?
  {
    assert ToUpper(s[i..i + 4])[3] == UpperChar(s[i + 3]) == ToUpper(s[i..i + 7])[3] == 'I';
  }

  /** `POLICY_PATTERN` at one position: the span there, if any (there is at
      most one). */
  lemma PolicyAtCorrect(s: string, i: nat)
    requires i <= |s|
    ensures PolicyAt(s, i).Some? ==>
      i < PolicyAt(s, i).value <= |s| && IsSpan(Policy, s, i, PolicyAt(s, i).value) &&
      forall k: nat :: IsSpan(Policy, s, i, k) ==> k == PolicyAt(s, i).value
    ensures PolicyAt(s, i).None? ==> forall k: nat :: !IsSpan(Policy, s, i, k)
  {
    if PolicyAt(s, i).Some? {
      if PolicyWith(s, i, "POL-").Some? {
        PolicyWithSound(s, i, "POL-");
      } else {
        PolicyWithSound(s, i, "POLICY-");
      }
    }
    forall k: nat | IsSpan(Policy, s, i, k)
      ensures PolicyAt(s, i) == Some(k)
    {
      PolicySpanFound(s, i, k);
    }
  }

  /** At most one SSN span starts at a position. */
  lemma SsnSpanUnique(s: string, i: nat, j: nat, k: nat)
    requires IsSpan(Ssn, s, i, j) && IsSpan(Ssn, s, i, k)
    ensures j == k
  {
  }

  lemma SsnAtCorrect(s: string, i: nat)
    requires i <= |s|
    ensures SsnAt(s, i).Some? ==> forall k: nat :: IsSpan(Ssn, s, i, k) ==> k == SsnAt(s, i).value
  {
    forall k: nat | SsnAt(s, i).Some? && IsSpan(Ssn, s, i, k)
      ensures k == SsnAt(s, i).value
    {
      SsnSpanUnique(s, i, k, SsnAt(s, i).value);
    }
  }

  /** The matcher of pattern `p` tried at position `i`: a span that starts
      there (the longest one), or nothing when no span starts there. */
  function Find(p: Pattern, s: string, i: nat): (r: Option<nat>)
    requires i <= |s|
    ensures r.Some? ==> i < r.value <= |s| && IsSpan(p, s, i, r.value)
    ensures r.Some? ==> forall k: nat :: IsSpan(p, s, i, k) ==> k <= r.value
    ensures r.None? ==> forall k: nat :: !IsSpan(p, s, i, k)
  {
    match p
    case Ssn => SsnAtCorrect(s, i); SsnAt(s, i)
    case Email => EmailAtCorrect(s, i); EmailAt(s, i)
    case Policy => PolicyAtCorrect(s, i); PolicyAt(s, i)
  }

  /** `Matcher.replaceAll` from position `i` on: at each position the
      pattern is tried; a match is replaced by the token and the scan resumes
      at its end, otherwise the character is copied. */
  function ReplaceFrom(p: Pattern, s: string, i: nat): string
    requires i <= |s|
    decreases |s| - i
  {
    if i == |s| then []
    else
      match Find(p, s, i)
      case Some(j) => Token(p) + ReplaceFrom(p, s, j)
      case None => [s[i]] + ReplaceFrom(p, s, i + 1)
  }

  /** `PATTERN.matcher(s).replaceAll(token)`. Its output holds no further
      match of the pattern: a match the scan skipped cannot reappear, since
      the token it writes contains neither a digit nor an `@`. */
  function ReplaceAll(p: Pattern, s: string): (r: string)
    ensures NoSpan(p, r)
  {
    NoResidualFrom(p, s, 0, []);
    assert [] + ReplaceFrom(p, s, 0) == ReplaceFrom(p, s, 0);
    ReplaceFrom(p, s, 0)
  }

  /** `redactSensitiveData`: a null or empty input is returned as it is;
      otherwise SSNs, then e-mail addresses, then policy ids are replaced,
      each substitution working on the output of the previous one. */
  function RedactSensitiveData(input: Option<string>): (r: Option<string>)
    ensures r.Some? <==> input.Some?
    ensures input == Some([]) ==> r == input
    ensures input.Some? && input.value != [] ==> NoSpan(Policy, r.value)
    ensures input.Some? && input.value != [] ==> NoSpan(Email, r.value)
  {
    match input
    case None => None
    case Some(text) =>
      if text == [] then input
      else
        var noEmail := ReplaceAll(Email, ReplaceAll(Ssn, text));
        PolicyStageKeepsNoEmail(noEmail, 0);
        Some(ReplaceAll(Policy, noEmail))
  }

  /** The condition under which the service logs that PII was found. It is
      computed from the result and does not feed back into it. */
  function PiiDetected(input: Option<string>): bool
  {
    input.Some? && input.value != [] && RedactSensitiveData(input) != input
  }

  // ---------------------------------------------------------------------------
  // Properties of one substitution.

  ghost predicate NoSpan(p: Pattern, s: string)
  {
    forall i: nat, j: nat :: !IsSpan(p, s, i, j)
  }

  predicate IsBracket(c: char)
  {
    c == '[' || c == ']'
  }

  /** Every span holds a digit or an `@`; no token does. */
  predicate IsKeyChar(c: char)
  {
    IsAsciiDigit(c) || c == '@'
  }

  /** What every span is made of: no brackets, at least one key character,
      and word characters at both ends when it is wrapped in `\b`. */
  lemma SpanChars(p: Pattern, s: string, i: nat, j: nat)
    requires IsSpan(p, s, i, j)
    ensures i < j
    ensures forall t :: i <= t < j ==> !IsBracket(s[t])
    ensures exists t :: i <= t < j && IsKeyChar(s[t])
    ensures NeedsBoundary(p) ==> IsWordChar(s[i]) && IsWordChar(s[j - 1])
  {
    var w := s[i..j];
    ShapeChars(p, w);
    var t :| 0 <= t < |w| && IsKeyChar(w[t]);
    assert IsKeyChar(s[i + t]);
    assert forall u :: i <= u < j ==> s[u] == w[u - i];
  }

  /** The characters of a matched text: no brackets, at least one digit or
      `@`, and word characters at both ends for the patterns wrapped in `\b`. */
  lemma ShapeChars(p: Pattern, w: string)
    requires Shape(p, w)
    ensures |w| > 0
    ensures forall t :: 0 <= t < |w| ==> !IsBracket(w[t])
    ensures exists t :: 0 <= t < |w| && IsKeyChar(w[t])
    ensures NeedsBoundary(p) ==> IsWordChar(w[0]) && IsWordChar(w[|w| - 1])
  {
    match p
    case Ssn =>
      assert IsKeyChar(w[0]);
    case Email =>
      var a: nat, d: nat :| EmailParts(w, a, d);
      assert IsKeyChar(w[a]);
    case Policy =>
      PolicyChars(w);
  }

  lemma PolicyChars(w: string)
    requires PolicyShape(w)
    ensures forall t :: 0 <= t < |w| ==> !IsBracket(w[t])
    ensures exists t :: 0 <= t < |w| && IsKeyChar(w[t])
    ensures IsWordChar(w[0]) && IsWordChar(w[|w| - 1])
  {
    var n := if LabelIs(w, "POL-") && 8 <= |w| <= 14 && InRange(w, 4, |w|, Digit) then 4 else 7;
    assert forall t :: 0 <= t < n ==> ToUpper(w[..n])[t] == UpperChar(w[t]);
    assert IsKeyChar(w[n]);
  }

  /** Every token is bracketed and holds no key character. */
  lemma TokenChars(p: Pattern)
    ensures |Token(p)| >= 2 && Token(p)[0] == '[' && Token(p)[|Token(p)| - 1] == ']'
    ensures forall t :: 0 <= t < |Token(p)| ==> !IsKeyChar(Token(p)[t])
  {
  }

  /** The first position at or after `i` where the pattern matches, or `|s|`. */
  function FirstMatch(p: Pattern, s: string, i: nat): (b: nat)
    requires i <= |s|
    ensures i <= b <= |s|
    ensures forall t :: i <= t < b ==> Find(p, s, t).None?
    ensures b < |s| ==> Find(p, s, b).Some?
    decreases |s| - i
  {
    if i == |s| || Find(p, s, i).Some? then i else FirstMatch(p, s, i + 1)
  }

  /** The scan copies everything before the leftmost match, replaces that
      match by the token and resumes at the match's end. */
  lemma {:induction false} ReplaceFromSplit(p: Pattern, s: string, i: nat)
    requires i <= |s|
    ensures var b := FirstMatch(p, s, i);
      ReplaceFrom(p, s, i) ==
        s[i..b] + (if b < |s| then Token(p) + ReplaceFrom(p, s, Find(p, s, b).value) else [])
    decreases |s| - i
  {
    if i < |s| && Find(p, s, i).None? {
      ReplaceFromSplit(p, s, i + 1);
      var b := FirstMatch(p, s, i);
      var x := if b < |s| then Token(p) + ReplaceFrom(p, s, Find(p, s, b).value) else [];
      CopyStep(s, i, b, ReplaceFrom(p, s, i + 1), x);
    }
  }

  lemma CopyStep(s: string, i: nat, b: nat, tail: string, x: string)
    requires i < b <= |s| && tail == s[i + 1..b] + x
    ensures [s[i]] + tail == s[i..b] + x
  {
    assert s[i..b] == [s[i]] + s[i + 1..b];
  }

  /** One substitution leaves a text unchanged exactly when the pattern does
      not match anywhere in it. */
  lemma ReplaceAllUnchanged(p: Pattern, s: string)
    ensures ReplaceAll(p, s) == s <==> NoSpan(p, s)
  {
    var b := FirstMatch(p, s, 0);
    ReplaceFromSplit(p, s, 0);
    if b < |s| {
      var e := Find(p, s, b).value;
      SpanChars(p, s, b, e);
      TokenChars(p);
      assert ReplaceAll(p, s)[b] == '[';
      assert !NoSpan(p, s);
    } else {
      assert ReplaceAll(p, s) == s;
      forall i: nat, j: nat ensures !IsSpan(p, s, i, j) {
        if i < |s| {
          assert Find(p, s, i).None?;
        }
      }
    }
  }

  /** A span moved to another text with the same characters and the same
      word/non-word neighbours stays a span. */
  lemma SpanTransfer(p: Pattern, w: string, q: nat, r: nat, s: string, q2: nat, r2: nat)
    requires IsSpan(p, w, q, r)
    requires q2 <= r2 <= |s| && w[q..r] == s[q2..r2]
    requires NeedsBoundary(p) ==> Boundary(w, q) == Boundary(s, q2) && Boundary(w, r) == Boundary(s, r2)
    ensures IsSpan(p, s, q2, r2)
  {
  }

  /** A span keeps being a span when the text in front of it is dropped, as
      long as the character just before it is kept. */
  lemma ShiftSpan(p: Pattern, w: string, d: nat, q: nat, r: nat)
    requires d < q && IsSpan(p, w, q, r)
    ensures IsSpan(p, w[d..], q - d, r - d)
  {
    var v := w[d..];
    assert v[q - d..r - d] == w[q..r];
    assert v[q - d - 1] == w[q - 1];
    assert q < |w| ==> v[q - d] == w[q];
    assert r < |w| ==> v[r - d] == w[r];
    assert r - d > 0 ==> v[r - d - 1] == w[r - 1];
    SpanTransfer(p, w, q, r, v, q - d, r - d);
  }

  /** No span starts at a position the scan copied. */
  lemma FirstMatchSkips(p: Pattern, s: string, i: nat, t: nat)
    requires i <= |s| && i <= t < FirstMatch(p, s, i)
    ensures forall k: nat :: !IsSpan(p, s, t, k)
  {
    assert Find(p, s, t).None?;
  }

  /** No span can overlap a token that was written into the output. */
  lemma TokenOverlap(p: Pattern, w: string, a: nat, q: nat, r: nat)
    requires a + |Token(p)| <= |w| && w[a..a + |Token(p)|] == Token(p)
    requires IsSpan(p, w, q, r)
    ensures r <= a || q >= a + |Token(p)|
  {
    SpanChars(p, w, q, r);
    TokenChars(p);
    var tok := Token(p);
    assert w[a] == tok[0];
    assert w[a + |tok| - 1] == tok[|tok| - 1];
    assert forall t :: a < t < a + |tok| - 1 ==> w[t] == tok[t - a];
  }

  /** A span found in the copied stretch `c + s[i..b]` at the front of the
      output is a span of the input at the corresponding position. `c` is
      what stands before the stretch: nothing at the start of the text, or
      the closing bracket of the token just written. */
  lemma CopiedSpan(p: Pattern, s: string, i: nat, b: nat, c: string, w: string, q: nat, r: nat) returns (q2: nat, r2: nat)
    requires i <= b <= |s|
    requires (c == [] && i == 0) || (c == "]" && (NeedsBoundary(p) && i < |s| ==> !IsWordChar(s[i])))
    requires |c| + (b - i) <= |w| && w[..|c| + (b - i)] == c + s[i..b]
    requires b == |s| ==> |w| == |c| + (b - i)
    requires b < |s| ==> |w| > |c| + (b - i) && w[|c| + (b - i)] == '['
    requires b < |s| && NeedsBoundary(p) ==> IsWordChar(s[b]) && Boundary(s, b)
    requires IsSpan(p, w, q, r) && r <= |c| + (b - i)
    ensures i <= q2 < b && IsSpan(p, s, q2, r2)
  {
    SpanChars(p, w, q, r);
    var nb := NeedsBoundary(p);
    assert nb ==> Boundary(w, q) && Boundary(w, r);
    q2, r2 := CopiedPlace(s, i, b, c, w, q, r, nb);
    SpanTransfer(p, w, q, r, s, q2, r2);
  }

  /** The position in the input of a stretch of the copied text that holds
      no bracket (and, under `\b`, is bounded by word characters). */
  lemma CopiedPlace(s: string, i: nat, b: nat, c: string, w: string, q: nat, r: nat, nb: bool) returns (q2: nat, r2: nat)
    requires i <= b <= |s|
    requires (c == [] && i == 0) || (c == "]" && (nb && i < |s| ==> !IsWordChar(s[i])))
    requires |c| + (b - i) <= |w| && w[..|c| + (b - i)] == c + s[i..b]
    requires b == |s| ==> |w| == |c| + (b - i)
    requires b < |s| ==> |w| > |c| + (b - i) && w[|c| + (b - i)] == '['
    requires b < |s| && nb ==> IsWordChar(s[b]) && Boundary(s, b)
    requires q < r <= |c| + (b - i) && !IsBracket(w[q])
    requires nb ==> IsWordChar(w[q]) && IsWordChar(w[r - 1]) && Boundary(w, q) && Boundary(w, r)
    ensures i <= q2 < b && q2 <= r2 <= |s| && w[q..r] == s[q2..r2]
    ensures nb ==> Boundary(w, q) == Boundary(s, q2) && Boundary(w, r) == Boundary(s, r2)
  {
    PrefixHead(w, c, s[i..b]);
    assert q >= |c|;
    q2 := i + (q - |c|);
    r2 := i + (r - |c|);
    CopiedSlice(s, i, b, c, w, q, r);
    if nb {
      CopiedBoundaries(s, i, b, c, w, q, r);
    }
  }

  /** The `\b` tests at the ends of a span in the copied stretch give the
      same answers in the input. */
  lemma CopiedBoundaries(s: string, i: nat, b: nat, c: string, w: string, q: nat, r: nat)
    requires i <= b <= |s|
    requires (c == [] && i == 0) || (c == "]" && (i < |s| ==> !IsWordChar(s[i])))
    requires |c| + (b - i) <= |w| && w[..|c| + (b - i)] == c + s[i..b]
    requires b == |s| ==> |w| == |c| + (b - i)
    requires b < |s| ==> |w| > |c| + (b - i) && w[|c| + (b - i)] == '[' && IsWordChar(s[b]) && Boundary(s, b)
    requires |c| <= q < r <= |c| + (b - i)
    requires IsWordChar(w[q]) && IsWordChar(w[r - 1]) && Boundary(w, q) && Boundary(w, r)
    ensures Boundary(s, i + (q - |c|)) && Boundary(s, i + (r - |c|))
  {
    var a := |c| + (b - i);
    PrefixChars(w, c, s[i..b]);
    assert q > |c| || c == [];
    assert r < a || b == |s|;
  }

  /** Where a text starts with `c + y`, its characters are those of `c` and
      `y`. */
  lemma PrefixChars(w: string, c: string, y: string)
    requires |c| + |y| <= |w| && w[..|c| + |y|] == c + y
    ensures forall t :: 0 <= t < |c| ==> w[t] == c[t]
    ensures forall t :: |c| <= t < |c| + |y| ==> w[t] == y[t - |c|]
  {
    assert forall t :: 0 <= t < |c| + |y| ==> w[t] == w[..|c| + |y|][t];
  }

  lemma PrefixSlice(w: string, c: string, y: string, lo: nat, hi: nat)
    requires |c| + |y| <= |w| && w[..|c| + |y|] == c + y
    requires |c| <= lo <= hi <= |c| + |y|
    ensures w[lo..hi] == y[lo - |c|..hi - |c|]
  {
    PrefixChars(w, c, y);
  }

  lemma PrefixHead(w: string, c: string, y: string)
    requires |c| + |y| <= |w| && w[..|c| + |y|] == c + y
    ensures |c| > 0 ==> w[0] == c[0]
  {
    PrefixChars(w, c, y);
  }

  lemma CopiedSlice(s: string, i: nat, b: nat, c: string, w: string, q: nat, r: nat)
    requires i <= b <= |s|
    requires |c| + (b - i) <= |w| && w[..|c| + (b - i)] == c + s[i..b]
    requires |c| <= q <= r <= |c| + (b - i)
    ensures w[q..r] == s[i + (q - |c|)..i + (r - |c|)]
  {
    PrefixSlice(w, c, s[i..b], q, r);
    SliceOfSlice(s, i, b, q - |c|, r - |c|);
  }

  lemma SliceOfSlice(s: string, i: nat, b: nat, u: nat, v: nat)
    requires i <= b <= |s| && u <= v <= b - i
    ensures s[i..b][u..v] == s[i + u..i + v]
  {
    assert forall k :: 0 <= k < v - u ==> s[i..b][u..v][k] == s[i + u + k];
  }

  /** The three parts of `x + t + rest`, with the last character of `t`
      kept in front of `rest`. */
  lemma Parts(w: string, x: string, t: string, rest: string)
    requires w == x + t + rest && |t| >= 1
    ensures w[..|x|] == x
    ensures w[|x|..|x| + |t|] == t
    ensures w[|x|] == t[0]
    ensures w[|x| + |t| - 1..] == [t[|t| - 1]] + rest
  {
    assert w[|x| + |t| - 1..] == [w[|x| + |t| - 1]] + w[|x| + |t|..];
  }

  /** The output when the scan from `i` finds no further match holds no
      span. */
  lemma NoSpanInTail(p: Pattern, s: string, i: nat, c: string, w: string)
    requires i <= |s| && FirstMatch(p, s, i) == |s|
    requires (c == [] && i == 0) || (c == "]" && (NeedsBoundary(p) && i < |s| ==> !IsWordChar(s[i])))
    requires w == c + s[i..]
    ensures NoSpan(p, w)
  {
    assert w[..|c| + (|s| - i)] == c + s[i..|s|];
    forall q: nat, r: nat ensures !IsSpan(p, w, q, r) {
      if IsSpan(p, w, q, r) {
        var q2, _ := CopiedSpan(p, s, i, |s|, c, w, q, r);
        FirstMatchSkips(p, s, i, q2);
        assert false;
      }
    }
  }

  /** The output when the scan from `i` copies up to the match at `b`, writes
      the token and continues with `rest` holds no span, given that `rest`
      behind the token's closing bracket holds none. */
  lemma NoSpanAroundToken(p: Pattern, s: string, i: nat, b: nat, c: string, w: string, rest: string)
    requires i <= b < |s| && b == FirstMatch(p, s, i)
    requires (c == [] && i == 0) || (c == "]" && (NeedsBoundary(p) && i < |s| ==> !IsWordChar(s[i])))
    requires NeedsBoundary(p) ==> IsWordChar(s[b]) && Boundary(s, b)
    requires w == c + s[i..b] + Token(p) + rest
    requires NoSpan(p, "]" + rest)
    ensures NoSpan(p, w)
  {
    Layout(p, s, i, b, c, w, rest);
    NotInCopied(p, s, i, b, c, w);
    NotAfterCopied(p, w, |c| + (b - i), rest);
    CombineNoSpan(p, w, |c| + (b - i));
  }

  /** Where the copied text, the token and the rest lie in the output. */
  lemma Layout(p: Pattern, s: string, i: nat, b: nat, c: string, w: string, rest: string)
    requires i <= b <= |s|
    requires w == c + s[i..b] + Token(p) + rest
    ensures |c| + (b - i) < |w| && w[..|c| + (b - i)] == c + s[i..b] && w[|c| + (b - i)] == '['
    ensures |c| + (b - i) + |Token(p)| <= |w| && w[|c| + (b - i)..|c| + (b - i) + |Token(p)|] == Token(p)
    ensures w[|c| + (b - i) + |Token(p)| - 1..] == "]" + rest
  {
    TokenChars(p);
    var x := c + s[i..b];
    Parts(w, x, Token(p), rest);
  }

  lemma CombineNoSpan(p: Pattern, w: string, a: nat)
    requires forall q: nat, r: nat :: r <= a ==> !IsSpan(p, w, q, r)
    requires forall q: nat, r: nat :: a < r ==> !IsSpan(p, w, q, r)
    ensures NoSpan(p, w)
  {
  }

  /** No span of the output ends inside the copied stretch. */
  lemma NotInCopied(p: Pattern, s: string, i: nat, b: nat, c: string, w: string)
    requires i <= b < |s| && b == FirstMatch(p, s, i)
    requires (c == [] && i == 0) || (c == "]" && (NeedsBoundary(p) && i < |s| ==> !IsWordChar(s[i])))
    requires NeedsBoundary(p) ==> IsWordChar(s[b]) && Boundary(s, b)
    requires |c| + (b - i) < |w| && w[..|c| + (b - i)] == c + s[i..b] && w[|c| + (b - i)] == '['
    ensures forall q: nat, r: nat :: r <= |c| + (b - i) ==> !IsSpan(p, w, q, r)
  {
    forall q: nat, r: nat | r <= |c| + (b - i) ensures !IsSpan(p, w, q, r) {
      if IsSpan(p, w, q, r) {
        var q2, _ := CopiedSpan(p, s, i, b, c, w, q, r);
        FirstMatchSkips(p, s, i, q2);
        assert false;
      }
    }
  }

  /** No span of the output reaches past the start of a token, given that
      none lies in what follows the token's last character. */
  lemma NotAfterCopied(p: Pattern, w: string, a: nat, rest: string)
    requires a + |Token(p)| <= |w| && w[a..a + |Token(p)|] == Token(p)
    requires w[a + |Token(p)| - 1..] == "]" + rest
    requires NoSpan(p, "]" + rest)
    ensures forall q: nat, r: nat :: a < r ==> !IsSpan(p, w, q, r)
  {
    TokenChars(p);
    forall q: nat, r: nat | a < r ensures !IsSpan(p, w, q, r) {
      if IsSpan(p, w, q, r) {
        TokenOverlap(p, w, a, q, r);
        ShiftSpan(p, w, a + |Token(p)| - 1, q, r);
        assert false;
      }
    }
  }

  lemma Regroup(a: string, b: string, c: string, d: string)
    ensures a + (b + (c + d)) == a + b + c + d
  {
  }

  /** A match ends before a non-word character or at the end of the text. */
  lemma AfterMatch(p: Pattern, s: string, b: nat, e: nat)
    requires IsSpan(p, s, b, e)
    ensures e <= |s|
    ensures NeedsBoundary(p) && e < |s| ==> !IsWordChar(s[e])
    ensures NeedsBoundary(p) ==> IsWordChar(s[b]) && Boundary(s, b)
  {
    SpanChars(p, s, b, e);
  }

  /** The output of the scan from `i`, behind `c` (nothing at the start of
      the text, or the `]` of the token just written), holds no span of the
      pattern. */
  lemma {:induction false} NoResidualFrom(p: Pattern, s: string, i: nat, c: string)
    requires i <= |s|
    requires (c == [] && i == 0) || (c == "]" && (NeedsBoundary(p) && i < |s| ==> !IsWordChar(s[i])))
    ensures NoSpan(p, c + ReplaceFrom(p, s, i))
    decreases |s| - i
  {
    var b := FirstMatch(p, s, i);
    ReplaceFromSplit(p, s, i);
    var w := c + ReplaceFrom(p, s, i);
    if b == |s| {
      assert w == c + s[i..];
      NoSpanInTail(p, s, i, c, w);
    } else {
      var e := Find(p, s, b).value;
      var rest := ReplaceFrom(p, s, e);
      Regroup(c, s[i..b], Token(p), rest);
      AfterMatch(p, s, b, e);
      NoResidualFrom(p, s, e, "]");
      NoSpanAroundToken(p, s, i, b, c, w, rest);
    }
  }

  // ---------------------------------------------------------------------------
  // Properties of the three substitutions on particular kinds of input.

  /** The scan from `i` reaches its first match at `b`. */
  lemma {:induction false} FirstMatchAt(p: Pattern, s: string, i: nat, b: nat)
    requires i <= b <= |s|
    requires forall t :: i <= t < b ==> Find(p, s, t).None?
    requires b < |s| ==> Find(p, s, b).Some?
    ensures FirstMatch(p, s, i) == b
    decreases b - i
  {
    if i < b {
      FirstMatchAt(p, s, i + 1, b);
    }
  }

  /** Where no match lies ahead, the scan copies the rest of the text. */
  lemma CopiedTail(p: Pattern, s: string, i: nat)
    requires i <= |s| && FirstMatch(p, s, i) == |s|
    ensures ReplaceFrom(p, s, i) == s[i..]
  {
    ReplaceFromSplit(p, s, i);
  }

  /** A text without digits or `@` holds no span of any pattern. */
  lemma NoKeyNoSpan(p: Pattern, s: string)
    requires forall k :: 0 <= k < |s| ==> !IsKeyChar(s[k])
    ensures NoSpan(p, s)
  {
    forall i: nat, j: nat ensures !IsSpan(p, s, i, j) {
      if IsSpan(p, s, i, j) {
        SpanChars(p, s, i, j);
      }
    }
  }

  /** Every e-mail span holds an `@`. */
  lemma EmailSpanHasAt(s: string, i: nat, j: nat)
    requires IsSpan(Email, s, i, j)
    ensures exists k :: i <= k < j && s[k] == '@'
  {
    var w := s[i..j];
    var a: nat, d: nat :| EmailParts(w, a, d);
    assert s[i + a] == w[a];
  }

  /** A text without `@` holds no e-mail span. */
  lemma NoAtNoEmail(s: string)
    requires forall k :: 0 <= k < |s| ==> s[k] != '@'
    ensures NoSpan(Email, s)
  {
    forall i: nat, j: nat ensures !IsSpan(Email, s, i, j) {
      if IsSpan(Email, s, i, j) {
        EmailSpanHasAt(s, i, j);
      }
    }
  }

  /** What an SSN span looks like from the outside: it starts and ends with a
      digit, the characters around it are not word characters, and it is nine
      digits or has dashes in the fourth and seventh places. */
  lemma SsnSpanFacts(s: string, i: nat, j: nat)
    requires IsSpan(Ssn, s, i, j)
    ensures IsAsciiDigit(s[i]) && IsAsciiDigit(s[j - 1])
    ensures i == 0 || !IsWordChar(s[i - 1])
    ensures j == |s| || !IsWordChar(s[j])
    ensures || (j == i + 9 && forall k :: i <= k < j ==> IsAsciiDigit(s[k]))
            || (j == i + 11 && s[i + 3] == '-' && s[i + 6] == '-')
  {
    var w := s[i..j];
    assert forall k :: i <= k < j ==> s[k] == w[k - i];
  }

  /** On a run of digits alone, the SSN substitution fires exactly when the
      run is nine digits long; a ten-digit run is left alone. */
  lemma AllDigitsSsn(s: string)
    requires forall k :: 0 <= k < |s| ==> IsAsciiDigit(s[k])
    ensures ReplaceAll(Ssn, s) == if |s| == 9 then SSN_TOKEN else s
  {
    if |s| == 9 {
      assert Find(Ssn, s, 0) == Some(9);
      FirstMatchAt(Ssn, s, 0, 0);
      ReplaceFromSplit(Ssn, s, 0);
    } else {
      forall i: nat, j: nat ensures !IsSpan(Ssn, s, i, j) {
        if IsSpan(Ssn, s, i, j) {
          SsnSpanFacts(s, i, j);
        }
      }
      ReplaceAllUnchanged(Ssn, s);
    }
  }

  /** A null or empty text is returned as it is, and no PII is reported. */
  lemma RedactNullOrEmpty()
    ensures RedactSensitiveData(None) == None && !PiiDetected(None)
    ensures RedactSensitiveData(Some([])) == Some([]) && !PiiDetected(Some([]))
  {
  }

  /** A text in which no pattern matches anywhere comes back identical, and
      no PII is reported for it. */
  lemma NoPiiUnchanged(s: string)
    requires NoSpan(Ssn, s) && NoSpan(Email, s) && NoSpan(Policy, s)
    ensures RedactSensitiveData(Some(s)) == Some(s)
    ensures !PiiDetected(Some(s))
  {
    ReplaceAllUnchanged(Ssn, s);
    ReplaceAllUnchanged(Email, s);
    ReplaceAllUnchanged(Policy, s);
  }

  /** Whenever PII is reported, one of the three patterns matched the text. */
  lemma PiiDetectedMeansMatch(s: string)
    requires PiiDetected(Some(s))
    ensures !NoSpan(Ssn, s) || !NoSpan(Email, s) || !NoSpan(Policy, s)
  {
    if NoSpan(Ssn, s) && NoSpan(Email, s) && NoSpan(Policy, s) {
      NoPiiUnchanged(s);
    }
  }

  /** Whenever one of the three patterns matches a non-empty text, PII is
      reported: the first substitution whose pattern matches its input
      removes a digit or `@` that no later substitution puts back. */
  lemma MatchMeansDetected(s: string)
    requires s != []
    requires !NoSpan(Ssn, s) || !NoSpan(Email, s) || !NoSpan(Policy, s)
    ensures PiiDetected(Some(s))
  {
    var afterSsn := ReplaceAll(Ssn, s);
    var afterEmail := ReplaceAll(Email, afterSsn);
    ReplaceAllKeyCount(Ssn, s);
    ReplaceAllKeyCount(Email, afterSsn);
    ReplaceAllKeyCount(Policy, afterEmail);
    ReplaceAllUnchanged(Ssn, s);
    ReplaceAllUnchanged(Email, afterSsn);
    assert KeyCount(ReplaceAll(Policy, afterEmail)) < KeyCount(s);
  }

  /** The number of digits and `@` in a text. */
  function KeyCount(s: string): nat
  {
    if s == [] then 0 else (if IsKeyChar(s[0]) then 1 else 0) + KeyCount(s[1..])
  }

  lemma {:induction false} KeyCountConcat(a: string, b: string)
    ensures KeyCount(a + b) == KeyCount(a) + KeyCount(b)
  {
    if a != [] {
      assert (a + b)[1..] == a[1..] + b;
      KeyCountConcat(a[1..], b);
    } else {
      assert a + b == b;
    }
  }

  lemma {:induction false} KeyCountSplit(s: string, i: nat, b: nat, e: nat)
    requires i <= b <= e <= |s|
    ensures KeyCount(s[i..]) == KeyCount(s[i..b]) + KeyCount(s[b..e]) + KeyCount(s[e..])
  {
    assert s[i..] == s[i..b] + (s[b..e] + s[e..]);
    KeyCountConcat(s[i..b], s[b..e] + s[e..]);
    KeyCountConcat(s[b..e], s[e..]);
  }

  lemma {:induction false} KeyCountPositive(s: string, k: nat)
    requires k < |s| && IsKeyChar(s[k])
    ensures KeyCount(s) > 0
  {
    if k > 0 {
      KeyCountPositive(s[1..], k - 1);
    }
  }

  lemma {:induction false} KeyCountZero(s: string)
    requires forall k :: 0 <= k < |s| ==> !IsKeyChar(s[k])
    ensures KeyCount(s) == 0
  {
    if s != [] {
      KeyCountZero(s[1..]);
    }
  }

  /** A scan never adds a digit or `@`, and removes at least one when it
      replaces anything. */
  lemma {:induction false} ReplaceFromKeyCount(p: Pattern, s: string, i: nat)
    requires i <= |s|
    ensures KeyCount(ReplaceFrom(p, s, i)) <= KeyCount(s[i..])
    ensures FirstMatch(p, s, i) < |s| ==> KeyCount(ReplaceFrom(p, s, i)) < KeyCount(s[i..])
    decreases |s| - i
  {
    var b := FirstMatch(p, s, i);
    ReplaceFromSplit(p, s, i);
    if b < |s| {
      var e := Find(p, s, b).value;
      ReplaceFromKeyCount(p, s, e);
      MatchStepKeyCount(p, s, i, b, e, ReplaceFrom(p, s, e));
    } else {
      assert ReplaceFrom(p, s, i) == s[i..];
    }
  }

  /** Replacing one span by the token, with a tail that has no more digits
      or `@` than the text it came from, strictly lowers their number. */
  lemma MatchStepKeyCount(p: Pattern, s: string, i: nat, b: nat, e: nat, rest: string)
    requires i <= b <= e <= |s| && IsSpan(p, s, b, e)
    requires KeyCount(rest) <= KeyCount(s[e..])
    ensures KeyCount(s[i..b] + (Token(p) + rest)) < KeyCount(s[i..])
  {
    TokenChars(p);
    KeyCountZero(Token(p));
    SpanKeyCount(p, s, b, e);
    KeyCountSplit(s, i, b, e);
    KeyCountConcat(s[i..b], Token(p) + rest);
    KeyCountConcat(Token(p), rest);
  }

  /** Every span holds a digit or an `@`. */
  lemma SpanKeyCount(p: Pattern, s: string, i: nat, j: nat)
    requires IsSpan(p, s, i, j)
    ensures KeyCount(s[i..j]) > 0
  {
    SpanChars(p, s, i, j);
    var k :| i <= k < j && IsKeyChar(s[k]);
    assert s[i..j][k - i] == s[k];
    KeyCountPositive(s[i..j], k - i);
  }

  /** One substitution never adds a digit or `@`, and removes at least one
      when its pattern matches. */
  lemma ReplaceAllKeyCount(p: Pattern, s: string)
    ensures KeyCount(ReplaceAll(p, s)) <= KeyCount(s)
    ensures !NoSpan(p, s) ==> KeyCount(ReplaceAll(p, s)) < KeyCount(s)
  {
    ReplaceFromKeyCount(p, s, 0);
    ReplaceFromSplit(p, s, 0);
    assert s[0..] == s;
    ReplaceAllUnchanged(p, s);
  }

  /** The policy substitution keeps a text free of e-mail spans: e-mail
      spans hold no brackets, so none can straddle the token's edges, and the
      token itself holds no `@`. */
  lemma {:induction false} PolicyStageKeepsNoEmail(s: string, i: nat)
    requires i <= |s| && NoSpan(Email, s)
    ensures NoSpan(Email, ReplaceFrom(Policy, s, i))
    decreases |s| - i
  {
    var b := FirstMatch(Policy, s, i);
    ReplaceFromSplit(Policy, s, i);
    NoEmailInSlice(s, i, b);
    if b < |s| {
      var e := Find(Policy, s, b).value;
      var rest := ReplaceFrom(Policy, s, e);
      PolicyStageKeepsNoEmail(s, e);
      TokenChars(Policy);
      NoKeyNoSpan(Email, Token(Policy));
      NoEmailAcrossBracket(Token(Policy), rest);
      NoEmailAcrossBracket(s[i..b], Token(Policy) + rest);
    } else {
      assert ReplaceFrom(Policy, s, i) == s[i..b];
    }
  }

  /** Joining two texts free of e-mail spans at a bracket creates none. */
  lemma NoEmailAcrossBracket(x: string, y: string)
    requires NoSpan(Email, x) && NoSpan(Email, y)
    requires (|x| > 0 && x[|x| - 1] == ']') || (|y| > 0 && y[0] == '[')
    ensures NoSpan(Email, x + y)
  {
    var z := x + y;
    forall a: nat, c: nat | a <= c <= |z| ensures !IsSpan(Email, z, a, c) {
      if c <= |x| {
        assert z[a..c] == x[a..c];
        assert !IsSpan(Email, x, a, c);
      } else if a >= |x| {
        assert z[a..c] == y[a - |x|..c - |x|];
        assert !IsSpan(Email, y, a - |x|, c - |x|);
      } else if |x| > 0 && x[|x| - 1] == ']' {
        assert z[|x| - 1] == ']';
        BracketNoSpan(Email, z, a, c, |x| - 1);
      } else {
        assert z[|x|] == '[';
        BracketNoSpan(Email, z, a, c, |x|);
      }
    }
  }

  /** No span holds a bracket. */
  lemma BracketNoSpan(p: Pattern, s: string, i: nat, j: nat, k: nat)
    requires i <= k < j <= |s| && IsBracket(s[k])
    ensures !IsSpan(p, s, i, j)
  {
    if IsSpan(p, s, i, j) {
      SpanChars(p, s, i, j);
    }
  }

  /** The e-mail pattern carries no `\b`, so a piece of a text free of
      e-mail spans is free of them too. */
  lemma NoEmailInSlice(s: string, i: nat, b: nat)
    requires i <= b <= |s| && NoSpan(Email, s)
    ensures NoSpan(Email, s[i..b])
  {
    var w := s[i..b];
    forall a: nat, c: nat | a <= c <= |w| ensures !IsSpan(Email, w, a, c) {
      assert forall u :: 0 <= u < c - a ==> w[a..c][u] == s[i + a..i + c][u];
      assert w[a..c] == s[i + a..i + c];
      assert !IsSpan(Email, s, i + a, i + c);
    }
  }

  /** The facts about `prefix + d` that the lemmas below use. */
  lemma PrefixedDigits(prefix: string, d: string, s: string)
    requires s == prefix + d
    requires forall k :: 0 <= k < |d| ==> IsAsciiDigit(d[k])
    ensures forall k :: 0 <= k < |prefix| ==> s[k] == prefix[k]
    ensures forall k :: |prefix| <= k < |s| ==> IsAsciiDigit(s[k])
  {
    assert forall k :: |prefix| <= k < |s| ==> s[k] == d[k - |prefix|];
  }

  /** Because the SSN substitution runs first, a policy number with nine
      digits loses its digits to the SSN token and never reaches the policy
      pattern. */
  lemma NinePolicyDigitsTakenAsSsn(d: string)
    requires |d| == 9 && forall k :: 0 <= k < |d| ==> IsAsciiDigit(d[k])
    ensures RedactSensitiveData(Some("POL-" + d)) == Some("POL-" + SSN_TOKEN)
  {
    var s := "POL-" + d;
    var y := "POL-" + SSN_TOKEN;
    NinePolicyDigitsSsnStage(d, s);
    assert forall k :: 0 <= k < |y| ==> !IsKeyChar(y[k]);
    NoKeyNoSpan(Email, y);
    NoKeyNoSpan(Policy, y);
    ReplaceAllUnchanged(Email, y);
    ReplaceAllUnchanged(Policy, y);
  }

  lemma NinePolicyDigitsSsnStage(d: string, s: string)
    requires |d| == 9 && forall k :: 0 <= k < |d| ==> IsAsciiDigit(d[k])
    requires s == "POL-" + d
    ensures ReplaceAll(Ssn, s) == "POL-" + SSN_TOKEN
  {
    PrefixedDigits("POL-", d, s);
    forall t | 0 <= t < 4 ensures Find(Ssn, s, t).None? {
      if Find(Ssn, s, t).Some? {
        SsnSpanFacts(s, t, Find(Ssn, s, t).value);
      }
    }
    assert Find(Ssn, s, 4) == Some(13);
    FirstMatchAt(Ssn, s, 0, 4);
    ReplaceFromSplit(Ssn, s, 0);
    assert s[0..4] == "POL-";
  }

  /** What a policy-id span looks like from the outside: it starts with `P`
      or `p`, the characters around it are not word characters, and it is
      `POL-` with 4 to 10 digits or `POLICY-` with 4 to 10 digits. */
  lemma PolicySpanFacts(s: string, i: nat, j: nat)
    requires IsSpan(Policy, s, i, j)
    ensures UpperChar(s[i]) == 'P'
    ensures i == 0 || !IsWordChar(s[i - 1])
    ensures j == |s| || !IsWordChar(s[j])
    ensures || (s[i + 3] == '-' && 8 <= j - i <= 14 && forall k :: i + 4 <= k < j ==> IsAsciiDigit(s[k]))
            || (UpperChar(s[i + 4]) == 'C' && s[i + 6] == '-' && 11 <= j - i <= 17 &&
                forall k :: i + 7 <= k < j ==> IsAsciiDigit(s[k]))
  {
    var w := s[i..j];
    assert forall k :: i <= k < j ==> s[k] == w[k - i];
    if LabelIs(w, "POL-") && 8 <= |w| <= 14 && InRange(w, 4, |w|, Digit) {
      assert UpperChar(w[0]) == ToUpper(w[..4])[0];
      assert w[3] == ToUpper(w[..4])[3];
    } else {
      assert UpperChar(w[0]) == ToUpper(w[..7])[0];
      assert UpperChar(w[4]) == ToUpper(w[..7])[4];
      assert UpperChar(w[6]) == ToUpper(w[..7])[6] == '-';
    }
  }

  /** `POL-` or `POLICY-` followed by a run of digits (other than nine, which
      the SSN pattern takes first) becomes the policy token when the run has
      4 to 10 digits and is left alone otherwise, e.g. with 11 or more. */
  lemma PolicyDigits(prefix: string, d: string)
    requires prefix == "POL-" || prefix == "POLICY-"
    requires |d| != 9 && forall k :: 0 <= k < |d| ==> IsAsciiDigit(d[k])
    ensures RedactSensitiveData(Some(prefix + d)) ==
      Some(if 4 <= |d| <= 10 then POLICY_TOKEN else prefix + d)
  {
    var s := prefix + d;
    PrefixedNoSsn(prefix, d);
    assert forall k :: 0 <= k < |s| ==> s[k] != '@' by {
      PrefixedDigits(prefix, d, s);
    }
    NoAtNoEmail(s);
    ReplaceAllUnchanged(Ssn, s);
    ReplaceAllUnchanged(Email, s);
    if 4 <= |d| <= 10 {
      PrefixedPolicy(prefix, d);
    } else {
      PrefixedNoPolicy(prefix, d);
      ReplaceAllUnchanged(Policy, s);
    }
  }

  lemma PrefixedNoSsn(prefix: string, d: string)
    requires prefix == "POL-" || prefix == "POLICY-"
    requires |d| != 9 && forall k :: 0 <= k < |d| ==> IsAsciiDigit(d[k])
    ensures NoSpan(Ssn, prefix + d)
  {
    var s := prefix + d;
    PrefixedDigits(prefix, d, s);
    forall i: nat, j: nat ensures !IsSpan(Ssn, s, i, j) {
      if IsSpan(Ssn, s, i, j) {
        SsnSpanFacts(s, i, j);
      }
    }
  }

  lemma PrefixedPolicy(prefix: string, d: string)
    requires prefix == "POL-" || prefix == "POLICY-"
    requires 4 <= |d| <= 10 && forall k :: 0 <= k < |d| ==> IsAsciiDigit(d[k])
    ensures ReplaceAll(Policy, prefix + d) == POLICY_TOKEN
  {
    var s := prefix + d;
    PrefixedPolicySpan(prefix, d);
    FirstMatchAt(Policy, s, 0, 0);
    ReplaceFromSplit(Policy, s, 0);
  }

  lemma PrefixedPolicySpan(prefix: string, d: string)
    requires prefix == "POL-" || prefix == "POLICY-"
    requires 4 <= |d| <= 10 && forall k :: 0 <= k < |d| ==> IsAsciiDigit(d[k])
    ensures IsSpan(Policy, prefix + d, 0, |prefix + d|)
  {
    var s := prefix + d;
    PrefixedDigits(prefix, d, s);
    assert s[..|prefix|] == prefix;
    assert ToUpper(prefix) == prefix;
    assert s[0..|s|] == s;
  }

  lemma PrefixedNoPolicy(prefix: string, d: string)
    requires prefix == "POL-" || prefix == "POLICY-"
    requires !(4 <= |d| <= 10) && forall k :: 0 <= k < |d| ==> IsAsciiDigit(d[k])
    ensures NoSpan(Policy, prefix + d)
  {
    var s := prefix + d;
    PrefixedDigits(prefix, d, s);
    forall i: nat, j: nat ensures !IsSpan(Policy, s, i, j) {
      if IsSpan(Policy, s, i, j) {
        PolicySpanFacts(s, i, j);
      }
    }
  }

  /** A run is determined by where its class first fails. */
  lemma RunEndIs(s: string, k: nat, e: nat, cls: CharClass)
    requires k <= e <= |s| && InRange(s, k, e, cls)
    requires e == |s| || !InClass(s[e], cls)
    ensures RunEnd(s, k, cls) == e
  {
  }

  /** The e-mail pattern in `a@b.cd123456789`: the domain run reaches the end
      of the text, backtracks to the only dot, and the top-level domain stops
      at the first digit. */
  lemma ExampleEmailMatch()
    ensures Find(Email, "a@b.cd123456789", 0) == Some(6)
  {
    ExampleEmailAt();
  }

  lemma ExampleEmailAt()
    ensures EmailAt("a@b.cd123456789", 0) == Some(6)
  {
    ExampleLocalRun();
    ExampleDomainRun();
    ExampleDot();
  }

  lemma ExampleLocalRun()
    ensures RunEnd("a@b.cd123456789", 0, LocalPart) == 1
  {
    RunEndIs("a@b.cd123456789", 0, 1, LocalPart);
  }

  lemma ExampleDomainRun()
    ensures RunEnd("a@b.cd123456789", 2, DomainPart) == 15
  {
    var s := "a@b.cd123456789";
    assert InRange(s, 2, 15, DomainPart);
    RunEndIs(s, 2, 15, DomainPart);
  }

  lemma ExampleDot()
    ensures TldDot("a@b.cd123456789", 3, 15) == Some(3)
  {
    var s := "a@b.cd123456789";
    RunEndIs(s, 4, 6, Letter);
    assert TldAt(s, 3);
    assert forall m :: 3 < m < 15 ==> s[m] != '.';
  }

  lemma ExampleSsnStage()
    ensures ReplaceAll(Ssn, "a@b.cd123456789") == "a@b.cd123456789"
  {
    var s := "a@b.cd123456789";
    forall t | 0 <= t < |s| ensures Find(Ssn, s, t).None? {
      if Find(Ssn, s, t).Some? {
        SsnSpanFacts(s, t, Find(Ssn, s, t).value);
      }
    }
    FirstMatchAt(Ssn, s, 0, |s|);
    CopiedTail(Ssn, s, 0);
  }

  lemma ExampleNoEmailAfter()
    ensures FirstMatch(Email, "a@b.cd123456789", 6) == 15
  {
    var s := "a@b.cd123456789";
    assert forall k :: 6 <= k < |s| ==> s[k] != '@';
    forall t | 6 <= t < |s| ensures Find(Email, s, t).None? {
      if Find(Email, s, t).Some? {
        EmailSpanHasAt(s, t, Find(Email, s, t).value);
      }
    }
    FirstMatchAt(Email, s, 6, |s|);
  }

  lemma ExampleEmailStage()
    ensures ReplaceAll(Email, "a@b.cd123456789") == "[REDACTED_EMAIL]123456789"
  {
    var s := "a@b.cd123456789";
    ExampleEmailMatch();
    ExampleNoEmailAfter();
    FirstMatchAt(Email, s, 0, 0);
    ReplaceFromSplit(Email, s, 0);
    CopiedTail(Email, s, 6);
    assert s[6..] == "123456789";
    EmailTokenThenDigits();
  }

  lemma EmailTokenThenDigits()
    ensures EMAIL_TOKEN + "123456789" == "[REDACTED_EMAIL]123456789"
  {
  }

  lemma ExamplePolicyStage()
    ensures ReplaceAll(Policy, "[REDACTED_EMAIL]123456789") == "[REDACTED_EMAIL]123456789"
  {
    var x := "[REDACTED_EMAIL]123456789";
    assert forall k :: 0 <= k < |x| ==> UpperChar(x[k]) != 'P';
    forall i: nat, j: nat ensures !IsSpan(Policy, x, i, j) {
      if IsSpan(Policy, x, i, j) {
        PolicySpanFacts(x, i, j);
      }
    }
    ReplaceAllUnchanged(Policy, x);
  }

  /** The three substitutions do not leave a text free of all three patterns:
      the e-mail substitution can place its token right before a run of nine
      digits that the SSN substitution, which already ran, did not match
      because a letter preceded it. */
  lemma RedactionCanLeaveSsn()
    ensures RedactSensitiveData(Some("a@b.cd123456789")) == Some("[REDACTED_EMAIL]123456789")
    ensures IsSpan(Ssn, "[REDACTED_EMAIL]123456789", 16, 25)
  {
    ExampleSsnStage();
    ExampleEmailStage();
    ExamplePolicyStage();
    ExampleResidual();
  }

  lemma ExampleResidual()
    ensures IsSpan(Ssn, "[REDACTED_EMAIL]123456789", 16, 25)
  {
    var x := "[REDACTED_EMAIL]123456789";
    assert Find(Ssn, x, 16) == Some(25);
  }
}

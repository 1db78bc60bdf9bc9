/** The validation and sanitisation helpers of the application's security library:
    input sanitising, e-mail and password rules, password feedback, the redirect
    allow rule and the 32-bit string hash. */
module Security {
  import opened JsText

  // ---------------------------------------------------------------------------
  // sanitizeInput
  // ---------------------------------------------------------------------------

  /** The characters of the class `[<>"']`. */
  const UnsafeChars: set<char> := {'<', '>', '"', '\''}

  /** The literal pattern `/javascript:/gi`. */
  const ScriptScheme: string := "javascript:"

  /** Length of the longest prefix of `s` made of word characters (`\w+` is greedy). */
  function WordRun(s: string): (n: nat)
    ensures n <= |s|
    ensures forall i :: 0 <= i < n ==> IsWordChar(s[i])
    ensures n == |s| || !IsWordChar(s[n])
  {
    if s == [] || !IsWordChar(s[0]) then 0 else 1 + WordRun(s[1..])
  }

  /** The language of `/on\w+\s*=/i`: `s[..n]` is `on` in either case, one or more
      word characters, any white space, and `=`. */
  ghost predicate IsHandlerMatch(s: string, n: int) {
    4 <= n <= |s| && LowerChar(s[0]) == 'o' && LowerChar(s[1]) == 'n' && s[n - 1] == '='
    && exists w :: HandlerSplit(s, n, w)
  }

  /** The word characters of the match are `s[2..2 + w]`. */
  ghost predicate HandlerSplit(s: string, n: int, w: int) {
    4 <= n <= |s| && 1 <= w <= n - 3
    && (forall i :: 2 <= i < 2 + w ==> IsWordChar(s[i]))
    && (forall i :: 2 + w <= i < n - 1 ==> IsSpace(s[i]))
  }

  /** Length of the match of `/on\w+\s*=/i` at the start of `s`, or 0 when there
      is none. Word characters, white space and `=` are disjoint classes, so the
      greedy runs never need to give characters back; `\s*` is the run of leading
      white space. */
  function HandlerMatchLength(s: string): (n: nat)
    ensures n <= |s|
  {
    if |s| < 2 || LowerChar(s[0]) != 'o' || LowerChar(s[1]) != 'n' then 0
    else
      var w := WordRun(s[2..]);
      var sp := LeadingSpaces(s[2 + w..]);
      if w > 0 && 2 + w + sp < |s| && s[2 + w + sp] == '=' then 3 + w + sp else 0
  }

  /** A match at the start of `s` exists exactly when `HandlerMatchLength` is
      positive, and it is unique: the pattern matches no other prefix. */
  lemma HandlerMatchIsUnique(s: string, n: int)
    ensures IsHandlerMatch(s, n) <==> 0 < n == HandlerMatchLength(s)
  {
    if 0 < n == HandlerMatchLength(s) {
      HandlerMatchFound(s);
    }
    if IsHandlerMatch(s, n) {
      HandlerMatchMeasured(s, n);
    }
  }

  lemma HandlerMatchFound(s: string)
    requires HandlerMatchLength(s) > 0
    ensures IsHandlerMatch(s, HandlerMatchLength(s))
  {
    var n := HandlerMatchLength(s);
    var t := s[2..];
    var w := WordRun(t);
    var u := s[2 + w..];
    var sp := LeadingSpaces(u);
    assert n == 3 + w + sp;
    forall i | 2 <= i < 2 + w ensures IsWordChar(s[i]) {
      assert s[i] == t[i - 2];
    }
    forall i | 2 + w <= i < n - 1 ensures IsSpace(s[i]) {
      assert s[i] == u[i - 2 - w];
    }
    assert HandlerSplit(s, n, w);
  }

  lemma HandlerMatchMeasured(s: string, n: int)
    requires IsHandlerMatch(s, n)
    ensures n == HandlerMatchLength(s)
  {
    var w :| HandlerSplit(s, n, w);
    var t := s[2..];
    forall i | 0 <= i < w ensures IsWordChar(t[i]) {
      assert t[i] == s[i + 2];
    }
    assert t[w] == s[2 + w];
    assert !IsWordChar(t[w]);
    assert WordRun(t) == w;
    var u := s[2 + w..];
    forall i | 0 <= i < n - 3 - w ensures IsSpace(u[i]) {
      assert u[i] == s[i + 2 + w];
    }
    assert u[n - 3 - w] == s[n - 1] == '=';
    assert LeadingSpaces(u) == n - 3 - w;
  }

  /** No `o` in either case occurs in `s`. */
  predicate NoLetterO(s: string) {
    'o' !in s && 'O' !in s
  }

  /** With no `o` in either case there is no handler pattern to remove. */
  lemma {:induction false} RemoveEventHandlersUnchanged(s: string)
    requires NoLetterO(s)
    ensures RemoveEventHandlers(s) == s
    decreases |s|
  {
    if s != [] {
      assert s[0] in s && (forall c :: c in s[1..] ==> c in s);
      RemoveEventHandlersUnchanged(s[1..]);
      assert [s[0]] + s[1..] == s;
    }
  }

  /** `s.replace(/on\w+\s*=/gi, "")`. */
  function RemoveEventHandlers(s: string): (r: string)
    ensures |r| <= |s|
    decreases |s|
  {
    if s == [] then []
    else
      var n := HandlerMatchLength(s);
      if n > 0 then RemoveEventHandlers(s[n..]) else [s[0]] + RemoveEventHandlers(s[1..])
  }

  /** The removal adds no character. */
  lemma {:induction false} RemoveEventHandlersMembers(s: string)
    ensures forall c :: c in RemoveEventHandlers(s) ==> c in s
    decreases |s|
  {
    if s != [] {
      var n := HandlerMatchLength(s);
      assert forall c :: c in s[1..] ==> c in s;
      if n > 0 {
        assert forall c :: c in s[n..] ==> c in s;
        RemoveEventHandlersMembers(s[n..]);
      } else {
        RemoveEventHandlersMembers(s[1..]);
      }
    }
  }

  /** `sanitizeInput`: anything but a string becomes the empty string; a string is
      trimmed, then loses its quote and angle-bracket characters, then every
      `javascript:` and then every inline event-handler prefix such as `onclick=`. */
  function SanitizeInput(input: JsValue): (r: string)
    ensures !input.Str? ==> r == ""
    ensures input.Str? ==> |r| <= |input.s|
    ensures forall c :: c in r ==> c !in UnsafeChars && input.Str? && c in input.s
  {
    if !input.Str? then ""
    else
      var trimmed := Trim(input.s);
      var kept := RemoveChars(trimmed, UnsafeChars);
      var unschemed := RemoveAllIgnoringCase(kept, ScriptScheme);
      TrimSpec(input.s);
      RemoveCharsMembers(trimmed, UnsafeChars);
      RemoveEventHandlersMembers(unschemed);
      RemoveEventHandlers(unschemed)
  }

  /** `SanitizeInput` of a string, one stage at a time. */
  lemma SanitizeStages(s: string, trimmed: string, kept: string, unschemed: string, r: string)
    requires Trim(s) == trimmed && RemoveChars(trimmed, UnsafeChars) == kept
    requires RemoveAllIgnoringCase(kept, ScriptScheme) == unschemed
    requires RemoveEventHandlers(unschemed) == r
    ensures SanitizeInput(Str(s)) == r
  {
  }

  /** One pass of `javascript:` removal can assemble a new `javascript:`, so the
      output of `SanitizeInput` may still contain it, and sanitising twice differs
      from sanitising once. */
  lemma SanitizeCanLeaveScriptScheme(s: string, t: string)
    requires s == "javjavascript:ascript:" && t == ScriptScheme
    ensures SanitizeInput(Str(s)) == t && IsSubstring(ScriptScheme, t)
    ensures SanitizeInput(Str(t)) == ""
  {
    NestedTrimmed(s);
    NestedCharsKept(s);
    NestedSchemeReassembles(s, t);
    SchemeNoHandler(t);
    SanitizeStages(s, s, s, t, t);
    SchemeTrimmed(t);
    SchemeCharsKept(t);
    SchemeRemoved(t);
    RemoveEventHandlersUnchanged([]);
    SanitizeStages(t, t, t, [], []);
    assert OccursAt(ScriptScheme, t, 0);
  }

  lemma NestedTrimmed(s: string)
    requires s == "javjavascript:ascript:"
    ensures Trim(s) == s
  {
    TrimUnchanged(s);
  }

  lemma NestedCharsKept(s: string)
    requires s == "javjavascript:ascript:"
    ensures RemoveChars(s, UnsafeChars) == s
  {
    RemoveCharsUnchanged(s, UnsafeChars);
  }

  lemma SchemeTrimmed(pat: string)
    requires pat == ScriptScheme
    ensures Trim(pat) == pat
  {
    TrimUnchanged(pat);
  }

  lemma SchemeCharsKept(pat: string)
    requires pat == ScriptScheme
    ensures RemoveChars(pat, UnsafeChars) == pat
  {
    RemoveCharsUnchanged(pat, UnsafeChars);
  }

  lemma SchemeNoHandler(pat: string)
    requires pat == ScriptScheme
    ensures RemoveEventHandlers(pat) == pat
  {
    RemoveEventHandlersUnchanged(pat);
  }

  /** Removing the inner `javascript:` of `jav` + `javascript:` + `ascript:`
      leaves `javascript:`. */
  lemma NestedSchemeReassembles(s: string, pat: string)
    requires s == "javjavascript:ascript:" && pat == ScriptScheme
    ensures RemoveAllIgnoringCase(s, pat) == pat
  {
    var tail := "ascript:";
    SchemeThenTail(pat, tail);
    var s2 := ['v'] + (pat + tail);
    RemoveAllSkipsAt('v', pat + tail, pat, 0);
    var s1 := ['a'] + s2;
    RemoveAllSkipsAt('a', s2, pat, 0);
    RemoveAllSkipsAt('j', s1, pat, 3);
    NestedSplit(s, pat, tail);
  }

  lemma NestedSplit(s: string, pat: string, tail: string)
    requires s == "javjavascript:ascript:" && pat == ScriptScheme && tail == "ascript:"
    ensures s == ['j'] + (['a'] + (['v'] + (pat + tail)))
    ensures ['j'] + (['a'] + (['v'] + tail)) == pat
  {
  }

  /** Where the pattern differs at position `k`, the first character is kept and
      the scan moves on. */
  lemma RemoveAllSkipsAt(c: char, s: string, pat: string, k: int)
    requires 0 <= k < |pat| <= |s| + 1 && LowerChar(([c] + s)[k]) != LowerChar(pat[k])
    ensures RemoveAllIgnoringCase([c] + s, pat) == [c] + RemoveAllIgnoringCase(s, pat)
  {
    assert !StartsWithIgnoringCase([c] + s, pat);
    assert ([c] + s)[1..] == s;
  }

  lemma SchemeThenTail(pat: string, tail: string)
    requires pat == ScriptScheme && tail == "ascript:"
    ensures RemoveAllIgnoringCase(pat + tail, pat) == tail
  {
    assert StartsWithIgnoringCase(pat + tail, pat);
    assert (pat + tail)[|pat|..] == tail;
  }

  lemma SchemeRemoved(pat: string)
    requires pat == ScriptScheme
    ensures RemoveAllIgnoringCase(pat, pat) == ""
  {
    assert StartsWithIgnoringCase(pat, pat);
    assert pat[|pat|..] == "";
  }

  /** Trimming comes before the quote characters are removed, so the output can
      end with white space, which a second pass trims. */
  lemma SanitizeCanLeaveOuterSpace(s: string, t: string, u: string)
    requires s == "a <" && t == "a " && u == "a"
    ensures SanitizeInput(Str(s)) == t
    ensures SanitizeInput(Str(t)) == u != t
  {
    TrimUnchanged(s);
    OuterCharsRemoved(s, t);
    ShortUnchanged(t);
    SanitizeStages(s, s, t, t, t);
    OuterSpaceTrimmed(t, u);
    ShortUnchanged(u);
    SanitizeStages(t, u, u, u, u);
  }

  lemma OuterCharsRemoved(s: string, t: string)
    requires s == "a <" && t == "a "
    ensures RemoveChars(s, UnsafeChars) == t
  {
    RemoveCharsStep('<', [], UnsafeChars);
    RemoveCharsStep(' ', "<", UnsafeChars);
    RemoveCharsStep('a', " <", UnsafeChars);
    assert s == ['a'] + " <";
  }

  lemma OuterSpaceTrimmed(t: string, u: string)
    requires t == "a " && u == "a"
    ensures Trim(t) == u
  {
    assert LeadingSpaces(t) == 0;
    assert TrailingSpaces(t) == 1;
  }

  /** A short string without quotes, angle brackets or an `o` passes the last
      three stages unchanged. */
  lemma ShortUnchanged(t: string)
    requires |t| < |ScriptScheme| && NoLetterO(t) && forall c :: c in t ==> c !in UnsafeChars
    ensures RemoveChars(t, UnsafeChars) == t
    ensures RemoveAllIgnoringCase(t, ScriptScheme) == t
    ensures RemoveEventHandlers(t) == t
  {
    RemoveCharsUnchanged(t, UnsafeChars);
    RemoveEventHandlersUnchanged(t);
  }

  // ---------------------------------------------------------------------------
  // isValidEmail
  // ---------------------------------------------------------------------------

  /** The maximum length of an accepted address. */
  const MaxEmailLength := 254

  /** No character of `s` is white space or `@` (the class `[^\s@]`). */
  predicate NoSpaceOrAt(s: string) {
    forall k | 0 <= k < |s| :: !IsSpace(s[k]) && s[k] != '@'
  }

  /** `e` splits at the `@` at index `i` and the `.` at index `j` into three
      non-empty runs of the class `[^\s@]`. */
  predicate EmailSplit(e: string, i: int, j: int) {
    0 < i && i + 1 < j < |e| - 1 && e[i] == '@' && e[j] == '.'
    && NoSpaceOrAt(e[..i]) && NoSpaceOrAt(e[i + 1..j]) && NoSpaceOrAt(e[j + 1..])
  }

  /** The language of `/^[^\s@]+@[^\s@]+\.[^\s@]+$/`. */
  function MatchesEmailPattern(e: string): (r: bool)
    ensures r ==> 5 <= |e| && e[0] != '@' && !IsSpace(e[0]) && e[|e| - 1] != '@' && !IsSpace(e[|e| - 1])
  {
    exists i, j | 0 < i < |e| && 0 < j < |e| :: EmailSplit(e, i, j)
  }

  /** `isValidEmail`: the address pattern and at most 254 characters. */
  function IsValidEmail(email: string): (r: bool)
    ensures r ==> 5 <= |email| <= MaxEmailLength && email[0] != '@' && email[|email| - 1] != '@'
  {
    MatchesEmailPattern(email) && |email| <= MaxEmailLength
  }

  /** `d` has a `.` with at least one character before it and one after it. */
  predicate HasInnerDot(d: string) {
    exists j | 0 < j < |d| - 1 :: d[j] == '.'
  }

  lemma {:induction false} CountOne(s: string, c: char, i: int)
    requires 0 <= i < |s| && s[i] == c && Count(s, c) == 1
    ensures forall k :: 0 <= k < |s| && k != i ==> s[k] != c
  {
    assert s == s[..i] + [s[i]] + s[i + 1..];
    CountConcat(s[..i] + [s[i]], s[i + 1..], c);
    CountConcat(s[..i], [s[i]], c);
    CountZero(s[..i], c);
    CountZero(s[i + 1..], c);
    forall k | 0 <= k < |s| && k != i ensures s[k] != c {
      if k < i { assert s[k] == s[..i][k]; } else { assert s[k] == s[i + 1..][k - i - 1]; }
    }
  }

  /** The conditions that, with the length cap, make an address valid. */
  predicate EmailShape(e: string) {
    Count(e, '@') == 1
    && (forall k :: 0 <= k < |e| ==> !IsSpace(e[k]))
    && exists i :: 0 < i < |e| && e[i] == '@' && HasInnerDot(e[i + 1..])
  }

  /** An address is valid exactly when it has at most 254 characters, exactly one
      `@`, no white space, a non-empty part before the `@`, and after the `@` a
      `.` with at least one character on each side. */
  lemma EmailCharacterization(e: string)
    ensures IsValidEmail(e) <==> |e| <= MaxEmailLength && EmailShape(e)
  {
    if MatchesEmailPattern(e) {
      PatternGivesShape(e);
    }
    if EmailShape(e) {
      ShapeGivesPattern(e);
    }
  }

  lemma PatternGivesShape(e: string)
    requires MatchesEmailPattern(e)
    ensures EmailShape(e)
  {
    var i, j :| 0 < i < |e| && 0 < j < |e| && EmailSplit(e, i, j);
    var a, b, c := e[..i], e[i + 1..j], e[j + 1..];
    assert e == a + [e[i]] + b + [e[j]] + c;
    forall k | 0 <= k < |e| ensures !IsSpace(e[k]) {
      if k < i { assert e[k] == a[k]; }
      else if i < k < j { assert e[k] == b[k - i - 1]; }
      else if j < k { assert e[k] == c[k - j - 1]; }
    }
    CountZero(a, '@');
    CountZero(b, '@');
    CountZero(c, '@');
    CountConcat(a + [e[i]] + b + [e[j]], c, '@');
    CountConcat(a + [e[i]] + b, [e[j]], '@');
    CountConcat(a + [e[i]], b, '@');
    CountConcat(a, [e[i]], '@');
    var d := e[i + 1..];
    assert d[j - i - 1] == '.';
    assert HasInnerDot(d);
  }

  lemma ShapeGivesPattern(e: string)
    requires EmailShape(e)
    ensures MatchesEmailPattern(e)
  {
    var i :| 0 < i < |e| && e[i] == '@' && HasInnerDot(e[i + 1..]);
    var d := e[i + 1..];
    var j' :| 0 < j' < |d| - 1 && d[j'] == '.';
    var j := i + 1 + j';
    CountOne(e, '@', i);
    var a, b, c := e[..i], e[i + 1..j], e[j + 1..];
    forall k | 0 <= k < |a| ensures !IsSpace(a[k]) && a[k] != '@' {
      assert a[k] == e[k];
    }
    forall k | 0 <= k < |b| ensures !IsSpace(b[k]) && b[k] != '@' {
      assert b[k] == e[i + 1 + k];
    }
    forall k | 0 <= k < |c| ensures !IsSpace(c[k]) && c[k] != '@' {
      assert c[k] == e[j + 1 + k];
    }
    assert EmailSplit(e, i, j);
  }

  /** Addresses longer than 254 characters are refused whatever their form. */
  lemma LongEmailRejected(e: string)
    requires |e| > MaxEmailLength
    ensures !IsValidEmail(e)
  {
  }

  // ---------------------------------------------------------------------------
  // isStrongPassword
  // ---------------------------------------------------------------------------

  /** The special characters of the class `[@$!%*?&]`. */
  const SpecialChars: string := "@$!%*?&"

  datatype CharClass = LowerLetter | UpperLetter | DecimalDigit | SpecialChar

  predicate InClass(c: char, k: CharClass) {
    match k
    case LowerLetter => IsLower(c)
    case UpperLetter => IsUpper(c)
    case DecimalDigit => IsDigit(c)
    case SpecialChar => c in SpecialChars
  }

  /** The class `[A-Za-z\d@$!%*?&]`. */
  predicate IsPasswordChar(c: char) {
    IsLower(c) || IsUpper(c) || IsDigit(c) || c in SpecialChars
  }

  /** The lookahead `(?=.*[class])` at the start of `p`: a character of the class
      occurs before the first line terminator. */
  predicate LookaheadFinds(p: string, k: CharClass) {
    exists i | 0 <= i < |p| :: InClass(p[i], k) && forall j | 0 <= j < i :: !IsLineTerminator(p[j])
  }

  /** `isStrongPassword`: the language of
      `/^(?=.*[a-z])(?=.*[A-Z])(?=.*\d)(?=.*[@$!%*?&])[A-Za-z\d@$!%*?&]{8,}$/`. */
  function IsStrongPassword(p: string): (r: bool)
    ensures r ==> |p| >= 8 && Contains(p, LowerLetter) && Contains(p, UpperLetter)
                  && Contains(p, DecimalDigit) && Contains(p, SpecialChar)
  {
    LookaheadFinds(p, LowerLetter) && LookaheadFinds(p, UpperLetter)
    && LookaheadFinds(p, DecimalDigit) && LookaheadFinds(p, SpecialChar)
    && |p| >= 8 && forall i | 0 <= i < |p| :: IsPasswordChar(p[i])
  }

  /** `/[class]/.test(p)`: some character of `p` is in the class. */
  predicate Contains(p: string, k: CharClass) {
    exists i | 0 <= i < |p| :: InClass(p[i], k)
  }

  /** A password is strong exactly when it has at least 8 characters, all from
      `[A-Za-z0-9@$!%*?&]`, among them a lower-case letter, an upper-case letter,
      a digit and one of `@$!%*?&`. */
  lemma StrongPasswordCharacterization(p: string)
    ensures IsStrongPassword(p) <==>
      |p| >= 8 && (forall i :: 0 <= i < |p| ==> IsPasswordChar(p[i]))
      && Contains(p, LowerLetter) && Contains(p, UpperLetter)
      && Contains(p, DecimalDigit) && Contains(p, SpecialChar)
  {
    if |p| >= 8 && (forall i :: 0 <= i < |p| ==> IsPasswordChar(p[i])) {
      forall k ensures Contains(p, k) ==> LookaheadFinds(p, k) {
        if Contains(p, k) {
          var i :| 0 <= i < |p| && InClass(p[i], k);
          assert forall j | 0 <= j < i :: !IsLineTerminator(p[j]) by {
            forall j | 0 <= j < i ensures !IsLineTerminator(p[j]) { assert IsPasswordChar(p[j]); }
          }
        }
      }
    }
  }

  /** Any character outside the alphabet, such as `#` or a space, makes a password weak. */
  lemma OutsideAlphabetIsWeak(p: string, i: int)
    requires 0 <= i < |p| && !IsPasswordChar(p[i])
    ensures !IsStrongPassword(p)
  {
  }

  // ---------------------------------------------------------------------------
  // getPasswordStrengthFeedback
  // ---------------------------------------------------------------------------

  datatype Requirement = MinLength | NeedsUppercase | NeedsLowercase | NeedsNumber | NeedsSpecial

  /** The rules in the order their messages are listed. */
  const Requirements: seq<Requirement> := [MinLength, NeedsUppercase, NeedsLowercase, NeedsNumber, NeedsSpecial]

  predicate Meets(p: string, r: Requirement) {
    match r
    case MinLength => |p| >= 8
    case NeedsUppercase => Contains(p, UpperLetter)
    case NeedsLowercase => Contains(p, LowerLetter)
    case NeedsNumber => Contains(p, DecimalDigit)
    case NeedsSpecial => Contains(p, SpecialChar)
  }

  function RequirementMessage(r: Requirement): string {
    match r
    case MinLength => "At least 8 characters"
    case NeedsUppercase => "One uppercase letter"
    case NeedsLowercase => "One lowercase letter"
    case NeedsNumber => "One number"
    case NeedsSpecial => "One special character (@$!%*?&)"
  }

  /** The message of `r` if `p` fails it, else nothing. */
  function MessageIfUnmet(p: string, r: Requirement): seq<string> {
    if Meets(p, r) then [] else [RequirementMessage(r)]
  }

  /** The messages of the rules of `rs` that `p` fails, in the order of `rs`. */
  function Unmet(p: string, rs: seq<Requirement>): seq<string> {
    if rs == [] then [] else MessageIfUnmet(p, rs[0]) + Unmet(p, rs[1..])
  }

  /** The feedback list: the messages of the failed rules, in table order. */
  function Feedback(p: string): seq<string> {
    Unmet(p, Requirements)
  }

  /** `getPasswordStrengthFeedback`. */
  method GetPasswordStrengthFeedback(password: string) returns (feedback: seq<string>)
    ensures feedback == Feedback(password)
  {
    feedback := [];
    if |password| < 8 {
      feedback := feedback + [RequirementMessage(MinLength)];
    }
    if !Contains(password, UpperLetter) {
      feedback := feedback + [RequirementMessage(NeedsUppercase)];
    }
    if !Contains(password, LowerLetter) {
      feedback := feedback + [RequirementMessage(NeedsLowercase)];
    }
    if !Contains(password, DecimalDigit) {
      feedback := feedback + [RequirementMessage(NeedsNumber)];
    }
    if !Contains(password, SpecialChar) {
      feedback := feedback + [RequirementMessage(NeedsSpecial)];
    }
    FeedbackUnfolded(password);
  }

  lemma FeedbackUnfolded(p: string)
    ensures Feedback(p) == MessageIfUnmet(p, MinLength) + MessageIfUnmet(p, NeedsUppercase)
      + MessageIfUnmet(p, NeedsLowercase) + MessageIfUnmet(p, NeedsNumber) + MessageIfUnmet(p, NeedsSpecial)
  {
    var r1 := [NeedsSpecial];
    var r2 := [NeedsNumber] + r1;
    var r3 := [NeedsLowercase] + r2;
    var r4 := [NeedsUppercase] + r3;
    var r5 := [MinLength] + r4;
    assert r1[1..] == [] && r2[1..] == r1 && r3[1..] == r2 && r4[1..] == r3 && r5[1..] == r4;
    assert Unmet(p, r1) == MessageIfUnmet(p, NeedsSpecial);
    assert Unmet(p, r2) == MessageIfUnmet(p, NeedsNumber) + Unmet(p, r1);
    assert Unmet(p, r3) == MessageIfUnmet(p, NeedsLowercase) + Unmet(p, r2);
    assert Unmet(p, r4) == MessageIfUnmet(p, NeedsUppercase) + Unmet(p, r3);
    assert Unmet(p, r5) == MessageIfUnmet(p, MinLength) + Unmet(p, r4);
    assert r5 == Requirements;
  }

  lemma {:induction false} UnmetLists(p: string, rs: seq<Requirement>)
    ensures |Unmet(p, rs)| <= |rs|
    ensures forall r :: RequirementMessage(r) in Unmet(p, rs) <==> r in rs && !Meets(p, r)
  {
    if rs != [] {
      UnmetLists(p, rs[1..]);
      assert forall r :: r in rs <==> r == rs[0] || r in rs[1..];
    }
  }

  /** The feedback holds each rule's message exactly when the rule fails, and at
      most five messages. */
  lemma FeedbackListsFailedRules(p: string)
    ensures |Feedback(p)| <= 5
    ensures forall r :: RequirementMessage(r) in Feedback(p) <==> !Meets(p, r)
    ensures Feedback(p) == [] <==> forall r :: Meets(p, r)
  {
    UnmetLists(p, Requirements);
    forall r ensures r in Requirements { }
    if Feedback(p) != [] {
      var m := Feedback(p)[0];
      assert exists r :: m == RequirementMessage(r) && !Meets(p, r) by {
        UnmetHead(p, Requirements);
      }
    }
  }

  lemma {:induction false} UnmetHead(p: string, rs: seq<Requirement>)
    requires Unmet(p, rs) != []
    ensures exists r :: Unmet(p, rs)[0] == RequirementMessage(r) && r in rs && !Meets(p, r)
  {
    if Meets(p, rs[0]) {
      UnmetHead(p, rs[1..]);
    }
  }

  /** A strong password gets no feedback. */
  lemma StrongPasswordHasNoFeedback(p: string)
    requires IsStrongPassword(p)
    ensures Feedback(p) == []
  {
    StrongPasswordCharacterization(p);
    FeedbackListsFailedRules(p);
  }

  /** The converse fails: the feedback does not check the alphabet. */
  lemma NoFeedbackDoesNotMeanStrong()
    ensures Feedback("Abcdef1!#") == [] && !IsStrongPassword("Abcdef1!#")
  {
    var p := "Abcdef1!#";
    assert InClass(p[0], UpperLetter) && InClass(p[1], LowerLetter);
    assert InClass(p[6], DecimalDigit) && InClass(p[7], SpecialChar);
    assert !IsPasswordChar(p[8]);
  }

  // ---------------------------------------------------------------------------
  // isSafeRedirectUrl
  // ---------------------------------------------------------------------------

  const DangerousPaths: seq<string> := ["/api/", "/admin/", "/system/"]

  /** The redirect rule: a non-empty path starting with `/` that contains none of
      the dangerous path fragments. */
  ghost predicate AllowedRedirect(url: string) {
    url != [] && url[0] == '/' && forall d :: d in DangerousPaths ==> !IsSubstring(d, url)
  }

  /** `isSafeRedirectUrl` on a string argument. */
  method IsSafeRedirectUrl(url: string) returns (safe: bool)
    ensures safe <==> AllowedRedirect(url)
  {
    if url == "" {
      return false;
    }
    if !StartsWith(url, "/") {
      return false;
    }
    for k := 0 to |DangerousPaths|
      invariant forall m :: 0 <= m < k ==> !IsSubstring(DangerousPaths[m], url)
    {
      if Includes(url, DangerousPaths[k]) {
        return false;
      }
    }
    return true;
  }

  // ---------------------------------------------------------------------------
  // simpleHash
  // ---------------------------------------------------------------------------

  const TwoTo31: int := 0x8000_0000
  const TwoTo32: int := 0x1_0000_0000

  /** ECMAScript ToInt32 of an integral number: the value modulo 2^32, read as a
      two's-complement 32-bit integer. */
  function ToInt32(x: int): (r: int)
    ensures -TwoTo31 <= r < TwoTo31
  {
    var m := x % TwoTo32;
    if m >= TwoTo31 then m - TwoTo32 else m
  }

  /** ToInt32 depends only on the residue modulo 2^32. */
  lemma ToInt32Periodic(x: int, k: int)
    ensures ToInt32(x + k * TwoTo32) == ToInt32(x)
  {
    assert (x + k * TwoTo32) % TwoTo32 == x % TwoTo32;
  }

  /** The number of times ToInt32 subtracts 2^32 from `x`. */
  lemma ToInt32Wraps(x: int) returns (k: int)
    ensures ToInt32(x) == x - k * TwoTo32
  {
    k := x / TwoTo32;
    if x % TwoTo32 >= TwoTo31 {
      k := k + 1;
    }
  }

  /** One loop step of `simpleHash`, `(h << 5) - h + code` followed by `& itself`,
      is `ToInt32(31 * h + code)`. */
  lemma ShiftStep(h: int, code: int)
    ensures ToInt32(ToInt32(ToInt32(h) * 32) - h + code) == ToInt32(31 * h + code)
  {
    var k1 := ToInt32Wraps(h);
    var k2 := ToInt32Wraps(ToInt32(h) * 32);
    assert ToInt32(ToInt32(h) * 32) - h + code == 31 * h + code + (-(32 * k1 + k2)) * TwoTo32;
    ToInt32Periodic(31 * h + code, -(32 * k1 + k2));
  }

  /** The hash of `s`: `h := ToInt32(31 * h + code)` over the characters, from 0. */
  function HashValue(s: string): int
    decreases |s|
  {
    if s == [] then 0 else ToInt32(31 * HashValue(s[..|s| - 1]) + s[|s| - 1] as int)
  }

  /** The same recurrence over unbounded integers: sum of code(s[i]) * 31^(n-1-i). */
  function Polynomial(s: string): int
    decreases |s|
  {
    if s == [] then 0 else 31 * Polynomial(s[..|s| - 1]) + s[|s| - 1] as int
  }

  /** Wrapping at every step gives what wrapping once at the end gives, and the
      hash is a 32-bit signed integer. */
  lemma {:induction false} HashIsWrappedPolynomial(s: string)
    ensures HashValue(s) == ToInt32(Polynomial(s))
    ensures -TwoTo31 <= HashValue(s) < TwoTo31
    decreases |s|
  {
    if s != [] {
      var p := s[..|s| - 1];
      HashIsWrappedPolynomial(p);
      var P := Polynomial(p);
      var k := ToInt32Wraps(P);
      ToInt32Periodic(31 * P + s[|s| - 1] as int, -31 * k);
    }
  }

  /** `simpleHash`: the decimal text of the hash. */
  method SimpleHash(str: string) returns (r: string)
    ensures r == IntToString(HashValue(str))
  {
    var hash := 0;
    for i := 0 to |str|
      invariant hash == HashValue(str[..i])
    {
      var code := str[i] as int;
      ShiftStep(hash, code);
      // (hash << 5) - hash + char
      hash := ToInt32(ToInt32(hash) * 32) - hash + code;
      // hash & hash
      hash := ToInt32(hash);
      assert str[..i + 1][..i] == str[..i];
    }
    assert str[..|str|] == str;
    r := IntToString(hash);
  }

  /** The hash of the empty string is "0". */
  lemma EmptyStringHash()
    ensures HashValue("") == 0 && IntToString(HashValue("")) == "0"
  {
  }
}

/** String primitives of JavaScript as the application uses them.

    A JavaScript string is a sequence of UTF-16 code units; here it is a `string`
    whose characters each stand for one code unit (exact for text inside the Basic
    Multilingual Plane). */
module JsText {

  datatype Option<T> = None | Some(value: T)

  /** A JavaScript value as far as the application inspects it: `undefined`, a
      string, or any other value, described by its truthiness and by the text
      that `String(value)` gives for it. */
  datatype JsValue = Undefined | Str(s: string) | Other(truthy: bool, text: string)

  /** The value is truthy (`!value` is false). */
  predicate Truthy(v: JsValue) {
    match v
    case Undefined => false
    case Str(s) => s != ""
    case Other(truthy, _) => truthy
  }

  /** `String(value)`: the conversion `RegExp.prototype.test` applies to its argument. */
  function ToJsString(v: JsValue): string {
    match v
    case Undefined => "undefined"
    case Str(s) => s
    case Other(_, text) => text
  }

  /** The WhiteSpace and LineTerminator code points of ECMAScript: the regular
      expression class `\s`, and what `String.prototype.trim` removes. */
  predicate IsSpace(c: char) {
    var n := c as int;
    (9 <= n <= 13) || n == 0x20 || n == 0xA0 || n == 0x1680 || (0x2000 <= n <= 0x200A)
    || n == 0x2028 || n == 0x2029 || n == 0x202F || n == 0x205F || n == 0x3000 || n == 0xFEFF
  }

  /** The characters the regular expression `.` does not match. */
  predicate IsLineTerminator(c: char) {
    c == '\n' || c == '\r' || c as int == 0x2028 || c as int == 0x2029
  }

  predicate IsDigit(c: char) { '0' <= c <= '9' }
  predicate IsLower(c: char) { 'a' <= c <= 'z' }
  predicate IsUpper(c: char) { 'A' <= c <= 'Z' }

  /** The regular expression class `\w` (without the `u` flag). */
  predicate IsWordChar(c: char) { IsLower(c) || IsUpper(c) || IsDigit(c) || c == '_' }

  /** Lower-casing of one character, restricted to ASCII letters. */
  function LowerChar(c: char): (r: char)
    ensures IsUpper(c) ==> IsLower(r) && r as int == c as int + 32
    ensures !IsUpper(c) ==> r == c
    ensures !IsUpper(r)
  {
    if IsUpper(c) then (c as int + 32) as char else c
  }

  /** `String.prototype.toLowerCase`, restricted to ASCII letters. */
  function ToLower(s: string): (r: string)
    ensures |r| == |s|
    ensures forall i :: 0 <= i < |s| ==> r[i] == LowerChar(s[i])
  {
    seq(|s|, i requires 0 <= i < |s| => LowerChar(s[i]))
  }

  lemma ToLowerIdempotent(s: string)
    ensures ToLower(ToLower(s)) == ToLower(s)
  {
  }

  /** No upper-case letter survives lower-casing. */
  lemma ToLowerHasNoUpper(s: string)
    ensures forall c :: c in ToLower(s) ==> !IsUpper(c)
  {
  }

  /** A string without upper-case letters is its own lower-case form. */
  lemma ToLowerOfLower(s: string)
    requires forall c :: c in s ==> !IsUpper(c)
    ensures ToLower(s) == s
  {
    assert forall i :: 0 <= i < |s| ==> s[i] in s;
  }

  /** Lower-casing character by character: the way to show what a given name
      lower-cases to. */
  lemma ToLowerByChars(s: string, lower: string)
    requires |s| == |lower| && forall i :: 0 <= i < |s| ==> LowerChar(s[i]) == lower[i]
    ensures ToLower(s) == lower
  {
  }

  /** Number of white-space characters at the start of `s`. */
  function LeadingSpaces(s: string): (n: nat)
    ensures n <= |s|
    ensures forall i :: 0 <= i < n ==> IsSpace(s[i])
    ensures n == |s| || !IsSpace(s[n])
  {
    if s == [] || !IsSpace(s[0]) then 0 else 1 + LeadingSpaces(s[1..])
  }

  /** Number of white-space characters at the end of `s`. */
  function TrailingSpaces(s: string): (n: nat)
    ensures n <= |s|
    ensures forall i :: |s| - n <= i < |s| ==> IsSpace(s[i])
    ensures n == |s| || !IsSpace(s[|s| - 1 - n])
  {
    if s == [] || !IsSpace(s[|s| - 1]) then 0 else 1 + TrailingSpaces(s[..|s| - 1])
  }

  /** `String.prototype.trim`: `s` without its leading and trailing white space. */
  function Trim(s: string): (r: string)
    ensures |r| <= |s|
    ensures r == [] || (!IsSpace(r[0]) && !IsSpace(r[|r| - 1]))
    ensures forall c :: c in r ==> c in s
  {
    var t := s[LeadingSpaces(s)..];
    t[..|t| - TrailingSpaces(t)]
  }

  /** `r` is `s` with the white space before position `a` and after `r` cut off. */
  ghost predicate TrimmedAt(s: string, r: string, a: int) {
    0 <= a <= |s| - |r| && r == s[a..a + |r|]
    && (forall i :: 0 <= i < a ==> IsSpace(s[i]))
    && (forall i :: a + |r| <= i < |s| ==> IsSpace(s[i]))
  }

  /** The trimmed string is a run of `s`, and everything cut off around it is
      white space. */
  lemma TrimSpec(s: string)
    ensures exists a :: TrimmedAt(s, Trim(s), a)
  {
    var a := LeadingSpaces(s);
    var t := s[a..];
    var r := t[..|t| - TrailingSpaces(t)];
    assert r == Trim(s) && r == s[a..a + |r|];
    assert TrimmedAt(s, r, a);
  }

  /** `s` with every character of `drop` removed (a global replace of a character
      class by the empty string). */
  function RemoveChars(s: string, drop: set<char>): (r: string)
    ensures |r| <= |s|
    ensures forall c :: c in r ==> c in s && c !in drop
  {
    if s == [] then []
    else if s[0] in drop then RemoveChars(s[1..], drop)
    else [s[0]] + RemoveChars(s[1..], drop)
  }

  /** A character survives exactly when it occurs and is not dropped. */
  lemma {:induction false} RemoveCharsMembers(s: string, drop: set<char>)
    ensures forall c :: c in RemoveChars(s, drop) <==> c in s && c !in drop
  {
    if s != [] {
      RemoveCharsMembers(s[1..], drop);
      assert s == [s[0]] + s[1..];
    }
  }

  lemma RemoveCharsStep(c: char, s: string, drop: set<char>)
    ensures RemoveChars([c] + s, drop) == (if c in drop then [] else [c]) + RemoveChars(s, drop)
  {
    assert ([c] + s)[1..] == s;
  }

  /** Trimming leaves a string alone when it neither starts nor ends with white space. */
  lemma TrimUnchanged(s: string)
    requires s == [] || (!IsSpace(s[0]) && !IsSpace(s[|s| - 1]))
    ensures Trim(s) == s
  {
    assert LeadingSpaces(s) == 0;
    assert TrailingSpaces(s) == 0;
  }

  /** Removing characters that do not occur leaves the string alone. */
  lemma {:induction false} RemoveCharsUnchanged(s: string, drop: set<char>)
    requires forall c :: c in s ==> c !in drop
    ensures RemoveChars(s, drop) == s
  {
    if s != [] {
      assert forall c :: c in s[1..] ==> c in s;
      RemoveCharsUnchanged(s[1..], drop);
      assert [s[0]] + s[1..] == s;
    }
  }

  /** `s` starts with `pat` when letters are compared without regard to case
      (the `i` flag; no non-ASCII character matches an ASCII letter under it). */
  predicate StartsWithIgnoringCase(s: string, pat: string) {
    |pat| <= |s| && forall i :: 0 <= i < |pat| ==> LowerChar(s[i]) == LowerChar(pat[i])
  }

  /** `s.replace(/pat/gi, "")` for a literal, non-empty pattern: scanning from the
      left, every match is removed and the scan resumes after it. */
  function RemoveAllIgnoringCase(s: string, pat: string): (r: string)
    requires pat != []
    ensures |r| <= |s|
    ensures forall c :: c in r ==> c in s
    decreases |s|
  {
    if |s| < |pat| then s
    else if StartsWithIgnoringCase(s, pat) then RemoveAllIgnoringCase(s[|pat|..], pat)
    else [s[0]] + RemoveAllIgnoringCase(s[1..], pat)
  }

  /** Where no character can begin a match, the removal leaves the string alone. */
  lemma {:induction false} RemoveAllUnchanged(s: string, pat: string)
    requires pat != []
    requires forall c :: c in s ==> LowerChar(c) != LowerChar(pat[0])
    ensures RemoveAllIgnoringCase(s, pat) == s
    decreases |s|
  {
    if |s| >= |pat| {
      assert s[0] in s && !StartsWithIgnoringCase(s, pat);
      assert forall c :: c in s[1..] ==> c in s;
      RemoveAllUnchanged(s[1..], pat);
      assert [s[0]] + s[1..] == s;
    }
  }

  predicate StartsWith(s: string, prefix: string) {
    |prefix| <= |s| && s[..|prefix|] == prefix
  }

  /** `sub` occurs in `s` at some position. */
  ghost predicate IsSubstring(sub: string, s: string) {
    exists i :: OccursAt(sub, s, i)
  }

  ghost predicate OccursAt(sub: string, s: string, i: int) {
    0 <= i <= |s| - |sub| && s[i..i + |sub|] == sub
  }

  /** `String.prototype.includes`. */
  function Includes(s: string, sub: string): (r: bool)
    ensures r <==> IsSubstring(sub, s)
    decreases |s|
  {
    if |s| < |sub| then false
    else if s[..|sub|] == sub then assert OccursAt(sub, s, 0); true
    else
      var rest := Includes(s[1..], sub);
      assert IsSubstring(sub, s[1..]) ==> IsSubstring(sub, s) by {
        if IsSubstring(sub, s[1..]) {
          var i :| OccursAt(sub, s[1..], i);
          assert s[i + 1..i + 1 + |sub|] == sub;
          assert OccursAt(sub, s, i + 1);
        }
      }
      assert IsSubstring(sub, s) ==> IsSubstring(sub, s[1..]) by {
        if IsSubstring(sub, s) {
          var i :| OccursAt(sub, s, i);
          assert i != 0;
          assert s[1..][i - 1..i - 1 + |sub|] == sub;
          assert OccursAt(sub, s[1..], i - 1);
        }
      }
      rest
  }

  /** Number of occurrences of `c` in `s`. */
  function Count(s: string, c: char): nat {
    if s == [] then 0 else (if s[0] == c then 1 else 0) + Count(s[1..], c)
  }

  lemma {:induction false} CountConcat(a: string, b: string, c: char)
    ensures Count(a + b, c) == Count(a, c) + Count(b, c)
  {
    if a == [] {
      assert a + b == b;
    } else {
      assert (a + b)[1..] == a[1..] + b;
      CountConcat(a[1..], b, c);
    }
  }

  lemma {:induction false} CountZero(s: string, c: char)
    ensures Count(s, c) == 0 <==> forall k :: 0 <= k < |s| ==> s[k] != c
  {
    if s != [] {
      CountZero(s[1..], c);
      assert forall k :: 1 <= k < |s| ==> s[k] == s[1..][k - 1];
    }
  }

  /** Decimal digits of a natural number, most significant first. */
  function NaturalToString(n: nat): (r: string)
    ensures r != [] && forall i :: 0 <= i < |r| ==> IsDigit(r[i])
    decreases n
  {
    var last := ('0' as int + n % 10) as char;
    if n < 10 then [last] else NaturalToString(n / 10) + [last]
  }

  /** `Number.prototype.toString()` for an integral number below 10^21 in magnitude. */
  function IntToString(n: int): (r: string)
    ensures r != []
    ensures r[0] == '-' <==> n < 0
  {
    if n < 0 then "-" + NaturalToString(-n) else NaturalToString(n)
  }

  /** The number a string of decimal digits denotes. */
  function DecimalValue(d: string): nat
    requires forall i :: 0 <= i < |d| ==> IsDigit(d[i])
    decreases |d|
  {
    if d == [] then 0
    else
      assert IsDigit(d[|d| - 1]);
      10 * DecimalValue(d[..|d| - 1]) + (d[|d| - 1] as int - '0' as int)
  }

  /** The digits denote the number, and there is no leading zero except in "0". */
  lemma {:induction false} NaturalToStringValue(n: nat)
    ensures DecimalValue(NaturalToString(n)) == n
    ensures NaturalToString(n)[0] == '0' <==> n == 0
    decreases n
  {
    var r := NaturalToString(n);
    if n >= 10 {
      NaturalToStringValue(n / 10);
      assert r[..|r| - 1] == NaturalToString(n / 10);
    }
  }

  /** The text of a number is its sign, when negative, then the digits of its
      magnitude without leading zeros. */
  lemma IntToStringValue(n: int)
    ensures n >= 0 ==> DecimalValue(IntToString(n)) == n && (IntToString(n)[0] == '0' ==> n == 0)
    ensures n < 0 ==>
      (IntToString(n)[1..] == NaturalToString(-n)
       && DecimalValue(IntToString(n)[1..]) == -n && IntToString(n)[1] != '0')
  {
    if n < 0 {
      NaturalToStringValue(-n);
      assert IntToString(n)[1..] == NaturalToString(-n);
    } else {
      NaturalToStringValue(n);
    }
  }
}

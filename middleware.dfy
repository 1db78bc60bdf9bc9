/** The request gate: which paths it guards, the `authorized` decision it asks
    of the authentication library, and the security headers it adds to the
    request it forwards. */
module Middleware {
  import opened JsText

  // ---------------------------------------------------------------------------
  // authorized
  // ---------------------------------------------------------------------------

  /** The session cookie of a plain-HTTP deployment. */
  const SessionCookie := "next-auth.session-token"

  /** The session cookie of an HTTPS deployment. */
  const SecureSessionCookie := "__Secure-next-auth.session-token"

  /** A decoded session token; any token object is truthy. */
  datatype Token = Token(claims: map<string, string>)

  /** The request's cookies as `authorized` sees them: a store whose `get`
      answers by name, a store without `get`, or one where reading `cookies` or
      calling `get` throws. */
  datatype Cookies = Jar(values: map<string, string>) | NoGetter | Throwing

  /** The `authorized` callback. A present token admits the request; otherwise
      either session cookie does, whatever its value, since `get` returns an
      entry object for a present cookie; a missing `get` or an exception denies. */
  function Authorized(token: Option<Token>, cookies: Cookies): (r: bool)
    ensures token.Some? ==> r
    ensures token.None? ==>
      (r <==> cookies.Jar? && (SessionCookie in cookies.values || SecureSessionCookie in cookies.values))
  {
    if token.Some? then true
    else
      match cookies
      case Jar(values) => SessionCookie in values || SecureSessionCookie in values
      case NoGetter => false
      case Throwing => false
  }

  /** Cookie values never matter, only which names are present. */
  lemma CookieValuesIgnored(token: Option<Token>, a: map<string, string>, b: map<string, string>)
    requires a.Keys == b.Keys
    ensures Authorized(token, Jar(a)) == Authorized(token, Jar(b))
  {
  }

  /** Other cookies never admit a request without a token. */
  lemma OtherCookiesDeny(values: map<string, string>)
    requires SessionCookie !in values && SecureSessionCookie !in values
    ensures !Authorized(None, Jar(values)) && !Authorized(None, NoGetter) && !Authorized(None, Throwing)
  {
  }

  // ---------------------------------------------------------------------------
  // Security headers
  // ---------------------------------------------------------------------------

  /** Header names are stored lower-cased, as the Fetch standard's `Headers`
      does. */
  predicate LowerKeys(m: map<string, string>) {
    forall k, c :: k in m && c in k ==> !IsUpper(c)
  }

  const ContentTypeOptions := "X-Content-Type-Options"
  const XssProtection := "X-XSS-Protection"
  const FrameOptions := "X-Frame-Options"
  const ContentSecurityPolicy := "Content-Security-Policy"
  const ReferrerPolicy := "Referrer-Policy"

  const CspValue :=
    "default-src 'self'; script-src 'self' 'unsafe-inline' 'unsafe-eval'; style-src 'self' 'unsafe-inline';"

  /** The five headers the middleware sets, under their stored (lower-case)
      names. */
  const SecurityHeaders: map<string, string> := map[
    "x-content-type-options" := "nosniff",
    "x-xss-protection" := "1; mode=block",
    "x-frame-options" := "DENY",
    "content-security-policy" := CspValue,
    "referrer-policy" := "strict-origin-when-cross-origin"
  ]

  lemma ContentTypeOptionsStored(name: string, stored: string)
    requires name == ContentTypeOptions && stored == "x-content-type-options"
    ensures ToLower(name) == stored
  {
    ToLowerByChars(name, stored);
  }

  lemma XssProtectionStored(name: string, stored: string)
    requires name == XssProtection && stored == "x-xss-protection"
    ensures ToLower(name) == stored
  {
    ToLowerByChars(name, stored);
  }

  lemma FrameOptionsStored(name: string, stored: string)
    requires name == FrameOptions && stored == "x-frame-options"
    ensures ToLower(name) == stored
  {
    ToLowerByChars(name, stored);
  }

  lemma ContentSecurityPolicyStored(name: string, stored: string)
    requires name == ContentSecurityPolicy && stored == "content-security-policy"
    ensures ToLower(name) == stored
  {
    ToLowerByChars(name, stored);
  }

  lemma ReferrerPolicyStored(name: string, stored: string)
    requires name == ReferrerPolicy && stored == "referrer-policy"
    ensures ToLower(name) == stored
  {
    ToLowerByChars(name, stored);
  }

  /** Setting the five names one after another is the union with
      `SecurityHeaders`. */
  lemma SetsInSequence(m: map<string, string>)
    ensures m["x-content-type-options" := "nosniff"]["x-xss-protection" := "1; mode=block"]
             ["x-frame-options" := "DENY"]["content-security-policy" := CspValue]
             ["referrer-policy" := "strict-origin-when-cross-origin"]
            == WithSecurityHeaders(m)
  {
  }

  /** The incoming headers with the five security headers set. */
  function WithSecurityHeaders(m: map<string, string>): map<string, string> {
    m + SecurityHeaders
  }

  /** The five names hold their fixed values, every other header is as it came
      in, and no header is added besides the five. */
  lemma SecurityHeadersSet(m: map<string, string>)
    ensures forall k :: k in SecurityHeaders ==>
      k in WithSecurityHeaders(m) && WithSecurityHeaders(m)[k] == SecurityHeaders[k]
    ensures forall k :: k !in SecurityHeaders ==>
      (k in WithSecurityHeaders(m) <==> k in m) && (k in m ==> WithSecurityHeaders(m)[k] == m[k])
    ensures WithSecurityHeaders(m).Keys == m.Keys + SecurityHeaders.Keys
  {
  }

  /** The added names are lower-case, so the forwarded headers keep their
      names in stored form. */
  lemma SecurityHeadersKeepLowerKeys(m: map<string, string>)
    requires LowerKeys(m)
    ensures LowerKeys(WithSecurityHeaders(m))
  {
    ContentTypeOptionsStored(ContentTypeOptions, "x-content-type-options");
    XssProtectionStored(XssProtection, "x-xss-protection");
    FrameOptionsStored(FrameOptions, "x-frame-options");
    ContentSecurityPolicyStored(ContentSecurityPolicy, "content-security-policy");
    ReferrerPolicyStored(ReferrerPolicy, "referrer-policy");
    ToLowerHasNoUpper(ContentTypeOptions);
    ToLowerHasNoUpper(XssProtection);
    ToLowerHasNoUpper(FrameOptions);
    ToLowerHasNoUpper(ContentSecurityPolicy);
    ToLowerHasNoUpper(ReferrerPolicy);
  }

  /** Adding the headers twice is adding them once. */
  lemma SecurityHeadersIdempotent(m: map<string, string>)
    ensures WithSecurityHeaders(WithSecurityHeaders(m)) == WithSecurityHeaders(m)
  {
  }

  /** The request headers the middleware forwards. */
  class Headers {
    var entries: map<string, string>

    ghost predicate Valid()
      reads this
    {
      LowerKeys(entries)
    }

    /** `new Headers(init)`: a copy of another header list. */
    constructor Copy(init: map<string, string>)
      requires LowerKeys(init)
      ensures entries == init && Valid()
    {
      entries := init;
    }

    /** `set(name, value)`: replaces every value of the name, matched without
        regard to case. */
    method Set(name: string, value: string)
      requires Valid()
      modifies this
      ensures entries == old(entries)[ToLower(name) := value]
      ensures Valid()
    {
      ToLowerHasNoUpper(name);
      entries := entries[ToLower(name) := value];
    }
  }

  /** The middleware body: copy the request headers and set the five security
      headers on the copy. */
  method AddSecurityHeaders(incoming: Headers) returns (forwarded: Headers)
    requires incoming.Valid()
    ensures fresh(forwarded) && forwarded.Valid()
    ensures forwarded.entries == WithSecurityHeaders(incoming.entries)
  {
    forwarded := new Headers.Copy(incoming.entries);
    ContentTypeOptionsStored(ContentTypeOptions, "x-content-type-options");
    XssProtectionStored(XssProtection, "x-xss-protection");
    FrameOptionsStored(FrameOptions, "x-frame-options");
    ContentSecurityPolicyStored(ContentSecurityPolicy, "content-security-policy");
    ReferrerPolicyStored(ReferrerPolicy, "referrer-policy");
    SetsInSequence(incoming.entries);
    forwarded.Set(ContentTypeOptions, "nosniff");
    forwarded.Set(XssProtection, "1; mode=block");
    forwarded.Set(FrameOptions, "DENY");
    forwarded.Set(ContentSecurityPolicy, CspValue);
    forwarded.Set(ReferrerPolicy, "strict-origin-when-cross-origin");
  }

  // ---------------------------------------------------------------------------
  // matcher
  // ---------------------------------------------------------------------------

  /** The path subtrees the middleware runs on. */
  const ProtectedRoots := ["/dashboard", "/profile", "/settings"]

  /** `path` is `root` itself or lies below it (the pattern `root/:path*`). */
  predicate UnderRoot(path: string, root: string) {
    path == root || StartsWith(path, root + "/")
  }

  /** The matcher selects the path. */
  predicate Matched(path: string): (r: bool)
    ensures r <==> UnderRoot(path, "/dashboard") || UnderRoot(path, "/profile") || UnderRoot(path, "/settings")
    ensures r ==> path != [] && path[0] == '/'
  {
    assert ProtectedRoots[0] == "/dashboard" && ProtectedRoots[1] == "/profile" && ProtectedRoots[2] == "/settings";
    exists i | 0 <= i < |ProtectedRoots| :: UnderRoot(path, ProtectedRoots[i])
  }

  /** The pattern `root/:path*` respects path segments: a root is matched with
      or without a sub-path, but a longer segment that merely starts with the
      root's name is not. */
  lemma MatcherRespectsSegments(root: string, below: string, longer: string)
    requires root == "/settings" && below == "/settings/profile" && longer == "/settingsx"
    ensures Matched(root) && Matched(below) && !Matched(longer)
  {
    assert StartsWith(below, root + "/");
    assert longer[..9][1] != "/profile/"[1];
    assert longer[9] != (root + "/")[9];
  }

  /** What happens to a request: it passes untouched, is forwarded with the
      security headers, or is sent to sign in. */
  datatype Gate = PassThrough | Forward(headers: map<string, string>) | SignIn

  function GateRequest(path: string, headers: map<string, string>, token: Option<Token>, cookies: Cookies): (g: Gate)
    ensures g.PassThrough? <==> !Matched(path)
    ensures g.Forward? ==> Authorized(token, cookies) && g.headers.Keys == headers.Keys + SecurityHeaders.Keys
    ensures g.Forward? ==> forall k :: k in SecurityHeaders ==> g.headers[k] == SecurityHeaders[k]
  {
    if !Matched(path) then PassThrough
    else if Authorized(token, cookies) then Forward(WithSecurityHeaders(headers))
    else SignIn
  }

  /** Paths outside the three subtrees bypass the gate and get no headers; a
      guarded path is forwarded with the headers exactly when authorised. */
  lemma GateOutcome(path: string, headers: map<string, string>, token: Option<Token>, cookies: Cookies)
    ensures GateRequest(path, headers, token, cookies) == PassThrough <==> !Matched(path)
    ensures GateRequest(path, headers, token, cookies) == SignIn <==> Matched(path) && !Authorized(token, cookies)
    ensures GateRequest(path, headers, token, cookies).Forward? ==>
      GateRequest(path, headers, token, cookies).headers == WithSecurityHeaders(headers)
  {
  }
}

/** The signup endpoint: its own input sanitiser, the per-address rate limiter,
    and the ordered admission decision of `POST` over an abstract user store.

    The endpoint's copies of `isValidEmail` and `isStrongPassword` are the same
    expressions as the shared helpers, so the model uses `Security`'s definitions. */
module SignupRoute {
  import opened JsText
  import Security

  /** `substring(0, 255)`: the sanitiser keeps at most this many characters. */
  const MaxFieldLength := 255

  /** Attempts admitted per address inside one window. */
  const AttemptLimit := 5

  /** The window of the rate limiter: 15 minutes, in milliseconds. */
  const WindowMs := 15 * 60 * 1000

  /** The bcrypt cost factor the endpoint passes. */
  const BcryptCost := 12

  // ---------------------------------------------------------------------------
  // sanitizeInput of the endpoint
  // ---------------------------------------------------------------------------

  /** The first `n` characters of `s` (`substring(0, n)`). */
  function Prefix(s: string, n: nat): (r: string)
    ensures |r| == (if |s| <= n then |s| else n) && r == s[..|r|]
    ensures forall c :: c in r ==> c in s
  {
    if |s| <= n then s else s[..n]
  }

  /** The endpoint's `sanitizeInput`: anything but a string becomes the empty
      string; a string is trimmed, cut to 255 characters, then loses its quote and
      angle-bracket characters and every `javascript:`. Unlike the shared helper
      it leaves inline event-handler text such as `onclick=` in place. */
  function SanitizeInput(input: JsValue): (r: string)
    ensures !input.Str? ==> r == ""
    ensures |r| <= MaxFieldLength
    ensures forall c :: c in r ==> c !in Security.UnsafeChars && input.Str? && c in input.s
  {
    if !input.Str? then ""
    else
      var cut := Prefix(Trim(input.s), MaxFieldLength);
      var kept := RemoveChars(cut, Security.UnsafeChars);
      TrimSpec(input.s);
      RemoveCharsMembers(cut, Security.UnsafeChars);
      RemoveAllIgnoringCase(kept, Security.ScriptScheme)
  }

  /** Only the first 255 characters after trimming matter. */
  lemma SanitizeReadsOnlyPrefix(s: string, t: string)
    requires Prefix(Trim(s), MaxFieldLength) == Prefix(Trim(t), MaxFieldLength)
    ensures SanitizeInput(Str(s)) == SanitizeInput(Str(t))
  {
  }

  /** A short string without outer white space, quotes, angle brackets or a `j`
      passes the endpoint's sanitiser unchanged, event-handler text included. */
  lemma SanitizeKeepsPlainText(s: string)
    requires |s| <= MaxFieldLength
    requires s == [] || (!IsSpace(s[0]) && !IsSpace(s[|s| - 1]))
    requires forall c :: c in s ==> c !in Security.UnsafeChars && c != 'j' && c != 'J'
    ensures SanitizeInput(Str(s)) == s
  {
    TrimUnchanged(s);
    RemoveCharsUnchanged(s, Security.UnsafeChars);
    RemoveAllUnchanged(s, Security.ScriptScheme);
  }

  /** Trimming comes before the quote characters are removed, so here too the
      output can end with white space, which a second pass trims: sanitising is
      not idempotent. */
  lemma SanitizeCanLeaveOuterSpace(s: string, t: string, u: string)
    requires s == "a <" && t == "a " && u == "a"
    ensures SanitizeInput(Str(s)) == t
    ensures SanitizeInput(Str(t)) == u != t
  {
    TrimUnchanged(s);
    Security.OuterCharsRemoved(s, t);
    Security.ShortUnchanged(t);
    Security.OuterSpaceTrimmed(t, u);
    Security.ShortUnchanged(u);
  }

  /** `onx=` passes the endpoint's sanitiser but not the shared one. */
  lemma HandlerTextSurvivesEndpoint(s: string)
    requires s == "onx="
    ensures SanitizeInput(Str(s)) == s
    ensures Security.SanitizeInput(Str(s)) == ""
  {
    SanitizeKeepsPlainText(s);
    HandlerTextRemoved(s);
  }

  lemma HandlerTextRemoved(s: string)
    requires s == "onx="
    ensures Security.SanitizeInput(Str(s)) == ""
  {
    HandlerTextPassesEarlyStages(s);
    HandlerTextMatched(s);
    Security.SanitizeStages(s, s, s, s, "");
  }

  lemma HandlerTextPassesEarlyStages(s: string)
    requires s == "onx="
    ensures Trim(s) == s && RemoveChars(s, Security.UnsafeChars) == s
    ensures RemoveAllIgnoringCase(s, Security.ScriptScheme) == s
  {
    TrimUnchanged(s);
    RemoveCharsUnchanged(s, Security.UnsafeChars);
    RemoveAllUnchanged(s, Security.ScriptScheme);
  }

  lemma HandlerTextMatched(s: string)
    requires s == "onx="
    ensures Security.RemoveEventHandlers(s) == ""
  {
    assert Security.HandlerSplit(s, 4, 1);
    Security.HandlerMatchIsUnique(s, 4);
    assert s[4..] == [];
  }

  // ---------------------------------------------------------------------------
  // checkRateLimit
  // ---------------------------------------------------------------------------

  /** The timestamps of `ts` still inside the window at `now`, in their order
      (the `filter` of the source). */
  function Recent(ts: seq<int>, now: int): (r: seq<int>)
    ensures |r| <= |ts|
    ensures forall t :: t in r <==> t in ts && now - t < WindowMs
  {
    if ts == [] then []
    else if now - ts[0] < WindowMs then [ts[0]] + Recent(ts[1..], now)
    else Recent(ts[1..], now)
  }

  /** The filter keeps every recent timestamp as often as it occurs and drops
      every other: the count the limiter compares with 5 counts repeated times. */
  lemma {:induction false} RecentCounts(ts: seq<int>, now: int)
    ensures forall t :: multiset(Recent(ts, now))[t] == (if now - t < WindowMs then multiset(ts)[t] else 0)
  {
    if ts != [] {
      RecentCounts(ts[1..], now);
      assert ts == [ts[0]] + ts[1..];
    }
  }

  /** The list stored for `ip`, empty when there is none. */
  function AttemptsFor(attempts: map<string, seq<int>>, ip: string): seq<int> {
    if ip in attempts then attempts[ip] else []
  }

  /** `checkRateLimit(ip)` at time `now` admits the attempt. */
  predicate Admits(attempts: map<string, seq<int>>, ip: string, now: int) {
    |Recent(AttemptsFor(attempts, ip), now)| < AttemptLimit
  }

  /** The map after `checkRateLimit(ip)` at time `now`. */
  function AfterAttempt(attempts: map<string, seq<int>>, ip: string, now: int): map<string, seq<int>> {
    if Admits(attempts, ip, now) then attempts[ip := Recent(AttemptsFor(attempts, ip), now) + [now]]
    else attempts
  }

  /** No list in the map is longer than the limit. */
  predicate Bounded(attempts: map<string, seq<int>>) {
    forall ip :: ip in attempts ==> |attempts[ip]| <= AttemptLimit
  }

  /** An attempt is refused exactly when five recorded attempts are less than 15
      minutes old; a refusal leaves the map alone; an admission records `now`
      after the attempts still in the window, touches no other address, and keeps
      every list within the limit. */
  lemma AttemptEffect(attempts: map<string, seq<int>>, ip: string, now: int)
    ensures !Admits(attempts, ip, now) <==> |Recent(AttemptsFor(attempts, ip), now)| >= AttemptLimit
    ensures !Admits(attempts, ip, now) ==> AfterAttempt(attempts, ip, now) == attempts && ip in attempts
    ensures Admits(attempts, ip, now) ==>
      AttemptsFor(AfterAttempt(attempts, ip, now), ip) == Recent(AttemptsFor(attempts, ip), now) + [now]
    ensures forall other :: other != ip ==>
      AttemptsFor(AfterAttempt(attempts, ip, now), other) == AttemptsFor(attempts, other)
    ensures Bounded(attempts) ==> Bounded(AfterAttempt(attempts, ip, now))
  {
  }

  /** The in-memory rate-limit map of the endpoint. */
  class RateLimiter {
    var attempts: map<string, seq<int>>

    ghost predicate Valid()
      reads this
    {
      Bounded(attempts)
    }

    constructor ()
      ensures attempts == map[] && Valid()
    {
      attempts := map[];
    }

    /** `checkRateLimit(ip)`, with `Date.now()` passed in as `now`. */
    method CheckRateLimit(ip: string, now: int) returns (allowed: bool)
      requires Valid()
      modifies this
      ensures allowed == Admits(old(attempts), ip, now)
      ensures attempts == AfterAttempt(old(attempts), ip, now)
      ensures Valid()
    {
      if ip !in attempts {
        attempts := attempts[ip := []];
      }
      var recent := Recent(attempts[ip], now);
      if |recent| >= AttemptLimit {
        return false;
      }
      recent := recent + [now];
      attempts := attempts[ip := recent];
      return true;
    }
  }

  /** The answers of successive attempts from `ip` at the given times. */
  function Replay(attempts: map<string, seq<int>>, ip: string, times: seq<int>): (results: seq<bool>)
    ensures |results| == |times|
    decreases |times|
  {
    if times == [] then []
    else [Admits(attempts, ip, times[0])] + Replay(AfterAttempt(attempts, ip, times[0]), ip, times[1..])
  }

  /** Every pair of times, the later call's minus the earlier's, is under 15
      minutes. */
  predicate WithinOneWindow(times: seq<int>) {
    forall i, j :: 0 <= i < j < |times| ==> times[j] - times[i] < WindowMs
  }

  /** When every recorded attempt is recent for every later call, the
      recorded attempts and the admitted calls make up at most five. */
  lemma {:induction false} BurstAfter(attempts: map<string, seq<int>>, ip: string, times: seq<int>)
    requires |AttemptsFor(attempts, ip)| <= AttemptLimit
    requires forall t, u :: t in AttemptsFor(attempts, ip) && u in times ==> u - t < WindowMs
    requires WithinOneWindow(times)
    ensures forall i :: 0 <= i < |times| ==>
      Replay(attempts, ip, times)[i] == (|AttemptsFor(attempts, ip)| + i < AttemptLimit)
    decreases |times|
  {
    if times != [] {
      var prior := AttemptsFor(attempts, ip);
      var now := times[0];
      assert now in times;
      RecentKeepsAll(prior, now);
      var next := AfterAttempt(attempts, ip, now);
      var rest := times[1..];
      assert forall u :: u in rest ==> u in times;
      assert forall u :: u in rest ==> u - now < WindowMs by {
        forall u | u in rest ensures u - now < WindowMs {
          var j :| 0 <= j < |rest| && rest[j] == u;
          assert times[j + 1] == u;
        }
      }
      assert WithinOneWindow(rest) by {
        forall i, j | 0 <= i < j < |rest| ensures rest[j] - rest[i] < WindowMs {
          assert rest[j] == times[j + 1] && rest[i] == times[i + 1];
        }
      }
      BurstAfter(next, ip, rest);
      var results := Replay(attempts, ip, times);
      forall i | 0 <= i < |times|
        ensures results[i] == (|prior| + i < AttemptLimit)
      {
        if i > 0 {
          assert results[i] == Replay(next, ip, rest)[i - 1];
        }
      }
    }
  }

  lemma {:induction false} RecentKeepsAll(ts: seq<int>, now: int)
    requires forall t :: t in ts ==> now - t < WindowMs
    ensures Recent(ts, now) == ts
  {
    if ts != [] {
      assert ts[0] in ts && forall t :: t in ts[1..] ==> t in ts;
      RecentKeepsAll(ts[1..], now);
      assert [ts[0]] + ts[1..] == ts;
    }
  }

  /** From an address with no recorded attempts, calls less than 15 minutes
      apart are admitted five times and refused from the sixth on. */
  lemma BurstFromFreshAddress(attempts: map<string, seq<int>>, ip: string, times: seq<int>)
    requires ip !in attempts
    requires WithinOneWindow(times)
    ensures forall i :: 0 <= i < |times| ==> Replay(attempts, ip, times)[i] == (i < AttemptLimit)
  {
    BurstAfter(attempts, ip, times);
  }

  /** Once every recorded attempt is at least 15 minutes old, the next call is
      admitted and starts a fresh list. */
  lemma WindowExpiry(attempts: map<string, seq<int>>, ip: string, now: int)
    requires forall t :: t in AttemptsFor(attempts, ip) ==> now - t >= WindowMs
    ensures Admits(attempts, ip, now)
    ensures AttemptsFor(AfterAttempt(attempts, ip, now), ip) == [now]
  {
    RecentAllExpired(AttemptsFor(attempts, ip), now);
  }

  lemma {:induction false} RecentAllExpired(ts: seq<int>, now: int)
    requires forall t :: t in ts ==> now - t >= WindowMs
    ensures Recent(ts, now) == []
  {
    if ts != [] {
      assert ts[0] in ts && forall t :: t in ts[1..] ==> t in ts;
      RecentAllExpired(ts[1..], now);
    }
  }

  // ---------------------------------------------------------------------------
  // POST
  // ---------------------------------------------------------------------------

  /** A stored account. */
  datatype User = User(name: string, email: string, passwordHash: string)

  /** The reasons for a 400 answer, in the order the endpoint checks them. */
  datatype Rejection = MissingFields | ShortName | BadEmail | WeakPassword

  /** The answers `POST` can give. */
  datatype Outcome =
    | TooManyAttempts | Rejected(why: Rejection) | AlreadyRegistered | Created | InternalError

  /** The HTTP status of each answer. */
  function Status(o: Outcome): (r: int)
    ensures 200 <= r < 300 <==> o.Created?
    ensures 400 <= r < 500 <==> o.TooManyAttempts? || o.Rejected? || o.AlreadyRegistered?
    ensures 500 <= r <==> o.InternalError?
  {
    match o
    case TooManyAttempts => 429
    case Rejected(_) => 400
    case AlreadyRegistered => 409
    case Created => 201
    case InternalError => 500
  }

  /** The one message of the weak-password answer, whatever rule the password
      misses. */
  const WeakPasswordMessage :=
    "Password must be at least 8 characters with uppercase, lowercase, number, and special character (@$!%*?&)"

  /** The `message` field of each answer. */
  function Message(o: Outcome): string {
    match o
    case TooManyAttempts => "Too many signup attempts. Please try again later."
    case Rejected(MissingFields) => "Name, email, and password are required"
    case Rejected(ShortName) => "Name must be at least 2 characters long"
    case Rejected(BadEmail) => "Invalid email format"
    case Rejected(WeakPassword) => WeakPasswordMessage
    case AlreadyRegistered => "Email already registered"
    case Created => "Account created successfully. Please login."
    case InternalError => "An error occurred during signup. Please try again."
  }

  /** The status and the message together tell every answer apart: a client can
      see which check refused it. */
  lemma AnswersDistinct(o: Outcome, o': Outcome)
    ensures Status(o) == Status(o') && Message(o) == Message(o') ==> o == o'
  {
    if o.Rejected? && o'.Rejected? && o != o' {
      RejectionMessagesDiffer(o.why, o'.why);
    }
  }

  /** The four 400 answers carry four different messages. */
  lemma RejectionMessagesDiffer(a: Rejection, b: Rejection)
    requires a != b
    ensures Message(Rejected(a)) != Message(Rejected(b))
  {
    var m, s, e, w := Message(Rejected(MissingFields)), Message(Rejected(ShortName)),
                      Message(Rejected(BadEmail)), Message(Rejected(WeakPassword));
    assert m[0] == 'N' && m[4] == ',';
    assert s[0] == 'N' && s[4] == ' ';
    assert e[0] == 'I';
    assert |w| > 40 && |m| < 40 && |s| < 40 && |e| < 40;
  }

  /** The request body: unreadable JSON, or the three properties read from it
      (`Undefined` when absent). */
  datatype Body = Unreadable | Fields(name: JsValue, email: JsValue, password: JsValue)

  /** Where an outside call throws, if anywhere: hashing, connecting to the
      database, the lookup query, or the insert. */
  datatype Fault = NoFault | HashFails | ConnectFails | LookupFails | InsertFails

  /** The sanitised, lower-cased email the endpoint validates and stores. */
  function NormalEmail(email: JsValue): (r: string)
    ensures |r| <= MaxFieldLength
    ensures ToLower(r) == r
  {
    ToLowerIdempotent(SanitizeInput(email));
    ToLower(SanitizeInput(email))
  }

  /** Some stored email, lower-cased, equals `email` (`LOWER(email) = $1`). */
  predicate Registered(users: seq<User>, email: string) {
    exists u :: u in users && ToLower(u.email) == email
  }

  /** No two stored emails are equal once lower-cased. */
  predicate EmailsDistinct(users: seq<User>) {
    forall i, j :: 0 <= i < j < |users| ==> ToLower(users[i].email) != ToLower(users[j].email)
  }

  /** The three properties are present and truthy. */
  predicate Present(body: Body) {
    body.Fields? && Truthy(body.name) && Truthy(body.email) && Truthy(body.password)
  }

  /** The body passes every check that answers 400. */
  predicate Acceptable(body: Body) {
    Present(body) && |SanitizeInput(body.name)| >= 2
    && Security.IsValidEmail(NormalEmail(body.email))
    && Security.IsStrongPassword(ToJsString(body.password))
  }

  /** The first 400 answer a readable body earns, in the order of the endpoint's
      checks: presence, name length, email, password strength. */
  function Screen(body: Body): (r: Option<Rejection>)
    requires body.Fields?
    ensures r == Some(MissingFields) <==> !Present(body)
    ensures r.None? ==> Present(body) && |SanitizeInput(body.name)| >= 2
  {
    if !Present(body) then Some(MissingFields)
    else if |SanitizeInput(body.name)| < 2 then Some(ShortName)
    else if !Security.IsValidEmail(NormalEmail(body.email)) then Some(BadEmail)
    else if !Security.IsStrongPassword(ToJsString(body.password)) then Some(WeakPassword)
    else None
  }

  /** A readable body earns no 400 answer exactly when it is acceptable. */
  lemma ScreenPassesAcceptable(body: Body)
    requires body.Fields?
    ensures Screen(body).None? <==> Acceptable(body)
  {
  }

  /** A missing name, email or password is reported before anything else. */
  lemma MissingFieldsFirst(body: Body)
    requires body.Fields?
    ensures Screen(body) == Some(MissingFields) <==> !Present(body)
  {
  }

  /** A short sanitised name is reported when the fields are present. */
  lemma ShortNameSecond(body: Body)
    requires body.Fields?
    ensures Screen(body) == Some(ShortName) <==> Present(body) && |SanitizeInput(body.name)| < 2
  {
  }

  /** A bad email is reported when the fields are present and the name is long
      enough; it is the sanitised, lower-cased email that is checked. */
  lemma BadEmailThird(body: Body)
    requires body.Fields?
    ensures Screen(body) == Some(BadEmail) <==>
      Present(body) && |SanitizeInput(body.name)| >= 2 && !Security.IsValidEmail(NormalEmail(body.email))
  {
  }

  /** A weak password is reported last; it is the raw password, not a sanitised
      one, that is checked. */
  lemma WeakPasswordFourth(body: Body)
    requires body.Fields?
    ensures Screen(body) == Some(WeakPassword) <==>
      Present(body) && |SanitizeInput(body.name)| >= 2 && Security.IsValidEmail(NormalEmail(body.email))
      && !Security.IsStrongPassword(ToJsString(body.password))
  {
  }

  /** What the endpoint has established about a readable body before it touches
      the database: the sanitised name, the normalised email, and the first 400
      answer the body earns, if any. */
  datatype Assessment = Assessment(name: string, email: string, failure: Option<Rejection>)

  function Assess(body: Body): (a: Assessment)
    requires body.Fields?
    ensures a.failure.None? ==> 2 <= |a.name| <= MaxFieldLength && Security.IsValidEmail(a.email)
    ensures a.failure.None? ==> Security.IsStrongPassword(ToJsString(body.password))
    ensures ToLower(a.email) == a.email
  {
    Assessment(SanitizeInput(body.name), NormalEmail(body.email), Screen(body))
  }

  /** The outcome of `POST` once the rate limiter has admitted it: the response,
      and the account inserted, if any. */
  datatype Decision = Decision(response: Outcome, created: Option<User>)

  /** The part of `POST` after validation: hashing the raw password, the
      duplicate check and the insert. A password that is not a string but passes
      the pattern through `String()` makes `bcrypt.hash` throw. */
  function Store(users: seq<User>, a: Assessment, password: JsValue, hash: (string, nat) -> string,
                 fault: Fault): (d: Decision)
    ensures d.created.Some? <==> d.response == Created
    ensures d.response != TooManyAttempts
    ensures d.created.Some? ==>
      a.failure.None? && !Registered(users, a.email) && password.Str?
      && d.created.value.name == a.name && d.created.value.email == a.email
  {
    if a.failure.Some? then Decision(Rejected(a.failure.value), None)
    else if !password.Str? || fault == HashFails || fault == ConnectFails || fault == LookupFails then
      Decision(InternalError, None)
    else if Registered(users, a.email) then Decision(AlreadyRegistered, None)
    else if fault == InsertFails then Decision(InternalError, None)
    else Decision(Created, Some(User(a.name, a.email, hash(password.s, BcryptCost))))
  }

  /** The decision of `POST` after the rate limit, as a function of the stored
      accounts, the body, `bcrypt.hash` and the outside call that throws. */
  function Decide(users: seq<User>, body: Body, hash: (string, nat) -> string, fault: Fault): (d: Decision)
    ensures d.response != TooManyAttempts
    ensures body.Unreadable? ==> d == Decision(InternalError, None)
    ensures d.created.Some? <==> d.response == Created
    ensures d.created.Some? ==>
      2 <= |d.created.value.name| <= MaxFieldLength && Security.IsValidEmail(d.created.value.email)
      && ToLower(d.created.value.email) == d.created.value.email
      && !Registered(users, d.created.value.email) && Security.IsStrongPassword(ToJsString(body.password))
  {
    if body.Unreadable? then Decision(InternalError, None)
    else Store(users, Assess(body), body.password, hash, fault)
  }

  /** The answer is 400 exactly when the body is readable but not acceptable. */
  lemma BadRequestIffUnacceptable(users: seq<User>, body: Body, hash: (string, nat) -> string, fault: Fault)
    ensures Status(Decide(users, body, hash, fault).response) == 400 <==> body.Fields? && !Acceptable(body)
  {
    if body.Fields? {
      ScreenPassesAcceptable(body);
    }
  }

  /** After validation the answer is 409 exactly when nothing has thrown before
      the lookup and the normalised email is already stored. */
  lemma ConflictIffRegistered(users: seq<User>, a: Assessment, password: JsValue,
                              hash: (string, nat) -> string, fault: Fault)
    ensures Store(users, a, password, hash, fault).response == AlreadyRegistered <==>
      a.failure.None? && password.Str? && (fault == NoFault || fault == InsertFails)
      && Registered(users, a.email)
  {
  }

  /** An account is created exactly when validation passed, the email is new and
      nothing throws; it holds the sanitised name, the normalised email and the
      hash of the raw password at cost 12. */
  lemma CreatedIffNew(users: seq<User>, a: Assessment, password: JsValue,
                      hash: (string, nat) -> string, fault: Fault)
    ensures Store(users, a, password, hash, fault).created.Some? <==>
      a.failure.None? && password.Str? && fault == NoFault && !Registered(users, a.email)
    ensures Store(users, a, password, hash, fault).created.Some? ==>
      Store(users, a, password, hash, fault).created.value == User(a.name, a.email, hash(password.s, BcryptCost))
  {
  }

  /** After validation, the answer is 500 exactly when the password is not a
      string or hashing, connecting, the lookup or the insert throws; the
      answer, and so its message, is the same whichever it was. */
  lemma InternalErrorIffFault(users: seq<User>, a: Assessment, password: JsValue,
                              hash: (string, nat) -> string, fault: Fault)
    requires a.failure.None?
    ensures Store(users, a, password, hash, fault).response == InternalError <==>
      !password.Str? || (fault != NoFault && (fault == InsertFails ==> !Registered(users, a.email)))
  {
  }

  /** Repeating a request that created an account is refused with 409. */
  lemma SignupTwiceConflicts(users: seq<User>, a: Assessment, password: JsValue,
                             hash: (string, nat) -> string, hash2: (string, nat) -> string)
    requires ToLower(a.email) == a.email
    requires Store(users, a, password, hash, NoFault).created.Some?
    ensures var u := Store(users, a, password, hash, NoFault).created.value;
      Store(users + [u], a, password, hash2, NoFault).response == AlreadyRegistered
  {
    var u := Store(users, a, password, hash, NoFault).created.value;
    assert u in users + [u];
  }

  /** Inserting the created account keeps stored emails distinct. */
  lemma StoreKeepsEmailsDistinct(users: seq<User>, a: Assessment, password: JsValue,
                                 hash: (string, nat) -> string, fault: Fault)
    requires EmailsDistinct(users) && ToLower(a.email) == a.email
    ensures var d := Store(users, a, password, hash, fault);
      d.created.Some? ==> EmailsDistinct(users + [d.created.value])
  {
    var d := Store(users, a, password, hash, fault);
    if d.created.Some? {
      var u := d.created.value;
      var all := users + [u];
      forall i, j | 0 <= i < j < |all| ensures ToLower(all[i].email) != ToLower(all[j].email) {
        if j == |users| {
          assert all[i] in users;
        }
      }
    }
  }

  /** The user table, held in memory. */
  class UserStore {
    var users: seq<User>

    ghost predicate Valid()
      reads this
    {
      EmailsDistinct(users)
    }

    constructor ()
      ensures users == [] && Valid()
    {
      users := [];
    }

    /** The duplicate check: some row has `LOWER(email) = email`. */
    method HasEmail(email: string) returns (found: bool)
      ensures found <==> Registered(users, email)
    {
      var i := 0;
      while i < |users|
        invariant 0 <= i <= |users|
        invariant forall k :: 0 <= k < i ==> ToLower(users[k].email) != email
      {
        if ToLower(users[i].email) == email {
          return true;
        }
        i := i + 1;
      }
      found := false;
      assert forall u :: u in users ==> ToLower(u.email) != email by {
        forall u | u in users ensures ToLower(u.email) != email {
          var k :| 0 <= k < |users| && users[k] == u;
        }
      }
    }

    /** The insert query. */
    method Insert(u: User)
      modifies this
      ensures users == old(users) + [u]
    {
      users := users + [u];
    }
  }

  /** The validation block of `POST`: each check in order, the first that fails
      deciding the 400 answer. */
  method CheckFields(name: JsValue, email: JsValue, password: JsValue)
    returns (failure: Option<Rejection>, sanitizedName: string, sanitizedEmail: string)
    ensures var a := Assess(Fields(name, email, password));
      failure == a.failure && sanitizedName == a.name && sanitizedEmail == a.email
  {
    sanitizedName, sanitizedEmail := SanitizeInput(name), NormalEmail(email);
    if !Truthy(name) || !Truthy(email) || !Truthy(password) {
      return Some(MissingFields), sanitizedName, sanitizedEmail;
    }
    if |sanitizedName| < 2 {
      return Some(ShortName), sanitizedName, sanitizedEmail;
    }
    if !Security.IsValidEmail(sanitizedEmail) {
      return Some(BadEmail), sanitizedName, sanitizedEmail;
    }
    if !Security.IsStrongPassword(ToJsString(password)) {
      return Some(WeakPassword), sanitizedName, sanitizedEmail;
    }
    failure := None;
  }

  /** The `try` block of `POST` after the rate limit: read the body, validate,
      hash, look the email up and insert; an exception anywhere gives the fixed
      500 answer. */
  method Register(store: UserStore, body: Body, hash: (string, nat) -> string, fault: Fault)
    returns (response: Outcome)
    modifies store
    ensures old(store.Valid()) ==> store.Valid()
    ensures var d := Decide(old(store.users), body, hash, fault);
      response == d.response
      && store.users == old(store.users) + (if d.created.Some? then [d.created.value] else [])
  {
    if body.Unreadable? {
      return InternalError;
    }
    var password := body.password;
    var failure, sanitizedName, sanitizedEmail := CheckFields(body.name, body.email, password);
    if failure.Some? {
      return Rejected(failure.value);
    }
    if !password.Str? || fault == HashFails {
      return InternalError;
    }
    var hashedPassword := hash(password.s, BcryptCost);
    if fault == ConnectFails || fault == LookupFails {
      return InternalError;
    }
    var taken := store.HasEmail(sanitizedEmail);
    if taken {
      return AlreadyRegistered;
    }
    if fault == InsertFails {
      return InternalError;
    }
    if store.Valid() {
      StoreKeepsEmailsDistinct(store.users, Assess(body), password, hash, fault);
    }
    store.Insert(User(sanitizedName, sanitizedEmail, hashedPassword));
    return Created;
  }

  /** `POST`: the rate limit first, answering 429 before the body is read, then
      the rest of the request. */
  method Post(limiter: RateLimiter, store: UserStore, ip: string, now: int, body: Body,
              hash: (string, nat) -> string, fault: Fault) returns (response: Outcome)
    requires limiter.Valid()
    modifies limiter, store
    ensures limiter.Valid()
    ensures old(store.Valid()) ==> store.Valid()
    ensures limiter.attempts == AfterAttempt(old(limiter.attempts), ip, now)
    ensures !Admits(old(limiter.attempts), ip, now) ==> response == TooManyAttempts && store.users == old(store.users)
    ensures Admits(old(limiter.attempts), ip, now) ==>
      var d := Decide(old(store.users), body, hash, fault);
      response == d.response
      && store.users == old(store.users) + (if d.created.Some? then [d.created.value] else [])
  {
    var allowed := limiter.CheckRateLimit(ip, now);
    if !allowed {
      return TooManyAttempts;
    }
    response := Register(store, body, hash, fault);
  }
}

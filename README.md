# Signup, input checks and request gate of VidyaSetu AI, in Dafny

This project models the security-relevant core of the VidyaSetu AI web
application and proves properties of the model. The core has four parts:

- **The shared security helpers** (`src/lib/security.js`):
  - input sanitising;
  - the e-mail and password rules;
  - password-strength feedback;
  - the redirect allow rule;
  - the 32-bit string hash.
- **The signup endpoint** (`src/app/api/auth/signup/route.js`):
  - its own input sanitiser, which cuts to 255 characters and keeps event-handler text;
  - the in-memory per-address rate limiter (5 attempts per 15 minutes);
  - the ordered decision of `POST`: 429, 400 (missing fields, short name, bad e-mail, weak password), 500, 409 or 201, over an abstract user store.
- **The request middleware** (`src/middleware.js`):
  - the `authorized` callback, which accepts a token or either session cookie;
  - the copy of the request headers with five security headers set;
  - the three protected path subtrees.
- **The signup form** (`src/app/signup/page.jsx`):
  - `validateForm`, a first-failure check that reports its message;
  - `handleChange`, a single-field update of the form state.

Files:

| file | module | contents |
|---|---|---|
| `js_text.dfy` | `JsText` | The JavaScript string built-ins the core uses: `trim`, `toLowerCase`, global `replace` of a character class or a case-insensitive literal, `includes`, `startsWith`, number-to-text. It also holds `JsValue`, which models `typeof`, truthiness and `String()`. |
| `security.dfy` | `Security` | `security.js`. |
| `route.dfy` | `SignupRoute` | `route.js`, with `RateLimiter` and `UserStore` as classes. |
| `middleware.dfy` | `Middleware` | `middleware.js`, with `Headers` as a class. |
| `signup_page.dfy` | `SignupPage` | `page.jsx`, with the component state as the class `SignupForm`. |

Modelling conventions:

- **Strings.**
  - A JavaScript string is a `string` whose characters each stand for one UTF-16 code unit. `length` and `charCodeAt` are therefore exact for text inside the Basic Multilingual Plane.
  - `\s` is the exact ECMAScript set of white-space and line-terminator characters.
  - `\w`, `\d` and the letter classes are ASCII, as in ECMAScript without the `u` flag.
  - `toLowerCase` and the `i` flag are restricted to ASCII letters.
- **Regular expressions** are modelled by the languages they accept. Lemmas characterise each language in plain terms and prove both directions.
- **Specifications first.** Stateful code is written as methods and classes, and each method is proved against a specification function:
  - the rate-limit map and `checkRateLimit`;
  - the user table;
  - `Headers.set`;
  - the React state.

  The lemmas about the core's promises are proved about those functions.
- **Outside calls become parameters.**
  - `Date.now()` becomes `now`.
  - `bcrypt.hash` becomes the function parameter `hash`.
  - The outside call that throws, if any (hashing, connecting, the lookup or the insert), becomes a `Fault` value.

Facts about the code that a reader might not expect:

- Neither sanitiser is idempotent.
  - In `security.js`, one pass of `javascript:` removal can assemble a new occurrence: `Security.SanitizeCanLeaveScriptScheme`.
  - In both sanitisers, removing quote characters after trimming can expose outer white space: `Security.SanitizeCanLeaveOuterSpace` and `SignupRoute.SanitizeCanLeaveOuterSpace`.
- A weak password gets one fixed message (`route.js:109`, `SignupRoute.Message`). The message does not list which requirements are missing.
- The comments at `security.js:25` and `route.js:21` give the password rule as a minimum length plus character kinds. The pattern also restricts every character to `[A-Za-z0-9@$!%*?&]` (`Security.OutsideAlphabetIsWeak`).
- The endpoint keeps its own copies of `isValidEmail` and `isStrongPassword` (`route.js:14-25`). They are the same expressions as the shared helpers, so the model defines each rule once, in `Security`.

## Model

| member | source | states |
|---|---|---|
| JsText.ToLower | vidyasetu-ai/src/app/api/auth/signup/route.js:87 | lower-casing keeps the length and lower-cases each character in place |
| JsText.Trim | vidyasetu-ai/src/lib/security.js:9 | `trim` never lengthens the text, adds no character, and its result neither starts nor ends with white space |
| JsText.TrimSpec | vidyasetu-ai/src/lib/security.js:9 | the trimmed text is a run of the input and everything cut off around it is white space |
| JsText.RemoveChars | vidyasetu-ai/src/lib/security.js:10 | the global replace of a character class by `""` never lengthens the text and leaves only characters of the input outside the class |
| JsText.RemoveCharsMembers | vidyasetu-ai/src/lib/security.js:10 | after the global replace of `[<>"']` a character remains exactly when it occurred and is not in the class |
| JsText.RemoveAllIgnoringCase | vidyasetu-ai/src/lib/security.js:11 | the global case-insensitive removal of a literal such as `javascript:` never lengthens the text and adds no character |
| JsText.Includes | vidyasetu-ai/src/lib/security.js:70 | `includes` is true exactly when the fragment occurs at some position |
| JsText.IntToString | vidyasetu-ai/src/lib/security.js:86 | the decimal text is non-empty and starts with `-` exactly for a negative number |
| JsText.NaturalToStringValue | vidyasetu-ai/src/lib/security.js:86 | the digits of a natural number denote that number, with no leading zero except in `"0"` |
| JsText.IntToStringValue | vidyasetu-ai/src/lib/security.js:86 | the text of an integer is `-` for a negative one followed by the digits of its magnitude, which denote it, with no leading zero |
| Security.SanitizeInput | vidyasetu-ai/src/lib/security.js:6-13 | a non-string gives `""`; a string gives text no longer than the input, free of `<`, `>`, `"` and `'`, made only of the input's characters |
| Security.HandlerMatchIsUnique | vidyasetu-ai/src/lib/security.js:12 | `/on\w+\s*=/i` matches at the start of a text exactly when the greedy measure is positive, and matches no other prefix |
| Security.RemoveEventHandlers | vidyasetu-ai/src/lib/security.js:12 | the left-to-right removal of every `/on\w+\s*=/gi` match never lengthens the text |
| Security.RemoveEventHandlersMembers | vidyasetu-ai/src/lib/security.js:12 | the removal adds no character |
| Security.RemoveEventHandlersUnchanged | vidyasetu-ai/src/lib/security.js:12 | text without an `o` in either case loses nothing to the event-handler removal |
| Security.SanitizeCanLeaveScriptScheme | vidyasetu-ai/src/lib/security.js:6-13 | `javjavascript:ascript:` sanitises to `javascript:`, which sanitises to `""`, so sanitising is not idempotent |
| Security.SanitizeCanLeaveOuterSpace | vidyasetu-ai/src/lib/security.js:8-10 | `a <` sanitises to `a `, which sanitises to `a`, because trimming happens before quote removal |
| Security.MatchesEmailPattern | vidyasetu-ai/src/app/signup/page.jsx:75-76 | the language of `/^[^\s@]+@[^\s@]+\.[^\s@]+$/`; a match has at least five characters and neither starts nor ends with `@` or white space |
| Security.IsValidEmail | vidyasetu-ai/src/lib/security.js:18-21 | the address pattern and at most 254 characters; a valid address has 5 to 254 characters and neither starts nor ends with `@` |
| Security.EmailCharacterization | vidyasetu-ai/src/lib/security.js:18-21 | an address is valid exactly when it has at most 254 characters, one `@`, no white space, a non-empty local part and a domain with a `.` that has a character on each side |
| Security.LongEmailRejected | vidyasetu-ai/src/lib/security.js:20 | an address longer than 254 characters is invalid whatever its form |
| Security.IsStrongPassword | vidyasetu-ai/src/lib/security.js:27-31 | the language of the lookahead pattern; a strong password has 8 or more characters including a lower-case letter, an upper-case letter, a digit and one of `@$!%*?&` |
| Security.StrongPasswordCharacterization | vidyasetu-ai/src/lib/security.js:27-31 | a password is strong exactly when it has 8 or more characters, all from `[A-Za-z0-9@$!%*?&]`, with a lower-case letter, an upper-case letter, a digit and a special character |
| Security.OutsideAlphabetIsWeak | vidyasetu-ai/src/lib/security.js:28-30 | one character outside the alphabet, such as `#` or a space, makes a password weak |
| Security.GetPasswordStrengthFeedback | vidyasetu-ai/src/lib/security.js:36-56 | the five tests, pushing in order, give the list `Feedback` specifies |
| Security.FeedbackUnfolded | vidyasetu-ai/src/lib/security.js:36-56 | the feedback is the length, upper-case, lower-case, number and special messages, each present only when its rule fails, in that order |
| Security.FeedbackListsFailedRules | vidyasetu-ai/src/lib/security.js:36-56 | each rule's message is in the list exactly when the rule fails, the list has at most five entries, and it is empty exactly when every rule holds |
| Security.StrongPasswordHasNoFeedback | vidyasetu-ai/src/lib/security.js:27-56 | a strong password gets no feedback |
| Security.NoFeedbackDoesNotMeanStrong | vidyasetu-ai/src/lib/security.js:27-56 | `Abcdef1!#` gets no feedback yet is not strong, since the feedback ignores the alphabet |
| Security.IsSafeRedirectUrl | vidyasetu-ai/src/lib/security.js:61-74 | a URL is allowed exactly when it is non-empty, starts with `/` and contains none of `/api/`, `/admin/`, `/system/` |
| Security.ToInt32 | vidyasetu-ai/src/lib/security.js:84 | the `& hash` conversion yields a signed 32-bit value |
| Security.ToInt32Periodic | vidyasetu-ai/src/lib/security.js:84 | the conversion depends only on the value modulo 2^32 |
| Security.ToInt32Wraps | vidyasetu-ai/src/lib/security.js:84 | the conversion subtracts a whole multiple of 2^32 |
| Security.ShiftStep | vidyasetu-ai/src/lib/security.js:83-84 | one loop step, shift, subtract, add and convert, equals `ToInt32(31 * h + code)` |
| Security.HashIsWrappedPolynomial | vidyasetu-ai/src/lib/security.js:80-85 | the hash is the base-31 polynomial of the character codes reduced once to signed 32 bits, whatever the length |
| Security.SimpleHash | vidyasetu-ai/src/lib/security.js:79-87 | the loop returns the decimal text of that hash |
| Security.EmptyStringHash | vidyasetu-ai/src/lib/security.js:80-86 | the empty string hashes to `"0"` |
| SignupRoute.Prefix | vidyasetu-ai/src/app/api/auth/signup/route.js:32 | `substring(0, n)` is the first min(n, length) characters of the text |
| SignupRoute.SanitizeInput | vidyasetu-ai/src/app/api/auth/signup/route.js:28-35 | a non-string gives `""`; a string gives at most 255 characters, free of `<`, `>`, `"` and `'`, made only of the input's characters |
| SignupRoute.SanitizeReadsOnlyPrefix | vidyasetu-ai/src/app/api/auth/signup/route.js:31-32 | inputs whose trimmed texts agree on the first 255 characters sanitise alike |
| SignupRoute.SanitizeKeepsPlainText | vidyasetu-ai/src/app/api/auth/signup/route.js:28-35 | short text without outer white space, quotes, angle brackets or `j` passes unchanged |
| SignupRoute.SanitizeCanLeaveOuterSpace | vidyasetu-ai/src/app/api/auth/signup/route.js:30-33 | `a <` sanitises to `a `, which sanitises to `a`, so the endpoint's sanitiser is not idempotent either |
| SignupRoute.HandlerTextSurvivesEndpoint | vidyasetu-ai/src/app/api/auth/signup/route.js:28-35 | `onx=` passes the endpoint's sanitiser unchanged while the shared one removes it |
| SignupRoute.Recent | vidyasetu-ai/src/app/api/auth/signup/route.js:49 | the filter keeps exactly the timestamps less than 15 minutes old and never lengthens the list |
| SignupRoute.RecentCounts | vidyasetu-ai/src/app/api/auth/signup/route.js:49-51 | each recent timestamp is kept as often as it was stored and every other is dropped, so repeated times count toward the limit of five |
| SignupRoute.AttemptEffect | vidyasetu-ai/src/app/api/auth/signup/route.js:40-58 | refusal happens exactly at five recent attempts and leaves the map alone; admission stores the recent attempts plus `now`, changes no other address and keeps every list at five or fewer |
| SignupRoute.RateLimiter.constructor | vidyasetu-ai/src/app/api/auth/signup/route.js:38 | the map starts empty |
| SignupRoute.RateLimiter.CheckRateLimit | vidyasetu-ai/src/app/api/auth/signup/route.js:40-58 | the answer and the new map are those `Admits` and `AfterAttempt` specify, and lists stay bounded |
| SignupRoute.BurstAfter | vidyasetu-ai/src/app/api/auth/signup/route.js:40-58 | with prior attempts and calls all inside one window, call i is admitted exactly when the prior count plus i is under five |
| SignupRoute.BurstFromFreshAddress | vidyasetu-ai/src/app/api/auth/signup/route.js:40-58 | from a new address, calls inside one window are admitted five times and refused from the sixth on |
| SignupRoute.WindowExpiry | vidyasetu-ai/src/app/api/auth/signup/route.js:43-56 | once every recorded attempt is 15 minutes old the call is admitted and the list restarts as `[now]` |
| SignupRoute.NormalEmail | vidyasetu-ai/src/app/api/auth/signup/route.js:87 | the checked and stored email has at most 255 characters and is already lower-case |
| SignupRoute.Status | vidyasetu-ai/src/app/api/auth/signup/route.js:71-152 | 201 is the only success status, 429, 400 and 409 are the client errors, and 500 is the only server error |
| SignupRoute.AnswersDistinct | vidyasetu-ai/src/app/api/auth/signup/route.js:70-152 | no two different answers share both status and message |
| SignupRoute.RejectionMessagesDiffer | vidyasetu-ai/src/app/api/auth/signup/route.js:80-111 | the four 400 answers carry four different messages |
| SignupRoute.Screen | vidyasetu-ai/src/app/api/auth/signup/route.js:78-113 | the missing-field answer comes exactly when a field is absent or falsy; passing requires present fields and a sanitised name of two characters |
| SignupRoute.ScreenPassesAcceptable | vidyasetu-ai/src/app/api/auth/signup/route.js:78-113 | a readable body passes the 400 checks exactly when its fields are present, the sanitised name has two characters, the normalised email is valid and the raw password is strong |
| SignupRoute.MissingFieldsFirst | vidyasetu-ai/src/app/api/auth/signup/route.js:78-83 | a missing or falsy field is reported first |
| SignupRoute.ShortNameSecond | vidyasetu-ai/src/app/api/auth/signup/route.js:86-94 | a sanitised name under two characters is reported when the fields are present |
| SignupRoute.BadEmailThird | vidyasetu-ai/src/app/api/auth/signup/route.js:87-102 | a bad sanitised, lower-cased email is reported when the earlier checks pass |
| SignupRoute.WeakPasswordFourth | vidyasetu-ai/src/app/api/auth/signup/route.js:104-113 | a weak raw password is reported only after every other check passes |
| SignupRoute.Assess | vidyasetu-ai/src/app/api/auth/signup/route.js:86-113 | when validation passes, the name has 2 to 255 characters, the email is valid and the raw password is strong; the email is lower-case |
| SignupRoute.Store | vidyasetu-ai/src/app/api/auth/signup/route.js:115-142 | an account is created exactly when the answer is 201, only after validation passed for a string password and a new email, and it holds the sanitised name and normalised email; 429 never comes from here |
| SignupRoute.Decide | vidyasetu-ai/src/app/api/auth/signup/route.js:75-154 | an unreadable body gets 500 and creates nothing; a created account has a name of 2 to 255 characters, a valid lower-case email not yet stored, and a strong password; 429 never comes from here |
| SignupRoute.BadRequestIffUnacceptable | vidyasetu-ai/src/app/api/auth/signup/route.js:75-113 | the answer after the rate limit is 400 exactly when the body is readable and fails a check |
| SignupRoute.ConflictIffRegistered | vidyasetu-ai/src/app/api/auth/signup/route.js:115-131 | the answer is 409 exactly when validation passed, nothing threw before the lookup and the email is stored |
| SignupRoute.CreatedIffNew | vidyasetu-ai/src/app/api/auth/signup/route.js:115-142 | an account is created exactly when validation passed, the email is new and nothing throws; it holds the sanitised name, the normalised email and the cost-12 hash of the raw password |
| SignupRoute.InternalErrorIffFault | vidyasetu-ai/src/app/api/auth/signup/route.js:115-154 | after validation the answer is 500 exactly when the password is not a string or an outside call throws before the answer is decided |
| SignupRoute.SignupTwiceConflicts | vidyasetu-ai/src/app/api/auth/signup/route.js:121-142 | repeating a request that created an account gets 409 |
| SignupRoute.StoreKeepsEmailsDistinct | vidyasetu-ai/src/app/api/auth/signup/route.js:121-137 | inserting the created account keeps stored emails distinct up to case |
| SignupRoute.UserStore.HasEmail | vidyasetu-ai/src/app/api/auth/signup/route.js:121-126 | the scan finds a row exactly when some stored email, lower-cased, equals the one asked for |
| SignupRoute.UserStore.Insert | vidyasetu-ai/src/app/api/auth/signup/route.js:134-137 | the insert appends the new row |
| SignupRoute.CheckFields | vidyasetu-ai/src/app/api/auth/signup/route.js:78-113 | the early returns give the first failure, sanitised name and normalised email that `Assess` specifies |
| SignupRoute.Register | vidyasetu-ai/src/app/api/auth/signup/route.js:75-154 | the answer and the new table are those `Decide` specifies, for any table; a table with distinct emails keeps them distinct |
| SignupRoute.Post | vidyasetu-ai/src/app/api/auth/signup/route.js:60-155 | the rate limit runs first and updates the map; a refused call gets 429 and leaves the table alone; an admitted one gets `Decide`'s answer and table; distinct emails stay distinct |
| Middleware.Authorized | vidyasetu-ai/src/middleware.js:40-54 | a token admits; without one, exactly a readable cookie store that holds either session cookie admits |
| Middleware.CookieValuesIgnored | vidyasetu-ai/src/middleware.js:45-49 | only which cookie names are present matters, not their values |
| Middleware.OtherCookiesDeny | vidyasetu-ai/src/middleware.js:42-53 | without a token, other cookies, a store without `get`, or a throwing store deny |
| Middleware.Headers.Copy | vidyasetu-ai/src/middleware.js:7 | the new header list holds the incoming entries |
| Middleware.Headers.Set | vidyasetu-ai/src/middleware.js:10 | `set` replaces the value under the name, matched without regard to case, and keeps names lower-case |
| Middleware.SetsInSequence | vidyasetu-ai/src/middleware.js:10-25 | the five sets in order equal the incoming headers overridden by the five security headers |
| Middleware.AddSecurityHeaders | vidyasetu-ai/src/middleware.js:7-25 | the forwarded list is a fresh copy: the incoming headers with the five security headers set |
| Middleware.SecurityHeadersSet | vidyasetu-ai/src/middleware.js:7-31 | the five names carry their fixed values, every other header is as it came, and no other header is added |
| Middleware.SecurityHeadersKeepLowerKeys | vidyasetu-ai/src/middleware.js:7-25 | the forwarded names stay in lower-case stored form |
| Middleware.SecurityHeadersIdempotent | vidyasetu-ai/src/middleware.js:10-25 | setting the headers twice is setting them once |
| Middleware.Matched | vidyasetu-ai/src/middleware.js:60-62 | a path is matched exactly when it is `/dashboard`, `/profile` or `/settings` or lies below one of them; a matched path starts with `/` |
| Middleware.MatcherRespectsSegments | vidyasetu-ai/src/middleware.js:60-62 | `/settings` and `/settings/profile` are matched, `/settingsx` is not |
| Middleware.GateRequest | vidyasetu-ai/src/middleware.js:4-62 | a request passes untouched exactly when its path is not matched; a forwarded one is authorised and carries the incoming header names plus the five, with the five fixed values |
| Middleware.GateOutcome | vidyasetu-ai/src/middleware.js:40-62 | paths outside `/dashboard`, `/profile`, `/settings` and their subpaths pass untouched; a guarded path is forwarded with the headers exactly when authorised, else sent to sign in |
| SignupPage.Validate | vidyasetu-ai/src/app/signup/page.jsx:62-102 | the form passes exactly when all four values are non-empty, the name has two characters, the email matches the pattern, the password has 8 characters and is strong, and it equals the confirmation |
| SignupPage.FirstFailureReported | vidyasetu-ai/src/app/signup/page.jsx:65-99 | each refusal is reported exactly when the earlier checks pass and its own fails, in the order required, name, email, length, strength, match; the mismatch is reported exactly when all other checks pass and the confirmation differs |
| SignupPage.ClientPasswordPassesServer | vidyasetu-ai/src/app/signup/page.jsx:86-94 | a password the form accepts is strong, and the server never answers it with the weak-password 400 |
| SignupPage.ClientHasNoEmailCap | vidyasetu-ai/src/app/signup/page.jsx:75-79 | the form still passes with any well-formed email over 254 characters, which the server's check refuses |
| SignupPage.BlankNamePassesClientOnly | vidyasetu-ai/src/app/signup/page.jsx:65-73 | a name of two or more white-space characters passes the form's name checks, while the server answers it with the short-name 400 |
| SignupPage.ChangeTouchesOnlyNamedValue | vidyasetu-ai/src/app/signup/page.jsx:54-60 | after a change only the value under the input's name differs |
| SignupPage.SnapshotAfterChange | vidyasetu-ai/src/app/signup/page.jsx:54-60 | typing into one of the four inputs changes only that value of what the form checks; other names change none |
| SignupPage.SignupForm.constructor | vidyasetu-ai/src/app/signup/page.jsx:21-28 | the form starts with four empty values and no message |
| SignupPage.SignupForm.HandleChange | vidyasetu-ai/src/app/signup/page.jsx:54-60 | the state becomes the old state with the input's value under its name; the message is kept |
| SignupPage.SignupForm.ValidateForm | vidyasetu-ai/src/app/signup/page.jsx:62-102 | the answer is `Validate`'s; on refusal the message is that of the first failed check, otherwise the message is kept |

## Left out

- Network, HTTP and framework plumbing is not modelled. This covers:
  - `NextResponse`, `req.json()`, header reads and `console.error`;
  - the `Pool`, `connect` and `release` calls;
  - the SQL text.

  Outside calls appear only as a `Fault` value and the function parameter `hash`.
- The client IP is an input. Reading it from `x-forwarded-for` or `x-real-ip`, with `unknown` as the fallback, is header lookup.
- `Date.now()` is the parameter `now`. Clocks are outside the model.
- The rate-limit map and the database are used one call at a time. Concurrent requests and races between the lookup and the insert are not modelled.
- The row's `id` and `created_at` are not modelled; no check reads them. The storage layer's unique constraint is not part of this model.
- `bcrypt.hash` is an uninterpreted function of the password and the cost. The model cannot say that it throws for a non-string, so a non-string password that passes the pattern gives 500 directly.
- The database's `LOWER` is taken to agree with the ASCII `toLowerCase` of the model. Non-ASCII case mapping is left out.
- Security.SanitizeInput, SignupRoute.SanitizeInput, SignupRoute.NormalEmail and the other string functions treat a character as one UTF-16 code unit. Their case mapping covers ASCII letters only.
- Security.IsSafeRedirectUrl takes a string. A non-string argument is left out: a falsy one is refused, and a truthy one makes `startsWith` throw.
- SignupRoute.UserStore keeps stored emails distinct up to case as its invariant. That holds for the rows this endpoint inserts. The sign-in adapter that writes the same table is not part of this model, and its lookups compare case-sensitively, so the program as a whole does not guarantee the invariant.
- Middleware.AddSecurityHeaders models `Headers` as one value per lower-cased name. Header value normalisation and multiple values per name are left out.
- `withAuth` itself is left out: token decoding, the sign-in redirect and how Next.js applies `config.matcher`. Only the `authorized` callback, the header function and the path set are modelled.
- The rest of `page.jsx` is not modelled:
  - the `fetch` in `handleSubmit`;
  - loading flags and timers;
  - redirects on an existing session;
  - rendering.
- `getPasswordStrengthFeedback` and `simpleHash` take strings. Their behaviour on other values, a `TypeError` or `String()` of the value, is left out.

# Session and CSRF handling of the GruPI front end, in Dafny

This project models the two pieces of logic in the GruPI single-page front
end that do more than wire views together.

- **The HTTP client's anti-forgery handling** (`src/services/api.ts`):
  - `getCookie` reads one cookie out of `document.cookie`.
  - The request interceptor copies the `csrftoken` cookie into the
    `X-CSRFToken` header of POST, PUT, PATCH and DELETE requests.
  - `ensureCsrfToken` requests `/csrf/`, `/api/v1/` and `/api/v1/auth/user/`
    in turn until one succeeds, so that the backend sets that cookie.
- **The session store** (`src/stores/auth.store.ts`): the Pinia store that
  holds `user`, `isAuthenticated` and `status`. It has four actions,
  `login`, `fetchUser`, `logout` and `requestPasswordReset`; the last
  changes no field.

Files:

- `wrappers.dfy`: `Option`.
- `http.dfy`: how requests and `async` functions settle (`Response`,
  `Completion`, `ApiError`).
- `js_string.dfy`: the JavaScript string built-ins that `getCookie` uses
  (`split`, `trim`, `substring`) and the `toUpperCase` the interceptor
  uses, with their properties.
- `api.dfy`: `getCookie`, as an imperative method with a loop and as the
  function `LookupCookie` that specifies it. It also holds the interceptor's
  decision and the interceptor itself, which updates a `RequestConfig`
  object in place, and `ensureCsrfToken`.
- `auth_store.dfy`: each action as a transition on `AuthState` values, runs
  of actions, and the class `Store`. The methods of `Store` assign the fields
  step by step and are proved to follow those transitions.

Inputs stand in for the browser and the backend:

- The cookie string `document.cookie` is a parameter.
- `decodeURIComponent` is a parameter of type `string -> DecodeResult`. It
  either decodes or throws a URIError.
- Whether each probe request succeeds is a parameter `Probe -> bool`.
- The settled result of each request a store action awaits is a parameter
  (`Response<T>`: `Ok(data)` or `Err(error)`). A request that the
  interceptor rejected is an `Err` there.

Asynchrony in the store:

- Each action runs to completion.
- The ghost field `Store.Suspended` records the state that other code can
  see at each `await`. This is how the model states that `login` shows
  `loading` while its POST is in flight.

Behaviour of the code worth knowing:

- The store's actions never call `ensureCsrfToken`. The store's requests
  reach the token only through the request interceptor.
- `logout` does not swallow a failed POST. It resets the state in `finally`
  and the rejection still reaches the caller.
- No navigation guard exists. The router is created without `beforeEach`.
- A successful login whose user fetch fails ends in `success` with no
  session. `SuccessWithoutSession` exhibits this.
- `ensureCsrfToken` is best-effort only after its first cookie lookup. That
  lookup is outside the `try`, so a malformed percent-escape in the
  `csrftoken` cookie makes the call reject with a URIError.
- The raw cookie value after `name=` never contains `;`. The value after
  `decodeURIComponent` can contain one (from `%3B`).
- `getCookie` can return the empty string (for `csrftoken=`). The
  interceptor treats that like a missing token, and so does
  `ensureCsrfToken`.

## Model

| member | source | states |
|---|---|---|
| `JsString.FindSep` | src/services/api.ts:25 | the position `split` cuts at holds the separator, or is the end of the string when there is none |
| `JsString.FindSepFirst` | src/services/api.ts:25 | no separator occurs before that position, so `split` cuts at the first one |
| `JsString.IsWhitespace` | src/services/api.ts:28 | the characters `trim` removes; none of them is `;`, `=` or a printable ASCII character, so cookie names and separators are never trimmed |
| `JsString.Split` | src/services/api.ts:25 | `split(';')` always yields at least one segment (`"".split(';')` is `[""]`) |
| `JsString.SplitPiecesLackSeparator` | src/services/api.ts:25 | no segment contains the separator |
| `JsString.JoinSplit` | src/services/api.ts:25 | joining the segments with the separator gives back the cookie string: splitting loses nothing |
| `JsString.SplitAround` | src/services/api.ts:25 | a separator between two strings splits them independently: the segments of `a;b` are those of `a` followed by those of `b` |
| `JsString.SplitWithoutSeparator` | src/services/api.ts:25 | a string without the separator is one segment |
| `JsString.SplitLastPiece` | src/services/api.ts:25 | `a;b` with no separator in `b` has the segments of `a` and then `b` |
| `JsString.TrimStart` | src/services/api.ts:28 | the result is no longer than the input, does not start with whitespace, and is the input itself when that does not start with whitespace |
| `JsString.TrimEnd` | src/services/api.ts:28 | the result does not end with whitespace, keeps the input's first character, and is the input itself when that does not end with whitespace |
| `JsString.Trim` | src/services/api.ts:28 | `trim()` neither starts nor ends with whitespace, and leaves unchanged a segment that has that shape already |
| `JsString.TrimStartRemovesOnlyWhitespace` | src/services/api.ts:28 | the start-trimmed string is a suffix of the input, and everything cut off is whitespace |
| `JsString.TrimEndRemovesOnlyWhitespace` | src/services/api.ts:28 | the end-trimmed string is a prefix of the input, and everything cut off is whitespace |
| `JsString.TrimRemovesOnlyWhitespace` | src/services/api.ts:28 | the trimmed segment is a slice `s[i..j]` of the input with only whitespace before `i` and from `j` on |
| `JsString.TrimStartKeepsCharacters` | src/services/api.ts:28 | every character of the start-trimmed string occurs in the input |
| `JsString.TrimEndKeepsCharacters` | src/services/api.ts:28 | every character of the end-trimmed string occurs in the input |
| `JsString.TrimKeepsCharacters` | src/services/api.ts:28 | every character of a trimmed segment occurs in the segment |
| `JsString.TrimLeadingWhitespace` | src/services/api.ts:28 | a leading space (the one after `;` in `document.cookie`) does not change the trimmed segment |
| `JsString.Take` | src/services/api.ts:30 | `substring(0, n)` is the prefix of length `n`, or the whole string when it is shorter |
| `JsString.Drop` | src/services/api.ts:31 | `substring(n)` is what follows `substring(0, n)`: the two put back together give the string |
| `JsString.UpperChar` | src/services/api.ts:62 | an ASCII lower-case letter becomes its upper-case letter, every other character stays, and the result is never a lower-case ASCII letter |
| `JsString.ToUpperCase` | src/services/api.ts:62 | `toUpperCase()` keeps the length, leaves no lower-case ASCII letter and keeps every character that is not one |
| `Api.HasToken` | src/services/api.ts:70 | the truthiness test on `getCookie`'s result (also at line 108): null and the empty string are falsy, a non-empty string is truthy |
| `Api.StartsWithName` | src/services/api.ts:30 | a segment that passes the test is longer than the name and has `=` right after it |
| `Api.FirstMatch` | src/services/api.ts:27-35 | a value found is the text after `name=` in some trimmed segment that starts with `name=` |
| `Api.LookupCookie` | src/services/api.ts:21-41 | `getCookie` returns null exactly when no segment matches; otherwise it returns the decoding of the matched raw value, or throws when that decoding throws |
| `Api.GetCookie` | src/services/api.ts:21-41 | the loop over the trimmed segments, with `break` at the first match, returns exactly `LookupCookie`: the decoding of the first matching segment, null when none matches, a throw when that decoding throws |
| `Api.ExactNamePrefix` | src/services/api.ts:30 | a segment matches exactly when it is longer than the name, starts with the name and has `=` right after it |
| `Api.SimilarNamesDoNotMatch` | src/services/api.ts:30 | `xcsrftoken=…` and `csrftoken2=…` never match `csrftoken` |
| `Api.FirstMatchNone` | src/services/api.ts:27-35 | the search finds nothing exactly when no trimmed segment starts with `name=` |
| `Api.FirstMatchAt` | src/services/api.ts:27-34 | when segment k is the first that matches, the result is the text after `name=` in that trimmed segment |
| `Api.FirstMatchAppend` | src/services/api.ts:30-33 | segments after the first match are never consulted |
| `Api.RawValueHasNoSemicolon` | src/services/api.ts:25-31 | the raw value taken after `name=` never contains `;` |
| `Api.EmptyGuardRedundant` | src/services/api.ts:24-25 | the empty-string test gives the same answer as the loop would: an empty cookie string yields null |
| `Api.LookupNotFound` | src/services/api.ts:22-40 | `getCookie` returns null if and only if no trimmed segment starts with `name=`, the empty cookie string included |
| `Api.LookupFirstMatch` | src/services/api.ts:27-34 | `getCookie` returns the decoding of the first matching segment's remainder, or throws when decoding it throws |
| `Api.LaterSegmentsIgnored` | src/services/api.ts:30-33 | appending `;more` after a matching segment does not change `getCookie`'s result: a later cookie of the same name is ignored |
| `Api.LookupRawValue` | src/services/api.ts:25-31 | the text handed to `decodeURIComponent` never contains `;` |
| `Api.PairSegment` | src/services/api.ts:28-31 | a pair `name=v` whose ends are not whitespace is its own trimmed segment, matches `name` and has raw value `v` |
| `Api.CookiePairRoundTrip` | src/services/api.ts:21-41 | a cookie string that is exactly `name=v` gives, for `name`, the decoding of `v`, with any `=` in `v` kept |
| `Api.SpacedPairSegment` | src/services/api.ts:28-31 | the segment ` name=v` (after `; `) matches with raw value `v` |
| `Api.CookieAfterOthers` | src/services/api.ts:21-41 | in `others; name=v`, with no `name` among the others, `getCookie(name)` yields the decoding of `v` |
| `Api.CsrfHeaderDecision` | src/services/api.ts:61-80 | the header is set if and only if the upper-cased method is POST, PUT, PATCH or DELETE and the token is non-empty, and then to that token. The request fails if and only if the method is unsafe and the lookup throws. A missing method leaves the headers alone |
| `Api.NormalizedMethod` | src/services/api.ts:62 | a missing method becomes the empty string; a present one keeps its length and has no lower-case ASCII letter left |
| `Api.IsUnsafeMethod` | src/services/api.ts:66 | only names of upper-case letters, at least three long, are in the list, so lower-case spellings match only after upper-casing |
| `Api.MethodCase` | src/services/api.ts:62-66 | lower-case `post`, `put`, `patch` and `delete` are unsafe; `get`, `head`, `options` and a missing method are safe |
| `Api.RequestInterceptor` | src/services/api.ts:61-80 | sets `X-CSRFToken` in the config's headers exactly as `CsrfHeaderDecision` says, changes nothing else, and rejects only when the lookup throws |
| `Api.ProbesStopAtFirstSuccess` | src/services/api.ts:114-129 | probes are tried in the given order, every probe but the last failed, the sequence stops early only at a success, and all are tried when all fail |
| `Api.ProbesUntilSuccess` | src/services/api.ts:114-129 | no more probes than the order holds, and when the order is non-empty the first probe is always requested |
| `Api.ProbedPaths` | src/services/api.ts:114-129 | the requests go to `/csrf/`, `/api/v1/` and `/api/v1/auth/user/` in that order, one to three of them |
| `Api.EnsureCsrfToken` | src/services/api.ts:105-162 | no probe when the token exists; otherwise `/csrf/`, `/api/v1/` and `/api/v1/auth/user/` are tried in that order up to the first success. Failures of the probes never reject; only a throwing first lookup does |
| `AuthStore.FetchUserStep` | src/stores/auth.store.ts:51-61 | on success `user` is the response and `isAuthenticated` is true; on failure both are cleared; `status` is untouched and the state stays consistent |
| `AuthStore.LoginPending` | src/stores/auth.store.ts:35 | while the POST is in flight the status is `loading` and the user fields are as before |
| `AuthStore.LoginStep` | src/stores/auth.store.ts:34-50 | a failed POST gives `error` with no user and rejects with that error. A successful POST gives `success` and resolves, and the session then exists if and only if the user fetch succeeded |
| `AuthStore.LogoutStep` | src/stores/auth.store.ts:62-69 | the state becomes the initial state whatever the POST did, and the call rejects if and only if the POST failed, with its error |
| `AuthStore.PasswordResetStep` | src/stores/auth.store.ts:70-77 | no field changes, and the call rejects if and only if the POST failed, with its error |
| `AuthStore.StepKeepsAtRest` | src/stores/auth.store.ts:33-78 | every action takes a consistent, not-loading state to a consistent, not-loading state |
| `AuthStore.RunKeepsAtRest` | src/stores/auth.store.ts:33-78 | any sequence of actions keeps the state consistent and not `loading` |
| `AuthStore.ReachableStatesAtRest` | src/stores/auth.store.ts:27-78 | from the initial state, after any actions with any backend answers, `isAuthenticated` holds if and only if a user is loaded, and the status is idle, success or error |
| `AuthStore.LogoutAfterAnything` | src/stores/auth.store.ts:62-69 | whatever ran before, a logout leaves the initial state |
| `AuthStore.SuccessWithoutSession` | src/stores/auth.store.ts:38-41 | a login whose POST succeeds and whose user fetch fails ends in `success` with no user and `isAuthenticated` false |
| `AuthStore.Store.constructor` | src/stores/auth.store.ts:27-31 | the store starts with no user, not authenticated, status `idle` |
| `AuthStore.Store.Reset` | src/stores/auth.store.ts:67 | `$reset()` restores the initial state and keeps the store's consistency |
| `AuthStore.Store.FetchUser` | src/stores/auth.store.ts:51-61 | the fields end as `FetchUserStep` says; the state seen during the GET is the old one; consistency is kept |
| `AuthStore.Store.Login` | src/stores/auth.store.ts:34-50 | the fields and the settled promise are as `LoginStep` says; `loading` is what other code sees during the POST, and during the user fetch when the POST succeeded |
| `AuthStore.Store.Logout` | src/stores/auth.store.ts:62-69 | the fields and the settled promise are as `LogoutStep` says: reset in `finally`, a failure re-thrown |
| `AuthStore.Store.RequestPasswordReset` | src/stores/auth.store.ts:70-77 | no field changes, and a failure is re-thrown |

## Left out

- The axios client objects, the response interceptor and all `console` logging (src/services/api.ts:14-19, 43-57, 87-102). They are library set-up and diagnostics.
- Environment configuration through `getEnvVar` and `parseInt` (src/services/api.ts:4-12). It is environment input and does not affect the logic modelled.
- The interceptor's error handler (src/services/api.ts:81-84). It passes an error on unchanged.
- In `ensureCsrfToken`, the 200 ms wait, the second cookie lookup, the response-header fallback and the `document.cookie` write (src/services/api.ts:131-155). The second lookup only chooses what to log and whether to try that write. Any throw there is caught. The write depends on browser cookie policy.
- Api.CsrfHeaderDecision: `toUpperCase` is modelled on ASCII letters only. Unicode mappings such as U+017F to `S` or U+0131 to `I` are not modelled. axios hands the interceptor lower-case ASCII method names.
- Api.RequestInterceptor: header names are compared exactly. AxiosHeaders' case-insensitive matching of an existing `x-csrftoken` entry is not modelled.
- `decodeURIComponent` is a parameter, not an implementation of percent-decoding and UTF-8.
- AuthStore.FetchUserStep: the 2xx answer of `GET /auth/user/` is taken to be a `User`, as the declared type of `apiClient.get<User>` says. A body such as JSON `null` would be stored as a null user while `isAuthenticated` becomes true; the model does not cover that, and `ReachableStatesAtRest` relies on it.
- The credentials and payloads passed to `login` and `requestPasswordReset` only reach the backend. The model keeps the backend's answer, not the payload.
- Interleaving of store actions that run at the same time is not modelled. Each action runs to its end. `Suspended` records only what other code could observe at each `await`.
- src/main.ts, vite.config.ts and src/router/index.ts hold app mounting, theme, build and route configuration, with no navigation guard. src/types/user.types.ts holds only type declarations; its `User` and `Profile` shapes are reused as datatypes.
- Registration, one-time-passcode and reference-list actions do not occur in the store's code and are not part of this model.

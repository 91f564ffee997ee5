# web-club mock backend and phone field, in Dafny

This project models the core of the web-club application: its in-memory mock
API backend, the request middleware, and two pieces of client logic.

The backend is a set of Next.js route handlers sharing one JSON datastore. They
cover:

- **Sign-in by one-time code.** `POST /auth/otp/request` records a code;
  `POST /auth/otp/verify` consumes it, finds or creates the user, and issues an
  access/refresh token pair.
- **Registration, token rotation and logout.** `POST /auth/register`,
  `POST /auth/refresh` and `POST /auth/logout`.
- **The caller's own data.**
  - `GET` and `PATCH /me`;
  - the caller's clubs (`GET /clubs`) and club creation (`POST /clubs`);
  - club search (`GET /me/clubs/search`);
  - notifications (`GET` and `POST /me/notifications`);
  - applications (`GET /me/applications`).
- **Image upload.** The checks `POST /upload` makes.

Every authenticated handler finds its caller through `getUserFromToken`. That
function parses a three-segment JWT, checks its `exp` claim, and requires an
unrevoked row holding the token in the token table. The middleware rate-limits
API paths per client address and path: 60 requests per 60 000 ms window. The
client side contributes two pieces:

- the phone field, which parses an E.164 value against a table of twelve
  country codes, keeps only the digits typed (cut to the country's maximum
  length), and emits the joined value;
- the navigation bar's active-link test and avatar initials.

## How the model is built

- **Handlers are functions over the store.** Each handler that changes the
  store is a pure function `...Step` from the store (a `Db` value), the request
  and the time to a `Step(resp, after)`: the response and the store it leaves.
- **The mutable store mirrors the source.** `Store.Database` is a class whose
  sequence fields are the store's collections. Each state-changing handler is
  also a method that updates that object in place, as the route does. The
  method's `ensures` ties it to the `...Step` function.
- **Read-only handlers** are functions to a `Response`.
- **The middleware limiter** is the class `Middleware.RateLimiter`, with its
  map as a field.
- **Time and randomness are parameters.** Time is one integer of milliseconds
  per request. Random values are parameters too: the OTP code, `uuid()` values
  and the upload's random UUID.
- **JWT encoding is abstract.** Base64url, JSON and the HMAC signature are the
  three functions of a `Tokens.Codec`. The model assumes only `ValidCodec`
  about them: encoded segments contain no '.', and decoding undoes encoding.

Where the code and the design description disagree, the model follows the code:

- `getUserFromToken` accepts a token of either type, so a refresh token
  authenticates API calls as well as an access token does.
- Refresh rotation does not always invalidate the old token. Tokens are
  deterministic in (subject, type, second), so a refresh within the same second
  as the old token's minting reissues the very same string, and the old token
  keeps working (`Refresh.SameSecondReplay`).
- The verify handler accepts any code string, not only six digits.

## Model

| member | source | states |
|---|---|---|
| Store.OrUndefined | src/app/api/v1/auth/register/route.ts:30-36 | `x \|\| undefined` on a body field: present exactly when the field is a non-empty string, and then unchanged |
| Store.Database.constructor | src/app/api/_store/db.ts:109-118 | a fresh store is `EMPTY_DB`: every collection empty, notifications absent |
| Store.Database.AddAuditLog | src/app/api/_store/db.ts:190-196 | appends exactly one entry, stamped with the given id and time, after all earlier entries; nothing else in the store changes |
| Tokens.MintClaims | src/app/api/_store/db.ts:149-156 | the signed claims carry the subject and type; `iat` is the time in whole seconds; `exp` is the type's lifetime (900 s or 2 592 000 s) after `iat`; the expiry in ms is within one second before `now` plus the lifetime |
| Tokens.ParsedHasThreeSegments | src/app/api/_store/db.ts:158-166 | a token that parses has exactly two '.' separators |
| Tokens.ParseMakeJwt | src/app/api/_store/db.ts:149-166 | round trip: parsing a token makeJwt produced gives back exactly the claims it signed |
| Tokens.UserIndexIs | src/app/api/_store/db.ts:179 | the first user holding an id is the one the lookup finds |
| Tokens.GetUserFromToken | src/app/api/_store/db.ts:168-180 | a caller found is a stored user, and is the first user with its id |
| Tokens.CallerExactly | src/app/api/_store/db.ts:168-180 | a caller is found iff all of these hold: the header is `Bearer <t>`; t parses; t has not expired (`exp*1000 == now` still accepted); some unrevoked row of either type holds t; the user is the first with the subject's id |
| Tokens.MintedTokenAuthenticates | src/app/api/_store/db.ts:149-180 | a minted token with an unrevoked row authenticates its user from minting until its `exp`, whatever its type |
| Tokens.MintedTokenExpires | src/app/api/_store/db.ts:150-151 | once more than the lifetime has passed since minting, the token authenticates nobody |
| Tokens.IssuedRows | src/app/api/v1/auth/otp/verify/route.ts:51-54 | the two rows a login or refresh appends: access then refresh, for the user, unrevoked, created now, expiring 900 000 ms and 2 592 000 000 ms later |
| OtpRequest.WaitSecondsBounds | src/app/api/v1/auth/otp/request/route.ts:17 | for a code 0 to 30 000 ms old, the reported wait is 1 to 30 whole seconds |
| OtpRequest.RequestOutcome | src/app/api/v1/auth/otp/request/route.ts:8-34 | succeeds iff a phone is given and no unused code for it is younger than 30 s; then appends exactly one unused code stamped now; a refusal is a 400 that leaves the store unchanged |
| OtpRequest.RateLimitedWait | src/app/api/v1/auth/otp/request/route.ts:15-19 | provided no stored code is dated after `now`, a request refused for a recent code names a wait between 1 and 30 seconds |
| OtpRequest.RequestOtp | src/app/api/v1/auth/otp/request/route.ts:4-35 | the in-place handler leaves the response and store that `RequestStep` describes |
| OtpVerify.FindOrCreate | src/app/api/v1/auth/otp/verify/route.ts:36-45 | the returned user has the phone and is in the new list; existing users are kept; a user is appended iff none has the phone |
| OtpVerify.VerifyFailures | src/app/api/v1/auth/otp/verify/route.ts:19-30 | without a usable code: 401 and no change; the reason is chosen in order (expired unused, then used, then none) |
| OtpVerify.VerifySuccess | src/app/api/v1/auth/otp/verify/route.ts:8-68 | login succeeds iff phone and code are given and some stored code is usable. On success: the first usable code, and only it, is marked used; the user is found or appended; two new token rows are appended; the response carries that user and the two tokens |
| OtpVerify.CodeIsSingleUse | src/app/api/v1/auth/otp/verify/route.ts:15-33 | after a successful login the consumed code is no longer usable; when it was the only stored code matching that phone and code, a later retry with them fails with "Code already used" |
| OtpVerify.VerifyKeepsUsersUnique | src/app/api/v1/auth/otp/verify/route.ts:36-45 | login keeps phones, ids (given a fresh id) and non-empty emails unique |
| OtpVerify.VerifyKeepsRevocation | src/app/api/v1/auth/otp/verify/route.ts:51-54 | existing token rows stay as they were; revocations stay in force |
| OtpVerify.VerifyOtp | src/app/api/v1/auth/otp/verify/route.ts:4-69 | the in-place handler leaves the response and store that `VerifyStep` describes |
| Register.E164Examples | src/app/api/v1/auth/register/route.ts:11 | the pattern accepts "+66812345678" and "+1234567890"; it rejects a missing '+', a leading 0, too few digits and "" |
| Register.RegisterRefusals | src/app/api/v1/auth/register/route.ts:8-25 | the refusals in the handler's order, each with its status and message, each leaving the store unchanged: no phone, not E.164, phone taken, non-empty email taken |
| Register.RegisterSuccess | src/app/api/v1/auth/register/route.ts:8-45 | succeeds iff all checks pass (including gender male/female when given); then appends exactly one user, answers 201 with its profile, and changes nothing else |
| Register.RegisteredFields | src/app/api/v1/auth/register/route.ts:27-39 | the stored user has the given id and phone; absent or empty optional fields are stored absent; language defaults to "en" |
| Register.RegisterKeepsUsersUnique | src/app/api/v1/auth/register/route.ts:17-41 | registration keeps phones, non-empty emails and (given a fresh id) ids unique |
| Register.RegisterUser | src/app/api/v1/auth/register/route.ts:4-46 | the in-place handler leaves the response and store that `RegisterStep` describes |
| Refresh.RefreshRefusals | src/app/api/v1/auth/refresh/route.ts:5-17 | every refusal is a 401 leaving the store unchanged, with the reason in the order checked: no Bearer, unparseable, no unrevoked refresh row |
| Refresh.RefreshRotates | src/app/api/v1/auth/refresh/route.ts:4-32 | succeeds iff the token parses and the first unrevoked refresh row holding it has not expired. Then that first row alone is revoked (later rows holding the same token stay unrevoked); a new access/refresh pair for the subject is appended and returned; nothing else changes |
| Refresh.IssuedRowsTyped | src/app/api/v1/auth/refresh/route.ts:23-29 | each freshly issued row holds a token whose claims name the row's own type |
| Refresh.RefreshKeepsRowsTyped | src/app/api/v1/auth/refresh/route.ts:20-29 | refresh preserves the invariant that every row's token claims its row's type |
| Refresh.AccessTokenNeverRefreshes | src/app/api/v1/auth/refresh/route.ts:15-16 | when rows are typed, an access token is refused with 401 "Refresh token has been revoked" and nothing changes |
| Refresh.RefreshKeepsRevocation | src/app/api/v1/auth/refresh/route.ts:20-29 | existing rows stay in place; the only change to any is becoming revoked |
| Refresh.SecondRefreshFails | src/app/api/v1/auth/refresh/route.ts:15-20 | if the consumed row was the only one holding the old token and the new token differs from it, replaying the old token later fails with 401 |
| Refresh.SameSecondReplay | src/app/api/v1/auth/refresh/route.ts:15-24 | a refresh token minted in the same second as the refresh still refreshes after a successful refresh |
| Refresh.RefreshTokens | src/app/api/v1/auth/refresh/route.ts:4-33 | the in-place handler leaves the response and store that `RefreshStep` describes |
| Logout.RevokeAllFor | src/app/api/v1/auth/logout/route.ts:16-18 | same length; every row of the user becomes revoked; every other row is unchanged |
| Logout.LogoutOutcome | src/app/api/v1/auth/logout/route.ts:4-21 | 401 without Bearer, 401 when unparseable, success otherwise whatever the table holds; only the token table changes |
| Logout.LogoutRevokesSubject | src/app/api/v1/auth/logout/route.ts:16-18 | after logout every row of the token's subject is revoked; other users' rows are unchanged; no revocation is undone |
| Logout.RevokeAllForIdempotent | src/app/api/v1/auth/logout/route.ts:16-18 | revoking twice is revoking once |
| Logout.LogoutIdempotent | src/app/api/v1/auth/logout/route.ts:4-21 | logging out twice leaves the same store as once |
| Logout.LogoutEndsSessions | src/app/api/v1/auth/logout/route.ts:16-18 | after logout, a token held only by rows of the subject authenticates nobody |
| Logout.CallerExactlyNone | src/app/api/_store/db.ts:176-177 | a token without an unrevoked row authenticates nobody |
| Logout.RevokeRows | src/app/api/v1/auth/logout/route.ts:16-18 | the loop over the rows computes exactly `RevokeAllFor` |
| Logout.LogoutUser | src/app/api/v1/auth/logout/route.ts:4-22 | the in-place handler leaves the response and store that `LogoutStep` describes |
| Me.GetMeOutcome | src/app/api/v1/me/route.ts:4-10 | 401 exactly without a caller; otherwise 200 with the profile (the record minus its creation time) of the stored caller |
| Me.PatchRefusals | src/app/api/v1/me/route.ts:12-25 | 401 without a caller; "User not found" (404) is never answered; 409 iff a non-empty email differs from the caller's and another user holds it; refusals change nothing |
| Me.PatchUpdatesCaller | src/app/api/v1/me/route.ts:18-36 | only the caller's row changes: the five given fields are written, the absent ones and all other fields are kept; the response is the updated profile |
| Me.PatchEmptyEmail | src/app/api/v1/me/route.ts:23-30 | an empty email skips the conflict check and is stored as given |
| Me.ApplyIdempotent | src/app/api/v1/me/route.ts:27-31 | applying the same body twice is applying it once |
| Me.PatchIdempotent | src/app/api/v1/me/route.ts:12-37 | repeating a successful PATCH succeeds with the same answer and leaves the store as the first did |
| Me.PatchKeepsUsersUnique | src/app/api/v1/me/route.ts:23-31 | PATCH keeps phones, ids and non-empty emails unique |
| Me.PatchMe | src/app/api/v1/me/route.ts:12-37 | the in-place handler leaves the response and store that `PatchMeStep` describes |
| Clubs.MyClubIds | src/app/api/v1/clubs/route.ts:9-11 | an id is listed iff some non-REMOVED membership of the user names it |
| Clubs.MyClubsExactly | src/app/api/v1/clubs/route.ts:4-15 | 401 without a caller; otherwise, in store order and each as often as stored, exactly the clubs a live membership of the caller names |
| Clubs.CreateClubOutcome | src/app/api/v1/clubs/route.ts:17-58 | 401 without a caller; 400 iff the name is absent or all whitespace, changing nothing; otherwise appends one club and one membership for the caller and answers 201 with the club |
| Clubs.NewClubDefaults | src/app/api/v1/clubs/route.ts:27-40 | the stored club's defaults: type CASUAL, join mode APPLY_TO_JOIN, levels empty, accepting unless false, limit 0 stored as none, both times now |
| Clubs.NoAdminsWithoutMemberships | src/app/api/v1/clubs/route.ts:45-54 | a club that no membership names has no active admin |
| Clubs.NewClubHasOneAdmin | src/app/api/v1/clubs/route.ts:45-54 | with a fresh id, the new club has exactly one ACTIVE ADMIN, and it is the caller |
| Clubs.CreatedClubIsListed | src/app/api/v1/clubs/route.ts:4-58 | after a successful POST, GET with the same header lists the new club |
| Clubs.CreateClub | src/app/api/v1/clubs/route.ts:17-58 | the in-place handler leaves the response and store that `CreateClubStep` describes |
| ClubSearch.SearchExactly | src/app/api/v1/me/clubs/search/route.ts:4-19 | 401 without a caller; otherwise, in store order and each as often as stored, exactly the clubs that pass the lower-cased text filter and that the caller belongs to or may apply to |
| ClubSearch.ClosedClubsHidden | src/app/api/v1/me/clubs/search/route.ts:13-16 | a club that is not APPLY_TO_JOIN, or is APPLY_TO_JOIN with `isAcceptingNewMembers` false, and in which the caller has no live membership, is never returned |
| ClubSearch.NameQueryIgnoresCase | src/app/api/v1/me/clubs/search/route.ts:8-12 | a query that starts the name, up to ASCII case, matches |
| ClubSearch.DragonExample | src/app/api/v1/me/clubs/search/route.ts:8-12 | "dragon" finds "Dragon Smash" |
| Notifications.Insert | src/app/api/v1/me/notifications/route.ts:11 | insertion keeps a list newest first and adds exactly the one element |
| Notifications.SortNewestFirst | src/app/api/v1/me/notifications/route.ts:11 | the comparator sort: the same notifications, each as often, newest first |
| Notifications.ListExactly | src/app/api/v1/me/notifications/route.ts:4-14 | 401 without a caller; otherwise exactly the caller's notifications, each as often as stored, newest first; an absent collection lists none |
| Notifications.MarkReadFor | src/app/api/v1/me/notifications/route.ts:22-24 | same length; the user's notifications become read; the others are unchanged |
| Notifications.MarkAllReadOutcome | src/app/api/v1/me/notifications/route.ts:17-28 | 401 and no change without a caller; otherwise all the caller's notifications are read, the others unchanged, an absent collection stays absent, and nothing else changes |
| Notifications.MarkReadForIdempotent | src/app/api/v1/me/notifications/route.ts:22-24 | marking twice is marking once |
| Notifications.MarkAllReadIdempotent | src/app/api/v1/me/notifications/route.ts:17-28 | POST twice leaves the store as POST once |
| Notifications.ListedAfterMarkAreRead | src/app/api/v1/me/notifications/route.ts:4-28 | after POST, GET lists only read notifications |
| Notifications.MarkAllRead | src/app/api/v1/me/notifications/route.ts:17-28 | the in-place handler leaves the response and store that `MarkAllReadStep` describes |
| Notifications.MarkRows | src/app/api/v1/me/notifications/route.ts:22-24 | the loop over the notifications computes exactly `MarkReadFor` |
| Applications.MyApplicationsExactly | src/app/api/v1/me/applications/route.ts:4-10 | 401 without a caller; otherwise, in store order and each as often as stored, exactly the caller's applications |
| Middleware.RateStepFacts | src/middleware.ts:8-17 | a new or elapsed window starts at count 1 and is not limited; inside a window the count rises by one and the call is limited iff it passes 60; other keys are unchanged |
| Middleware.Run | src/middleware.ts:8-17 | a run of calls yields one outcome per call |
| Middleware.RunInWindow | src/middleware.ts:8-17 | inside a window that has seen n calls, the k-th further call is limited iff n+k+1 > 60 |
| Middleware.FirstSixtyPass | src/middleware.ts:4-17 | from a fresh window, of calls within 60 000 ms the first 60 pass and every later one is limited |
| Middleware.RateLimiter.constructor | src/middleware.ts:4 | the limiter starts with an empty map |
| Middleware.RateLimiter.IsRateLimited | src/middleware.ts:8-17 | the in-place limiter returns and leaves what `RateStep` describes |
| Middleware.ClientAddress | src/middleware.ts:24 | the address is never empty; it is "unknown" or contains no ',' |
| Middleware.KeyOfFirstHop | src/middleware.ts:24-25 | for a header "a, ..." with a non-blank first entry, the key is that entry trimmed, ':' and the path |
| Middleware.MiddlewareOutcome | src/middleware.ts:19-31 | non-API paths pass and leave the map unchanged; an API request gets 429 iff its key is limited |
| Middleware.Handle | src/middleware.ts:19-31 | the in-place middleware returns and leaves what `MiddlewareStep` describes |
| Upload.ExtensionFacts | src/app/api/v1/upload/route.ts:34 | the extension has no '.' and is non-empty. It is "jpg" for an empty name or one ending in '.'. Otherwise it is the text after the last '.', or the whole dot-free name |
| Upload.UploadRefusals | src/app/api/v1/upload/route.ts:10-27 | the checks in order: 401 without a caller; 400 without a file; 400 iff the type is not one of the four; 400 iff an allowed type exceeds 5 242 880 bytes; success otherwise |
| Upload.UploadUrl | src/app/api/v1/upload/route.ts:34-42 | an accepted upload answers 201 with "/uploads/" + uuid + "." + extension |
| Upload.ExtensionOfPng | src/app/api/v1/upload/route.ts:34 | "photo.png" gives "png" |
| Upload.ExtensionOfTarGz | src/app/api/v1/upload/route.ts:34 | "archive.tar.gz" gives "gz" |
| Upload.ExtensionOfTrailingDot | src/app/api/v1/upload/route.ts:34 | "photo." gives "jpg" |
| Strings.Digits | src/components/phone-input.tsx:54 | exactly the digits of the input, each as often as there, in their order (a subsequence with the digit counts of the input); an all-digit string is unchanged; empty iff the input has no digit |
| Strings.Trim | src/middleware.ts:24 | the input with only leading and trailing whitespace removed: the result occurs at some position, with only whitespace before and after it; empty iff all whitespace; otherwise no whitespace at either end |
| Strings.Split | src/app/api/v1/upload/route.ts:34 | one piece more than separators; no piece contains the separator |
| Strings.LastPiece | src/app/api/v1/upload/route.ts:34 | the popped piece is the suffix after the last separator, or the whole string |
| Strings.ToLower | src/app/api/v1/me/clubs/search/route.ts:8 | same length; each of A-Z becomes the same letter in a-z; every other character is kept |
| PhoneInput.InsertByLengthFacts | src/components/phone-input.tsx:32 | inserting into a longest-code-first list keeps it ordered and adds exactly one row |
| PhoneInput.SortByCodeLengthFacts | src/components/phone-input.tsx:32 | the sorted table has the same rows, longest code first |
| PhoneInput.CountriesPrefixFree | src/components/phone-input.tsx:7-20 | no code of the table is a prefix of another |
| PhoneInput.CountriesNonEmpty | src/components/phone-input.tsx:7-20 | every code in the table is non-empty |
| PhoneInput.ParseWithFacts | src/components/phone-input.tsx:30-39 | over any table: the code is a table code or "+1"; "" gives ("+1",""); a match splits the value exactly; no match gives "+1" and the value minus one leading '+' |
| PhoneInput.ParseWithLongest | src/components/phone-input.tsx:32-36 | over a prefix-free table, a matching code is the one returned, and it is the longest match |
| PhoneInput.ParseE164Facts | src/components/phone-input.tsx:30-39 | the code returned is always one of the twelve; "" gives ("+1",""); a match splits the value exactly; otherwise "+1" and the value minus '+' |
| PhoneInput.ParseE164Longest | src/components/phone-input.tsx:32-36 | a table code that starts the value is the code returned, so it is the longest match |
| PhoneInput.ParseE164RoundTrip | src/components/phone-input.tsx:30-39 | a table code followed by any local part parses back to exactly that pair |
| PhoneInput.CountryOfFacts | src/components/phone-input.tsx:50 | a table code selects its own row; any other code falls back to "+1" |
| PhoneInput.PrefixFreeDistinct | src/components/phone-input.tsx:7-20 | no two rows of a prefix-free table share a code |
| PhoneInput.EmitValueFacts | src/components/phone-input.tsx:53-56 | the emitted value is "" iff the local number has no digit; otherwise the code followed by exactly those digits |
| PhoneInput.HandleLocalChangeFacts | src/components/phone-input.tsx:78-82 | typing keeps the code and the first digits, up to the country's maximum; the emitted value is the code plus those digits, or "" when there are none |
| PhoneInput.UsNumberTruncated | src/components/phone-input.tsx:78-79 | under "+1" at most the first ten digits are kept |
| PhoneInput.HandleSelectCountryFacts | src/components/phone-input.tsx:84-90 | picking a country keeps the local number and emits the new code with its digits, or "" |
| PhoneInput.ResyncAfterEmit | src/components/phone-input.tsx:59-64 | re-syncing from the value just emitted changes nothing when the code is a table code and the number is non-empty digits |
| PhoneInput.TypingIsStable | src/components/phone-input.tsx:59-82 | typing and then re-syncing from the emitted value leaves the state typing produced |
| PhoneInput.ResyncCleared | src/components/phone-input.tsx:59-64 | clearing the value from outside selects "+1" and leaves no digit in the local number |
| PhoneInput.InitFacts | src/components/phone-input.tsx:42-44 | the field starts on a table code, and on the exact code and local part of a value made from them |
| Navbar.IsActiveIff | src/components/navbar.tsx:43 | a link other than "/" is active iff it starts the path and the path ends there or continues with '/'; "/" is active only on "/" |
| Navbar.SiblingNotActive | src/components/navbar.tsx:43 | "/dashboardx" does not activate "/dashboard"; "/dashboard/clubs" does |
| Navbar.InitialsFacts | src/components/navbar.tsx:33-35 | "??" without a user; otherwise one upper-cased first letter per non-empty name, first then last; otherwise the last two characters of the phone |
| Navbar.UpperCharFacts | src/components/navbar.tsx:34 | upper-casing leaves no lower-case ASCII letter and changes nothing else |

## Left out

- File persistence (`readDb`, `writeDb`, `saveDb`) is not modelled. Each handler
  starts from the store it is given and its result is the store it leaves.
  Concurrent requests are not modelled.
- The random values become parameters: `uuid()`, `generateOtp()` and
  `crypto.randomUUID()`. Nothing is modelled about them; freshness of an id is
  a lemma hypothesis where needed.
- Base64url, JSON serialisation and the HMAC-SHA256 signature are abstract
  functions. Only round-tripping and dot-free segments are assumed about them.
- The signature is never checked by `parseJwt`, so the model does not check it
  either.
- JSON body fields are `Option<string>`. Numbers, booleans, arrays and `null`
  sent where a string is expected are not modelled. An OTP code sent as a
  number is therefore not modelled.
- A request body that is not JSON, is empty, or is the JSON `null` makes
  `await req.json()` or the destructuring after it throw, and the request ends
  in a 500. The model starts from the already-parsed body fields, so it does
  not model that outcome.
- Clubs' `location` is kept as an opaque value.
- ISO-string timestamps are integers (milliseconds).
- Case conversion (`toLowerCase`, `toUpperCase`) covers ASCII letters only.
- Navbar.InitialsFacts: `firstName?.[0]` takes the first UTF-16 code unit.
  A Dafny `char` is a whole Unicode scalar value, so for a name starting with a
  character outside the Basic Multilingual Plane, the model takes the whole
  character where the source takes half of a surrogate pair.
- Tokens.GetUserFromToken: `exp * 1000` on a non-number `exp` (NaN) is taken
  as never expired. This is how the comparison with NaN behaves.
- Notifications.SortNewestFirst: the sort's stability (the order among
  notifications with equal creation times) is not stated.
- PhoneInput.SortByCodeLengthFacts: stability is not stated. The table is
  prefix-free, so the order among codes of equal length does not change the
  result.
- Refresh.SecondRefreshFails assumes the new refresh token differs from the old
  one. `Refresh.SameSecondReplay` shows this fails when both are minted in the
  same second.
- Concrete `parseE164` examples are stated generically, through
  `ParseE164RoundTrip` and `IsTableCode`.
- The PATCH /me "User not found" branch is not modelled as a reachable outcome.
  A caller returned by `getUserFromToken` is always in the store, and
  `Me.PatchRefusals` proves 404 is never answered.
- The Content-Security-Policy header and the `config.matcher` are not
  modelled. The matcher is Next.js routing configuration.
- The console log of the OTP code is not modelled.
- Upload: creating the directory and writing the bytes to disk are not
  modelled. Neither is the 500 answer when reading the form or writing fails,
  since both are I/O.
- The phone field's display formatting functions, its country dropdown and
  search, and focus handling are not modelled. They are presentation only.
- The navigation bar's `user` is the `Profile` the API returns; routing and
  logout clicks are not modelled.

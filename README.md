# Cognito auth front end: a Dafny model of its decision logic

The application is a Next.js front end with server routes that forward calls to
AWS Cognito. This project models the parts of it that carry exact logic:

- **the JWT payload decoder** (`decodeJWT`, `extractUserInfo`). It takes the
  middle segment of a compact JWS, maps the base64url alphabet onto the
  standard one, and decodes it with `atob`. It then writes every byte as a
  `%xx` escape, reads the escapes back as UTF-8 with `decodeURIComponent`, and
  parses the JSON. Any failure gives `null`.
- **the session state machine** (`authReducer` and `AuthProvider`). A
  three-action reducer over `{user, isLoading, isAuthenticated}`, together with
  the `login`, `logout`, `setLoading` and `checkAuthStatus` steps. These steps
  keep the `authUser` entry of local storage in step with the state.
- **the role rules** (`useUserRoles`, `usePermissions`, `RoleGuard`,
  `useRoleCheck`). Membership predicates over the fetched group list, the
  group fetch that updates the hook's state, and the guard's four-condition
  decision.
- **three server routes**:
  - `admin-signup`: credential and body checks, the password policy, and the
    ordered create / set-password / add-to-group requests;
  - `signin`: SECRET_HASH, the InitiateAuth request, and challenge, result or
    unexpected-response shaping;
  - `list-groups`: the credential check, the group projection, and the 403/500
    classification.

Outside effects are parameters:

- the Cognito client is a function `send` from a `Cognito.Command` to a result
  or a thrown value, and each route returns the list of requests it sent;
- `JSON.parse` is a partial function;
- `Date.now()` is a natural number;
- `localStorage` is a `map` field;
- HMAC-SHA256 is an uninterpreted function on byte strings.

Modules, one per file:

- generic support: `Wrappers`, `Text` (JavaScript string built-ins), `Seqs`
  (`some`/`every`/`filter`), `Json`, `Exceptions`;
- the decoder: `Base64`, `Utf8`, `Uri`, `Jwt`;
- client state: `AuthContext`, `UserRoles`, `RoleGuard`;
- the routes: `Cognito`, `AdminSignup`, `Signin`, `ListGroups`.

Each operation is proved against an independent definition or an invariant:

- the base64 and UTF-8 decoders are proved inverse to RFC 4648 and RFC 3629
  encoders;
- the `%xx`/`decodeURIComponent` pipeline is proved equal to strict UTF-8
  decoding;
- the reducer keeps the invariant `isAuthenticated <==> user != null`;
- the provider methods keep state and storage in step;
- the routes' imperative bodies are proved against function specifications
  (`Plan`, `SendAll`, `SignedInUser`), and lemmas state the properties of
  those specifications.

## Model

| member | source | states |
|---|---|---|
| Text.Split | src/lib/jwt-utils.ts:5 | `split('.')` yields at least one part, no part contains the separator, and joining the parts gives the string back |
| Text.SplitJoin | src/lib/jwt-utils.ts:5 | splitting the join of separator-free parts gives the parts back |
| Text.SliceLast | src/app/api/auth/admin-signup/route.ts:7 | `slice(-n)` is the last n characters, or the whole string when it is shorter |
| Text.ContainsOccurs | src/app/api/auth/admin-signup/route.ts:108 | `includes` (`Text.Contains`) holds exactly when the phrase occurs at some index |
| Text.ToRadix | src/lib/jwt-utils.ts:10 | `toString(radix)` gives at least one digit, each below the radix, with no leading zero, and a single digit exactly below the radix |
| Text.ToRadixValue | src/lib/jwt-utils.ts:10 | reading the digits back gives the number |
| Text.DecimalLength | src/app/api/auth/admin-signup/route.ts:7 | a number has four or more decimal digits exactly from 1000 on |
| Text.LastFourDigits | src/app/api/auth/admin-signup/route.ts:7 | the last four decimal digits denote the number modulo 10000 |
| Seqs.Any | src/hooks/useUserRoles.ts:70 | `some` holds iff some element satisfies the predicate |
| Seqs.All | src/components/RoleGuard.tsx:37 | `every` holds iff every element satisfies the predicate |
| Seqs.Filter | src/hooks/useUserRoles.ts:78-79 | `filter` keeps every passing element and only elements of the input, and is no longer than the input |
| Seqs.FilterAppend | src/hooks/useUserRoles.ts:78-79 | `filter` keeps the original order: it distributes over concatenation |
| Seqs.FilterCount | src/hooks/useUserRoles.ts:78-79 | `filter` keeps each passing element as often as it occurs, and no failing one |
| Json.Get | src/lib/jwt-utils.ts:25-33 | property access is the field of an object, and undefined on null, booleans, numbers and arrays |
| Json.Or | src/lib/jwt-utils.ts:27-28 | `a \|\| b` is a when a is truthy, else b |
| Exceptions.MessageOr | src/app/api/auth/admin-signup/route.ts:104 | an Error's message, else the fallback text |
| Base64.UrlToStd | src/lib/jwt-utils.ts:6 | the alphabet map keeps the length, sends each '-' to '+' and each '_' to '/', keeps every other character, and leaves no '-' or '_' |
| Base64.ReplaceAllAt | src/lib/jwt-utils.ts:6 | `replace(/x/g, y)` replaces every x and nothing else |
| Base64.AtobRejectsForeignChar | src/lib/jwt-utils.ts:8 | `atob` (`Base64.Atob`) throws on a character outside the alphabet, '=' and whitespace |
| Base64.AtobRejectsLength | src/lib/jwt-utils.ts:8 | `atob` throws on a length of the form 4k+1 |
| Base64.DecodeGroups | src/lib/jwt-utils.ts:8 | a well-formed body of n characters yields 3n/4 bytes |
| Base64.EncodeUnpadded | src/lib/jwt-utils.ts:6-8 | the reference encoder: 4 characters per 3 bytes plus 2 or 3 for a short tail, never a 4k+1 length |
| Base64.Encode | src/app/api/auth/signin/route.ts:10 | `digest('base64')` is padded to a multiple of four characters |
| Base64.EncodeUnpaddedAlphabet | src/lib/jwt-utils.ts:5-8 | an encoding contains no '.', '=' or whitespace, and the standard one only alphabet characters |
| Base64.UrlToStdEncode | src/lib/jwt-utils.ts:6 | the alphabet map turns the base64url encoding into the standard encoding of the same bytes |
| Base64.DecodeGroupsEncode | src/lib/jwt-utils.ts:8 | decoding the groups of an encoding gives the bytes back |
| Base64.AtobEncodeUnpadded | src/lib/jwt-utils.ts:8 | `atob` inverts unpadded standard base64 |
| Base64.AtobEncode | src/lib/jwt-utils.ts:8 | `atob` (`Base64.Atob`) inverts padded standard base64 |
| Base64.EncodeInjective | src/app/api/auth/signin/route.ts:10 | equal padded encodings mean equal bytes |
| Base64.AtobUrl | src/lib/jwt-utils.ts:6-8 | the alphabet map followed by `atob` inverts base64url |
| Utf8.Encode | src/app/api/auth/signin/route.ts:9 | the UTF-8 bytes of a text are at least as many as its characters |
| Utf8.Decode | src/lib/jwt-utils.ts:7-12 | strict decoding yields at most one character per byte |
| Utf8.EncodeChar | src/lib/jwt-utils.ts:7-12 | a character is written as one to four octets |
| Utf8.DecodeEncodeChar | src/lib/jwt-utils.ts:7-12 | the octets of one character announce their length and decode to it |
| Utf8.DecodeEncode | src/lib/jwt-utils.ts:7-12 | strict UTF-8 decoding inverts encoding |
| Utf8.EncodeDecodeSequence | src/lib/jwt-utils.ts:7-12 | a valid sequence is the encoding of the character it decodes to |
| Utf8.EncodeDecode | src/lib/jwt-utils.ts:7-12 | whatever decodes re-encodes to the same octets |
| Utf8.EncodeAppend | src/app/api/auth/signin/route.ts:9 | encoding distributes over concatenation |
| Utf8.EncodeInjective | src/app/api/auth/signin/route.ts:9 | different texts have different encodings |
| Uri.EscapeDigits | src/lib/jwt-utils.ts:10 | each escape is '%' and two lower-case hex digits whose value is the byte |
| Uri.PercentString | src/lib/jwt-utils.ts:8-11 | the escaped string has three characters per byte |
| Uri.PercentStringAppend | src/lib/jwt-utils.ts:8-11 | escaping is per byte: it distributes over concatenation |
| Uri.PercentStringAt | src/lib/jwt-utils.ts:8-11 | the triple at position 3i is the escape of byte i |
| Uri.DecodeURIComponent | src/lib/jwt-utils.ts:7 | text without '%' comes back unchanged, and a result is never longer than the input |
| Uri.ParseEscapes | src/lib/jwt-utils.ts:7 | a run of k escapes yields k bytes |
| Uri.ParseEscapeEscape | src/lib/jwt-utils.ts:7-11 | reading an escape gives its byte back |
| Uri.ParseEscapesPercent | src/lib/jwt-utils.ts:7-11 | reading the escapes of a byte string gives the bytes back |
| Uri.DecodePercentString | src/lib/jwt-utils.ts:7-12 | escaping then `decodeURIComponent` equals strict UTF-8 decoding, errors included |
| Uri.DecodePercentUtf8 | src/lib/jwt-utils.ts:7-12 | UTF-8 text comes back unchanged through the escapes |
| Jwt.PayloadSegment | src/lib/jwt-utils.ts:5 | there is a segment at index 1 exactly when the token contains '.' |
| Jwt.ProjectClaims | src/lib/jwt-utils.ts:22-34 | null for a falsy payload; otherwise each claim copied from its key, and groups/roles are the claim when truthy, else `[]` |
| Jwt.ExtractUserInfo | src/lib/jwt-utils.ts:20-35 | null exactly when the decoded payload is falsy, in particular for a token without '.' |
| Jwt.OnlyPayloadSegment | src/lib/jwt-utils.ts:5 | only segment 1 is decoded: header, signature and later segments are ignored |
| Jwt.NoSeparatorIsNull | src/lib/jwt-utils.ts:5-17 | a string without '.' decodes to null, and its user info is null |
| Jwt.FailuresAreNull | src/lib/jwt-utils.ts:14-17 | invalid base64, invalid UTF-8 and invalid JSON each give null |
| Jwt.SegmentText | src/lib/jwt-utils.ts:6-12 | a segment whose `atob` throws has no text; otherwise its text is the strict UTF-8 decoding of the bytes `atob` gives |
| Jwt.ParsedOrNull | src/lib/jwt-utils.ts:13-16 | no text or a parse error gives null; a text that parses gives the parsed value, and a non-null result is what `JSON.parse` returned |
| Jwt.DecodeSegment | src/lib/jwt-utils.ts:6-16 | null when the segment has no text or the text does not parse; a text that parses to v gives v, and a non-null result is the parse of the segment's text |
| Jwt.DecodeJwt | src/lib/jwt-utils.ts:3-18 | null for a token without '.'; for a dotted token, the parse of the text of segment 1 when that text exists and parses, and null otherwise |
| Jwt.DecodeEncodedPayload | src/lib/jwt-utils.ts:3-18 | a token whose middle segment is base64url(UTF-8(J)) decodes to `JSON.parse(J)`, or null when J does not parse |
| Jwt.ProjectExample | src/lib/jwt-utils.ts:24-34 | a payload with sub, email and one group projects to those values, with `[]` roles |
| AuthContext.AuthReducer | src/contexts/AuthContext.tsx:31-55 | LOGIN sets the user, authenticated and not loading; LOGOUT clears them; SET_LOADING changes only the flag; any other action changes nothing |
| AuthContext.InitialConsistent | src/contexts/AuthContext.tsx:23-27 | the initial state has no user, is loading, and satisfies the invariant |
| AuthContext.ReducerPreservesConsistent | src/contexts/AuthContext.tsx:31-55 | every action preserves `isAuthenticated <==> user != null` |
| AuthContext.RunPreservesConsistent | src/contexts/AuthContext.tsx:31-55 | every run of actions preserves the invariant |
| AuthContext.LoginLogoutIdempotent | src/contexts/AuthContext.tsx:33-46 | LOGIN(u) and LOGOUT are idempotent and each fixes the whole state |
| AuthContext.RunUserAfterLast | src/contexts/AuthContext.tsx:47-53 | loading flags and unknown actions never change who is signed in |
| AuthContext.AuthProvider.constructor | src/contexts/AuthContext.tsx:57-58 | the provider starts in the initial state over the given storage |
| AuthContext.AuthProvider.Dispatch | src/contexts/AuthContext.tsx:58 | the new state is the reducer applied to the old one |
| AuthContext.AuthProvider.Login | src/contexts/AuthContext.tsx:60-64 | `authUser` holds the serialised user, the state is LOGIN(u), and state and storage are in step |
| AuthContext.AuthProvider.Logout | src/contexts/AuthContext.tsx:66-70 | `authUser` is removed, the state is LOGOUT, and state and storage are in step |
| AuthContext.AuthProvider.SetLoading | src/contexts/AuthContext.tsx:72-74 | only the loading flag changes, and an in-step pair stays in step |
| AuthContext.AuthProvider.CheckAuthStatus | src/contexts/AuthContext.tsx:78-92 | a parsable saved user is logged in; no saved user only ends loading; an unparsable one is removed and loading ends; loading is false in every branch |
| UserRoles.HasGroup | src/hooks/useUserRoles.ts:69-71 | holds iff some group has that name |
| UserRoles.HasAnyGroup | src/hooks/useUserRoles.ts:73-75 | holds iff some listed name is held; false on an empty list |
| UserRoles.HasRole | src/hooks/useUserRoles.ts:86-88 | holds iff some group's role ARN equals the argument |
| UserRoles.GetGroupRoles | src/hooks/useUserRoles.ts:77-84 | no longer than the groups; each entry is a group with a non-empty role ARN; every such group is included |
| UserRoles.GetGroupRolesAppend | src/hooks/useUserRoles.ts:77-84 | order is kept: the roles of a concatenation are the concatenated roles |
| UserRoles.GetGroupRolesSingle | src/hooks/useUserRoles.ts:77-84 | a single group yields `{groupName, roleArn}` when its ARN is truthy, else nothing |
| UserRoles.TokenGroups | src/hooks/useUserRoles.ts:91-93 | the user's token groups, or `[]` without a user or without groups |
| UserRoles.TokenRoles | src/hooks/useUserRoles.ts:95-97 | the user's token roles, or `[]` without a user or without roles |
| UserRoles.TokenClaimsFollowSession | src/hooks/useUserRoles.ts:91-97 | after LOGIN the token groups and roles are the user's claims or `[]`, after LOGOUT both are `[]`, and a consistent state with token groups is authenticated |
| UserRoles.TokenClaimsSurviveLoading | src/hooks/useUserRoles.ts:91-97 | loading flags and unknown actions leave the token groups and roles unchanged |
| UserRoles.IsAdmin | src/hooks/useUserRoles.ts:119 | holds iff a fetched group is named Administrators or Admin |
| UserRoles.IsModerator | src/hooks/useUserRoles.ts:120 | holds iff a fetched group is named Moderators or Moderator |
| UserRoles.IsUser | src/hooks/useUserRoles.ts:121 | holds iff a fetched group is named Users or User |
| UserRoles.UsePermissions | src/hooks/useUserRoles.ts:116-131 | groups/roles come from the token; the three flags are the named membership tests on the fetched groups |
| UserRoles.FlagsIgnoreToken | src/hooks/useUserRoles.ts:117-121 | the flags do not depend on the token's groups or roles |
| UserRoles.HasGroupMonotone | src/hooks/useUserRoles.ts:69-71 | a group held stays held when groups are added |
| UserRoles.UserRolesHook.constructor | src/hooks/useUserRoles.ts:15-17 | no groups, not loading, no error |
| UserRoles.UserRolesHook.FetchUserGroups | src/hooks/useUserRoles.ts:21-41 | without a username nothing changes; a success replaces the groups, or gives `[]`; a failure or a throw sets only the error, with its defaults; loading ends false |
| RoleGuard.Guard | src/components/RoleGuard.tsx:15-52 | children iff admin-only implies admin, moderator-or-admin implies either, every required group is held, and a non-empty any-list has a held group |
| RoleGuard.AdminOnly | src/components/RoleGuard.tsx:55-61 | equals the guard with only adminOnly set, so children iff admin |
| RoleGuard.ModeratorOrAdmin | src/components/RoleGuard.tsx:64-70 | equals the guard with only moderatorOrAdmin set, so children iff admin or moderator |
| RoleGuard.CanAccess | src/components/RoleGuard.tsx:81 | holds iff some listed group is held; false on an empty list |
| RoleGuard.HasAnyRole | src/components/RoleGuard.tsx:82 | a group-name test, the same as `canAccess` and `hasAnyGroup` |
| RoleGuard.DefaultsRenderChildren | src/components/RoleGuard.tsx:17-51 | with all defaults (absent or explicit) every user sees the children |
| RoleGuard.AnyFailingCheckFallsBack | src/components/RoleGuard.tsx:26-49 | each failing check alone renders the fallback |
| RoleGuard.GuardMonotone | src/components/RoleGuard.tsx:25-51 | gaining groups never turns children into fallback |
| AdminSignup.GenerateTemporaryPassword | src/app/api/auth/admin-signup/route.ts:6-9 | 10 to 13 characters, starting "TempPass" and ending '!' |
| AdminSignup.GeneratedPasswordFormat | src/app/api/auth/admin-signup/route.ts:6-9 | 13 characters exactly from 1000 ms on; the middle is decimal digits denoting the clock modulo 10000 |
| AdminSignup.ChoosePassword | src/app/api/auth/admin-signup/route.ts:31-37 | a truthy supplied password is kept and is not generated; otherwise the generated one, flagged as generated; never empty |
| AdminSignup.SetPasswordRequest | src/app/api/auth/admin-signup/route.ts:64-73 | at most one set-password request |
| AdminSignup.GroupRequest | src/app/api/auth/admin-signup/route.ts:76-86 | at most one add-to-group request |
| AdminSignup.Requests | src/app/api/auth/admin-signup/route.ts:40-86 | one to three requests, the create request first |
| AdminSignup.Plan | src/app/api/auth/admin-signup/route.ts:31-86 | the same for the password the route chooses at time `now` |
| AdminSignup.SendAll | src/app/api/auth/admin-signup/route.ts:61-103 | the requests sent are a prefix ending at the first that throws; nothing thrown iff all were sent and went through |
| AdminSignup.ErrorResponse | src/app/api/auth/admin-signup/route.ts:103-121 | 403 with the permissions hint and the message as details when it contains "is not authorized to perform", else 500 with the message |
| AdminSignup.CreatedEchoesPassword | src/app/api/auth/admin-signup/route.ts:88-101 | the success body (`AdminSignup.CreatedResponse`) echoes the final password; isTemporary equals mustChangeOnFirstLogin and holds iff marked temporary or generated; groupAssigned is the group or null |
| AdminSignup.Post | src/app/api/auth/admin-signup/route.ts:11-123 | missing credentials give 500 before anything else; a body that fails to parse goes to the catch block; no username or email gives 400; all with no request; otherwise the requests are sent per `Plan`, the first throw decides the error response, and success gives the success body |
| AdminSignup.CreateUser | src/app/api/auth/admin-signup/route.ts:39-101 | the log and the response are those of `SendAll` over the requests |
| AdminSignup.SetPasswordThenGroup | src/app/api/auth/admin-signup/route.ts:64-86 | the set-password and group steps send what `SendAll` sends |
| AdminSignup.AddToGroup | src/app/api/auth/admin-signup/route.ts:76-86 | the group step sends what `SendAll` sends |
| AdminSignup.PasswordPolicy | src/app/api/auth/admin-signup/route.ts:58-73 | the create request carries the password as temporary iff temporary or generated; a set-password request follows iff a password was supplied and not marked temporary; exactly one of the two applies |
| AdminSignup.RequestOrder | src/app/api/auth/admin-signup/route.ts:61-86 | create first and only first; set-password only second; add-to-group last, with the body's group, iff a group name was given |
| AdminSignup.CreateRequestFields | src/app/api/auth/admin-signup/route.ts:40-59 | the create request (`AdminSignup.CreateCommand`) carries pool, username, e-mail, `email_verified = true`, birthdate or 1990-01-01, and SUPPRESS |
| AdminSignup.GeneratedIsTemporary | src/app/api/auth/admin-signup/route.ts:34-64 | a generated password travels as the temporary password of the create request, and no set-password request is sent |
| Signin.SecretHash | src/app/api/auth/signin/route.ts:7-11 | exactly the padded base64 encoding (`Base64.Encode`) of the HMAC keyed by the UTF-8 client secret over UTF-8(username) followed by UTF-8(clientId); a multiple of four characters, and `atob` gives the digest back |
| Signin.DistinctMessages | src/app/api/auth/signin/route.ts:7-11 | different usernames give different HMAC messages for the same client id |
| Signin.SharedHashIsCollision | src/app/api/auth/signin/route.ts:7-11 | two usernames share a SECRET_HASH only when the HMAC gives the same digest for their two messages |
| Signin.RequestParameters | src/app/api/auth/signin/route.ts:27-37 | the request (`Signin.AuthRequest`) is USER_PASSWORD_AUTH on the client id with exactly USERNAME, PASSWORD and SECRET_HASH |
| Signin.SignedInUser | src/app/api/auth/signin/route.ts:51-71 | username from the body, tokens from the response, email/groups/roles from the ID token's claims, `[]` when there are none |
| Signin.GroupsFromClaim | src/app/api/auth/signin/route.ts:57-68 | groups are the ID token's truthy `cognito:groups` claim |
| Signin.GroupsFromEncodedToken | src/app/api/auth/signin/route.ts:51-71 | an ID token carrying JSON text J gives the groups claim of `JSON.parse(J)` |
| Signin.ErrorResponse | src/app/api/auth/signin/route.ts:79-86 | 500 with the error's message or the default text |
| Signin.Post | src/app/api/auth/signin/route.ts:13-87 | no username or password gives 400 with no request; otherwise one InitiateAuth request; a challenge takes precedence over a result; neither gives 500 "Respuesta inesperada del servidor"; a throw gives 500 |
| ListGroups.Project | src/app/api/auth/list-groups/route.ts:26-33 | one summary per remote group, in order, fields copied; `[]` when Groups is absent |
| ListGroups.ProjectInjective | src/app/api/auth/list-groups/route.ts:26-33 | the projection loses nothing |
| ListGroups.ProjectAppend | src/app/api/auth/list-groups/route.ts:26-33 | the projection keeps order |
| ListGroups.ErrorResponse | src/app/api/auth/list-groups/route.ts:41-59 | a permission error gives 403 with the hint and `groups: []`; any other error gives 500 with the message |
| ListGroups.Get | src/app/api/auth/list-groups/route.ts:5-61 | missing credentials give 500 with `groups: []` and no request; otherwise one ListGroups request (`ListGroups.Request`) on the pool with limit 60; success gives the projection and its count |
| ListGroups.ResponseShapes | src/app/api/auth/list-groups/route.ts:8-59 | a 403 carries `groups: []` and the hint; every error is 403 or 500 |

## Left out

- React rendering. The guard's result is reduced to which node is rendered (`Children` or `Fallback`); the default fallback element, JSX and effects scheduling are not modelled.
- Asynchrony. Each `await` is modelled as an immediate call. Interleavings of concurrent fetches are not modelled, and neither is the moment during a fetch when `isLoading` is true.
- Strings. Dafny characters are Unicode scalar values, while JavaScript strings are UTF-16 code units. UTF-16 surrogate pairs are not modelled, so `decodeURIComponent` is modelled on scalar values.
- `JSON.parse` and `JSON.stringify` are abstract functions. The provider requires that parsing a serialised user gives it back.
- Json.Get: properties a non-object value inherits from its prototype are not modelled. Of the claims read, only `sub` exists on such a value: a JSON string payload has `String.prototype.sub` (Annex B of ECMAScript), so `username` would be that function rather than undefined.
- AuthContext.AuthProvider.CheckAuthStatus: parsing a stored string gives a user or fails. A stored literal `null` is not modelled; in JavaScript it would dispatch LOGIN with a null user.
- AuthContext.AuthProvider: local storage never throws. Storage quota errors and disabled-storage exceptions are not modelled.
- Request bodies. `request.json()` either throws, which the catch block handles, or yields the fields the route reads. Values of the wrong type are not modelled: in the admin-signup route, `temporaryPassword` is a boolean and the other fields are strings or absent.
- ListGroups.Project: `CreationDate` and `LastModifiedDate` are kept as millisecond integers. Their JSON date serialisation is not modelled.
- Signin.SecretHash: HMAC-SHA256 is uninterpreted. A missing client secret makes `createHmac` throw, modelled as a given thrown value.
- Configuration. `clientId` and `userPoolId` are always present strings; an undefined value in the SDK request is not modelled.
- Logging. `console.log` and `console.error` are not modelled, including the sign-in route's log of its configuration.
- Other parts of the application: the UI components and pages, the `fetch` service client, the other hooks and routes, and SDK client construction.
- JWT signatures, issuers and expiry are never checked by the code, so the model checks none of them.

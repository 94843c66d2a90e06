# Request guards of the task API

This project models the Express middleware of a small task-management API
(`src/middlewares/functions.js`). Each middleware is a guard: it reads one
part of an HTTP request and either calls the next stage or answers with a
status code and an error. There are six guards:

- the method guard `Middleware`, which lets through POST, GET, PUT and DELETE only (405 otherwise);
- the body guard `validateBody`, which refuses an empty body (400);
- the task-field validator `validateInfo`, which checks `description` and then `completed` (400);
- the status-parameter validator `validateStatusParam`, which checks the `status` route parameter (400);
- the bearer-token guard `authMiddleware`, which uses the Bearer scheme of section 2.1 of RFC 6750 and the `exp` claim of section 4.1.4 of RFC 7519. It matches the prefix `Bearer ` case-sensitively and with exactly one space, where section 2.1 of RFC 7235 makes the scheme name case-insensitive and RFC 6750 allows several spaces. It answers 401 for a missing header, an invalid token or an expired token. Otherwise it attaches the decoded claims to the request as its user;
- the role guard built by `roleMiddleware(roles)`. It answers 401 when no user or no role is attached, 403 when the role is not permitted, and passes otherwise.

Every guard is a total function of the request and its parameters,
returning an `Outcome`, in module `Middlewares` (`middlewares.dfy`). `Next(req)` means "call `next()` with
this request". `Stop(status, failure)` means "send this status and stop".
The one mutation in the source, `req.user = decodedToken`, becomes the
request handed on in `Next`. `roleMiddleware` is a closure factory. Here it
is one function that takes the permitted roles as its first argument.

Module `Js` (`js.dfy`) gives the JavaScript semantics the guards rely on:
- truthiness (`!v`) and `typeof`, on a `JsValue` datatype;
- `includes` with SameValueZero;
- `startsWith`;
- `split(" ")`.

`Split` is pinned down by two facts: its fields contain no separator, and
joining them with the separator gives the input back (`JoinSplit`). The
token the verifier receives is stated as "the text after `Bearer ` up to the
next space" (`BearerToken`). `SplitAfterField` and `SplitHead` prove that
text equal to `header.split(" ")[1]`.

The external collaborators are parameters:
- the signature check `jwt.verify(token, secret)` is an arbitrary function `verify` from token and secret to optional claims;
- the secret `process.env.SECRET_KEY` is an `Option<string>` argument;
- the clock `Date.now()` is `nowMs`, in milliseconds. The model takes `Math.floor(nowMs / 1000)` explicitly (`NowSeconds`).

Three details of the code are easy to miss:
- `!description` is true for `""`, so `validateInfo` rejects an empty description;
- `status &&` is false for `""`, so an empty `status` passes `validateStatusParam`;
- `Middleware` and `validateBody` `send` a bare string, while the other guards send JSON (see `PayloadOf`).

## Model

| member | source | states |
|---|---|---|
| `Middlewares.Middleware` | src/middlewares/functions.js:4-17 | The request goes on, unchanged, exactly when the method is one of the four allowed names. Any other method gives 405. |
| `Middlewares.LowerCaseMethodRejected` | src/middlewares/functions.js:7-16 | The comparison is case-sensitive: "get" is answered with 405. |
| `Middlewares.ValidateBody` | src/middlewares/functions.js:20-26 | The answer is 400 exactly when the body has no keys. Any non-empty body goes on unchanged. |
| `Middlewares.ValidateInfo` | src/middlewares/functions.js:29-42 | Gives the description error exactly when `description` is not a non-empty string, whatever `completed` holds. With a valid description, gives the completed error exactly when `completed` is neither absent nor a boolean (so `null` and `"yes"` fail). Passes, unchanged, in the remaining case only. |
| `Middlewares.DescriptionCheckedFirst` | src/middlewares/functions.js:31-34 | With a description that is missing, empty or not a string, changing `completed` does not change the answer, which is the description error. |
| `Middlewares.ValidateStatusParam` | src/middlewares/functions.js:45-51 | Passes, unchanged, exactly when `status` is absent, empty, "completed" or "incomplete". Otherwise the answer is 400. |
| `Middlewares.NowSeconds` | src/middlewares/functions.js:75 | The floored second `r` satisfies `r*1000 <= nowMs < r*1000 + 1000`. |
| `Middlewares.BearerToken` | src/middlewares/functions.js:60-68 | A token is presented exactly when the header is present and starts with "Bearer ". |
| `Middlewares.SecondFieldIsBearerToken` | src/middlewares/functions.js:68 | On a header starting with "Bearer ", `split(" ")` has at least two fields. The second field is the text after the prefix up to the next space. |
| `Middlewares.AuthMiddleware` | src/middlewares/functions.js:55-91 | Every stop is 401. Without a "Bearer " header the answer is "no token". Otherwise the extracted token is verified: a failure gives "invalid token", and claims with `exp*1000 <= nowMs` give "expired". Any other claims go on, with exactly those claims attached as the user and nothing else changed. |
| `Middlewares.NoTokenIgnoresVerifier` | src/middlewares/functions.js:59-64 | Without a "Bearer " header, the answer is "no token" whatever the verifier does, so the verifier is never consulted. |
| `Middlewares.TrailingFieldsIgnored` | src/middlewares/functions.js:68-72 | "Bearer a b" presents token "a". Text after a second space changes neither the decision nor the attached claims. |
| `Middlewares.LowerCaseSchemeRejected` | src/middlewares/functions.js:60-64 | A header "bearer ..." is answered 401 "no token": the scheme name is matched case-sensitively. |
| `Middlewares.DoubleSpaceGivesEmptyToken` | src/middlewares/functions.js:68 | After "Bearer" followed by two spaces, the token passed to the verifier is the empty string. |
| `Middlewares.PayloadOf` | src/middlewares/functions.js:15-108 | The 405 and the empty-body 400 are sent as a bare string. The field and status 400s are JSON with an `error` field. Every 401 and 403 is JSON with a `message` field. |
| `Middlewares.Field` | src/middlewares/functions.js:30 | Destructuring reads the value stored under the key, and `undefined` only when the key is missing or holds `undefined`. |
| `Middlewares.ExpiryBoundary` | src/middlewares/functions.js:75-77 | A token with `exp` equal to the current second is expired. A token with `exp` one second later passes. |
| `Middlewares.RoleMiddleware` | src/middlewares/functions.js:95-114 | 401 exactly when there is no user or its role is falsy. 403 exactly when the role is truthy and not among `roles`. Otherwise the request goes on unchanged. |
| `Middlewares.EmptyRoleNeverPasses` | src/middlewares/functions.js:98-102 | An empty role gives 401 for every list of permitted roles, including one that contains "", because the presence check runs before membership. |
| `Middlewares.AuthThenRole` | src/middlewares/functions.js:81-112 | After the token is accepted, the role guard decides from the token's role claim alone: 401 if it is falsy, pass if it is permitted, 403 otherwise. |
| `Js.Truthy` | src/middlewares/functions.js:31 | `!v` is true exactly for undefined, null, false, 0, NaN and "". |
| `Js.TypeOf` | src/middlewares/functions.js:31-35 | `typeof` is "string" exactly for strings and "boolean" exactly for booleans. It is "undefined" only for undefined, and "object" for null and objects. |
| `Js.StartsWith` | src/middlewares/functions.js:60 | `s.startsWith(p)` holds exactly when `p` is a prefix of `s`. |
| `Js.Includes` | src/middlewares/functions.js:105 | `roles.includes(rol)` holds exactly when `rol` is an element of `roles`. |
| `Js.Split` | src/middlewares/functions.js:68 | `split` yields at least one field, and no field contains the separator. |
| `Js.JoinSplit` | src/middlewares/functions.js:68 | Joining the fields of `split` with the separator gives back the input. |
| `Js.TakeUntil` | src/middlewares/functions.js:68 | The token is a prefix of the text with no separator in it. It ends at the end of the text or just before a separator. |
| `Js.TakeUntilField` | src/middlewares/functions.js:68 | A separator-free word followed by a separator, or by nothing, is exactly the prefix that `TakeUntil` takes. |
| `Js.SplitHead` | src/middlewares/functions.js:68 | The first field of `split` is the prefix before the first separator. |
| `Js.SplitAfterField` | src/middlewares/functions.js:68 | Splitting `w + sep + t`, for a separator-free `w`, gives `w` followed by the fields of `t`. |

## Left out

- Signature and format checking inside `jwt.verify` (a foreign library). It is an arbitrary function of the token and the secret. Whether that library already refuses expired tokens is left to that function too; if it does, such tokens are answered "invalid token".
- Reading `process.env.SECRET_KEY` and `Date.now()`. The secret and the clock are parameters.
- Express's `res.status(...).send/json` and `next()` calls are I/O. They become the returned `Outcome`. `authMiddleware` calls `next()` inside its `try` block, so an exception escaping the `next()` call itself would be answered 401 "invalid token". The model has no later stages, so it does not show this.
- The Spanish message texts. Each error has a distinct `Failure` tag, and `PayloadOf` gives its body format.
- Dynamic typing of the decoded token. Claims are a record with an integer `exp` and a `rol` that may be any value. Other cases are not modelled: a string payload, a missing or fractional `exp` (where `undefined <= n` is false), and extra claims.
- Numbers are integers. There is no fractional part, no -0 and no BigInt. `NaN` and 0 are the falsy numbers.
- The body is a map of keys to values. A missing body (`undefined`) or a JSON array body is not modelled. `roles` is a sequence; the source would do a substring search if it were given a string.
- The order in which a router chains these guards. The router is not part of this model; `AuthThenRole` covers the one dependency between guards.

# Customify backend: authentication core

A Dafny model of the authentication part of a small Express backend:

- the router factory in `authRoutes.js`, which closes over a database
  client and serves `POST /register` and `POST /login`;
- the `authenticateToken` middleware in `authenticateToken.js`, which reads
  the `Authorization` header, verifies a JSON Web Token and either answers
  401 or 403 or attaches the decoded payload to `req.user` and calls `next`.

The `users` table is held in memory: rows in insertion order plus the next
value of the `id` sequence (module `Users`). `/register` works step by step
and inserts a row, so it is a method of the class `AuthRouter`. Its contract
ties the new table and the response to the function `RegisterEffect`, and
the lemmas are stated about that function. `/login` only reads the table, so
it is the function `Login`. The router's `HandleLogin` method calls it
without a `modifies` clause. Token extraction is the function
`ExtractToken`, built on a model of JavaScript's `split` (module `Js`). The
middleware is the method `Authenticate`. It works on a request object
(`user`), a response object (`sent`) and a `next` counter, and is specified
by the function `TokenCheck`.

bcrypt and jsonwebtoken are abstract collaborators. They are the
function-valued records `Bcrypt.PasswordHasher` (`hash`, `compare`) and
`Jwt.TokenCodec` (`sign`, `verify`). What the libraries promise is stated as
predicates, and the lemmas that need a promise take it as a precondition:
a password matches its own hash; a token verifies to its claims until
`exp`, and fails as expired from then on; tokens contain no space; the empty
token never verifies. The clock (`now`), the signing secret and
`created_at` are parameters. An exception thrown by a collaborator call is a
fault parameter that names the call that throws (`LookupThrows`,
`HashThrows`, `InsertThrows`, `LoginLookupThrows`, `CompareThrows`,
`SignThrows`). Each handler's `catch` turns it into that route's generic
500.

Behaviour the model pins down, following the code:

- Validation uses JavaScript falsiness, so an absent field and `""` are
  both rejected with 400.
- Only the second space-separated word of the header is used. The scheme
  word is never compared with `Bearer`, so "Token abc" yields "abc".
- `authHeader && ...` short-circuits on an empty header to `""`. A header
  like "Bearer " also yields `""`. Since `"" == null` is false, both reach
  the verifier and end in 403, not 401. A header with no space at all
  ("Bearer") yields `undefined` and a 401.
- So only a non-empty header with no space counts as "no token provided".
  An empty header, or a scheme followed by a space, reaches the verifier.

## Model

| member | source | states |
|---|---|---|
| `Js.Split` | authenticateToken.js:15 | `split(' ')` gives at least one piece; no piece contains the separator; joining the pieces back gives the header; there is exactly one piece iff the header has no space |
| `Js.SplitAfterSeparator` | authenticateToken.js:15 | splitting a separator-free head, a separator and a tail gives the head followed by the split of the tail |
| `Js.SplitJoin` | authenticateToken.js:15 | `split` inverts `join` for separator-free pieces (the other half of the round trip in `Split`'s contract) |
| `Users.SelectByEmail` | authRoutes.js:32 | the lookup returns exactly the rows whose email equals the given one (case-sensitive); it is empty iff the email is not taken |
| `Users.SelectAfterAppend` | authRoutes.js:44-47 | after an insert, the lookup result is the old result, plus the new row when its email matches |
| `Users.SelectUnique` | authRoutes.js:74-75 | when emails are unique, the lookup finds at most one row, so `rows[0]` is the only match |
| `AuthRoutes.RegisterEffect` | authRoutes.js:20-59 | the status is 201, 400, 409 or 500. 400 iff a field is missing or empty, with the fill-in-all-fields message. 409 iff the fields are present, the lookup did not throw and the email already has a row, with "This email is already registered.". 500 iff the fields are present and the lookup throws, or the email is free and hashing or the insert throws; it carries the generic server-error message. 201 iff the fields are present, no call throws and the email is free. On every non-201 path the table is unchanged. On 201 exactly one row is appended and the old rows are kept; the row has the given name and email, `password_hash = hash(password, 10)`, a fresh id and the clock's `created_at`; the body's `user` is `{id, name, email, created_at}` of that row. The table invariant is preserved |
| `AuthRoutes.RegisterAll` | authRoutes.js:44-47 | handling registrations one at a time only appends rows: the old rows stay a prefix, and at most one row is added per call |
| `AuthRoutes.RegisterAllKeepsWellFormed` | authRoutes.js:32-47 | after any sequence of registrations run one at a time, no two rows share an email or an id |
| `AuthRoutes.RegisterTwiceConflicts` | authRoutes.js:32-36 | once an email has been registered, registering it again yields 409 and leaves the table unchanged |
| `AuthRoutes.RegisterResponseHidesHash` | authRoutes.js:45-53 | the registration response does not depend on the hash function, so the stored hash is never sent back |
| `AuthRoutes.AuthRouter.constructor` | authRoutes.js:12-13 | the router starts over a given well-formed table |
| `AuthRoutes.AuthRouter.Register` | authRoutes.js:20-59 | the handler run step by step leaves exactly the table and returns exactly the response that `RegisterEffect` describes, and keeps email and id uniqueness |
| `AuthRoutes.AuthRouter.HandleLogin` | authRoutes.js:62-120 | login on the router leaves the table unchanged on every path and returns `Login`'s response |
| `AuthRoutes.Login` | authRoutes.js:62-120 | the status is 200, 400, 401 or 500. 400 iff email or password is missing or empty. 401 always carries "Invalid credentials.", and happens iff no row has the email, or the first matching row's hash does not match the password. 500 iff the fields are present and the lookup throws, or a row matched and the compare throws, or the password matched and signing throws; it carries the generic message. 200 iff the fields are present, no call throws, a row has the email and the first matching row's hash matches the password; the token signs `{userId, email}` of that row with the secret and a one-hour expiry; the user is `{id, name, email}` of that row |
| `AuthRoutes.LoginFailuresIndistinguishable` | authRoutes.js:78-91 | an unknown email and a wrong password for a known email produce the identical 401 response |
| `AuthRoutes.LoginIdentifiesTheAccount` | authRoutes.js:74-114 | with unique emails, a 200 is for the one row holding the email: its hash matched the password, and the token and user are that row's |
| `AuthRoutes.LoginAfterRegister` | authRoutes.js:84-114 | a successful registration followed by a login with the same email and password returns 200, with the new row's token and user |
| `AuthenticateToken.ExtractToken` | authenticateToken.js:10-15 | an absent header gives no token; an empty header gives `""`; there is a token iff the header is present and is empty or contains a space; a token never contains a space |
| `AuthenticateToken.ExtractSecondWord` | authenticateToken.js:15 | the token is the word after the first space, up to the next space or the end |
| `AuthenticateToken.SchemeIgnored` | authenticateToken.js:15 | any two scheme words give the same token: the scheme is not checked |
| `AuthenticateToken.BearerExamples` | authenticateToken.js:15 | "Bearer abc" gives "abc" and "Bearer a b" gives "a" |
| `AuthenticateToken.OtherSchemeExamples` | authenticateToken.js:15 | "Token abc" and "xyz abc" both give "abc" |
| `AuthenticateToken.BareSchemeExamples` | authenticateToken.js:15-18 | "Bearer" gives no token; "Bearer " gives `""` |
| `AuthenticateToken.TokenCheck` | authenticateToken.js:15-41 | the middleware denies only with 401 "Access denied. No token provided." or 403 "Invalid or expired token.". 401 iff no token was extracted. 403 iff a token was extracted and verification failed. It admits iff verification succeeded, and the admitted user is the decoded payload |
| `AuthenticateToken.MissingHeaderDenied` | authenticateToken.js:10-22 | with no `Authorization` header the answer is 401, whatever the verifier does |
| `AuthenticateToken.SingleWordHeaderDenied` | authenticateToken.js:15-22 | a non-empty header without a space is a 401 |
| `AuthenticateToken.EmptyTokenForbidden` | authenticateToken.js:15-32 | an empty header, or a scheme followed by a single space, reaches the verifier and ends in 403, not 401 |
| `AuthenticateToken.Authenticate` | authenticateToken.js:7-42 | exactly one outcome per call. Either the 401/403 response is written and `req.user` and `next` are untouched, or `req.user` is set to the payload and `next` is called once with nothing written |
| `AuthFlow.LoginTokenAdmitted` | authRoutes.js:99-103 | a token from a successful login, sent as "Bearer <token>" before it expires, is admitted with `{userId, email}` of the logged-in user |
| `AuthFlow.ExpiredLoginTokenForbidden` | authenticateToken.js:26-32 | the same token sent once the hour is over is refused with 403 |
| `AuthFlow.AnaWalkthrough` | authRoutes.js:20-120 | register Ana on an empty table (201, with her public fields), register her again (409), log in with a wrong password (401 "Invalid credentials."), log in with hers (200, with her email) |

## Left out

- `index.js`: the Express app, CORS, the JSON body parser, the Postgres connection, the health-check route and `app.listen`. These are framework and I/O wiring with no logic of their own.
- bcrypt's salt generation, cost rounds and constant-time comparison. `hash` and `compare` are abstract functions, and the random salt is folded into `hash`.
- JWT signing and verification cryptography, base64url encoding and the `exp` clock check. `sign` and `verify` are abstract, and their promises are preconditions of the lemmas that use them.
- The SQL engine. The lookup is a filter over the rows in insertion order. Postgres returns rows without `ORDER BY` in no guaranteed order, and the model fixes that order.
- `id` is a counter that advances only on a successful insert. Sequence values that Postgres consumes on a failed insert are not modelled.
- The lookup-then-insert race between concurrent registrations. Uniqueness is claimed only for registrations run one at a time.
- Logging (`console.error`, `console.warn`), JSON serialisation and the `process.env.JWT_SECRET` lookup. The secret is a parameter. A missing secret makes `jwt.sign` throw, which is the `SignThrows` fault, and makes `jwt.verify` fail, which gives 403.
- Body fields that are JSON values other than strings (numbers, booleans, objects). A field is either absent or a string. A truthy non-string password makes bcrypt throw, which the `HashThrows` and `CompareThrows` faults cover. A missing `req.body` is not modelled; the body parser always sets one.
- Node's HTTP parser strips leading and trailing whitespace from header values before the middleware runs. The header is modelled as the middleware receives it, so in practice "Bearer " reaches it as "Bearer".
- Writing a second response after one was already sent: `res.sent` is simply overwritten. Express itself would throw in that case.

# Authentication routes of a MERN login server, modelled in Dafny

This project models the decision logic of the server's authentication router
(`server/routes/authRouter.mjs`) and the user record it reads and creates
(`server/models/user.mjs`):

- **Validators** (`validators.dfy`, module `Validators`). These are the three
  regular expressions for email, password and username, plus
  `checkEmailOrUsername`. Each predicate is written in the shape of its
  regular expression: where the `@` and the `.` sit, and what the lookaheads
  find. A lemma then states the same language in plain terms. `\s` is the
  exact ECMAScript set of WhiteSpace and LineTerminator code points, and `.`
  matches anything except `\n`, `\r`, U+2028 and U+2029.
- **User schema and the `users` collection** (`user_model.dfy`, module
  `UserModel`).
  - The `role`, `accountType` and `accountStatus` enums become datatypes, with
    parsers that invert their names.
  - `Build` is what `new User(doc)` followed by validation yields. It fills in
    the defaults `'user'`, `'local'` and `'active'`. It then runs the
    `required` validators (a String path that is missing or `""` fails) and
    the `enum` validators.
  - The collection is a class holding a `seq<User>`. Its invariant is the pair
    of collection-wide unique indexes, on `email` and on `username`. `Save`
    appends a record or rejects it with a validation or duplicate-key error.
    `FindOne` is equality matching, and returns the first match in collection
    order.
- **Routes** (`auth_router.dfy`, module `AuthRouter`). `/register`, `/login`
  and `/forgot-password` are methods over the collection. bcrypt's `hash` and
  `compare` and jsonwebtoken's `sign` are opaque functions, passed in a
  `Crypto` value. `NODE_ENV` is a parameter, and decides the cost (1 in
  development, 10 otherwise). The clock reading that jsonwebtoken stamps into
  a token's `iat` claim is a parameter of `sign` too.
- **Scenarios** (`scenarios.dfy`, module `Scenarios`). These are request
  sequences proved from the route contracts alone: register then log in,
  register twice, register then reset the password, a wrong password, a
  registration blocked by a Google account, a reset for an unknown account,
  plus the sample inputs.

One behaviour is worth knowing. The pre-check in `/register` only looks at
records with `accountType: "local"`. The unique indexes cover the whole
collection. So a Google account that holds the email or the username passes
the pre-check, and then makes `save()` reject the record. `Register`'s
contract states that a duplicate-key rejection always comes from a Google
account. `PreCheckVersusIndexes` and `GoogleAccountDefeatsPreCheck` state the
same thing in general and on a concrete collection.

On these points the behaviour of the code is easy to misread:
- Uniqueness is collection-wide, not limited to local accounts.
- `/forgot-password` has no separate error for an invalid identifier. It
  answers "User not found".
- A failed `save()` is not caught by the route, so no answer is written. The
  model turns that into the outcome `SaveRejected`.

## Model

| member | source | states |
|---|---|---|
| Validators.IsValidEmail | server/routes/authRouter.mjs:114-120 | `/^[^\s@]+@[^\s@]+\.[^\s@]+$/` matches the whole string: an `@` and a later `.` split it into three non-empty runs of characters that are neither whitespace nor `@`. An accepted string holds an `@` and has at least 5 characters |
| Validators.IsValidPassword | server/routes/authRouter.mjs:115-124 | The four lookaheads each find their class before any line terminator, and `.{8,}$` consumes the whole string. An accepted string has at least 8 characters and one character of every class |
| Validators.IsValidUsername | server/routes/authRouter.mjs:116-128 | `/^[a-z0-9_.]{2,}$/` matches the whole string. An accepted string has at least 2 characters and no `@` |
| Validators.Count | server/routes/authRouter.mjs:114 | The count of a character is at most the length, and is zero exactly when the character does not occur (used for "exactly one `@`") |
| Validators.EmailRegexHasShape | server/routes/authRouter.mjs:114-120 | Every string the email regex accepts has no whitespace, exactly one `@`, a non-empty part before it, and a `.` inside the part after it |
| Validators.EmailShapeMatchesRegex | server/routes/authRouter.mjs:114-120 | Every string of that shape is accepted by the email regex |
| Validators.EmailShapeIsRegex | server/routes/authRouter.mjs:114-120 | `isValidEmail(s)` holds if and only if s has no whitespace, exactly one `@`, a non-empty local part, and a domain with a `.` that is neither its first nor its last character |
| Validators.PasswordPolicy | server/routes/authRouter.mjs:115-124 | `isValidPassword(s)` holds if and only if s has at least 8 characters, no line terminator, and at least one digit, one of `!@#$%^&*`, one of a-z and one of A-Z |
| Validators.MissingClassRejected | server/routes/authRouter.mjs:115-124 | A password that lacks any one of the four character classes is refused |
| Validators.EmailIsNeverUsername | server/routes/authRouter.mjs:114-128 | No string is both a valid email and a valid username |
| Validators.CheckEmailOrUsername | server/routes/authRouter.mjs:130-138 | The answer is "email" exactly for valid emails, "username" exactly for valid usernames, and "invalid" exactly when neither holds |
| UserModel.ParseRole | server/models/user.mjs:9 | A role string is accepted exactly when it is "admin" or "user", and it denotes the role of that name |
| UserModel.ParseAccountType | server/models/user.mjs:10 | An account-type string is accepted exactly when it is "google" or "local", and it denotes that type |
| UserModel.ParseAccountStatus | server/models/user.mjs:11 | An account-status string is accepted exactly when it is "active" or "inactive", and it denotes that status |
| UserModel.Build | server/models/user.mjs:4-15 | A document is accepted exactly when every path passes `required` and `enum` after defaults are applied. A rejection lists exactly the failing paths. An accepted record keeps every supplied value, takes the default of every omitted enum, and has non-empty email, password and username |
| UserModel.BuildToDoc | server/models/user.mjs:4-15 | Building the full document of a well-formed record gives that record back |
| UserModel.OmittedPathsTakeDefaults | server/models/user.mjs:9-11 | A document with only email, username and password builds a record with no name, role user, account type local and status active |
| UserModel.Insert | server/models/user.mjs:5-7 | `save()` succeeds exactly when the document validates and no record holds its email or username. A success keeps both indexes unique. A duplicate-key error names an index whose value is taken |
| UserModel.FindOne | server/routes/authRouter.mjs:27-32 | `findOne` finds nothing exactly when no record matches. Otherwise it returns the first record in collection order that matches |
| UserModel.UserCollection.Save | server/routes/authRouter.mjs:46 | The collection grows by exactly the saved record when `save()` succeeds, and is unchanged otherwise. The unique indexes keep holding |
| AuthRouter.SaltRounds | server/routes/authRouter.mjs:37 | The bcrypt cost is 1 exactly when `NODE_ENV` is "development", and 10 otherwise |
| AuthRouter.LocalAccountExists | server/routes/authRouter.mjs:27-33 | The register pre-check holds exactly when the `$or` query over local accounts (same email, or same username) finds a record |
| AuthRouter.IdentifierQuery | server/routes/authRouter.mjs:65-71 | A classified identifier is looked up by the classified field only, among local accounts |
| AuthRouter.AccountForIsUnique | server/models/user.mjs:5-7 | Under the unique indexes, a login identifier designates at most one record |
| AuthRouter.PreCheckVersusIndexes | server/routes/authRouter.mjs:27-35 | A local match in the pre-check always holds the email or the username. A taken email or username that the pre-check misses belongs to a Google account |
| AuthRouter.GoogleAccountDefeatsPreCheck | server/routes/authRouter.mjs:27-46 | On a collection holding only a Google account with "a@b.com", the pre-check passes and `save()` rejects with a duplicate email |
| AuthRouter.Register | server/routes/authRouter.mjs:10-54 | The first failing check, in the order email, password, username, decides the message, and the collection is unchanged. "User already exists" is the answer exactly when the fields are valid and a local account has the email or the username. Otherwise, with valid fields, the answer is what `save()` of the document {email, username, hash at cost 1 in development and 10 otherwise} gives: a token signed over the saved `{username, email}` at the given time, or the rejection. A token is issued exactly when the fields are valid, no record holds the email or the username, and the hash is non-empty; then exactly one record with the defaults is appended. A duplicate-key rejection comes from a Google account |
| AuthRouter.Login | server/routes/authRouter.mjs:57-91 | "Invalid email or username" exactly for invalid identifiers. "User not found" exactly when the identifier is valid and no local account has it in its classified field. "Invalid password" exactly when that account's hash does not match. Otherwise a token is signed over the account's `{username, email}`. The collection is never changed |
| AuthRouter.ForgotPassword | server/routes/authRouter.mjs:94-111 | "Password reset email sent" exactly when a local account has the identifier in its classified field. Every other case, including an invalid identifier, gives "User not found". The collection is never changed |
| Scenarios.SampleEmailIsValid | server/routes/authRouter.mjs:114-120 | "a@b.com" is a valid email |
| Scenarios.SamplePasswordIsValid | server/routes/authRouter.mjs:115-124 | "Abcdef1!" is a valid password |
| Scenarios.SampleRegistrationIsValid | server/routes/authRouter.mjs:12-22 | The sample registration passes all three checks of `/register` |
| Scenarios.BangsAreInvalid | server/routes/authRouter.mjs:130-138 | "!!!" is classified as invalid, so `/login` refuses it without a lookup |
| Scenarios.RegisterThenLogin | server/routes/authRouter.mjs:10-91 | After a successful registration, logging in with the same password, by username or by email, returns a token signed over the same `{username, email}` claims as the registration's, stamped with the login time. This assumes bcrypt matches a password against its own hash |
| Scenarios.RegisterThenWrongPassword | server/routes/authRouter.mjs:77-83 | After a successful registration, logging in with a password that does not match the stored hash gives "Invalid password" |
| Scenarios.GoogleAccountBlocksRegistration | server/routes/authRouter.mjs:27-46 | With only a Google account holding "a@b.com" stored, registering "a@b.com" / "Abcdef1!" / "ab1" passes the pre-check and ends in a rejected `save()` (a duplicate email when the hash is non-empty); nothing is stored |
| Scenarios.ResetUnknownAccount | server/routes/authRouter.mjs:94-108 | A reset request for "nouser" on an empty collection gives "User not found" |
| Scenarios.RegisterTwice | server/routes/authRouter.mjs:27-35 | A second identical registration after a successful one gives "User already exists", and exactly one record was added |
| Scenarios.RegisterThenForgotPassword | server/routes/authRouter.mjs:94-111 | After a successful registration, a reset request by username or by email gives "Password reset email sent" |

## Left out

- HTTP plumbing is not modelled: Express routing, status codes beyond the
  outcome kinds, JSON bodies, the `getDb()` connection, and `async`/`await`.
  The server bootstrap (`server/app.mjs`) and the React client are not part of
  this model.
- bcrypt and jsonwebtoken are opaque functions. Their failures, salts, and
  bcrypt's promise that a password matches its own hash are not modelled.
  `Scenarios.RegisterThenLogin` takes that promise as a precondition.
- Reading `JWT_SECRET` from the environment is not modelled; the secret is
  folded into `sign`. Token verification and expiry are not part of these
  routes.
- The `createdAt` and `updatedAt` timestamps (`Date.now`) are not modelled.
- The password reset email is never sent by the source, and the model sends
  none.
- JavaScript coercion of missing or non-string body fields is not modelled:
  every input is a string. For example, `regex.test(undefined)` tests the text
  "undefined".
- Lengths count Unicode code points, not JavaScript's UTF-16 code units. A
  password made of characters outside the Basic Multilingual Plane can
  therefore differ in length from the source.
- The race between the `findOne` pre-check and `save()` is concurrency, and is
  not modelled. Each request runs alone against the collection.
- `findOne` without a sort promises no particular order; the model returns
  the first match in collection order. Nothing depends on that choice:
  `/register` and `/forgot-password` only ask whether a match exists, and
  `/login` works under the unique indexes, where at most one record matches.
- A document that violates both unique indexes is reported on `email`, the
  index declared first. The routes never look at which index failed.
- AuthRouter.Login: requires the collection's invariant (the unique indexes),
  which every collection built by the constructor and `Save` keeps. Without
  it, the model says nothing about which of several matching records is used.

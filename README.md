# User accounts and password reset, modelled in Dafny

This project models the account service of a small Express/Mongoose
application: registration, login with a session cookie, and the
forgot-password / reset-password flow with a hashed, expiring, single-use
reset token.

- `user_model.dfy` (module `UserModel`) is the `User` schema: the record
  datatype, the `trim` and `lowercase` setters, the `required` validators and
  the unique indexes on `username` and `email`.
- `primitives.dfy` (module `Primitives`) holds the library calls as function
  values: `bcrypt.hash`, `bcrypt.compare`, SHA-256 with hex output, and
  `jwt.sign`. It also holds the hex encoding that `randomBytes(32).toString('hex')`
  applies to the raw reset token.
- `account.dfy` (module `Account`) gives the four handlers as pure state
  transitions over the user collection (`Db`). Mongo's `findOne` is `FindOne`:
  the first record, in insertion order, that matches a `Filter`. MongoDB does
  not promise natural order; the model fixes insertion order. Under the unique
  indexes, each email lookup, and each lookup of a fresh reset hash, matches at
  most one record. Register's `$or` lookup can match two records, one holding
  the email and another the username, but register uses only whether it
  matches anything. So the choice of order matters only in the undefined-email
  case below, and when two records hold the same reset hash (a repeated
  token, which the random bytes make unlikely but the invariant allows).
- `account_props.dfy` (module `AccountProps`) proves the properties. Each
  handler keeps the store invariant. Every failure except a failed email
  delivery leaves the collection as it was. Login
  succeeds exactly when bcrypt accepts the password. A reset token works once,
  only strictly before its expiry, and only until a newer one replaces it.
- `controller.dfy` (module `Controller`) has the class `UserStore`. It holds
  the collection as fields that its handler methods update in place. Each
  method is proved to produce the reply and new collection that `Account`
  specifies, and to keep the invariant. Two client methods run whole sessions
  on a fresh store.

Modelling decisions:

- A request field is an `Option<string>`. `None` means the field is
  undefined. "Missing" (`!field`) means undefined or the empty string.
- Mongoose applies the `trim` and `lowercase` setters to query filters as well
  as to stored values. So every lookup by email or username normalises its key
  the same way the stored record was normalised.
- The model assumes that `findOne({ email })` with an undefined email loses
  the key and becomes `findOne({})`. This is what Mongoose does when it strips
  undefined keys from a filter. Forgot-password then picks the first record
  (`Filter.MatchAll`). The code does not settle this: a driver that sends the
  undefined field as `null` would match no record and answer 404. The route
  runs `forgotPasswordValidation` and `validate` before the handler
  (routes/user.routes.js:15). What they check is not part of this model.
- The schema's `required` validator rejects an empty string. After trimming,
  a username or email made only of white space is empty, so `User.create`
  fails and register answers 500. An empty bcrypt hash would fail the same
  way. That 500 path is modelled, so bcrypt never has to be assumed to return a
  non-empty hash.
- `bcrypt.hash` throws on an undefined password. So reset-password without a
  password answers 500 and saves nothing.
- The clock (`now`, in milliseconds), the salt from `bcrypt.genSalt`, the 32
  random bytes and the outcome of the email delivery are all parameters.
- A failed email delivery answers 500, although the token saved before it
  stays on the record. An expired token is never cleared; it just stops
  matching the `$gt` lookup.

## Model

| member | source | states |
|---|---|---|
| `UserModel.LemmaTrimStart` | models/user.model.js:9 | trimming the start removes exactly the leading JavaScript white space and keeps the rest as a suffix |
| `UserModel.LemmaTrimEnd` | models/user.model.js:9 | trimming the end removes exactly the trailing JavaScript white space and keeps the rest as a prefix |
| `UserModel.LemmaTrimIdempotent` | models/user.model.js:9 | a trimmed value has no white space at either end, and trimming it again changes nothing |
| `UserModel.LemmaTrimStartLower` | models/user.model.js:15-16 | lower-casing neither adds nor removes leading white space, so it commutes with trimming the start |
| `UserModel.LemmaTrimEndLower` | models/user.model.js:15-16 | lower-casing neither adds nor removes trailing white space, so it commutes with trimming the end |
| `UserModel.LemmaTrimLowerCommute` | models/user.model.js:15-16 | lower-casing and trimming commute, so the order of the two email setters does not matter |
| `UserModel.LemmaNormalizeEmailIdempotent` | models/user.model.js:15-16 | normalising an already stored email leaves it unchanged |
| `UserModel.Cast` | models/user.model.js:5-21 | the document `User.create` builds has a trimmed username and a trimmed, lower-cased email (a fixpoint of both setters), and passes the `required` validators exactly when the trimmed username, the normalised email and the password hash are all non-empty |
| `Primitives.Hex` | controllers/user.controller.js:129 | the hex encoding has two characters per byte |
| `Primitives.LemmaHexDigits` | controllers/user.controller.js:129 | every character of the raw token is a lower-case hex digit |
| `Primitives.LemmaHexRoundTrip` | controllers/user.controller.js:129 | decoding the hex string gives back the random bytes |
| `Primitives.LemmaHexInjective` | controllers/user.controller.js:129 | two raw tokens are equal exactly when their random bytes are equal |
| `Account.FindOne` | controllers/user.controller.js:166-169 | `findOne` returns the first matching record, and returns none exactly when no record matches |
| `Account.Register` | controllers/user.controller.js:8-59 | the register handler: either it appends exactly one record, with the next `_id`, and shows it in a 201 reply, or it answers 400 or 500 and changes nothing; it sets no cookie and sends no mail |
| `Account.Login` | controllers/user.controller.js:61-116 | the login handler: it answers 200 or 400, and sets a cookie and shows a user exactly when it answers 200 |
| `Account.ForgotPassword` | controllers/user.controller.js:118-157 | the forgot-password handler: it answers 200, 404 or 500; it sends mail exactly when it does not answer 404; it answers 200 exactly when the mail goes out; 404 changes nothing; no record is added or removed |
| `Account.ResetPassword` | controllers/user.controller.js:159-195 | the reset-password handler: it answers 200, 400 or 500; any answer but 200 changes nothing; no record is added or removed |
| `Account.Matches` | controllers/user.controller.js:166-169 | the query filters: `$or` on email and username, equality on email, and a reset hash together with `resetTokenExpiry` strictly after `now`; `LemmaFreshTokenMatch` and `LemmaRegisterRejectsDuplicate` state what they select |
| `Account.ForgotFilter` | controllers/user.controller.js:123 | the forgot-password query: equality on the normalised email, or the empty filter when the email is undefined; `LemmaForgotUnknownEmail` and `LemmaForgotStoresToken` state its outcome |
| `Account.SessionCookie` | controllers/user.controller.js:85-96 | the session cookie `token`: `jwt.sign` of the user id with `iat = now / 1000` and `exp = iat + 3600`, and max-age 3600000; `LemmaLoginSucceedsIff` states it |
| `Account.StoreInvariant` | models/user.model.js:5-23 | the collection under the schema: unique ids, usernames and emails, every record valid, normalised and with paired reset fields; the three preservation lemmas keep it |
| `UserModel.RequiredPresent` | models/user.model.js:7-20 | the `required` validators: username, email and password non-empty; `Cast` states when a created document passes them |
| `UserModel.Normalized` | models/user.model.js:9-16 | the setters have been applied: username and email are fixpoints of their setters; `Cast` establishes it |
| `UserModel.ResetFieldsPaired` | models/user.model.js:22-23 | the two reset fields are set and cleared together; the preservation lemmas keep it |
| `UserModel.UniqueKeys` | models/user.model.js:8-14 | the unique indexes on `username` and `email`, and unique `_id`s; `LemmaFindByEmail` relies on it |
| `UserModel.TrimStart` | models/user.model.js:9 | the leading half of JavaScript's `trim`; `LemmaTrimStart` characterises it |
| `UserModel.TrimEnd` | models/user.model.js:9 | the trailing half of JavaScript's `trim`; `LemmaTrimEnd` characterises it |
| `UserModel.Trim` | models/user.model.js:9 | the `trim` setter; `LemmaTrimIdempotent` states it |
| `UserModel.Lower` | models/user.model.js:16 | the `lowercase` setter, on ASCII letters; `LemmaTrimLowerCommute` relates it to `Trim` |
| `UserModel.NormalizeEmail` | models/user.model.js:15-16 | the stored form of an email: trimmed, then lower-cased; `LemmaNormalizeEmailIdempotent` states it |
| `UserModel.NormalizeUsername` | models/user.model.js:9 | the stored form of a username: trimmed; `Cast` states it is a fixpoint |
| `Account.Missing` | controllers/user.controller.js:14 | JavaScript's `!field` on a request field: true for an undefined field and for the empty string; `LemmaRegisterMissingFields` states its effect |
| `Account.Public` | controllers/user.controller.js:46-50 | the user projection of the 201 and 200 bodies: id, username and email, never the hash or the reset fields; `LemmaRegisterOutcome` and `LemmaLoginSucceedsIff` state it |
| `Account.Text` | controllers/user.controller.js:16-193 | the `message` string of every response body the handlers send, one per `Message` case |
| `Account.ResetUrl` | controllers/user.controller.js:137 | the reset link: `CLIENT_URL`, then `/reset-password/`, then the raw token; `LemmaForgotSendsLink` states it |
| `UserModel.IsJsSpace` | models/user.model.js:9 | the characters `trim` strips: ECMAScript WhiteSpace and LineTerminator; `LemmaTrimStart` and `LemmaTrimEnd` state the stripping |
| `Primitives.Sha256Injective` | controllers/user.controller.js:132 | the assumption that the SHA-256 hex digest has no collisions; only `LemmaReRequestInvalidatesEarlierToken` assumes it |
| `UserModel.User` | models/user.model.js:3-24 | the stored user document: `_id` (a `nat` counter here, not an ObjectId), `username`, `email` and `password` (the bcrypt hash), and the optional `resetToken` and `resetTokenExpiry`, the latter in milliseconds since the epoch |
| `Primitives.Crypto` | controllers/user.controller.js:32-177 | the library calls as function values given to the handlers: `bcrypt.hash` (lines 32 and 177), `bcrypt.compare` (line 79), `jwt.sign` with `expiresIn: "1h"` (lines 85-89) and the SHA-256 hex digest (lines 132 and 165) |
| `Account.Db` | models/user.model.js:28 | the `users` collection as a sequence of documents in insertion order, together with the next `_id` to hand out |
| `Account.RESET_TOKEN_TTL_MS` | controllers/user.controller.js:133 | the reset token lives 3600000 ms: `resetTokenExpiry = Date.now() + 3600000` |
| `Account.COOKIE_MAX_AGE_MS` | controllers/user.controller.js:95 | the session cookie's `maxAge` of 3600000 ms |
| `Account.JWT_TTL_S` | controllers/user.controller.js:88 | the session token's `expiresIn: "1h"`, as 3600 seconds |
| `Account.RESET_TOKEN_BYTES` | controllers/user.controller.js:129 | the 32 bytes `crypto.randomBytes` is asked for, so the raw token has 64 hex digits |
| `AccountProps.LemmaFindByEmail` | models/user.model.js:11-17 | because emails are unique, a lookup by email finds exactly the record holding that email |
| `AccountProps.LemmaFindAfterUpdate` | controllers/user.controller.js:166-169 | after one record is replaced, a filter matched by no other record finds that record exactly when the new value matches |
| `AccountProps.LemmaNoHolderNoMatch` | controllers/user.controller.js:166-172 | a reset hash that no record holds never matches, at any time |
| `AccountProps.LemmaSetTokenKeepsKeys` | controllers/user.controller.js:132-134 | storing a reset token on a record leaves its id, username and email alone, so the unique indexes still hold |
| `AccountProps.LemmaReplacedTokenNoLongerMatches` | controllers/user.controller.js:132-133 | once a record's reset hash is overwritten by a different one, the old hash matches nothing |
| `AccountProps.LemmaReplaceKeepsInvariant` | models/user.model.js:3-26 | saving a record that keeps its id, username and email and passes the validators keeps the unique indexes and normalised keys |
| `AccountProps.LemmaAppendKeepsInvariant` | controllers/user.controller.js:36-40 | inserting a validated, normalised record whose username and email are new and whose id is the next one keeps the invariant |
| `AccountProps.LemmaFreshTokenMatch` | controllers/user.controller.js:166-169 | a hash held by one record with expiry `e` is found at time `now` exactly when `now < e` (strict `$gt`) |
| `AccountProps.LemmaResetNotFound` | controllers/user.controller.js:171-173 | proof helper, one branch of the handler unfolded: a token whose hash no unexpired record holds gets 400 "Invalid or expired reset token" and changes nothing |
| `AccountProps.LemmaResetFound` | controllers/user.controller.js:175-185 | proof helper, one branch of the handler unfolded: when the lookup finds a record and the new hash validates, the reset answers 200, stores the hash on that record and clears its two reset fields |
| `AccountProps.LemmaResetOnFreshToken` | controllers/user.controller.js:164-185 | a token held by one record with expiry `e` resets that record's password exactly while `now < e`; otherwise 400 and no change |
| `AccountProps.LemmaUsedTokenNoLongerMatches` | controllers/user.controller.js:180-183 | once the reset clears the only holder's reset fields, the hash matches no record at any time |
| `AccountProps.LemmaRegisterPreservesInvariant` | controllers/user.controller.js:21-40 | register keeps the invariant: validated, normalised records, paired reset fields, unique usernames, emails and ids |
| `AccountProps.LemmaForgotPreservesInvariant` | controllers/user.controller.js:129-134 | forgot-password keeps the invariant, and sets the two reset fields together |
| `AccountProps.LemmaResetPreservesInvariant` | controllers/user.controller.js:176-183 | reset-password keeps the invariant, and clears the two reset fields together |
| `AccountProps.LemmaRegisterMissingFields` | controllers/user.controller.js:14-19 | proof helper, one branch of the handler unfolded: a missing email, username or password gets 400 "Missing required fields" and the store is unchanged |
| `AccountProps.LemmaRegisterRejectsDuplicate` | controllers/user.controller.js:21-28 | an existing user with the same normalised email or username gets 400 "User already registered" and no record is created |
| `AccountProps.LemmaRegisterOutcome` | controllers/user.controller.js:14-58 | 201 exactly when the fields are present, neither key is taken and the record validates; the new record holds the bcrypt hash (never the plaintext) and no reset token; the response shows only id, username and email; any other outcome (400 or 500) changes nothing |
| `AccountProps.LemmaRegisterThenLogin` | controllers/user.controller.js:30-107 | a user who has just registered logs in with the same password under any spelling of the email that normalises to the stored one |
| `AccountProps.LemmaLoginUniformFailure` | controllers/user.controller.js:73-82 | an unknown email and a wrong password both get exactly the same 400 "Invalid credentials" reply |
| `AccountProps.LemmaLoginSucceedsIff` | controllers/user.controller.js:65-107 | login gets 200 exactly when a user has the email and `bcrypt.compare` accepts; on success the reply shows that user and sets cookie `token` holding `jwt.sign(id, iat, iat + 3600)` with max-age 3600000; otherwise 400 with no cookie |
| `AccountProps.LemmaForgotUnknownEmail` | controllers/user.controller.js:123-126 | an email no user has gets 404, no record changes and no mail is sent |
| `AccountProps.LemmaForgotStoresToken` | controllers/user.controller.js:128-134 | that user alone gets `resetToken = sha256(raw)` and `resetTokenExpiry = now + 3600000` |
| `AccountProps.LemmaForgotSendsLink` | controllers/user.controller.js:136-156 | the mail goes to the user, with subject "Password Reset Request" and URL `CLIENT_URL + "/reset-password/" + raw` (64 hex digits); the reply is 200 if the mail is delivered and 500 if not |
| `AccountProps.LemmaForgotKeepsTokenOnMailFailure` | controllers/user.controller.js:134-156 | the token is saved before the mail is sent: the store afterwards is the same whether delivery succeeds or fails |
| `AccountProps.LemmaResetOutcome` | controllers/user.controller.js:164-195 | 200 exactly when some record holds `sha256(token)` with expiry strictly after `now` and the new hash validates; that record gets the new hash, both reset fields are cleared and nothing else changes; any other outcome (400 or 500) changes nothing |
| `AccountProps.LemmaForgotThenReset` | controllers/user.controller.js:128-185 | forgot-password for a user followed by a reset with the emailed token: the fresh hash lands on that user alone, and the reset succeeds exactly before the expiry |
| `AccountProps.LemmaTokenSingleUse` | controllers/user.controller.js:164-183 | after forgot-password, the first reset with the emailed token succeeds; a second reset with the same token gets 400 at any time and changes nothing |
| `AccountProps.LemmaTokenExpiry` | controllers/user.controller.js:133-172 | a token issued at `t0` resets the password exactly when `now < t0 + 3600000`; at or after that time it gets 400 and nothing changes |
| `AccountProps.LemmaReRequestInvalidatesEarlierToken` | controllers/user.controller.js:128-134 | after a second forgot-password for the same user, the first link gets 400 (this relies on SHA-256 having no collisions) |
| `Controller.UserStore` | controllers/user.controller.js:1-195 | the mutable store the handlers work on: the collection and the next `_id` as fields the handler methods assign, plus the library calls and `CLIENT_URL` as constants |
| `Controller.UserStore.Valid` | models/user.model.js:3-24 | the store's fields satisfy `StoreInvariant`: unique keys, validated, normalised records with paired reset fields; every handler method keeps it |
| `Controller.UserStore.constructor` | models/user.model.js:28 | a new store holds an empty collection, hands out `_id` 0 first, and satisfies `Valid()` |
| `Controller.UserStore.Register` | controllers/user.controller.js:8-59 | the in-place insert gives exactly the reply and collection of `Account.Register`, and keeps the invariant |
| `Controller.UserStore.Login` | controllers/user.controller.js:61-116 | reads the collection and never changes it; the reply is `Account.Login`'s |
| `Controller.UserStore.ForgotPassword` | controllers/user.controller.js:118-157 | the in-place field assignments give exactly the reply, mail and collection of `Account.ForgotPassword`, and keep the invariant |
| `Controller.UserStore.ResetPassword` | controllers/user.controller.js:159-195 | the in-place field assignments give exactly the reply and collection of `Account.ResetPassword`, and keep the invariant |
| `Controller.LoginScenario` | controllers/user.controller.js:8-107 | on a fresh store: register gets 201, login with the right password gets 200, login with a wrong one gets 400 |
| `Controller.ResetScenario` | controllers/user.controller.js:118-195 | on a fresh store: register 201, forgot-password 200, reset 200, the same reset again 400, login with the new password 200 |

## Left out

- `Lower` only lower-cases ASCII `A`-`Z`. JavaScript's `toLowerCase` also maps other Unicode letters, and some of them to more than one character.
- bcrypt, SHA-256 and JWT are uninterpreted functions. The salt, the random bytes and the clock are supplied by the caller. Only the re-request lemma assumes SHA-256 is injective. bcrypt's cost factor and its 72-byte input limit are not modelled.
- Database failures are not modelled: connection errors, failed saves, and a unique-index violation from a concurrent insert. The only `catch`-block paths modelled are the ones the handlers' own data can cause: a failed validation, an undefined password passed to bcrypt, and a failed email delivery.
- Concurrent requests are not modelled. Each handler runs as one atomic step, so a race between two resets on the same token, which the code's find-then-save allows, is outside the model.
- `_id` is a counter in the model, not an ObjectId. The schema's `createdAt`/`updatedAt` timestamps are left out because no handler reads them.
- Response fields other than status, message, the user projection and the cookie are left out: `received` in register's 400 reply and `error` in forgot-password's 500 reply. So are the cookie's `httpOnly` and `secure` flags, and logging.
- The email's HTML template is reduced to the reset URL it embeds. SMTP transport and its environment settings are out of scope. `config/email.js` is not part of this model.
- JSON `null`, and request fields that are not strings, are out of scope. So is the request validation middleware, which is not part of this model. Request routing and server start-up (`routes/user.routes.js`, `server.js`) are wiring and are not modelled.
- `LemmaForgotThenReset`, `LemmaTokenSingleUse`, `LemmaTokenExpiry` and `LemmaReRequestInvalidatesEarlierToken` require that no record already holds the new token's hash. This is the freshness of the 32 random bytes. Without it, another user who happens to hold the same hash could answer the second request.
- `FindOne` fixes insertion order where MongoDB leaves the order of a `findOne` unspecified. `ForgotFilter` assumes Mongoose drops an undefined email from the filter. A driver that sent `null` instead would answer 404 where the model picks the first record.

/**
 * The four request handlers of the user controller as pure state
 * transitions over the user collection. Each takes the collection (`Db`)
 * and the request, and yields the HTTP status and message, the collection
 * afterwards and, for forgot-password, the email it hands to the mailer.
 * The clock (`now`, milliseconds), the salt from `bcrypt.genSalt`, the 32
 * bytes from `crypto.randomBytes` and the outcome of the email delivery
 * are parameters.
 */
module Account {
  import opened Wrappers
  import opened UserModel
  import opened Primitives

  /** Lifetime of a reset token: `resetTokenExpiry = now + 3600000`. */
  const RESET_TOKEN_TTL_MS: int := 3600000
  /** `maxAge` of the session cookie. */
  const COOKIE_MAX_AGE_MS: int := 3600000
  /** `expiresIn: "1h"` of the session token, in seconds. */
  const JWT_TTL_S: int := 3600
  /** Number of bytes `crypto.randomBytes` is asked for. */
  const RESET_TOKEN_BYTES: nat := 32

  /** The user collection, with the next `_id` to hand out. */
  datatype Db = Db(users: seq<User>, nextId: nat)

  /** The public projection of a user in a response body. */
  datatype PublicUser = PublicUser(id: nat, username: string, email: string)

  datatype Cookie = Cookie(name: string, value: string, maxAge: int)

  /** The `message` of each response body the controller sends. */
  datatype Message =
    | MissingFields | AlreadyRegistered | ServerError | Registered
    | CredentialsRequired | InvalidCredentials | LoginSuccessful
    | UserNotFound | ResetLinkSent | ResetEmailFailed
    | InvalidResetToken | ResetFailed | ResetSuccessful

  function Text(m: Message): string {
    match m
    case MissingFields => "Missing required fields"
    case AlreadyRegistered => "User already registered"
    case ServerError => "Server error"
    case Registered => "User registered successfully"
    case CredentialsRequired => "Email and password are required"
    case InvalidCredentials => "Invalid credentials"
    case LoginSuccessful => "Login successful"
    case UserNotFound => "User not found"
    case ResetLinkSent => "Password reset link sent to email"
    case ResetEmailFailed => "Error sending password reset email"
    case InvalidResetToken => "Invalid or expired reset token"
    case ResetFailed => "Error resetting password"
    case ResetSuccessful => "Password reset successful"
  }

  datatype Response = Response(status: nat, message: Message, user: Option<PublicUser>, cookie: Option<Cookie>)

  /** The message handed to `sendEmail`: recipient, subject, and the reset URL
      the HTML template embeds. */
  datatype Mail = Mail(to: string, subject: string, resetUrl: string)

  datatype Step = Step(resp: Response, db: Db, mail: Option<Mail>)

  // ---------------------------------------------------------------------------
  // Queries: `User.findOne` returns one matching document. MongoDB does not
  // fix which; the model takes the first in insertion order.
  // ---------------------------------------------------------------------------

  datatype Filter =
    | ByEmailOrUsername(email: string, username: string)  // { $or: [{ email }, { username }] }
    | ByEmail(email: string)                             // { email }
    | ByValidResetToken(hash: string, now: int)          // { resetToken, resetTokenExpiry: { $gt: now } }
    | MatchAll                                           // {} (an undefined key is dropped)

  predicate Matches(f: Filter, u: User) {
    match f
    case ByEmailOrUsername(e, n) => u.email == e || u.username == n
    case ByEmail(e) => u.email == e
    case ByValidResetToken(h, now) =>
      u.resetToken == Some(h) && u.resetTokenExpiry.Some? && u.resetTokenExpiry.value > now
    case MatchAll => true
  }

  /** The index of the first matching user, or None when no user matches. */
  function FindOne(users: seq<User>, f: Filter): (r: Option<nat>)
    ensures r.Some? ==> r.value < |users| && Matches(f, users[r.value])
    ensures r.Some? ==> forall j :: 0 <= j < r.value ==> !Matches(f, users[j])
    ensures r.None? <==> forall j :: 0 <= j < |users| ==> !Matches(f, users[j])
  {
    if users == [] then None
    else if Matches(f, users[0]) then Some(0)
    else match FindOne(users[1..], f)
      case None => None
      case Some(k) => Some(k + 1)
  }

  // ---------------------------------------------------------------------------
  // The invariant of the collection
  // ---------------------------------------------------------------------------

  /** Every record passed the schema's validators, has its keys normalised,
      keeps its reset fields paired and has an `_id` already handed out; the
      unique indexes hold. */
  predicate StoreInvariant(db: Db) {
    && UniqueKeys(db.users)
    && forall i :: 0 <= i < |db.users| ==>
         && RequiredPresent(db.users[i])
         && Normalized(db.users[i])
         && ResetFieldsPaired(db.users[i])
         && db.users[i].id < db.nextId
  }

  /** A request field is missing when it is undefined or the empty string (the
      values `!field` treats as missing). */
  predicate Missing(field: Option<string>) {
    field.None? || field.value == ""
  }

  function Public(u: User): PublicUser {
    PublicUser(u.id, u.username, u.email)
  }

  function Reply(status: nat, message: Message): Response {
    Response(status, message, None, None)
  }

  /** A response that leaves the collection as it was. */
  function Fail(db: Db, status: nat, message: Message): Step {
    Step(Reply(status, message), db, None)
  }

  const INVALID_CREDENTIALS: Response := Reply(400, InvalidCredentials)
  const INVALID_RESET_TOKEN: Response := Reply(400, InvalidResetToken)
  const RESET_EMAIL_SUBJECT: string := "Password Reset Request"
  const RESET_PATH: string := "/reset-password/"
  const COOKIE_NAME: string := "token"

  // ---------------------------------------------------------------------------
  // The handlers
  // ---------------------------------------------------------------------------

  /** POST /register. It either appends exactly one record, with the next
      `_id`, and shows it in the reply, or answers 400 or 500 and changes
      nothing; it never sets a cookie or sends mail. */
  function Register(db: Db, c: Crypto, email: Option<string>, username: Option<string>,
                    password: Option<string>, salt: string): (r: Step)
    ensures r.resp.status in {201, 400, 500} && r.resp.cookie.None? && r.mail.None?
    ensures r.resp.status != 201 ==> r.db == db && r.resp.user.None?
    ensures r.resp.status == 201 ==>
              && |r.db.users| == |db.users| + 1 && r.db.users[..|db.users|] == db.users
              && r.db.nextId == db.nextId + 1 && r.db.users[|db.users|].id == db.nextId
              && r.resp.user == Some(Public(r.db.users[|db.users|]))
  {
    if Missing(email) || Missing(username) || Missing(password) then
      Fail(db, 400, MissingFields)
    else
      var filter := ByEmailOrUsername(NormalizeEmail(email.value), NormalizeUsername(username.value));
      if FindOne(db.users, filter).Some? then
        Fail(db, 400, AlreadyRegistered)
      else
        var u := Cast(db.nextId, email.value, username.value, c.bcryptHash(password.value, salt));
        if !RequiredPresent(u) then
          // the schema's validation rejects User.create; the handler answers 500
          Fail(db, 500, ServerError)
        else
          Step(Response(201, Registered, Some(Public(u)), None),
               Db(db.users + [u], db.nextId + 1), None)
  }

  /** The cookie carrying `jwt.sign({ userId }, secret, { expiresIn: "1h" })`. */
  function SessionCookie(c: Crypto, userId: nat, now: int): Cookie {
    var iat := now / 1000;  // floor: Dafny's division by a positive divisor
    Cookie(COOKIE_NAME, c.jwtSign(userId, iat, iat + JWT_TTL_S), COOKIE_MAX_AGE_MS)
  }

  /** POST /login. It reads the collection and never changes it. */
  function Login(db: Db, c: Crypto, email: Option<string>, password: Option<string>, now: int): (r: Response)
    ensures r.status in {200, 400}
    ensures r.status == 200 <==> r.cookie.Some?
    ensures r.status == 200 <==> r.user.Some?
  {
    if Missing(email) || Missing(password) then
      Reply(400, CredentialsRequired)
    else
      match FindOne(db.users, ByEmail(NormalizeEmail(email.value)))
      case None => INVALID_CREDENTIALS
      case Some(i) =>
        var u := db.users[i];
        if !c.bcryptCompare(password.value, u.password) then INVALID_CREDENTIALS
        else Response(200, LoginSuccessful, Some(Public(u)), Some(SessionCookie(c, u.id, now)))
  }

  /** The query forgot-password runs. The model assumes Mongoose strips an
      undefined email from the filter, which leaves the empty filter; a driver
      that sent it as `null` would match nothing instead. */
  function ForgotFilter(email: Option<string>): Filter {
    if email.None? then MatchAll else ByEmail(NormalizeEmail(email.value))
  }

  function ResetUrl(clientUrl: string, raw: string): string {
    clientUrl + RESET_PATH + raw
  }

  /** POST /forgot-password. The token is saved before the email is sent, and
      a failed delivery does not undo it. */
  function ForgotPassword(db: Db, c: Crypto, clientUrl: string, email: Option<string>,
                          random: seq<Byte>, now: int, delivered: bool): (r: Step)
    requires |random| == RESET_TOKEN_BYTES
    ensures r.resp.status in {200, 404, 500} && r.resp.user.None? && r.resp.cookie.None?
    ensures r.resp.status == 404 <==> r.mail.None?
    ensures r.resp.status == 404 ==> r.db == db
    ensures r.resp.status == 200 <==> r.mail.Some? && delivered
    ensures |r.db.users| == |db.users| && r.db.nextId == db.nextId
  {
    match FindOne(db.users, ForgotFilter(email))
    case None => Fail(db, 404, UserNotFound)
    case Some(i) =>
      var raw := Hex(random);
      var u := db.users[i].(resetToken := Some(c.sha256Hex(raw)),
                            resetTokenExpiry := Some(now + RESET_TOKEN_TTL_MS));
      var mail := Mail(u.email, RESET_EMAIL_SUBJECT, ResetUrl(clientUrl, raw));
      var resp := if delivered then Reply(200, ResetLinkSent)
                  else Reply(500, ResetEmailFailed);
      Step(resp, db.(users := db.users[i := u]), Some(mail))
  }

  /** POST /reset-password/:token. */
  function ResetPassword(db: Db, c: Crypto, token: string, password: Option<string>,
                         salt: string, now: int): (r: Step)
    ensures r.resp.status in {200, 400, 500} && r.resp.user.None? && r.resp.cookie.None? && r.mail.None?
    ensures r.resp.status != 200 ==> r.db == db
    ensures |r.db.users| == |db.users| && r.db.nextId == db.nextId
  {
    match FindOne(db.users, ByValidResetToken(c.sha256Hex(token), now))
    case None => Step(INVALID_RESET_TOKEN, db, None)
    case Some(i) =>
      if password.None? then
        // bcrypt.hash rejects an undefined password before anything is saved
        Fail(db, 500, ResetFailed)
      else
        var u := db.users[i].(password := c.bcryptHash(password.value, salt),
                              resetToken := None, resetTokenExpiry := None);
        if !RequiredPresent(u) then Fail(db, 500, ResetFailed)
        else Step(Reply(200, ResetSuccessful), db.(users := db.users[i := u]), None)
  }
}

/**
 * The user controller as it runs: a store object holding the user
 * collection, whose handlers look a record up, assign its fields in place
 * and save it (or insert a new one). Each handler's postcondition says that
 * its reply and the new collection are what module Account specifies, and
 * that the store's invariant still holds.
 */
module Controller {
  import opened Wrappers
  import opened UserModel
  import opened Primitives
  import opened Account
  import AccountProps

  class UserStore {
    /** The library calls the handlers make, and `process.env.CLIENT_URL`. */
    const crypto: Crypto
    const clientUrl: string

    /** The documents of the `users` collection, in insertion order. */
    var users: seq<User>
    /** The `_id` the next created document receives. */
    var nextId: nat

    ghost predicate Valid()
      reads this
    {
      StoreInvariant(Db(users, nextId))
    }

    function Snapshot(): Db
      reads this
    {
      Db(users, nextId)
    }

    constructor (crypto: Crypto, clientUrl: string)
      ensures Valid()
      ensures this.crypto == crypto && this.clientUrl == clientUrl
      ensures users == [] && nextId == 0
    {
      this.crypto := crypto;
      this.clientUrl := clientUrl;
      users := [];
      nextId := 0;
    }

    /** POST /register: validate, look for a clash, hash, `User.create`. */
    method Register(email: Option<string>, username: Option<string>, password: Option<string>, salt: string)
      returns (resp: Response)
      requires Valid()
      modifies this
      ensures Valid()
      ensures Step(resp, Snapshot(), None) == Account.Register(old(Snapshot()), crypto, email, username, password, salt)
    {
      AccountProps.LemmaRegisterPreservesInvariant(Snapshot(), crypto, email, username, password, salt);
      if Missing(email) || Missing(username) || Missing(password) {
        return Reply(400, MissingFields);
      }
      var existing := FindOne(users, ByEmailOrUsername(NormalizeEmail(email.value), NormalizeUsername(username.value)));
      if existing.Some? {
        return Reply(400, AlreadyRegistered);
      }
      var hashed := crypto.bcryptHash(password.value, salt);
      var user := Cast(nextId, email.value, username.value, hashed);
      if !RequiredPresent(user) {
        return Reply(500, ServerError);
      }
      users := users + [user];
      nextId := nextId + 1;
      resp := Response(201, Registered, Some(Public(user)), None);
    }

    /** POST /login: look the email up, compare the password, sign a session. */
    method Login(email: Option<string>, password: Option<string>, now: int) returns (resp: Response)
      ensures resp == Account.Login(Snapshot(), crypto, email, password, now)
    {
      if Missing(email) || Missing(password) {
        return Reply(400, CredentialsRequired);
      }
      var found := FindOne(users, ByEmail(NormalizeEmail(email.value)));
      if found.None? {
        return INVALID_CREDENTIALS;
      }
      var user := users[found.value];
      var checkPassword := crypto.bcryptCompare(password.value, user.password);
      if !checkPassword {
        return INVALID_CREDENTIALS;
      }
      resp := Response(200, LoginSuccessful, Some(Public(user)), Some(SessionCookie(crypto, user.id, now)));
    }

    /** POST /forgot-password: store the hashed token and its expiry on the
        user, save, then hand the link to the mailer, whose outcome is
        `delivered`. Returns the reply and the mail handed over. */
    method ForgotPassword(email: Option<string>, random: seq<Byte>, now: int, delivered: bool)
      returns (resp: Response, mail: Option<Mail>)
      requires Valid() && |random| == RESET_TOKEN_BYTES
      modifies this
      ensures Valid()
      ensures Step(resp, Snapshot(), mail)
           == Account.ForgotPassword(old(Snapshot()), crypto, clientUrl, email, random, now, delivered)
    {
      AccountProps.LemmaForgotPreservesInvariant(Snapshot(), crypto, clientUrl, email, random, now, delivered);
      var found := FindOne(users, ForgotFilter(email));
      if found.None? {
        return Reply(404, UserNotFound), None;
      }
      var i := found.value;
      var resetToken := Hex(random);
      var user := users[i];
      user := user.(resetToken := Some(crypto.sha256Hex(resetToken)));
      user := user.(resetTokenExpiry := Some(now + RESET_TOKEN_TTL_MS));
      users := users[i := user];
      var resetUrl := ResetUrl(clientUrl, resetToken);
      mail := Some(Mail(user.email, RESET_EMAIL_SUBJECT, resetUrl));
      if delivered {
        resp := Reply(200, ResetLinkSent);
      } else {
        resp := Reply(500, ResetEmailFailed);
      }
    }

    /** POST /reset-password/:token: find the user holding the token's hash
        with an unexpired expiry, set the new password hash, clear both reset
        fields, save. */
    method ResetPassword(token: string, password: Option<string>, salt: string, now: int)
      returns (resp: Response)
      requires Valid()
      modifies this
      ensures Valid()
      ensures Step(resp, Snapshot(), None) == Account.ResetPassword(old(Snapshot()), crypto, token, password, salt, now)
    {
      AccountProps.LemmaResetPreservesInvariant(Snapshot(), crypto, token, password, salt, now);
      var hashedToken := crypto.sha256Hex(token);
      var found := FindOne(users, ByValidResetToken(hashedToken, now));
      if found.None? {
        return INVALID_RESET_TOKEN;
      }
      if password.None? {
        return Reply(500, ResetFailed);
      }
      var i := found.value;
      var user := users[i];
      user := user.(password := crypto.bcryptHash(password.value, salt));
      user := user.(resetToken := None, resetTokenExpiry := None);
      if !RequiredPresent(user) {
        return Reply(500, ResetFailed);
      }
      users := users[i := user];
      resp := Reply(200, ResetSuccessful);
    }
  }

  /** A client session on a fresh store: register, then log in with the right
      password and with a wrong one. It assumes only that bcrypt accepts a
      password against its own hash and rejects the wrong one. */
  method LoginScenario(crypto: Crypto, clientUrl: string, email: string, name: string,
                       password: string, wrong: string, salt: string, now: int)
    returns (statuses: seq<nat>)
    requires NormalizeEmail(email) != "" && NormalizeUsername(name) != "" && password != "" && wrong != ""
    requires crypto.bcryptHash(password, salt) != ""
    requires crypto.bcryptCompare(password, crypto.bcryptHash(password, salt))
    requires !crypto.bcryptCompare(wrong, crypto.bcryptHash(password, salt))
    ensures statuses == [201, 200, 400]
  {
    var store := new UserStore(crypto, clientUrl);
    assert email != "" && name != "";
    var r1 := store.Register(Some(email), Some(name), Some(password), salt);
    assert r1.status == 201;
    AccountProps.LemmaFindByEmail(store.users, NormalizeEmail(email), 0);
    var r2 := store.Login(Some(email), Some(password), now);
    var r3 := store.Login(Some(email), Some(wrong), now);
    statuses := [r1.status, r2.status, r3.status];
  }

  /** A client session on a fresh store: register, request a reset, use the
      link twice, and log in with the new password. It assumes only that
      bcrypt accepts a password against its own hash and does not yield an
      empty hash for the passwords used. */
  method ResetScenario(crypto: Crypto, clientUrl: string, email: string, name: string,
                       password: string, salt: string, random: seq<Byte>, t0: int,
                       newPassword: string, salt2: string, otherPassword: string)
    returns (statuses: seq<nat>)
    requires |random| == RESET_TOKEN_BYTES
    requires NormalizeEmail(email) != "" && NormalizeUsername(name) != "" && password != ""
    requires newPassword != ""
    requires crypto.bcryptHash(password, salt) != "" && crypto.bcryptHash(newPassword, salt2) != ""
    requires crypto.bcryptCompare(newPassword, crypto.bcryptHash(newPassword, salt2))
    ensures statuses == [201, 200, 200, 400, 200]
  {
    var store := new UserStore(crypto, clientUrl);
    assert email != "" && name != "";
    var r1 := store.Register(Some(email), Some(name), Some(password), salt);
    assert r1.status == 201;
    ghost var db1 := store.Snapshot();
    assert StoreInvariant(db1) by { assert store.Valid(); }
    assert AccountProps.NoRecordHolds(db1.users, crypto.sha256Hex(Hex(random)));
    assert db1.users[0].email == NormalizeEmail(email);
    AccountProps.LemmaTokenSingleUse(db1, crypto, clientUrl, email, random, t0, true, newPassword, salt2,
                                     t0 + 1000, Some(otherPassword), salt2, t0 + 2000);
    AccountProps.LemmaForgotSendsLink(db1, crypto, clientUrl, email, random, t0, true, 0);
    AccountProps.LemmaForgotThenReset(db1, crypto, clientUrl, email, random, t0, true,
                                      newPassword, salt2, t0 + 1000, 0);
    var r2, _ := store.ForgotPassword(Some(email), random, t0, true);
    var r3 := store.ResetPassword(Hex(random), Some(newPassword), salt2, t0 + 1000);
    var r4 := store.ResetPassword(Hex(random), Some(otherPassword), salt2, t0 + 2000);
    assert r2.status == 200 && r3.status == 200 && r4.status == 400;
    assert store.users[0].password == crypto.bcryptHash(newPassword, salt2);
    assert store.users[0].email == NormalizeEmail(email);
    AccountProps.LemmaFindByEmail(store.users, NormalizeEmail(email), 0);
    var r5 := store.Login(Some(email), Some(newPassword), t0 + 3000);
    assert r5.status == 200;
    statuses := [r1.status, r2.status, r3.status, r4.status, r5.status];
  }
}

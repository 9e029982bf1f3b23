/**
 * Properties of the handlers in module Account: each handler keeps the
 * collection's invariant, every failure except a failed email delivery
 * leaves the collection as it was, login accepts exactly the passwords
 * bcrypt accepts, and a reset token is good for one use, only before its
 * expiry, and only until it is replaced.
 */
module AccountProps {
  import opened Wrappers
  import opened UserModel
  import opened Primitives
  import opened Account

  // ---------------------------------------------------------------------------
  // Lookups under the unique indexes
  // ---------------------------------------------------------------------------

  /** With unique emails, looking a user up by email finds exactly the record
      that holds that email. */
  lemma LemmaFindByEmail(users: seq<User>, email: string, j: nat)
    requires UniqueKeys(users)
    requires j < |users| && users[j].email == email
    ensures FindOne(users, ByEmail(email)) == Some(j)
  {
    assert Matches(ByEmail(email), users[j]);
  }

  /** After record `j` is replaced by `u`, a filter that `u` matches and no other
      record matches finds exactly `j`; one that nothing matches finds nothing. */
  lemma LemmaFindAfterUpdate(users: seq<User>, j: nat, u: User, f: Filter)
    requires j < |users|
    requires forall k :: 0 <= k < |users| && k != j ==> !Matches(f, users[k])
    ensures FindOne(users[j := u], f) == if Matches(f, u) then Some(j) else None
  {
    var v := users[j := u];
    assert v[j] == u;
    assert forall k :: 0 <= k < |v| && k != j ==> v[k] == users[k];
  }

  /** No record holds the reset-token hash `h`. */
  predicate NoRecordHolds(users: seq<User>, h: string) {
    forall j :: 0 <= j < |users| ==> users[j].resetToken != Some(h)
  }

  /** Every record passed the `required` validators: the part of
      `StoreInvariant` that the token lifecycle lemmas need, together with
      `UniqueKeys`. */
  predicate AllRequiredPresent(users: seq<User>) {
    forall i :: 0 <= i < |users| ==> RequiredPresent(users[i])
  }

  /** A hash no record holds matches nothing, whatever the time. */
  lemma LemmaNoHolderNoMatch(users: seq<User>, h: string, now: int)
    requires NoRecordHolds(users, h)
    ensures FindOne(users, ByValidResetToken(h, now)).None?
  {
    assert forall k :: 0 <= k < |users| ==> !Matches(ByValidResetToken(h, now), users[k]);
  }

  /** Storing a reset token on one record keeps the unique indexes. */
  lemma LemmaSetTokenKeepsKeys(users: seq<User>, j: nat, h: string, expiry: int)
    requires UniqueKeys(users) && j < |users|
    ensures var v := users[j := users[j].(resetToken := Some(h), resetTokenExpiry := Some(expiry))];
            UniqueKeys(v) && v[j].email == users[j].email
  {
    var v := users[j := users[j].(resetToken := Some(h), resetTokenExpiry := Some(expiry))];
    assert forall k :: 0 <= k < |v| ==>
      v[k].id == users[k].id && v[k].email == users[k].email && v[k].username == users[k].username;
  }

  /** When record `j` first gets `h1` and then a different `h2`, and no other
      record holds `h1`, nothing matches `h1` any more. */
  lemma LemmaReplacedTokenNoLongerMatches(users: seq<User>, j: nat, h1: string, e1: int,
                                          h2: string, e2: int, now: int)
    requires j < |users| && NoRecordHolds(users, h1) && h1 != h2
    ensures var v1 := users[j := users[j].(resetToken := Some(h1), resetTokenExpiry := Some(e1))];
            var v2 := v1[j := v1[j].(resetToken := Some(h2), resetTokenExpiry := Some(e2))];
            FindOne(v2, ByValidResetToken(h1, now)).None?
  {
    var v1 := users[j := users[j].(resetToken := Some(h1), resetTokenExpiry := Some(e1))];
    var v2 := v1[j := v1[j].(resetToken := Some(h2), resetTokenExpiry := Some(e2))];
    assert forall k :: 0 <= k < |v2| && k != j ==> v2[k] == users[k];
    assert NoRecordHolds(v2, h1);
    LemmaNoHolderNoMatch(v2, h1, now);
  }

  // ---------------------------------------------------------------------------
  // The invariant is kept
  // ---------------------------------------------------------------------------

  /** Replacing one record by a valid one with the same keys keeps the invariant. */
  lemma LemmaReplaceKeepsInvariant(db: Db, i: nat, u: User)
    requires StoreInvariant(db) && i < |db.users|
    requires u.id == db.users[i].id && u.username == db.users[i].username && u.email == db.users[i].email
    requires RequiredPresent(u) && ResetFieldsPaired(u)
    ensures StoreInvariant(Db(db.users[i := u], db.nextId))
  {
    var v := db.users[i := u];
    assert UniqueKeys(v) by {
      assert forall k :: 0 <= k < |v| ==>
        v[k].id == db.users[k].id && v[k].email == db.users[k].email && v[k].username == db.users[k].username;
    }
    forall k | 0 <= k < |v|
      ensures RequiredPresent(v[k]) && Normalized(v[k]) && ResetFieldsPaired(v[k]) && v[k].id < db.nextId
    {
      if k == i {
        assert Normalized(db.users[i]) && db.users[i].id < db.nextId;
      } else {
        assert v[k] == db.users[k];
      }
    }
  }

  /** Appending a valid, normalised record with fresh keys and the next `_id`
      keeps the invariant. */
  lemma LemmaAppendKeepsInvariant(db: Db, u: User)
    requires StoreInvariant(db)
    requires RequiredPresent(u) && Normalized(u) && ResetFieldsPaired(u) && u.id == db.nextId
    requires forall k :: 0 <= k < |db.users| ==> db.users[k].email != u.email && db.users[k].username != u.username
    ensures StoreInvariant(Db(db.users + [u], db.nextId + 1))
  {
    var v := db.users + [u];
    assert v[|db.users|] == u;
    assert forall k :: 0 <= k < |db.users| ==> v[k] == db.users[k];
    assert UniqueKeys(v) by {
      forall a, b | 0 <= a < b < |v|
        ensures v[a].id != v[b].id && v[a].username != v[b].username && v[a].email != v[b].email
      {
        if b == |db.users| {
          assert v[a] == db.users[a];
          assert db.users[a].id < db.nextId;
        } else {
          assert v[a] == db.users[a] && v[b] == db.users[b];
        }
      }
    }
    forall k | 0 <= k < |v|
      ensures RequiredPresent(v[k]) && Normalized(v[k]) && ResetFieldsPaired(v[k]) && v[k].id < db.nextId + 1
    {
      if k < |db.users| {
        assert v[k] == db.users[k];
      }
    }
  }

  lemma LemmaRegisterPreservesInvariant(db: Db, c: Crypto, email: Option<string>, username: Option<string>,
                                        password: Option<string>, salt: string)
    requires StoreInvariant(db)
    ensures StoreInvariant(Register(db, c, email, username, password, salt).db)
  {
    if !(Missing(email) || Missing(username) || Missing(password)) {
      var filter := ByEmailOrUsername(NormalizeEmail(email.value), NormalizeUsername(username.value));
      var u := Cast(db.nextId, email.value, username.value, c.bcryptHash(password.value, salt));
      if FindOne(db.users, filter).None? && RequiredPresent(u) {
        assert Register(db, c, email, username, password, salt).db == Db(db.users + [u], db.nextId + 1);
        forall i | 0 <= i < |db.users|
          ensures db.users[i].email != u.email && db.users[i].username != u.username
        {
          assert !Matches(filter, db.users[i]);
        }
        LemmaAppendKeepsInvariant(db, u);
      }
    }
  }

  lemma LemmaForgotPreservesInvariant(db: Db, c: Crypto, clientUrl: string, email: Option<string>,
                                      random: seq<Byte>, now: int, delivered: bool)
    requires StoreInvariant(db) && |random| == RESET_TOKEN_BYTES
    ensures StoreInvariant(ForgotPassword(db, c, clientUrl, email, random, now, delivered).db)
  {
    var found := FindOne(db.users, ForgotFilter(email));
    if found.Some? {
      var i := found.value;
      var u := db.users[i].(resetToken := Some(c.sha256Hex(Hex(random))),
                            resetTokenExpiry := Some(now + RESET_TOKEN_TTL_MS));
      assert ForgotPassword(db, c, clientUrl, email, random, now, delivered).db == Db(db.users[i := u], db.nextId);
      LemmaReplaceKeepsInvariant(db, i, u);
    }
  }

  lemma LemmaResetPreservesInvariant(db: Db, c: Crypto, token: string, password: Option<string>,
                                     salt: string, now: int)
    requires StoreInvariant(db)
    ensures StoreInvariant(ResetPassword(db, c, token, password, salt, now).db)
  {
    var found := FindOne(db.users, ByValidResetToken(c.sha256Hex(token), now));
    if found.Some? && password.Some? {
      var i := found.value;
      var u := db.users[i].(password := c.bcryptHash(password.value, salt),
                            resetToken := None, resetTokenExpiry := None);
      if RequiredPresent(u) {
        assert ResetPassword(db, c, token, password, salt, now).db == Db(db.users[i := u], db.nextId);
        LemmaReplaceKeepsInvariant(db, i, u);
      }
    }
  }

  // ---------------------------------------------------------------------------
  // register
  // ---------------------------------------------------------------------------

  /** A request missing any of the three fields is answered 400 and creates
      nothing. */
  lemma LemmaRegisterMissingFields(db: Db, c: Crypto, email: Option<string>, username: Option<string>,
                                   password: Option<string>, salt: string)
    requires Missing(email) || Missing(username) || Missing(password)
    ensures var st := Register(db, c, email, username, password, salt);
            st.resp == Reply(400, MissingFields) && st.db == db
  {
  }

  /** When some user already has the email or the username (after the schema's
      normalisation), registration is answered 400 and creates nothing. */
  lemma LemmaRegisterRejectsDuplicate(db: Db, c: Crypto, email: string, username: string,
                                      password: string, salt: string, j: nat)
    requires email != "" && username != "" && password != ""
    requires j < |db.users|
    requires db.users[j].email == NormalizeEmail(email) || db.users[j].username == NormalizeUsername(username)
    ensures var st := Register(db, c, Some(email), Some(username), Some(password), salt);
            st.resp == Reply(400, AlreadyRegistered) && st.db == db
  {
    assert Matches(ByEmailOrUsername(NormalizeEmail(email), NormalizeUsername(username)), db.users[j]);
  }

  /** Registration succeeds exactly when the fields are present, neither key is
      taken and the normalised record passes validation; the new record holds
      the bcrypt hash of the password, no reset token, and the response shows
      only its id, username and email. Any other outcome creates nothing. */
  lemma LemmaRegisterOutcome(db: Db, c: Crypto, email: Option<string>, username: Option<string>,
                             password: Option<string>, salt: string)
    ensures var st := Register(db, c, email, username, password, salt);
            st.resp.status == 201 <==>
              && !Missing(email) && !Missing(username) && !Missing(password)
              && (forall j :: 0 <= j < |db.users| ==>
                    db.users[j].email != NormalizeEmail(email.value)
                    && db.users[j].username != NormalizeUsername(username.value))
              && NormalizeEmail(email.value) != "" && NormalizeUsername(username.value) != ""
              && c.bcryptHash(password.value, salt) != ""
    ensures var st := Register(db, c, email, username, password, salt);
            st.resp.status == 201 ==>
              var u := User(db.nextId, NormalizeUsername(username.value), NormalizeEmail(email.value),
                            c.bcryptHash(password.value, salt), None, None);
              && st.db == Db(db.users + [u], db.nextId + 1)
              && st.resp.user == Some(PublicUser(u.id, u.username, u.email))
              && st.resp.cookie.None?
    ensures var st := Register(db, c, email, username, password, salt);
            st.resp.status != 201 ==> st.db == db && st.resp.status in {400, 500}
  {
    if !Missing(email) && !Missing(username) && !Missing(password) {
      var filter := ByEmailOrUsername(NormalizeEmail(email.value), NormalizeUsername(username.value));
      if FindOne(db.users, filter).Some? {
        var k := FindOne(db.users, filter).value;
        assert Matches(filter, db.users[k]);
      }
    }
  }

  /** A user who has just registered can log in with the same password, under
      any spelling of the email that normalises to the stored one, provided
      bcrypt accepts a password against its own hash. */
  lemma LemmaRegisterThenLogin(db: Db, c: Crypto, email: string, username: string, password: string,
                               salt: string, loginEmail: string, now: int)
    requires StoreInvariant(db)
    requires Register(db, c, Some(email), Some(username), Some(password), salt).resp.status == 201
    requires NormalizeEmail(loginEmail) == NormalizeEmail(email)
    requires c.bcryptCompare(password, c.bcryptHash(password, salt))
    ensures var st := Register(db, c, Some(email), Some(username), Some(password), salt);
            var r := Login(st.db, c, Some(loginEmail), Some(password), now);
            r.status == 200 && r.user == st.resp.user
  {
    var st := Register(db, c, Some(email), Some(username), Some(password), salt);
    LemmaRegisterOutcome(db, c, Some(email), Some(username), Some(password), salt);
    LemmaRegisterPreservesInvariant(db, c, Some(email), Some(username), Some(password), salt);
    LemmaFindByEmail(st.db.users, NormalizeEmail(email), |db.users|);
  }

  // ---------------------------------------------------------------------------
  // login
  // ---------------------------------------------------------------------------

  /** An unknown email and a wrong password get the identical answer: 400
      "Invalid credentials", with no user and no cookie. */
  lemma LemmaLoginUniformFailure(db: Db, c: Crypto, email: string, password: string, now: int)
    requires StoreInvariant(db)
    requires email != "" && password != ""
    requires (forall j :: 0 <= j < |db.users| ==> db.users[j].email != NormalizeEmail(email))
             || (exists j :: 0 <= j < |db.users| && db.users[j].email == NormalizeEmail(email)
                             && !c.bcryptCompare(password, db.users[j].password))
    ensures Login(db, c, Some(email), Some(password), now) == INVALID_CREDENTIALS
  {
    if j :| 0 <= j < |db.users| && db.users[j].email == NormalizeEmail(email)
                                 && !c.bcryptCompare(password, db.users[j].password) {
      LemmaFindByEmail(db.users, NormalizeEmail(email), j);
    }
  }

  /** Login succeeds exactly when a user has the (normalised) email and bcrypt
      accepts the password against that user's stored hash; the success sets
      the `token` cookie with a one-hour max-age and shows the user's public
      fields. Every other answer is 400. */
  lemma LemmaLoginSucceedsIff(db: Db, c: Crypto, email: Option<string>, password: Option<string>, now: int)
    requires StoreInvariant(db)
    ensures var r := Login(db, c, email, password, now);
            r.status == 200 <==>
              && !Missing(email) && !Missing(password)
              && exists j :: 0 <= j < |db.users| && db.users[j].email == NormalizeEmail(email.value)
                             && c.bcryptCompare(password.value, db.users[j].password)
    ensures var r := Login(db, c, email, password, now);
            r.status == 200 || (r.status == 400 && r.user.None? && r.cookie.None?)
    ensures var r := Login(db, c, email, password, now);
            forall j :: 0 <= j < |db.users| && r.status == 200 && db.users[j].email == NormalizeEmail(email.value) ==>
              && r.user == Some(PublicUser(db.users[j].id, db.users[j].username, db.users[j].email))
              && r.cookie == Some(Cookie(COOKIE_NAME, c.jwtSign(db.users[j].id, now / 1000, now / 1000 + 3600), 3600000))
  {
    if !Missing(email) && !Missing(password) {
      var key := NormalizeEmail(email.value);
      if j :| 0 <= j < |db.users| && db.users[j].email == key {
        LemmaFindByEmail(db.users, key, j);
        assert forall k :: 0 <= k < |db.users| && db.users[k].email == key ==> k == j;
      }
    }
  }

  // ---------------------------------------------------------------------------
  // forgot-password
  // ---------------------------------------------------------------------------

  /** An email no user has is answered 404; no record changes and no email is
      sent. */
  lemma LemmaForgotUnknownEmail(db: Db, c: Crypto, clientUrl: string, email: string,
                                random: seq<Byte>, now: int, delivered: bool)
    requires |random| == RESET_TOKEN_BYTES
    requires forall j :: 0 <= j < |db.users| ==> db.users[j].email != NormalizeEmail(email)
    ensures var st := ForgotPassword(db, c, clientUrl, Some(email), random, now, delivered);
            st.resp == Reply(404, UserNotFound) && st.db == db && st.mail.None?
  {
  }

  /** For a known email, forgot-password stores the SHA-256 of the raw token
      and an expiry one hour after `now` on that user, and on no other. */
  lemma LemmaForgotStoresToken(db: Db, c: Crypto, clientUrl: string, email: string,
                               random: seq<Byte>, now: int, delivered: bool, j: nat)
    requires UniqueKeys(db.users) && |random| == RESET_TOKEN_BYTES
    requires j < |db.users| && db.users[j].email == NormalizeEmail(email)
    ensures var st := ForgotPassword(db, c, clientUrl, Some(email), random, now, delivered);
            st.db == Db(db.users[j := db.users[j].(resetToken := Some(c.sha256Hex(Hex(random))),
                                                     resetTokenExpiry := Some(now + 3600000))],
                        db.nextId)
  {
    LemmaFindByEmail(db.users, NormalizeEmail(email), j);
  }

  /** For a known email, forgot-password mails that user a link ending in the
      raw token (64 hex digits), and answers 200 when the mail goes out and 500
      when it does not. */
  lemma LemmaForgotSendsLink(db: Db, c: Crypto, clientUrl: string, email: string,
                             random: seq<Byte>, now: int, delivered: bool, j: nat)
    requires UniqueKeys(db.users) && |random| == RESET_TOKEN_BYTES
    requires j < |db.users| && db.users[j].email == NormalizeEmail(email)
    ensures var st := ForgotPassword(db, c, clientUrl, Some(email), random, now, delivered);
            && st.mail == Some(Mail(db.users[j].email, RESET_EMAIL_SUBJECT,
                                    clientUrl + RESET_PATH + Hex(random)))
            && |Hex(random)| == 64
            && st.resp == (if delivered then Reply(200, ResetLinkSent)
                           else Reply(500, ResetEmailFailed))
  {
    LemmaFindByEmail(db.users, NormalizeEmail(email), j);
  }

  /** The token is saved before the mail is sent: the collection after the
      request does not depend on whether the delivery succeeded. */
  lemma LemmaForgotKeepsTokenOnMailFailure(db: Db, c: Crypto, clientUrl: string, email: Option<string>,
                                           random: seq<Byte>, now: int)
    requires |random| == RESET_TOKEN_BYTES
    ensures ForgotPassword(db, c, clientUrl, email, random, now, false).db
         == ForgotPassword(db, c, clientUrl, email, random, now, true).db
  {
  }

  // ---------------------------------------------------------------------------
  // reset-password
  // ---------------------------------------------------------------------------

  /** A reset succeeds exactly when some user holds the SHA-256 of the token
      with an expiry strictly after `now`, a password is given and its hash
      passes validation. On success the first such user gets the new hash and
      loses both reset fields, and nothing else changes; on failure nothing
      changes. */
  lemma LemmaResetOutcome(db: Db, c: Crypto, token: string, password: Option<string>, salt: string, now: int)
    requires StoreInvariant(db)
    ensures var st := ResetPassword(db, c, token, password, salt, now);
            st.resp.status == 200 <==>
              && (exists j :: 0 <= j < |db.users| && db.users[j].resetToken == Some(c.sha256Hex(token))
                             && db.users[j].resetTokenExpiry.Some? && db.users[j].resetTokenExpiry.value > now)
              && password.Some? && c.bcryptHash(password.value, salt) != ""
    ensures var st := ResetPassword(db, c, token, password, salt, now);
            st.resp.status == 200 ==>
              exists i :: 0 <= i < |db.users| && db.users[i].resetToken == Some(c.sha256Hex(token))
                && db.users[i].resetTokenExpiry.Some? && db.users[i].resetTokenExpiry.value > now
                && st.db == db.(users := db.users[i := db.users[i].(password := c.bcryptHash(password.value, salt),
                                                                    resetToken := None, resetTokenExpiry := None)])
    ensures var st := ResetPassword(db, c, token, password, salt, now);
            st.resp.status != 200 ==> st.db == db && st.resp.status in {400, 500}
  {
    var f := ByValidResetToken(c.sha256Hex(token), now);
    if j :| 0 <= j < |db.users| && Matches(f, db.users[j]) {
      var i := FindOne(db.users, f).value;
      assert RequiredPresent(db.users[i]);
    }
  }

  /** Once record `j` holds the reset hash `h` with expiry `expiry`, and no other
      record holds `h`, a lookup of `h` at time `now` finds record `j` exactly
      while `now < expiry`. */
  lemma LemmaFreshTokenMatch(users: seq<User>, j: nat, h: string, expiry: int, now: int)
    requires j < |users| && NoRecordHolds(users, h)
    ensures var u := users[j].(resetToken := Some(h), resetTokenExpiry := Some(expiry));
            FindOne(users[j := u], ByValidResetToken(h, now)) == if now < expiry then Some(j) else None
  {
    var u := users[j].(resetToken := Some(h), resetTokenExpiry := Some(expiry));
    var f := ByValidResetToken(h, now);
    assert forall k :: 0 <= k < |users| && k != j ==> !Matches(f, users[k]);
    LemmaFindAfterUpdate(users, j, u, f);
  }

  /** A reset whose token finds record `i`, with a valid new hash, stores that
      hash on `i` and clears its reset fields. */
  lemma LemmaResetFound(db: Db, c: Crypto, token: string, password: string, salt: string, now: int, i: nat)
    requires i < |db.users| && FindOne(db.users, ByValidResetToken(c.sha256Hex(token), now)) == Some(i)
    requires RequiredPresent(db.users[i].(password := c.bcryptHash(password, salt),
                                          resetToken := None, resetTokenExpiry := None))
    ensures ResetPassword(db, c, token, Some(password), salt, now)
         == Step(Reply(200, ResetSuccessful),
                 Db(db.users[i := db.users[i].(password := c.bcryptHash(password, salt),
                                               resetToken := None, resetTokenExpiry := None)], db.nextId),
                 None)
  {
  }

  /** A reset whose token finds no record answers 400 and changes nothing. */
  lemma LemmaResetNotFound(db: Db, c: Crypto, token: string, password: Option<string>, salt: string, now: int)
    requires FindOne(db.users, ByValidResetToken(c.sha256Hex(token), now)).None?
    ensures ResetPassword(db, c, token, password, salt, now) == Step(INVALID_RESET_TOKEN, db, None)
  {
  }

  /** A reset with a token whose hash only record `j` holds, with expiry `e`,
      succeeds exactly while `now < e`; then it stores the new hash on `j` and
      clears its reset fields, and otherwise it answers 400 and changes
      nothing. */
  lemma LemmaResetOnFreshToken(users: seq<User>, n: nat, c: Crypto, token: string, password: string,
                               salt: string, e: int, now: int, j: nat)
    requires j < |users| && NoRecordHolds(users, c.sha256Hex(token))
    requires RequiredPresent(users[j]) && c.bcryptHash(password, salt) != ""
    ensures var v := users[j := users[j].(resetToken := Some(c.sha256Hex(token)), resetTokenExpiry := Some(e))];
            ResetPassword(Db(v, n), c, token, Some(password), salt, now)
            == if now < e then
                 Step(Reply(200, ResetSuccessful),
                      Db(v[j := v[j].(password := c.bcryptHash(password, salt),
                                      resetToken := None, resetTokenExpiry := None)], n),
                      None)
               else Step(INVALID_RESET_TOKEN, Db(v, n), None)
  {
    var h := c.sha256Hex(token);
    var v := users[j := users[j].(resetToken := Some(h), resetTokenExpiry := Some(e))];
    LemmaFreshTokenMatch(users, j, h, e, now);
    if now < e {
      LemmaResetFound(Db(v, n), c, token, password, salt, now, j);
    } else {
      LemmaResetNotFound(Db(v, n), c, token, Some(password), salt, now);
    }
  }

  /** When record `j`, the only holder of the reset hash `h`, has its reset
      fields cleared, a lookup of `h` finds nothing, at any time. */
  lemma LemmaUsedTokenNoLongerMatches(users: seq<User>, j: nat, h: string, e: int, p: string, now: int)
    requires j < |users| && NoRecordHolds(users, h)
    ensures var v1 := users[j := users[j].(resetToken := Some(h), resetTokenExpiry := Some(e))];
            var v2 := v1[j := v1[j].(password := p, resetToken := None, resetTokenExpiry := None)];
            FindOne(v2, ByValidResetToken(h, now)).None?
  {
    var v1 := users[j := users[j].(resetToken := Some(h), resetTokenExpiry := Some(e))];
    var v2 := v1[j := v1[j].(password := p, resetToken := None, resetTokenExpiry := None)];
    assert forall k :: 0 <= k < |v2| && k != j ==> v2[k] == users[k];
    assert NoRecordHolds(v2, h);
    LemmaNoHolderNoMatch(v2, h, now);
  }

  /** Forgot-password for user `j` followed by a reset with the emailed token:
      the first stores the fresh hash on `j` alone, and the second succeeds
      exactly while the token is unexpired. */
  lemma LemmaForgotThenReset(db: Db, c: Crypto, clientUrl: string, email: string, random: seq<Byte>,
                             t0: int, delivered: bool, password: string, salt: string, now: int, j: nat)
    requires UniqueKeys(db.users) && |random| == RESET_TOKEN_BYTES
    requires j < |db.users| && db.users[j].email == NormalizeEmail(email) && RequiredPresent(db.users[j])
    requires NoRecordHolds(db.users, c.sha256Hex(Hex(random)))
    requires c.bcryptHash(password, salt) != ""
    ensures var e := t0 + RESET_TOKEN_TTL_MS;
            var v := db.users[j := db.users[j].(resetToken := Some(c.sha256Hex(Hex(random))), resetTokenExpiry := Some(e))];
            var s1 := ForgotPassword(db, c, clientUrl, Some(email), random, t0, delivered);
            && s1.db == Db(v, db.nextId)
            && ResetPassword(s1.db, c, Hex(random), Some(password), salt, now)
               == if now < e then
                    Step(Reply(200, ResetSuccessful),
                         Db(v[j := v[j].(password := c.bcryptHash(password, salt),
                                         resetToken := None, resetTokenExpiry := None)], db.nextId),
                         None)
                  else Step(INVALID_RESET_TOKEN, Db(v, db.nextId), None)
  {
    LemmaForgotStoresToken(db, c, clientUrl, email, random, t0, delivered, j);
    LemmaResetOnFreshToken(db.users, db.nextId, c, Hex(random), password, salt, t0 + RESET_TOKEN_TTL_MS, now, j);
  }

  /** A reset token is good for one use: after a reset with it succeeds, a
      second reset with the same raw token fails with 400, at any time and
      with any password, and changes nothing. */
  lemma LemmaTokenSingleUse(db: Db, c: Crypto, clientUrl: string, email: string, random: seq<Byte>,
                            t0: int, delivered: bool, password: string, salt: string, t1: int,
                            password2: Option<string>, salt2: string, t2: int)
    requires UniqueKeys(db.users) && AllRequiredPresent(db.users) && |random| == RESET_TOKEN_BYTES
    requires exists j :: 0 <= j < |db.users| && db.users[j].email == NormalizeEmail(email)
    requires NoRecordHolds(db.users, c.sha256Hex(Hex(random)))
    requires t1 < t0 + RESET_TOKEN_TTL_MS
    requires c.bcryptHash(password, salt) != ""
    ensures var s1 := ForgotPassword(db, c, clientUrl, Some(email), random, t0, delivered);
            var s2 := ResetPassword(s1.db, c, Hex(random), Some(password), salt, t1);
            var s3 := ResetPassword(s2.db, c, Hex(random), password2, salt2, t2);
            && s2.resp.status == 200
            && s3.resp == INVALID_RESET_TOKEN && s3.db == s2.db
  {
    var j :| 0 <= j < |db.users| && db.users[j].email == NormalizeEmail(email);
    var h, e := c.sha256Hex(Hex(random)), t0 + RESET_TOKEN_TTL_MS;
    var p := c.bcryptHash(password, salt);
    var u1 := db.users[j].(resetToken := Some(h), resetTokenExpiry := Some(e));
    var users1 := db.users[j := u1];
    var db2 := Db(users1[j := u1.(password := p, resetToken := None, resetTokenExpiry := None)], db.nextId);
    assert RequiredPresent(db.users[j]);
    LemmaForgotThenReset(db, c, clientUrl, email, random, t0, delivered, password, salt, t1, j);
    assert ResetPassword(db2, c, Hex(random), password2, salt2, t2) == Step(INVALID_RESET_TOKEN, db2, None) by {
      LemmaUsedTokenNoLongerMatches(db.users, j, h, e, p, t2);
      LemmaResetNotFound(db2, c, Hex(random), password2, salt2, t2);
    }
  }

  /** A reset token expires at a strict boundary: a reset at time `now` with
      the token issued at `t0` succeeds exactly when `now < t0 + 3600000`. */
  lemma LemmaTokenExpiry(db: Db, c: Crypto, clientUrl: string, email: string, random: seq<Byte>,
                         t0: int, delivered: bool, password: string, salt: string, now: int)
    requires UniqueKeys(db.users) && AllRequiredPresent(db.users) && |random| == RESET_TOKEN_BYTES
    requires exists j :: 0 <= j < |db.users| && db.users[j].email == NormalizeEmail(email)
    requires NoRecordHolds(db.users, c.sha256Hex(Hex(random)))
    requires c.bcryptHash(password, salt) != ""
    ensures var s1 := ForgotPassword(db, c, clientUrl, Some(email), random, t0, delivered);
            var s2 := ResetPassword(s1.db, c, Hex(random), Some(password), salt, now);
            (s2.resp.status == 200 <==> now < t0 + RESET_TOKEN_TTL_MS)
            && (now >= t0 + RESET_TOKEN_TTL_MS ==> s2.resp == INVALID_RESET_TOKEN && s2.db == s1.db)
  {
    var j :| 0 <= j < |db.users| && db.users[j].email == NormalizeEmail(email);
    assert RequiredPresent(db.users[j]);
    LemmaForgotThenReset(db, c, clientUrl, email, random, t0, delivered, password, salt, now, j);
  }

  /** Requesting a second reset replaces the first token: once the user has
      asked again (with different random bytes), the earlier link no longer
      works, provided SHA-256 has no collisions. */
  lemma LemmaReRequestInvalidatesEarlierToken(db: Db, c: Crypto, clientUrl: string, email: string,
                                              random1: seq<Byte>, t1: int, delivered1: bool,
                                              random2: seq<Byte>, t2: int, delivered2: bool,
                                              password: Option<string>, salt: string, now: int)
    requires UniqueKeys(db.users) && |random1| == RESET_TOKEN_BYTES && |random2| == RESET_TOKEN_BYTES
    requires Sha256Injective(c) && random1 != random2
    requires exists j :: 0 <= j < |db.users| && db.users[j].email == NormalizeEmail(email)
    requires NoRecordHolds(db.users, c.sha256Hex(Hex(random1)))
    ensures var s1 := ForgotPassword(db, c, clientUrl, Some(email), random1, t1, delivered1);
            var s2 := ForgotPassword(s1.db, c, clientUrl, Some(email), random2, t2, delivered2);
            var s3 := ResetPassword(s2.db, c, Hex(random1), password, salt, now);
            s3.resp == INVALID_RESET_TOKEN && s3.db == s2.db
  {
    var j :| 0 <= j < |db.users| && db.users[j].email == NormalizeEmail(email);
    var h1, h2 := c.sha256Hex(Hex(random1)), c.sha256Hex(Hex(random2));
    var e1, e2 := t1 + RESET_TOKEN_TTL_MS, t2 + RESET_TOKEN_TTL_MS;
    var users1 := db.users[j := db.users[j].(resetToken := Some(h1), resetTokenExpiry := Some(e1))];
    var users2 := users1[j := users1[j].(resetToken := Some(h2), resetTokenExpiry := Some(e2))];
    var s1 := ForgotPassword(db, c, clientUrl, Some(email), random1, t1, delivered1);
    assert s1.db == Db(users1, db.nextId) by {
      LemmaForgotStoresToken(db, c, clientUrl, email, random1, t1, delivered1, j);
    }
    var s2 := ForgotPassword(s1.db, c, clientUrl, Some(email), random2, t2, delivered2);
    assert s2.db == Db(users2, db.nextId) by {
      LemmaSetTokenKeepsKeys(db.users, j, h1, e1);
      LemmaForgotStoresToken(Db(users1, db.nextId), c, clientUrl, email, random2, t2, delivered2, j);
    }
    assert FindOne(users2, ByValidResetToken(h1, now)).None? by {
      LemmaHexInjective(random1, random2);
      LemmaReplacedTokenNoLongerMatches(db.users, j, h1, e1, h2, e2, now);
    }
    LemmaResetNotFound(s2.db, c, Hex(random1), password, salt, now);
  }
}

/**
 * What the account handlers guarantee, proved about the transition functions of
 * `Accounts`: token rotation revokes every earlier refresh token, logout revokes
 * all of them, the order of the login checks, the signup rules, the verification
 * token's lifetime, and the invariant every handler keeps.
 */
module AccountProofs {
  import opened Wrappers
  import opened Accounts
  import Text

  // ---------------------------------------------------------------------------
  // Token rotation and revocation

  /**
   * A rotation raises the user's version by exactly one, stores the new refresh token,
   * whose claims are the user and the new version, and changes no other row or field.
   */
  lemma GenerateTokenMeans(db: Db, uid: UserId, now: int)
    requires uid in db.users
    ensures var o := GenerateToken(db, uid, now);
      var u := db.users[uid];
      && o.result.Ok?
      && var tokens := o.result.value;
      && tokens.refresh == Jwt(RefreshSecret, Some(uid), Some(u.tokenVersion + 1), now)
      && tokens.access == Jwt(AccessSecret, Some(uid), Some(u.tokenVersion + 1), now)
      && o.db.users == db.users[uid := u.(tokenVersion := u.tokenVersion + 1, refreshToken := Some(tokens.refresh))]
      && o.db.profiles == db.profiles && o.db.rooms == db.rooms
  {
  }

  /** `generateToken` for a user that does not exist fails with 500 and changes nothing. */
  lemma GenerateTokenUnknownUser(db: Db, uid: UserId, now: int)
    requires uid !in db.users
    ensures GenerateToken(db, uid, now) == Outcome(db, Err(Error(500, TokenGenerationFailed)))
  {
  }

  /** The refresh checks pass exactly for the user's stored refresh token at the current version, while it is live. */
  lemma RefreshCheckMeans(users: map<UserId, User>, incoming: Presented, live: bool)
    ensures RefreshCheck(users, incoming, live).Ok? <==>
      && incoming.Presented? && live
      && var t := incoming.token;
      && t.secret == RefreshSecret && t.userId.Some? && t.userId.value in users
      && users[t.userId.value].refreshToken == Some(t)
      && t.version == Some(users[t.userId.value].tokenVersion)
    ensures RefreshCheck(users, incoming, live).Ok? ==> RefreshCheck(users, incoming, live).value == incoming.token.userId.value
    ensures RefreshCheck(users, incoming, live).Err? ==> RefreshCheck(users, incoming, live).error.status == 401
  {
  }

  /** The error a refresh responds with, check by check. */
  lemma RefreshRejects(users: map<UserId, User>, incoming: Presented, live: bool)
    ensures incoming.Absent? ==> RefreshCheck(users, incoming, live) == Err(Error(401, RefreshTokenRequired))
    ensures (incoming.Garbled? || (incoming.Presented? && (incoming.token.secret != RefreshSecret || !live))) ==>
      RefreshCheck(users, incoming, live) == Err(Error(401, InvalidRefreshToken))
    ensures incoming.Presented? && incoming.token.secret == RefreshSecret && live ==>
      var t := incoming.token;
      && (t.userId.None? || t.version.None? ==> RefreshCheck(users, incoming, live) == Err(Error(401, InvalidPayload)))
      && (t.userId.Some? && t.version.Some? && t.userId.value !in users ==>
            RefreshCheck(users, incoming, live) == Err(Error(401, RefreshUserNotFound)))
      && (t.userId.Some? && t.version.Some? && t.userId.value in users && users[t.userId.value].refreshToken != Some(t) ==>
            RefreshCheck(users, incoming, live) == Err(Error(401, Revoked)))
      && (t.userId.Some? && t.version.Some? && t.userId.value in users && users[t.userId.value].refreshToken == Some(t)
          && t.version.value != users[t.userId.value].tokenVersion ==>
            RefreshCheck(users, incoming, live) == Err(Error(401, VersionMismatch)))
  {
  }

  /** A refresh changes the tables only when every check passes, and then it is a rotation for the checked user. */
  lemma RefreshIssuesOnlyOnSuccess(db: Db, incoming: Presented, live: bool, now: int)
    ensures var o := Refresh(db, incoming, live, now);
      var c := RefreshCheck(db.users, incoming, live);
      && (o.result.Ok? <==> c.Ok?)
      && (o.result.Err? ==> o == Outcome(db, Err(c.error)))
      && (o.result.Ok? ==> o == GenerateToken(db, c.value, now))
  {
    var c := RefreshCheck(db.users, incoming, live);
    if c.Ok? {
      RefreshCheckMeans(db.users, incoming, live);
      assert c.value in db.users;
    }
  }

  /**
   * `generateToken` writes twice, outside a transaction: `GenerateToken` is the version
   * increment followed by the token store. In between, the stored token lags behind the
   * version, so a failure there (answered with 500) leaves a token that is refused as a
   * version mismatch.
   */
  lemma RotationHalfDone(db: Db, uid: UserId, now: int)
    requires TokensAgree(db)
    requires uid in db.users && db.users[uid].refreshToken.Some?
    ensures var mid := RaiseVersion(db, uid);
      var o := GenerateToken(db, uid, now);
      && o.db == mid.(users := mid.users[uid := mid.users[uid].(refreshToken := Some(o.result.value.refresh))])
      && !TokensAgree(mid)
      && RefreshCheck(mid.users, Presented(db.users[uid].refreshToken.value), true) == Err(Error(401, VersionMismatch))
  {
    var mid := RaiseVersion(db, uid);
    assert mid.users[uid].refreshToken == db.users[uid].refreshToken;
  }

  /** Right after a rotation the new refresh token is accepted while live, and no other token is. */
  lemma OnlyLatestAccepted(db: Db, uid: UserId, now: int, t: Jwt, live: bool)
    requires uid in db.users
    ensures var o := GenerateToken(db, uid, now);
      && RefreshCheck(o.db.users, Presented(o.result.value.refresh), live) == (if live then Ok(uid) else Err(Error(401, InvalidRefreshToken)))
      && (t.userId == Some(uid) && RefreshCheck(o.db.users, Presented(t), live).Ok? ==> t == o.result.value.refresh)
  {
  }

  /**
   * Revocation by rotation: every refresh token of the user issued before the
   * rotation, that is at a version no higher than the one before it, is refused.
   */
  lemma RotationRevokesEarlier(db: Db, uid: UserId, now: int, t: Jwt, live: bool)
    requires uid in db.users
    requires t.userId == Some(uid) && t.version.Some? && t.version.value <= db.users[uid].tokenVersion
    ensures RefreshCheck(GenerateToken(db, uid, now).db.users, Presented(t), live).Err?
  {
  }

  /** After logout no token whatsoever is accepted for the user. */
  lemma LogoutRevokesAll(db: Db, uid: UserId, incoming: Presented, live: bool)
    requires uid in db.users
    ensures Logout(db, uid).result.Ok?
    ensures var r := RefreshCheck(Logout(db, uid).db.users, incoming, live);
      r.Ok? ==> r.value != uid
  {
  }

  /** Logout clears the stored token and raises the version by one, changing nothing else. */
  lemma LogoutMeans(db: Db, uid: UserId)
    ensures uid !in db.users ==> Logout(db, uid) == Outcome(db, Err(Error(500, InternalError)))
    ensures uid in db.users ==>
      var u := db.users[uid];
      Logout(db, uid).db == db.(users := db.users[uid := u.(refreshToken := None, tokenVersion := u.tokenVersion + 1)])
  {
  }

  /** A refresh token works once: after it has been exchanged, presenting it again is refused as revoked. */
  lemma ReplayRejected(db: Db, t: Jwt, live: bool, now: int, liveAgain: bool)
    requires Refresh(db, Presented(t), live, now).result.Ok?
    ensures RefreshCheck(Refresh(db, Presented(t), live, now).db.users, Presented(t), liveAgain)
         == if liveAgain then Err(Error(401, Revoked)) else Err(Error(401, InvalidRefreshToken))
  {
  }

  /** A token older than the user's current version is refused, whatever else it carries. */
  lemma StaleVersionRejected(db: Db, t: Jwt, live: bool)
    requires TokensAgree(db)
    requires t.userId.Some? && t.userId.value in db.users
    requires t.version.Some? && t.version.value < db.users[t.userId.value].tokenVersion
    ensures RefreshCheck(db.users, Presented(t), live).Err?
  {
  }

  /**
   * While stored tokens agree with the versions, the version check never decides a
   * refusal: the stored-token comparison has already refused every mismatch.
   */
  lemma VersionCheckRedundant(db: Db, incoming: Presented, live: bool)
    requires TokensAgree(db)
    ensures RefreshCheck(db.users, incoming, live) != Err(Error(401, VersionMismatch))
  {
  }

  /** An access token, signed with the other secret, is refused by the refresh endpoint. */
  lemma AccessTokenRefused(db: Db, uid: UserId, now: int, live: bool)
    requires uid in db.users
    ensures var o := GenerateToken(db, uid, now);
      RefreshCheck(o.db.users, Presented(o.result.value.access), live) == Err(Error(401, InvalidRefreshToken))
  {
  }

  /** The refresh checks do not look at `deletedAt`: a deactivated account can still refresh. */
  lemma RefreshIgnoresDeactivation(users: map<UserId, User>, uid: UserId, when: int, incoming: Presented, live: bool)
    requires uid in users
    ensures RefreshCheck(users[uid := users[uid].(deletedAt := Some(when))], incoming, live) == RefreshCheck(users, incoming, live)
  {
  }

  /** The cookie's token is used whenever there is one, the body's only otherwise. */
  lemma CookieFirst(cookie: Presented, body: Presented)
    ensures !cookie.Absent? ==> IncomingToken(cookie, body) == cookie
    ensures cookie.Absent? ==> IncomingToken(cookie, body) == body
  {
  }

  // ---------------------------------------------------------------------------
  // Login

  /** Login succeeds exactly for a non-blank identifier naming a live, verified user whose password matches. */
  lemma LoginCheckMeans(users: map<UserId, User>, data: string, password: string, matches: (string, string) -> bool)
    ensures var r := LoginCheck(users, data, password, matches);
      && (r.Ok? <==>
            && Text.Trim(data) != "" && Text.Trim(password) != ""
            && FindLogin(users, data).Some?
            && var u := users[FindLogin(users, data).value];
            && u.deletedAt.None? && matches(password, u.passwordDigest) && u.isEmailVerified)
      && (r.Ok? ==> Some(r.value) == FindLogin(users, data))
  {
    var r := LoginCheck(users, data, password, matches);
    if data == "" || password == "" || Text.Trim(password) == "" || Text.Trim(data) == "" {
      assert r.Err? && (Text.Trim(data) == "" || Text.Trim(password) == "");
    } else if FindLogin(users, data).Some? {
      var u := users[FindLogin(users, data).value];
      assert r.Ok? <==> u.deletedAt.None? && matches(password, u.passwordDigest) && u.isEmailVerified;
    }
  }

  /** A deactivated account is refused with 403 before the password is compared. */
  lemma DeactivatedBeforePassword(users: map<UserId, User>, data: string, password: string, m1: (string, string) -> bool, m2: (string, string) -> bool)
    requires Text.Trim(data) != "" && Text.Trim(password) != ""
    requires FindLogin(users, data).Some? && users[FindLogin(users, data).value].deletedAt.Some?
    ensures LoginCheck(users, data, password, m1) == LoginCheck(users, data, password, m2) == Err(Error(403, Deactivated))
  {
  }

  /** An unverified account gets 403 only once the password matches; a wrong password gets 401 first. */
  lemma UnverifiedAfterPassword(users: map<UserId, User>, data: string, password: string, matches: (string, string) -> bool)
    requires Text.Trim(data) != "" && Text.Trim(password) != ""
    requires FindLogin(users, data).Some?
    requires var u := users[FindLogin(users, data).value]; u.deletedAt.None? && !u.isEmailVerified
    ensures LoginCheck(users, data, password, matches)
         == if matches(password, users[FindLogin(users, data).value].passwordDigest)
            then Err(Error(403, EmailNotVerified)) else Err(Error(401, InvalidCredentials))
  {
  }

  /** The login identifier is matched ignoring case. */
  lemma LoginIgnoresCase(users: map<UserId, User>, data: string)
    ensures FindLogin(users, data) == FindLogin(users, Text.Lower(data))
  {
    Text.LowerIdempotent(data);
    forall k | k in users ensures k in LoginMatches(users, data) <==> k in LoginMatches(users, Text.Lower(data)) {
      assert Text.EqualsIgnoringCase(users[k].email, data) == Text.EqualsIgnoringCase(users[k].email, Text.Lower(data));
      assert Text.EqualsIgnoringCase(users[k].name, data) == Text.EqualsIgnoringCase(users[k].name, Text.Lower(data));
    }
    assert LoginMatches(users, data) == LoginMatches(users, Text.Lower(data));
  }

  /** Tokens are issued, and the store changed, only when every login check passes. */
  lemma LoginIssuesOnlyOnSuccess(db: Db, data: string, password: string, matches: (string, string) -> bool, now: int)
    ensures var o := Login(db, data, password, matches, now);
      && (o.result.Ok? <==> LoginCheck(db.users, data, password, matches).Ok?)
      && (o.result.Err? ==> o.db == db)
      && (o.result.Ok? ==> o == GenerateToken(db, LoginCheck(db.users, data, password, matches).value, now))
  {
    var c := LoginCheck(db.users, data, password, matches);
    LoginCheckMeans(db.users, data, password, matches);
    if c.Ok? {
      assert c.value in LoginMatches(db.users, data);
    }
  }

  // ---------------------------------------------------------------------------
  // Email lookups

  /** With emails unique, the email lookup finds exactly the user with that email. */
  lemma FindByEmailMeans(db: Db, email: string, k: UserId)
    requires EmailsUnique(db)
    ensures FindByEmail(db.users, email) == Some(k) <==> k in db.users && db.users[k].email == email
  {
    var ids := WithEmail(db.users, email);
    if k in ids {
      assert ids == {k};
    }
  }

  /** Rewriting a user's row without touching the email leaves every email lookup as it was. */
  lemma FindByEmailStable(users: map<UserId, User>, uid: UserId, u: User, email: string)
    requires uid in users && u.email == users[uid].email
    ensures FindByEmail(users[uid := u], email) == FindByEmail(users, email)
  {
    assert WithEmail(users[uid := u], email) == WithEmail(users, email);
  }

  // ---------------------------------------------------------------------------
  // Email verification

  /**
   * Verifying an unverified user succeeds exactly with the stored token before its
   * expiry, and then marks the user verified and clears token and expiry; a verified
   * user is told so and nothing changes; every refusal changes nothing.
   */
  lemma VerifyEmailMeans(db: Db, token: string, email: string, now: int)
    requires token != "" && email != ""
    requires FindByEmail(db.users, email).Some?
    ensures var uid := FindByEmail(db.users, email).value;
      var u := db.users[uid];
      var o := VerifyEmail(db, token, email, now);
      && (u.isEmailVerified ==> o == Outcome(db, Ok(AlreadyVerified)))
      && (!u.isEmailVerified ==>
            (o.result == Ok(Updated) <==>
               u.verificationToken == Some(token) && (u.tokenExpiresAt.None? || now <= u.tokenExpiresAt.value)))
      && (o.result.Err? ==> o.db == db)
      && (o.result == Ok(Updated) ==>
            o.db == db.(users := db.users[uid := u.(isEmailVerified := true, verificationToken := None, tokenExpiresAt := None)]))
  {
  }

  /** Missing query values are refused with 400, an unknown email with 404. */
  lemma VerifyEmailRejects(db: Db, token: string, email: string, now: int)
    ensures token == "" || email == "" ==> VerifyEmail(db, token, email, now) == Outcome(db, Err(Error(400, TokenAndEmailRequired)))
    ensures token != "" && email != "" && FindByEmail(db.users, email).None? ==>
      VerifyEmail(db, token, email, now) == Outcome(db, Err(Error(404, UserNotFound)))
  {
  }

  /** Once verified, every further verification of that email reports "already verified" and changes nothing. */
  lemma VerifyEmailIdempotent(db: Db, token: string, email: string, now: int, again: string, later: int)
    requires VerifyEmail(db, token, email, now).result == Ok(Updated)
    requires again != ""
    ensures var db' := VerifyEmail(db, token, email, now).db;
      VerifyEmail(db', again, email, later) == Outcome(db', Ok(AlreadyVerified))
  {
    var uid := FindByEmail(db.users, email).value;
    var u := db.users[uid];
    FindByEmailStable(db.users, uid, u.(isEmailVerified := true, verificationToken := None, tokenExpiresAt := None), email);
  }

  /**
   * After a resend, the new token verifies the user exactly until 24 hours after the
   * resend, whether or not the email was delivered.
   */
  lemma ResendThenVerify(db: Db, email: string, token: string, now: int, sent: bool, later: int)
    requires Text.Trim(email) != "" && token != ""
    requires FindByEmail(db.users, email).Some? && !db.users[FindByEmail(db.users, email).value].isEmailVerified
    ensures var db' := ResendVerification(db, email, token, now, sent).db;
      VerifyEmail(db', token, email, later).result
        == if later <= now + VerificationWindow then Ok(Updated) else Err(Error(400, VerificationExpired))
  {
    var uid := FindByEmail(db.users, email).value;
    var u := db.users[uid];
    FindByEmailStable(db.users, uid, u.(verificationToken := Some(token), tokenExpiresAt := Some(now + VerificationWindow)), email);
  }

  /** A resend replaces the token: any other token is refused afterwards. */
  lemma ResendInvalidatesEarlier(db: Db, email: string, token: string, now: int, sent: bool, earlier: string, later: int)
    requires Text.Trim(email) != "" && earlier != "" && earlier != token
    requires FindByEmail(db.users, email).Some? && !db.users[FindByEmail(db.users, email).value].isEmailVerified
    ensures var db' := ResendVerification(db, email, token, now, sent).db;
      VerifyEmail(db', earlier, email, later) == Outcome(db', Err(Error(400, InvalidVerificationToken)))
  {
    var uid := FindByEmail(db.users, email).value;
    var u := db.users[uid];
    FindByEmailStable(db.users, uid, u.(verificationToken := Some(token), tokenExpiresAt := Some(now + VerificationWindow)), email);
  }

  /**
   * A resend: a blank email is refused with 400, an unknown one with 404, a verified user
   * is left as is, an unverified one gets the new token valid for 24 hours and nothing
   * else changes, and an undelivered email is answered with 500 although the new token
   * is already stored.
   */
  lemma ResendMeans(db: Db, email: string, token: string, now: int)
    ensures Text.Trim(email) == "" ==> ResendVerification(db, email, token, now, true) == Outcome(db, Err(Error(400, EmailRequired)))
    ensures ResendVerification(db, email, token, now, false).db == ResendVerification(db, email, token, now, true).db
    ensures Text.Trim(email) != "" && FindByEmail(db.users, email).Some? ==>
      var uid := FindByEmail(db.users, email).value;
      && (db.users[uid].isEmailVerified ==> ResendVerification(db, email, token, now, false) == Outcome(db, Ok(AlreadyVerified)))
      && (!db.users[uid].isEmailVerified ==> ResendVerification(db, email, token, now, false).result == Err(Error(500, EmailNotSent)))
      && (!db.users[uid].isEmailVerified ==>
            var u := db.users[uid];
            ResendVerification(db, email, token, now, true)
            == Outcome(db.(users := db.users[uid := u.(verificationToken := Some(token), tokenExpiresAt := Some(now + VerificationWindow))]),
                       Ok(Updated)))
    ensures Text.Trim(email) != "" && FindByEmail(db.users, email).None? ==>
      && ResendVerification(db, email, token, now, true) == Outcome(db, Err(Error(404, UserNotFound)))
      && ResendVerification(db, email, token, now, false) == Outcome(db, Err(Error(404, UserNotFound)))
  {
  }

  // ---------------------------------------------------------------------------
  // Signup

  /** A refused signup changes nothing. */
  lemma SignupRejectsNoChange(db: Db, form: SignupForm, passwordValid: bool, digest: string, token: string, now: int)
    ensures Signup(db, form, passwordValid, digest, token, now).result.Err? ==> Signup(db, form, passwordValid, digest, token, now).db == db
  {
  }

  /**
   * A signup that passes its checks had non-blank fields, the fields its role needs and a
   * valid password, and met no user with that email or with exactly that name.
   */
  lemma SignupCheckPasses(users: map<UserId, User>, form: SignupForm, passwordValid: bool)
    requires SignupCheck(users, form, passwordValid).None?
    ensures SignupFieldCheck(form, passwordValid).None?
    ensures passwordValid && FullName(form) != "" && Text.Trim(form.email) != "" && Text.Trim(form.password) != ""
    ensures form.role == Some(Doctor) ==> Text.Trim(form.specialty) != "" && Text.Trim(form.clinicLocation) != ""
    ensures form.role == Some(Patient) ==> Text.Trim(form.location) != ""
    ensures forall k :: k in users ==> users[k].email != form.email && users[k].name != FullName(form)
  {
    SignupFieldsFirst(users, form, passwordValid);
    SignupFieldsPass(form, passwordValid);
    SignupNoClash(users, form, passwordValid);
  }

  lemma SignupFieldsFirst(users: map<UserId, User>, form: SignupForm, passwordValid: bool)
    requires SignupCheck(users, form, passwordValid).None?
    ensures SignupFieldCheck(form, passwordValid).None?
  {
  }

  lemma SignupNoClash(users: map<UserId, User>, form: SignupForm, passwordValid: bool)
    requires SignupCheck(users, form, passwordValid).None?
    ensures forall k :: k in users ==> users[k].email != form.email && users[k].name != FullName(form)
  {
  }

  /** Field checks that pass met non-blank fields, the fields the role needs and a valid password. */
  lemma SignupFieldsPass(form: SignupForm, passwordValid: bool)
    requires SignupFieldCheck(form, passwordValid).None?
    ensures passwordValid && FullName(form) != "" && Text.Trim(form.email) != "" && Text.Trim(form.password) != ""
    ensures form.role == Some(Doctor) ==> Text.Trim(form.specialty) != "" && Text.Trim(form.clinicLocation) != ""
    ensures form.role == Some(Patient) ==> Text.Trim(form.location) != ""
  {
  }

  /**
   * The field checks pass exactly when name, email and password are non-blank, a doctor
   * gives a specialty and a clinic location, a patient gives a location, and the
   * password policy accepts the password; another role, or none, needs no more.
   */
  lemma SignupFieldCheckMeans(form: SignupForm, passwordValid: bool)
    ensures SignupFieldCheck(form, passwordValid).None? <==>
      && FullName(form) != "" && Text.Trim(form.email) != "" && Text.Trim(form.password) != ""
      && (form.role == Some(Doctor) ==> Text.Trim(form.specialty) != "" && Text.Trim(form.clinicLocation) != "")
      && (form.role == Some(Patient) ==> Text.Trim(form.location) != "")
      && passwordValid
  {
    if SignupFieldCheck(form, passwordValid).None? {
      SignupFieldsPass(form, passwordValid);
    } else {
      assert |Text.Trim(form.email)| <= |form.email| && |Text.Trim(form.password)| <= |form.password|;
    }
  }

  /**
   * The duplicate checks answer 409: a stored user with exactly the trimmed name is
   * reported first, then one with the same email; a refused signup changes nothing.
   */
  lemma SignupDuplicateRejects(db: Db, form: SignupForm, passwordValid: bool, digest: string, token: string, now: int)
    requires SignupFieldCheck(form, passwordValid).None?
    ensures (exists k :: k in db.users && db.users[k].name == FullName(form)) ==>
      Signup(db, form, passwordValid, digest, token, now) == Outcome(db, Err(Error(409, NameTaken)))
    ensures (forall k :: k in db.users ==> db.users[k].name != FullName(form))
            && (exists k :: k in db.users && db.users[k].email == form.email) ==>
      Signup(db, form, passwordValid, digest, token, now) == Outcome(db, Err(Error(409, EmailTaken)))
  {
    var c := SignupCheck(db.users, form, passwordValid);
    if exists k :: k in db.users && db.users[k].name == FullName(form) {
      assert c == Some(Error(409, NameTaken));
      SignupRefused(db, form, passwordValid, digest, token, now, Error(409, NameTaken));
    } else if exists k :: k in db.users && db.users[k].email == form.email {
      assert c == Some(Error(409, EmailTaken));
      SignupRefused(db, form, passwordValid, digest, token, now, Error(409, EmailTaken));
    }
  }

  lemma NoClashAfterInsert(users: map<UserId, User>, uid: UserId, u: User, email: string, name: string)
    requires forall k :: k in users ==> users[k].email != email && users[k].name != name
    requires u.email != email && u.name != name
    ensures var after := users[uid := u]; forall k :: k in after ==> after[k].email != email && after[k].name != name
  {
  }

  /** Once the field checks pass, only the duplicate checks read the tables. */
  lemma SignupCheckOtherTables(other: map<UserId, User>, form: SignupForm, passwordValid: bool)
    requires SignupFieldCheck(form, passwordValid).None?
    requires forall k :: k in other ==> other[k].email != form.email && other[k].name != FullName(form)
    ensures SignupCheck(other, form, passwordValid).None?
  {
  }

  /** A signup that passes still passes after a user with another email and name is added. */
  lemma SignupPassesAfter(users: map<UserId, User>, uid: UserId, u: User, form: SignupForm, passwordValid: bool)
    requires SignupCheck(users, form, passwordValid).None?
    requires u.email != form.email && u.name != FullName(form)
    ensures SignupCheck(users[uid := u], form, passwordValid).None?
  {
    SignupFieldsFirst(users, form, passwordValid);
    SignupNoClash(users, form, passwordValid);
    NoClashAfterInsert(users, uid, u, form.email, FullName(form));
    SignupCheckOtherTables(users[uid := u], form, passwordValid);
  }

  lemma SameNameTwice(users: map<UserId, User>, uid: UserId, u: User, v: User)
    requires u.name == v.name
    ensures var after := users[uid := u][uid + 1 := v];
      uid in after && uid + 1 in after && after[uid].name == after[uid + 1].name
  {
  }

  /** A signup whose checks fail answers the first failing check's error and changes nothing. */
  lemma SignupRefused(db: Db, form: SignupForm, passwordValid: bool, digest: string, token: string, now: int, e: Error)
    requires SignupCheck(db.users, form, passwordValid) == Some(e)
    ensures Signup(db, form, passwordValid, digest, token, now) == Outcome(db, Err(e))
  {
  }

  /** A signup that passes its checks returns the new id and the tables the transaction leaves. */
  lemma SignupAccepted(db: Db, form: SignupForm, passwordValid: bool, digest: string, token: string, now: int)
    requires SignupCheck(db.users, form, passwordValid).None?
    ensures Signup(db, form, passwordValid, digest, token, now) == Outcome(Created(db, form, digest, token, now), Ok(db.nextUserId))
  {
  }

  /** The tables `Created` leaves for a user with no city, recognised from their parts. */
  lemma CreatedWithoutCity(db: Db, form: SignupForm, digest: string, token: string, now: int, c: Db)
    requires City(form).None?
    requires c.users == db.users[db.nextUserId := NewUser(form, digest, token, now)]
    requires c.profiles == db.profiles[db.nextUserId := NewProfile(form)]
    requires c.nextUserId == db.nextUserId + 1
    requires c.rooms == db.rooms && c.nextRoomId == db.nextRoomId
    ensures c == Created(db, form, digest, token, now)
  {
  }

  /** The tables `Created` leaves for a user with a city, recognised from their parts. */
  lemma CreatedWithCity(db: Db, form: SignupForm, digest: string, token: string, now: int, c: Db)
    requires City(form).Some?
    requires c.users == db.users[db.nextUserId := NewUser(form, digest, token, now)]
    requires c.profiles == db.profiles[db.nextUserId := NewProfile(form)]
    requires c.nextUserId == db.nextUserId + 1
    requires (c.rooms, c.nextRoomId) == JoinCity(db.rooms, db.nextRoomId, City(form).value, db.nextUserId)
    ensures c == Created(db, form, digest, token, now)
  {
  }

  lemma CreatedParts(db: Db, form: SignupForm, digest: string, token: string, now: int)
    ensures var c := Created(db, form, digest, token, now);
      && c.users == db.users[db.nextUserId := NewUser(form, digest, token, now)]
      && c.profiles == db.profiles[db.nextUserId := NewProfile(form)]
      && c.nextUserId == db.nextUserId + 1
      && (City(form).None? ==> c.rooms == db.rooms && c.nextRoomId == db.nextRoomId)
      && (City(form).Some? ==> (c.rooms, c.nextRoomId) == JoinCity(db.rooms, db.nextRoomId, City(form).value, db.nextUserId))
  {
  }

  /** Joining a city keeps room names unique and leaves exactly one room of that name, holding the user. */
  lemma JoinCityMeans(rooms: map<RoomId, Room>, next: nat, city: string, uid: UserId)
    requires UniqueNames(rooms) && forall r :: r in rooms ==> r < next
    ensures var (rs, n) := JoinCity(rooms, next, city, uid);
      && UniqueNames(rs) && next <= n && (forall r :: r in rs ==> r < n)
      && rooms.Keys <= rs.Keys
      && (exists r :: Named(rs, city) == {r} && uid in rs[r].members
                      && rs[r].members == (if r in rooms then rooms[r].members else {}) + {uid})
      && (Named(rooms, city) != {} ==> rs.Keys == rooms.Keys && n == next)
      && (forall r :: r in rooms && rooms[r].name != city ==> rs[r] == rooms[r])
  {
    var (rs, n) := JoinCity(rooms, next, city, uid);
    match Least(Named(rooms, city))
    case Some(r) =>
      assert Named(rs, city) == {r};
    case None =>
      assert Named(rooms, city) == {};
      assert Named(rs, city) == {next};
  }

  /**
   * A successful signup adds exactly one user: unverified, with the trimmed name
   * lowercased, the email as given, and a verification token valid for 24 hours; no
   * earlier user had that email or (exactly) that name; the user joins the single
   * room named after their city, if they gave one.
   */
  lemma SignupEffect(db: Db, form: SignupForm, passwordValid: bool, digest: string, token: string, now: int)
    requires Inv(db)
    requires Signup(db, form, passwordValid, digest, token, now).result.Ok?
    ensures var o := Signup(db, form, passwordValid, digest, token, now);
      var uid := o.result.value;
      && uid !in db.users
      && o.db.users == db.users[uid := NewUser(form, digest, token, now)]
      && o.db.users[uid].name == Text.Lower(FullName(form)) && o.db.users[uid].email == form.email
      && !o.db.users[uid].isEmailVerified
      && o.db.users[uid].verificationToken == Some(token)
      && o.db.users[uid].tokenExpiresAt == Some(now + VerificationWindow)
      && (forall k :: k in db.users ==> db.users[k].email != form.email && db.users[k].name != FullName(form))
      && o.db.profiles == db.profiles[uid := NewProfile(form)]
      && (City(form).None? ==> o.db.rooms == db.rooms)
      && (City(form).Some? ==> exists r :: Named(o.db.rooms, City(form).value) == {r} && uid in o.db.rooms[r].members)
  {
    SignupCheckPasses(db.users, form, passwordValid);
    CreatedParts(db, form, digest, token, now);
    if City(form).Some? {
      JoinCityMeans(db.rooms, db.nextRoomId, City(form).value, db.nextUserId);
    }
  }

  /**
   * Once an email is registered, every further signup with it is refused, and one
   * whose fields pass is refused with 409 (as a taken name or a taken email).
   */
  lemma SecondSignupSameEmail(db: Db, f1: SignupForm, f2: SignupForm, passwordValid: bool, digest: string,
                              token: string, now: int, v2: bool, d2: string, t2: string, later: int)
    requires Signup(db, f1, passwordValid, digest, token, now).result.Ok?
    requires f2.email == f1.email
    ensures var db' := Signup(db, f1, passwordValid, digest, token, now).db;
      Signup(db', f2, v2, d2, t2, later).result.Err?
    ensures var db' := Signup(db, f1, passwordValid, digest, token, now).db;
      SignupFieldCheck(f2, v2).None? ==> Signup(db', f2, v2, d2, t2, later).result.error.status == 409
  {
    var db' := Signup(db, f1, passwordValid, digest, token, now).db;
    CreatedParts(db, f1, digest, token, now);
    assert db'.users[db.nextUserId].email == f2.email;
    if SignupCheck(db'.users, f2, v2).None? {
      SignupCheckPasses(db'.users, f2, v2);
    }
    if SignupFieldCheck(f2, v2).None? {
      SignupDuplicateRejects(db', f2, v2, d2, t2, later);
    }
  }

  /**
   * The duplicate-name check compares the trimmed name as typed with stored names,
   * which are lowercased. So a name with a capital letter can be registered again,
   * under another email: the second signup passes every check, and two users end up
   * with the same stored name.
   */
  lemma DuplicateNameAccepted(db: Db, f1: SignupForm, f2: SignupForm, digest: string, token: string, now: int,
                              d2: string, t2: string, later: int)
    requires SignupCheck(db.users, f1, true).None?
    requires SignupCheck(db.users, f2, true).None?
    requires FullName(f2) == FullName(f1) && Text.Lower(FullName(f1)) != FullName(f1)
    requires f2.email != f1.email
    ensures var mid := Created(db, f1, digest, token, now);
      var last := Created(mid, f2, d2, t2, later);
      && SignupCheck(mid.users, f2, true).None?
      && db.nextUserId in last.users && db.nextUserId + 1 in last.users
      && last.users[db.nextUserId].name == last.users[db.nextUserId + 1].name
  {
    var u := NewUser(f1, digest, token, now);
    CreatedParts(db, f1, digest, token, now);
    assert u.name == Text.Lower(FullName(f1)) && u.email == f1.email;
    SignupPassesAfter(db.users, db.nextUserId, u, f2, true);
    var mid := Created(db, f1, digest, token, now);
    CreatedParts(mid, f2, d2, t2, later);
    SameNameTwice(db.users, db.nextUserId, u, NewUser(f2, d2, t2, later));
  }


  // ---------------------------------------------------------------------------
  // Communities

  /** Joining succeeds exactly for an existing room the user is not in, and adds just that membership. */
  lemma JoinCommunityMeans(db: Db, uid: UserId, roomId: RoomId)
    ensures var o := JoinCommunity(db, uid, roomId);
      && (o.result.Ok? <==> roomId in db.rooms && uid !in db.rooms[roomId].members && uid in db.users)
      && (o.result.Err? ==> o.db == db)
      && (o.result.Ok? ==> o.db == db.(rooms := db.rooms[roomId := db.rooms[roomId].(members := db.rooms[roomId].members + {uid})]))
      && (roomId !in db.rooms ==> o.result == Err(Error(404, CommunityNotFound)))
      && (roomId in db.rooms && uid in db.rooms[roomId].members ==> o.result == Err(Error(400, AlreadyMember)))
  {
  }

  /** Joining twice: the second join is refused with 400 and changes nothing. */
  lemma JoinTwiceRejected(db: Db, uid: UserId, roomId: RoomId)
    requires JoinCommunity(db, uid, roomId).result.Ok?
    ensures var db' := JoinCommunity(db, uid, roomId).db;
      JoinCommunity(db', uid, roomId) == Outcome(db', Err(Error(400, AlreadyMember)))
  {
  }

  /** Leaving right after joining restores the tables exactly. */
  lemma JoinThenLeave(db: Db, uid: UserId, roomId: RoomId)
    requires JoinCommunity(db, uid, roomId).result.Ok?
    ensures LeaveCommunity(JoinCommunity(db, uid, roomId).db, uid, roomId) == Outcome(db, Ok(()))
  {
    var members := db.rooms[roomId].members;
    assert members + {uid} - {uid} == members;
    assert db.rooms[roomId := db.rooms[roomId].(members := members)] == db.rooms;
  }

  /** Leaving removes just that membership and is idempotent; an unknown room is refused with 404. */
  lemma LeaveCommunityMeans(db: Db, uid: UserId, roomId: RoomId)
    ensures roomId !in db.rooms ==> LeaveCommunity(db, uid, roomId) == Outcome(db, Err(Error(404, CommunityNotFound)))
    ensures roomId in db.rooms ==>
      var o := LeaveCommunity(db, uid, roomId);
      && o.result.Ok? && o.db.rooms.Keys == db.rooms.Keys
      && o.db.rooms[roomId].members == db.rooms[roomId].members - {uid}
      && o.db.rooms[roomId].name == db.rooms[roomId].name
      && (forall r :: r in db.rooms && r != roomId ==> o.db.rooms[r] == db.rooms[r])
      && o.db == db.(rooms := db.rooms[roomId := db.rooms[roomId].(members := db.rooms[roomId].members - {uid})])
      && LeaveCommunity(o.db, uid, roomId) == o
  {
    if roomId in db.rooms {
      var o := LeaveCommunity(db, uid, roomId);
      var room := o.db.rooms[roomId];
      assert room.members - {uid} == room.members;
      assert o.db.rooms[roomId := room.(members := room.members - {uid})] == o.db.rooms;
    }
  }

  // ---------------------------------------------------------------------------
  // Every handler keeps the invariant

  lemma GenerateTokenKeepsInv(db: Db, uid: UserId, now: int)
    requires Inv(db)
    ensures Inv(GenerateToken(db, uid, now).db)
  {
  }

  lemma LogoutKeepsInv(db: Db, uid: UserId)
    requires Inv(db)
    ensures Inv(Logout(db, uid).db)
  {
  }

  lemma RefreshKeepsInv(db: Db, incoming: Presented, live: bool, now: int)
    requires Inv(db)
    ensures Inv(Refresh(db, incoming, live, now).db)
  {
    if RefreshCheck(db.users, incoming, live).Ok? {
      GenerateTokenKeepsInv(db, RefreshCheck(db.users, incoming, live).value, now);
    }
  }

  lemma LoginKeepsInv(db: Db, data: string, password: string, matches: (string, string) -> bool, now: int)
    requires Inv(db)
    ensures Inv(Login(db, data, password, matches, now).db)
  {
    if LoginCheck(db.users, data, password, matches).Ok? {
      GenerateTokenKeepsInv(db, LoginCheck(db.users, data, password, matches).value, now);
    }
  }

  lemma CreatedKeepsInv(db: Db, form: SignupForm, digest: string, token: string, now: int)
    requires Inv(db)
    requires forall k :: k in db.users ==> db.users[k].email != form.email
    ensures Inv(Created(db, form, digest, token, now))
  {
    var c := Created(db, form, digest, token, now);
    var uid := db.nextUserId;
    CreatedParts(db, form, digest, token, now);
    assert uid !in db.users && uid !in db.profiles;
    assert EmailsUnique(c);
    assert TokensAgree(c);
    if City(form).Some? {
      JoinCityMeans(db.rooms, db.nextRoomId, City(form).value, uid);
      assert forall r, k :: r in c.rooms && k in c.rooms[r].members ==> k == uid || (r in db.rooms && k in db.rooms[r].members);
    }
    assert RowsLinked(c);
    assert IdsFresh(c);
  }

  lemma SignupKeepsInv(db: Db, form: SignupForm, passwordValid: bool, digest: string, token: string, now: int)
    requires Inv(db)
    ensures Inv(Signup(db, form, passwordValid, digest, token, now).db)
  {
    if SignupCheck(db.users, form, passwordValid).None? {
      SignupCheckPasses(db.users, form, passwordValid);
      CreatedKeepsInv(db, form, digest, token, now);
    }
  }

  /** Rewriting a user's row keeps the invariant when the email and the token fields stay. */
  lemma UserRowUpdateKeepsInv(db: Db, uid: UserId, u: User)
    requires Inv(db) && uid in db.users
    requires u.email == db.users[uid].email
    requires u.refreshToken == db.users[uid].refreshToken && u.tokenVersion == db.users[uid].tokenVersion
    ensures Inv(db.(users := db.users[uid := u]))
  {
  }

  lemma VerifyEmailKeepsInv(db: Db, token: string, email: string, now: int)
    requires Inv(db)
    ensures Inv(VerifyEmail(db, token, email, now).db)
  {
    if token != "" && email != "" && FindByEmail(db.users, email).Some? {
      var uid := FindByEmail(db.users, email).value;
      var u := db.users[uid];
      UserRowUpdateKeepsInv(db, uid, u.(isEmailVerified := true, verificationToken := None, tokenExpiresAt := None));
    }
  }

  lemma ResendKeepsInv(db: Db, email: string, token: string, now: int, sent: bool)
    requires Inv(db)
    ensures Inv(ResendVerification(db, email, token, now, sent).db)
  {
    if email != "" && Text.Trim(email) != "" && FindByEmail(db.users, email).Some? {
      var uid := FindByEmail(db.users, email).value;
      var u := db.users[uid];
      UserRowUpdateKeepsInv(db, uid, u.(verificationToken := Some(token), tokenExpiresAt := Some(now + VerificationWindow)));
    }
  }

  lemma JoinKeepsInv(db: Db, uid: UserId, roomId: RoomId)
    requires Inv(db)
    ensures Inv(JoinCommunity(db, uid, roomId).db)
  {
  }

  lemma LeaveKeepsInv(db: Db, uid: UserId, roomId: RoomId)
    requires Inv(db)
    ensures Inv(LeaveCommunity(db, uid, roomId).db)
  {
  }
}

/**
 * The account tables as the handlers of the user controller drive them: each request
 * updates the rows in place. Every method is proved to leave the tables as the matching
 * transition function of `Accounts` says and to keep the invariant, and the token
 * handlers are proved to revoke every refresh token issued before them.
 */
module AccountStore {
  import opened Wrappers
  import opened Accounts
  import AccountProofs

  /** Every refresh token in `issued` names a user and a version that user has reached. */
  ghost predicate IssuedBelow(db: Db, issued: set<Jwt>)
  {
    forall t :: t in issued ==>
      t.userId.Some? && t.version.Some? && t.userId.value in db.users && t.version.value <= db.users[t.userId.value].tokenVersion
  }

  /** No user is removed and no token version goes down from `db` to `db'`. */
  ghost predicate Grown(db: Db, db': Db)
  {
    forall k :: k in db.users ==> k in db'.users && db.users[k].tokenVersion <= db'.users[k].tokenVersion
  }

  lemma IssuedStaysBelow(db: Db, db': Db, issued: set<Jwt>)
    requires IssuedBelow(db, issued) && Grown(db, db')
    ensures IssuedBelow(db', issued)
  {
    forall t | t in issued
      ensures t.userId.value in db'.users && t.version.value <= db'.users[t.userId.value].tokenVersion
    {
      assert t.userId.value in db.users;
    }
  }

  /** A signup that passes its checks keeps the invariant and the bound on issued tokens. */
  lemma CreatedKeepsValid(db: Db, form: SignupForm, passwordValid: bool, digest: string, token: string, now: int, issued: set<Jwt>)
    requires Inv(db) && IssuedBelow(db, issued)
    requires SignupCheck(db.users, form, passwordValid).None?
    ensures Inv(Created(db, form, digest, token, now)) && IssuedBelow(Created(db, form, digest, token, now), issued)
  {
    AccountProofs.SignupKeepsInv(db, form, passwordValid, digest, token, now);
    AccountProofs.CreatedParts(db, form, digest, token, now);
    assert Grown(db, Created(db, form, digest, token, now));
    IssuedStaysBelow(db, Created(db, form, digest, token, now), issued);
  }

  /** Rewriting a user's row with a version no lower keeps every issued token below it. */
  lemma RowUpdateStaysBelow(db: Db, uid: UserId, u: User, issued: set<Jwt>)
    requires IssuedBelow(db, issued) && uid in db.users
    requires db.users[uid].tokenVersion <= u.tokenVersion
    ensures IssuedBelow(db.(users := db.users[uid := u]), issued)
  {
    assert Grown(db, db.(users := db.users[uid := u]));
    IssuedStaysBelow(db, db.(users := db.users[uid := u]), issued);
  }

  class Registry {
    var users: map<UserId, User>
    var profiles: map<UserId, Profile>
    var rooms: map<RoomId, Room>
    var nextUserId: nat
    var nextRoomId: nat
    /** Every refresh token handed out so far. */
    ghost var issued: set<Jwt>

    /** The tables as one value. */
    function State(): Db
      reads this
    {
      Db(users, profiles, rooms, nextUserId, nextRoomId)
    }

    ghost predicate Valid()
      reads this
    {
      Inv(State()) && IssuedBelow(State(), issued)
    }

    /** Empty tables. */
    constructor ()
      ensures State() == Db(map[], map[], map[], 0, 0) && issued == {}
      ensures Valid()
    {
      users := map[];
      profiles := map[];
      rooms := map[];
      nextUserId := 0;
      nextRoomId := 0;
      issued := {};
    }

    /**
     * `generateToken`: a new pair of tokens at the next version; the refresh token is
     * stored, and every refresh token issued to this user before is refused from now on.
     */
    method GenerateToken(uid: UserId, now: int) returns (r: Result<Tokens, Error>)
      modifies this
      ensures State() == Accounts.GenerateToken(old(State()), uid, now).db
      ensures r == Accounts.GenerateToken(old(State()), uid, now).result
      ensures issued == old(issued) + (if r.Ok? then {r.value.refresh} else {})
      ensures old(Valid()) ==> Valid()
      ensures old(Valid()) && r.Ok? ==>
        forall t, live :: t in old(issued) && t.userId == Some(uid) ==> RefreshCheck(users, Presented(t), live).Err?
    {
      ghost var before := State();
      if uid !in users {
        return Err(Error(500, TokenGenerationFailed));
      }
      var version := users[uid].tokenVersion + 1;
      var tokens := Tokens(Jwt(AccessSecret, Some(uid), Some(version), now), Jwt(RefreshSecret, Some(uid), Some(version), now));
      var user := users[uid].(tokenVersion := version, refreshToken := Some(tokens.refresh));
      users := users[uid := user];
      issued := issued + {tokens.refresh};
      r := Ok(tokens);
      if old(Valid()) {
        AccountProofs.GenerateTokenKeepsInv(before, uid, now);
        RowUpdateStaysBelow(before, uid, user, old(issued));
        forall t, live | t in old(issued) && t.userId == Some(uid)
          ensures RefreshCheck(users, Presented(t), live).Err?
        {
          AccountProofs.RotationRevokesEarlier(before, uid, now, t, live);
        }
      }
    }

    /** `logout`: the stored token is cleared and the version raised, so no refresh token of the user is accepted. */
    method Logout(uid: UserId) returns (r: Result<(), Error>)
      modifies this
      ensures State() == Accounts.Logout(old(State()), uid).db
      ensures r == Accounts.Logout(old(State()), uid).result
      ensures issued == old(issued)
      ensures old(Valid()) ==> Valid()
      ensures r.Ok? ==> forall t: Jwt, live: bool :: t.userId == Some(uid) ==> RefreshCheck(users, Presented(t), live).Err?
    {
      ghost var before := State();
      if uid !in users {
        return Err(Error(500, InternalError));
      }
      var user := users[uid].(refreshToken := None, tokenVersion := users[uid].tokenVersion + 1);
      users := users[uid := user];
      r := Ok(());
      if old(Valid()) {
        AccountProofs.LogoutKeepsInv(before, uid);
        RowUpdateStaysBelow(before, uid, user, issued);
      }
      forall t: Jwt, live: bool | t.userId == Some(uid)
        ensures RefreshCheck(users, Presented(t), live).Err?
      {
        AccountProofs.LogoutRevokesAll(before, uid, Presented(t), live);
      }
    }

    /**
     * `refreshAccessToken`: the token from the cookie, else from the body; its checks;
     * then a rotation, after which the same token is refused.
     */
    method RefreshAccessToken(cookie: Presented, body: Presented, live: bool, now: int) returns (r: Result<Tokens, Error>)
      modifies this
      ensures State() == Refresh(old(State()), IncomingToken(cookie, body), live, now).db
      ensures r == Refresh(old(State()), IncomingToken(cookie, body), live, now).result
      ensures issued == old(issued) + (if r.Ok? then {r.value.refresh} else {})
      ensures old(Valid()) ==> Valid()
      ensures r.Ok? ==> forall liveAgain :: RefreshCheck(users, IncomingToken(cookie, body), liveAgain).Err?
    {
      ghost var before := State();
      var incoming := IncomingToken(cookie, body);
      var check := RefreshCheck(users, incoming, live);
      if check.Err? {
        return Err(check.error);
      }
      r := GenerateToken(check.value, now);
      forall liveAgain
        ensures RefreshCheck(users, incoming, liveAgain).Err?
      {
        AccountProofs.ReplayRejected(before, incoming.token, live, now, liveAgain);
      }
    }

    /** `login`: the checks in their order, then a rotation. */
    method Login(data: string, password: string, matches: (string, string) -> bool, now: int) returns (r: Result<Tokens, Error>)
      modifies this
      ensures State() == Accounts.Login(old(State()), data, password, matches, now).db
      ensures r == Accounts.Login(old(State()), data, password, matches, now).result
      ensures issued == old(issued) + (if r.Ok? then {r.value.refresh} else {})
      ensures old(Valid()) ==> Valid()
    {
      var check := LoginCheck(users, data, password, matches);
      if check.Err? {
        return Err(check.error);
      }
      r := GenerateToken(check.value, now);
    }

    /**
     * `signup`: the checks, then in one transaction the user, the profile, and the
     * city room, found by name or else created, which the user joins.
     */
    method Signup(form: SignupForm, passwordValid: bool, digest: string, token: string, now: int)
      returns (r: Result<UserId, Error>)
      modifies this
      ensures State() == Accounts.Signup(old(State()), form, passwordValid, digest, token, now).db
      ensures r == Accounts.Signup(old(State()), form, passwordValid, digest, token, now).result
      ensures issued == old(issued)
      ensures old(Valid()) ==> Valid()
    {
      ghost var before := State();
      var e := SignupCheck(users, form, passwordValid);
      if e.Some? {
        return Err(e.value);
      }
      var uid := CreateAccount(form, digest, token, now);
      if City(form).Some? {
        AccountProofs.CreatedWithCity(before, form, digest, token, now, State());
      } else {
        AccountProofs.CreatedWithoutCity(before, form, digest, token, now, State());
      }
      AccountProofs.SignupAccepted(before, form, passwordValid, digest, token, now);
      r := Ok(uid);
      if old(Valid()) {
        CreatedKeepsValid(before, form, passwordValid, digest, token, now, issued);
      }
    }

    /** The transaction of `signup`: the user row, the profile row, then the city room. */
    method CreateAccount(form: SignupForm, digest: string, token: string, now: int) returns (uid: UserId)
      modifies this
      ensures uid == old(nextUserId) && nextUserId == uid + 1
      ensures users == old(users)[uid := NewUser(form, digest, token, now)]
      ensures profiles == old(profiles)[uid := NewProfile(form)]
      ensures City(form).None? ==> rooms == old(rooms) && nextRoomId == old(nextRoomId)
      ensures City(form).Some? ==> (rooms, nextRoomId) == JoinCity(old(rooms), old(nextRoomId), City(form).value, uid)
      ensures issued == old(issued)
    {
      uid := nextUserId;
      var user := NewUser(form, digest, token, now);
      users := users[uid := user];
      nextUserId := uid + 1;
      var profile := NewProfile(form);
      profiles := profiles[uid := profile];
      var city := City(form);
      if city.Some? {
        JoinCityRoom(city.value, uid);
      }
    }

    /** The room named `city`, found by name or else created, gains the member `uid`. */
    method JoinCityRoom(city: string, uid: UserId)
      modifies this
      ensures (rooms, nextRoomId) == JoinCity(old(rooms), old(nextRoomId), city, uid)
      ensures users == old(users) && profiles == old(profiles) && nextUserId == old(nextUserId)
      ensures issued == old(issued)
    {
      var found := Least(Named(rooms, city));
      var room: RoomId;
      if found.Some? {
        room := found.value;
        assert room in Named(rooms, city);
      } else {
        room := nextRoomId;
        rooms := rooms[room := Room(city, {})];
        nextRoomId := room + 1;
        assert {} + {uid} == {uid};
      }
      rooms := rooms[room := rooms[room].(members := rooms[room].members + {uid})];
      assert found == Least(Named(old(rooms), city));
      assert JoinCity(old(rooms), old(nextRoomId), city, uid).0 == rooms;
    }

    /** `verifyEmail`: marks the user verified and clears the token, when the token matches and is not expired. */
    method VerifyEmail(token: string, email: string, now: int) returns (r: Result<Verification, Error>)
      modifies this
      ensures State() == Accounts.VerifyEmail(old(State()), token, email, now).db
      ensures r == Accounts.VerifyEmail(old(State()), token, email, now).result
      ensures issued == old(issued)
      ensures old(Valid()) ==> Valid()
    {
      ghost var before := State();
      if token == "" || email == "" {
        return Err(Error(400, TokenAndEmailRequired));
      }
      var found := FindByEmail(users, email);
      if found.None? {
        return Err(Error(404, UserNotFound));
      }
      var uid := found.value;
      var u := users[uid];
      if u.isEmailVerified {
        return Ok(AlreadyVerified);
      }
      if u.verificationToken != Some(token) {
        return Err(Error(400, InvalidVerificationToken));
      }
      if u.tokenExpiresAt.Some? && now > u.tokenExpiresAt.value {
        return Err(Error(400, VerificationExpired));
      }
      var verified := u.(isEmailVerified := true, verificationToken := None, tokenExpiresAt := None);
      users := users[uid := verified];
      r := Ok(Updated);
      if old(Valid()) {
        AccountProofs.VerifyEmailKeepsInv(before, token, email, now);
        RowUpdateStaysBelow(before, uid, verified, issued);
      }
    }

    /**
     * `resendVerificationEmail`: a fresh token valid for 24 hours for an unverified
     * user; `sent` is whether the email went out.
     */
    method ResendVerificationEmail(email: string, token: string, now: int, sent: bool) returns (r: Result<Verification, Error>)
      modifies this
      ensures State() == ResendVerification(old(State()), email, token, now, sent).db
      ensures r == ResendVerification(old(State()), email, token, now, sent).result
      ensures issued == old(issued)
      ensures old(Valid()) ==> Valid()
    {
      ghost var before := State();
      if email == "" || Text.Trim(email) == "" {
        return Err(Error(400, EmailRequired));
      }
      var found := FindByEmail(users, email);
      if found.None? {
        return Err(Error(404, UserNotFound));
      }
      var uid := found.value;
      if users[uid].isEmailVerified {
        return Ok(AlreadyVerified);
      }
      var user := users[uid].(verificationToken := Some(token), tokenExpiresAt := Some(now + VerificationWindow));
      users := users[uid := user];
      r := if sent then Ok(Updated) else Err(Error(500, EmailNotSent));
      if old(Valid()) {
        AccountProofs.ResendKeepsInv(before, email, token, now, sent);
        RowUpdateStaysBelow(before, uid, user, issued);
      }
    }

    /** `joinCommunity`: the user is added to the room's members. */
    method JoinCommunity(uid: UserId, roomId: RoomId) returns (r: Result<(), Error>)
      modifies this
      ensures State() == Accounts.JoinCommunity(old(State()), uid, roomId).db
      ensures r == Accounts.JoinCommunity(old(State()), uid, roomId).result
      ensures issued == old(issued)
      ensures old(Valid()) ==> Valid()
    {
      ghost var before := State();
      if roomId !in rooms {
        return Err(Error(404, CommunityNotFound));
      }
      if uid in rooms[roomId].members {
        return Err(Error(400, AlreadyMember));
      }
      if uid !in users {
        return Err(Error(500, InternalError));
      }
      rooms := rooms[roomId := rooms[roomId].(members := rooms[roomId].members + {uid})];
      r := Ok(());
      if old(Valid()) {
        AccountProofs.JoinKeepsInv(before, uid, roomId);
      }
    }

    /** `leaveCommunity`: the user is removed from the room's members. */
    method LeaveCommunity(uid: UserId, roomId: RoomId) returns (r: Result<(), Error>)
      modifies this
      ensures State() == Accounts.LeaveCommunity(old(State()), uid, roomId).db
      ensures r == Accounts.LeaveCommunity(old(State()), uid, roomId).result
      ensures issued == old(issued)
      ensures old(Valid()) ==> Valid()
    {
      ghost var before := State();
      if roomId !in rooms {
        return Err(Error(404, CommunityNotFound));
      }
      rooms := rooms[roomId := rooms[roomId].(members := rooms[roomId].members - {uid})];
      r := Ok(());
      if old(Valid()) {
        AccountProofs.LeaveKeepsInv(before, uid, roomId);
      }
    }
  }
}

/**
 * Accounts and sessions: the user record, the checks of signup, email verification,
 * login and token refresh, the token rotation that revokes earlier refresh tokens,
 * and community rooms. Each handler is a pure function from the tables before the
 * request to the tables after it and the response.
 *
 * Signed tokens are values carrying their claims: the secret that signed them, the
 * user id and the token version. Whether the signature's expiry has passed, what
 * the password hash comparison says and whether an email was delivered are
 * parameters.
 */
module Accounts {
  import opened Wrappers
  import Ordering
  import Text

  type UserId = nat
  type RoomId = nat

  datatype Role = Patient | Doctor | Admin

  /** The two signing secrets: access tokens and refresh tokens are signed with different ones. */
  datatype Secret = AccessSecret | RefreshSecret

  /** A signed token and its claims; a claim that is missing or of the wrong type is `None`. */
  datatype Jwt = Jwt(secret: Secret, userId: Option<UserId>, version: Option<int>, issuedAt: int)

  datatype Tokens = Tokens(access: Jwt, refresh: Jwt)

  /**
   * A user row. `refreshToken` is `None` both for a user who never logged in and
   * after logout, which stores the empty string.
   */
  datatype User = User(
    name: string,
    email: string,
    passwordDigest: string,
    role: Role,
    isEmailVerified: bool,
    verificationToken: Option<string>,
    tokenExpiresAt: Option<int>,
    tokenVersion: int,
    refreshToken: Option<Jwt>,
    deletedAt: Option<int>)

  datatype Profile = DoctorProfile(specialty: string, clinicLocation: string) | PatientProfile(location: Option<string>)

  /** A community room, named after a city. */
  datatype Room = Room(name: string, members: set<UserId>)

  datatype Db = Db(
    users: map<UserId, User>,
    profiles: map<UserId, Profile>,
    rooms: map<RoomId, Room>,
    nextUserId: nat,
    nextRoomId: nat)

  datatype Reason =
    | NameEmailPasswordRequired | DoctorFieldsRequired | LocationRequired | InvalidPassword
    | NameTaken | EmailTaken
    | TokenAndEmailRequired | UserNotFound | InvalidVerificationToken | VerificationExpired
    | EmailRequired | EmailNotSent
    | LoginDataRequired | PasswordRequired | AllFieldsRequired | InvalidCredentials
    | Deactivated | EmailNotVerified
    | TokenGenerationFailed
    | RefreshTokenRequired | InvalidRefreshToken | InvalidPayload | RefreshUserNotFound
    | Revoked | VersionMismatch
    | CommunityNotFound | AlreadyMember | InternalError

  datatype Error = Error(status: int, reason: Reason)

  datatype Outcome<T> = Outcome(db: Db, result: Result<T, Error>)

  /** How long a verification token stays valid: 24 hours, in milliseconds. */
  const VerificationWindow: int := 24 * 60 * 60 * 1000

  /** The smallest id of a set, standing for the row a lookup without ordering returns. */
  function Least(ids: set<nat>): (r: Option<nat>)
    ensures r.None? <==> ids == {}
    ensures r.Some? ==> r.value in ids && forall k :: k in ids ==> r.value <= k
  {
    if ids == {} then None
    else
      var key := map k | k in ids :: 0;
      assert key != map[] by {
        var x :| x in ids;
        assert x in key;
      }
      var m := Ordering.First(key);
      assert forall k :: k in ids && k != m ==> Ordering.Before(key, m, k);
      Some(m)
  }

  /** The users with exactly this email. */
  function WithEmail(users: map<UserId, User>, email: string): set<UserId>
  {
    set k | k in users && users[k].email == email
  }

  /** The user with exactly this email. */
  function FindByEmail(users: map<UserId, User>, email: string): Option<UserId>
  {
    Least(WithEmail(users, email))
  }

  // ---------------------------------------------------------------------------
  // Tokens

  /** `generateToken`: the version goes up by one and the new refresh token is stored. */
  function GenerateToken(db: Db, uid: UserId, now: int): Outcome<Tokens>
  {
    if uid !in db.users then Outcome(db, Err(Error(500, TokenGenerationFailed)))
    else
      var version := db.users[uid].tokenVersion + 1;
      var tokens := Tokens(Jwt(AccessSecret, Some(uid), Some(version), now), Jwt(RefreshSecret, Some(uid), Some(version), now));
      Outcome(db.(users := db.users[uid := db.users[uid].(tokenVersion := version, refreshToken := Some(tokens.refresh))]),
              Ok(tokens))
  }

  /** The first of `generateToken`'s two writes on its own: the version increment. */
  function RaiseVersion(db: Db, uid: UserId): Db
  {
    if uid !in db.users then db
    else db.(users := db.users[uid := db.users[uid].(tokenVersion := db.users[uid].tokenVersion + 1)])
  }

  /** `logout`: the stored refresh token is cleared and the version goes up by one. */
  function Logout(db: Db, uid: UserId): Outcome<()>
  {
    if uid !in db.users then Outcome(db, Err(Error(500, InternalError)))
    else
      Outcome(db.(users := db.users[uid := db.users[uid].(refreshToken := None,
                                                           tokenVersion := db.users[uid].tokenVersion + 1)]),
              Ok(()))
  }

  /** The refresh token a request presents: none, something that is not a token, or a token. */
  datatype Presented = Absent | Garbled | Presented(token: Jwt)

  /** The cookie wins; the body is read only when the cookie is absent. */
  function IncomingToken(cookie: Presented, body: Presented): Presented
  {
    if cookie.Absent? then body else cookie
  }

  /**
   * The checks of `refreshAccessToken`, in order. `live` is whether the signature's
   * expiry is still ahead.
   */
  function RefreshCheck(users: map<UserId, User>, incoming: Presented, live: bool): Result<UserId, Error>
  {
    if incoming.Absent? then Err(Error(401, RefreshTokenRequired))
    else if incoming.Garbled? || incoming.token.secret != RefreshSecret || !live then Err(Error(401, InvalidRefreshToken))
    else
      var t := incoming.token;
      if t.userId.None? || t.version.None? then Err(Error(401, InvalidPayload))
      else if t.userId.value !in users then Err(Error(401, RefreshUserNotFound))
      else if users[t.userId.value].refreshToken != Some(t) then Err(Error(401, Revoked))
      else if t.version.value != users[t.userId.value].tokenVersion then Err(Error(401, VersionMismatch))
      else Ok(t.userId.value)
  }

  /** `refreshAccessToken`: the checks, then a rotation. */
  function Refresh(db: Db, incoming: Presented, live: bool, now: int): Outcome<Tokens>
  {
    match RefreshCheck(db.users, incoming, live)
    case Err(e) => Outcome(db, Err(e))
    case Ok(uid) => GenerateToken(db, uid, now)
  }

  // ---------------------------------------------------------------------------
  // Login

  /** The users a login identifier names: by email or by name, ignoring case. */
  function LoginMatches(users: map<UserId, User>, data: string): set<UserId>
  {
    set k | k in users && (Text.EqualsIgnoringCase(users[k].email, data) || Text.EqualsIgnoringCase(users[k].name, data))
  }

  /** The user a login identifier names. */
  function FindLogin(users: map<UserId, User>, data: string): Option<UserId>
  {
    Least(LoginMatches(users, data))
  }

  /** The checks of `login`, in order; `matches(password, digest)` is the hash comparison. */
  function LoginCheck(users: map<UserId, User>, data: string, password: string, matches: (string, string) -> bool)
    : Result<UserId, Error>
  {
    if data == "" then Err(Error(400, LoginDataRequired))
    else if password == "" then Err(Error(400, PasswordRequired))
    else if Text.Trim(password) == "" || Text.Trim(data) == "" then Err(Error(400, AllFieldsRequired))
    else match FindLogin(users, data)
      case None => Err(Error(401, InvalidCredentials))
      case Some(uid) =>
        if users[uid].deletedAt.Some? then Err(Error(403, Deactivated))
        else if !matches(password, users[uid].passwordDigest) then Err(Error(401, InvalidCredentials))
        else if !users[uid].isEmailVerified then Err(Error(403, EmailNotVerified))
        else Ok(uid)
  }

  /** `login`: the checks, then a rotation. */
  function Login(db: Db, data: string, password: string, matches: (string, string) -> bool, now: int): Outcome<Tokens>
  {
    match LoginCheck(db.users, data, password, matches)
    case Err(e) => Outcome(db, Err(e))
    case Ok(uid) => GenerateToken(db, uid, now)
  }

  // ---------------------------------------------------------------------------
  // Signup

  /** The signup request's fields, the empty string standing for a missing one; `role` is `None` when not given. */
  datatype SignupForm = SignupForm(
    firstName: string, lastName: string, email: string, password: string, role: Option<Role>,
    specialty: string, clinicLocation: string, location: string)

  /** The name checked for duplicates: first and last name joined by a space, trimmed. */
  function FullName(form: SignupForm): string
  {
    Text.Trim(form.firstName + " " + form.lastName)
  }

  /** The field checks of `signup`, in order, made before the tables are read; `passwordValid` is the password policy's verdict. */
  function SignupFieldCheck(form: SignupForm, passwordValid: bool): Option<Error>
  {
    var name := FullName(form);
    if name == "" || form.email == "" || form.password == "" || Text.Trim(form.email) == "" || Text.Trim(form.password) == "" then
      Some(Error(400, NameEmailPasswordRequired))
    else if form.role == Some(Doctor) && (Text.Trim(form.specialty) == "" || Text.Trim(form.clinicLocation) == "") then
      Some(Error(400, DoctorFieldsRequired))
    else if form.role == Some(Patient) && Text.Trim(form.location) == "" then Some(Error(400, LocationRequired))
    else if !passwordValid then Some(Error(400, InvalidPassword))
    else None
  }

  /** All checks of `signup`: the field checks, then the duplicate name, then the duplicate email. */
  function SignupCheck(users: map<UserId, User>, form: SignupForm, passwordValid: bool): Option<Error>
  {
    var fields := SignupFieldCheck(form, passwordValid);
    if fields.Some? then fields
    else if exists k :: k in users && users[k].name == FullName(form) then Some(Error(409, NameTaken))
    else if exists k :: k in users && users[k].email == form.email then Some(Error(409, EmailTaken))
    else None
  }

  /** The row signup creates: lowercased name, unverified, with a verification token valid for 24 hours. */
  function NewUser(form: SignupForm, digest: string, token: string, now: int): User
  {
    User(Text.Lower(FullName(form)), form.email, digest, if form.role.Some? then form.role.value else Patient,
         false, Some(token), Some(now + VerificationWindow), 0, None, None)
  }

  /** A doctor gets a doctor profile; every other role a patient profile. */
  function NewProfile(form: SignupForm): Profile
  {
    if form.role == Some(Doctor) then DoctorProfile(form.specialty, form.clinicLocation)
    else PatientProfile(if form.location == "" then None else Some(form.location))
  }

  /** The city room the new user joins: the clinic's city for a doctor, the location otherwise, if any. */
  function City(form: SignupForm): Option<string>
  {
    if form.role == Some(Doctor) then (if form.clinicLocation == "" then None else Some(form.clinicLocation))
    else if form.location == "" then None else Some(form.location)
  }

  /** The rooms named `city`. */
  function Named(rooms: map<RoomId, Room>, city: string): set<RoomId>
  {
    set r | r in rooms && rooms[r].name == city
  }

  /** Join the room named `city`, creating it first when no room has that name. */
  function JoinCity(rooms: map<RoomId, Room>, nextRoomId: nat, city: string, uid: UserId): (map<RoomId, Room>, nat)
  {
    match Least(Named(rooms, city))
    case Some(r) => (rooms[r := rooms[r].(members := rooms[r].members + {uid})], nextRoomId)
    case None => (rooms[nextRoomId := Room(city, {uid})], nextRoomId + 1)
  }

  /** The transaction of `signup`: the user, the profile and the room membership, created together. */
  function Created(db: Db, form: SignupForm, digest: string, token: string, now: int): Db
  {
    var uid := db.nextUserId;
    var (rooms, nextRoomId) := if City(form).Some? then JoinCity(db.rooms, db.nextRoomId, City(form).value, uid)
                               else (db.rooms, db.nextRoomId);
    Db(db.users[uid := NewUser(form, digest, token, now)], db.profiles[uid := NewProfile(form)], rooms, uid + 1, nextRoomId)
  }

  /** `signup`: the checks, then the transaction. */
  function Signup(db: Db, form: SignupForm, passwordValid: bool, digest: string, token: string, now: int): Outcome<UserId>
  {
    match SignupCheck(db.users, form, passwordValid)
    case Some(e) => Outcome(db, Err(e))
    case None => Outcome(Created(db, form, digest, token, now), Ok(db.nextUserId))
  }

  // ---------------------------------------------------------------------------
  // Email verification

  datatype Verification = AlreadyVerified | Updated

  /** `verifyEmail`: `token` and `email` are the query strings. */
  function VerifyEmail(db: Db, token: string, email: string, now: int): Outcome<Verification>
  {
    if token == "" || email == "" then Outcome(db, Err(Error(400, TokenAndEmailRequired)))
    else match FindByEmail(db.users, email)
      case None => Outcome(db, Err(Error(404, UserNotFound)))
      case Some(uid) =>
        var u := db.users[uid];
        if u.isEmailVerified then Outcome(db, Ok(AlreadyVerified))
        else if u.verificationToken != Some(token) then Outcome(db, Err(Error(400, InvalidVerificationToken)))
        else if u.tokenExpiresAt.Some? && now > u.tokenExpiresAt.value then Outcome(db, Err(Error(400, VerificationExpired)))
        else
          Outcome(db.(users := db.users[uid := u.(isEmailVerified := true, verificationToken := None, tokenExpiresAt := None)]),
                  Ok(Updated))
  }

  /**
   * `resendVerificationEmail`: a fresh token valid for 24 hours. `sent` is whether the
   * email went out; when it did not, the response is 500 but the new token is kept.
   */
  function ResendVerification(db: Db, email: string, token: string, now: int, sent: bool): Outcome<Verification>
  {
    if email == "" || Text.Trim(email) == "" then Outcome(db, Err(Error(400, EmailRequired)))
    else match FindByEmail(db.users, email)
      case None => Outcome(db, Err(Error(404, UserNotFound)))
      case Some(uid) =>
        var u := db.users[uid];
        if u.isEmailVerified then Outcome(db, Ok(AlreadyVerified))
        else
          var db' := db.(users := db.users[uid := u.(verificationToken := Some(token), tokenExpiresAt := Some(now + VerificationWindow))]);
          if sent then Outcome(db', Ok(Updated)) else Outcome(db', Err(Error(500, EmailNotSent)))
  }

  // ---------------------------------------------------------------------------
  // Communities

  /** `joinCommunity`. */
  function JoinCommunity(db: Db, uid: UserId, roomId: RoomId): Outcome<()>
  {
    if roomId !in db.rooms then Outcome(db, Err(Error(404, CommunityNotFound)))
    else if uid in db.rooms[roomId].members then Outcome(db, Err(Error(400, AlreadyMember)))
    else if uid !in db.users then Outcome(db, Err(Error(500, InternalError)))
    else Outcome(db.(rooms := db.rooms[roomId := db.rooms[roomId].(members := db.rooms[roomId].members + {uid})]), Ok(()))
  }

  /** `leaveCommunity`: leaving a room one is not in changes nothing and still succeeds. */
  function LeaveCommunity(db: Db, uid: UserId, roomId: RoomId): Outcome<()>
  {
    if roomId !in db.rooms then Outcome(db, Err(Error(404, CommunityNotFound)))
    else Outcome(db.(rooms := db.rooms[roomId := db.rooms[roomId].(members := db.rooms[roomId].members - {uid})]), Ok(()))
  }

  // ---------------------------------------------------------------------------
  // The invariant

  /** No two users share an email. */
  ghost predicate EmailsUnique(db: Db)
  {
    forall a, b :: a in db.users && b in db.users && db.users[a].email == db.users[b].email ==> a == b
  }

  /** A stored refresh token is a refresh token for its own user at the user's current version. */
  ghost predicate TokensAgree(db: Db)
  {
    forall k :: k in db.users && db.users[k].refreshToken.Some? ==>
      var t := db.users[k].refreshToken.value;
      t.secret == RefreshSecret && t.userId == Some(k) && t.version == Some(db.users[k].tokenVersion)
  }

  /** No two rooms share a name. */
  ghost predicate UniqueNames(rooms: map<RoomId, Room>)
  {
    forall a, b :: a in rooms && b in rooms && rooms[a].name == rooms[b].name ==> a == b
  }

  /** Room members are users, and every user has a profile. */
  ghost predicate RowsLinked(db: Db)
  {
    && (forall r, k :: r in db.rooms && k in db.rooms[r].members ==> k in db.users)
    && (forall k :: k in db.users ==> k in db.profiles)
  }

  /** Fresh ids are above every id in use. */
  ghost predicate IdsFresh(db: Db)
  {
    && (forall k :: k in db.users ==> k < db.nextUserId)
    && (forall k :: k in db.profiles ==> k < db.nextUserId)
    && (forall r :: r in db.rooms ==> r < db.nextRoomId)
  }

  ghost predicate Inv(db: Db)
  {
    EmailsUnique(db) && TokensAgree(db) && UniqueNames(db.rooms) && RowsLinked(db) && IdsFresh(db)
  }
}

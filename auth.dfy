/**
 * `AuthController`: registration and login with email and password, both
 * answering with a signed bearer token. Password hashing and verification
 * and token signing are opaque and passed in as functions; the clock is the
 * `now` argument.
 */
module Auth {
  import opened Wrappers
  import opened Text
  import opened Models
  import opened Data

  /** `RegisterRequest`; email and password may arrive as null. */
  datatype RegisterRequest = RegisterRequest(name: Option<string>, email: Option<string>, password: Option<string>)

  /** `LoginRequest`. */
  datatype LoginRequest = LoginRequest(email: Option<string>, password: Option<string>)

  /** `AuthResponse`; `expiresIn` counts minutes. */
  datatype AuthResponse = AuthResponse(token: string, expiresIn: int, userId: int, email: string, name: string)

  /** The `Jwt:Key`, `Jwt:Issuer`, `Jwt:Audience` and `Jwt:ExpireMinutes` settings. */
  datatype JwtConfig = JwtConfig(key: Option<string>, issuer: Option<string>, audience: Option<string>,
                                 expireMinutes: Option<string>)

  /** What `JwtSecurityToken` is built from before it is signed. */
  datatype JwtPayload = JwtPayload(issuer: Option<string>, audience: Option<string>, claims: seq<Claim>,
                                   expires: Instant)

  const CredentialsRequired: string := "Email and password are required."
  const EmailInUse: string := "Email already in use."
  const InvalidCredentials: string := "Invalid credentials."
  const DefaultExpireMinutes: int := 60

  /** `int.Parse(_config["Jwt:ExpireMinutes"] ?? "60")`, `None` where it throws. */
  function ExpireMinutes(config: JwtConfig): (r: Option<int>)
    ensures config.expireMinutes.None? ==> r == Some(DefaultExpireMinutes)
    ensures config.expireMinutes.Some? ==> r == ParseInt(config.expireMinutes.value)
  {
    DefaultSpelling();
    ParseInt(config.expireMinutes.GetOr("60"))
  }

  /** The default setting "60" is the decimal spelling of sixty, so it parses. */
  lemma DefaultSpelling()
    ensures ParseInt("60") == Some(DefaultExpireMinutes)
  {
    assert DecimalDigits(6) == "6";
    assert DecimalDigits(60) == "60";
    FormatParseRoundTrip(60, IntMin, IntMax);
  }

  /** The token's claims: subject (the id in decimal), email, and name. */
  function TokenClaims(user: User): (r: seq<Claim>)
    ensures |r| == 3
    ensures FindFirstClaim(r, SubClaimType) == Some(FormatInteger(user.id))
    ensures FindFirstClaim(r, EmailClaimType) == Some(user.email)
    ensures FindFirstClaim(r, NameClaimType) == Some(user.name)
    ensures FindFirstClaim(r, NameIdentifierClaimType) == None
  {
    [Claim(SubClaimType, FormatInteger(user.id)), Claim(EmailClaimType, user.email), Claim(NameClaimType, user.name)]
  }

  /**
   * The unsigned token of `GenerateJwt`: it fails when `Jwt:Key` is missing,
   * else when `Jwt:ExpireMinutes` does not parse; otherwise it carries the
   * configured issuer and audience, the user's claims, and expires that many
   * minutes after `now`.
   */
  function TokenPayload(config: JwtConfig, user: User, now: Instant): (r: Result<JwtPayload, Fault>)
    ensures config.key.None? ==> r == Failure(MissingJwtKey)
    ensures config.key.Some? && ExpireMinutes(config).None? ==> r == Failure(BadExpireMinutes)
    ensures r.Success? <==> config.key.Some? && ExpireMinutes(config).Some?
    ensures r.Success? ==>
      && r.value.issuer == config.issuer && r.value.audience == config.audience
      && r.value.claims == TokenClaims(user)
      && r.value.expires == now + SecondsPerMinute * ExpireMinutes(config).value
  {
    if config.key.None? then Failure(MissingJwtKey)
    else
      match ExpireMinutes(config)
      case None => Failure(BadExpireMinutes)
      case Some(minutes) =>
        Success(JwtPayload(config.issuer, config.audience, TokenClaims(user), AddMinutes(now, minutes)))
  }

  /** `GenerateJwt`: the payload signed (HMAC-SHA256) with the configured key. */
  function GenerateJwt(config: JwtConfig, user: User, now: Instant, sign: (string, JwtPayload) -> string)
    : (r: Result<string, Fault>)
    ensures r.Failure? <==> TokenPayload(config, user, now).Failure?
    ensures r.Failure? ==> r.error == TokenPayload(config, user, now).error
    ensures r.Success? ==> r.value == sign(config.key.value, TokenPayload(config, user, now).value)
  {
    match TokenPayload(config, user, now)
    case Failure(fault) => Failure(fault)
    case Success(payload) => Success(sign(config.key.value, payload))
  }

  /**
   * The answer both actions build after the token: the token, its lifetime
   * in minutes, and the user's id, email and name.
   */
  function Respond(config: JwtConfig, user: User, now: Instant, sign: (string, JwtPayload) -> string)
    : (r: Result<AuthResponse, Fault>)
    ensures r.Failure? <==> TokenPayload(config, user, now).Failure?
    ensures r.Failure? ==> r.error == TokenPayload(config, user, now).error
    ensures r.Success? ==>
      && r.value.token == sign(config.key.value, TokenPayload(config, user, now).value)
      && TokenPayload(config, user, now).value.expires == now + SecondsPerMinute * r.value.expiresIn
      && r.value.userId == user.id && r.value.email == user.email && r.value.name == user.name
  {
    match GenerateJwt(config, user, now, sign)
    case Failure(fault) => Failure(fault)
    case Success(token) =>
      Success(AuthResponse(token, ExpireMinutes(config).value, user.id, user.email, user.name))
  }

  /** Both actions refuse a null request, or a blank email or password, first. */
  function MissingCredentials(email: Option<string>, password: Option<string>): (r: bool)
    ensures r <==> email.None? || password.None? || Trim(email.value) == [] || Trim(password.value) == []
  {
    TrimEmptyIffAllWhiteSpace(email.GetOr(""));
    TrimEmptyIffAllWhiteSpace(password.GetOr(""));
    IsNullOrWhiteSpace(email) || IsNullOrWhiteSpace(password)
  }

  /**
   * `Login`: 400 for missing credentials; 401 "Invalid credentials." both
   * for an unknown email and for a password that does not verify against
   * the stored hash; otherwise 200 with a token for the user (500 when the
   * token cannot be made). The `Active` flag is not consulted.
   */
  function Login(users: seq<User>, request: Option<LoginRequest>, config: JwtConfig, now: Instant,
                 verify: (string, string) -> bool, sign: (string, JwtPayload) -> string)
    : (r: ActionResult<AuthResponse>)
    ensures r.BadRequest? <==> request.None? || MissingCredentials(request.value.email, request.value.password)
    ensures r.BadRequest? ==> r.message == CredentialsRequired
    ensures r.Unauthorized? ==> r.body == Some(InvalidCredentials)
    ensures r.Ok? || r.Thrown? ==>
      exists u :: u in users && u.email == request.value.email.value
        && verify(request.value.password.value, u.password)
    ensures r.Ok? ==>
      exists u :: u in users && u.email == request.value.email.value && r.value.userId == u.id
    ensures r.Ok? || r.BadRequest? || r.Unauthorized? || r.Thrown?
  {
    if request.None? || MissingCredentials(request.value.email, request.value.password) then
      BadRequest(CredentialsRequired)
    else
      var email := request.value.email.value;
      var password := request.value.password.value;
      match FindUserByEmail(users, email)
      case None => Unauthorized(Some(InvalidCredentials))
      case Some(user) =>
        if !verify(password, user.password) then Unauthorized(Some(InvalidCredentials))
        else
          match Respond(config, user, now, sign)
          case Failure(fault) => Thrown(fault)
          case Success(response) => Ok(response)
  }

  /**
   * An unknown email and a wrong password for a known one get the very same
   * answer, so a caller cannot probe which emails are registered.
   */
  lemma UnknownEmailLikeWrongPassword(users: seq<User>, unknown: LoginRequest, wrong: LoginRequest,
                                      config: JwtConfig, now: Instant,
                                      verify: (string, string) -> bool, sign: (string, JwtPayload) -> string)
    requires !MissingCredentials(unknown.email, unknown.password)
    requires !MissingCredentials(wrong.email, wrong.password)
    requires forall u :: u in users ==> u.email != unknown.email.value
    requires forall u :: u in users && u.email == wrong.email.value ==> !verify(wrong.password.value, u.password)
    ensures Login(users, Some(unknown), config, now, verify, sign)
         == Login(users, Some(wrong), config, now, verify, sign)
         == Unauthorized(Some(InvalidCredentials))
  {
  }

  /** With unique emails, the row with the email is that user. */
  lemma FindUniqueEmail(users: seq<User>, user: User)
    requires UniqueEmails(users) && user in users
    ensures FindUserByEmail(users, user.email) == Some(user)
  {
    var found := FindUserByEmail(users, user.email).value;
    var i :| 0 <= i < |users| && users[i] == user;
    var j :| 0 <= j < |users| && users[j] == found;
    if i < j {
      assert users[i].email != users[j].email;
    } else if j < i {
      assert users[j].email != users[i].email;
    }
  }

  /**
   * In a store with unique emails, a stored user whose password verifies
   * logs in and is answered with their own id, email and name and a token
   * signed over their claims.
   */
  lemma LoginSucceeds(users: seq<User>, user: User, password: string, config: JwtConfig, now: Instant,
                      verify: (string, string) -> bool, sign: (string, JwtPayload) -> string)
    requires UniqueEmails(users) && user in users
    requires !MissingCredentials(Some(user.email), Some(password))
    requires verify(password, user.password)
    requires config.key.Some? && ExpireMinutes(config).Some?
    ensures Login(users, Some(LoginRequest(Some(user.email), Some(password))), config, now, verify, sign)
         == Ok(AuthResponse(sign(config.key.value, TokenPayload(config, user, now).value),
                            ExpireMinutes(config).value, user.id, user.email, user.name))
  {
    FindUniqueEmail(users, user);
  }

  /** The row `Register` adds for a request. */
  function NewUser(id: int, request: RegisterRequest, hash: string -> string): (u: User)
    requires request.email.Some? && request.password.Some?
    ensures u.id == id && u.email == request.email.value && u.active == 1
    ensures u.password == hash(request.password.value)
    ensures request.name.None? ==> u.name == ""
    ensures request.name.Some? ==> u.name == request.name.value
  {
    User(id, request.name.GetOr(""), request.email.value, hash(request.password.value), 1)
  }

  /** The answer once the user is stored: 201 with the response, or 500. */
  function Answer(outcome: Result<AuthResponse, Fault>): (r: ActionResult<AuthResponse>)
    ensures outcome.Success? ==> r == Created(outcome.value)
    ensures outcome.Failure? ==> r == Thrown(outcome.error)
  {
    match outcome
    case Failure(fault) => Thrown(fault)
    case Success(response) => Created(response)
  }

  /** `Users.Add` and `SaveChangesAsync`: the row gets the next identity value. */
  method StoreUser(db: BlogContext, user: User)
    requires db.Valid() && user.id == db.nextUserId && FindUserByEmail(db.users, user.email).None?
    modifies db
    ensures db.Valid()
    ensures db.users == old(db.users) + [user] && db.nextUserId == old(db.nextUserId) + 1
    ensures db.posts == old(db.posts) && db.tags == old(db.tags)
    ensures db.nextPostId == old(db.nextPostId) && db.nextTagId == old(db.nextTagId)
  {
    AppendUserKeepsConsistent(db.users, db.posts, db.tags, db.nextUserId, db.nextPostId, db.nextTagId, user);
    db.users := db.users + [user];
    db.nextUserId := db.nextUserId + 1;
  }

  /**
   * `Register`: 400 for missing credentials and 409 for an email already
   * stored, both leaving the store as it was; otherwise the user is stored
   * with the hashed password before the token is made, so a token failure
   * (500) happens after the insert. Success answers 201.
   */
  method Register(db: BlogContext, request: Option<RegisterRequest>, config: JwtConfig, now: Instant,
                  hash: string -> string, sign: (string, JwtPayload) -> string)
    returns (r: ActionResult<AuthResponse>)
    requires db.Valid()
    modifies db
    ensures db.Valid()
    ensures (request.None? || MissingCredentials(request.value.email, request.value.password)) ==>
        r == BadRequest(CredentialsRequired) && unchanged(db)
    ensures (request.Some? && !MissingCredentials(request.value.email, request.value.password)
             && FindUserByEmail(old(db.users), request.value.email.value).Some?) ==>
        r == Conflict(EmailInUse) && unchanged(db)
    ensures (request.Some? && !MissingCredentials(request.value.email, request.value.password)
             && FindUserByEmail(old(db.users), request.value.email.value).None?) ==>
        var user := NewUser(old(db.nextUserId), request.value, hash);
        && db.users == old(db.users) + [user]
        && db.nextUserId == old(db.nextUserId) + 1
        && db.posts == old(db.posts) && db.tags == old(db.tags)
        && db.nextPostId == old(db.nextPostId) && db.nextTagId == old(db.nextTagId)
        && r == Answer(Respond(config, user, now, sign))
  {
    if request.None? || MissingCredentials(request.value.email, request.value.password) {
      return BadRequest(CredentialsRequired);
    }
    var req := request.value;
    if FindUserByEmail(db.users, req.email.value).Some? {
      return Conflict(EmailInUse);
    }
    var user := NewUser(db.nextUserId, req, hash);
    // The row is saved before the token is generated.
    StoreUser(db, user);
    r := Answer(Respond(config, user, now, sign));
  }

  /**
   * A user just registered can log in with the same email and password,
   * provided the hash verifies its own plaintext, and is given the same
   * answer as registration gave.
   */
  lemma RegisterThenLogin(users: seq<User>, id: int, request: RegisterRequest, config: JwtConfig, now: Instant,
                          hash: string -> string, verify: (string, string) -> bool,
                          sign: (string, JwtPayload) -> string)
    requires UniqueEmails(users)
    requires !MissingCredentials(request.email, request.password)
    requires FindUserByEmail(users, request.email.value).None?
    requires verify(request.password.value, hash(request.password.value))
    requires Respond(config, NewUser(id, request, hash), now, sign).Success?
    ensures Login(users + [NewUser(id, request, hash)], Some(LoginRequest(request.email, request.password)),
                  config, now, verify, sign)
         == Ok(Respond(config, NewUser(id, request, hash), now, sign).value)
  {
    var user := NewUser(id, request, hash);
    var all := users + [user];
    assert UniqueEmails(all) by {
      forall i, j | 0 <= i < j < |all| ensures all[i].email != all[j].email {
        assert all[i] == users[i];
        if j < |users| { assert all[j] == users[j]; }
      }
    }
    assert user in all;
    FindUniqueEmail(all, user);
  }

  /**
   * Registration after a token failure: the user was stored anyway, so
   * repeating the same registration is refused as a duplicate.
   */
  lemma RetryAfterFaultConflicts(users: seq<User>, id: int, request: RegisterRequest, hash: string -> string)
    requires request.email.Some? && request.password.Some?
    ensures FindUserByEmail(users + [NewUser(id, request, hash)], request.email.value).Some?
  {
    assert NewUser(id, request, hash) in users + [NewUser(id, request, hash)];
  }
}

/** Token claims and the authentication decisions of
    app/auth/auth_utilits.py. Signing, verifying and password hashing are
    foreign code: they enter as function parameters. A verified token is
    either its claims, expired, or otherwise invalid. */
module AuthUtils {
  import opened Common
  import opened Models
  import opened Exceptions
  import opened AuthDao
  import opened Store

  const TOKEN_TYPE_FIELD := "type"
  const ACCESS_TOKEN_TYPE := "access"
  const REFRESH_TOKEN_TYPE := "refresh"
  const ALGORITHM := "RS256"
  const ACCESS_TOKEN_EXPIRE_MINUTES := 15
  const REFRESH_TOKEN_EXPIRE_DAYS := 30
  const SECONDS_PER_MINUTE := 60
  const SECONDS_PER_DAY := 86400

  /** What decoding a token gives: its claims, or the two PyJWT errors. */
  datatype Decoded = Valid(claims: Claims) | Expired | Invalid

  datatype TokenPair = TokenPair(accessToken: string, refreshToken: string)

  // ---------------------------------------------------------------------
  // Claims
  // ---------------------------------------------------------------------

  /** create_jwt's payload: `{type: token_type}` updated with `token_data`. */
  function JwtPayload(tokenType: string, tokenData: Claims): Claims
  {
    map[TOKEN_TYPE_FIELD := Str(tokenType)] + tokenData
  }

  /** Python truthiness of an optional timedelta, in seconds. */
  predicate Truthy(expireTimedelta: Option<int>)
  {
    expireTimedelta.Some? && expireTimedelta.value != 0
  }

  /** encode_jwt's claims: a copy of the payload with `exp` and `iat` set.
      PyJWT stores both times as whole seconds. */
  function EncodeClaims(payload: Claims, now: Timestamp, expireMinutes: int, expireTimedelta: Option<int>): Claims
  {
    var expire := if Truthy(expireTimedelta) then now + expireTimedelta.value else now + expireMinutes * SECONDS_PER_MINUTE;
    payload["exp" := Num(expire)]["iat" := Num(now)]
  }

  function AccessClaims(userId: UserId, now: Timestamp): Claims
  {
    EncodeClaims(JwtPayload(ACCESS_TOKEN_TYPE, map["sub" := Str(userId)]), now, ACCESS_TOKEN_EXPIRE_MINUTES, None)
  }

  function RefreshClaims(userId: UserId, now: Timestamp): Claims
  {
    EncodeClaims(JwtPayload(REFRESH_TOKEN_TYPE, map["sub" := Str(userId)]), now, ACCESS_TOKEN_EXPIRE_MINUTES,
                 Some(REFRESH_TOKEN_EXPIRE_DAYS * SECONDS_PER_DAY))
  }

  /** The payload keeps every key of `token_data` with its value, has a
      `type`, and a `type` in `token_data` wins over the argument. */
  lemma JwtPayloadMerge(tokenType: string, tokenData: Claims)
    ensures var p := JwtPayload(tokenType, tokenData);
      && p.Keys == tokenData.Keys + {TOKEN_TYPE_FIELD}
      && (forall k :: k in tokenData ==> p[k] == tokenData[k])
      && p[TOKEN_TYPE_FIELD] == if TOKEN_TYPE_FIELD in tokenData then tokenData[TOKEN_TYPE_FIELD] else Str(tokenType)
  {
  }

  /** Encoding adds `iat = now` and `exp`, which is now plus the timedelta
      when one is given and non-zero, otherwise now plus the minutes; all
      other claims are the payload's own. */
  lemma EncodeClaimsTimes(payload: Claims, now: Timestamp, expireMinutes: int, expireTimedelta: Option<int>)
    ensures var c := EncodeClaims(payload, now, expireMinutes, expireTimedelta);
      && c.Keys == payload.Keys + {"exp", "iat"}
      && c["iat"] == Num(now)
      && (Truthy(expireTimedelta) ==> c["exp"] == Num(now + expireTimedelta.value))
      && (!Truthy(expireTimedelta) ==> c["exp"] == Num(now + 60 * expireMinutes))
      && (forall k :: k in payload && k != "exp" && k != "iat" ==> c[k] == payload[k])
  {
  }

  /** An access token names its user, is of type "access", and lives 15
      minutes; a refresh token is of type "refresh" and lives 30 days. */
  lemma TokenClaims(userId: UserId, now: Timestamp)
    ensures var a := AccessClaims(userId, now);
      a == map["type" := Str("access"), "sub" := Str(userId), "exp" := Num(now + 900), "iat" := Num(now)]
    ensures var r := RefreshClaims(userId, now);
      r == map["type" := Str("refresh"), "sub" := Str(userId), "exp" := Num(now + 2592000), "iat" := Num(now)]
  {
    EncodeClaimsTimes(JwtPayload(ACCESS_TOKEN_TYPE, map["sub" := Str(userId)]), now, ACCESS_TOKEN_EXPIRE_MINUTES, None);
    EncodeClaimsTimes(JwtPayload(REFRESH_TOKEN_TYPE, map["sub" := Str(userId)]), now, ACCESS_TOKEN_EXPIRE_MINUTES,
                      Some(REFRESH_TOKEN_EXPIRE_DAYS * SECONDS_PER_DAY));
  }

  // ---------------------------------------------------------------------
  // validate_token_type
  // ---------------------------------------------------------------------

  /** `payload.get(key)`. */
  function Get(payload: Claims, key: string): Option<Claim>
  {
    if key in payload then Some(payload[key]) else None
  }

  /** None when the token has the expected type; otherwise what is raised. */
  function ValidateTokenType(payload: Claims, expectedType: string, websocketMode: bool): Option<Raised>
  {
    var tokenType := Get(payload, TOKEN_TYPE_FIELD);
    if tokenType == Some(Str(expectedType)) then None
    else if websocketMode then Some(WsPolicyViolation(Some(TokenTypeMessage(tokenType, expectedType))))
    else Some(Http(NotValidTokenType(tokenType, expectedType)))
  }

  /** The check fails exactly when the `type` claim is not the expected
      text; the mode decides only the kind of failure, and the WebSocket
      reason is the same text as the HTTP detail. */
  lemma TokenTypeCheck(payload: Claims, expectedType: string, websocketMode: bool)
    ensures var r := ValidateTokenType(payload, expectedType, websocketMode);
      && (r.None? <==> TOKEN_TYPE_FIELD in payload && payload[TOKEN_TYPE_FIELD] == Str(expectedType))
      && (r.None? <==> ValidateTokenType(payload, expectedType, !websocketMode).None?)
      && (r.Some? && !websocketMode ==> r.value.Http? && StatusCode(r.value.error) == HTTP_401_UNAUTHORIZED)
      && (r.Some? && websocketMode ==>
            r.value.WsPolicyViolation? && r.value.reason.Some?
            && Text(r.value.reason.value) == DetailOf(ValidateTokenType(payload, expectedType, false).value.error))
  {
  }

  // ---------------------------------------------------------------------
  // validate_user_from_payload
  // ---------------------------------------------------------------------

  /** Python truthiness of a claim that may be missing. */
  predicate ClaimTruthy(c: Option<Claim>)
  {
    match c
    case None => false
    case Some(Str(s)) => s != ""
    case Some(Num(n)) => n != 0
  }

  /** The user a `sub` claim names: only a text can be a user id. */
  function SubjectUser(users: seq<User>, sub: Claim): Option<User>
  {
    if sub.Str? then FindUser(users, sub.s) else None
  }

  function NotPresent(websocketMode: bool): Raised
  {
    if websocketMode then WsPolicyViolation(None) else Http(UserIsNotPresent)
  }

  const USER_BLOCKED_REASON := "The user was blocked."

  function ValidateUserFromPayload(users: seq<User>, blocks: seq<Block>, payload: Claims, websocketMode: bool): Outcome<User>
  {
    var sub := Get(payload, "sub");
    if !ClaimTruthy(sub) then Fail(NotPresent(websocketMode))
    else
      match SubjectUser(users, sub.value)
      case None => Fail(NotPresent(websocketMode))
      case Some(user) =>
        match FindBlockOf(blocks, sub.value.s)
        case OneRow(_) =>
          Fail(if websocketMode then WsPolicyViolation(Some(USER_BLOCKED_REASON)) else Http(UserIsBlocked))
        case ManyRows => Fail(Internal(MultipleResultsFound))
        case NoRow => Ok(user)
  }

  /** The checks run in order, each failure stopping the rest: a non-empty
      `sub`, then a user with that id, then no block for that id. A user is
      returned only when all three pass, and it is the user the claim
      names. */
  lemma ValidateUserOrder(users: seq<User>, blocks: seq<Block>, payload: Claims, websocketMode: bool)
    ensures var r := ValidateUserFromPayload(users, blocks, payload, websocketMode);
      var sub := Get(payload, "sub");
      && (!ClaimTruthy(sub) ==> r == Fail(NotPresent(websocketMode)))
      && (ClaimTruthy(sub) && SubjectUser(users, sub.value).None? ==> r == Fail(NotPresent(websocketMode)))
      && ((ClaimTruthy(sub) && SubjectUser(users, sub.value).Some?
           && (exists b :: b in blocks && b.blockedUserId == sub.value.s)) ==> r.Fail?)
      && (r.Ok? <==>
            && "sub" in payload && payload["sub"].Str? && payload["sub"].s != ""
            && FindUser(users, payload["sub"].s).Some?
            && (forall b :: b in blocks ==> b.blockedUserId != payload["sub"].s))
      && (r.Ok? ==> r.value == FindUser(users, payload["sub"].s).value && r.value.id == payload["sub"].s)
  {
  }

  // ---------------------------------------------------------------------
  // authentication
  // ---------------------------------------------------------------------

  function EmailIs(email: string): User -> bool
  {
    (u: User) => u.email == email
  }

  /** `UsersDao.find_one_or_none(email=email)`. */
  function FindByEmail(users: seq<User>, email: string): Lookup<User>
  {
    OneOrNone(Ordering.Filter(users, EmailIs(email)))
  }

  /** What the block lookup found, as authentication reacts to it. */
  function BlockVerdict(found: Lookup<Block>, user: User): Outcome<Option<User>>
  {
    match found
    case NoRow => Ok(Some(user))
    case OneRow(_) => Fail(Http(UserIsBlocked))
    case ManyRows => Fail(Internal(MultipleResultsFound))
  }

  /** authentication as written: the block lookup has no filter, so it
      looks at the whole blocked-users table. */
  function AuthenticationAsWritten(users: seq<User>, blocks: seq<Block>, email: string, password: string,
                                   checkPassword: (string, string) -> bool): Outcome<Option<User>>
  {
    match FindByEmail(users, email)
    case ManyRows => Fail(Internal(MultipleResultsFound))
    case NoRow => Ok(None)
    case OneRow(user) =>
      if !checkPassword(password, user.hashedPassword) then Ok(None)
      else BlockVerdict(AnyBlock(blocks), user)
  }

  /** authentication with the block lookup filtered by the user's id, as
      validate_user_from_payload does it. */
  function Authentication(users: seq<User>, blocks: seq<Block>, email: string, password: string,
                          checkPassword: (string, string) -> bool): Outcome<Option<User>>
  {
    match FindByEmail(users, email)
    case ManyRows => Fail(Internal(MultipleResultsFound))
    case NoRow => Ok(None)
    case OneRow(user) =>
      if !checkPassword(password, user.hashedPassword) then Ok(None)
      else BlockVerdict(FindBlockOf(blocks, user.id), user)
  }

  lemma FilterUniqueEmail(users: seq<User>, email: string)
    requires ValidUsers(users)
    ensures |Ordering.Filter(users, EmailIs(email))| <= 1
  {
    var f := Ordering.Filter(users, EmailIs(email));
    if |f| >= 2 {
      assert f[0] in f && f[1] in f;
      Ordering.FilterUnique(users, EmailIs(email), (u: User) => u.email);
    }
  }

  lemma FindByEmailUnique(users: seq<User>, email: string)
    requires ValidUsers(users)
    ensures var l := FindByEmail(users, email);
      && (l.NoRow? <==> forall u :: u in users ==> u.email != email)
      && !l.ManyRows?
      && (l.OneRow? ==> l.row in users && l.row.email == email)
  {
    var f := Ordering.Filter(users, EmailIs(email));
    assert forall u :: u in f <==> u in users && u.email == email;
    if |f| >= 2 {
      assert f[0] in f && f[1] in f;
      FilterUniqueEmail(users, email);
    }
    if |f| == 1 {
      assert f[0] in f;
    }
  }

  /** With the filter, a login succeeds exactly for the user with that
      email whose password checks and who has no block; an unknown email or
      a wrong password gives None, never an error. */
  lemma AuthenticationOutcome(users: seq<User>, blocks: seq<Block>, email: string, password: string,
                              checkPassword: (string, string) -> bool, u: User)
    requires ValidUsers(users) && u in users && u.email == email
    ensures var r := Authentication(users, blocks, email, password, checkPassword);
      && (!checkPassword(password, u.hashedPassword) ==> r == Ok(None))
      && (checkPassword(password, u.hashedPassword) && (forall b :: b in blocks ==> b.blockedUserId != u.id)
          ==> r == Ok(Some(u)))
      && (checkPassword(password, u.hashedPassword) && (exists b :: b in blocks && b.blockedUserId == u.id)
          ==> r.Fail?)
  {
    FindByEmailUnique(users, email);
  }

  /** As written, a known email with the right password passes only while
      the blocked-users table is empty; one row anywhere refuses it as
      blocked and more rows are a server error. */
  lemma AuthenticationAsWrittenOutcome(users: seq<User>, blocks: seq<Block>, email: string, password: string,
                                       checkPassword: (string, string) -> bool, u: User)
    requires ValidUsers(users) && u in users && u.email == email
    ensures var r := AuthenticationAsWritten(users, blocks, email, password, checkPassword);
      && (!checkPassword(password, u.hashedPassword) ==> r == Ok(None))
      && (checkPassword(password, u.hashedPassword) && blocks == [] ==> r == Ok(Some(u)))
      && (checkPassword(password, u.hashedPassword) && |blocks| == 1 ==> r == Fail(Http(UserIsBlocked)))
      && (checkPassword(password, u.hashedPassword) && |blocks| > 1 ==> r == Fail(Internal(MultipleResultsFound)))
  {
    FindByEmailUnique(users, email);
  }

  lemma UnknownEmail(users: seq<User>, blocks: seq<Block>, email: string, password: string,
                     checkPassword: (string, string) -> bool)
    requires ValidUsers(users) && forall u :: u in users ==> u.email != email
    ensures Authentication(users, blocks, email, password, checkPassword) == Ok(None)
    ensures AuthenticationAsWritten(users, blocks, email, password, checkPassword) == Ok(None)
  {
    FindByEmailUnique(users, email);
  }

  /** As written, one block row for anybody refuses every correct login as
      blocked, and two rows turn every correct login into a server error. */
  lemma AsWrittenBlocksEveryone(u: User, b: Block, b2: Block, checkPassword: (string, string) -> bool, password: string)
    requires b.blockedUserId != u.id && b2.blockedUserId != u.id
    requires checkPassword(password, u.hashedPassword)
    ensures AuthenticationAsWritten([u], [b], u.email, password, checkPassword) == Fail(Http(UserIsBlocked))
    ensures AuthenticationAsWritten([u], [b, b2], u.email, password, checkPassword) == Fail(Internal(MultipleResultsFound))
    ensures Authentication([u], [b], u.email, password, checkPassword) == Ok(Some(u))
    ensures Authentication([u], [b, b2], u.email, password, checkPassword) == Ok(Some(u))
  {
    assert Ordering.Filter([u], EmailIs(u.email)) == [u];
    assert Ordering.Filter([b], BlockedUserIs(u.id)) == [] by {
      Ordering.FilterNone([b], BlockedUserIs(u.id));
    }
    assert Ordering.Filter([b, b2], BlockedUserIs(u.id)) == [] by {
      Ordering.FilterNone([b, b2], BlockedUserIs(u.id));
    }
  }

  // ---------------------------------------------------------------------
  // refresh
  // ---------------------------------------------------------------------

  /** Everything refresh checks before issuing tokens; the user whose
      tokens are rotated when all checks pass. */
  function RefreshCheck(users: seq<User>, blocks: seq<Block>, refreshToken: string,
                        verify: string -> Decoded): Outcome<User>
  {
    match verify(refreshToken)
    case Expired => Fail(Http(TokenExpired))
    case Invalid => Fail(Http(IncorrectTokenFormat))
    case Valid(payload) =>
      var typeError := ValidateTokenType(payload, REFRESH_TOKEN_TYPE, false);
      if typeError.Some? then Fail(typeError.value)
      else
        match ValidateUserFromPayload(users, blocks, payload, false)
        case Fail(e) => Fail(e)
        case Ok(user) =>
          if user.refreshToken != Some(refreshToken) then Fail(Http(TokensDoesNotMatch))
          else Ok(user)
  }

  /** refresh succeeds exactly for a valid, unexpired refresh token of an
      existing, unblocked user that is the token stored for that user; an
      expired token and a malformed one map to their own errors, and the
      type is checked before the user. */
  lemma RefreshOutcome(users: seq<User>, blocks: seq<Block>, refreshToken: string, verify: string -> Decoded)
    ensures var r := RefreshCheck(users, blocks, refreshToken, verify);
      && (verify(refreshToken).Expired? ==> r == Fail(Http(TokenExpired)))
      && (verify(refreshToken).Invalid? ==> r == Fail(Http(IncorrectTokenFormat)))
      && (verify(refreshToken).Valid? && Get(verify(refreshToken).claims, TOKEN_TYPE_FIELD) != Some(Str(REFRESH_TOKEN_TYPE))
          ==> r == Fail(Http(NotValidTokenType(Get(verify(refreshToken).claims, TOKEN_TYPE_FIELD), REFRESH_TOKEN_TYPE))))
      && (r.Ok? <==>
            && verify(refreshToken).Valid?
            && ValidateTokenType(verify(refreshToken).claims, REFRESH_TOKEN_TYPE, false).None?
            && ValidateUserFromPayload(users, blocks, verify(refreshToken).claims, false).Ok?
            && ValidateUserFromPayload(users, blocks, verify(refreshToken).claims, false).value.refreshToken == Some(refreshToken))
      && (r.Ok? ==> r.value.refreshToken == Some(refreshToken) && r.value in users)
  {
    if verify(refreshToken).Valid? {
      var payload := verify(refreshToken).claims;
      ValidateUserOrder(users, blocks, payload, false);
    }
  }

  /** Rotation: once a refresh has stored a new token for the user, the
      token just used is refused, as long as the new token differs. */
  lemma OldRefreshTokenRefused(users: seq<User>, blocks: seq<Block>, refreshToken: string, newToken: string,
                               verify: string -> Decoded)
    requires ValidUsers(users)
    requires RefreshCheck(users, blocks, refreshToken, verify).Ok?
    requires newToken != refreshToken
    ensures var user := RefreshCheck(users, blocks, refreshToken, verify).value;
      RefreshCheck(SetRefreshToken(users, user.id, newToken), blocks, refreshToken, verify) == Fail(Http(TokensDoesNotMatch))
  {
    var user := RefreshCheck(users, blocks, refreshToken, verify).value;
    var payload := verify(refreshToken).claims;
    var users' := SetRefreshToken(users, user.id, newToken);
    assert ValidateUserFromPayload(users, blocks, payload, false) == Ok(user);
    assert FindUser(users', user.id) == Some(user.(refreshToken := Some(newToken))) by {
      SubjectFound(users, blocks, payload, false);
      SetRefreshTokenEffect(users, user.id, newToken, user.id);
    }
    SameSubjectValidates(users, users', blocks, payload, false, user.(refreshToken := Some(newToken)));
  }

  /** A user that validation accepts is the row stored under its id. */
  lemma SubjectFound(users: seq<User>, blocks: seq<Block>, payload: Claims, websocketMode: bool)
    requires ValidateUserFromPayload(users, blocks, payload, websocketMode).Ok?
    ensures var u := ValidateUserFromPayload(users, blocks, payload, websocketMode).value;
      FindUser(users, u.id) == Some(u)
  {
  }

  /** Validation reads the users only through the row of the subject: another
      table with a row under the same id accepts the same payload. */
  lemma SameSubjectValidates(users: seq<User>, users': seq<User>, blocks: seq<Block>, payload: Claims,
                             websocketMode: bool, u': User)
    requires ValidateUserFromPayload(users, blocks, payload, websocketMode).Ok?
    requires FindUser(users', ValidateUserFromPayload(users, blocks, payload, websocketMode).value.id) == Some(u')
    ensures ValidateUserFromPayload(users', blocks, payload, websocketMode) == Ok(u')
  {
  }

  /** The whole of refresh: the checks, then two new tokens signed at `now`,
      the new refresh token stored for the user. */
  method Refresh(db: Database, refreshToken: string, verify: string -> Decoded, sign: Claims -> string, now: Timestamp)
    returns (r: Outcome<TokenPair>)
    requires db.Valid()
    modifies db
    ensures db.Valid()
    ensures db.blocks == old(db.blocks) && db.messages == old(db.messages)
    ensures db.nextMessageId == old(db.nextMessageId) && db.nextBlockId == old(db.nextBlockId)
    ensures var check := RefreshCheck(old(db.users), old(db.blocks), refreshToken, verify);
      && (check.Fail? ==> r == Fail(check.raised) && db.users == old(db.users))
      && (check.Ok? ==>
            var id := check.value.id;
            && r == Ok(TokenPair(sign(AccessClaims(id, now)), sign(RefreshClaims(id, now))))
            && db.users == SetRefreshToken(old(db.users), id, sign(RefreshClaims(id, now))))
  {
    var check := RefreshCheck(db.users, db.blocks, refreshToken, verify);
    match check {
      case Fail(e) =>
        r := Fail(e);
      case Ok(user) =>
        RefreshOutcome(db.users, db.blocks, refreshToken, verify);
        FindUserUnique(db.users, user);
        var accessToken := sign(AccessClaims(user.id, now));
        var newRefreshToken := sign(RefreshClaims(user.id, now));
        var stored := db.UpdateRefreshToken(user.id, newRefreshToken);
        r := Ok(TokenPair(accessToken, newRefreshToken));
    }
  }
}

/** AuthService and BlockService of app/auth/services.py: registration,
    login, and a moderator blocking a user. */
module AuthService {
  import opened Common
  import opened Models
  import opened Exceptions
  import opened Ordering
  import opened AuthDao
  import opened Store
  import opened AuthUtils
  import opened Dependencies

  const REGISTERED_DETAIL := "The user has been registered successfully."
  const BLOCKED_DETAIL := "The user has been blocked."

  // ---------------------------------------------------------------------
  // register_user
  // ---------------------------------------------------------------------

  /** What register_user raises before it adds the row, if anything: the
      email or username already taken (email first, as the existing row
      is examined), then passwords that differ. */
  function RegisterCheck(users: seq<User>, email: string, username: string, password: string,
                         passwordRepeat: string): Option<Raised>
  {
    var passwordCheck := if password != passwordRepeat then Some(Http(PasswordsDoesNotMatch)) else None;
    match FindByEmailOrUsername(users, email, username)
    case ManyRows => Some(Internal(MultipleResultsFound))
    case NoRow => passwordCheck
    case OneRow(existing) =>
      if existing.email == email then Some(Http(UserEmailExists))
      else if existing.username == username then Some(Http(UserUsernameExists))
      else passwordCheck
  }

  /** Registration is refused for a taken email with 409, for a taken
      username with 409, for differing passwords with 400; when the email
      belongs to one user and the username to another, the lookup finds two
      rows and the request fails with a server error. It passes exactly
      when neither is taken and the passwords agree. */
  lemma RegisterCheckOutcome(users: seq<User>, email: string, username: string, password: string, passwordRepeat: string)
    requires ValidUsers(users)
    ensures var r := RegisterCheck(users, email, username, password, passwordRepeat);
      && (r.None? <==>
            (forall u :: u in users ==> u.email != email && u.username != username) && password == passwordRepeat)
      && ((exists u :: u in users && u.email == email)
          && (forall v :: v in users && v.username == username ==> v.email == email)
          ==> r == Some(Http(UserEmailExists)))
      && ((forall u :: u in users ==> u.email != email) && (exists u :: u in users && u.username == username)
          ==> r == Some(Http(UserUsernameExists)))
      && ((exists u1, u2 :: u1 in users && u2 in users && u1 != u2 && u1.email == email && u2.username == username)
          ==> r == Some(Internal(MultipleResultsFound)))
      && ((forall u :: u in users ==> u.email != email && u.username != username) && password != passwordRepeat
          ==> r == Some(Http(PasswordsDoesNotMatch)))
  {
    RegisterPasses(users, email, username, password, passwordRepeat);
    RegisterTaken(users, email, username, password, passwordRepeat);
    RegisterConflict(users, email, username, password, passwordRepeat);
  }

  lemma RegisterPasses(users: seq<User>, email: string, username: string, password: string, passwordRepeat: string)
    requires ValidUsers(users)
    ensures var r := RegisterCheck(users, email, username, password, passwordRepeat);
      var free := forall u :: u in users ==> u.email != email && u.username != username;
      && (r.None? <==> free && password == passwordRepeat)
      && (free && password != passwordRepeat ==> r == Some(Http(PasswordsDoesNotMatch)))
  {
    EmailOrUsernameLookup(users, email, username);
  }

  lemma RegisterTaken(users: seq<User>, email: string, username: string, password: string, passwordRepeat: string)
    requires ValidUsers(users)
    ensures var r := RegisterCheck(users, email, username, password, passwordRepeat);
      && ((exists u :: u in users && u.email == email)
          && (forall v :: v in users && v.username == username ==> v.email == email)
          ==> r == Some(Http(UserEmailExists)))
      && ((forall u :: u in users ==> u.email != email) && (exists u :: u in users && u.username == username)
          ==> r == Some(Http(UserUsernameExists)))
  {
    var f := Filter(users, EmailOrUsername(email, username));
    EmailOrUsernameLookup(users, email, username);
    if exists u :: u in users && u.email == email {
      var u :| u in users && u.email == email;
      assert u in f;
      if forall v :: v in users && v.username == username ==> v.email == email {
        UniqueEmail(users, u);
      }
    }
    if exists u :: u in users && u.username == username {
      var u :| u in users && u.username == username;
      assert u in f;
    }
  }

  /** The only user with a given email is that user. */
  lemma UniqueEmail(users: seq<User>, u: User)
    requires ValidUsers(users) && u in users
    ensures forall v :: v in users && v.email == u.email ==> v == u
  {
    forall v | v in users && v.email == u.email ensures v == u {
      var i :| 0 <= i < |users| && users[i] == u;
      var j :| 0 <= j < |users| && users[j] == v;
      assert i == j;
    }
  }

  lemma RegisterConflict(users: seq<User>, email: string, username: string, password: string, passwordRepeat: string)
    requires ValidUsers(users)
    ensures (exists u1, u2 :: u1 in users && u2 in users && u1 != u2 && u1.email == email && u2.username == username)
      ==> RegisterCheck(users, email, username, password, passwordRepeat) == Some(Internal(MultipleResultsFound))
  {
    var f := Filter(users, EmailOrUsername(email, username));
    if exists u1, u2 :: u1 in users && u2 in users && u1 != u2 && u1.email == email && u2.username == username {
      var u1, u2 :| u1 in users && u2 in users && u1 != u2 && u1.email == email && u2.username == username;
      assert u1 in f && u2 in f;
      TwoRowsFound(f, u1, u2);
    }
  }

  lemma TwoRowsFound<T>(f: seq<T>, a: T, b: T)
    requires a in f && b in f && a != b
    ensures |f| >= 2
  {
  }

  /** register_user: the checks, then a new row with a fresh id, the hashed
      password, no refresh token and no moderator flag. */
  method RegisterUser(db: Database, email: string, username: string, password: string, passwordRepeat: string,
                      hash: string -> string, newId: UserId)
    returns (r: Outcome<string>)
    requires db.Valid()
    modifies db
    ensures db.Valid()
    ensures db.blocks == old(db.blocks) && db.messages == old(db.messages)
    ensures db.nextMessageId == old(db.nextMessageId) && db.nextBlockId == old(db.nextBlockId)
    ensures var check := RegisterCheck(old(db.users), email, username, password, passwordRepeat);
      && (check.Some? ==> r == Fail(check.value) && db.users == old(db.users))
      && (check.None? && (|username| > USERNAME_MAX_LENGTH || |email| > EMAIL_MAX_LENGTH)
          ==> r == Fail(Internal(ValueTooLong)) && db.users == old(db.users))
      && (check.None? && |username| <= USERNAME_MAX_LENGTH && |email| <= EMAIL_MAX_LENGTH
          && UserExists(old(db.users), newId)
          ==> r == Fail(Internal(IntegrityError)) && db.users == old(db.users))
      && (check.None? && |username| <= USERNAME_MAX_LENGTH && |email| <= EMAIL_MAX_LENGTH
          && !UserExists(old(db.users), newId)
          ==> r == Ok(REGISTERED_DETAIL)
              && db.users == old(db.users) + [User(newId, username, email, hash(password), None, false)])
  {
    var check := RegisterCheck(db.users, email, username, password, passwordRepeat);
    if check.Some? {
      return Fail(check.value);
    }
    RegisterCheckOutcome(db.users, email, username, password, passwordRepeat);
    var added := db.InsertUser(newId, username, email, hash(password));
    match added {
      case Fail(e) => r := Fail(e);
      case Ok(_) => r := Ok(REGISTERED_DETAIL);
    }
  }

  /** A user who has just registered, whose password checks against its own
      hash: as written, the login succeeds exactly while the blocked-users
      table is empty; with the block lookup filtered by the user it always
      succeeds. */
  lemma RegisteredUserCanLogIn(users: seq<User>, blocks: seq<Block>, email: string, username: string,
                               password: string, hash: string -> string, newId: UserId,
                               checkPassword: (string, string) -> bool)
    requires ValidUsers(users + [User(newId, username, email, hash(password), None, false)])
    requires checkPassword(password, hash(password))
    requires forall b :: b in blocks ==> b.blockedUserId != newId
    ensures var u := User(newId, username, email, hash(password), None, false);
      AuthenticationAsWritten(users + [u], blocks, email, password, checkPassword) == Ok(Some(u)) <==> blocks == []
    ensures var u := User(newId, username, email, hash(password), None, false);
      Authentication(users + [u], blocks, email, password, checkPassword) == Ok(Some(u))
  {
    var u := User(newId, username, email, hash(password), None, false);
    assert u in users + [u];
    AuthenticationAsWrittenOutcome(users + [u], blocks, email, password, checkPassword, u);
    AuthenticationOutcome(users + [u], blocks, email, password, checkPassword, u);
  }

  // ---------------------------------------------------------------------
  // jwt_login_user
  // ---------------------------------------------------------------------

  /** jwt_login_user: authenticate, refuse an unknown email or a wrong
      password with 401, otherwise issue an access and a refresh token at
      `now` and store the refresh token. */
  method JwtLoginUser(db: Database, email: string, password: string, checkPassword: (string, string) -> bool,
                      sign: Claims -> string, now: Timestamp)
    returns (r: Outcome<TokenPair>)
    requires db.Valid()
    modifies db
    ensures db.Valid()
    ensures db.blocks == old(db.blocks) && db.messages == old(db.messages)
    ensures db.nextMessageId == old(db.nextMessageId) && db.nextBlockId == old(db.nextBlockId)
    ensures var auth := AuthenticationAsWritten(old(db.users), old(db.blocks), email, password, checkPassword);
      && (auth.Fail? ==> r == Fail(auth.raised) && db.users == old(db.users))
      && (auth == Ok(None) ==> r == Fail(Http(IncorrectEmailOrPassword)) && db.users == old(db.users))
      && (auth.Ok? && auth.value.Some? ==>
            var id := auth.value.value.id;
            && r == Ok(TokenPair(sign(AccessClaims(id, now)), sign(RefreshClaims(id, now))))
            && db.users == SetRefreshToken(old(db.users), id, sign(RefreshClaims(id, now))))
  {
    var auth := AuthenticationAsWritten(db.users, db.blocks, email, password, checkPassword);
    match auth {
      case Fail(e) =>
        r := Fail(e);
      case Ok(None) =>
        r := Fail(Http(IncorrectEmailOrPassword));
      case Ok(Some(user)) =>
        FindByEmailUnique(db.users, email);
        FindUserUnique(db.users, user);
        var accessToken := sign(AccessClaims(user.id, now));
        var refreshToken := sign(RefreshClaims(user.id, now));
        var stored := db.UpdateRefreshToken(user.id, refreshToken);
        r := Ok(TokenPair(accessToken, refreshToken));
    }
  }

  /** The tokens a login issues are the ones the other endpoints accept:
      with a signature that verifies, the access token identifies the user
      to every protected route, the refresh token is accepted by refresh,
      and neither is accepted in the other's place. */
  lemma LoginTokensAccepted(users: seq<User>, blocks: seq<Block>, user: User, now: Timestamp,
                            sign: Claims -> string, verify: string -> Decoded)
    requires ValidUsers(users) && user in users && user.id != ""
    requires forall b :: b in blocks ==> b.blockedUserId != user.id
    requires forall c :: verify(sign(c)) == Valid(c)
    ensures var access := sign(AccessClaims(user.id, now));
      var refresh := sign(RefreshClaims(user.id, now));
      var users' := SetRefreshToken(users, user.id, refresh);
      var user' := user.(refreshToken := Some(refresh));
      && GetCurrentUser(users', blocks, access, verify) == Ok(user')
      && RefreshCheck(users', blocks, refresh, verify) == Ok(user')
      && GetCurrentUser(users', blocks, refresh, verify) == Fail(Http(NotValidTokenType(Some(Str("refresh")), "access")))
      && RefreshCheck(users', blocks, access, verify) == Fail(Http(NotValidTokenType(Some(Str("access")), "refresh")))
  {
    var access := sign(AccessClaims(user.id, now));
    var refresh := sign(RefreshClaims(user.id, now));
    var users' := SetRefreshToken(users, user.id, refresh);
    TokenClaims(user.id, now);
    SetRefreshTokenEffect(users, user.id, refresh, user.id);
    FindUserUnique(users, user);
    CurrentUserIsSubject(users', blocks, access, verify);
    RefreshOutcome(users', blocks, refresh, verify);
    ValidateUserOrder(users', blocks, AccessClaims(user.id, now), false);
    ValidateUserOrder(users', blocks, RefreshClaims(user.id, now), false);
  }

  // ---------------------------------------------------------------------
  // block_user
  // ---------------------------------------------------------------------

  datatype BlockAnswer = BlockAnswer(detail: string, blockedUserId: UserId)

  /** No user has two rows in the blocked-users table. */
  ghost predicate OneBlockPerUser(blocks: seq<Block>)
  {
    forall i, j :: 0 <= i < j < |blocks| ==> blocks[i].blockedUserId != blocks[j].blockedUserId
  }

  /** With one row per user, looking a user's block up never finds two. */
  lemma OneBlockLookup(blocks: seq<Block>, id: UserId)
    requires OneBlockPerUser(blocks)
    ensures !FindBlockOf(blocks, id).ManyRows?
  {
    var f := Filter(blocks, BlockedUserIs(id));
    assert forall b :: b in f <==> b in blocks && b.blockedUserId == id;
    if |f| >= 2 {
      assert f[0] in f && f[1] in f;
      FilterUnique(blocks, BlockedUserIs(id), (b: Block) => b.blockedUserId);
    }
  }

  /** block_user: refuse a user who already has a block, otherwise add the
      block and answer with the blocked user's id. */
  method BlockUser(db: Database, userId: UserId, moderatorId: UserId, reason: string)
    returns (r: Outcome<BlockAnswer>)
    requires db.Valid()
    modifies db
    ensures db.Valid()
    ensures db.users == old(db.users) && db.messages == old(db.messages)
    ensures db.nextMessageId == old(db.nextMessageId)
    ensures db.nextBlockId == if r.Ok? then old(db.nextBlockId) + 1 else old(db.nextBlockId)
    ensures var found := FindBlockOf(old(db.blocks), userId);
      && (found.ManyRows? ==> r == Fail(Internal(MultipleResultsFound)) && db.blocks == old(db.blocks))
      && (found.OneRow? ==> r == Fail(Http(UserIsAlreadyBlocked)) && db.blocks == old(db.blocks))
      && (found.NoRow? && |reason| > REASON_MAX_LENGTH ==> r == Fail(Internal(ValueTooLong)) && db.blocks == old(db.blocks))
      && (found.NoRow? && |reason| <= REASON_MAX_LENGTH && !(UserExists(db.users, userId) && UserExists(db.users, moderatorId))
          ==> r == Fail(Internal(IntegrityError)) && db.blocks == old(db.blocks))
      && (found.NoRow? && |reason| <= REASON_MAX_LENGTH && UserExists(db.users, userId) && UserExists(db.users, moderatorId)
          ==> r == Ok(BlockAnswer(BLOCKED_DETAIL, userId))
              && db.blocks == old(db.blocks) + [Block(old(db.nextBlockId), userId, reason, moderatorId)])
    ensures OneBlockPerUser(old(db.blocks)) ==> OneBlockPerUser(db.blocks)
  {
    var found := FindBlockOf(db.blocks, userId);
    match found {
      case ManyRows =>
        r := Fail(Internal(MultipleResultsFound));
      case OneRow(_) =>
        r := Fail(Http(UserIsAlreadyBlocked));
      case NoRow =>
        var added := db.InsertBlock(userId, reason, moderatorId);
        match added {
          case Fail(e) => r := Fail(e);
          case Ok(_) => r := Ok(BlockAnswer(BLOCKED_DETAIL, userId));
        }
    }
  }

  lemma {:induction false} FilterOnlyLast<T(!new)>(s: seq<T>, x: T, p: T -> bool)
    requires forall y :: y in s ==> !p(y)
    requires p(x)
    ensures Filter(s + [x], p) == [x]
  {
    if s == [] {
      assert s + [x] == [x] + [];
      FilterCons(x, [], p);
    } else {
      assert s + [x] == [s[0]] + (s[1..] + [x]);
      FilterCons(s[0], s[1..] + [x], p);
      FilterOnlyLast(s[1..], x, p);
    }
  }

  /** A block takes effect at once: the blocked user's tokens are refused
      on every route, over HTTP with 403 and over a WebSocket with the
      policy-violation reason. */
  lemma BlockTakesEffect(users: seq<User>, blocks: seq<Block>, blk: Block, payload: Claims)
    requires forall b :: b in blocks ==> b.blockedUserId != blk.blockedUserId
    requires "sub" in payload && payload["sub"] == Str(blk.blockedUserId) && blk.blockedUserId != ""
    requires UserExists(users, blk.blockedUserId)
    ensures ValidateUserFromPayload(users, blocks + [blk], payload, false) == Fail(Http(UserIsBlocked))
    ensures ValidateUserFromPayload(users, blocks + [blk], payload, true)
         == Fail(WsPolicyViolation(Some("The user was blocked.")))
  {
    FilterOnlyLast(blocks, blk, BlockedUserIs(blk.blockedUserId));
  }
}

/** The database as one mutable object: the three tables and the two SERIAL
    counters, with the inserts of `BaseDao.add` and the refresh-token update
    of `UsersDao.update_refresh_token`. Each operation is one atomic step;
    a failed statement leaves every table as it was. */
module Store {
  import opened Common
  import opened Models
  import opened Exceptions

  predicate UserExists(users: seq<User>, id: UserId)
  {
    FindUser(users, id).Some?
  }

  /** Some row already holds this id, username or email. */
  function Clashes(users: seq<User>, id: UserId, username: string, email: string): (b: bool)
    ensures b <==> exists u :: u in users && (u.id == id || u.username == username || u.email == email)
  {
    if users == [] then false
    else
      var u := users[0];
      assert forall v :: v in users <==> v == u || v in users[1..];
      u.id == id || u.username == username || u.email == email || Clashes(users[1..], id, username, email)
  }

  /** The user table with `refresh_token` set on the row whose id is `id`. */
  function SetRefreshToken(users: seq<User>, id: UserId, token: string): (r: seq<User>)
    ensures |r| == |users|
    ensures forall i :: 0 <= i < |users| && users[i].id != id ==> r[i] == users[i]
    ensures forall i :: 0 <= i < |users| && users[i].id == id ==> r[i] == users[i].(refreshToken := Some(token))
  {
    if users == [] then []
    else
      var u := users[0];
      [if u.id == id then u.(refreshToken := Some(token)) else u] + SetRefreshToken(users[1..], id, token)
  }

  /** The update touches one row and one column: every other row is kept,
      the target row keeps its id, username, email, password hash and
      moderator flag, and the table constraints still hold. */
  lemma SetRefreshTokenEffect(users: seq<User>, id: UserId, token: string, other: UserId)
    requires ValidUsers(users)
    ensures var r := SetRefreshToken(users, id, token);
      && ValidUsers(r)
      && (other != id ==> FindUser(r, other) == FindUser(users, other))
      && (FindUser(users, id).None? ==> r == users)
      && (FindUser(users, id).Some? ==>
            FindUser(r, id) == Some(FindUser(users, id).value.(refreshToken := Some(token))))
  {
    var r := SetRefreshToken(users, id, token);
    FindUserSameIds(users, r, other);
    FindUserSameIds(users, r, id);
    if FindUser(users, id).None? {
      assert forall i :: 0 <= i < |users| ==> users[i].id != id by {
        forall i | 0 <= i < |users| ensures users[i].id != id {
          assert users[i] in users;
        }
      }
      assert r == users;
    }
  }

  /** Two tables whose rows agree except on rows with id `id`, where only the
      refresh token differs, answer every lookup alike away from `id`. */
  lemma {:induction false} FindUserSameIds(users: seq<User>, r: seq<User>, x: UserId)
    requires |r| == |users|
    requires forall i :: 0 <= i < |users| ==> r[i].id == users[i].id
    requires forall i :: 0 <= i < |users| ==> r[i] == users[i] || r[i] == users[i].(refreshToken := r[i].refreshToken)
    ensures FindUser(r, x).None? <==> FindUser(users, x).None?
    ensures FindUser(r, x).Some? ==>
      FindUser(r, x).value == FindUser(users, x).value.(refreshToken := FindUser(r, x).value.refreshToken)
    ensures ValidUsers(users) ==> ValidUsers(r)
  {
    if users != [] {
      FindUserSameIds(users[1..], r[1..], x);
    }
  }

  /** The update leaves the set of ids that have a row as it was. */
  lemma SetRefreshTokenKeepsIds(users: seq<User>, id: UserId, token: string)
    requires ValidUsers(users)
    ensures ValidUsers(SetRefreshToken(users, id, token))
    ensures forall x :: UserExists(SetRefreshToken(users, id, token), x) == UserExists(users, x)
  {
    var r := SetRefreshToken(users, id, token);
    forall x ensures UserExists(r, x) == UserExists(users, x) {
      FindUserSameIds(users, r, x);
    }
  }

  lemma {:induction false} FindUserAppend(users: seq<User>, u: User, x: UserId)
    ensures FindUser(users + [u], x) == if FindUser(users, x).Some? then FindUser(users, x) else if u.id == x then Some(u) else None
  {
    if users != [] {
      assert (users + [u])[1..] == users[1..] + [u];
      FindUserAppend(users[1..], u, x);
    } else {
      assert [] + [u] == [u];
    }
  }

  class Database {
    var users: seq<User>
    var blocks: seq<Block>
    var messages: seq<Message>
    /** The next values of the `messages.id` and `blocked_users.id` sequences. */
    var nextMessageId: int
    var nextBlockId: int

    /** Primary keys, UNIQUE columns and foreign keys of the three tables. */
    ghost predicate Valid()
      reads this
    {
      && ValidUsers(users)
      && ValidMessageIds(messages)
      && 1 <= nextMessageId && 1 <= nextBlockId
      && (forall i :: 0 <= i < |messages| ==> messages[i].id < nextMessageId)
      && (forall i :: 0 <= i < |messages| ==>
            UserExists(users, messages[i].senderId) && UserExists(users, messages[i].recipientId))
      && (forall i :: 0 <= i < |blocks| ==> 1 <= blocks[i].id < nextBlockId)
      && (forall i, j :: 0 <= i < j < |blocks| ==> blocks[i].id != blocks[j].id)
      && (forall i :: 0 <= i < |blocks| ==>
            UserExists(users, blocks[i].blockedUserId) && UserExists(users, blocks[i].moderatorId))
    }

    constructor()
      ensures Valid()
      ensures users == [] && blocks == [] && messages == []
    {
      users := [];
      blocks := [];
      messages := [];
      nextMessageId := 1;
      nextBlockId := 1;
    }

    /** `MessageDAO.add`: a text longer than the column is a DataError, a
        sender or recipient with no user row violates a foreign key, and
        otherwise the row is appended with the next id and `now` as its
        creation time, and returned. */
    method InsertMessage(text: string, senderId: UserId, recipientId: UserId, now: Timestamp)
      returns (r: Outcome<Message>)
      requires Valid()
      modifies this
      ensures Valid()
      ensures users == old(users) && blocks == old(blocks) && nextBlockId == old(nextBlockId)
      ensures |text| > MESSAGE_TEXT_MAX_LENGTH ==> r == Fail(Internal(ValueTooLong))
      ensures |text| <= MESSAGE_TEXT_MAX_LENGTH && !(UserExists(users, senderId) && UserExists(users, recipientId))
        ==> r == Fail(Internal(IntegrityError))
      ensures |text| <= MESSAGE_TEXT_MAX_LENGTH && UserExists(users, senderId) && UserExists(users, recipientId)
        ==> r == Ok(Message(old(nextMessageId), text, senderId, recipientId, now))
      ensures r.Ok? ==> messages == old(messages) + [r.value] && nextMessageId == old(nextMessageId) + 1
      ensures r.Fail? ==> messages == old(messages) && nextMessageId == old(nextMessageId)
    {
      if |text| > MESSAGE_TEXT_MAX_LENGTH {
        return Fail(Internal(ValueTooLong));
      }
      if !(UserExists(users, senderId) && UserExists(users, recipientId)) {
        return Fail(Internal(IntegrityError));
      }
      var m := Message(nextMessageId, text, senderId, recipientId, now);
      messages := messages + [m];
      nextMessageId := nextMessageId + 1;
      r := Ok(m);
    }

    /** `UsersDao.add` from registration: a username or email longer than its
        column is a DataError, a taken id, username or email violates a
        key, and otherwise the new row (no refresh token, not a moderator) is
        appended and returned. */
    method InsertUser(id: UserId, username: string, email: string, hashedPassword: string)
      returns (r: Outcome<User>)
      requires Valid()
      modifies this
      ensures Valid()
      ensures blocks == old(blocks) && messages == old(messages)
      ensures nextMessageId == old(nextMessageId) && nextBlockId == old(nextBlockId)
      ensures |username| > USERNAME_MAX_LENGTH || |email| > EMAIL_MAX_LENGTH ==> r == Fail(Internal(ValueTooLong))
      ensures |username| <= USERNAME_MAX_LENGTH && |email| <= EMAIL_MAX_LENGTH && Clashes(old(users), id, username, email)
        ==> r == Fail(Internal(IntegrityError))
      ensures |username| <= USERNAME_MAX_LENGTH && |email| <= EMAIL_MAX_LENGTH && !Clashes(old(users), id, username, email)
        ==> r == Ok(User(id, username, email, hashedPassword, None, false))
      ensures r.Ok? ==> users == old(users) + [r.value]
      ensures r.Fail? ==> users == old(users)
    {
      if |username| > USERNAME_MAX_LENGTH || |email| > EMAIL_MAX_LENGTH {
        return Fail(Internal(ValueTooLong));
      }
      if Clashes(users, id, username, email) {
        return Fail(Internal(IntegrityError));
      }
      var u := User(id, username, email, hashedPassword, None, false);
      forall x | UserExists(users, x) ensures UserExists(users + [u], x) {
        FindUserAppend(users, u, x);
      }
      users := users + [u];
      r := Ok(u);
    }

    /** `BlockDao.add`: a reason longer than its column is a DataError, a
        blocked user or moderator with no user row violates a foreign key,
        and otherwise the row is appended with the next id and returned. */
    method InsertBlock(blockedUserId: UserId, reason: string, moderatorId: UserId)
      returns (r: Outcome<Block>)
      requires Valid()
      modifies this
      ensures Valid()
      ensures users == old(users) && messages == old(messages) && nextMessageId == old(nextMessageId)
      ensures |reason| > REASON_MAX_LENGTH ==> r == Fail(Internal(ValueTooLong))
      ensures |reason| <= REASON_MAX_LENGTH && !(UserExists(users, blockedUserId) && UserExists(users, moderatorId))
        ==> r == Fail(Internal(IntegrityError))
      ensures |reason| <= REASON_MAX_LENGTH && UserExists(users, blockedUserId) && UserExists(users, moderatorId)
        ==> r == Ok(Block(old(nextBlockId), blockedUserId, reason, moderatorId))
      ensures r.Ok? ==> blocks == old(blocks) + [r.value] && nextBlockId == old(nextBlockId) + 1
      ensures r.Fail? ==> blocks == old(blocks) && nextBlockId == old(nextBlockId)
    {
      if |reason| > REASON_MAX_LENGTH {
        return Fail(Internal(ValueTooLong));
      }
      if !(UserExists(users, blockedUserId) && UserExists(users, moderatorId)) {
        return Fail(Internal(IntegrityError));
      }
      var b := Block(nextBlockId, blockedUserId, reason, moderatorId);
      blocks := blocks + [b];
      nextBlockId := nextBlockId + 1;
      r := Ok(b);
    }

    /** `UsersDao.update_refresh_token`: the row with this id gets the token;
        with no such row, setting an attribute on None raises. */
    method UpdateRefreshToken(userId: UserId, token: string) returns (r: Outcome<()>)
      requires Valid()
      modifies this
      ensures Valid()
      ensures blocks == old(blocks) && messages == old(messages)
      ensures nextMessageId == old(nextMessageId) && nextBlockId == old(nextBlockId)
      ensures !UserExists(old(users), userId) ==> r == Fail(Internal(NoneHasNoAttribute)) && users == old(users)
      ensures UserExists(old(users), userId) ==> r == Ok(()) && users == SetRefreshToken(old(users), userId, token)
    {
      if !UserExists(users, userId) {
        return Fail(Internal(NoneHasNoAttribute));
      }
      var updated := SetRefreshToken(users, userId, token);
      SetRefreshTokenKeepsIds(users, userId, token);
      users := updated;
      r := Ok(());
    }
  }
}

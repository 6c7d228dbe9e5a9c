/** Rows of the three tables the back end keeps: users, blocked users and
    messages, with the table constraints the database enforces. */
module Models {
  import opened Common

  /** A row of `messages`. `id` is the SERIAL primary key. */
  datatype Message = Message(
    id: int,
    messageText: string,
    senderId: UserId,
    recipientId: UserId,
    createdAt: Timestamp)

  /** A row of `users`; `refreshToken` is the last refresh token issued. */
  datatype User = User(
    id: UserId,
    username: string,
    email: string,
    hashedPassword: string,
    refreshToken: Option<string>,
    isModerator: bool)

  /** A row of `blocked_users`. */
  datatype Block = Block(id: int, blockedUserId: UserId, reason: string, moderatorId: UserId)

  /** `message_text` is a VARCHAR(4096). */
  const MESSAGE_TEXT_MAX_LENGTH := 4096
  /** `username` is a VARCHAR(50), `email` a VARCHAR(255). */
  const USERNAME_MAX_LENGTH := 50
  const EMAIL_MAX_LENGTH := 255
  /** A block's `reason` is a VARCHAR(256). */
  const REASON_MAX_LENGTH := 256

  /** Primary-key uniqueness of the message table; SERIAL ids start at 1. */
  ghost predicate ValidMessageIds(msgs: seq<Message>)
  {
    && (forall i :: 0 <= i < |msgs| ==> msgs[i].id >= 1)
    && (forall i, j :: 0 <= i < j < |msgs| ==> msgs[i].id != msgs[j].id)
  }

  /** The primary key and the two UNIQUE columns of the user table. */
  ghost predicate ValidUsers(users: seq<User>)
  {
    forall i, j :: 0 <= i < j < |users| ==>
      && users[i].id != users[j].id
      && users[i].username != users[j].username
      && users[i].email != users[j].email
  }

  /** The user row with this primary key (the target of a join on `users.id`). */
  function FindUser(users: seq<User>, id: UserId): (r: Option<User>)
    ensures r.Some? ==> r.value in users && r.value.id == id
    ensures r.None? ==> forall u :: u in users ==> u.id != id
  {
    if users == [] then None
    else if users[0].id == id then Some(users[0])
    else FindUser(users[1..], id)
  }

  lemma {:induction false} FindUserUnique(users: seq<User>, u: User)
    requires ValidUsers(users) && u in users
    ensures FindUser(users, u.id) == Some(u)
  {
    if users[0] != u {
      var j :| 0 <= j < |users| && users[j] == u;
      assert users[1..][j - 1] == u;
      FindUserUnique(users[1..], u);
    }
  }
}

/** ChatService (app/chat/services.py): the checks in front of the message
    queries, the shaping of query rows into response records, the next
    cursor and offset of each page, and sending a message: store it, then
    notify both users through the connection registry. */
module ChatService {
  import opened Common
  import opened Models
  import opened Ordering
  import opened Exceptions
  import opened MessageDao
  import opened AuthDao
  import opened Store
  import opened Websocket

  // ---------------------------------------------------------------------
  // get_all_chats_for_user
  // ---------------------------------------------------------------------

  datatype ChatEntry = ChatEntry(partnerId: UserId, partnerUsername: string, lastMessageTime: Timestamp)

  datatype UserChats = UserChats(chats: seq<ChatEntry>, cursorLastMessageTime: Option<Timestamp>)

  function ChatEntryOf(row: ChatRow): ChatEntry
  {
    ChatEntry(row.chatPartnerId, row.username, row.lastMessageTime)
  }

  function ShapeChats(rows: seq<ChatRow>): UserChats
  {
    UserChats(seq(|rows|, i requires 0 <= i < |rows| => ChatEntryOf(rows[i])),
              if rows == [] then None else Some(rows[|rows| - 1].lastMessageTime))
  }

  function GetAllChatsForUser(msgs: seq<Message>, users: seq<User>, currentUserId: UserId,
                              cursor: Option<Timestamp>, limit: nat): UserChats
  {
    ShapeChats(ChatsOfUser(msgs, users, currentUserId, cursor, limit))
  }

  /** The entry a shaped chat came from. */
  lemma EntryRow(rows: seq<ChatRow>, c: ChatEntry) returns (row: ChatRow)
    requires c in ShapeChats(rows).chats
    ensures row in rows && c == ChatEntryOf(row)
  {
    var i :| 0 <= i < |rows| && ShapeChats(rows).chats[i] == c;
    row := rows[i];
  }

  /** Rows in non-increasing time order. */
  ghost predicate NewestFirst(rows: seq<ChatRow>)
  {
    forall i, j :: 0 <= i < j < |rows| ==> rows[j].lastMessageTime <= rows[i].lastMessageTime
  }

  /** Shaping rows sorted newest first puts the oldest time in the cursor. */
  lemma ShapeChatsCursor(rows: seq<ChatRow>)
    requires NewestFirst(rows)
    ensures var r := ShapeChats(rows);
      && (r.cursorLastMessageTime.None? <==> r.chats == [])
      && (r.chats != [] ==> r.cursorLastMessageTime == Some(r.chats[|r.chats| - 1].lastMessageTime))
      && (forall c :: c in r.chats ==> r.cursorLastMessageTime.Some? && r.cursorLastMessageTime.value <= c.lastMessageTime)
  {
    var r := ShapeChats(rows);
    forall c | c in r.chats
      ensures r.cursorLastMessageTime.Some? && r.cursorLastMessageTime.value <= c.lastMessageTime
    {
      var i :| 0 <= i < |r.chats| && r.chats[i] == c;
      if i < |rows| - 1 {
        assert rows[|rows| - 1].lastMessageTime <= rows[i].lastMessageTime;
      }
    }
  }

  /** The returned cursor is the time of the page's last chat, which is its
      oldest, and is absent only on an empty page. */
  lemma ChatListCursor(msgs: seq<Message>, users: seq<User>, u: UserId, cursor: Option<Timestamp>, limit: nat)
    ensures var r := GetAllChatsForUser(msgs, users, u, cursor, limit);
      && (r.cursorLastMessageTime.None? <==> r.chats == [])
      && (r.chats != [] ==> r.cursorLastMessageTime == Some(r.chats[|r.chats| - 1].lastMessageTime))
      && (forall c :: c in r.chats ==> r.cursorLastMessageTime.Some? && r.cursorLastMessageTime.value <= c.lastMessageTime)
  {
    var rows := ChatsOfUser(msgs, users, u, cursor, limit);
    assert NewestFirst(rows) by {
      ChatsOfUserOrder(msgs, users, u, cursor, limit);
    }
    ShapeChatsCursor(rows);
  }

  /** Every chat of the later page is strictly older than every chat of the
      earlier one, and no partner appears on both. */
  ghost predicate PagesApart(earlier: seq<ChatEntry>, later: seq<ChatEntry>)
  {
    forall a, b :: a in earlier && b in later ==>
      b.lastMessageTime < a.lastMessageTime && a.partnerId != b.partnerId
  }

  /** Handing the returned cursor back yields chats strictly older than
      every chat already shown, with none of the same partners. */
  lemma ChatListNextPage(msgs: seq<Message>, users: seq<User>, u: UserId,
                         cursor: Option<Timestamp>, limit: nat, limit2: nat)
    requires GetAllChatsForUser(msgs, users, u, cursor, limit).chats != []
    ensures var r1 := GetAllChatsForUser(msgs, users, u, cursor, limit);
      var r2 := GetAllChatsForUser(msgs, users, u, r1.cursorLastMessageTime, limit2);
      PagesApart(r1.chats, r2.chats)
  {
    var rows := ChatsOfUser(msgs, users, u, cursor, limit);
    assert rows != [] && ShapeChats(rows).cursorLastMessageTime == Some(rows[|rows| - 1].lastMessageTime) by {
      ShapeChatsLast(rows);
    }
    var c := Some(rows[|rows| - 1].lastMessageTime);
    var rows2 := ChatsOfUser(msgs, users, u, c, limit2);
    assert GetAllChatsForUser(msgs, users, u, cursor, limit) == ShapeChats(rows);
    assert GetAllChatsForUser(msgs, users, u, c, limit2) == ShapeChats(rows2);
    ChatsNextPageDisjoint(msgs, users, u, cursor, limit, limit2);
    ShapedPagesDisjoint(rows, rows2);
  }

  /** Shaping keeps one entry per row and hands back the last row's time. */
  lemma ShapeChatsLast(rows: seq<ChatRow>)
    ensures |ShapeChats(rows).chats| == |rows|
    ensures rows != [] ==> ShapeChats(rows).cursorLastMessageTime == Some(rows[|rows| - 1].lastMessageTime)
  {
  }

  /** Shaping keeps pages of rows apart: older times and other partners. */
  lemma ShapedPagesDisjoint(rows: seq<ChatRow>, rows2: seq<ChatRow>)
    requires forall a, b :: a in rows && b in rows2 ==> b.lastMessageTime < a.lastMessageTime
    requires forall a, b :: a in rows && b in rows2 ==> a.chatPartnerId != b.chatPartnerId
    ensures PagesApart(ShapeChats(rows).chats, ShapeChats(rows2).chats)
  {
    forall a, b | a in ShapeChats(rows).chats && b in ShapeChats(rows2).chats
      ensures b.lastMessageTime < a.lastMessageTime && a.partnerId != b.partnerId
    {
      var ra := EntryRow(rows, a);
      var rb := EntryRow(rows2, b);
    }
  }

  // ---------------------------------------------------------------------
  // get_messages_between_users
  // ---------------------------------------------------------------------

  datatype Participant = Participant(participantId: UserId, isCurrentUser: bool)

  /** A message as shown in a conversation; `username` is None when the
      sender is neither of the two users looked up. */
  datatype HistoryEntry = HistoryEntry(senderId: UserId, username: Option<string>, messageText: string, createdAt: Timestamp)

  datatype History = History(
    participants: seq<Participant>,
    messages: seq<HistoryEntry>,
    cursorTime: Option<Timestamp>,
    cursorMessageId: Option<int>)

  /** `users_map.get(sender_id)`. */
  function UsernameIn(found: seq<User>, id: UserId): Option<string>
  {
    match FindUser(found, id)
    case None => None
    case Some(u) => Some(u.username)
  }

  function ShapeMessages(found: seq<User>, page: seq<Message>): seq<HistoryEntry>
  {
    seq(|page|, i requires 0 <= i < |page| =>
      HistoryEntry(page[i].senderId, UsernameIn(found, page[i].senderId), page[i].messageText, page[i].createdAt))
  }

  /** The answer once the query has returned `page`: the checks of
      get_messages_between_users, then the page shaped with the usernames
      found and its last message as the next cursor. */
  function ServeHistory(users: seq<User>, user1Id: UserId, user2Id: UserId, moderFlag: bool,
                        page: seq<Message>): Outcome<History>
  {
    if user1Id == user2Id then Fail(Http(UserMessagesBetweenSame))
    else
      var found := FindUsersForChat(users, user1Id, user2Id);
      if |found| == 0 then Fail(Http(UsersIdNotFound))
      else if |found| == 1 then Fail(Http(OneUserIdNotFound(found[0].id)))
      else
        Ok(History(
          [Participant(user1Id, !moderFlag), Participant(user2Id, false)],
          ShapeMessages(found, page),
          if page == [] then None else Some(page[|page| - 1].createdAt),
          if page == [] then None else Some(page[|page| - 1].id)))
  }

  /** get_messages_between_users as written: the page comes from the query
      ordered by created_at alone. */
  function GetMessagesBetweenUsers(msgs: seq<Message>, users: seq<User>, user1Id: UserId, user2Id: UserId,
                                   cursorTime: Option<Timestamp>, cursorMessageId: Option<int>,
                                   moderFlag: bool, limit: nat): Outcome<History>
  {
    ServeHistory(users, user1Id, user2Id, moderFlag,
                 MessagesBetweenAsWritten(msgs, user1Id, user2Id, cursorTime, cursorMessageId, limit))
  }

  /** The same service over the query ordered by (created_at, id), the order
      its cursor presumes. */
  function GetMessagesBetweenUsersCorrected(msgs: seq<Message>, users: seq<User>, user1Id: UserId, user2Id: UserId,
                                            cursorTime: Option<Timestamp>, cursorMessageId: Option<int>,
                                            moderFlag: bool, limit: nat): Outcome<History>
  {
    ServeHistory(users, user1Id, user2Id, moderFlag,
                 MessagesBetween(msgs, user1Id, user2Id, cursorTime, cursorMessageId, limit))
  }

  /** The checks run in order, whatever page the query returns: the same id
      twice, before any lookup; then neither user found; then only one
      found, where the error carries the id that WAS found; a conversation
      is returned only when both exist. */
  lemma HistoryChecks(users: seq<User>, user1Id: UserId, user2Id: UserId, moderFlag: bool, page: seq<Message>)
    requires ValidUsers(users)
    ensures var r := ServeHistory(users, user1Id, user2Id, moderFlag, page);
      var e1, e2 := FindUser(users, user1Id).Some?, FindUser(users, user2Id).Some?;
      && (user1Id == user2Id <==> r == Fail(Http(UserMessagesBetweenSame)))
      && (user1Id != user2Id && !e1 && !e2 <==> r == Fail(Http(UsersIdNotFound)))
      && (user1Id != user2Id && e1 && !e2 ==> r == Fail(Http(OneUserIdNotFound(user1Id))))
      && (user1Id != user2Id && !e1 && e2 ==> r == Fail(Http(OneUserIdNotFound(user2Id))))
      && (user1Id != user2Id && e1 && e2 <==> r.Ok?)
  {
    if user1Id != user2Id {
      var found := FindUsersForChat(users, user1Id, user2Id);
      ForChatCount(users, user1Id, user2Id);
      if |found| == 1 {
        assert found[0] in found;
      }
    }
  }

  /** A successful answer is the shaped page with its last message as the
      cursor. */
  lemma HistoryOkPage(users: seq<User>, user1Id: UserId, user2Id: UserId, moderFlag: bool, page: seq<Message>)
    requires ServeHistory(users, user1Id, user2Id, moderFlag, page).Ok?
    ensures var r := ServeHistory(users, user1Id, user2Id, moderFlag, page).value;
      && r.messages == ShapeMessages(FindUsersForChat(users, user1Id, user2Id), page)
      && (page != [] ==> r.cursorTime == Some(page[|page| - 1].createdAt) && r.cursorMessageId == Some(page[|page| - 1].id))
  {
  }

  /** A returned conversation lists the asking user first, marked as the
      current user unless a moderator is reading, shows every message of the
      query's page with its sender's username, and its cursor is the
      (created_at, id) of the last message shown, absent only when none is
      shown. */
  lemma HistoryShape(msgs: seq<Message>, users: seq<User>, user1Id: UserId, user2Id: UserId,
                     cursorTime: Option<Timestamp>, cursorMessageId: Option<int>, moderFlag: bool, limit: nat)
    requires ValidUsers(users)
    ensures var r := GetMessagesBetweenUsers(msgs, users, user1Id, user2Id, cursorTime, cursorMessageId, moderFlag, limit);
      var page := MessagesBetweenAsWritten(msgs, user1Id, user2Id, cursorTime, cursorMessageId, limit);
      r.Ok? ==>
        && r.value.participants == [Participant(user1Id, !moderFlag), Participant(user2Id, false)]
        && |r.value.messages| == |page|
        && (forall i :: 0 <= i < |page| ==>
              && r.value.messages[i].senderId == page[i].senderId
              && r.value.messages[i].username == UsernameIn(users, page[i].senderId)
              && r.value.messages[i].messageText == page[i].messageText
              && r.value.messages[i].createdAt == page[i].createdAt)
        && (r.value.cursorTime.None? <==> page == [])
        && (page != [] ==>
              r.value.cursorTime == Some(page[|page| - 1].createdAt) && r.value.cursorMessageId == Some(page[|page| - 1].id))
  {
    var r := GetMessagesBetweenUsers(msgs, users, user1Id, user2Id, cursorTime, cursorMessageId, moderFlag, limit);
    if r.Ok? {
      var found := FindUsersForChat(users, user1Id, user2Id);
      var page := MessagesBetweenAsWritten(msgs, user1Id, user2Id, cursorTime, cursorMessageId, limit);
      HistoryChecks(users, user1Id, user2Id, moderFlag, page);
      forall i | 0 <= i < |page|
        ensures r.value.messages[i].username == UsernameIn(users, page[i].senderId)
      {
        var m := page[i];
        assert m in page;
        MessagesBetweenRows(msgs, user1Id, user2Id, cursorTime, cursorMessageId, limit, m);
        var s := FindUser(users, m.senderId).value;
        assert s in found;
        var g := FindUser(found, m.senderId);
        assert g.Some?;
        FindUserUnique(users, g.value);
      }
    }
  }

  /** As written, the service answers exactly as the corrected one when no
      two messages of the pair share a time. */
  lemma AsWrittenServiceAgrees(msgs: seq<Message>, users: seq<User>, user1Id: UserId, user2Id: UserId,
                               cursorTime: Option<Timestamp>, cursorMessageId: Option<int>, moderFlag: bool, limit: nat)
    requires forall m1, m2 :: (m1 in msgs && m2 in msgs && Between(m1, user1Id, user2Id) && Between(m2, user1Id, user2Id)
               && m1 != m2) ==> m1.createdAt != m2.createdAt
    ensures GetMessagesBetweenUsers(msgs, users, user1Id, user2Id, cursorTime, cursorMessageId, moderFlag, limit)
         == GetMessagesBetweenUsersCorrected(msgs, users, user1Id, user2Id, cursorTime, cursorMessageId, moderFlag, limit)
  {
    AsWrittenAgreesOnDistinctTimes(msgs, user1Id, user2Id, cursorTime, cursorMessageId, limit);
  }

  /** Corrected: resuming through the service from the k-th message of the
      conversation returns the next `limit` messages after it. */
  lemma HistoryServiceResume(msgs: seq<Message>, users: seq<User>, user1Id: UserId, user2Id: UserId,
                             moderFlag: bool, k: nat, limit: nat)
    requires ValidUsers(users) && ValidMessageIds(msgs)
    requires user1Id != user2Id && FindUser(users, user1Id).Some? && FindUser(users, user2Id).Some?
    requires 0 < k <= |FullHistory(msgs, user1Id, user2Id)|
    ensures var h := FullHistory(msgs, user1Id, user2Id);
      var r := GetMessagesBetweenUsersCorrected(msgs, users, user1Id, user2Id, Some(h[k - 1].createdAt), Some(h[k - 1].id), moderFlag, limit);
      r.Ok? && r.value.messages == ShapeMessages(FindUsersForChat(users, user1Id, user2Id), Take(h[k..], limit))
  {
    var h := FullHistory(msgs, user1Id, user2Id);
    var ct, cm := Some(h[k - 1].createdAt), Some(h[k - 1].id);
    var page := MessagesBetween(msgs, user1Id, user2Id, ct, cm, limit);
    assert ServeHistory(users, user1Id, user2Id, moderFlag, page).Ok? by {
      HistoryChecks(users, user1Id, user2Id, moderFlag, page);
    }
    assert page == Take(h[k..], limit) by {
      HistoryResume(msgs, user1Id, user2Id, k, limit);
    }
    HistoryOkPage(users, user1Id, user2Id, moderFlag, page);
  }

  /** Corrected: the first page through the service is the start of the
      conversation, and its cursor names its last message. */
  lemma HistoryServiceFirstPage(msgs: seq<Message>, users: seq<User>, user1Id: UserId, user2Id: UserId,
                                moderFlag: bool, limit: nat)
    requires ValidUsers(users)
    requires GetMessagesBetweenUsersCorrected(msgs, users, user1Id, user2Id, None, None, moderFlag, limit).Ok?
    ensures var r := GetMessagesBetweenUsersCorrected(msgs, users, user1Id, user2Id, None, None, moderFlag, limit).value;
      var h := FullHistory(msgs, user1Id, user2Id);
      var k := |r.messages|;
      && user1Id != user2Id && FindUser(users, user1Id).Some? && FindUser(users, user2Id).Some?
      && r.messages == ShapeMessages(FindUsersForChat(users, user1Id, user2Id), Take(h, limit))
      && k <= |h|
      && (k > 0 ==> r.cursorTime == Some(h[k - 1].createdAt) && r.cursorMessageId == Some(h[k - 1].id))
  {
    var h := FullHistory(msgs, user1Id, user2Id);
    var p1 := MessagesBetween(msgs, user1Id, user2Id, None, None, limit);
    var r := ServeHistory(users, user1Id, user2Id, moderFlag, p1).value;
    assert p1 == h[..|p1|] && p1 == Take(h, limit) by {
      FirstPagePrefix(msgs, user1Id, user2Id, limit);
      HistoryFirstPage(msgs, user1Id, user2Id, limit);
    }
    assert user1Id != user2Id && FindUser(users, user1Id).Some? && FindUser(users, user2Id).Some? by {
      HistoryChecks(users, user1Id, user2Id, moderFlag, p1);
    }
    assert r.messages == ShapeMessages(FindUsersForChat(users, user1Id, user2Id), p1)
        && (p1 != [] ==> r.cursorTime == Some(p1[|p1| - 1].createdAt) && r.cursorMessageId == Some(p1[|p1| - 1].id)) by {
      HistoryOkPage(users, user1Id, user2Id, moderFlag, p1);
    }
    assert |r.messages| == |p1|;
    if p1 != [] {
      assert p1[|p1| - 1] == h[|p1| - 1];
    }
  }

  /** Corrected keyset pagination through the service: the first page is the
      newest `limit` messages, and asking again with the cursor it returned
      gives the next `limit2` messages of the conversation. */
  lemma HistoryNextPage(msgs: seq<Message>, users: seq<User>, user1Id: UserId, user2Id: UserId,
                        moderFlag: bool, limit: nat, limit2: nat)
    requires ValidUsers(users) && ValidMessageIds(msgs)
    requires GetMessagesBetweenUsersCorrected(msgs, users, user1Id, user2Id, None, None, moderFlag, limit).Ok?
    ensures var r1 := GetMessagesBetweenUsersCorrected(msgs, users, user1Id, user2Id, None, None, moderFlag, limit).value;
      var h := FullHistory(msgs, user1Id, user2Id);
      var found := FindUsersForChat(users, user1Id, user2Id);
      && r1.messages == ShapeMessages(found, Take(h, limit))
      && (r1.messages != [] ==>
            var r2 := GetMessagesBetweenUsersCorrected(msgs, users, user1Id, user2Id, r1.cursorTime, r1.cursorMessageId, moderFlag, limit2);
            r2.Ok? && r2.value.messages == ShapeMessages(found, Take(h[|r1.messages|..], limit2)))
  {
    var r1 := GetMessagesBetweenUsersCorrected(msgs, users, user1Id, user2Id, None, None, moderFlag, limit).value;
    HistoryServiceFirstPage(msgs, users, user1Id, user2Id, moderFlag, limit);
    if r1.messages != [] {
      HistoryServiceResume(msgs, users, user1Id, user2Id, moderFlag, |r1.messages|, limit2);
    }
  }

  /** As written, keyset pagination through the service is right whenever no
      two messages of the pair share a time: the first page is the newest
      `limit` messages, and its cursor gives the next `limit2`. */
  lemma HistoryNextPageAsWritten(msgs: seq<Message>, users: seq<User>, user1Id: UserId, user2Id: UserId,
                                 moderFlag: bool, limit: nat, limit2: nat)
    requires ValidUsers(users) && ValidMessageIds(msgs)
    requires forall m1, m2 :: (m1 in msgs && m2 in msgs && Between(m1, user1Id, user2Id) && Between(m2, user1Id, user2Id)
               && m1 != m2) ==> m1.createdAt != m2.createdAt
    requires GetMessagesBetweenUsers(msgs, users, user1Id, user2Id, None, None, moderFlag, limit).Ok?
    ensures var r1 := GetMessagesBetweenUsers(msgs, users, user1Id, user2Id, None, None, moderFlag, limit).value;
      var h := FullHistory(msgs, user1Id, user2Id);
      var found := FindUsersForChat(users, user1Id, user2Id);
      && r1.messages == ShapeMessages(found, Take(h, limit))
      && (r1.messages != [] ==>
            var r2 := GetMessagesBetweenUsers(msgs, users, user1Id, user2Id, r1.cursorTime, r1.cursorMessageId, moderFlag, limit2);
            r2.Ok? && r2.value.messages == ShapeMessages(found, Take(h[|r1.messages|..], limit2)))
  {
    var r1 := GetMessagesBetweenUsers(msgs, users, user1Id, user2Id, None, None, moderFlag, limit).value;
    AsWrittenServiceAgrees(msgs, users, user1Id, user2Id, None, None, moderFlag, limit);
    HistoryNextPage(msgs, users, user1Id, user2Id, moderFlag, limit, limit2);
    AsWrittenServiceAgrees(msgs, users, user1Id, user2Id, r1.cursorTime, r1.cursorMessageId, moderFlag, limit2);
  }

  // ---------------------------------------------------------------------
  // add_message
  // ---------------------------------------------------------------------

  /** The success answer of add_message. */
  datatype SentMessage = SentMessage(status: string, senderId: UserId, recipientId: UserId,
                                     messageText: string, createdAt: Timestamp)

  /** Checks that the message is not to oneself, stores it, then tells the
      recipient about the message and both users that their chat lists
      changed. A foreign-key failure (an unknown recipient) is reported as
      OneUserIdNotFound for the recipient; nothing is sent unless the
      message was stored. */
  method AddMessage(db: Database, manager: ConnectionManager, messageText: string, recipientId: UserId,
                    currentUserId: UserId, now: Timestamp)
    returns (r: Outcome<SentMessage>)
    requires db.Valid()
    modifies db, manager
    ensures db.Valid()
    ensures db.users == old(db.users) && db.blocks == old(db.blocks) && db.nextBlockId == old(db.nextBlockId)
    ensures db.nextMessageId == if r.Ok? then old(db.nextMessageId) + 1 else old(db.nextMessageId)
    ensures currentUserId == recipientId ==>
      (r == Fail(Http(UserMessagesBetweenYourself)) && db.messages == old(db.messages)
       && manager.State() == old(manager.State()))
    ensures (currentUserId != recipientId && |messageText| > MESSAGE_TEXT_MAX_LENGTH) ==>
      (r == Fail(Internal(ValueTooLong)) && db.messages == old(db.messages)
       && manager.State() == old(manager.State()))
    ensures (currentUserId != recipientId && |messageText| <= MESSAGE_TEXT_MAX_LENGTH
             && !(UserExists(db.users, currentUserId) && UserExists(db.users, recipientId))) ==>
      (r == Fail(Http(OneUserIdNotFound(recipientId))) && db.messages == old(db.messages)
       && manager.State() == old(manager.State()))
    ensures r.Ok? ==>
      && currentUserId != recipientId
      && r.value == SentMessage("success", currentUserId, recipientId, messageText, now)
      && db.messages == old(db.messages) + [Message(old(db.nextMessageId), messageText, currentUserId, recipientId, now)]
      && manager.State() == ChatListUpdateAsWritten(
           NotifyNewMessageStep(old(manager.State()), IncomingMessage(recipientId, messageText, now), currentUserId),
           currentUserId, recipientId, now)
    ensures (currentUserId != recipientId && |messageText| <= MESSAGE_TEXT_MAX_LENGTH
             && UserExists(db.users, currentUserId) && UserExists(db.users, recipientId)) ==> r.Ok?
  {
    if currentUserId == recipientId {
      return Fail(Http(UserMessagesBetweenYourself));
    }
    var stored := db.InsertMessage(messageText, currentUserId, recipientId, now);
    match stored {
      case Fail(e) =>
        if e == Internal(IntegrityError) {
          r := Fail(Http(OneUserIdNotFound(recipientId)));
        } else {
          r := Fail(e);
        }
      case Ok(m) =>
        manager.NotifyUserAboutNewMessage(IncomingMessage(m.recipientId, m.messageText, m.createdAt), m.senderId);
        manager.NotifyChatListUpdate(currentUserId, m.recipientId, m.createdAt);
        r := Ok(SentMessage("success", m.senderId, m.recipientId, m.messageText, m.createdAt));
    }
  }

  // ---------------------------------------------------------------------
  // find_users_by_username and get_all_chats
  // ---------------------------------------------------------------------

  datatype Pagination = Pagination(limit: nat, currentOffset: nat, newOffset: nat, isEnd: bool)

  datatype FoundUser = FoundUser(id: UserId, username: string)

  datatype UserSearch = UserSearch(users: seq<FoundUser>, pagination: Pagination)

  function FindUsersByUsername(users: seq<User>, username: string, limit: nat, offset: nat): Outcome<UserSearch>
  {
    var raw := FindByUsername(users, username, limit, offset);
    if raw == [] then Fail(Http(UserSearchNotFound))
    else
      Ok(UserSearch(seq(|raw|, i requires 0 <= i < |raw| => FoundUser(raw[i].id, raw[i].username)),
                    Pagination(limit, offset, offset + limit, |raw| < limit)))
  }

  /** A page that says it is the end is followed by no match, so asking at
      its new offset raises UserSearchNotFound; otherwise the page at the new
      offset starts right after this one. */
  lemma SearchPagination(users: seq<User>, username: string, limit: nat, offset: nat)
    ensures var r := FindUsersByUsername(users, username, limit, offset);
      var raw := FindByUsername(users, username, limit, offset);
      r.Ok? ==>
        && (r.value.pagination.isEnd ==>
              FindUsersByUsername(users, username, limit, r.value.pagination.newOffset) == Fail(Http(UserSearchNotFound)))
        && raw + FindByUsername(users, username, limit, r.value.pagination.newOffset)
           == FindByUsername(users, username, 2 * limit, offset)
  {
    var r := FindUsersByUsername(users, username, limit, offset);
    var raw := FindByUsername(users, username, limit, offset);
    SearchNextPage(users, username, limit, offset);
    if r.Ok? {
      assert r.value.pagination == Pagination(limit, offset, offset + limit, |raw| < limit);
      if |raw| < limit {
        assert FindUsersByUsername(users, username, limit, offset + limit) == Fail(Http(UserSearchNotFound));
      }
    }
  }

  /** The search in terms of all matching users: it fails with
      UserSearchNotFound exactly when no match lies at or after `offset` (or
      `limit` is 0); otherwise it returns, in table order, the matches from
      position `offset` on, `limit` of them or all that remain, moves the
      offset on by `limit`, and says is_end exactly when fewer than `limit`
      matches remain. */
  lemma SearchAnswer(users: seq<User>, username: string, limit: nat, offset: nat)
    ensures var r := FindUsersByUsername(users, username, limit, offset);
      var all := Filter(users, UsernameMatches(username));
      && (r.Fail? <==> limit == 0 || |all| <= offset)
      && (r.Fail? ==> r == Fail(Http(UserSearchNotFound)))
      && (r.Ok? ==>
            && r.value.pagination.newOffset == offset + limit
            && offset + |r.value.users| == (if offset + limit <= |all| then offset + limit else |all|)
            && (forall i :: 0 <= i < |r.value.users| ==>
                  r.value.users[i] == FoundUser(all[offset + i].id, all[offset + i].username))
            && (r.value.pagination.isEnd <==> |all| < offset + limit))
  {
    var all := Filter(users, UsernameMatches(username));
    var raw := FindByUsername(users, username, limit, offset);
    var d := Drop(all, offset);
    assert raw == Take(d, limit);
    assert forall i :: 0 <= i < |raw| ==> raw[i] == d[i];
  }

  /** The page at `offset + limit` continues the page at `offset`, and is
      empty when that page was short. */
  lemma SearchNextPage(users: seq<User>, username: string, limit: nat, offset: nat)
    ensures var raw := FindByUsername(users, username, limit, offset);
      var next := FindByUsername(users, username, limit, offset + limit);
      && raw + next == FindByUsername(users, username, 2 * limit, offset)
      && (|raw| < limit ==> next == [])
  {
    var all := Filter(users, UsernameMatches(username));
    var d := Drop(all, offset);
    assert FindByUsername(users, username, limit, offset + limit) == Take(Drop(d, limit), limit) by {
      DropDrop(all, offset, limit);
    }
    TakeDropTake(d, limit, limit);
  }

  /** is_end is decided by the page size alone: when the matches end
      exactly on a full page, that page says more may follow and the next
      request fails with UserSearchNotFound. */
  lemma SearchFullLastPage(users: seq<User>, username: string, limit: nat, offset: nat)
    requires limit > 0
    requires |Filter(users, UsernameMatches(username))| == offset + limit
    ensures var r := FindUsersByUsername(users, username, limit, offset);
      && r.Ok? && !r.value.pagination.isEnd
      && FindUsersByUsername(users, username, limit, r.value.pagination.newOffset) == Fail(Http(UserSearchNotFound))
  {
    SearchAnswer(users, username, limit, offset);
    SearchAnswer(users, username, limit, offset + limit);
  }

  datatype ChatParticipant = ChatParticipant(userId: UserId, username: string)

  datatype PairChat = PairChat(participants: seq<ChatParticipant>, lastMessageTime: Timestamp)

  datatype AllChats = AllChats(chats: seq<PairChat>, pagination: Pagination)

  function PairChatOf(row: PairRow): PairChat
  {
    PairChat([ChatParticipant(row.user1Id, row.user1Username), ChatParticipant(row.user2Id, row.user2Username)],
             row.lastMessageTime)
  }

  function GetAllChats(msgs: seq<Message>, users: seq<User>, limit: nat, offset: nat): AllChats
  {
    var raw := AllUsersChats(msgs, users, limit, offset);
    AllChats(seq(|raw|, i requires 0 <= i < |raw| => PairChatOf(raw[i])),
             Pagination(limit, offset, if raw != [] then offset + limit else offset, |raw| < limit))
  }

  /** Unlike the user search, an empty page is an answer, whose new offset
      stays where it was. A non-empty page moves the offset by `limit`, and
      the page at the new offset continues exactly where this one ended. */
  lemma AllChatsPagination(msgs: seq<Message>, users: seq<User>, limit: nat, offset: nat)
    ensures var r := GetAllChats(msgs, users, limit, offset);
      var raw := AllUsersChats(msgs, users, limit, offset);
      && |r.chats| == |raw|
      && (forall i :: 0 <= i < |raw| ==> r.chats[i] == PairChatOf(raw[i]))
      && (raw == [] ==> r.pagination.newOffset == offset && (limit > 0 ==> r.pagination.isEnd))
      && (raw != [] ==> r.pagination.newOffset == offset + limit)
      && (r.pagination.isEnd <==> |raw| < limit)
      && raw + AllUsersChats(msgs, users, limit, r.pagination.newOffset) == AllUsersChats(msgs, users, 2 * limit, offset)
  {
    var raw := AllUsersChats(msgs, users, limit, offset);
    AllUsersChatsPagesAdjacent(msgs, users, limit, offset);
    if raw == [] {
      var all := AllChatsOrdered(msgs, users);
      TakeDropTake(Drop(all, offset), limit, limit);
      DropDrop(all, offset, limit);
      assert |Drop(all, offset)| == 0 || limit == 0;
    }
  }
}

/** MessageDAO's three read queries (app/chat/dao.py) as functions over a
    snapshot of the `messages` and `users` tables: the per-user chat list with
    a time cursor, the two-party history with a (created_at, id) cursor, and
    the moderator's listing of every conversation with LIMIT/OFFSET.

    SQL leaves the order of rows with equal ORDER BY keys open; the model
    settles it with a stable sort, so tied rows keep table order. */
module MessageDao {
  import opened Common
  import opened Models
  import opened Ordering
  import opened Grouping

  // ---------------------------------------------------------------------
  // Grouping messages by conversation
  // ---------------------------------------------------------------------

  /** The (group key, created_at) pairs of the messages a WHERE clause
      selects, in table order: the input of GROUP BY ... max(created_at). */
  function Entries<K>(msgs: seq<Message>, sel: Message -> bool, key: Message -> K): seq<(K, Timestamp)>
  {
    if msgs == [] then []
    else (if sel(msgs[0]) then [(key(msgs[0]), msgs[0].createdAt)] else []) + Entries(msgs[1..], sel, key)
  }

  lemma {:induction false} EntriesOf<K>(msgs: seq<Message>, sel: Message -> bool, key: Message -> K, m: Message)
    requires m in msgs && sel(m)
    ensures (key(m), m.createdAt) in Entries(msgs, sel, key)
  {
    if msgs[0] != m {
      assert m in msgs[1..];
      EntriesOf(msgs[1..], sel, key, m);
    }
  }

  lemma {:induction false} EntriesFrom<K>(msgs: seq<Message>, sel: Message -> bool, key: Message -> K, e: (K, Timestamp))
    returns (m: Message)
    requires e in Entries(msgs, sel, key)
    ensures m in msgs && sel(m) && e == (key(m), m.createdAt)
  {
    if sel(msgs[0]) && e == (key(msgs[0]), msgs[0].createdAt) {
      m := msgs[0];
    } else {
      m := EntriesFrom(msgs[1..], sel, key, e);
    }
  }

  /** `t` is the latest created_at among the selected messages with key `k`. */
  ghost predicate IsLastBy<K>(msgs: seq<Message>, sel: Message -> bool, key: Message -> K, k: K, t: Timestamp)
  {
    && (exists m :: m in msgs && sel(m) && key(m) == k && m.createdAt == t)
    && (forall m :: m in msgs && sel(m) && key(m) == k ==> m.createdAt <= t)
  }

  /** Every group holds the latest time of its conversation. */
  lemma GroupedIsLast<K>(msgs: seq<Message>, sel: Message -> bool, key: Message -> K, g: Group<K>)
    requires g in GroupMax(Entries(msgs, sel, key))
    ensures IsLastBy(msgs, sel, key, g.key, g.last)
  {
    var entries := Entries(msgs, sel, key);
    var gs := GroupMax(entries);
    GroupMaxCorrect(entries, g.key);
    FindMember(gs, g);
    var i :| 0 <= i < |entries| && entries[i] == (g.key, g.last);
    var m := EntriesFrom(msgs, sel, key, entries[i]);
    forall m' | m' in msgs && sel(m') && key(m') == g.key ensures m'.createdAt <= g.last {
      EntriesOf(msgs, sel, key, m');
      var j :| 0 <= j < |entries| && entries[j] == (g.key, m'.createdAt);
    }
  }

  /** Every conversation has its group, holding its latest time. */
  lemma LastIsGrouped<K>(msgs: seq<Message>, sel: Message -> bool, key: Message -> K, k: K, t: Timestamp)
    requires IsLastBy(msgs, sel, key, k, t)
    ensures Group(k, t) in GroupMax(Entries(msgs, sel, key))
  {
    var entries := Entries(msgs, sel, key);
    var gs := GroupMax(entries);
    var m :| m in msgs && sel(m) && key(m) == k && m.createdAt == t;
    EntriesOf(msgs, sel, key, m);
    var i :| 0 <= i < |entries| && entries[i] == (k, t);
    assert entries[i].0 == k;
    GroupMaxCorrect(entries, k);
    var v := Find(gs, k).value;
    var j :| 0 <= j < |entries| && entries[j] == (k, v);
    var m2 := EntriesFrom(msgs, sel, key, entries[j]);
    assert entries[i].1 <= v;
    FindSome(gs, k);
    var g :| g in gs && g.key == k;
    FindMember(gs, g);
  }

  lemma LastByUnique<K>(msgs: seq<Message>, sel: Message -> bool, key: Message -> K, k: K, t1: Timestamp, t2: Timestamp)
    requires IsLastBy(msgs, sel, key, k, t1) && IsLastBy(msgs, sel, key, k, t2)
    ensures t1 == t2
  {
  }

  // ---------------------------------------------------------------------
  // Chat list of one user: get_chats_of_user
  // ---------------------------------------------------------------------

  /** One row of the chat list: the partner, their username (from the join
      with `users`) and the time of the latest message between the two. */
  datatype ChatRow = ChatRow(chatPartnerId: UserId, username: string, lastMessageTime: Timestamp)

  predicate Involves(m: Message, u: UserId)
  {
    m.senderId == u || m.recipientId == u
  }

  /** CASE WHEN sender_id = u THEN recipient_id ELSE sender_id END */
  function Partner(m: Message, u: UserId): UserId
  {
    if m.senderId == u then m.recipientId else m.senderId
  }

  function InvolvesOf(u: UserId): Message -> bool
  {
    m => Involves(m, u)
  }

  function PartnerFor(u: UserId): Message -> UserId
  {
    m => Partner(m, u)
  }

  /** `t` is the created_at of the latest message between u and p. */
  ghost predicate IsLastWith(msgs: seq<Message>, u: UserId, p: UserId, t: Timestamp)
  {
    IsLastBy(msgs, InvolvesOf(u), PartnerFor(u), p, t)
  }

  /** The inner join with `users`: groups whose partner has no user row drop out. */
  function JoinPartners(gs: seq<Group<UserId>>, users: seq<User>): seq<ChatRow>
  {
    if gs == [] then []
    else
      var f := FindUser(users, gs[0].key);
      (if f.Some? then [ChatRow(gs[0].key, f.value.username, gs[0].last)] else [])
      + JoinPartners(gs[1..], users)
  }

  lemma {:induction false} JoinPartnersFrom(gs: seq<Group<UserId>>, users: seq<User>, row: ChatRow)
    returns (g: Group<UserId>)
    requires row in JoinPartners(gs, users)
    ensures g in gs && FindUser(users, g.key).Some?
    ensures row == ChatRow(g.key, FindUser(users, g.key).value.username, g.last)
  {
    var f := FindUser(users, gs[0].key);
    if f.Some? && row == ChatRow(gs[0].key, f.value.username, gs[0].last) {
      g := gs[0];
    } else {
      g := JoinPartnersFrom(gs[1..], users, row);
    }
  }

  lemma {:induction false} JoinPartnersHas(gs: seq<Group<UserId>>, users: seq<User>, g: Group<UserId>)
    requires g in gs && FindUser(users, g.key).Some?
    ensures ChatRow(g.key, FindUser(users, g.key).value.username, g.last) in JoinPartners(gs, users)
  {
    if gs[0] != g {
      assert g in gs[1..];
      JoinPartnersHas(gs[1..], users, g);
    }
  }

  lemma {:induction false} JoinPartnersUnique(gs: seq<Group<UserId>>, users: seq<User>)
    requires UniqueKeys(gs)
    ensures UniqueBy(JoinPartners(gs, users), PartnerOf)
  {
    if gs != [] {
      JoinPartnersUnique(gs[1..], users);
      var rest := JoinPartners(gs[1..], users);
      var r := JoinPartners(gs, users);
      forall j | 0 <= j < |rest| ensures rest[j].chatPartnerId != gs[0].key {
        var g := JoinPartnersFrom(gs[1..], users, rest[j]);
        var k :| 0 <= k < |gs[1..]| && gs[1..][k] == g;
        assert gs[k + 1] == g;
      }
      if FindUser(users, gs[0].key).Some? {
        assert r[1..] == rest;
      } else {
        assert r == rest;
      }
    }
  }

  function ChatTimeKey(row: ChatRow): Key
  {
    Key(row.lastMessageTime, 0)
  }

  function PartnerOf(row: ChatRow): UserId
  {
    row.chatPartnerId
  }

  function JoinedChats(msgs: seq<Message>, users: seq<User>, u: UserId): seq<ChatRow>
  {
    JoinPartners(GroupMax(Entries(msgs, InvolvesOf(u), PartnerFor(u))), users)
  }

  /** All of u's chats that pass the cursor, before ORDER BY and LIMIT. */
  function ChatCandidates(msgs: seq<Message>, users: seq<User>, u: UserId, cursor: Option<Timestamp>): seq<ChatRow>
  {
    // `if cursor_last_message_time:` a datetime is always truthy
    if cursor.Some? then Filter(JoinedChats(msgs, users, u), Below(ChatTimeKey, Key(cursor.value, 0)))
    else JoinedChats(msgs, users, u)
  }

  /** get_chats_of_user (app/chat/dao.py:42-71). */
  function ChatsOfUser(msgs: seq<Message>, users: seq<User>, u: UserId, cursor: Option<Timestamp>, limit: nat): seq<ChatRow>
  {
    Take(SortDesc(ChatCandidates(msgs, users, u, cursor), ChatTimeKey), limit)
  }

  lemma JoinedRow(msgs: seq<Message>, users: seq<User>, u: UserId, row: ChatRow)
    requires row in JoinedChats(msgs, users, u)
    ensures IsLastWith(msgs, u, row.chatPartnerId, row.lastMessageTime)
    ensures FindUser(users, row.chatPartnerId).Some?
    ensures FindUser(users, row.chatPartnerId).value.username == row.username
  {
    var gs := GroupMax(Entries(msgs, InvolvesOf(u), PartnerFor(u)));
    var g := JoinPartnersFrom(gs, users, row);
    GroupedIsLast(msgs, InvolvesOf(u), PartnerFor(u), g);
  }

  lemma CandidateJoined(msgs: seq<Message>, users: seq<User>, u: UserId, cursor: Option<Timestamp>, row: ChatRow)
    requires row in ChatCandidates(msgs, users, u, cursor)
    ensures row in JoinedChats(msgs, users, u)
    ensures cursor.Some? ==> row.lastMessageTime < cursor.value
  {
    var joined := JoinedChats(msgs, users, u);
    if cursor.Some? {
      assert row in Filter(joined, Below(ChatTimeKey, Key(cursor.value, 0)));
      assert KeyLess(ChatTimeKey(row), Key(cursor.value, 0));
    }
  }

  /** What every chat-list candidate is. */
  lemma CandidateRow(msgs: seq<Message>, users: seq<User>, u: UserId, cursor: Option<Timestamp>, row: ChatRow)
    requires row in ChatCandidates(msgs, users, u, cursor)
    ensures IsLastWith(msgs, u, row.chatPartnerId, row.lastMessageTime)
    ensures FindUser(users, row.chatPartnerId).Some?
    ensures FindUser(users, row.chatPartnerId).value.username == row.username
    ensures cursor.Some? ==> row.lastMessageTime < cursor.value
  {
    CandidateJoined(msgs, users, u, cursor, row);
    JoinedRow(msgs, users, u, row);
  }

  /** get_chats_of_user returns at most `limit` rows, newest chat first, and
      names each partner once. */
  lemma ChatsOfUserOrder(msgs: seq<Message>, users: seq<User>, u: UserId, cursor: Option<Timestamp>, limit: nat)
    ensures var r := ChatsOfUser(msgs, users, u, cursor, limit);
      && |r| <= limit
      && (forall i, j :: 0 <= i < j < |r| ==> r[j].lastMessageTime <= r[i].lastMessageTime)
      && (forall i, j :: 0 <= i < j < |r| ==> r[i].chatPartnerId != r[j].chatPartnerId)
  {
    var entries := Entries(msgs, InvolvesOf(u), PartnerFor(u));
    var joined := JoinedChats(msgs, users, u);
    var cands := ChatCandidates(msgs, users, u, cursor);
    var sorted := SortDesc(cands, ChatTimeKey);
    var r := Take(sorted, limit);
    GroupMaxCorrect(entries, u);
    JoinPartnersUnique(GroupMax(entries), users);
    if cursor.Some? {
      FilterUnique(joined, Below(ChatTimeKey, Key(cursor.value, 0)), PartnerOf);
    }
    SortUnique(cands, ChatTimeKey, PartnerOf);
    forall i, j | 0 <= i < j < |r|
      ensures r[j].lastMessageTime <= r[i].lastMessageTime
      ensures r[i].chatPartnerId != r[j].chatPartnerId
    {
      assert r[i] == sorted[i] && r[j] == sorted[j];
      assert KeyLe(ChatTimeKey(sorted[j]), ChatTimeKey(sorted[i])) by {
        SortDescSorted(cands, ChatTimeKey);
      }
      assert PartnerOf(sorted[i]) != PartnerOf(sorted[j]);
    }
  }

  /** Each row is a partner of u with a user row, carries that user's
      username and the time of the pair's latest message, and with a cursor
      is strictly older than it. */
  lemma ChatsOfUserRows(msgs: seq<Message>, users: seq<User>, u: UserId, cursor: Option<Timestamp>, limit: nat, row: ChatRow)
    requires row in ChatsOfUser(msgs, users, u, cursor, limit)
    ensures IsLastWith(msgs, u, row.chatPartnerId, row.lastMessageTime)
    ensures FindUser(users, row.chatPartnerId).Some?
    ensures FindUser(users, row.chatPartnerId).value.username == row.username
    ensures cursor.Some? ==> row.lastMessageTime < cursor.value
  {
    var cands := ChatCandidates(msgs, users, u, cursor);
    SortedMembers(cands, ChatTimeKey);
    assert row in SortDesc(cands, ChatTimeKey);
    CandidateRow(msgs, users, u, cursor, row);
  }

  lemma JoinedHasLast(msgs: seq<Message>, users: seq<User>, u: UserId, p: UserId, t: Timestamp)
    requires IsLastWith(msgs, u, p, t) && FindUser(users, p).Some?
    ensures ChatRow(p, FindUser(users, p).value.username, t) in JoinedChats(msgs, users, u)
  {
    var gs := GroupMax(Entries(msgs, InvolvesOf(u), PartnerFor(u)));
    LastIsGrouped(msgs, InvolvesOf(u), PartnerFor(u), p, t);
    JoinPartnersHas(gs, users, Group(p, t));
  }

  /** Below a full page nothing is missing: every partner of u with a user
      row whose latest message passes the cursor is listed. */
  lemma ChatsOfUserComplete(msgs: seq<Message>, users: seq<User>, u: UserId, cursor: Option<Timestamp>, limit: nat,
                            p: UserId, t: Timestamp)
    requires |ChatsOfUser(msgs, users, u, cursor, limit)| < limit
    requires IsLastWith(msgs, u, p, t) && FindUser(users, p).Some?
    requires cursor.Some? ==> t < cursor.value
    ensures ChatRow(p, FindUser(users, p).value.username, t) in ChatsOfUser(msgs, users, u, cursor, limit)
  {
    var row := ChatRow(p, FindUser(users, p).value.username, t);
    var joined := JoinedChats(msgs, users, u);
    var cands := ChatCandidates(msgs, users, u, cursor);
    JoinedHasLast(msgs, users, u, p, t);
    if cursor.Some? {
      assert Below(ChatTimeKey, Key(cursor.value, 0))(row) == KeyLess(ChatTimeKey(row), Key(cursor.value, 0));
    }
    assert row in cands;
    SortedMembers(cands, ChatTimeKey);
    assert row in SortDesc(cands, ChatTimeKey);
  }

  /** A full page is the newest `limit` chats: a chat that passes the cursor
      but is not on the page is no newer than the page's last row, and the
      page is then full. */
  lemma ChatsOfUserTop(msgs: seq<Message>, users: seq<User>, u: UserId, cursor: Option<Timestamp>, limit: nat,
                       row: ChatRow)
    requires row in ChatCandidates(msgs, users, u, cursor)
    requires row !in ChatsOfUser(msgs, users, u, cursor, limit)
    ensures var r := ChatsOfUser(msgs, users, u, cursor, limit);
      |r| == limit && (limit > 0 ==> row.lastMessageTime <= r[|r| - 1].lastMessageTime)
  {
    var cands := ChatCandidates(msgs, users, u, cursor);
    var sorted := SortDesc(cands, ChatTimeKey);
    var r := Take(sorted, limit);
    SortedMembers(cands, ChatTimeKey);
    var i :| 0 <= i < |sorted| && sorted[i] == row;
    forall j | 0 <= j < limit && j < |sorted|
      ensures sorted[j] in r
    {
      assert r[j] == sorted[j];
    }
    assert limit <= i;
    if limit > 0 {
      assert r[limit - 1] == sorted[limit - 1];
      if limit - 1 < i {
        assert KeyLe(ChatTimeKey(sorted[i]), ChatTimeKey(sorted[limit - 1])) by {
          SortDescSorted(cands, ChatTimeKey);
        }
      }
    }
  }

  lemma LastRowOldest(r: seq<ChatRow>, a: ChatRow)
    requires forall i, j :: 0 <= i < j < |r| ==> r[j].lastMessageTime <= r[i].lastMessageTime
    requires a in r
    ensures r[|r| - 1].lastMessageTime <= a.lastMessageTime
  {
    var i :| 0 <= i < |r| && r[i] == a;
    if i < |r| - 1 {
      assert r[|r| - 1].lastMessageTime <= r[i].lastMessageTime;
    }
  }

  /** Passing the last row's time back as the cursor gives a page whose chats
      are all strictly older than every chat of this page, so the two pages
      share no partner. */
  lemma ChatsNextPageDisjoint(msgs: seq<Message>, users: seq<User>, u: UserId, cursor: Option<Timestamp>, limit: nat, limit2: nat)
    requires ChatsOfUser(msgs, users, u, cursor, limit) != []
    ensures var r1 := ChatsOfUser(msgs, users, u, cursor, limit);
      var r2 := ChatsOfUser(msgs, users, u, Some(r1[|r1| - 1].lastMessageTime), limit2);
      && (forall a, b :: a in r1 && b in r2 ==> b.lastMessageTime < a.lastMessageTime)
      && (forall a, b :: a in r1 && b in r2 ==> a.chatPartnerId != b.chatPartnerId)
  {
    var r1 := ChatsOfUser(msgs, users, u, cursor, limit);
    var c := r1[|r1| - 1].lastMessageTime;
    var r2 := ChatsOfUser(msgs, users, u, Some(c), limit2);
    forall a, b | a in r1 && b in r2
      ensures b.lastMessageTime < a.lastMessageTime && a.chatPartnerId != b.chatPartnerId
    {
      PageLastIsOldest(msgs, users, u, cursor, limit, a);
      assert b.lastMessageTime < c by {
        ChatsOfUserRows(msgs, users, u, Some(c), limit2, b);
      }
      SamePartnerSameTime(msgs, users, u, cursor, limit, Some(c), limit2, a, b);
    }
  }

  /** The last row of a chat-list page is its oldest. */
  lemma PageLastIsOldest(msgs: seq<Message>, users: seq<User>, u: UserId, cursor: Option<Timestamp>, limit: nat, a: ChatRow)
    requires a in ChatsOfUser(msgs, users, u, cursor, limit)
    ensures var r := ChatsOfUser(msgs, users, u, cursor, limit);
      r[|r| - 1].lastMessageTime <= a.lastMessageTime
  {
    ChatsOfUserOrder(msgs, users, u, cursor, limit);
    LastRowOldest(ChatsOfUser(msgs, users, u, cursor, limit), a);
  }

  /** A partner listed on two pages shows the same latest time on both. */
  lemma SamePartnerSameTime(msgs: seq<Message>, users: seq<User>, u: UserId,
                            cursor1: Option<Timestamp>, limit1: nat, cursor2: Option<Timestamp>, limit2: nat,
                            a: ChatRow, b: ChatRow)
    requires a in ChatsOfUser(msgs, users, u, cursor1, limit1)
    requires b in ChatsOfUser(msgs, users, u, cursor2, limit2)
    ensures a.chatPartnerId == b.chatPartnerId ==> a.lastMessageTime == b.lastMessageTime
  {
    if a.chatPartnerId == b.chatPartnerId {
      ChatsOfUserRows(msgs, users, u, cursor1, limit1, a);
      ChatsOfUserRows(msgs, users, u, cursor2, limit2, b);
      LastByUnique(msgs, InvolvesOf(u), PartnerFor(u), a.chatPartnerId, a.lastMessageTime, b.lastMessageTime);
    }
  }


  /** The time cursor is strict: a partner whose latest message is exactly at
      the cursor time is left out of the page asked for with that cursor. */
  lemma ChatsCursorSkipsTies(msgs: seq<Message>, users: seq<User>, u: UserId, c: Timestamp, limit: nat, p: UserId)
    requires IsLastWith(msgs, u, p, c)
    ensures forall row :: row in ChatsOfUser(msgs, users, u, Some(c), limit) ==> row.chatPartnerId != p
  {
    forall row | row in ChatsOfUser(msgs, users, u, Some(c), limit) ensures row.chatPartnerId != p {
      ChatsOfUserRows(msgs, users, u, Some(c), limit, row);
      if row.chatPartnerId == p {
        LastByUnique(msgs, InvolvesOf(u), PartnerFor(u), p, c, row.lastMessageTime);
      }
    }
  }

  // ---------------------------------------------------------------------
  // History between two users: get_messages_between_users
  // ---------------------------------------------------------------------

  predicate Between(m: Message, a: UserId, b: UserId)
  {
    (m.senderId == a && m.recipientId == b) || (m.senderId == b && m.recipientId == a)
  }

  function BetweenOf(a: UserId, b: UserId): Message -> bool
  {
    m => Between(m, a, b)
  }

  /** (created_at, id), the key the compound cursor compares. */
  function CursorKey(m: Message): Key
  {
    Key(m.createdAt, m.id)
  }

  /** ORDER BY created_at DESC alone, as the query is written. */
  function TimeKey(m: Message): Key
  {
    Key(m.createdAt, 0)
  }

  /** `if cursor_time and cursor_message_id:` a datetime is always truthy,
      a message id of 0 is not. */
  predicate CursorApplies(cursorTime: Option<Timestamp>, cursorMessageId: Option<int>)
  {
    cursorTime.Some? && cursorMessageId.Some? && cursorMessageId.value != 0
  }

  /** created_at < t OR (created_at = t AND id < cursor id). */
  predicate BeforeCursor(m: Message, cursorTime: Timestamp, cursorMessageId: int)
  {
    m.createdAt < cursorTime || (m.createdAt == cursorTime && m.id < cursorMessageId)
  }

  /** The rows the WHERE clauses select: the pair's messages in either
      direction and, with a cursor, only those before it. */
  function HistoryCandidates(msgs: seq<Message>, a: UserId, b: UserId,
                             cursorTime: Option<Timestamp>, cursorMessageId: Option<int>): seq<Message>
  {
    var pair := Filter(msgs, BetweenOf(a, b));
    if CursorApplies(cursorTime, cursorMessageId)
    then Filter(pair, Below(CursorKey, Key(cursorTime.value, cursorMessageId.value)))
    else pair
  }

  /** get_messages_between_users as written (app/chat/dao.py:86-117):
      ORDER BY created_at DESC only, ties in table order. */
  function MessagesBetweenAsWritten(msgs: seq<Message>, a: UserId, b: UserId,
                                    cursorTime: Option<Timestamp>, cursorMessageId: Option<int>, limit: nat): seq<Message>
  {
    Take(SortDesc(HistoryCandidates(msgs, a, b, cursorTime, cursorMessageId), TimeKey), limit)
  }

  /** get_messages_between_users ordered by (created_at, id) DESC, the order
      its compound cursor presumes. The rows carry every selected column
      (id, message_text, sender_id, created_at); nothing reads recipient_id. */
  function MessagesBetween(msgs: seq<Message>, a: UserId, b: UserId,
                           cursorTime: Option<Timestamp>, cursorMessageId: Option<int>, limit: nat): seq<Message>
  {
    Take(SortDesc(HistoryCandidates(msgs, a, b, cursorTime, cursorMessageId), CursorKey), limit)
  }

  /** The whole conversation of a and b, newest first. */
  function FullHistory(msgs: seq<Message>, a: UserId, b: UserId): seq<Message>
  {
    SortDesc(Filter(msgs, BetweenOf(a, b)), CursorKey)
  }

  lemma BelowCursor(m: Message, cursorTime: Timestamp, cursorMessageId: int)
    ensures Below(CursorKey, Key(cursorTime, cursorMessageId))(m) <==> BeforeCursor(m, cursorTime, cursorMessageId)
  {
    assert Below(CursorKey, Key(cursorTime, cursorMessageId))(m) == KeyLess(CursorKey(m), Key(cursorTime, cursorMessageId));
  }

  lemma HistoryCandidate(msgs: seq<Message>, a: UserId, b: UserId,
                         cursorTime: Option<Timestamp>, cursorMessageId: Option<int>, m: Message)
    ensures m in HistoryCandidates(msgs, a, b, cursorTime, cursorMessageId) <==>
      && m in msgs && Between(m, a, b)
      && (CursorApplies(cursorTime, cursorMessageId) ==> BeforeCursor(m, cursorTime.value, cursorMessageId.value))
  {
    if CursorApplies(cursorTime, cursorMessageId) {
      BelowCursor(m, cursorTime.value, cursorMessageId.value);
    }
  }

  /** Sorting by a key whose major part is created_at, then taking `limit`
      rows, leaves at most `limit` rows, newest first. */
  lemma PageNewestFirst(s: seq<Message>, key: Message -> Key, limit: nat)
    requires forall m :: key(m).major == m.createdAt
    ensures var r := Take(SortDesc(s, key), limit);
      && |r| <= limit
      && (forall i, j :: 0 <= i < j < |r| ==> r[j].createdAt <= r[i].createdAt)
  {
    var sorted := SortDesc(s, key);
    var r := Take(sorted, limit);
    forall i, j | 0 <= i < j < |r| ensures r[j].createdAt <= r[i].createdAt {
      assert r[i] == sorted[i] && r[j] == sorted[j];
      assert KeyLe(key(sorted[j]), key(sorted[i])) by {
        SortDescSorted(s, key);
      }
    }
  }

  /** A history page holds at most `limit` messages in non-increasing
      created_at order, both as the query is written (created_at only) and
      with the (created_at, id) order. */
  lemma MessagesBetweenOrder(msgs: seq<Message>, a: UserId, b: UserId,
                             cursorTime: Option<Timestamp>, cursorMessageId: Option<int>, limit: nat)
    ensures var w := MessagesBetweenAsWritten(msgs, a, b, cursorTime, cursorMessageId, limit);
      && |w| <= limit
      && (forall i, j :: 0 <= i < j < |w| ==> w[j].createdAt <= w[i].createdAt)
    ensures var r := MessagesBetween(msgs, a, b, cursorTime, cursorMessageId, limit);
      && |r| <= limit
      && (forall i, j :: 0 <= i < j < |r| ==> r[j].createdAt <= r[i].createdAt)
  {
    var cands := HistoryCandidates(msgs, a, b, cursorTime, cursorMessageId);
    PageNewestFirst(cands, TimeKey, limit);
    PageNewestFirst(cands, CursorKey, limit);
  }

  /** Every message of a page, as written or corrected, is one of the
      pair's, in either direction, and with a cursor lies before it. */
  lemma MessagesBetweenRows(msgs: seq<Message>, a: UserId, b: UserId,
                            cursorTime: Option<Timestamp>, cursorMessageId: Option<int>, limit: nat, m: Message)
    requires m in MessagesBetweenAsWritten(msgs, a, b, cursorTime, cursorMessageId, limit)
          || m in MessagesBetween(msgs, a, b, cursorTime, cursorMessageId, limit)
    ensures m in msgs && Between(m, a, b)
    ensures CursorApplies(cursorTime, cursorMessageId) ==> BeforeCursor(m, cursorTime.value, cursorMessageId.value)
  {
    var cands := HistoryCandidates(msgs, a, b, cursorTime, cursorMessageId);
    SortedMembers(cands, TimeKey);
    SortedMembers(cands, CursorKey);
    assert m in SortDesc(cands, TimeKey) || m in SortDesc(cands, CursorKey);
    HistoryCandidate(msgs, a, b, cursorTime, cursorMessageId, m);
  }

  /** Below a full page nothing is missing: when either page is short, both
      hold every message of the pair that passes the cursor. */
  lemma MessagesBetweenComplete(msgs: seq<Message>, a: UserId, b: UserId,
                                cursorTime: Option<Timestamp>, cursorMessageId: Option<int>, limit: nat, m: Message)
    requires |MessagesBetweenAsWritten(msgs, a, b, cursorTime, cursorMessageId, limit)| < limit
          || |MessagesBetween(msgs, a, b, cursorTime, cursorMessageId, limit)| < limit
    requires m in msgs && Between(m, a, b)
    requires CursorApplies(cursorTime, cursorMessageId) ==> BeforeCursor(m, cursorTime.value, cursorMessageId.value)
    ensures m in MessagesBetweenAsWritten(msgs, a, b, cursorTime, cursorMessageId, limit)
    ensures m in MessagesBetween(msgs, a, b, cursorTime, cursorMessageId, limit)
  {
    var cands := HistoryCandidates(msgs, a, b, cursorTime, cursorMessageId);
    HistoryCandidate(msgs, a, b, cursorTime, cursorMessageId, m);
    SortedMembers(cands, TimeKey);
    SortedMembers(cands, CursorKey);
  }

  /** Within one conversation no two messages share (created_at, id). */
  lemma FullHistoryUnique(msgs: seq<Message>, a: UserId, b: UserId)
    requires ValidMessageIds(msgs)
    ensures UniqueBy(FullHistory(msgs, a, b), CursorKey)
  {
    assert UniqueBy(msgs, CursorKey);
    FilterUnique(msgs, BetweenOf(a, b), CursorKey);
    SortUnique(Filter(msgs, BetweenOf(a, b)), CursorKey, CursorKey);
  }

  /** Resuming from any message of the conversation: the page asked for with
      that message's (created_at, id) as cursor is the next `limit` messages
      after it, newest first. */
  lemma HistoryResume(msgs: seq<Message>, a: UserId, b: UserId, k: nat, limit: nat)
    requires ValidMessageIds(msgs)
    requires 0 < k <= |FullHistory(msgs, a, b)|
    ensures var h := FullHistory(msgs, a, b);
      MessagesBetween(msgs, a, b, Some(h[k - 1].createdAt), Some(h[k - 1].id), limit) == Take(h[k..], limit)
  {
    var pair := Filter(msgs, BetweenOf(a, b));
    var h := FullHistory(msgs, a, b);
    var last := h[k - 1];
    SortedMembers(pair, CursorKey);
    assert last in h;
    assert last.id >= 1;
    FullHistoryUnique(msgs, a, b);
    SortFilter(pair, CursorKey, Below(CursorKey, CursorKey(last)));
    SortDescSorted(pair, CursorKey);
    BelowIsSuffix(h, CursorKey, k);
  }

  /** The first page without a cursor is the start of the conversation. */
  lemma HistoryFirstPage(msgs: seq<Message>, a: UserId, b: UserId, limit: nat)
    ensures MessagesBetween(msgs, a, b, None, None, limit) == Take(FullHistory(msgs, a, b), limit)
  {
  }

  /** The first page is the head of the conversation, and the page its last
      row points to lies in the rest of it. */
  lemma NextPageFollows(msgs: seq<Message>, a: UserId, b: UserId, limit: nat, limit2: nat)
    requires ValidMessageIds(msgs)
    requires MessagesBetween(msgs, a, b, None, None, limit) != []
    ensures var h := FullHistory(msgs, a, b);
      var p1 := MessagesBetween(msgs, a, b, None, None, limit);
      var last := p1[|p1| - 1];
      && |p1| <= |h| && p1 == h[..|p1|]
      && MessagesBetween(msgs, a, b, Some(last.createdAt), Some(last.id), limit2) == Take(h[|p1|..], limit2)
  {
    var h := FullHistory(msgs, a, b);
    var p1 := MessagesBetween(msgs, a, b, None, None, limit);
    var k := |p1|;
    assert 0 < k <= |h| && p1[k - 1] == h[k - 1] by {
      FirstPagePrefix(msgs, a, b, limit);
    }
    HistoryResume(msgs, a, b, k, limit2);
  }

  lemma FirstPagePrefix(msgs: seq<Message>, a: UserId, b: UserId, limit: nat)
    ensures var p1 := MessagesBetween(msgs, a, b, None, None, limit);
      var h := FullHistory(msgs, a, b);
      |p1| <= |h| && p1 == h[..|p1|]
  {
    HistoryFirstPage(msgs, a, b, limit);
  }

  /** Keyset pagination: a page followed by the page its last row points to
      is a prefix of the conversation, and the two pages share no message. */
  lemma HistoryTwoPages(msgs: seq<Message>, a: UserId, b: UserId, limit: nat, limit2: nat)
    requires ValidMessageIds(msgs)
    requires MessagesBetween(msgs, a, b, None, None, limit) != []
    ensures var p1 := MessagesBetween(msgs, a, b, None, None, limit);
      var last := p1[|p1| - 1];
      var p2 := MessagesBetween(msgs, a, b, Some(last.createdAt), Some(last.id), limit2);
      && p1 + p2 <= FullHistory(msgs, a, b)
      && (forall m :: m in p1 ==> m !in p2)
  {
    var h := FullHistory(msgs, a, b);
    var p1 := MessagesBetween(msgs, a, b, None, None, limit);
    var last := p1[|p1| - 1];
    var p2 := MessagesBetween(msgs, a, b, Some(last.createdAt), Some(last.id), limit2);
    NextPageFollows(msgs, a, b, limit, limit2);
    FullHistoryUnique(msgs, a, b);
    PrefixThenNext(h, |p1|, p2, CursorKey);
  }

  /** Two sort keys that order the elements alike sort them alike. */
  lemma {:induction false} InsertSameOrder(x: Message, t: seq<Message>, k1: Message -> Key, k2: Message -> Key)
    requires forall y :: y in t ==> KeyLe(k1(y), k1(x)) == KeyLe(k2(y), k2(x))
    ensures Insert(x, t, k1) == Insert(x, t, k2)
  {
    if t != [] && !KeyLe(k1(t[0]), k1(x)) {
      assert t[0] in t;
      InsertSameOrder(x, t[1..], k1, k2);
    }
  }

  lemma {:induction false} SortSameOrder(s: seq<Message>, k1: Message -> Key, k2: Message -> Key)
    requires forall x, y :: x in s && y in s ==> KeyLe(k1(y), k1(x)) == KeyLe(k2(y), k2(x))
    ensures SortDesc(s, k1) == SortDesc(s, k2)
  {
    if s != [] {
      assert s[0] in s;
      SortSameOrder(s[1..], k1, k2);
      SortedMembers(s[1..], k1);
      InsertSameOrder(s[0], SortDesc(s[1..], k1), k1, k2);
    }
  }

  /** As written, the history is right when no two messages of the pair share
      a timestamp: ordering by created_at alone then agrees with ordering by
      (created_at, id). */
  lemma AsWrittenAgreesOnDistinctTimes(msgs: seq<Message>, a: UserId, b: UserId,
                                       cursorTime: Option<Timestamp>, cursorMessageId: Option<int>, limit: nat)
    requires forall m1, m2 :: (m1 in msgs && m2 in msgs && Between(m1, a, b) && Between(m2, a, b)
               && m1 != m2) ==> m1.createdAt != m2.createdAt
    ensures MessagesBetweenAsWritten(msgs, a, b, cursorTime, cursorMessageId, limit)
         == MessagesBetween(msgs, a, b, cursorTime, cursorMessageId, limit)
  {
    var cands := HistoryCandidates(msgs, a, b, cursorTime, cursorMessageId);
    forall x, y | x in cands && y in cands
      ensures KeyLe(TimeKey(y), TimeKey(x)) == KeyLe(CursorKey(y), CursorKey(x))
    {
      HistoryCandidate(msgs, a, b, cursorTime, cursorMessageId, x);
      HistoryCandidate(msgs, a, b, cursorTime, cursorMessageId, y);
    }
    SortSameOrder(cands, TimeKey, CursorKey);
  }

  /** Two messages of one pair sent in the same second, a page of one: the
      query as written returns the lower id first, the cursor it hands back
      then excludes the other message, so the history never shows it. */
  lemma AsWrittenLosesTiedMessage()
    ensures var m1 := Message(1, "hi", "a", "b", 5);
      var m2 := Message(2, "hey", "b", "a", 5);
      && MessagesBetweenAsWritten([m1, m2], "a", "b", None, None, 1) == [m1]
      && MessagesBetweenAsWritten([m1, m2], "a", "b", Some(5), Some(1), 1) == []
      && m2 in FullHistory([m1, m2], "a", "b")
  {
    AsWrittenTiedFirstPage();
    AsWrittenTiedCursorPage();
    TiedHistory();
  }

  lemma AsWrittenTiedFirstPage()
    ensures var m1 := Message(1, "hi", "a", "b", 5);
      var m2 := Message(2, "hey", "b", "a", 5);
      MessagesBetweenAsWritten([m1, m2], "a", "b", None, None, 1) == [m1]
  {
    var m1 := Message(1, "hi", "a", "b", 5);
    var m2 := Message(2, "hey", "b", "a", 5);
    assert HistoryCandidates([m1, m2], "a", "b", None, None) == [m1, m2] by {
      FilterTwo(m1, m2, BetweenOf("a", "b"));
    }
    assert SortDesc([m1, m2], TimeKey) == [m1, m2] by {
      SortTwo(m1, m2, TimeKey);
    }
    assert Take([m1, m2], 1) == [m1];
  }

  lemma AsWrittenTiedCursorPage()
    ensures var m1 := Message(1, "hi", "a", "b", 5);
      var m2 := Message(2, "hey", "b", "a", 5);
      MessagesBetweenAsWritten([m1, m2], "a", "b", Some(5), Some(1), 1) == []
  {
    var m1 := Message(1, "hi", "a", "b", 5);
    var m2 := Message(2, "hey", "b", "a", 5);
    assert HistoryCandidates([m1, m2], "a", "b", Some(5), Some(1)) == [] by {
      assert Filter([m1, m2], BetweenOf("a", "b")) == [m1, m2] by {
        FilterTwo(m1, m2, BetweenOf("a", "b"));
      }
      assert Filter([m1, m2], Below(CursorKey, Key(5, 1))) == [] by {
        BelowCursor(m1, 5, 1);
        BelowCursor(m2, 5, 1);
        FilterTwo(m1, m2, Below(CursorKey, Key(5, 1)));
      }
    }
  }

  lemma TiedHistory()
    ensures var m1 := Message(1, "hi", "a", "b", 5);
      var m2 := Message(2, "hey", "b", "a", 5);
      FullHistory([m1, m2], "a", "b") == [m2, m1]
  {
    HistoryOfTwo(Message(1, "hi", "a", "b", 5), Message(2, "hey", "b", "a", 5), "a", "b");
  }

  /** A conversation of two messages is shown newest first by (created_at, id). */
  lemma HistoryOfTwo(m1: Message, m2: Message, a: UserId, b: UserId)
    requires Between(m1, a, b) && Between(m2, a, b)
    requires KeyLess(CursorKey(m1), CursorKey(m2))
    ensures FullHistory([m1, m2], a, b) == [m2, m1]
  {
    FilterTwo(m1, m2, BetweenOf(a, b));
    SortTwo(m1, m2, CursorKey);
  }

  /** The same two messages ordered by (created_at, id): the first page
      shows the higher id, and the page its cursor points to shows the other,
      so the two pages together show the whole conversation. */
  lemma TiedMessagesBothShown()
    ensures var m1 := Message(1, "hi", "a", "b", 5);
      var m2 := Message(2, "hey", "b", "a", 5);
      && MessagesBetween([m1, m2], "a", "b", None, None, 1) == [m2]
      && MessagesBetween([m1, m2], "a", "b", Some(5), Some(2), 1) == [m1]
  {
    TiedFirstPage();
    TiedCursorPage();
  }

  lemma TiedFirstPage()
    ensures var m1 := Message(1, "hi", "a", "b", 5);
      var m2 := Message(2, "hey", "b", "a", 5);
      MessagesBetween([m1, m2], "a", "b", None, None, 1) == [m2]
  {
    var m1 := Message(1, "hi", "a", "b", 5);
    var m2 := Message(2, "hey", "b", "a", 5);
    assert HistoryCandidates([m1, m2], "a", "b", None, None) == [m1, m2] by {
      FilterTwo(m1, m2, BetweenOf("a", "b"));
    }
    assert SortDesc([m1, m2], CursorKey) == [m2, m1] by {
      SortTwo(m1, m2, CursorKey);
    }
    assert Take([m2, m1], 1) == [m2];
  }

  lemma TiedCursorPage()
    ensures var m1 := Message(1, "hi", "a", "b", 5);
      var m2 := Message(2, "hey", "b", "a", 5);
      MessagesBetween([m1, m2], "a", "b", Some(5), Some(2), 1) == [m1]
  {
    var m1 := Message(1, "hi", "a", "b", 5);
    var m2 := Message(2, "hey", "b", "a", 5);
    assert HistoryCandidates([m1, m2], "a", "b", Some(5), Some(2)) == [m1] by {
      assert Filter([m1, m2], BetweenOf("a", "b")) == [m1, m2] by {
        FilterTwo(m1, m2, BetweenOf("a", "b"));
      }
      assert Filter([m1, m2], Below(CursorKey, Key(5, 2))) == [m1] by {
        BelowCursor(m1, 5, 2);
        BelowCursor(m2, 5, 2);
        FilterTwo(m1, m2, Below(CursorKey, Key(5, 2)));
      }
    }
    assert SortDesc([m1], CursorKey) == [m1];
  }

  // ---------------------------------------------------------------------
  // Every conversation, for moderators: get_all_users_chats
  // ---------------------------------------------------------------------

  /** One conversation: the pair as (least, greatest) with both usernames. */
  datatype PairRow = PairRow(user1Id: UserId, user1Username: string,
                             user2Id: UserId, user2Username: string, lastMessageTime: Timestamp)

  /** (least(sender_id, recipient_id), greatest(sender_id, recipient_id)) */
  function PairKey(m: Message): (UserId, UserId)
  {
    (Least(m.senderId, m.recipientId), Greatest(m.senderId, m.recipientId))
  }

  function AnyMessage(): Message -> bool
  {
    m => true
  }

  /** `t` is the created_at of the latest message of the unordered pair
      {a, b}, in either direction. */
  ghost predicate IsLastOfPair(msgs: seq<Message>, a: UserId, b: UserId, t: Timestamp)
  {
    IsLastBy(msgs, AnyMessage(), PairKey, (a, b), t)
  }

  /** The two inner joins with `users`, one per side of the pair. */
  function JoinPairs(gs: seq<Group<(UserId, UserId)>>, users: seq<User>): seq<PairRow>
  {
    if gs == [] then []
    else
      var f1, f2 := FindUser(users, gs[0].key.0), FindUser(users, gs[0].key.1);
      (if f1.Some? && f2.Some?
       then [PairRow(gs[0].key.0, f1.value.username, gs[0].key.1, f2.value.username, gs[0].last)]
       else [])
      + JoinPairs(gs[1..], users)
  }

  lemma {:induction false} JoinPairsFrom(gs: seq<Group<(UserId, UserId)>>, users: seq<User>, row: PairRow)
    returns (g: Group<(UserId, UserId)>)
    requires row in JoinPairs(gs, users)
    ensures g in gs && FindUser(users, g.key.0).Some? && FindUser(users, g.key.1).Some?
    ensures row == PairRow(g.key.0, FindUser(users, g.key.0).value.username,
                           g.key.1, FindUser(users, g.key.1).value.username, g.last)
  {
    var f1, f2 := FindUser(users, gs[0].key.0), FindUser(users, gs[0].key.1);
    if f1.Some? && f2.Some? && row == PairRow(gs[0].key.0, f1.value.username, gs[0].key.1, f2.value.username, gs[0].last) {
      g := gs[0];
    } else {
      g := JoinPairsFrom(gs[1..], users, row);
    }
  }

  lemma {:induction false} JoinPairsHas(gs: seq<Group<(UserId, UserId)>>, users: seq<User>, g: Group<(UserId, UserId)>)
    requires g in gs && FindUser(users, g.key.0).Some? && FindUser(users, g.key.1).Some?
    ensures PairRow(g.key.0, FindUser(users, g.key.0).value.username,
                    g.key.1, FindUser(users, g.key.1).value.username, g.last) in JoinPairs(gs, users)
  {
    if gs[0] != g {
      assert g in gs[1..];
      JoinPairsHas(gs[1..], users, g);
    }
  }

  function PairTimeKey(row: PairRow): Key
  {
    Key(row.lastMessageTime, 0)
  }

  function PairOf(row: PairRow): (UserId, UserId)
  {
    (row.user1Id, row.user2Id)
  }

  lemma {:induction false} JoinPairsUnique(gs: seq<Group<(UserId, UserId)>>, users: seq<User>)
    requires UniqueKeys(gs)
    ensures UniqueBy(JoinPairs(gs, users), PairOf)
  {
    if gs != [] {
      JoinPairsUnique(gs[1..], users);
      var rest := JoinPairs(gs[1..], users);
      var r := JoinPairs(gs, users);
      forall j | 0 <= j < |rest| ensures PairOf(rest[j]) != gs[0].key {
        var g := JoinPairsFrom(gs[1..], users, rest[j]);
        var k :| 0 <= k < |gs[1..]| && gs[1..][k] == g;
        assert gs[k + 1] == g;
      }
      if FindUser(users, gs[0].key.0).Some? && FindUser(users, gs[0].key.1).Some? {
        assert r[1..] == rest;
      } else {
        assert r == rest;
      }
    }
  }

  /** Every conversation, newest first, before OFFSET and LIMIT. */
  function AllChatsOrdered(msgs: seq<Message>, users: seq<User>): seq<PairRow>
  {
    SortDesc(JoinPairs(GroupMax(Entries(msgs, AnyMessage(), PairKey)), users), PairTimeKey)
  }

  /** get_all_users_chats (app/chat/dao.py:131-150). */
  function AllUsersChats(msgs: seq<Message>, users: seq<User>, limit: nat, offset: nat): seq<PairRow>
  {
    Take(Drop(AllChatsOrdered(msgs, users), offset), limit)
  }

  /** A message and its reply fall into the same conversation. */
  lemma PairKeyIgnoresDirection(m1: Message, m2: Message)
    requires m1.senderId == m2.recipientId && m1.recipientId == m2.senderId
    ensures PairKey(m1) == PairKey(m2)
  {
    UnorderedPair(m1.senderId, m1.recipientId);
  }

  /** The moderator listing holds at most `limit` conversations, newest
      first, each unordered pair once. */
  lemma AllUsersChatsOrder(msgs: seq<Message>, users: seq<User>, limit: nat, offset: nat)
    ensures var r := AllUsersChats(msgs, users, limit, offset);
      && |r| <= limit
      && (forall i, j :: 0 <= i < j < |r| ==> r[j].lastMessageTime <= r[i].lastMessageTime)
      && (forall i, j :: 0 <= i < j < |r| ==> PairOf(r[i]) != PairOf(r[j]))
  {
    var entries := Entries(msgs, AnyMessage(), PairKey);
    var joined := JoinPairs(GroupMax(entries), users);
    var all := AllChatsOrdered(msgs, users);
    var r := AllUsersChats(msgs, users, limit, offset);
    GroupMaxCorrect(entries, ("", ""));
    JoinPairsUnique(GroupMax(entries), users);
    SortUnique(joined, PairTimeKey, PairOf);
    forall i, j | 0 <= i < j < |r|
      ensures r[j].lastMessageTime <= r[i].lastMessageTime
      ensures PairOf(r[i]) != PairOf(r[j])
    {
      assert r[i] == all[offset + i] && r[j] == all[offset + j];
      assert KeyLe(PairTimeKey(all[offset + j]), PairTimeKey(all[offset + i])) by {
        SortDescSorted(joined, PairTimeKey);
      }
    }
  }

  /** Each row names the pair smaller id first, with both usernames and the
      time of the pair's latest message. */
  lemma AllUsersChatsRows(msgs: seq<Message>, users: seq<User>, limit: nat, offset: nat, row: PairRow)
    requires row in AllUsersChats(msgs, users, limit, offset)
    ensures TextLe(row.user1Id, row.user2Id)
    ensures IsLastOfPair(msgs, row.user1Id, row.user2Id, row.lastMessageTime)
    ensures FindUser(users, row.user1Id).Some? && FindUser(users, row.user1Id).value.username == row.user1Username
    ensures FindUser(users, row.user2Id).Some? && FindUser(users, row.user2Id).value.username == row.user2Username
  {
    var gs := GroupMax(Entries(msgs, AnyMessage(), PairKey));
    var joined := JoinPairs(gs, users);
    var all := AllChatsOrdered(msgs, users);
    var r := AllUsersChats(msgs, users, limit, offset);
    var i :| 0 <= i < |r| && r[i] == row;
    assert all[offset + i] == row;
    SortedMembers(joined, PairTimeKey);
    var g := JoinPairsFrom(gs, users, row);
    GroupedIsLast(msgs, AnyMessage(), PairKey, g);
    var m :| m in msgs && PairKey(m) == g.key && m.createdAt == g.last;
    UnorderedPair(m.senderId, m.recipientId);
  }

  /** Every conversation whose two users both have a row is in the
      moderator's listing, smaller id first, with both usernames and the
      time of its latest message. */
  lemma AllChatsComplete(msgs: seq<Message>, users: seq<User>, a: UserId, b: UserId, t: Timestamp)
    requires IsLastOfPair(msgs, a, b, t)
    requires FindUser(users, a).Some? && FindUser(users, b).Some?
    ensures PairRow(a, FindUser(users, a).value.username, b, FindUser(users, b).value.username, t)
            in AllChatsOrdered(msgs, users)
  {
    var gs := GroupMax(Entries(msgs, AnyMessage(), PairKey));
    var joined := JoinPairs(gs, users);
    LastIsGrouped(msgs, AnyMessage(), PairKey, (a, b), t);
    JoinPairsHas(gs, users, Group((a, b), t));
    SortedMembers(joined, PairTimeKey);
  }

  /** No message is missing from the moderator's listing: when its sender
      and recipient both have a user row, some row names its pair and a time
      no earlier than it. */
  lemma AllChatsListsEveryMessage(msgs: seq<Message>, users: seq<User>, m: Message)
    requires m in msgs
    requires FindUser(users, m.senderId).Some? && FindUser(users, m.recipientId).Some?
    ensures exists row :: row in AllChatsOrdered(msgs, users) && PairOf(row) == PairKey(m)
                          && m.createdAt <= row.lastMessageTime
  {
    var entries := Entries(msgs, AnyMessage(), PairKey);
    var gs := GroupMax(entries);
    var k := PairKey(m);
    EntriesOf(msgs, AnyMessage(), PairKey, m);
    var i :| 0 <= i < |entries| && entries[i] == (k, m.createdAt);
    assert HasKey(entries, k) by {
      assert entries[i].0 == k;
    }
    GroupMaxCorrect(entries, k);
    FindSome(gs, k);
    var g :| g in gs && g.key == k;
    GroupedIsLast(msgs, AnyMessage(), PairKey, g);
    UnorderedPair(m.senderId, m.recipientId);
    assert k.0 in {m.senderId, m.recipientId} && k.1 in {m.senderId, m.recipientId};
    AllChatsComplete(msgs, users, k.0, k.1, g.last);
    var row := PairRow(k.0, FindUser(users, k.0).value.username, k.1, FindUser(users, k.1).value.username, g.last);
    assert row in AllChatsOrdered(msgs, users) && PairOf(row) == k;
  }

  /** Offset pagination: the page at `offset` followed by the page at
      `offset + limit` is the page of twice the size at `offset`. */
  lemma AllUsersChatsPagesAdjacent(msgs: seq<Message>, users: seq<User>, limit: nat, offset: nat)
    ensures AllUsersChats(msgs, users, limit, offset) + AllUsersChats(msgs, users, limit, offset + limit)
         == AllUsersChats(msgs, users, 2 * limit, offset)
  {
    var all := AllChatsOrdered(msgs, users);
    TakeDropTake(Drop(all, offset), limit, limit);
    DropDrop(all, offset, limit);
  }
}

/** The WebSocket connection registry of app/chat/websocket.py: one live
    socket per user id, and the payloads pushed through it. Every
    observable effect (a delivered payload, a closed socket, a log line) is
    appended to an event trace, so that which sockets are addressed, and in
    what order, can be stated exactly. */
module Websocket {
  import opened Common
  import opened Exceptions

  /** A client connection. Whether its `send_json` or `close` raises, and
      with what, is fixed by the peer: a broken connection stays broken. */
  class Socket {
    const sendFailure: Option<Fault>
    const closeFailure: Option<Fault>

    constructor (sendFailure: Option<Fault>, closeFailure: Option<Fault>)
      ensures this.sendFailure == sendFailure && this.closeFailure == closeFailure
    {
      this.sendFailure := sendFailure;
      this.closeFailure := closeFailure;
    }
  }

  /** The two JSON payloads, by their `type` field. Times are kept as
      timestamps; their `str` rendering is not modelled. */
  datatype Payload =
    | NewMessage(senderId: UserId, recipientId: UserId, messageText: string, createdAt: Timestamp)
    | ChatListUpdate(partnerId: UserId, lastMessageTime: Timestamp)

  datatype Level = Info | Error

  datatype Event =
    | Delivered(to: Socket, payload: Payload)
    | Closed(socket: Socket)
    | Logged(level: Level, text: string)

  /** The registry's whole state as a value. */
  datatype Registry = Registry(connections: map<UserId, Socket>, events: seq<Event>)

  /** The incoming message a new-message notice is built from. */
  datatype IncomingMessage = IncomingMessage(recipientId: UserId, messageText: string, createdAt: Timestamp)

  const CLOSE_ERROR_MESSAGE := "Cannot close websocket connection"

  /** A line logged through ConnectionManager's `_log_error`. */
  function ErrorLine(f: Fault, message: string): Event
  {
    Logged(Error, LogMessage(CONNECTION_MANAGER_HANDLER, f, message).value)
  }

  function SendErrorMessage(recipientId: UserId, f: Fault): string
  {
    "Cannot sending a message to the user " + recipientId + ": " + f.text
  }

  function NotFoundLine(recipientId: UserId): Event
  {
    Logged(Info, "Connection to user " + recipientId + " not found")
  }

  // ---------------------------------------------------------------------
  // The operations on the value state
  // ---------------------------------------------------------------------

  function ConnectStep(s: Registry, ws: Socket, userId: UserId): Registry
  {
    s.(connections := s.connections[userId := ws])
  }

  /** What awaiting `close()` adds to the trace. */
  function CloseEvents(ws: Socket): seq<Event>
  {
    if ws.closeFailure.None? then [Closed(ws)] else [ErrorLine(ws.closeFailure.value, CLOSE_ERROR_MESSAGE)]
  }

  function DisconnectStep(s: Registry, userId: UserId): Registry
  {
    if userId in s.connections then
      Registry(s.connections - {userId}, s.events + CloseEvents(s.connections[userId]))
    else s
  }

  function SendStep(s: Registry, message: Payload, recipientId: UserId): Registry
  {
    if recipientId !in s.connections then
      s.(events := s.events + [NotFoundLine(recipientId)])
    else
      var ws := s.connections[recipientId];
      if ws.sendFailure.None? then
        s.(events := s.events + [Delivered(ws, message)])
      else
        var d := DisconnectStep(s, recipientId);
        var f := ws.sendFailure.value;
        d.(events := d.events + [ErrorLine(f, SendErrorMessage(recipientId, f))])
  }

  function NewMessagePayload(message: IncomingMessage, senderId: UserId): Payload
  {
    NewMessage(senderId, message.recipientId, message.messageText, message.createdAt)
  }

  function NotifyNewMessageStep(s: Registry, message: IncomingMessage, senderId: UserId): Registry
  {
    SendStep(s, NewMessagePayload(message, senderId), message.recipientId)
  }

  /** notify_chat_list_update as written: the same payload, naming
      `partnerId`, to the current user and then to the partner. */
  function ChatListUpdateAsWritten(s: Registry, currentUserId: UserId, partnerId: UserId, t: Timestamp): Registry
  {
    var payload := ChatListUpdate(partnerId, t);
    SendStep(SendStep(s, payload, currentUserId), payload, partnerId)
  }

  /** notify_chat_list_update as intended: each side is told the id of the
      other side, the current user first. */
  function ChatListUpdateStep(s: Registry, currentUserId: UserId, partnerId: UserId, t: Timestamp): Registry
  {
    SendStep(SendStep(s, ChatListUpdate(partnerId, t), currentUserId), ChatListUpdate(currentUserId, t), partnerId)
  }

  // ---------------------------------------------------------------------
  // Properties
  // ---------------------------------------------------------------------

  /** The payloads a trace delivered, with the socket each went to. */
  function Deliveries(es: seq<Event>): seq<(Socket, Payload)>
  {
    if es == [] then []
    else (if es[0].Delivered? then [(es[0].to, es[0].payload)] else []) + Deliveries(es[1..])
  }

  lemma {:induction false} DeliveriesAppend(a: seq<Event>, b: seq<Event>)
    ensures Deliveries(a + b) == Deliveries(a) + Deliveries(b)
  {
    if a != [] {
      assert (a + b)[1..] == a[1..] + b;
      DeliveriesAppend(a[1..], b);
    } else {
      assert a + b == b;
    }
  }

  /** Only the entries for users other than `u` are kept from `m`. */
  ghost predicate SameExcept(m: map<UserId, Socket>, m': map<UserId, Socket>, u: UserId)
  {
    forall v :: v != u ==> (v in m' <==> v in m) && (v in m' ==> m'[v] == m[v])
  }

  /** Connecting stores the socket under the user, keeps every other entry,
      and drops a previous socket of the same user without closing it. */
  lemma ConnectReplaces(s: Registry, ws: Socket, userId: UserId)
    ensures var s' := ConnectStep(s, ws, userId);
      && userId in s'.connections && s'.connections[userId] == ws
      && SameExcept(s.connections, s'.connections, userId)
      && s'.events == s.events
  {
  }

  /** Disconnecting removes the entry whether or not closing raises; the
      popped socket is closed, or the close error is logged, and a user
      with no entry leaves the registry as it was. */
  lemma DisconnectRemoves(s: Registry, userId: UserId)
    ensures var s' := DisconnectStep(s, userId);
      && userId !in s'.connections
      && SameExcept(s.connections, s'.connections, userId)
      && (userId !in s.connections ==> s' == s)
      && (userId in s.connections ==>
            var ws := s.connections[userId];
            && (ws.closeFailure.None? ==> s'.events == s.events + [Closed(ws)])
            && (ws.closeFailure.Some? ==> |s'.events| == |s.events| + 1 && s'.events[|s.events|].level == Error))
      && Deliveries(s'.events) == Deliveries(s.events)
  {
    var s' := DisconnectStep(s, userId);
    if userId in s.connections {
      DeliveriesAppend(s.events, CloseEvents(s.connections[userId]));
    }
  }

  /** Sending to a user with no entry sends nothing and changes no entry;
      a send that goes through reaches exactly the recipient's current
      socket and changes no entry; a send that raises evicts the recipient
      and nobody else, and delivers nothing. The error never reaches the
      caller: every case ends in a state. */
  lemma SendOutcome(s: Registry, message: Payload, recipientId: UserId)
    ensures var s' := SendStep(s, message, recipientId);
      && (recipientId !in s.connections ==>
            s'.connections == s.connections && s'.events == s.events + [NotFoundLine(recipientId)]
            && Deliveries(s'.events) == Deliveries(s.events))
      && (recipientId in s.connections && s.connections[recipientId].sendFailure.None? ==>
            s'.connections == s.connections
            && Deliveries(s'.events) == Deliveries(s.events) + [(s.connections[recipientId], message)])
      && (recipientId in s.connections && s.connections[recipientId].sendFailure.Some? ==>
            s'.connections == s.connections - {recipientId}
            && Deliveries(s'.events) == Deliveries(s.events))
      && SameExcept(s.connections, s'.connections, recipientId)
  {
    var s' := SendStep(s, message, recipientId);
    if recipientId in s.connections {
      var ws := s.connections[recipientId];
      if ws.sendFailure.None? {
        DeliveriesAppend(s.events, [Delivered(ws, message)]);
      } else {
        var d := DisconnectStep(s, recipientId);
        DisconnectRemoves(s, recipientId);
        DeliveriesAppend(d.events, [ErrorLine(ws.sendFailure.value, SendErrorMessage(recipientId, ws.sendFailure.value))]);
      }
    } else {
      DeliveriesAppend(s.events, [NotFoundLine(recipientId)]);
    }
  }

  /** The payloads one send delivers: one to the recipient's socket when it
      has one that accepts it, none otherwise. */
  function SendDeliveries(c: map<UserId, Socket>, message: Payload, recipientId: UserId): seq<(Socket, Payload)>
  {
    if recipientId in c && c[recipientId].sendFailure.None? then [(c[recipientId], message)] else []
  }

  /** The entries left after one send. */
  function AfterSend(c: map<UserId, Socket>, recipientId: UserId): map<UserId, Socket>
  {
    if recipientId in c && c[recipientId].sendFailure.Some? then c - {recipientId} else c
  }

  lemma SendDeliversAtMostOne(s: Registry, message: Payload, recipientId: UserId)
    ensures var s' := SendStep(s, message, recipientId);
      && s'.connections == AfterSend(s.connections, recipientId)
      && Deliveries(s'.events) == Deliveries(s.events) + SendDeliveries(s.connections, message, recipientId)
  {
    SendOutcome(s, message, recipientId);
  }

  /** The new-message notice goes to the message's recipient only, as a
      `new_message` payload carrying the sender, the recipient, the text and
      the creation time. */
  lemma NotifyNewMessageTarget(s: Registry, message: IncomingMessage, senderId: UserId)
    ensures var s' := NotifyNewMessageStep(s, message, senderId);
      var p := NewMessage(senderId, message.recipientId, message.messageText, message.createdAt);
      && Deliveries(s'.events) == Deliveries(s.events) + SendDeliveries(s.connections, p, message.recipientId)
      && s'.connections == AfterSend(s.connections, message.recipientId)
  {
    SendDeliversAtMostOne(s, NewMessagePayload(message, senderId), message.recipientId);
  }

  /** As written, the chat-list update sends one payload twice: first to
      the current user, then, whether or not that failed, to the partner;
      both copies name the partner. */
  lemma ChatListUpdateAsWrittenFanOut(s: Registry, currentUserId: UserId, partnerId: UserId, t: Timestamp)
    ensures var s' := ChatListUpdateAsWritten(s, currentUserId, partnerId, t);
      var p := ChatListUpdate(partnerId, t);
      var c1 := AfterSend(s.connections, currentUserId);
      && Deliveries(s'.events) == Deliveries(s.events) + SendDeliveries(s.connections, p, currentUserId) + SendDeliveries(c1, p, partnerId)
      && s'.connections == AfterSend(c1, partnerId)
  {
    var p := ChatListUpdate(partnerId, t);
    var s1 := SendStep(s, p, currentUserId);
    SendDeliversAtMostOne(s, p, currentUserId);
    SendDeliversAtMostOne(s1, p, partnerId);
  }

  /** Where both users are connected on working sockets, the partner's copy
      of the update names the partner itself rather than the user who
      wrote. */
  lemma AsWrittenPartnerSeesOwnId(s: Registry, currentUserId: UserId, partnerId: UserId, t: Timestamp)
    requires currentUserId != partnerId
    requires currentUserId in s.connections && s.connections[currentUserId].sendFailure.None?
    requires partnerId in s.connections && s.connections[partnerId].sendFailure.None?
    ensures var d := Deliveries(ChatListUpdateAsWritten(s, currentUserId, partnerId, t).events);
      && |d| >= 1
      && d[|d| - 1] == (s.connections[partnerId], ChatListUpdate(partnerId, t))
  {
    ChatListUpdateAsWrittenFanOut(s, currentUserId, partnerId, t);
  }

  /** The intended update: the current user is told about the partner and
      then, whether or not that failed, the partner is told about the
      current user. */
  lemma ChatListUpdateFanOut(s: Registry, currentUserId: UserId, partnerId: UserId, t: Timestamp)
    ensures var s' := ChatListUpdateStep(s, currentUserId, partnerId, t);
      var c1 := AfterSend(s.connections, currentUserId);
      && Deliveries(s'.events) == Deliveries(s.events)
           + SendDeliveries(s.connections, ChatListUpdate(partnerId, t), currentUserId)
           + SendDeliveries(c1, ChatListUpdate(currentUserId, t), partnerId)
      && s'.connections == AfterSend(c1, partnerId)
  {
    var s1 := SendStep(s, ChatListUpdate(partnerId, t), currentUserId);
    SendDeliversAtMostOne(s, ChatListUpdate(partnerId, t), currentUserId);
    SendDeliversAtMostOne(s1, ChatListUpdate(currentUserId, t), partnerId);
  }

  /** A failure on the first send does not stop the second: with a broken
      socket for the current user and a working one for the partner, the
      partner still gets an update and the current user is evicted. As
      written the partner's update names the partner; corrected, it names
      the current user. */
  lemma FirstFailureDoesNotStopSecond(s: Registry, currentUserId: UserId, partnerId: UserId, t: Timestamp)
    requires currentUserId != partnerId
    requires currentUserId in s.connections && s.connections[currentUserId].sendFailure.Some?
    requires partnerId in s.connections && s.connections[partnerId].sendFailure.None?
    ensures var s' := ChatListUpdateAsWritten(s, currentUserId, partnerId, t);
      && Deliveries(s'.events) == Deliveries(s.events) + [(s.connections[partnerId], ChatListUpdate(partnerId, t))]
      && currentUserId !in s'.connections && partnerId in s'.connections
    ensures var s' := ChatListUpdateStep(s, currentUserId, partnerId, t);
      && Deliveries(s'.events) == Deliveries(s.events) + [(s.connections[partnerId], ChatListUpdate(currentUserId, t))]
      && currentUserId !in s'.connections && partnerId in s'.connections
  {
    ChatListUpdateAsWrittenFanOut(s, currentUserId, partnerId, t);
    ChatListUpdateFanOut(s, currentUserId, partnerId, t);
  }

  // ---------------------------------------------------------------------
  // The registry object
  // ---------------------------------------------------------------------

  class ConnectionManager {
    var activeConnections: map<UserId, Socket>
    /** Everything the registry has done so far, oldest first. */
    var events: seq<Event>

    function State(): Registry
      reads this
    {
      Registry(activeConnections, events)
    }

    constructor ()
      ensures activeConnections == map[] && events == []
    {
      activeConnections := map[];
      events := [];
    }

    method Connect(ws: Socket, userId: UserId)
      modifies this
      ensures State() == ConnectStep(old(State()), ws, userId)
    {
      activeConnections := activeConnections[userId := ws];
    }

    /** Pops the entry first and only then closes the popped socket. */
    method Disconnect(userId: UserId)
      modifies this
      ensures State() == DisconnectStep(old(State()), userId)
    {
      if userId in activeConnections {
        var ws := activeConnections[userId];
        activeConnections := activeConnections - {userId};
        if ws.closeFailure.None? {
          events := events + [Closed(ws)];
        } else {
          events := events + [ErrorLine(ws.closeFailure.value, CLOSE_ERROR_MESSAGE)];
        }
      }
    }

    method SendPersonalMessage(message: Payload, recipientId: UserId)
      modifies this
      ensures State() == SendStep(old(State()), message, recipientId)
    {
      if recipientId in activeConnections {
        var ws := activeConnections[recipientId];
        if ws.sendFailure.None? {
          events := events + [Delivered(ws, message)];
        } else {
          Disconnect(recipientId);
          var f := ws.sendFailure.value;
          events := events + [ErrorLine(f, SendErrorMessage(recipientId, f))];
        }
      } else {
        events := events + [NotFoundLine(recipientId)];
      }
    }

    method NotifyUserAboutNewMessage(message: IncomingMessage, senderId: UserId)
      modifies this
      ensures State() == NotifyNewMessageStep(old(State()), message, senderId)
    {
      var payload := NewMessage(senderId, message.recipientId, message.messageText, message.createdAt);
      SendPersonalMessage(payload, message.recipientId);
    }

    method NotifyChatListUpdate(currentUserId: UserId, partnerId: UserId, lastMessageTime: Timestamp)
      modifies this
      ensures State() == ChatListUpdateAsWritten(old(State()), currentUserId, partnerId, lastMessageTime)
    {
      var payload := ChatListUpdate(partnerId, lastMessageTime);
      SendPersonalMessage(payload, currentUserId);
      SendPersonalMessage(payload, partnerId);
    }
  }
}

# Direct-messaging back end: registry, paginated queries and auth decisions

This project models the core of a FastAPI direct-messaging back end in Dafny
and proves properties of the model. The core has five parts:

- the WebSocket connection registry (`ConnectionManager`) and its notification
  fan-out;
- the three message queries: a user's chat list, the history between two users
  and the moderator's list of all conversations;
- the chat service that validates requests, shapes query rows into responses
  and stores a message before notifying;
- the authentication layer: token claims, token-type and user validation,
  login, refresh-token rotation, the request dependencies, registration and
  blocking;
- the error table (status and detail per exception) and the composition of log
  messages.

The database is the class `Store.Database`. It holds three tables as sequences
(users, blocked users, messages) and checks the table constraints on insert.
Queries are functions over those sequences. `ORDER BY … DESC` is a stable sort,
so rows with equal keys keep table order. The database promises no order among
equal keys; the members that depend on this choice are listed under Left out. Timestamps are integers in seconds,
and `now` is a parameter. Signing and verifying JWTs and hashing passwords are
foreign code; they are function parameters: `sign`, `verify` (which gives the
claims, `Expired` or `Invalid`), `hash` and `checkPassword`. A new user's
UUID is the `newId` parameter.

Python truthiness is written out where the code relies on it:
- the history cursor applies only when both parts are present and the message
  id is not 0;
- a `sub` claim that is missing, empty or the number 0 counts as absent;
- an expiry `timedelta` of zero falls back to the minutes.

`scalar_one_or_none` is `Common.OneOrNone`, which gives no row, one row, or a
separate many-rows outcome. The many-rows outcome becomes the internal error
`MultipleResultsFound`.

Modules, one per source file or shared concept:
- `Common`, `Ordering`, `Grouping`: shared types and SQL building blocks;
- `Models`: table rows and their constraints;
- `Store`: the database class;
- `MessageDao`: app/chat/dao.py;
- `AuthDao`: app/auth/dao.py;
- `Exceptions`: app/core/exceptions.py;
- `Websocket`: app/chat/websocket.py;
- `ChatService`: app/chat/services.py;
- `AuthUtils`: app/auth/auth_utilits.py;
- `Dependencies`: app/auth/dependencies.py;
- `AuthService`: app/auth/services.py.

The operations follow the code as written, including the three defects listed
under Findings. Beside each defect stands a corrected definition. Rows below
whose statement begins with "corrected" are about that corrected definition.

## Model

| member | source | states |
|---|---|---|
| Common.OneOrNone | app/core/dao.py:27-32 | `scalar_one_or_none`: no row exactly for an empty result, the single row for a one-row result, and a separate many-rows outcome otherwise |
| Common.UnorderedPair | app/chat/dao.py:132-133 | `(least(a, b), greatest(a, b))` does not depend on argument order, is the set {a, b}, and puts the smaller id first |
| Ordering.SortDesc | app/chat/dao.py:69-71 | `ORDER BY … DESC` returns a permutation of its input |
| Ordering.SortDescSorted | app/chat/dao.py:69-71 | the result of `ORDER BY … DESC` is in non-increasing key order |
| Ordering.Take | app/chat/dao.py:71 | `LIMIT n` is a prefix of at most n rows, and all rows when there are fewer |
| Ordering.Drop | app/auth/dao.py:54 | `OFFSET n` is the rows from position n on |
| Ordering.SortFilter | app/chat/dao.py:64-71 | a `WHERE` added before `ORDER BY` selects the same rows, in the same order, as filtering the ordered result |
| Ordering.TakeDropTake | app/auth/dao.py:54 | a page of n rows followed by the m rows after it is the page of n + m rows |
| Grouping.GroupMaxCorrect | app/chat/dao.py:42-54 | `GROUP BY` key with `max(created_at)`: one group per key, a group exactly for keys that occur, holding the largest time of that key |
| Models.FindUser | app/core/dao.py:20-25 | `find_by_id` finds a row with that id, or there is none |
| Models.FindUserUnique | app/core/dao.py:20-25 | because `id` is the primary key, the lookup by a user's id finds that very user |
| MessageDao.GroupedIsLast | app/chat/dao.py:42-54 | each chat-list group holds the latest time of a message between the user and that partner |
| MessageDao.LastIsGrouped | app/chat/dao.py:42-54 | every partner the user has exchanged a message with has a group holding the latest time |
| MessageDao.ChatsOfUserOrder | app/chat/dao.py:56-71 | the chat list has at most `limit` rows, newest chat first, with each partner at most once |
| MessageDao.ChatsOfUserRows | app/chat/dao.py:42-67 | each row is a partner of the user (the recipient when the user sent the message, otherwise the sender), with that partner's latest time and username; with a cursor the time is strictly below it |
| MessageDao.ChatsOfUserComplete | app/chat/dao.py:56-71 | on a page shorter than the limit nothing is missing: every partner with a user row whose latest time passes the cursor is listed |
| MessageDao.ChatsOfUserTop | app/chat/dao.py:69-71 | a chat that passes the cursor but is left off the page means the page is full and that chat is no newer than the page's last row, so a full page holds the newest `limit` chats |
| MessageDao.ChatsNextPageDisjoint | app/chat/dao.py:64-71 | the page asked for with the last row's time as cursor is strictly older than the first page and shares no partner with it |
| MessageDao.ChatsCursorSkipsTies | app/chat/dao.py:64-67 | a partner whose latest time equals the cursor never appears on the page for that cursor |
| MessageDao.HistoryCandidate | app/chat/dao.py:91-113 | a message is a history candidate exactly when it is between the two users, in either direction, and (when the cursor applies) before `(cursor_time, cursor_message_id)` |
| MessageDao.MessagesBetweenOrder | app/chat/dao.py:115-117 | a history page, as written (ordered by `created_at` only) and corrected alike, has at most `limit` messages in non-increasing `created_at` order |
| MessageDao.MessagesBetweenRows | app/chat/dao.py:91-113 | every message of a page, as written or corrected, is between the two users and, when the cursor applies, before it |
| MessageDao.MessagesBetweenComplete | app/chat/dao.py:86-117 | below a full page, as written or corrected, no message of the pair that passes the cursor is missing |
| MessageDao.FullHistoryUnique | app/chat/models.py:16 | within one conversation no two messages share `(created_at, id)` |
| MessageDao.HistoryResume | app/chat/dao.py:104-117 | corrected: with the `(created_at, id)` of the k-th message as cursor, the page is the `limit` messages right after it |
| MessageDao.HistoryTwoPages | app/chat/dao.py:104-117 | corrected: a page followed by the page its last row points to is a prefix of the conversation, and the two share no message |
| MessageDao.AsWrittenAgreesOnDistinctTimes | app/chat/dao.py:115-117 | when no two messages of the pair share a time, ordering by `created_at` alone gives the same pages as ordering by `(created_at, id)` |
| MessageDao.AsWrittenLosesTiedMessage | app/chat/dao.py:104-117 | as written, two messages at the same time with a page size of 1: the second page is empty and one message is never shown |
| MessageDao.TiedMessagesBothShown | app/chat/dao.py:104-117 | with `(created_at, id)` ordering the same two messages appear on two consecutive pages |
| MessageDao.PairKeyIgnoresDirection | app/chat/dao.py:131-135 | a message and its reply fall into the same `(least, greatest)` conversation |
| MessageDao.AllUsersChatsOrder | app/chat/dao.py:131-150 | the moderator listing has at most `limit` rows, newest first, with each unordered pair once |
| MessageDao.AllUsersChatsRows | app/chat/dao.py:131-147 | each row names the pair smaller id first, with both usernames and the time of the pair's latest message |
| MessageDao.AllChatsComplete | app/chat/dao.py:131-147 | every conversation whose two users have a row is listed, smaller id first, with both usernames and the time of its latest message |
| MessageDao.AllChatsListsEveryMessage | app/chat/dao.py:131-147 | for every message whose sender and recipient have a row, some listed conversation names its pair with a time no earlier than the message |
| MessageDao.AllUsersChatsPagesAdjacent | app/chat/dao.py:148-150 | the page at `offset` followed by the page at `offset + limit` is the page of twice the size at `offset` |
| Exceptions.StatusCode | app/core/exceptions.py:22-140 | 409 exactly for taken email or username; 400 for password mismatch, already blocked, same user, message to oneself, one id not found; 401 for the credential and token errors; 403 for blocked and not moderator; 404 for no users and empty search; 500 for the base class |
| Exceptions.ResponseIdentifiesError | app/core/exceptions.py:8-140 | every error's (status, detail) pair reads back as that error, including the parameters of the two errors with computed details |
| Exceptions.DistinctResponses | app/core/exceptions.py:8-140 | two different errors never answer with the same status and detail |
| Exceptions.UnauthorizedIdentified | app/core/exceptions.py:40-82 | each 401 error is recovered from its detail |
| Exceptions.BadRequestIdentified | app/core/exceptions.py:106-116 | each 400 error is recovered from its detail; `OneUserIdNotFound` carries the id as `not_found_id` |
| Exceptions.TokenTypeMessageRoundTrip | app/core/exceptions.py:79-82 | the detail `Invalid token type {x!r}, expected {y!r}.` gives back both x and y |
| Exceptions.StrReprRoundTrip | app/core/exceptions.py:81 | Python's `repr` of a text reads back as that text, whichever quote it picks |
| Exceptions.ClaimReprRoundTrip | app/core/exceptions.py:81 | the `repr` of a claim (None, text or number) reads back as that claim |
| Exceptions.ManagerLogMessage | app/core/exceptions.py:161-167 | the registry's log line is "Websocket Error" for a WebSocketException, otherwise "Unknown Error", followed by ": " and the message |
| Exceptions.LogMessageInjective | app/core/exceptions.py:161-167 | a log line determines both the kind of failure and the message |
| Exceptions.BaseHandlerRaises | app/core/exceptions.py:146-167 | the base `ErrorHandler`, whose `_type_error` is None, cannot log: the `isinstance` check raises |
| Store.Clashes | app/auth/models.py:14-18 | an insert clashes exactly when some row holds the same id, username or email |
| Store.SetRefreshToken | app/auth/dao.py:15-21 | only the row with that id changes, and only its refresh token |
| Store.SetRefreshTokenEffect | app/auth/dao.py:15-21 | after the update the table constraints still hold, lookups of other ids are unchanged, and the user's row differs only in its token |
| Store.Database.InsertMessage | app/core/dao.py:9-18 | a text over 4096 characters fails first; then a missing sender or recipient fails with an integrity error; otherwise the row is appended with the next id and `now` and returned |
| Store.Database.InsertUser | app/core/dao.py:9-18 | an over-long username or email fails first; then a taken id, username or email fails with an integrity error; otherwise a user with no token and no moderator flag is appended |
| Store.Database.InsertBlock | app/core/dao.py:9-18 | an over-long reason fails first; then a missing user or moderator fails with an integrity error; otherwise the block is appended with the next id |
| Store.Database.UpdateRefreshToken | app/auth/dao.py:15-21 | sets the token of the user with that id; with no such user, setting an attribute on None raises |
| AuthDao.FindUsersForChat | app/auth/dao.py:37-47 | the rows are exactly the users whose id is one of the two ids |
| AuthDao.ForChatCount | app/auth/dao.py:37-47 | one row per existing id, and one row only when the two ids are equal, so at most two |
| AuthDao.PatternIsInfix | app/auth/dao.py:53 | for a query with no `%`, `_` or backslash, `%q%` matches exactly the texts containing q |
| AuthDao.FindByUsernamePage | app/auth/dao.py:50-57 | a page has at most `limit` users, is the run of matches starting after `offset`, and each username contains the query ignoring case (query free of LIKE wildcards) |
| AuthDao.UnderscoreMatchesEveryone | app/auth/dao.py:53 | `_` is a wildcard: searching for "_" matches every non-empty username |
| AuthDao.EmailOrUsernameLookup | app/auth/dao.py:24-34 | no row exactly when nobody holds the email or the username; one row is such a user; several rows means one user holds the email and another the username |
| AuthDao.FindBlockOf | app/auth/auth_utilits.py:147 | the block lookup by user finds nothing exactly when the user has no block row, and a single row is that user's |
| AuthDao.AnyBlock | app/auth/auth_utilits.py:189 | the unfiltered block lookup finds nothing only for an empty table and one row only when the table has exactly one |
| Websocket.ConnectReplaces | app/chat/websocket.py:46-48 | connect stores the socket for the user, keeps every other entry, and drops an older socket of that user without closing it |
| Websocket.DisconnectRemoves | app/chat/websocket.py:60-68 | disconnect removes the entry whether or not closing raises; the popped socket is closed or the close error logged; no entry means no change |
| Websocket.SendOutcome | app/chat/websocket.py:79-93 | no entry: nothing sent, map unchanged, info logged; working socket: delivered to the stored socket only, map unchanged; failing socket: the recipient alone is evicted, nothing delivered, and the error does not reach the caller |
| Websocket.SendDeliversAtMostOne | app/chat/websocket.py:79-93 | a send delivers at most one payload, to the recipient's stored socket |
| Websocket.NotifyNewMessageTarget | app/chat/websocket.py:106-116 | one `new_message` payload with sender, recipient, text and time is addressed to the recipient only |
| Websocket.ChatListUpdateAsWrittenFanOut | app/chat/websocket.py:130-140 | as written, one payload naming the partner goes to the current user and then to the partner |
| Websocket.AsWrittenPartnerSeesOwnId | app/chat/websocket.py:130-140 | as written, the partner's copy of the update names the partner itself |
| Websocket.ChatListUpdateFanOut | app/chat/websocket.py:130-140 | corrected: the current user is told about the partner, then the partner about the current user, each as a send of its own |
| Websocket.FirstFailureDoesNotStopSecond | app/chat/websocket.py:137-140 | a failed first send evicts the current user and the partner is still notified: as written with the payload naming the partner, corrected with one naming the current user |
| Websocket.ConnectionManager.constructor | app/chat/websocket.py:31-36 | the registry starts empty |
| Websocket.ConnectionManager.Connect | app/chat/websocket.py:46-51 | the new registry state is the connect step of the old one |
| Websocket.ConnectionManager.Disconnect | app/chat/websocket.py:60-68 | the new registry state is the disconnect step of the old one |
| Websocket.ConnectionManager.SendPersonalMessage | app/chat/websocket.py:79-93 | the new registry state is the send step of the old one |
| Websocket.ConnectionManager.NotifyUserAboutNewMessage | app/chat/websocket.py:106-116 | the new state is one send of the `new_message` payload to the recipient |
| Websocket.ConnectionManager.NotifyChatListUpdate | app/chat/websocket.py:130-140 | the new state is the as-written chat-list update: one payload naming the partner, sent to the current user and then to the partner (see Findings) |
| ChatService.ChatListCursor | app/chat/services.py:18-29 | the returned cursor is absent exactly for an empty page; otherwise it is the time of the page's last chat, which is no later than any chat shown |
| ChatService.ChatListNextPage | app/chat/services.py:18-28 | handing the cursor back yields chats strictly older than every chat shown, with no partner repeated |
| ChatService.HistoryChecks | app/chat/services.py:40-46 | whatever page the query returns: same ids fail before any lookup; then neither user found; then one found, and the error carries the id that was found; a page is returned exactly when both exist |
| ChatService.HistoryShape | app/chat/services.py:48-71 | over the query as written: participants are user 1 (current unless a moderator reads) then user 2; each message of the page keeps its fields and gets its sender's username; the cursor is the last message's `(created_at, id)`, absent only for an empty page |
| ChatService.AsWrittenServiceAgrees | app/chat/services.py:48 | when no two messages of the pair share a time, the service as written answers exactly as the corrected one |
| ChatService.HistoryNextPageAsWritten | app/chat/services.py:48-71 | as written, when no two messages of the pair share a time, the first page is the newest `limit` messages and its cursor gives the messages right after them |
| ChatService.HistoryServiceFirstPage | app/chat/services.py:40-71 | corrected: a successful first request is for two different existing users; its messages are the conversation's newest `limit`, shaped; its cursor is the last one shown |
| ChatService.HistoryServiceResume | app/chat/services.py:40-71 | corrected: for two different existing users, the request whose cursor is the k-th message of the conversation succeeds and shows the `limit` messages right after it |
| ChatService.HistoryNextPage | app/chat/services.py:48-71 | corrected: the first page is the newest messages, and asking again with its cursor gives the messages right after them |
| ChatService.AddMessage | app/chat/services.py:75-95 | a message to oneself fails with nothing stored or sent; an over-long text fails; an unknown user becomes `OneUserIdNotFound(recipient)`; otherwise the message is stored with the next id and only then the recipient is notified, followed by the as-written chat-list update |
| ChatService.SearchAnswer | app/chat/services.py:98-118 | the search fails with `UserSearchNotFound` exactly when no match lies at or after `offset` or `limit` is 0; otherwise it returns the matches from position `offset` on (`limit` of them or all that remain) as ids and usernames, `new_offset = offset + limit`, and `is_end` exactly when fewer than `limit` matches remain |
| ChatService.SearchNextPage | app/auth/dao.py:50-57 | the page at `offset + limit` continues the page at `offset`, and is empty when that page was short |
| ChatService.SearchPagination | app/chat/services.py:98-118 | when a page says `is_end`, the request at its `new_offset` fails with `UserSearchNotFound`; the page at `new_offset` continues right after this one |
| ChatService.SearchFullLastPage | app/chat/services.py:115 | whenever the matches end exactly on a full page, `is_end` is false and the next request fails with "Users not found." |
| ChatService.AllChatsPagination | app/chat/services.py:121-149 | an empty page is an answer whose new offset stays put; a non-empty one moves it by `limit`; `is_end` iff fewer than `limit` rows; pages continue one another |
| AuthUtils.JwtPayloadMerge | app/auth/auth_utilits.py:102-103 | the payload has every key of `token_data` with its value plus `type`, and a `type` in `token_data` wins |
| AuthUtils.EncodeClaimsTimes | app/auth/auth_utilits.py:57-65 | encoding adds `iat = now` and `exp` = now plus the timedelta when it is given and non-zero, otherwise now plus the minutes; other claims are kept |
| AuthUtils.TokenClaims | app/auth/auth_utilits.py:110-123 | an access token's claims are type "access", `sub` the user id, and 15 minutes of life; a refresh token's are type "refresh" and 30 days |
| AuthUtils.TokenTypeCheck | app/auth/auth_utilits.py:168-175 | the check fails exactly when `type` is not the expected text; the mode decides only the failure kind, and the WebSocket reason is the HTTP detail |
| AuthUtils.ValidateUserOrder | app/auth/auth_utilits.py:134-155 | the checks run in order (sub present, user exists, not blocked); the user is returned exactly when all pass, and it is the user named by `sub` |
| AuthUtils.FindByEmailUnique | app/auth/auth_utilits.py:186 | since email is unique, the login lookup never finds two rows |
| AuthUtils.AuthenticationOutcome | app/auth/auth_utilits.py:186-191 | corrected: a wrong password gives None; a right password of an unblocked user gives the user; a right password of a blocked user fails |
| AuthUtils.AuthenticationAsWrittenOutcome | app/auth/auth_utilits.py:186-191 | as written: a wrong password gives None; a right password gives the user while the blocked-users table is empty, `UserIsBlocked` when it has one row, and a server error with more |
| AuthUtils.UnknownEmail | app/auth/auth_utilits.py:186-188 | an unknown email gives None, as written and corrected |
| AuthUtils.AsWrittenBlocksEveryone | app/auth/auth_utilits.py:189-190 | as written, one block row of another user refuses a correct login, and two rows turn it into a server error |
| AuthUtils.RefreshOutcome | app/auth/auth_utilits.py:201-225 | expired and malformed tokens map to their errors; the type is checked before the user; refresh passes exactly for a valid refresh token of a present, unblocked user that equals the stored token |
| AuthUtils.OldRefreshTokenRefused | app/auth/auth_utilits.py:208-216 | after rotation the token just used is refused with `TokensDoesNotMatch` |
| AuthUtils.Refresh | app/auth/auth_utilits.py:195-225 | on success, returns the new access and refresh tokens and stores the new refresh token for that user; on failure, stores nothing |
| Dependencies.Split | app/auth/dependencies.py:76 | `split(" ")` gives at least one part, and no part contains a space |
| Dependencies.SplitJoin | app/auth/dependencies.py:76 | joining the parts with spaces gives back the header |
| Dependencies.SplitHead | app/auth/dependencies.py:76 | part 0 is the text up to the first space |
| Dependencies.SplitSecond | app/auth/dependencies.py:76 | when the text has a space, part 1 exists and is the text from after the first space up to the next one |
| Dependencies.BearerTokenOf | app/auth/dependencies.py:76 | for `Bearer <rest>` the token is `rest` up to its first space: all of it when it has none, and "" for "Bearer " |
| Dependencies.GetCurrentPayload | app/auth/dependencies.py:24-42 | a valid token gives its claims, an expired one `TokenExpired` and any other `IncorrectTokenFormat` |
| Dependencies.CurrentUserIsSubject | app/auth/dependencies.py:46-57 | the current user is returned exactly for a valid access token whose user validates, and is the user named by `sub`; a refresh token is refused for its type |
| Dependencies.ModeratorOutcome | app/auth/dependencies.py:97-107 | the user is returned exactly when it is a current user with the moderator flag; other current users get 403; earlier failures pass through |
| Dependencies.WebsocketAgreesWithHttp | app/auth/dependencies.py:61-93 | over a socket, `Bearer <t>` accepts exactly the users the HTTP dependency accepts for `t`, and failures are never HTTP errors |
| Dependencies.WebsocketTokenErrors | app/auth/dependencies.py:77-93 | an expired token closes with "The token has expired.", a malformed one with "Invalid token format.", a wrong type with the type message |
| Dependencies.WebsocketNeedsBearer | app/auth/dependencies.py:69-73 | a missing header, or one not starting with "Bearer ", closes with "Authorization token missing." |
| AuthService.RegisterCheckOutcome | app/auth/services.py:33-44 | registration passes exactly when neither email nor username is taken and the passwords agree; the email is checked first, then the username, then the passwords; email of one user plus username of another is a server error |
| AuthService.RegisterUser | app/auth/services.py:23-53 | after the checks, appends exactly one user with the email, the username, the hashed password, no token and no moderator flag, and returns the fixed detail; a failure adds nothing; the other tables and id counters are untouched |
| AuthService.RegisteredUserCanLogIn | app/auth/services.py:47-52 | a user who has just registered logs in with the same email and password: as written exactly while the blocked-users table is empty, corrected always |
| AuthService.JwtLoginUser | app/auth/services.py:56-78 | with the authentication as written: no user or a wrong password gives `IncorrectEmailOrPassword` and stores nothing; a failure of the check passes through; on success it returns the access and refresh tokens and stores the refresh token for that user; id counters are untouched |
| AuthService.LoginTokensAccepted | app/auth/services.py:69-73 | the issued access token identifies the user on protected routes and the refresh token is accepted by refresh; neither works in place of the other |
| AuthService.OneBlockLookup | app/auth/services.py:95 | with at most one block row per user, the already-blocked lookup never finds two rows |
| AuthService.BlockUser | app/auth/services.py:94-105 | an existing block fails with `UserIsAlreadyBlocked` and adds nothing; otherwise exactly one block is added and the blocked id is returned; one block per user is kept; the block id counter moves only when a block is added |
| AuthService.BlockTakesEffect | app/auth/services.py:98-100 | once the block is added, the user's tokens are refused: 403 over HTTP, the "The user was blocked." reason over a socket |

## Left out

- Sessions, SQL execution and the engine: the tables are sequences inside `Store.Database`.
- Each DAO or registry operation is one atomic step. Interleavings of asyncio tasks are not modelled.
- PyJWT signing and verification and passlib bcrypt are function parameters. RS256 keys, signature checking and the library's own claim validation are not modelled.
- Datetime values and their `str()` rendering: times are integer seconds. The payloads carry the integer, not its text.
- Pydantic request schemas are not modelled. These constraints are left out:
  - password length 8 to 128 and username length 5 to 50 at registration;
  - block reason length 10 to 256;
  - `EmailStr` validation.
  The database column limits are modelled (4096, 50, 255, 256).
- The `hashed_password` column limit of 128 characters is not modelled, since the hash comes from foreign code.
- `HTTPBearer`'s own rejection of a missing `Authorization` header happens before `get_current_payload` runs.
- The WebSocket route loop and the HTTP handlers of the routers are not modelled. This includes the router calling `add_message` twice for one frame.
- ChatService.AddMessage: two module-level imports of app/chat/services.py name things that do not exist. Line 8 imports `SMessageCreate` from app.chat.shemas, which defines no such class. Line 9 imports `notify_users_about_new_message` and `notify_chat_list_update` from app.chat.websocket, which defines neither name; it ends with `manager = ConnectionManager()` (app/chat/websocket.py:144). As written, loading app.chat.services raises `ImportError` at line 8, so no chat-service operation runs, and neither does any router that imports the module. The model takes the message text and recipient id directly instead of an `SMessageCreate`, and assumes the line-9 import resolves to the registry's two notification methods.
- A socket's send and close failures are fixed per socket: a socket that fails once always fails.
- SERIAL gaps are not modelled: the model takes the next id only on a successful insert.
- UUIDs are their canonical text. Two spellings of one UUID are different ids in the model.
- AuthUtils.ValidateUserFromPayload: a `sub` claim that is not text, or is text but not a UUID, is treated as no user and gives `UserIsNotPresent` (401). In the source, looking such a value up in the `UUID(as_uuid=True)` id column (app/auth/models.py:14-16) makes the driver raise a data error, which surfaces as a 500. That error is not modelled.
- Python's `repr` escapes only ASCII and C1 control characters, U+00A0 and U+00AD in the model. Other non-printable Unicode is not modelled.
- Limits and offsets are natural numbers. The routers enforce them, and the default limits come from environment settings.
- `jwt_refresh_token` (app/auth/services.py:80-89) only forwards to `refresh`. It is `AuthUtils.Refresh`.
- AuthUtils.Refresh: the refresh check and the update are two separate database sessions in the source. The model runs them as one step.
- MessageDao.ChatsCursorSkipsTies: the strict `<` cursor of the chat list skips partners whose latest time equals the cursor. This is modelled as written and not corrected, because no secondary key is evidently intended.
- AuthDao.FindByUsernamePage: `ILIKE` is modelled as folding ASCII letters only. PostgreSQL folds case by the database locale, which may also fold non-ASCII letters.
- ChatService.SearchAnswer, ChatService.SearchNextPage, ChatService.SearchPagination: the user search (app/auth/dao.py:52-54) has no `ORDER BY`, and the model returns its rows in table order. The database promises no order there, so these hold only when every request scans the table in the same order.
- MessageDao.AllUsersChatsPagesAdjacent, ChatService.AllChatsPagination, MessageDao.AsWrittenLosesTiedMessage: in the model, rows with equal `ORDER BY` keys keep table order. PostgreSQL promises no order among equal keys, and with LIMIT/OFFSET it may order them differently from one query to the next. So these hold for the model's tie order only: the pages of the moderator listing tile the listing only when the database orders ties the same way each time, and the tied-message example is one of the two outcomes the database may produce.
- AuthService.RegisterCheckOutcome: an email of one user plus the username of another makes the lookup find two rows and fail with an internal error. This is modelled as written.

## Findings

| source | as written | input that shows it | evidently intended | confidence | as-written member | corrected member |
|---|---|---|---|---|---|---|
| app/chat/dao.py:115-117 | history is ordered by `created_at` only, while the cursor compares `(created_at, id)` | messages 1 ("a" to "b") and 2 ("b" to "a"), both at time 5, page size 1: when the database returns message 1 first among the tied rows, page 1 is message 1 and the cursor (5, 1) excludes message 2, so message 2 is never shown | order by `created_at DESC, id DESC` | high, not executed | MessageDao.AsWrittenLosesTiedMessage | MessageDao.TiedMessagesBothShown |
| app/auth/auth_utilits.py:189-190 | `BlockDao.find_one_or_none()` with no filter checks the whole blocked-users table | one block row for any other user: every correct login raises `UserIsBlocked`; two rows: every correct login raises `MultipleResultsFound` | filter by `blocked_user_id=user.id`, as in validate_user_from_payload | high, not executed | AuthUtils.AsWrittenBlocksEveryone | AuthUtils.AuthenticationOutcome |
| app/chat/websocket.py:130-140 | one payload with `partner_id` = partner goes to both users | both users connected on working sockets: the partner's update names the partner itself | each user is told about the other | medium, not executed | Websocket.AsWrittenPartnerSeesOwnId | Websocket.ChatListUpdateFanOut |

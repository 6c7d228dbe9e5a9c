/** The request dependencies of app/auth/dependencies.py: from a bearer
    token to its payload, to the current user, to a moderator; and the
    WebSocket variant that reads the Authorization header itself. */
module Dependencies {
  import opened Common
  import opened Models
  import opened Exceptions
  import opened AuthUtils

  // ---------------------------------------------------------------------
  // str.split with an explicit separator
  // ---------------------------------------------------------------------

  /** Python's `s.split(c)`: every occurrence of `c` ends a part, so the
      result is never empty and empty parts are kept. */
  function Split(s: string, c: char): (parts: seq<string>)
    ensures |parts| >= 1
    ensures forall i :: 0 <= i < |parts| ==> c !in parts[i]
  {
    if s == [] then [[]]
    else
      var rest := Split(s[1..], c);
      if s[0] == c then [[]] + rest
      else [[s[0]] + rest[0]] + rest[1..]
  }

  /** `c.join(parts)`. */
  function Join(parts: seq<string>, c: char): string
    requires |parts| >= 1
  {
    if |parts| == 1 then parts[0] else parts[0] + [c] + Join(parts[1..], c)
  }

  /** Splitting loses nothing: joining the parts back gives the text. */
  lemma {:induction false} SplitJoin(s: string, c: char)
    ensures Join(Split(s, c), c) == s
  {
    if s != [] {
      var rest := Split(s[1..], c);
      SplitJoin(s[1..], c);
      if s[0] == c {
        assert s == [c] + s[1..];
      } else if |rest| == 1 {
        assert s == [s[0]] + s[1..];
      } else {
        assert Split(s, c)[1..] == rest[1..];
        assert s == [s[0]] + s[1..];
      }
    }
  }

  /** The text before the first `c`. */
  function UpTo(s: string, c: char): (r: string)
    ensures r <= s && c !in r
    ensures |r| < |s| ==> s[|r|] == c
  {
    if s == [] || s[0] == c then [] else [s[0]] + UpTo(s[1..], c)
  }

  /** The first part is the text before the first `c`. */
  lemma {:induction false} SplitHead(s: string, c: char)
    ensures Split(s, c)[0] == UpTo(s, c)
  {
    if s != [] {
      SplitHead(s[1..], c);
    }
  }

  /** When `c` occurs, a second part exists and runs from after the first
      `c` to the next one. */
  lemma {:induction false} SplitSecond(s: string, c: char)
    requires c in s
    ensures |Split(s, c)| >= 2 && Split(s, c)[1] == UpTo(s[|UpTo(s, c)| + 1..], c)
  {
    if s[0] == c {
      SplitHead(s[1..], c);
    } else {
      assert c in s[1..];
      SplitSecond(s[1..], c);
      var k := |UpTo(s[1..], c)|;
      assert s[1..][k + 1..] == s[k + 2..];
    }
  }

  /** The text before the first `c` of `p + [c] + r` is `p` when `p` has
      no `c`. */
  lemma {:induction false} UpToFirst(p: string, c: char, r: string)
    requires c !in p
    ensures UpTo(p + [c] + r, c) == p
  {
    if p != [] {
      assert (p + [c] + r)[1..] == p[1..] + [c] + r;
      UpToFirst(p[1..], c, r);
    }
  }

  const BEARER_PREFIX := "Bearer "

  /** `header.split(" ")[1]` for a header that starts with "Bearer ": what
      follows the prefix, up to the next space. */
  function BearerToken(header: string): string
    requires StartsWith(header, BEARER_PREFIX)
  {
    assert header[6] == ' ';
    SplitSecond(header, ' ');
    Split(header, ' ')[1]
  }

  /** The token is the text after "Bearer " when it has no space, and
      anything after a second space is dropped. */
  lemma BearerTokenOf(rest: string)
    ensures StartsWith(BEARER_PREFIX + rest, BEARER_PREFIX)
    ensures BearerToken(BEARER_PREFIX + rest) == UpTo(rest, ' ')
    ensures ' ' !in rest ==> BearerToken(BEARER_PREFIX + rest) == rest
  {
    var h := BEARER_PREFIX + rest;
    StartsWithConcat(BEARER_PREFIX, rest);
    assert h == "Bearer" + [' '] + rest && h[6] == ' ' && h[7..] == rest;
    assert UpTo(h, ' ') == "Bearer" by {
      UpToFirst("Bearer", ' ', rest);
    }
    assert BearerToken(h) == UpTo(rest, ' ') by {
      SplitSecond(h, ' ');
    }
    if ' ' !in rest {
      assert UpTo(rest, ' ') == rest;
    }
  }

  // ---------------------------------------------------------------------
  // HTTP dependencies
  // ---------------------------------------------------------------------

  /** get_current_payload: the decoded claims, or the error for an expired
      or malformed token. */
  function GetCurrentPayload(credentials: string, verify: string -> Decoded): (r: Outcome<Claims>)
    ensures verify(credentials).Valid? <==> r.Ok?
    ensures r.Ok? ==> r.value == verify(credentials).claims
    ensures verify(credentials).Expired? <==> r == Fail(Http(TokenExpired))
    ensures verify(credentials).Invalid? <==> r == Fail(Http(IncorrectTokenFormat))
  {
    match verify(credentials)
    case Valid(payload) => Ok(payload)
    case Expired => Fail(Http(TokenExpired))
    case Invalid => Fail(Http(IncorrectTokenFormat))
  }

  /** get_current_user, with get_current_payload as its dependency. */
  function GetCurrentUser(users: seq<User>, blocks: seq<Block>, credentials: string, verify: string -> Decoded): Outcome<User>
  {
    match GetCurrentPayload(credentials, verify)
    case Fail(e) => Fail(e)
    case Ok(payload) =>
      var typeError := ValidateTokenType(payload, ACCESS_TOKEN_TYPE, false);
      if typeError.Some? then Fail(typeError.value)
      else ValidateUserFromPayload(users, blocks, payload, false)
  }

  /** get_moderator_user, with get_current_user as its dependency. */
  function GetModeratorUser(users: seq<User>, blocks: seq<Block>, credentials: string, verify: string -> Decoded): Outcome<User>
  {
    match GetCurrentUser(users, blocks, credentials, verify)
    case Fail(e) => Fail(e)
    case Ok(user) => if user.isModerator then Ok(user) else Fail(Http(UserIsNotModerator))
  }

  /** The current user is the user the access token's `sub` names, present,
      unblocked; a refresh token is refused for its type. */
  lemma CurrentUserIsSubject(users: seq<User>, blocks: seq<Block>, credentials: string, verify: string -> Decoded)
    ensures var r := GetCurrentUser(users, blocks, credentials, verify);
      && (r.Ok? <==>
            && verify(credentials).Valid?
            && Get(verify(credentials).claims, "type") == Some(Str(ACCESS_TOKEN_TYPE))
            && ValidateUserFromPayload(users, blocks, verify(credentials).claims, false).Ok?)
      && (r.Ok? ==> r.value in users && Get(verify(credentials).claims, "sub") == Some(Str(r.value.id)))
      && (r.Ok? ==> forall b :: b in blocks ==> b.blockedUserId != r.value.id)
      && (verify(credentials).Valid? && Get(verify(credentials).claims, "type") == Some(Str(REFRESH_TOKEN_TYPE))
          ==> r == Fail(Http(NotValidTokenType(Some(Str(REFRESH_TOKEN_TYPE)), ACCESS_TOKEN_TYPE))))
  {
    if verify(credentials).Valid? {
      TokenTypeCheck(verify(credentials).claims, ACCESS_TOKEN_TYPE, false);
      ValidateUserOrder(users, blocks, verify(credentials).claims, false);
    }
  }

  /** A moderator is a current user with the flag set; every other current
      user is refused with 403, and the failures of get_current_user pass
      through unchanged. */
  lemma ModeratorOutcome(users: seq<User>, blocks: seq<Block>, credentials: string, verify: string -> Decoded)
    ensures var cur := GetCurrentUser(users, blocks, credentials, verify);
      var r := GetModeratorUser(users, blocks, credentials, verify);
      && (r.Ok? <==> cur.Ok? && cur.value.isModerator)
      && (r.Ok? ==> r.value == cur.value)
      && (cur.Ok? && !cur.value.isModerator ==> r.Fail? && r.raised.Http? && StatusCode(r.raised.error) == HTTP_403_FORBIDDEN)
      && (cur.Fail? ==> r == cur)
  {
  }

  // ---------------------------------------------------------------------
  // WebSocket dependency
  // ---------------------------------------------------------------------

  const TOKEN_MISSING_REASON := "Authorization token missing."
  const TOKEN_EXPIRED_REASON := "The token has expired."
  const TOKEN_INVALID_REASON := "Invalid token format."

  /** get_current_user_websocket: every failure closes with policy
      violation 1008, with a reason. */
  function GetCurrentUserWebsocket(users: seq<User>, blocks: seq<Block>, authorization: Option<string>,
                                   verify: string -> Decoded): Outcome<User>
  {
    if authorization.None? || !StartsWith(authorization.value, BEARER_PREFIX) then
      Fail(WsPolicyViolation(Some(TOKEN_MISSING_REASON)))
    else
      match verify(BearerToken(authorization.value))
      case Expired => Fail(WsPolicyViolation(Some(TOKEN_EXPIRED_REASON)))
      case Invalid => Fail(WsPolicyViolation(Some(TOKEN_INVALID_REASON)))
      case Valid(payload) =>
        var typeError := ValidateTokenType(payload, ACCESS_TOKEN_TYPE, true);
        if typeError.Some? then Fail(typeError.value)
        else ValidateUserFromPayload(users, blocks, payload, true)
  }

  /** The WebSocket dependency never raises an HTTP error, and it accepts
      exactly the users the HTTP dependency accepts for the same token:
      `Authorization: Bearer <t>` over a socket is `get_current_user` for
      the credentials `t`. */
  lemma WebsocketAgreesWithHttp(users: seq<User>, blocks: seq<Block>, token: string, verify: string -> Decoded)
    requires ' ' !in token
    ensures var ws := GetCurrentUserWebsocket(users, blocks, Some(BEARER_PREFIX + token), verify);
      var http := GetCurrentUser(users, blocks, token, verify);
      && (ws.Ok? <==> http.Ok?)
      && (ws.Ok? ==> ws.value == http.value)
      && (ws.Fail? ==> !ws.raised.Http?)
  {
    BearerTokenOf(token);
    if verify(token).Valid? {
      ValidateUserModes(users, blocks, verify(token).claims);
      TokenTypeModes(verify(token).claims, ACCESS_TOKEN_TYPE);
    }
  }

  /** The mode of user validation decides only the kind of failure. */
  lemma ValidateUserModes(users: seq<User>, blocks: seq<Block>, payload: Claims)
    ensures var ws := ValidateUserFromPayload(users, blocks, payload, true);
      var http := ValidateUserFromPayload(users, blocks, payload, false);
      && (ws.Ok? <==> http.Ok?)
      && (ws.Ok? ==> ws.value == http.value)
      && (ws.Fail? ==> !ws.raised.Http?)
  {
  }

  /** The mode of the type check decides only the kind of failure. */
  lemma TokenTypeModes(payload: Claims, expectedType: string)
    ensures var ws := ValidateTokenType(payload, expectedType, true);
      && (ws.None? <==> ValidateTokenType(payload, expectedType, false).None?)
      && (ws.Some? ==> !ws.value.Http?)
  {
  }

  /** Over a socket, an expired token, a malformed one and one of the
      wrong type each close with their own reason, and the type is checked
      before the user is looked up. */
  lemma WebsocketTokenErrors(users: seq<User>, blocks: seq<Block>, token: string, verify: string -> Decoded)
    requires ' ' !in token
    ensures var ws := GetCurrentUserWebsocket(users, blocks, Some(BEARER_PREFIX + token), verify);
      && (verify(token).Expired? ==> ws == Fail(WsPolicyViolation(Some("The token has expired."))))
      && (verify(token).Invalid? ==> ws == Fail(WsPolicyViolation(Some("Invalid token format."))))
      && (verify(token).Valid? && Get(verify(token).claims, "type") != Some(Str("access")) ==>
            ws == Fail(WsPolicyViolation(Some(TokenTypeMessage(Get(verify(token).claims, "type"), "access")))))
  {
    BearerTokenOf(token);
  }

  /** A missing header, or one without the "Bearer " prefix, is refused
      before any token is looked at. */
  lemma WebsocketNeedsBearer(users: seq<User>, blocks: seq<Block>, authorization: Option<string>, verify: string -> Decoded)
    requires authorization.None? || |authorization.value| < 7 || authorization.value[..7] != "Bearer "
    ensures GetCurrentUserWebsocket(users, blocks, authorization, verify) == Fail(WsPolicyViolation(Some("Authorization token missing.")))
  {
  }
}

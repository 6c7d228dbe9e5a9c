/** The error taxonomy of app/core/exceptions.py: every HTTP error the back
    end raises with its status code and detail, the WebSocket policy
    violation, the internal errors the database layer lets escape, and the
    message composition of ErrorHandler._log_error. */
module Exceptions {
  import opened Common

  const HTTP_400_BAD_REQUEST := 400
  const HTTP_401_UNAUTHORIZED := 401
  const HTTP_403_FORBIDDEN := 403
  const HTTP_404_NOT_FOUND := 404
  const HTTP_409_CONFLICT := 409
  const HTTP_500_INTERNAL_SERVER_ERROR := 500

  /** One constructor per exception class; `BaseError` is the base class
      itself, raised as such. */
  datatype AppError =
    | BaseError
    | UserEmailExists
    | UserUsernameExists
    | PasswordsDoesNotMatch
    | IncorrectEmailOrPassword
    | TokenExpired
    | TokenAbsent
    | IncorrectTokenFormat
    | TokensDoesNotMatch
    | UserIsNotPresent
    | NotValidTokenType(invalidType: Option<Claim>, expectedType: string)
    | UserIsAlreadyBlocked
    | UserIsBlocked
    | UserIsNotModerator
    | OneUserIdNotFound(userId: UserId)
    | UsersIdNotFound
    | UserSearchNotFound
    | UserMessagesBetweenSame
    | UserMessagesBetweenYourself

  /** A response detail: a text, or OneUserIdNotFoundException's dictionary. */
  datatype Detail = Text(text: string) | NotFoundDetail(message: string, notFoundId: string)

  /** Errors raised by the database layer that no handler turns into an
      HTTP error: `scalar_one_or_none` on several rows, a failed constraint,
      a value longer than its column, and an attribute set on None. */
  datatype InternalError = MultipleResultsFound | IntegrityError | ValueTooLong | NoneHasNoAttribute

  /** What an operation can raise. A WebSocketException always carries code
      1008 (policy violation); only its reason varies. */
  datatype Raised =
    | Http(error: AppError)
    | WsPolicyViolation(reason: Option<string>)
    | Internal(fault: InternalError)

  const WS_1008_POLICY_VIOLATION := 1008

  /** The result of an operation that returns a value or raises. */
  datatype Outcome<+T> = Ok(value: T) | Fail(raised: Raised)

  /** The status table. */
  function StatusCode(e: AppError): (code: int)
    ensures code == HTTP_409_CONFLICT <==> e.UserEmailExists? || e.UserUsernameExists?
    ensures code == HTTP_400_BAD_REQUEST <==>
      e.PasswordsDoesNotMatch? || e.UserIsAlreadyBlocked? || e.UserMessagesBetweenSame?
      || e.UserMessagesBetweenYourself? || e.OneUserIdNotFound?
    ensures code == HTTP_401_UNAUTHORIZED <==>
      e.IncorrectEmailOrPassword? || e.TokenExpired? || e.TokenAbsent? || e.IncorrectTokenFormat?
      || e.TokensDoesNotMatch? || e.UserIsNotPresent? || e.NotValidTokenType?
    ensures code == HTTP_403_FORBIDDEN <==> e.UserIsBlocked? || e.UserIsNotModerator?
    ensures code == HTTP_404_NOT_FOUND <==> e.UsersIdNotFound? || e.UserSearchNotFound?
    ensures code == HTTP_500_INTERNAL_SERVER_ERROR <==> e.BaseError?
  {
    match e
    case BaseError => HTTP_500_INTERNAL_SERVER_ERROR
    case UserEmailExists => HTTP_409_CONFLICT
    case UserUsernameExists => HTTP_409_CONFLICT
    case PasswordsDoesNotMatch => HTTP_400_BAD_REQUEST
    case IncorrectEmailOrPassword => HTTP_401_UNAUTHORIZED
    case TokenExpired => HTTP_401_UNAUTHORIZED
    case TokenAbsent => HTTP_401_UNAUTHORIZED
    case IncorrectTokenFormat => HTTP_401_UNAUTHORIZED
    case TokensDoesNotMatch => HTTP_401_UNAUTHORIZED
    case UserIsNotPresent => HTTP_401_UNAUTHORIZED
    case NotValidTokenType(_, _) => HTTP_401_UNAUTHORIZED
    case UserIsAlreadyBlocked => HTTP_400_BAD_REQUEST
    case UserIsBlocked => HTTP_403_FORBIDDEN
    case UserIsNotModerator => HTTP_403_FORBIDDEN
    case OneUserIdNotFound(_) => HTTP_400_BAD_REQUEST
    case UsersIdNotFound => HTTP_404_NOT_FOUND
    case UserSearchNotFound => HTTP_404_NOT_FOUND
    case UserMessagesBetweenSame => HTTP_400_BAD_REQUEST
    case UserMessagesBetweenYourself => HTTP_400_BAD_REQUEST
  }

  const ONE_USER_NOT_FOUND_MESSAGE := "The user with this IDs was not found."

  function DetailOf(e: AppError): Detail
  {
    match e
    case BaseError => Text("")
    case UserEmailExists => Text("A user with such an email exists.")
    case UserUsernameExists => Text("A user with such an username exists.")
    case PasswordsDoesNotMatch => Text("Passwords don't match.")
    case IncorrectEmailOrPassword => Text("Invalid email or password.")
    case TokenExpired => Text("The token has expired.")
    case TokenAbsent => Text("The access token is missing.")
    case IncorrectTokenFormat => Text("Invalid token format.")
    case TokensDoesNotMatch => Text("Invalid token. Please log in again.")
    case UserIsNotPresent => Text("")  // inherits the base class's empty detail
    case NotValidTokenType(x, y) => Text(TokenTypeMessage(x, y))
    case UserIsAlreadyBlocked => Text("The user is already blocked.")
    case UserIsBlocked => Text("The user was blocked.")
    case UserIsNotModerator => Text("You don’t have permission to access.")
    case OneUserIdNotFound(id) => NotFoundDetail(ONE_USER_NOT_FOUND_MESSAGE, id)
    case UsersIdNotFound => Text("No users with such IDs were found.")
    case UserSearchNotFound => Text("Users not found.")
    case UserMessagesBetweenSame => Text("It is not possible to receive messages between the current user and the same user.")
    case UserMessagesBetweenYourself => Text("The user cannot send messages to himself.")
  }

  // ---------------------------------------------------------------------
  // Python's repr, as the `!r` conversions in the token-type message use it
  // ---------------------------------------------------------------------

  predicate IsDigit(c: char)
  {
    '0' <= c <= '9'
  }

  function HexChar(d: int): char
    requires 0 <= d < 16
  {
    if d < 10 then ('0' as int + d) as char else ('a' as int + d - 10) as char
  }

  function HexValue(c: char): Option<int>
  {
    if '0' <= c <= '9' then Some(c as int - '0' as int)
    else if 'a' <= c <= 'f' then Some(c as int - 'a' as int + 10)
    else None
  }

  /** The characters below U+0100 that repr writes as \xNN: the C0 and C1
      controls other than the three with letter escapes, DEL, the no-break
      space and the soft hyphen. */
  predicate HexEscaped(c: char)
  {
    c != '\n' && c != '\r' && c != '\t' && (c as int < 0x20 || (0x7f <= c as int <= 0xa0) || c as int == 0xad)
  }

  /** One character inside a repr quoted with `q`. */
  function EscapeChar(c: char, q: char): string
  {
    if c == '\\' then ['\\', '\\']
    else if c == q then ['\\', q]
    else if c == '\n' then ['\\', 'n']
    else if c == '\r' then ['\\', 'r']
    else if c == '\t' then ['\\', 't']
    else if HexEscaped(c) then ['\\', 'x', HexChar(c as int / 16), HexChar(c as int % 16)]
    else [c]
  }

  function Escape(s: string, q: char): string
  {
    if s == [] then [] else EscapeChar(s[0], q) + Escape(s[1..], q)
  }

  /** repr uses double quotes only for a text with a single quote and no
      double quote. */
  function QuoteFor(s: string): char
  {
    if '\'' in s && '"' !in s then '"' else '\''
  }

  function StrRepr(s: string): string
  {
    var q := QuoteFor(s);
    [q] + Escape(s, q) + [q]
  }

  /** `repr(payload.get("type"))`: None, a text or a number. */
  function ClaimRepr(c: Option<Claim>): string
  {
    match c
    case None => "None"
    case Some(Str(s)) => StrRepr(s)
    case Some(Num(n)) => IntText(n)
  }

  /** The detail of NotValidTokenTypeException, and the reason of the
      WebSocket rejection for a wrong token type. */
  function TokenTypeMessage(invalidType: Option<Claim>, expectedType: string): string
  {
    "Invalid token type " + ClaimRepr(invalidType) + ", expected " + StrRepr(expectedType) + "."
  }

  // Reading the message back.

  /** Decodes the text between the quotes: the characters up to the first
      unescaped `q`, and what follows that quote. */
  function ParseQuoted(t: string, q: char): Option<(string, string)>
    decreases |t|
  {
    if t == [] then None
    else if t[0] == q then Some(([], t[1..]))
    else if t[0] != '\\' then
      match ParseQuoted(t[1..], q)
      case None => None
      case Some(r) => Some(([t[0]] + r.0, r.1))
    else if |t| < 2 then None
    else if t[1] == 'x' && q != 'x' then
      if |t| >= 4 && HexValue(t[2]).Some? && HexValue(t[3]).Some? then
        var c := (HexValue(t[2]).value * 16 + HexValue(t[3]).value) as char;
        match ParseQuoted(t[4..], q)
        case None => None
        case Some(r) => Some(([c] + r.0, r.1))
      else None
    else
      match SimpleEscape(t[1], q)
      case None => None
      case Some(c) =>
        match ParseQuoted(t[2..], q)
        case None => None
        case Some(r) => Some(([c] + r.0, r.1))
  }

  /** The character a two-character escape `\e` stands for. */
  function SimpleEscape(e: char, q: char): Option<char>
  {
    if e == '\\' then Some('\\')
    else if e == q then Some(q)
    else if e == 'n' then Some('\n')
    else if e == 'r' then Some('\r')
    else if e == 't' then Some('\t')
    else None
  }

  /** Length of the run of digits `t` starts with. */
  function DigitRun(t: string): (n: nat)
    ensures n <= |t|
  {
    if t != [] && IsDigit(t[0]) then 1 + DigitRun(t[1..]) else 0
  }

  function DigitsValue(s: string): nat
  {
    if s == [] then 0
    else
      var d := s[|s| - 1] as int - '0' as int;
      10 * DigitsValue(s[..|s| - 1]) + (if 0 <= d then d else 0)
  }

  function ParseNat(t: string): Option<(nat, string)>
  {
    var n := DigitRun(t);
    if n == 0 then None else Some((DigitsValue(t[..n]), t[n..]))
  }

  function ParseClaimRepr(t: string): Option<(Option<Claim>, string)>
  {
    if t != [] && t[0] == 'N' then
      if |t| >= 4 && t[..4] == "None" then Some((None, t[4..])) else None
    else if t != [] && (t[0] == '\'' || t[0] == '"') then
      match ParseQuoted(t[1..], t[0])
      case None => None
      case Some(r) => Some((Some(Str(r.0)), r.1))
    else if t != [] && t[0] == '-' then
      match ParseNat(t[1..])
      case None => None
      case Some(r) => Some((Some(Num(0 - r.0)), r.1))
    else
      match ParseNat(t)
      case None => None
      case Some(r) => Some((Some(Num(r.0)), r.1))
  }

  const TOKEN_TYPE_PREFIX := "Invalid token type "
  const EXPECTED_INFIX := ", expected "

  /** Reads the two token types back out of a TokenTypeMessage. */
  function ParseTokenTypeMessage(d: string): Option<(Option<Claim>, string)>
  {
    if !StartsWith(d, TOKEN_TYPE_PREFIX) then None
    else
      match ParseClaimRepr(d[|TOKEN_TYPE_PREFIX|..])
      case None => None
      case Some(r1) =>
        match ParseExpected(r1.1)
        case None => None
        case Some(y) => Some((r1.0, y))
  }

  /** Reads `, expected <repr of a text>.` back to the text. */
  function ParseExpected(t: string): Option<string>
  {
    if !StartsWith(t, EXPECTED_INFIX) || |t| == |EXPECTED_INFIX| then None
    else
      var u := t[|EXPECTED_INFIX|..];
      if u[0] != '\'' && u[0] != '"' then None
      else
        match ParseQuoted(u[1..], u[0])
        case None => None
        case Some(r2) => if r2.1 == "." then Some(r2.0) else None
  }

  predicate StartsWith(t: string, p: string)
  {
    |p| <= |t| && t[..|p|] == p
  }

  lemma StartsWithConcat(p: string, r: string)
    ensures StartsWith(p + r, p) && (p + r)[|p|..] == r
  {
    assert (p + r)[..|p|] == p;
  }

  lemma HexRoundTrip(c: char)
    requires HexEscaped(c)
    ensures HexValue(HexChar(c as int / 16)) == Some(c as int / 16)
    ensures HexValue(HexChar(c as int % 16)) == Some(c as int % 16)
    ensures ((c as int / 16) * 16 + c as int % 16) as char == c
  {
  }

  lemma EscapeCharRoundTrip(c: char, q: char, rest: string)
    requires q == '\'' || q == '"'
    ensures ParseQuoted(EscapeChar(c, q) + rest, q) ==
      match ParseQuoted(rest, q)
      case None => None
      case Some(r) => Some(([c] + r.0, r.1))
  {
    var t := EscapeChar(c, q) + rest;
    if HexEscaped(c) && c != '\\' && c != q {
      HexRoundTrip(c);
      assert t[4..] == rest;
    } else if |EscapeChar(c, q)| == 2 {
      assert t[2..] == rest;
    } else {
      assert t[1..] == rest;
    }
  }

  /** The quoted body decodes back to the text it encodes. */
  lemma {:induction false} EscapeRoundTrip(s: string, q: char, rest: string)
    requires q == '\'' || q == '"'
    ensures ParseQuoted(Escape(s, q) + [q] + rest, q) == Some((s, rest))
    decreases |s|
  {
    if s == [] {
      assert Escape(s, q) + [q] + rest == [q] + rest;
    } else {
      assert Escape(s, q) + [q] + rest == EscapeChar(s[0], q) + (Escape(s[1..], q) + [q] + rest);
      EscapeRoundTrip(s[1..], q, rest);
      EscapeCharRoundTrip(s[0], q, Escape(s[1..], q) + [q] + rest);
      assert [s[0]] + s[1..] == s;
    }
  }

  lemma StrReprRoundTrip(s: string, rest: string)
    ensures StrRepr(s) + rest != []
    ensures var t := StrRepr(s) + rest;
      (t[0] == '\'' || t[0] == '"') && ParseQuoted(t[1..], t[0]) == Some((s, rest))
  {
    var q := QuoteFor(s);
    var t := StrRepr(s) + rest;
    assert t[1..] == Escape(s, q) + [q] + rest;
    EscapeRoundTrip(s, q, rest);
  }

  lemma {:induction false} DigitRunOf(p: string, rest: string)
    requires forall i :: 0 <= i < |p| ==> IsDigit(p[i])
    requires rest == [] || !IsDigit(rest[0])
    ensures DigitRun(p + rest) == |p|
  {
    if p != [] {
      assert (p + rest)[1..] == p[1..] + rest;
      DigitRunOf(p[1..], rest);
    } else {
      assert p + rest == rest;
    }
  }

  lemma {:induction false} NatTextValue(n: nat)
    ensures DigitsValue(NatText(n)) == n
    decreases n
  {
    var s := NatText(n);
    var d := ['0' + (n % 10) as char];
    if n >= 10 {
      assert s[..|s| - 1] == NatText(n / 10);
      NatTextValue(n / 10);
    } else {
      assert s[..|s| - 1] == [];
    }
  }

  lemma ParseNatRoundTrip(n: nat, rest: string)
    requires rest == [] || !IsDigit(rest[0])
    ensures ParseNat(NatText(n) + rest) == Some((n, rest))
  {
    var t := NatText(n) + rest;
    DigitRunOf(NatText(n), rest);
    assert t[..|NatText(n)|] == NatText(n);
    assert t[|NatText(n)|..] == rest;
    NatTextValue(n);
  }

  lemma NumReprRoundTrip(n: int, rest: string)
    requires rest == [] || !IsDigit(rest[0])
    ensures ParseClaimRepr(IntText(n) + rest) == Some((Some(Num(n)), rest))
  {
    if n < 0 {
      NegativeReprRoundTrip(n, rest);
    } else {
      NonNegativeReprRoundTrip(n, rest);
    }
  }

  lemma NegativeReprRoundTrip(n: int, rest: string)
    requires n < 0
    requires rest == [] || !IsDigit(rest[0])
    ensures ParseClaimRepr(IntText(n) + rest) == Some((Some(Num(n)), rest))
  {
    var u := NatText(-n) + rest;
    assert IntText(n) + rest == ['-'] + u;
    assert ParseNat(u) == Some((-n, rest)) by {
      ParseNatRoundTrip(-n, rest);
    }
    assert ParseClaimRepr(['-'] + u) == Some((Some(Num(n)), rest)) by {
      ParseMinus(u);
    }
  }

  /** A text led by a minus sign reads as the negated number after it. */
  lemma ParseMinus(u: string)
    requires ParseNat(u).Some?
    ensures ParseClaimRepr(['-'] + u) == Some((Some(Num(0 - ParseNat(u).value.0)), ParseNat(u).value.1))
  {
    var t := ['-'] + u;
    assert t[0] == '-' && t[1..] == u;
  }

  lemma NonNegativeReprRoundTrip(n: int, rest: string)
    requires n >= 0
    requires rest == [] || !IsDigit(rest[0])
    ensures ParseClaimRepr(IntText(n) + rest) == Some((Some(Num(n)), rest))
  {
    var t := IntText(n) + rest;
    assert t == NatText(n) + rest;
    assert IsDigit(t[0]);
    ParseNatRoundTrip(n, rest);
  }

  lemma NoneReprRoundTrip(rest: string)
    ensures ParseClaimRepr("None" + rest) == Some((None, rest))
  {
    StartsWithConcat("None", rest);
    assert ("None" + rest)[..4] == "None";
  }

  /** A claim's repr reads back as the claim, when a non-digit follows it. */
  lemma ClaimReprRoundTrip(c: Option<Claim>, rest: string)
    requires rest == [] || !IsDigit(rest[0])
    ensures ParseClaimRepr(ClaimRepr(c) + rest) == Some((c, rest))
  {
    match c {
      case None => NoneReprRoundTrip(rest);
      case Some(Str(s)) => StrReprRoundTrip(s, rest);
      case Some(Num(n)) => NumReprRoundTrip(n, rest);
    }
  }

  /** The token-type message names both types recoverably: reading it back
      gives the two types it was built from. */
  lemma TokenTypeMessageRoundTrip(x: Option<Claim>, y: string)
    ensures ParseTokenTypeMessage(TokenTypeMessage(x, y)) == Some((x, y))
  {
    var d := TokenTypeMessage(x, y);
    var tail := EXPECTED_INFIX + (StrRepr(y) + ".");
    assert d == TOKEN_TYPE_PREFIX + (ClaimRepr(x) + tail);
    assert StartsWith(d, TOKEN_TYPE_PREFIX) && d[|TOKEN_TYPE_PREFIX|..] == ClaimRepr(x) + tail by {
      StartsWithConcat(TOKEN_TYPE_PREFIX, ClaimRepr(x) + tail);
    }
    assert ParseClaimRepr(ClaimRepr(x) + tail) == Some((x, tail)) by {
      assert tail[0] == ',';
      ClaimReprRoundTrip(x, tail);
    }
    ExpectedRoundTrip(y);
  }

  lemma ExpectedRoundTrip(y: string)
    ensures ParseExpected(EXPECTED_INFIX + (StrRepr(y) + ".")) == Some(y)
  {
    var t := EXPECTED_INFIX + (StrRepr(y) + ".");
    StartsWithConcat(EXPECTED_INFIX, StrRepr(y) + ".");
    StrReprRoundTrip(y, ".");
  }

  /** Reads an HTTP error back from its status and detail. */
  function DecodeResponse(code: int, detail: Detail): Option<AppError>
  {
    match detail
    case NotFoundDetail(m, id) =>
      if code == HTTP_400_BAD_REQUEST && m == ONE_USER_NOT_FOUND_MESSAGE then Some(OneUserIdNotFound(id)) else None
    case Text(t) =>
      if code == HTTP_500_INTERNAL_SERVER_ERROR then (if t == "" then Some(BaseError) else None)
      else if code == HTTP_409_CONFLICT then DecodeConflict(t)
      else if code == HTTP_400_BAD_REQUEST then DecodeBadRequest(t)
      else if code == HTTP_401_UNAUTHORIZED then DecodeUnauthorized(t)
      else if code == HTTP_403_FORBIDDEN then DecodeForbidden(t)
      else if code == HTTP_404_NOT_FOUND then DecodeNotFound(t)
      else None
  }

  function DecodeConflict(t: string): Option<AppError>
  {
    if t == "A user with such an email exists." then Some(UserEmailExists)
    else if t == "A user with such an username exists." then Some(UserUsernameExists)
    else None
  }

  function DecodeBadRequest(t: string): Option<AppError>
  {
    if t == "Passwords don't match." then Some(PasswordsDoesNotMatch)
    else if t == "The user is already blocked." then Some(UserIsAlreadyBlocked)
    else if t == "It is not possible to receive messages between the current user and the same user."
    then Some(UserMessagesBetweenSame)
    else if t == "The user cannot send messages to himself." then Some(UserMessagesBetweenYourself)
    else None
  }

  function DecodeUnauthorized(t: string): Option<AppError>
  {
    var parsed := ParseTokenTypeMessage(t);
    if parsed.Some? then Some(NotValidTokenType(parsed.value.0, parsed.value.1))
    else if t == "" then Some(UserIsNotPresent)
    else if t == "Invalid email or password." then Some(IncorrectEmailOrPassword)
    else if t == "The token has expired." then Some(TokenExpired)
    else if t == "The access token is missing." then Some(TokenAbsent)
    else if t == "Invalid token format." then Some(IncorrectTokenFormat)
    else if t == "Invalid token. Please log in again." then Some(TokensDoesNotMatch)
    else None
  }

  function DecodeForbidden(t: string): Option<AppError>
  {
    if t == "The user was blocked." then Some(UserIsBlocked)
    else if t == "You don’t have permission to access." then Some(UserIsNotModerator)
    else None
  }

  function DecodeNotFound(t: string): Option<AppError>
  {
    if t == "No users with such IDs were found." then Some(UsersIdNotFound)
    else if t == "Users not found." then Some(UserSearchNotFound)
    else None
  }

  lemma NotTokenTypeMessage(t: string, i: nat)
    requires i < |TOKEN_TYPE_PREFIX| && (i >= |t| || t[i] != TOKEN_TYPE_PREFIX[i])
    ensures ParseTokenTypeMessage(t) == None
  {
  }

  lemma UnauthorizedIdentified(e: AppError)
    requires StatusCode(e) == HTTP_401_UNAUTHORIZED
    ensures DecodeResponse(StatusCode(e), DetailOf(e)) == Some(e)
  {
    match e {
      case NotValidTokenType(x, y) =>
        TokenTypeMessageRoundTrip(x, y);
      case _ =>
        InvalidUnauthorizedTexts();
        OtherUnauthorizedTexts();
    }
  }

  /** The three 401 details that begin like a token-type message read back
      as their errors: each leaves its prefix at the index given. */
  lemma InvalidUnauthorizedTexts()
    ensures DecodeUnauthorized("Invalid email or password.") == Some(IncorrectEmailOrPassword)
    ensures DecodeUnauthorized("Invalid token format.") == Some(IncorrectTokenFormat)
    ensures DecodeUnauthorized("Invalid token. Please log in again.") == Some(TokensDoesNotMatch)
  {
    NotTokenTypeMessage("Invalid email or password.", 8);
    NotTokenTypeMessage("Invalid token format.", 14);
    NotTokenTypeMessage("Invalid token. Please log in again.", 13);
  }

  /** The other three plain-text 401 details read back as their errors. */
  lemma OtherUnauthorizedTexts()
    ensures DecodeUnauthorized("The token has expired.") == Some(TokenExpired)
    ensures DecodeUnauthorized("The access token is missing.") == Some(TokenAbsent)
    ensures DecodeUnauthorized("") == Some(UserIsNotPresent)
  {
    NotTokenTypeMessage("The token has expired.", 0);
    NotTokenTypeMessage("The access token is missing.", 0);
    NotTokenTypeMessage("", 0);
  }

  lemma BadRequestIdentified(e: AppError)
    requires StatusCode(e) == HTTP_400_BAD_REQUEST
    ensures DecodeResponse(StatusCode(e), DetailOf(e)) == Some(e)
  {
    BadRequestTexts();
  }

  /** The four plain-text 400 details read back as their errors. */
  lemma BadRequestTexts()
    ensures DecodeBadRequest("Passwords don't match.") == Some(PasswordsDoesNotMatch)
    ensures DecodeBadRequest("The user is already blocked.") == Some(UserIsAlreadyBlocked)
    ensures DecodeBadRequest("It is not possible to receive messages between the current user and the same user.")
         == Some(UserMessagesBetweenSame)
    ensures DecodeBadRequest("The user cannot send messages to himself.") == Some(UserMessagesBetweenYourself)
  {
  }

  /** Every error answers with a status and detail pair of its own: the pair
      reads back as the error that produced it. */
  lemma ResponseIdentifiesError(e: AppError)
    ensures DecodeResponse(StatusCode(e), DetailOf(e)) == Some(e)
  {
    if StatusCode(e) == HTTP_401_UNAUTHORIZED {
      UnauthorizedIdentified(e);
    } else if StatusCode(e) == HTTP_400_BAD_REQUEST {
      BadRequestIdentified(e);
    }
  }

  lemma DistinctResponses(e1: AppError, e2: AppError)
    requires e1 != e2
    ensures (StatusCode(e1), DetailOf(e1)) != (StatusCode(e2), DetailOf(e2))
  {
    ResponseIdentifiesError(e1);
    ResponseIdentifiesError(e2);
  }

  // ---------------------------------------------------------------------
  // ErrorHandler._log_error
  // ---------------------------------------------------------------------

  /** A caught exception: whether it is a WebSocketException, and `str(e)`. */
  datatype Fault = Fault(isWebSocketException: bool, text: string)

  /** A subclass's `_type_error` and `_type_error_message`; None where the
      class leaves the ErrorHandler default. */
  datatype Handler = Handler(handlesWebSocketException: Option<bool>, typeMessage: Option<string>)

  /** ErrorHandler itself: both class attributes None. */
  const BASE_HANDLER := Handler(None, None)
  /** ConnectionManager: WebSocketException, "Websocket Error". */
  const CONNECTION_MANAGER_HANDLER := Handler(Some(true), Some("Websocket Error"))

  /** The logged text, or None where `_log_error` itself raises TypeError
      (`isinstance` against None, or None + str). */
  function LogMessage(h: Handler, e: Fault, errorMessage: string): Option<string>
  {
    if h.handlesWebSocketException.None? then None
    else if e.isWebSocketException == h.handlesWebSocketException.value then
      if h.typeMessage.None? then None else Some(h.typeMessage.value + ": " + errorMessage)
    else Some("Unknown Error: " + errorMessage)
  }

  /** ConnectionManager's log lines end with ": " and the given message and
      start with "Websocket Error" exactly for WebSocketExceptions, so a log
      line tells the kind of failure and the message apart. */
  lemma ManagerLogMessage(e: Fault, errorMessage: string)
    ensures var m := LogMessage(CONNECTION_MANAGER_HANDLER, e, errorMessage);
      && m.Some?
      && |m.value| >= |errorMessage| + 2
      && m.value[|m.value| - |errorMessage| - 2..] == ": " + errorMessage
      && ("Websocket Error" <= m.value <==> e.isWebSocketException)
      && ("Unknown Error" <= m.value <==> !e.isWebSocketException)
  {
    var m := LogMessage(CONNECTION_MANAGER_HANDLER, e, errorMessage).value;
    if e.isWebSocketException {
      assert m == "Websocket Error" + (": " + errorMessage);
      assert !("Unknown Error" <= m) by { assert m[0] == 'W'; }
    } else {
      assert m == "Unknown Error" + (": " + errorMessage);
      assert !("Websocket Error" <= m) by { assert m[0] == 'U'; }
    }
  }

  /** ErrorHandler used directly cannot log: `_log_error` raises TypeError. */
  lemma BaseHandlerRaises(e: Fault, errorMessage: string)
    ensures LogMessage(BASE_HANDLER, e, errorMessage).None?
  {
  }

  lemma LogMessageInjective(e1: Fault, e2: Fault, m1: string, m2: string)
    requires LogMessage(CONNECTION_MANAGER_HANDLER, e1, m1) == LogMessage(CONNECTION_MANAGER_HANDLER, e2, m2)
    ensures e1.isWebSocketException == e2.isWebSocketException && m1 == m2
  {
    ManagerLogMessage(e1, m1);
    ManagerLogMessage(e2, m2);
    var l := LogMessage(CONNECTION_MANAGER_HANDLER, e1, m1).value;
    var p1 := if e1.isWebSocketException then "Websocket Error: " else "Unknown Error: ";
    var p2 := if e2.isWebSocketException then "Websocket Error: " else "Unknown Error: ";
    assert l == p1 + m1 && l == p2 + m2;
    assert |p1| == |p2| ==> m1 == l[|p1|..] == m2;
    if e1.isWebSocketException == e2.isWebSocketException {
      assert m1 == l[|p1|..];
    }
  }
}

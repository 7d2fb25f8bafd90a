/** The decision logic of `/api/login`, `/api/me` and `/api/logout`: each handler
    is a function of its input, the secret and the clock, giving a status, a JSON
    body and what to do with the session cookie. */
module Routes {
  import opened Wrappers
  import opened Encoding
  import opened JsText
  import opened Platform
  import opened TokenCodec
  import opened SessionCodec

  /** The single message every login failure reports. */
  const INVALID_TOKEN := "Invalid or expired token"

  datatype CookieAction = KeepCookie | SetCookie(value: string) | ClearCookie

  datatype Body =
    | LoginOk                                                  // { ok: true }
    | LoginFailed(error: string)                               // { ok: false, error }
    | NotAuthenticated                                         // { authenticated: false }
    | SessionExpired                                           // { authenticated: false, reason: "expired" }
    | Authenticated(email: string, userId: string, exp: int)   // { authenticated: true, email, userId, exp }
    | LogoutOk                                                 // { ok: true }
    | InternalServerError                                      // an exception escaped the handler

  datatype Reply = Reply(status: int, body: Body, cookie: CookieAction)

  /** The cookie payload `${email}|${user_id}|${exp}`. */
  function Identity(email: string, userId: string, exp: int): (r: string)
    ensures '|' !in email && '|' !in userId ==> Split(r, '|') == [email, userId, Decimal(exp)]
  {
    DecimalAvoids(exp, '|');
    SplitThreeFields(email, userId, Decimal(exp), '|');
    email + "|" + userId + "|" + Decimal(exp)
  }

  /** `parseInt(expStr, 10)` for the third `|`-field of a verified cookie value;
      a missing field is `undefined`, and `parseInt(undefined, 10)` is NaN. */
  function SessionExpiry(raw: string): (exp: Option<int>)
    ensures exp.Some? ==> |Split(raw, '|')| >= 3
  {
    var fields := Split(raw, '|');
    if |fields| >= 3 then ParseInt(fields[2]) else None
  }

  /** `/api/login?t=…`: a session cookie carrying the token's identity exactly
      when the token is accepted. */
  function Login(platform: Primitives, secret: seq<byte>, t: Option<string>, now: int): (r: Reply)
    ensures r.cookie.SetCookie? <==> TokenOutcome(platform, secret, t, now).Accepted?
    ensures r.cookie.SetCookie? ==>
      var p := TokenOutcome(platform, secret, t, now).payload;
      r.status == 200 && r.body == LoginOk
      && VerifySigned(platform, secret, Some(r.cookie.value)) == Verified(Identity(p.email, p.userId, p.exp.value))
    ensures !r.cookie.SetCookie? ==> r == Reply(401, LoginFailed(INVALID_TOKEN), KeepCookie)
  {
    match TokenOutcome(platform, secret, t, now)
    case Accepted(payload) =>
      var signed := SignValue(platform, secret, Identity(payload.email, payload.userId, payload.exp.value));
      SignVerifyRoundTrip(platform, secret, Identity(payload.email, payload.userId, payload.exp.value));
      Reply(200, LoginOk, SetCookie(signed))
    case Rejected(_) =>
      Reply(401, LoginFailed(INVALID_TOKEN), KeepCookie)
  }

  /** `/api/me` with the session cookie, if any. The cases, in order: no cookie,
      an exception from `verifySigned`, a null or empty verified value, an expiry
      that is NaN, zero or past, and otherwise the first three `|`-fields. */
  function Me(platform: Primitives, secret: seq<byte>, cookie: Option<string>, now: int): (r: Reply)
    ensures !r.cookie.SetCookie?
    ensures r.cookie == ClearCookie <==> r.body == SessionExpired
    ensures cookie.None? || cookie == Some("") ==> r == Reply(401, NotAuthenticated, KeepCookie)
    ensures r == Reply(500, InternalServerError, KeepCookie) <==>
      VerifySigned(platform, secret, cookie) == Throws
    ensures r == Reply(401, NotAuthenticated, KeepCookie) <==>
      VerifySigned(platform, secret, cookie) in {Refused, Verified("")}
    ensures r == Reply(401, SessionExpired, ClearCookie) <==>
      VerifySigned(platform, secret, cookie).Verified? && VerifySigned(platform, secret, cookie).value != ""
      && !Unexpired(SessionExpiry(VerifySigned(platform, secret, cookie).value), now)
    ensures r.body.Authenticated? <==>
      VerifySigned(platform, secret, cookie).Verified? && VerifySigned(platform, secret, cookie).value != ""
      && Unexpired(SessionExpiry(VerifySigned(platform, secret, cookie).value), now)
    ensures r.body.Authenticated? ==>
      var raw := VerifySigned(platform, secret, cookie).value;
      r == Reply(200, Authenticated(Split(raw, '|')[0], Split(raw, '|')[1], SessionExpiry(raw).value), KeepCookie)
      && cookie == Some(SignValue(platform, secret, raw))
  {
    if cookie.None? || cookie.value == "" then Reply(401, NotAuthenticated, KeepCookie)
    else match VerifySigned(platform, secret, cookie)
      case Throws => Reply(500, InternalServerError, KeepCookie)
      case Refused => Reply(401, NotAuthenticated, KeepCookie)
      case Verified(raw) =>
        VerifiedIsSigned(platform, secret, cookie);
        // `!raw` holds of the empty string as well as of null
        if raw == "" then Reply(401, NotAuthenticated, KeepCookie)
        else
          var fields := Split(raw, '|');
          var exp := SessionExpiry(raw);
          if exp.None? || exp.value == 0 || now > exp.value then Reply(401, SessionExpired, ClearCookie)
          else Reply(200, Authenticated(fields[0], fields[1], exp.value), KeepCookie)
  }

  /** A correctly signed empty value is answered like a refused one: 401
      unauthenticated, cookie untouched. */
  lemma SignedEmptyValueNotAuthenticated(platform: Primitives, secret: seq<byte>, now: int)
    ensures Me(platform, secret, Some(SignValue(platform, secret, "")), now) == Reply(401, NotAuthenticated, KeepCookie)
  {
    SignVerifyRoundTrip(platform, secret, "");
  }

  /** `/api/logout`: always succeeds and always clears the cookie. */
  function Logout(): (r: Reply)
    ensures r.status == 200 && r.body == LogoutOk && r.cookie == ClearCookie
  {
    Reply(200, LogoutOk, ClearCookie)
  }

  /** The browser's cookie after a reply: set, cleared (`Max-Age=0`), or as it was. */
  function Browser(jar: Option<string>, action: CookieAction): Option<string>
  {
    match action
    case KeepCookie => jar
    case SetCookie(v) => Some(v)
    case ClearCookie => None
  }

  /** A session made by a successful login reads back, at any later check, as the
      email, user id and expiry of the token, until that expiry passes; after it,
      the check reports "expired" and clears the cookie. Holds for identities
      whose email and user id contain no `|`. */
  lemma LoginThenMe(platform: Primitives, secret: seq<byte>, t: Option<string>, loginTime: int, now: int)
    requires TokenOutcome(platform, secret, t, loginTime).Accepted?
    requires '|' !in TokenOutcome(platform, secret, t, loginTime).payload.email
    requires '|' !in TokenOutcome(platform, secret, t, loginTime).payload.userId
    ensures
      var p := TokenOutcome(platform, secret, t, loginTime).payload;
      var jar := Browser(None, Login(platform, secret, t, loginTime).cookie);
      Me(platform, secret, jar, now) ==
        if now <= p.exp.value then Reply(200, Authenticated(p.email, p.userId, p.exp.value), KeepCookie)
        else Reply(401, SessionExpired, ClearCookie)
  {
    var p := TokenOutcome(platform, secret, t, loginTime).payload;
    var raw := Identity(p.email, p.userId, p.exp.value);
    SignVerifyRoundTrip(platform, secret, raw);
    ParseIntDecimal(p.exp.value);
  }

  /** After logout, whatever cookie the browser held, the identity check reports
      unauthenticated and touches nothing. */
  lemma LogoutEndsSession(platform: Primitives, secret: seq<byte>, jar: Option<string>, now: int)
    ensures Me(platform, secret, Browser(jar, Logout().cookie), now) == Reply(401, NotAuthenticated, KeepCookie)
  {
  }

  /** The identity is not escaped: when the token's email is `a|b`, the check
      reads back `a` as the email, `b` as the user id, and the user id as the
      expiry. */
  lemma PipeInEmailShiftsFields(platform: Primitives, secret: seq<byte>, a: string, b: string, userId: int, exp: int, now: int)
    requires '|' !in a && '|' !in b
    requires userId != 0 && now <= userId
    ensures Me(platform, secret, Some(SignValue(platform, secret, Identity(a + "|" + b, Decimal(userId), exp))), now)
      == Reply(200, Authenticated(a, b, userId), KeepCookie)
  {
    var raw := Identity(a + "|" + b, Decimal(userId), exp);
    var fields := [a, b, Decimal(userId), Decimal(exp)];
    assert Split(raw, '|') == fields by {
      DecimalAvoids(userId, '|');
      DecimalAvoids(exp, '|');
      assert fields[1..][1..][1..] == [Decimal(exp)];
      assert Join(fields[1..][1..], '|') == Decimal(userId) + "|" + Decimal(exp);
      assert Join(fields[1..], '|') == b + "|" + Decimal(userId) + "|" + Decimal(exp);
      assert Join(fields, '|') == raw;
      SplitJoin(fields, '|');
    }
    ParseIntDecimal(userId);
    assert SessionExpiry(raw) == Some(userId);
    SignVerifyRoundTrip(platform, secret, raw);
  }
}

/**
 The HTTP layer of `src/controllers/authController.js`: each handler calls the
 service and turns what it returns or throws into a status code, a message and,
 for login, the refresh-token cookie. Errors are told apart by looking for
 fixed phrases inside their messages (`message.includes(...)`).
 */
module AuthController {
  import opened Wrappers
  import opened Text
  import opened CredentialStore
  import opened AuthService

  /** A JSON response: status code, `message` field and the handler's payload. */
  datatype Reply<T> = Reply(status: int, message: string, payload: Option<T>)

  /** The options of `res.cookie(name, value, options)`. */
  datatype Cookie = Cookie(name: string, value: string, httpOnly: bool, secure: bool, sameSite: string, maxAge: int)

  /** The body of a successful login: the access token and the public user fields. */
  datatype LoginBody = LoginBody(accessToken: AccessToken, user: UserView)

  /** A login response and the cookie it sets, if any. */
  datatype LoginResponse = LoginResponse(reply: Reply<LoginBody>, cookie: Option<Cookie>)

  /** The refresh cookie's `maxAge`: seven days in milliseconds. */
  const CookieMaxAge: int := 7 * 24 * 60 * 60 * 1000

  const RequiredNeedle: string := "required"
  const ExistsNeedle: string := "exists"
  const BadCredentialsNeedle: string := "อีเมลหรือรหัสผ่านไม่ถูกต้อง"
  const SuspendedNeedle: string := "บัญชีของคุณถูกระงับ"
  const RefreshTokenNeedle: string := "Refresh Token"
  const SessionExpiredNeedle: string := "Session หมดอายุ"

  /** The status `register` answers a thrown message with. */
  function RegisterErrorStatus(message: string): (status: int)
    ensures status == 400 || status == 500
  {
    if Contains(message, RequiredNeedle) || Contains(message, ExistsNeedle) then 400 else 500
  }

  /** The status `login` answers a thrown message with. */
  function LoginErrorStatus(message: string): (status: int)
    ensures status == 401 || status == 500
  {
    if Contains(message, BadCredentialsNeedle) || Contains(message, SuspendedNeedle) then 401 else 500
  }

  /** The status `refresh` answers a thrown message with. */
  function RefreshErrorStatus(message: string): (status: int)
    ensures status == 403 || status == 500
  {
    if Contains(message, RefreshTokenNeedle) || Contains(message, SessionExpiredNeedle) then 403 else 500
  }

  /** `register` answers validation and duplicate errors with 400 and a storage error with 500. */
  lemma RegisterErrorStatuses()
    ensures RegisterErrorStatus(Message(MissingFields)) == 400
    ensures RegisterErrorStatus(Message(DuplicateAccount)) == 400
    ensures RegisterErrorStatus(Message(RegistrationFailed)) == 500
  {
    ContainsPiece("Username, email, password, and role are ", RequiredNeedle, ".");
    ContainsPiece("Username or email already ", ExistsNeedle, ".");
    MissingCharNotContained(Message(RegistrationFailed), RequiredNeedle, 'q');
    MissingCharNotContained(Message(RegistrationFailed), ExistsNeedle, 'x');
  }

  /** `login` answers both of the service's login errors with 401. */
  lemma LoginErrorStatuses()
    ensures LoginErrorStatus(Message(BadCredentials)) == 401
    ensures LoginErrorStatus(Message(AccountSuspended)) == 401
  {
    assert Message(BadCredentials) == "" + BadCredentialsNeedle + " กรุณาตรวจสอบอีกครั้ง";
    ContainsPiece("", BadCredentialsNeedle, " กรุณาตรวจสอบอีกครั้ง");
    assert Message(AccountSuspended) == "" + SuspendedNeedle + "การใช้งาน กรุณาติดต่อผู้ดูแลระบบ";
    ContainsPiece("", SuspendedNeedle, "การใช้งาน กรุณาติดต่อผู้ดูแลระบบ");
  }

  /**
   `refresh` answers the token errors with 403, but a missing or suspended
   account with 500, since its message holds neither phrase.
   */
  lemma RefreshErrorStatuses()
    ensures RefreshErrorStatus(Message(NoRefreshToken)) == 403
    ensures RefreshErrorStatus(Message(UnknownRefreshToken)) == 403
    ensures RefreshErrorStatus(Message(SessionExpired)) == 403
    ensures RefreshErrorStatus(Message(AccountUnavailable)) == 500
  {
    assert Message(NoRefreshToken) == "ไม่พบ " + RefreshTokenNeedle + "";
    ContainsPiece("ไม่พบ ", RefreshTokenNeedle, "");
    assert Message(UnknownRefreshToken) == "" + RefreshTokenNeedle + " ไม่ถูกต้องหรือไม่ได้รับอนุญาต";
    ContainsPiece("", RefreshTokenNeedle, " ไม่ถูกต้องหรือไม่ได้รับอนุญาต");
    assert Message(SessionExpired) == "" + SessionExpiredNeedle + " กรุณาเข้าสู่ระบบใหม่อีกครั้ง";
    ContainsPiece("", SessionExpiredNeedle, " กรุณาเข้าสู่ระบบใหม่อีกครั้ง");
    AccountUnavailableUnrecognised();
  }

  /** The message for a missing or suspended account holds neither phrase `refresh` looks for. */
  lemma AccountUnavailableUnrecognised()
    ensures !Contains(Message(AccountUnavailable), RefreshTokenNeedle)
    ensures !Contains(Message(AccountUnavailable), SessionExpiredNeedle)
  {
    MissingCharNotContained(Message(AccountUnavailable), RefreshTokenNeedle, 'R');
    MissingCharNotContained(Message(AccountUnavailable), SessionExpiredNeedle, 'S');
  }

  /** `register`: the service's outcome as a 201, 400 or 500 response. */
  function Register(st: Store, body: RegisterInput, now: Time, fault: Option<string>): (r: (Store, Reply<NewUser>))
    ensures var o := RegisterUser(st, body, now, fault);
      && r.0 == o.store
      && (r.1.status == 201 <==> o.result.Ok?)
      && (r.1.status == 201 ==> r.1.payload == Some(o.result.value))
      && (r.1.status == 400 <==> o.result == Err(MissingFields) || o.result == Err(DuplicateAccount))
      && (r.1.status == 400 ==> r.1.message == Message(o.result.error))
      && (r.1.status == 500 <==> o.result == Err(RegistrationFailed))
  {
    var o := RegisterUser(st, body, now, fault);
    match o.result
    case Ok(user) => (o.store, Reply(201, "User registered successfully!", Some(user)))
    case Err(e) =>
      RegisterErrorStatuses();
      if RegisterErrorStatus(Message(e)) == 400 then (o.store, Reply(400, Message(e), None))
      else (o.store, Reply(500, "An unexpected error occurred", None))
  }

  /** The refresh-token cookie `login` sets. */
  function RefreshCookie(token: string, production: bool): (c: Cookie)
    ensures c.name == "refreshToken" && c.value == token
    ensures c.httpOnly && c.sameSite == "strict" && c.secure == production
    ensures c.maxAge == RefreshLifetime
  {
    Cookie("refreshToken", token, true, production, "strict", CookieMaxAge)
  }

  /**
   `login`. `production` is `process.env.NODE_ENV === "production"`, which
   decides the cookie's `secure` flag.
   */
  function Login(st: Store, email: string, password: string, now: Time, freshToken: string, production: bool): (r: (Store, LoginResponse))
    requires UniqueEmails(st.users)
    ensures var o := LoginUser(st, email, password, now, freshToken);
      && r.0 == o.store
      && (r.1.reply.status == 200 <==> o.result.Ok?)
      && (r.1.reply.status == 401 <==> o.result.Err?)
      && (r.1.reply.status == 401 ==> r.1.reply.message == Message(o.result.error))
      && (r.1.cookie.Some? <==> o.result.Ok?)
      && (o.result.Ok? ==>
            && r.1.reply.payload == Some(LoginBody(o.result.value.accessToken, o.result.value.user))
            && r.1.cookie == Some(RefreshCookie(o.result.value.refreshToken, production)))
  {
    var o := LoginUser(st, email, password, now, freshToken);
    match o.result
    case Ok(login) =>
      (o.store, LoginResponse(Reply(200, "Login successful!", Some(LoginBody(login.accessToken, login.user))),
                              Some(RefreshCookie(login.refreshToken, production))))
    case Err(e) =>
      LoginErrorStatuses();
      if LoginErrorStatus(Message(e)) == 401 then (o.store, LoginResponse(Reply(401, Message(e), None), None))
      else (o.store, LoginResponse(Reply(500, "เกิดข้อผิดพลาดในระบบระหว่างการล็อกอิน", None), None))
  }

  /** The browser drops the cookie exactly when the stored refresh token expires. */
  lemma CookieLifetimeMatchesSession(st: Store, email: string, password: string, now: Time, freshToken: string, production: bool)
    requires UniqueEmails(st.users)
    requires LoginUser(st, email, password, now, freshToken).result.Ok?
    ensures var (st', resp) := Login(st, email, password, now, freshToken, production);
      var uid := LoginUser(st, email, password, now, freshToken).result.value.user.id;
      && resp.cookie.Some?
      && RowsOf(st'.refreshTokens, uid) == [RefreshRow(st.nextTokenId, uid, freshToken, now + resp.cookie.value.maxAge)]
  {
  }

  /** `refresh`. `cookie` is `req.cookies.refreshToken`. */
  function Refresh(st: Store, cookie: Option<string>, now: Time): (r: (Store, Reply<AccessToken>))
    ensures !Truthy(cookie) ==> r == (st, Reply(401, "Access Denied. No refresh token provided.", None))
    ensures Truthy(cookie) ==>
      var o := RefreshAccessToken(st, cookie, now);
      && r.0 == o.store
      && (r.1.status == 200 <==> o.result.Ok?)
      && (r.1.status == 200 ==> r.1.payload == Some(o.result.value))
      && (r.1.status == 403 <==> o.result == Err(UnknownRefreshToken) || o.result == Err(SessionExpired))
      && (r.1.status == 403 ==> r.1.message == Message(o.result.error))
      && (r.1.status == 500 <==> o.result == Err(AccountUnavailable))
  {
    if !Truthy(cookie) then (st, Reply(401, "Access Denied. No refresh token provided.", None))
    else
      var o := RefreshAccessToken(st, cookie, now);
      match o.result
      case Ok(token) => (o.store, Reply(200, "Access token refreshed successfully.", Some(token)))
      case Err(e) =>
        RefreshErrorStatuses();
        if RefreshErrorStatus(Message(e)) == 403 then (o.store, Reply(403, Message(e), None))
        else (o.store, Reply(500, "Internal Server Error", None))
  }

  /**
   The cookie of a stored row is answered with 403 once the row has expired,
   with 500 while it is valid but its owner is missing or suspended, and with
   200 while it is valid and its owner active.
   */
  lemma RefreshStatusOfStoredRow(st: Store, i: nat, now: Time)
    requires i < |st.refreshTokens|
    requires DistinctBy(st.refreshTokens, (r: RefreshRow) => r.token)
    requires st.refreshTokens[i].token != ""
    ensures var row := st.refreshTokens[i];
      var status := Refresh(st, Some(row.token), now).1.status;
      && (row.expiresAt < now ==> status == 403)
      && (now <= row.expiresAt && (row.userId !in st.users || !st.users[row.userId].isActive) ==> status == 500)
      && (now <= row.expiresAt && row.userId in st.users && st.users[row.userId].isActive ==> status == 200)
  {
    RefreshOfStoredRow(st, i, now);
  }
}

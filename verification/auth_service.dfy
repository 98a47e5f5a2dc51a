/**
 The session manager of `src/services/authService.js`: registration, login
 with single-session refresh-token replacement, and access-token renewal, each
 a transition of the credential store that either returns a value or fails
 with one of the service's error messages.
 */
module AuthService {
  import opened Wrappers
  import opened CredentialStore
  import opened Text

  /** Refresh-token lifetime: seven days, in milliseconds. */
  const RefreshLifetime: int := 7 * 24 * 60 * 60 * 1000

  /** Access-token lifetime: the `"15m"` of `jwt.sign`, in milliseconds. */
  const AccessLifetime: int := 15 * 60 * 1000

  /** The claims of a signed access token: `{ userId, role }` and its expiry. */
  datatype AccessToken = AccessToken(userId: UserId, role: string, expiresAt: Time)

  /** The errors the service throws, one per distinct message. */
  datatype AuthError =
    | MissingFields
    | DuplicateAccount
    | RegistrationFailed
    | BadCredentials
    | AccountSuspended
    | NoRefreshToken
    | UnknownRefreshToken
    | SessionExpired
    | AccountUnavailable

  /**
   The message each error is thrown with. Where the HTTP layer recognises an
   error by a phrase inside its message, that phrase is written as a literal
   of its own.
   */
  function Message(e: AuthError): string
  {
    match e
    case MissingFields => "Username, email, password, and role are " + "required" + "."
    case DuplicateAccount => "Username or email already " + "exists" + "."
    case RegistrationFailed => "Database error during registration."
    case BadCredentials => "อีเมลหรือรหัสผ่านไม่ถูกต้อง" + " กรุณาตรวจสอบอีกครั้ง"
    case AccountSuspended => "บัญชีของคุณถูกระงับ" + "การใช้งาน กรุณาติดต่อผู้ดูแลระบบ"
    case NoRefreshToken => "ไม่พบ " + "Refresh Token"
    case UnknownRefreshToken => "Refresh Token" + " ไม่ถูกต้องหรือไม่ได้รับอนุญาต"
    case SessionExpired => "Session หมดอายุ" + " กรุณาเข้าสู่ระบบใหม่อีกครั้ง"
    case AccountUnavailable => "ไม่พบผู้ใช้หรือบัญชีถูกระงับ"
  }

  /** The state after an operation together with what it returned or threw. */
  datatype Outcome<T> = Outcome(store: Store, result: Result<T, AuthError>)

  /** The body of a registration request; a missing property is `None`. */
  datatype RegisterInput = RegisterInput(
    username: Option<string>,
    email: Option<string>,
    password: Option<string>,
    role: Option<string>,
    firstName: Option<string>,
    lastName: Option<string>,
    bio: Option<string>)

  /** The four properties registration insists on are all truthy. */
  predicate HasRequiredFields(input: RegisterInput)
  {
    Truthy(input.username) && Truthy(input.email) && Truthy(input.password) && Truthy(input.role)
  }

  /** The row `INSERT ... RETURNING id, username, email, role, created_at` yields. */
  datatype NewUser = NewUser(id: UserId, username: string, email: string, role: string, createdAt: Time)

  /** The user object returned by login. */
  datatype UserView = UserView(id: UserId, username: string, email: string, role: string)

  /** What a successful login returns. */
  datatype LoginResult = LoginResult(accessToken: AccessToken, refreshToken: string, user: UserView)

  /** `jwt.sign({ userId, role }, secret, { expiresIn: "15m" })`. */
  function IssueAccessToken(uid: UserId, role: string, now: Time): (t: AccessToken)
    ensures t.userId == uid && t.role == role
    ensures t.expiresAt - now == AccessLifetime
  {
    AccessToken(uid, role, now + AccessLifetime)
  }

  /** The row registration inserts; the password is stored only as its digest. */
  function NewUserRow(input: RegisterInput, now: Time): User
    requires HasRequiredFields(input)
  {
    User(input.username.value, input.email.value, Hash(input.password.value), input.role.value,
         true, input.firstName, input.lastName, input.bio, now)
  }

  /** The error registration reports for a failed insert with driver code `code`. */
  function InsertError(code: string): (e: AuthError)
    ensures e == DuplicateAccount <==> code == UniqueViolation
    ensures e == DuplicateAccount || e == RegistrationFailed
  {
    if code == UniqueViolation then DuplicateAccount else RegistrationFailed
  }

  /**
   `registerUser`. `fault` is a driver failure unrelated to the data, given by
   its error code.
   */
  function RegisterUser(st: Store, input: RegisterInput, now: Time, fault: Option<string>): (o: Outcome<NewUser>)
    ensures o.result == Err(MissingFields) <==> !HasRequiredFields(input)
    ensures o.result.Err? ==> o.store == st
    ensures o.result == Err(DuplicateAccount) <==>
      && HasRequiredFields(input)
      && (if fault.Some? then fault.value == UniqueViolation
          else Taken(st.users, input.username.value, input.email.value))
    ensures o.result == Err(RegistrationFailed) <==>
      HasRequiredFields(input) && fault.Some? && fault.value != UniqueViolation
    ensures o.result.Ok? ==>
      && HasRequiredFields(input)
      && fault.None?
      && !Taken(st.users, input.username.value, input.email.value)
      && (Valid(st) ==> o.result.value.id !in st.users)
      && o.store.users == st.users[o.result.value.id := NewUserRow(input, now)]
      && o.store.refreshTokens == st.refreshTokens
      && o.result.value == NewUser(o.result.value.id, input.username.value, input.email.value,
                                   input.role.value, now)
  {
    if !HasRequiredFields(input) then Outcome(st, Err(MissingFields))
    else
      match InsertUser(st, NewUserRow(input, now), fault)
      case Err(code) => Outcome(st, Err(InsertError(code)))
      case Ok((st', id)) =>
        Outcome(st', Ok(NewUser(id, input.username.value, input.email.value, input.role.value, now)))
  }

  /** Some user has this email and the password matches their stored digest. */
  predicate Authenticates(users: map<UserId, User>, email: string, password: string)
  {
    exists id :: id in users && users[id].email == email && Compare(password, users[id].passwordHash)
  }

  /**
   `loginUser`. `freshToken` stands for `crypto.randomBytes(64)` in hex, and
   `now` for the clock.
   */
  function LoginUser(st: Store, email: string, password: string, now: Time, freshToken: string): (o: Outcome<LoginResult>)
    requires UniqueEmails(st.users)
    ensures o.result == Err(BadCredentials) <==> !Authenticates(st.users, email, password)
    ensures o.result == Err(AccountSuspended) <==>
      exists id :: id in st.users && st.users[id].email == email
        && Compare(password, st.users[id].passwordHash) && !st.users[id].isActive
    ensures o.result.Ok? <==>
      exists id :: id in st.users && st.users[id].email == email
        && Compare(password, st.users[id].passwordHash) && st.users[id].isActive
    ensures o.result.Err? ==> o.store == st
    ensures o.result.Ok? ==>
      var uid := o.result.value.user.id;
      && uid in st.users
      && st.users[uid].email == email
      && st.users[uid].isActive
      && o.result.value.accessToken == IssueAccessToken(uid, st.users[uid].role, now)
      && o.result.value.refreshToken == freshToken
      && o.result.value.user == UserView(uid, st.users[uid].username, email, st.users[uid].role)
      && o.store.users == st.users
      && RowsOf(o.store.refreshTokens, uid) == [RefreshRow(st.nextTokenId, uid, freshToken, now + RefreshLifetime)]
      && (forall other :: other != uid ==> RowsOf(o.store.refreshTokens, other) == RowsOf(st.refreshTokens, other))
  {
    match FindUserByEmail(st.users, email)
    case None => Outcome(st, Err(BadCredentials))
    case Some(uid) =>
      var user := st.users[uid];
      if !Compare(password, user.passwordHash) then Outcome(st, Err(BadCredentials))
      else if !user.isActive then Outcome(st, Err(AccountSuspended))
      else
        var access := IssueAccessToken(uid, user.role, now);
        var cleared := st.(refreshTokens := DeleteRowsOfUser(st.refreshTokens, uid));
        var st' := InsertRefreshRow(cleared, uid, freshToken, now + RefreshLifetime);
        LoginReplacesSessions(st, uid, freshToken, now + RefreshLifetime);
        Outcome(st', Ok(LoginResult(access, freshToken, UserView(uid, user.username, user.email, user.role))))
  }

  /** Deleting a user's refresh tokens and inserting one leaves exactly that one. */
  lemma LoginReplacesSessions(st: Store, uid: UserId, token: string, expiresAt: Time)
    ensures var st' := InsertRefreshRow(st.(refreshTokens := DeleteRowsOfUser(st.refreshTokens, uid)), uid, token, expiresAt);
      && RowsOf(st'.refreshTokens, uid) == [RefreshRow(st.nextTokenId, uid, token, expiresAt)]
      && forall other :: other != uid ==> RowsOf(st'.refreshTokens, other) == RowsOf(st.refreshTokens, other)
  {
    var row := RefreshRow(st.nextTokenId, uid, token, expiresAt);
    forall other | other != uid
      ensures RowsOf(DeleteRowsOfUser(st.refreshTokens, uid) + [row], other) == RowsOf(st.refreshTokens, other)
    {
      SingleSessionAfterReplace(st.refreshTokens, row, other);
    }
    SingleSessionAfterReplace(st.refreshTokens, row, uid);
  }

  /**
   `refreshAccessToken`. `token` is the cookie value, `None` when absent; `now`
   stands for the clock.
   */
  function RefreshAccessToken(st: Store, token: Option<string>, now: Time): (o: Outcome<AccessToken>)
    ensures !Truthy(token) ==> o == Outcome(st, Err(NoRefreshToken))
    ensures o.result == Err(UnknownRefreshToken) <==>
      Truthy(token) && forall i :: 0 <= i < |st.refreshTokens| ==> st.refreshTokens[i].token != token.value
    ensures o.result != Err(SessionExpired) ==> o.store == st
    ensures o.result == Err(SessionExpired) ==>
      && Truthy(token)
      && (exists row :: row in st.refreshTokens && row.token == token.value && row.expiresAt < now
            && o.store.refreshTokens == DeleteRowById(st.refreshTokens, row.id))
      && o.store.users == st.users
    ensures o.result.Ok? ==>
      && Truthy(token)
      && (exists row :: row in st.refreshTokens && row.token == token.value && now <= row.expiresAt
            && row.userId in st.users && st.users[row.userId].isActive
            && o.result.value == IssueAccessToken(row.userId, st.users[row.userId].role, now))
    ensures Truthy(token) && FindRefreshToken(st.refreshTokens, token.value).Some? ==>
      var row := FindRefreshToken(st.refreshTokens, token.value).value;
      && (row.expiresAt < now ==>
            o == Outcome(st.(refreshTokens := DeleteRowById(st.refreshTokens, row.id)), Err(SessionExpired)))
      && (now <= row.expiresAt && (row.userId !in st.users || !st.users[row.userId].isActive) ==>
            o == Outcome(st, Err(AccountUnavailable)))
      && (now <= row.expiresAt && row.userId in st.users && st.users[row.userId].isActive ==>
            o == Outcome(st, Ok(IssueAccessToken(row.userId, st.users[row.userId].role, now))))
  {
    if !Truthy(token) then Outcome(st, Err(NoRefreshToken))
    else
      match FindRefreshToken(st.refreshTokens, token.value)
      case None => Outcome(st, Err(UnknownRefreshToken))
      case Some(row) =>
        if row.expiresAt < now then
          Outcome(st.(refreshTokens := DeleteRowById(st.refreshTokens, row.id)), Err(SessionExpired))
        else if row.userId !in st.users || !st.users[row.userId].isActive then
          Outcome(st, Err(AccountUnavailable))
        else
          Outcome(st, Ok(IssueAccessToken(row.userId, st.users[row.userId].role, now)))
  }

  // ----- properties of the session manager -----

  /** A successful registration stores the digest of the password, which accepts that password only. */
  lemma RegisterStoresDigest(st: Store, input: RegisterInput, now: Time)
    requires HasRequiredFields(input)
    requires !Taken(st.users, input.username.value, input.email.value)
    ensures var o := RegisterUser(st, input, now, None);
      && o.result.Ok?
      && o.result.value.id in o.store.users
      && var stored := o.store.users[o.result.value.id].passwordHash;
         && stored == Hash(input.password.value)
         && forall attempt :: Compare(attempt, stored) <==> attempt == input.password.value
  {
  }

  /** Registration keeps the database within its constraints. */
  lemma RegisterPreservesValid(st: Store, input: RegisterInput, now: Time, fault: Option<string>)
    requires Valid(st)
    ensures Valid(RegisterUser(st, input, now, fault).store)
  {
  }

  /** Once an email is registered, registering it again reports a duplicate account. */
  lemma RegisterSameEmailTwice(st: Store, first: RegisterInput, second: RegisterInput, now: Time, later: Time)
    requires RegisterUser(st, first, now, None).result.Ok?
    requires HasRequiredFields(second) && second.email == first.email
    ensures var st' := RegisterUser(st, first, now, None).store;
      RegisterUser(st', second, later, None).result == Err(DuplicateAccount)
  {
    var o := RegisterUser(st, first, now, None);
    var id := o.result.value.id;
    assert id in o.store.users && o.store.users[id].email == second.email.value;
  }

  /** An unknown email and a wrong password produce exactly the same outcome. */
  lemma LoginFailuresIndistinguishable(
    st: Store, unknown: string, anyPassword: string, known: string, wrongPassword: string,
    now: Time, token1: string, token2: string)
    requires UniqueEmails(st.users)
    requires forall id :: id in st.users ==> st.users[id].email != unknown
    requires exists id :: id in st.users && st.users[id].email == known
    requires forall id :: id in st.users && st.users[id].email == known ==>
      !Compare(wrongPassword, st.users[id].passwordHash)
    ensures LoginUser(st, unknown, anyPassword, now, token1) == LoginUser(st, known, wrongPassword, now, token2)
    ensures LoginUser(st, unknown, anyPassword, now, token1) == Outcome(st, Err(BadCredentials))
  {
  }

  /** A wrong password on a suspended account still gets the generic credentials error. */
  lemma SuspensionHiddenBehindPassword(st: Store, email: string, password: string, now: Time, token: string)
    requires UniqueEmails(st.users)
    requires exists id :: id in st.users && st.users[id].email == email && !st.users[id].isActive
    ensures LoginUser(st, email, password, now, token).result == Err(AccountSuspended) <==>
      exists id :: id in st.users && st.users[id].email == email && st.users[id].passwordHash == Hash(password)
  {
  }

  /** Login keeps the database within its constraints when the new token is unused. */
  lemma LoginPreservesValid(st: Store, email: string, password: string, now: Time, freshToken: string)
    requires Valid(st)
    requires forall i :: 0 <= i < |st.refreshTokens| ==> st.refreshTokens[i].token != freshToken
    ensures Valid(LoginUser(st, email, password, now, freshToken).store)
  {
    var o := LoginUser(st, email, password, now, freshToken);
    if o.result.Ok? {
      var uid := o.result.value.user.id;
      var kept := DeleteRowsOfUser(st.refreshTokens, uid);
      var row := RefreshRow(st.nextTokenId, uid, freshToken, now + RefreshLifetime);
      var keep := (r: RefreshRow) => r.userId != uid;
      KeepPreservesDistinct(st.refreshTokens, keep, (r: RefreshRow) => r.id);
      KeepPreservesDistinct(st.refreshTokens, keep, (r: RefreshRow) => r.token);
      assert o.store.refreshTokens == kept + [row];
      AppendKeepsDistinct(kept, row, st.nextTokenId, freshToken);
    }
  }

  /** Appending a row whose id and token are new keeps ids and tokens distinct. */
  lemma AppendKeepsDistinct(rows: seq<RefreshRow>, row: RefreshRow, nextId: nat, token: string)
    requires DistinctBy(rows, (r: RefreshRow) => r.id)
    requires DistinctBy(rows, (r: RefreshRow) => r.token)
    requires forall i :: 0 <= i < |rows| ==> rows[i].id < nextId && rows[i].token != token
    requires row.id == nextId && row.token == token
    ensures DistinctBy(rows + [row], (r: RefreshRow) => r.id)
    ensures DistinctBy(rows + [row], (r: RefreshRow) => r.token)
    ensures forall i :: 0 <= i < |rows + [row]| ==> (rows + [row])[i].id <= nextId
  {
  }

  /** A second login leaves only the newer refresh token; the older one is no longer found. */
  lemma SecondLoginRevokesFirst(st: Store, email: string, password: string, now: Time, later: Time, t1: string, t2: string)
    requires Valid(st)
    requires LoginUser(st, email, password, now, t1).result.Ok?
    requires t1 != t2
    ensures var st1 := LoginUser(st, email, password, now, t1).store;
      var o2 := LoginUser(st1, email, password, later, t2);
      var uid := o2.result.value.user.id;
      && o2.result.Ok?
      && uid == LoginUser(st, email, password, now, t1).result.value.user.id
      && RowsOf(o2.store.refreshTokens, uid) == [RefreshRow(st1.nextTokenId, uid, t2, later + RefreshLifetime)]
      && forall i :: 0 <= i < |o2.store.refreshTokens| && o2.store.refreshTokens[i].token == t1 ==>
           o2.store.refreshTokens[i].userId != uid
  {
  }

  /** Refresh keeps the database within its constraints. */
  lemma RefreshPreservesValid(st: Store, token: Option<string>, now: Time)
    requires Valid(st)
    ensures Valid(RefreshAccessToken(st, token, now).store)
  {
    var o := RefreshAccessToken(st, token, now);
    if o.result == Err(SessionExpired) {
      var row :| row in st.refreshTokens && row.token == token.value && row.expiresAt < now
        && o.store.refreshTokens == DeleteRowById(st.refreshTokens, row.id);
      var drop := (r: RefreshRow) => r.id != row.id;
      KeepPreservesDistinct(st.refreshTokens, drop, (r: RefreshRow) => r.id);
      KeepPreservesDistinct(st.refreshTokens, drop, (r: RefreshRow) => r.token);
    }
  }

  /** An expired token is deleted, so presenting it again reports an unknown token. */
  lemma RefreshExpiredThenUnknown(st: Store, token: string, now: Time, later: Time)
    requires Valid(st)
    requires RefreshAccessToken(st, Some(token), now).result == Err(SessionExpired)
    ensures RefreshAccessToken(RefreshAccessToken(st, Some(token), now).store, Some(token), later).result
      == Err(UnknownRefreshToken)
  {
  }

  /**
   Presenting the token of any stored row: past its expiry the row is deleted
   and the session reported expired; otherwise a missing or suspended owner is
   reported, and an active owner gets a new access token with their current role.
   */
  lemma RefreshOfStoredRow(st: Store, i: nat, now: Time)
    requires i < |st.refreshTokens|
    requires DistinctBy(st.refreshTokens, (r: RefreshRow) => r.token)
    requires st.refreshTokens[i].token != ""
    ensures var row := st.refreshTokens[i];
      var o := RefreshAccessToken(st, Some(row.token), now);
      && (row.expiresAt < now ==>
            o == Outcome(st.(refreshTokens := DeleteRowById(st.refreshTokens, row.id)), Err(SessionExpired)))
      && (now <= row.expiresAt && (row.userId !in st.users || !st.users[row.userId].isActive) ==>
            o == Outcome(st, Err(AccountUnavailable)))
      && (now <= row.expiresAt && row.userId in st.users && st.users[row.userId].isActive ==>
            o == Outcome(st, Ok(IssueAccessToken(row.userId, st.users[row.userId].role, now))))
  {
    FindStoredToken(st.refreshTokens, i);
  }

  /** A token is still accepted at the very instant it expires. */
  lemma RefreshAcceptedAtExpiryInstant(st: Store, i: nat)
    requires i < |st.refreshTokens|
    requires DistinctBy(st.refreshTokens, (r: RefreshRow) => r.token)
    requires st.refreshTokens[i].token != ""
    requires st.refreshTokens[i].userId in st.users && st.users[st.refreshTokens[i].userId].isActive
    ensures var row := st.refreshTokens[i];
      RefreshAccessToken(st, Some(row.token), row.expiresAt)
        == Outcome(st, Ok(IssueAccessToken(row.userId, st.users[row.userId].role, row.expiresAt)))
  {
    RefreshOfStoredRow(st, i, st.refreshTokens[i].expiresAt);
  }

  /**
   The refresh token handed out by login renews the access token, with the
   user's role re-read from the store, at any time up to its expiry, leaving
   the store untouched so it can be used again; after its expiry it is refused.
   */
  lemma LoginThenRefresh(st: Store, email: string, password: string, now: Time, freshToken: string, later: Time)
    requires Valid(st)
    requires freshToken != ""
    requires forall i :: 0 <= i < |st.refreshTokens| ==> st.refreshTokens[i].token != freshToken
    requires LoginUser(st, email, password, now, freshToken).result.Ok?
    ensures var o := LoginUser(st, email, password, now, freshToken);
      var uid := o.result.value.user.id;
      var r := RefreshAccessToken(o.store, Some(freshToken), later);
      && (later <= now + RefreshLifetime ==>
            r == Outcome(o.store, Ok(IssueAccessToken(uid, st.users[uid].role, later))))
      && (later > now + RefreshLifetime ==> r.result == Err(SessionExpired))
  {
    var o := LoginUser(st, email, password, now, freshToken);
    var uid := o.result.value.user.id;
    LoginPreservesValid(st, email, password, now, freshToken);
    var rows := o.store.refreshTokens;
    var row := RefreshRow(st.nextTokenId, uid, freshToken, now + RefreshLifetime);
    assert row in RowsOf(rows, uid);
    var i :| 0 <= i < |rows| && rows[i] == row;
    var found := FindRefreshToken(rows, freshToken);
    var k :| 0 <= k < |rows| && rows[k] == found.value;
    assert k == i;
  }
}

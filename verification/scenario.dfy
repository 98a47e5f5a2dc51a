/**
 One walk through the whole credential lifecycle, across the service, the
 middleware and the HTTP handlers: register, log in, be turned away from an
 admin-only route, and renew the access token with the refresh cookie.
 */
module Scenario {
  import opened Wrappers
  import opened CredentialStore
  import opened AuthService
  import opened AuthMiddleware
  import opened AuthController

  /** The registration body of the walk-through. */
  function Alice(): RegisterInput
  {
    RegisterInput(Some("alice"), Some("a@x.com"), Some("Secret123!"), Some("user"), None, None, None)
  }

  /**
   Registering alice answers 201; logging in with the same credentials answers
   200 with an access token for her id and role; that token, sent as a bearer
   header while it is fresh, is accepted by `verifyToken` but refused by an
   admin-only `authorizeRoles`; and the refresh cookie set by the login, used
   any time before it expires, answers 200 with a new access token carrying
   the same user and role.
   */
  lemma RegisterLoginAuthorizeRefresh(
    st: Store, now: Time, refreshToken: string, accessJwt: string, soon: Time, later: Time)
    requires Valid(st)
    requires !Taken(st.users, "alice", "a@x.com")
    requires refreshToken != ""
    requires forall i :: 0 <= i < |st.refreshTokens| ==> st.refreshTokens[i].token != refreshToken
    requires accessJwt != "" && ' ' !in accessJwt
    requires now <= soon < now + AccessLifetime
    requires now <= later <= now + RefreshLifetime
    ensures var (st1, registered) := Register(st, Alice(), now, None);
      && registered.status == 201
      && UniqueEmails(st1.users)
      && var (st2, login) := Login(st1, "a@x.com", "Secret123!", now, refreshToken, true);
         && login.reply.status == 200
         && login.cookie == Some(RefreshCookie(refreshToken, true))
         && var claims := login.reply.payload.value.accessToken;
            && claims.userId == registered.payload.value.id
            && claims.role == "user"
            && var gate := VerifyToken(Some(BearerPrefix + accessJwt), JwtVerify(map[accessJwt := claims]), soon);
               && gate == Next(claims)
               && AuthorizeRoles(["admin"], Some(gate.user)) == Reject(403, NoPermissionMessage)
               && var (st3, renewed) := Refresh(st2, Some(refreshToken), later);
                  && renewed.status == 200
                  && renewed.payload.value.userId == claims.userId
                  && renewed.payload.value.role == claims.role
  {
    var (st1, registered) := Register(st, Alice(), now, None);
    var o1 := RegisterUser(st, Alice(), now, None);
    assert o1.result.Ok?;
    RegisterPreservesValid(st, Alice(), now, None);
    var id := o1.result.value.id;
    assert st1.users[id].email == "a@x.com" && st1.users[id].passwordHash == Hash("Secret123!");
    assert Authenticates(st1.users, "a@x.com", "Secret123!");
    var o2 := LoginUser(st1, "a@x.com", "Secret123!", now, refreshToken);
    assert o2.result != Err(AccountSuspended) by {
      assert forall other :: other in st1.users && st1.users[other].email == "a@x.com" ==> other == id;
    }
    assert o2.result.value.user.id == id;
    var claims := o2.result.value.accessToken;
    AccessTokenWindow(map[accessJwt := claims], accessJwt, soon);
    LoginThenRefresh(st1, "a@x.com", "Secret123!", now, refreshToken, later);
  }
}

/**
 The authorization gate of `src/middlewares/authMiddleware.js`: `verifyToken`
 authenticates the bearer access token of a request, `authorizeRoles` admits
 only the listed roles. Each middleware either passes the request on with
 `next()` or ends it with a status and a message.
 */
module AuthMiddleware {
  import opened Wrappers
  import opened Text
  import opened CredentialStore
  import opened AuthService

  /** What `jwt.verify` does with a token: return its payload, or throw. */
  datatype Verification = Verified(claims: AccessToken) | TokenExpired | SignatureInvalid | Malformed

  /** A middleware's decision: call `next()` with `req.user` set, or respond. */
  datatype Gate = Next(user: AccessToken) | Reject(status: int, message: string)

  const MissingTokenMessage: string := "Unauthorized: No token provided or malformed token"
  const InvalidTokenMessage: string := "Forbidden: Invalid or expired token"
  const NoUserMessage: string := "Forbidden: User data not found"
  const NoPermissionMessage: string := "Forbidden: You do not have the required permissions."

  /** The scheme prefix the `Authorization` header must start with. */
  const BearerPrefix: string := "Bearer "

  /**
   `authHeader.split(" ")[1]`: the text after the first space up to the next
   space, when the header starts with the bearer prefix.
   */
  function BearerToken(header: string): (token: string)
    requires BearerPrefix <= header
    ensures ' ' !in token
    ensures token <= header[|BearerPrefix|..]
    ensures |BearerPrefix| + |token| == |header| || header[|BearerPrefix| + |token|] == ' '
  {
    assert header == "Bearer" + [' '] + header[|BearerPrefix|..];
    SplitAtSeparator("Bearer", header[|BearerPrefix|..], ' ');
    Split(header, ' ')[1]
  }

  /** A header made of the prefix and a space-free token yields that token. */
  lemma BearerTokenOfWellFormedHeader(token: string)
    requires ' ' !in token
    ensures BearerToken(BearerPrefix + token) == token
  {
  }

  /**
   `verifyToken`. `header` is the `Authorization` header, `verify` stands for
   `jwt.verify` with the server's secret and `now` for the clock it reads.
   */
  function VerifyToken(header: Option<string>, verify: (string, Time) -> Verification, now: Time): (g: Gate)
    ensures g == Reject(401, MissingTokenMessage) <==> !Truthy(header) || !(BearerPrefix <= header.value)
    ensures g.Next? <==>
      Truthy(header) && BearerPrefix <= header.value && verify(BearerToken(header.value), now).Verified?
    ensures g.Next? ==> g.user == verify(BearerToken(header.value), now).claims
    ensures g.Reject? ==> g == Reject(401, MissingTokenMessage) || g == Reject(403, InvalidTokenMessage)
  {
    if !Truthy(header) || !(BearerPrefix <= header.value) then
      Reject(401, MissingTokenMessage)
    else
      match verify(BearerToken(header.value), now)
      case Verified(claims) => Next(claims)
      case _ => Reject(403, InvalidTokenMessage)
  }

  /** Whichever way verification fails, the response is the same. */
  lemma VerifyFailuresLookAlike(
    header: string, v1: (string, Time) -> Verification, v2: (string, Time) -> Verification, now: Time)
    requires BearerPrefix <= header
    requires !v1(BearerToken(header), now).Verified? && !v2(BearerToken(header), now).Verified?
    ensures VerifyToken(Some(header), v1, now) == VerifyToken(Some(header), v2, now) == Reject(403, InvalidTokenMessage)
  {
  }

  /**
   `jwt.verify` relative to the tokens the server has signed: `signed` maps
   each token string it issued to the claims inside. Anything else fails the
   signature check; a signed token is expired from its expiry instant on.
   */
  function JwtVerify(signed: map<string, AccessToken>): (string, Time) -> Verification
  {
    (token: string, now: Time) =>
      if token !in signed then SignatureInvalid
      else if now >= signed[token].expiresAt then TokenExpired
      else Verified(signed[token])
  }

  /**
   A signed access token sent as `Bearer <token>` passes exactly while it is
   unexpired, and then `req.user` carries its claims; a token the server never
   signed is refused the same way an expired one is.
   */
  lemma AccessTokenWindow(signed: map<string, AccessToken>, token: string, now: Time)
    requires ' ' !in token && token != ""
    ensures var g := VerifyToken(Some(BearerPrefix + token), JwtVerify(signed), now);
      && (token in signed && now < signed[token].expiresAt ==> g == Next(signed[token]))
      && (token in signed && now >= signed[token].expiresAt ==> g == Reject(403, InvalidTokenMessage))
      && (token !in signed ==> g == Reject(403, InvalidTokenMessage))
  {
    BearerTokenOfWellFormedHeader(token);
  }

  /** `authorizeRoles(allowed)` applied to `req.user`. */
  function AuthorizeRoles(allowed: seq<string>, user: Option<AccessToken>): (g: Gate)
    ensures g.Next? <==> user.Some? && user.value.role in allowed
    ensures g.Next? ==> g.user == user.value
    ensures user.None? ==> g == Reject(403, NoUserMessage)
    ensures user.Some? && user.value.role !in allowed ==> g == Reject(403, NoPermissionMessage)
  {
    match user
    case None => Reject(403, NoUserMessage)
    case Some(claims) =>
      if claims.role in allowed then Next(claims) else Reject(403, NoPermissionMessage)
  }

  /** A plain user is kept out of an admin-only route; an admin passes a route open to both. */
  lemma RoleExamples(uid: UserId, exp: Time)
    ensures AuthorizeRoles(["admin"], Some(AccessToken(uid, "user", exp))).Reject?
    ensures AuthorizeRoles(["admin", "user"], Some(AccessToken(uid, "admin", exp))).Next?
  {
  }
}

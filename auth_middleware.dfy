/** server/middleware/auth.ts: the Express access gate. Token verification
    (`jwt.verify`) is a parameter: it yields the decoded claims, or None where
    the library throws (bad signature, expired token). */
module AuthMiddleware {
  import opened Common
  import opened Text
  import Api

  /** The JWT payload `{ userId, email, role }`; `userId` may be missing. */
  datatype Claims = Claims(userId: Option<Id>, email: string, role: string)

  /** `req.user` */
  datatype AuthUser = AuthUser(userId: Option<Id>, email: string, role: string)

  /** What a middleware does with the request: pass it on (`next()`, once)
      or answer it with an error status. */
  datatype Outcome = Next | Halt(status: int, error: string)

  const BearerPrefix: string := "Bearer "

  /** The token of an `Authorization` header: present iff the header starts
      with "Bearer ", and then the header is that prefix followed by the token. */
  function BearerToken(header: Option<string>): (token: Option<string>)
    ensures token.Some? <==> header.Some? && StartsWith(header.value, BearerPrefix)
    ensures token.Some? ==> header.value == BearerPrefix + token.value
  {
    if header.Some? && StartsWith(header.value, BearerPrefix) then Some(header.value[7..]) else None
  }

  /** The header the client sends for a token is parsed back to that token. */
  lemma {:induction false} AuthHeaderRoundTrip(token: string)
    requires token != ""
    ensures "Authorization" in Api.AuthHeaders(Some(token))
    ensures BearerToken(Some(Api.AuthHeaders(Some(token))["Authorization"])) == Some(token)
  {
    var h := BearerPrefix + token;
    assert h[..|BearerPrefix|] == BearerPrefix;
    assert h[7..] == token;
  }

  /** The incoming request: its `Authorization` header and the `user` slot the gate fills. */
  class Request {
    const authorization: Option<string>
    var user: Option<AuthUser>

    constructor (authorization: Option<string>)
      ensures this.authorization == authorization && user.None?
    {
      this.authorization := authorization;
      user := None;
    }
  }

  /** `authenticateToken`: 401 without a bearer header, 403 when verification
      throws, otherwise `req.user` is set from the claims and the request goes on. */
  method AuthenticateToken(req: Request, verify: string -> Option<Claims>) returns (outcome: Outcome)
    modifies req`user
    ensures BearerToken(req.authorization).None? ==>
      outcome == Halt(401, "Access token required") && req.user == old(req.user)
    ensures BearerToken(req.authorization).Some? && verify(BearerToken(req.authorization).value).None? ==>
      outcome == Halt(403, "Invalid or expired token") && req.user == old(req.user)
    ensures outcome == Next <==>
      BearerToken(req.authorization).Some? && verify(BearerToken(req.authorization).value).Some?
    ensures outcome == Next ==>
      var c := verify(BearerToken(req.authorization).value).value;
      req.user == Some(AuthUser(c.userId, c.email, c.role))
  {
    var header := req.authorization;
    if !(header.Some? && StartsWith(header.value, BearerPrefix)) {
      return Halt(401, "Access token required");
    }
    var token := header.value[7..];
    var decoded := verify(token);
    if decoded.None? {
      return Halt(403, "Invalid or expired token");
    }
    req.user := Some(AuthUser(decoded.value.userId, decoded.value.email, decoded.value.role));
    outcome := Next;
  }

  /** `requireAuth`: 401 unless a user is attached. */
  function RequireAuth(user: Option<AuthUser>): (r: Outcome)
    ensures r == Next <==> user.Some?
    ensures r != Next ==> r == Halt(401, "Authentication required")
  {
    if user.None? then Halt(401, "Authentication required") else Next
  }

  /** `requireAdmin`: 401 without a user, 403 for a role other than "admin";
      whatever it lets through also passes `requireAuth`. */
  function RequireAdmin(user: Option<AuthUser>): (r: Outcome)
    ensures r == Next <==> user.Some? && user.value.role == "admin"
    ensures user.None? ==> r == Halt(401, "Authentication required")
    ensures user.Some? && user.value.role != "admin" ==> r == Halt(403, "Admin access required")
    ensures r == Next ==> RequireAuth(user) == Next
  {
    if user.None? then Halt(401, "Authentication required")
    else if user.value.role != "admin" then Halt(403, "Admin access required")
    else Next
  }
}

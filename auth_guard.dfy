/** `authMiddleware` (middlewares/auth.js): the guard every protected route runs first. */
module AuthGuard {
  import opened Common
  import Jwt

  /** The key the guard verifies tokens with. */
  const VerificationKey: string := "mysecret"

  /** `req.user`: the identity a verified token carries. */
  datatype AuthUser = AuthUser(id: Id)

  /** What the guard does with a request: redirect, or call `next()` for this identity. */
  datatype Decision = RedirectToRegister | RedirectToLogin | Proceed(user: AuthUser)

  /** `if (!authToken)`: the cookie is missing, or is the empty (falsy) string. */
  predicate TokenPresent(cookie: Option<Jwt.Token>)
  {
    cookie.Some? && cookie.value != Jwt.Malformed("")
  }

  /** The guard's three-way decision on the `authToken` cookie. */
  function Decide(cookie: Option<Jwt.Token>): (d: Decision)
    ensures d == RedirectToRegister <==> !TokenPresent(cookie)
    ensures d == RedirectToLogin <==> TokenPresent(cookie) && Jwt.Verify(cookie.value, VerificationKey).None?
    ensures d.Proceed? ==> cookie == Some(Jwt.Sign(d.user.id, VerificationKey))
  {
    if !TokenPresent(cookie) then RedirectToRegister
    else match Jwt.Verify(cookie.value, VerificationKey)
      case None => RedirectToLogin
      case Some(id) => Proceed(AuthUser(id))
  }

  /** The parts of an Express request the guard reads and writes. */
  class Request {
    var authToken: Option<Jwt.Token>
    var user: Option<AuthUser>

    constructor (cookie: Option<Jwt.Token>)
      ensures authToken == cookie && user == None
    {
      authToken := cookie;
      user := None;
    }
  }

  /** Runs the guard on `req`. `req.user` is set only when the token verifies, and then to
      the token's subject; the returned decision tells whether `next()` was called. */
  method AuthMiddleware(req: Request) returns (d: Decision)
    modifies req`user
    ensures d == Decide(req.authToken)
    ensures d.Proceed? ==> req.user == Some(d.user)
    ensures !d.Proceed? ==> req.user == old(req.user)
  {
    var authToken := req.authToken;
    if !TokenPresent(authToken) {
      return RedirectToRegister;
    }
    var decoded := Jwt.Verify(authToken.value, VerificationKey);
    match decoded
    case None =>
      d := RedirectToLogin;
    case Some(id) =>
      req.user := Some(AuthUser(id));
      d := Proceed(AuthUser(id));
  }

  /** The guard lets a token through, for user `u`, exactly when it was signed for `u`
      with the guard's key. */
  lemma GuardAcceptsExactlySignedTokens(t: Jwt.Token, u: Id)
    ensures Decide(Some(t)) == Proceed(AuthUser(u)) <==> t == Jwt.Sign(u, VerificationKey)
  {
  }
}

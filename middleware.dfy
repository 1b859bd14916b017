/** The two Express middlewares of main/middleware/auth.js. Signature
    checking (jwt.verify with the configured secret) is the parameter
    `verify`, which yields the decoded payload or fails. */
module Middleware {
  import opened Wrappers
  import opened JsText

  /** A decoded token payload; only the role is read by the application. */
  datatype Claims = Claims(userRole: Option<string>)

  /** What a middleware does: answer with a status and message, or pass the
      request on with next(). One value, so never both and never neither. */
  datatype Outcome = Respond(status: int, message: string) | Next

  const NoTokenMessage := "Access denied. No token provided."
  const BadTokenMessage := "Invalid or expired token."
  const NoUserMessage := "Authentication required."
  const NotAdminMessage := "Access denied. Admin privileges required."

  /** The request as the middlewares see it: the Authorization header and
      the `user` slot verifyToken fills in. */
  class Request {
    const authorization: Option<string>
    var user: Option<Claims>

    constructor (authorization: Option<string>)
      ensures this.authorization == authorization && user.None?
    {
      this.authorization := authorization;
      user := None;
    }
  }

  /** `req.headers['authorization']?.split(' ')[1]`: the second
      space-separated piece, undefined when the header or the piece is
      missing. */
  function TokenOf(header: Option<string>): (t: Option<string>)
    ensures t.Some? ==> header.Some? && |Split(header.value, " ")| >= 2 && t.value == Split(header.value, " ")[1]
    ensures header.Some? && |Split(header.value, " ")| >= 2 ==> t.Some?
  {
    if header.None? then None
    else
      var pieces := Split(header.value, " ");
      if |pieces| < 2 then None else Some(pieces[1])
  }

  /** "Bearer <token>" yields the token when it holds no space. */
  lemma TokenOfBearer(scheme: string, token: string)
    requires ' ' !in scheme && ' ' !in token
    ensures TokenOf(Some(scheme + " " + token)) == Some(token)
  {
    var h := scheme + " " + token;
    var n := |scheme|;
    forall i | 0 <= i < n ensures !OccursAt(h, " ", i) {
      assert h[i] == scheme[i];
      assert h[i..i + 1] == [h[i]];
    }
    assert OccursAt(h, " ", n) by { assert h[n..n + 1] == " "; }
    var r := IndexFrom(h, " ", 0);
    assert r == Some(n);
    assert h[n + 1..] == token;
    NoOccurrence(token, ' ');
    SplitWithout(token, " ");
    assert Split(h, " ") == [scheme, token] by {
      assert h[..n] == scheme;
    }
  }

  /** A header with no space carries no token. */
  lemma TokenOfWithoutSpace(header: string)
    requires ' ' !in header
    ensures TokenOf(Some(header)) == None
  {
    NoOccurrence(header, ' ');
    SplitWithout(header, " ");
  }

  /** verifyToken: 401 without a token (missing, or the empty string), 403
      when verification fails, and otherwise `req.user` is set to the
      decoded payload and next() is called. Nothing is written to the
      request on the two error paths. */
  method VerifyToken(req: Request, verify: string -> Option<Claims>) returns (out: Outcome)
    modifies req
    ensures var token := TokenOf(req.authorization);
      if token.None? || token.value == "" then out == Respond(401, NoTokenMessage) && req.user == old(req.user)
      else if verify(token.value).None? then out == Respond(403, BadTokenMessage) && req.user == old(req.user)
      else out == Next && req.user == verify(token.value)
  {
    var token := TokenOf(req.authorization);
    if token.None? || token.value == "" {
      return Respond(401, NoTokenMessage);
    }
    var decoded := verify(token.value);
    if decoded.None? {
      return Respond(403, BadTokenMessage);
    }
    req.user := decoded;
    out := Next;
  }

  /** isAdmin: 401 without a user on the request, 403 for any role other
      than 'admin' (an absent role included), next() for an admin. */
  function IsAdmin(user: Option<Claims>): (out: Outcome)
    ensures out == Next <==> user.Some? && user.value.userRole == Some("admin")
    ensures user.None? ==> out == Respond(401, NoUserMessage)
    ensures user.Some? && user.value.userRole != Some("admin") ==> out == Respond(403, NotAdminMessage)
  {
    if user.None? then Respond(401, NoUserMessage)
    else if user.value.userRole != Some("admin") then Respond(403, NotAdminMessage)
    else Next
  }

  /** A request passes both middlewares in turn exactly when it carries a
      token that verifies to an admin's payload. */
  lemma AdminChain(header: Option<string>, verify: string -> Option<Claims>)
    ensures var token := TokenOf(header);
      (token.Some? && token.value != "" && verify(token.value).Some? && IsAdmin(verify(token.value)) == Next)
      <==> (token.Some? && token.value != "" && verify(token.value).Some? && verify(token.value).value.userRole == Some("admin"))
  {
  }
}

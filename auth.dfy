/** The `authenticate` middleware: the bearer-header check, extraction of the
    token, and attaching the verified claim to the request. The signature
    and expiry check (`jwt.verify` with the process secret) is an oracle
    `verify` that returns the decoded claim or nothing. */
module Auth {
  import opened Wrappers
  import opened Text

  /** The identity claim `AuthRequest.user`: an id, an optional role and an
      optional list of permissions. */
  datatype Claim = Claim(id: int, role: Option<string>, permissions: Option<seq<string>>)

  /** What a middleware does with a request: pass it on with `next()`, or
      end it with a status and a `{message}` body. */
  datatype Outcome = Continue | Reject(status: int, message: string)

  const BearerPrefix: string := "Bearer "
  const Unauthorized: Outcome := Reject(401, "Unauthorized")
  const InvalidToken: Outcome := Reject(401, "Invalid or expired token")

  /** The header check and `split(" ")[1]`: the token when the header is
      present and starts with the exact text "Bearer ", and nothing
      otherwise. The token is the text after the prefix up to the next
      space or the end of the header. */
  function BearerToken(header: Option<string>): (token: Option<string>)
    ensures token.Some? <==> header.Some? && StartsWith(header.value, BearerPrefix)
    ensures token.Some? ==>
      var rest := header.value[|BearerPrefix|..];
      StartsWith(rest, token.value) && ' ' !in token.value &&
      (|token.value| == |rest| || rest[|token.value|] == ' ')
  {
    if header.Some? && StartsWith(header.value, BearerPrefix) then
      var h := header.value;
      assert h == "Bearer" + [' '] + h[|BearerPrefix|..];
      SplitAfterWord("Bearer", ' ', h[|BearerPrefix|..]);
      SplitHead(h[|BearerPrefix|..], ' ');
      Some(Split(h, ' ')[1])
    else
      None
  }

  /** The request as far as `authenticate` sees it: the raw `Authorization`
      header and the `user` slot the middleware fills in. */
  class AuthRequest {
    const authorization: Option<string>
    var user: Option<Claim>

    constructor (authorization: Option<string>)
      ensures this.authorization == authorization && user == None
    {
      this.authorization := authorization;
      user := None;
    }
  }

  /** `authenticate`: exactly one of a 401 response or `next()` after
      setting `req.user` to the verified claim. */
  method Authenticate(req: AuthRequest, verify: string -> Option<Claim>) returns (out: Outcome)
    modifies req`user
    ensures out == Continue || out == Unauthorized || out == InvalidToken
    ensures out == Unauthorized <==> BearerToken(req.authorization).None?
    ensures out == InvalidToken <==>
      BearerToken(req.authorization).Some? && verify(BearerToken(req.authorization).value).None?
    ensures out == Continue ==> req.user == verify(BearerToken(req.authorization).value)
    ensures out != Continue ==> req.user == old(req.user)
  {
    var token := BearerToken(req.authorization);
    if token.None? {
      return Unauthorized;
    }
    var decoded := verify(token.value);
    if decoded.None? {
      return InvalidToken;
    }
    req.user := decoded;
    out := Continue;
  }

  /** A request without an `Authorization` header never reaches `next()`. */
  lemma MissingHeaderIsUnauthorized()
    ensures BearerToken(None).None?
  {
  }

  /** The scheme is matched case-sensitively: a lower-case "bearer" prefix
      is refused. */
  lemma LowerCaseSchemeRefused(token: string)
    ensures BearerToken(Some("bearer " + token)).None?
  {
    assert ("bearer " + token)[0] != 'B';
  }

  /** The token handed to the verifier is exactly the text after "Bearer "
      when that text has no space in it. */
  lemma {:induction false} TokenAfterPrefix(token: string)
    requires ' ' !in token
    ensures BearerToken(Some(BearerPrefix + token)) == Some(token)
  {
    var h := BearerPrefix + token;
    assert StartsWith(h, BearerPrefix);
    assert h[|BearerPrefix|..] == token;
    var t := BearerToken(Some(h)).value;
    assert |t| == |token|;
    assert token[..|t|] == t;
    assert token[..|token|] == token;
  }
}

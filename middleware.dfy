/**
 * The two request gates of the service (internal/middleware/middleware.go):
 * the JWT gate, which picks the token from the `token' cookie or from a
 * `Bearer' Authorization header and has it verified, and the role gate,
 * which admits a request whose `role' cookie is on the route's allow-list.
 *
 * Cookies are given as `Option<string>' (None: the request has no such
 * cookie), and signature checking is the outside predicate `verify'.  Both
 * gates only decide; neither touches any state.
 */
module Middleware {
  import opened Models

  /** What a gate does with the request: pass it on, or answer and abort. */
  datatype Verdict = Next | Abort(status: int, message: string)

  const BadRequest := 400

  const TokenMissing := "Token missing in both cookies and Authorization header"
  const VerifyFailed := "Error verifying token"
  const NoRoleCookie := "No cookies named role"
  const RoleNotEnough := "Role is not enough"

  const BearerPrefix := "Bearer "

  /**
   * The token the JWT gate verifies: a non-empty `token' cookie wins;
   * otherwise the Authorization header must carry the "Bearer " prefix and the
   * token is what follows it.  None: the gate aborts before verifying.
   */
  function TokenSource(tokenCookie: Option<string>, header: string): (r: Option<string>)
    ensures tokenCookie.Some? && tokenCookie.value != "" ==> r == tokenCookie
    ensures (tokenCookie.None? || tokenCookie.value == "") ==>
              (r.Some? <==> |header| >= |BearerPrefix| && header[..|BearerPrefix|] == BearerPrefix)
    ensures (tokenCookie.None? || tokenCookie.value == "") && r.Some? ==> header == BearerPrefix + r.value
  {
    if tokenCookie.Some? && tokenCookie.value != "" then
      tokenCookie
    else if header == "" || |header| < 7 || header[..7] != BearerPrefix then
      None
    else
      assert header == header[..7] + header[7..];
      Some(header[7..])
  }

  /** Stripping is the inverse of prefixing: a "Bearer " header yields exactly its token. */
  lemma BearerRoundTrip(token: string)
    ensures TokenSource(None, BearerPrefix + token) == Some(token)
    ensures TokenSource(Some(""), BearerPrefix + token) == Some(token)
  {
    var header := BearerPrefix + token;
    assert header[..7] == BearerPrefix;
    assert header[7..] == token;
  }

  /** A header that is not a "Bearer " header gives no token, whatever follows. */
  lemma OtherSchemesRejected(header: string)
    requires |header| < 7 || header[..7] != BearerPrefix
    ensures TokenSource(None, header) == None
  {
  }

  /**
   * JWTMiddleware: abort with "Token missing ..." when there is no token,
   * with "Error verifying token" when verification fails, pass on otherwise.
   */
  function JwtGate(tokenCookie: Option<string>, header: string, verify: string -> bool): (v: Verdict)
    ensures v.Next? <==> TokenSource(tokenCookie, header).Some? && verify(TokenSource(tokenCookie, header).value)
    ensures TokenSource(tokenCookie, header).None? ==> v == Abort(BadRequest, TokenMissing)
    ensures v.Abort? && TokenSource(tokenCookie, header).Some? ==> v == Abort(BadRequest, VerifyFailed)
  {
    match TokenSource(tokenCookie, header)
    case None => Abort(BadRequest, TokenMissing)
    case Some(token) => if verify(token) then Next else Abort(BadRequest, VerifyFailed)
  }

  /** With a non-empty token cookie the Authorization header plays no part. */
  lemma CookieTakesPrecedence(cookie: string, header1: string, header2: string, verify: string -> bool)
    requires cookie != ""
    ensures JwtGate(Some(cookie), header1, verify) == JwtGate(Some(cookie), header2, verify)
    ensures JwtGate(Some(cookie), header1, verify).Next? <==> verify(cookie)
  {
  }

  /** The role gate's decision, as a function of the `role' cookie and the allow-list. */
  function RoleCheck(roleCookie: Option<string>, allowedRoles: seq<string>): Verdict
  {
    if roleCookie.None? then Abort(BadRequest, NoRoleCookie)
    else if roleCookie.value in allowedRoles then Next
    else Abort(BadRequest, RoleNotEnough)
  }

  /**
   * RoleMiddleware: scan the allow-list, setting a flag and leaving the scan
   * at the first entry equal to the cookie's value.
   */
  method RoleGate(roleCookie: Option<string>, allowedRoles: seq<string>) returns (v: Verdict)
    ensures v.Next? <==> roleCookie.Some? && roleCookie.value in allowedRoles
    ensures roleCookie.None? ==> v == Abort(BadRequest, NoRoleCookie)
    ensures roleCookie.Some? && roleCookie.value !in allowedRoles ==> v == Abort(BadRequest, RoleNotEnough)
    ensures v == RoleCheck(roleCookie, allowedRoles)
  {
    if roleCookie.None? {
      return Abort(BadRequest, NoRoleCookie);
    }
    var role := roleCookie.value;
    var isValid := false;
    var i := 0;
    while i < |allowedRoles|
      invariant 0 <= i <= |allowedRoles|
      invariant !isValid && role !in allowedRoles[..i]
    {
      if role == allowedRoles[i] {
        isValid := true;
        break;
      }
      assert allowedRoles[..i + 1] == allowedRoles[..i] + [allowedRoles[i]];
      i := i + 1;
    }
    if !isValid {
      assert allowedRoles[..i] == allowedRoles;
      return Abort(BadRequest, RoleNotEnough);
    }
    v := Next;
  }

  /** An empty allow-list admits nobody. */
  lemma EmptyAllowListRejectsAll(roleCookie: Option<string>)
    ensures RoleCheck(roleCookie, []).Abort?
  {
  }
}

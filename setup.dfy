/**
 * The route table of the service (internal/routes/setup.go): for each
 * registered method and path, the middleware chain that runs before the
 * handler.  Login and registration are public; every other route runs the
 * JWT gate and then the role gate with its own allow-list.
 */
module RouteSetup {
  import opened Models
  import opened Middleware

  datatype Verb = Get | Post

  /** The handlers of internal/routes/routes.go. */
  datatype Handler =
    | DummyLogin | Register | Login
    | PvzPost | PvzGet | CloseLastReception | DeleteLastProduct | Receptions | Products

  /** A middleware in a chain: the JWT gate, or the role gate with its allow-list. */
  datatype Guard = Jwt | RoleIn(allowedRoles: seq<string>)

  datatype Route = Route(verb: Verb, path: string, chain: seq<Guard>, handler: Handler)

  const Employee := "PVZemployee"
  const Moderator := "Moderator"

  /** SetupRoutes, in registration order. */
  const Table: seq<Route> := [
    Route(Post, "/dummyLogin", [], DummyLogin),
    Route(Post, "/register", [], Register),
    Route(Post, "/login", [], Login),
    Route(Post, "/pvz", [Jwt, RoleIn([Employee])], PvzPost),
    Route(Get, "/pvz", [Jwt, RoleIn([Employee, Moderator])], PvzGet),
    Route(Post, "/pvz/:pvzId/close_last_reception", [Jwt, RoleIn([Employee])], CloseLastReception),
    Route(Post, "/pvz/:pvzId/delete_last_product", [Jwt, RoleIn([Employee])], DeleteLastProduct),
    Route(Post, "/receptions", [Jwt, RoleIn([Employee])], Receptions),
    Route(Post, "/products", [Jwt, RoleIn([Employee])], Products)
  ]

  /** What the gates read from a request. */
  datatype Request = Request(tokenCookie: Option<string>, authorization: string, roleCookie: Option<string>)

  function GuardVerdict(g: Guard, req: Request, verify: string -> bool): Verdict
  {
    match g
    case Jwt => JwtGate(req.tokenCookie, req.authorization, verify)
    case RoleIn(allowed) => RoleCheck(req.roleCookie, allowed)
  }

  /**
   * A chain runs its gates in order and stops at the first that aborts; the
   * handler runs only when every gate passes the request on.
   */
  function RunChain(chain: seq<Guard>, req: Request, verify: string -> bool): (v: Verdict)
    ensures v.Next? <==> forall i :: 0 <= i < |chain| ==> GuardVerdict(chain[i], req, verify).Next?
    ensures v.Abort? ==> exists i :: 0 <= i < |chain| && GuardVerdict(chain[i], req, verify) == v &&
                           forall j :: 0 <= j < i ==> GuardVerdict(chain[j], req, verify).Next?
  {
    if |chain| == 0 then Next
    else
      var first := GuardVerdict(chain[0], req, verify);
      if first.Abort? then first
      else
        var rest := RunChain(chain[1..], req, verify);
        assert forall i :: 1 <= i < |chain| ==> chain[i] == chain[1..][i - 1];
        if rest.Abort? then
          var k :| 0 <= k < |chain[1..]| && GuardVerdict(chain[1..][k], req, verify) == rest &&
                   forall j :: 0 <= j < k ==> GuardVerdict(chain[1..][j], req, verify).Next?;
          assert GuardVerdict(chain[k + 1], req, verify) == rest;
          rest
        else
          rest
  }

  /** The registration for a method and path pattern, if any. */
  function Find(routes: seq<Route>, verb: Verb, path: string): (r: Option<Route>)
    ensures r.Some? ==> r.value in routes && r.value.verb == verb && r.value.path == path
    ensures r.None? ==> forall x :: x in routes ==> x.verb != verb || x.path != path
  {
    if |routes| == 0 then None
    else if routes[0].verb == verb && routes[0].path == path then Some(routes[0])
    else Find(routes[1..], verb, path)
  }

  predicate IsPublic(h: Handler)
  {
    h == DummyLogin || h == Register || h == Login
  }

  /**
   * The allow-list a handler's route registers: employees may use every
   * guarded route, moderators only the listing.
   */
  function AllowList(h: Handler): (roles: seq<string>)
    ensures Employee in roles <==> !IsPublic(h)
    ensures Moderator in roles <==> h == PvzGet
    ensures forall x :: x in roles ==> x == Employee || x == Moderator
  {
    if h == PvzGet then [Employee, Moderator] else if IsPublic(h) then [] else [Employee]
  }

  /** The roles a handler's route admits. */
  function AllowedRoles(h: Handler): set<string>
  {
    set x | x in AllowList(h)
  }

  /** Exactly the three login/registration routes run no middleware. */
  lemma PublicRoutesUnguarded()
    ensures forall r :: r in Table ==> (r.chain == [] <==> IsPublic(r.handler))
    ensures forall r :: r in Table && IsPublic(r.handler) ==> r.verb == Post
  {
  }

  /**
   * Every other route runs the JWT gate, then the role gate with the
   * allow-list of its handler.
   */
  lemma GuardedRoutesChain()
    ensures forall r :: r in Table && !IsPublic(r.handler) ==> r.chain == [Jwt, RoleIn(AllowList(r.handler))]
  {
  }

  /**
   * A request reaches a guarded handler exactly when it carries a token that
   * verifies and a role cookie naming one of the route's roles.
   */
  lemma AdmittedExactly(r: Route, req: Request, verify: string -> bool)
    requires r in Table && !IsPublic(r.handler)
    ensures RunChain(r.chain, req, verify).Next? <==>
              TokenSource(req.tokenCookie, req.authorization).Some? &&
              verify(TokenSource(req.tokenCookie, req.authorization).value) &&
              req.roleCookie.Some? && req.roleCookie.value in AllowedRoles(r.handler)
  {
    GuardedRoutesChain();
    assert GuardVerdict(r.chain[1], req, verify) == RoleCheck(req.roleCookie, AllowList(r.handler));
  }

  /**
   * The JWT gate runs first: without a usable token a guarded route answers
   * "Token missing ..." whatever the role cookie says.
   */
  lemma TokenCheckedBeforeRole(r: Route, req: Request, verify: string -> bool)
    requires r in Table && !IsPublic(r.handler)
    requires TokenSource(req.tokenCookie, req.authorization).None?
    ensures RunChain(r.chain, req, verify) == Abort(BadRequest, TokenMissing)
  {
    GuardedRoutesChain();
  }

  /**
   * Whatever a request asks for, the route it resolves to either runs no
   * middleware and is a login or registration route, or runs both gates.
   */
  lemma ResolvedRouteIsGuarded(verb: Verb, path: string, req: Request, verify: string -> bool)
    requires Find(Table, verb, path).Some?
    ensures var r := Find(Table, verb, path).value;
            IsPublic(r.handler) || (RunChain(r.chain, req, verify).Next? <==>
              TokenSource(req.tokenCookie, req.authorization).Some? &&
              verify(TokenSource(req.tokenCookie, req.authorization).value) &&
              req.roleCookie.Some? && req.roleCookie.value in AllowedRoles(r.handler))
  {
    var r := Find(Table, verb, path).value;
    if !IsPublic(r.handler) {
      AdmittedExactly(r, req, verify);
    }
  }

  /** The lower-case role names "employee" and "moderator" reach no guarded handler. */
  lemma LowerCaseRolesRejected(r: Route, req: Request, verify: string -> bool)
    requires r in Table && !IsPublic(r.handler)
    requires req.roleCookie == Some("employee") || req.roleCookie == Some("moderator")
    ensures RunChain(r.chain, req, verify).Abort?
  {
    AdmittedExactly(r, req, verify);
  }
}

/** The chain of middlewares in front of a tenant's handler, and when the handler is reached. */
module Pipeline {
  import opened Common
  import opened Authentication
  import opened RbacPolicy
  import opened RbacIndex

  datatype Response = Reached(request: Request) | Rejected(status: int)

  type Handler = Request -> Response
  type Wrapper = Handler -> Handler

  /** (subject, groups, permission, resource, tenant) */
  type Authorizer = (string, seq<string>, Permission, string, string) -> bool

  function WithTenant(): Wrapper {
    (next: Handler) => (r: Request) => next(r.(ctx := r.ctx.(tenant := Some(r.urlTenant))))
  }

  function WithIdentity(v: Verifiers, m: Middleware): Wrapper {
    (next: Handler) => (r: Request) =>
      match Authenticate(v, m, r)
      case Denied(status) => Rejected(status)
      case Known(subject, groups) =>
        next(r.(ctx := r.ctx.(subject := Some(subject), groups := if groups.Some? then groups else r.ctx.groups)))
  }

  function WithTenantMiddlewares(v: Verifiers, middlewares: map<string, Middleware>): Wrapper {
    (next: Handler) => (r: Request) =>
      if r.ctx.tenant.None? then Rejected(400)
      else if r.ctx.tenant.value !in middlewares then Rejected(401)
      else WithIdentity(v, middlewares[r.ctx.tenant.value])(next)(r)
  }

  /** Absent groups read as none. */
  function GroupsOf(r: Request): seq<string> {
    if r.ctx.groups.Some? then r.ctx.groups.value else []
  }

  function WithAuthorizer(a: Authorizer, permission: Permission, resource: string): Wrapper {
    (next: Handler) => (r: Request) =>
      if r.ctx.tenant.None? then Rejected(500)
      else if r.ctx.subject.None? then Rejected(401)
      else if a(r.ctx.subject.value, GroupsOf(r), permission, resource, r.ctx.tenant.value) then next(r)
      else Rejected(403)
  }

  /** The first wrapper sees the request first. */
  function Chain(wrappers: seq<Wrapper>, final: Handler): Handler {
    if wrappers == [] then final else wrappers[0](Chain(wrappers[1..], final))
  }

  datatype Guard = Guard(authorizer: Authorizer, permission: Permission, resource: string)

  function Wrappers(guards: seq<Guard>): seq<Wrapper> {
    if guards == [] then []
    else
      var g := guards[0];
      [WithAuthorizer(g.authorizer, g.permission, g.resource)] + Wrappers(guards[1..])
  }

  /** The whole chain for one route, ending in a handler that reports the request it was given. */
  function Serve(v: Verifiers, middlewares: map<string, Middleware>, guards: seq<Guard>): Handler {
    var final: Handler := (r: Request) => Reached(r);
    Chain([WithTenant(), WithTenantMiddlewares(v, middlewares)] + Wrappers(guards), final)
  }

  // ----- The declarative reading -----

  /** What a route demands of its caller, and the policy it is judged by. */
  datatype Demand = Demand(policy: Policy, permission: Permission, resource: string)

  predicate Met(d: Demand, tenant: string, subject: string, groups: seq<string>) {
    Permits(d.policy, Query(subject, groups, Cell(d.resource, tenant, d.permission)))
  }

  /** The authorizer answers as the policy does. */
  ghost predicate Decides(a: Authorizer, p: Policy) {
    forall subject, groups, permission, resource, tenant ::
      a(subject, groups, permission, resource, tenant)
      <==> Permits(p, Query(subject, groups, Cell(resource, tenant, permission)))
  }

  ghost predicate Enforces(guards: seq<Guard>, demands: seq<Demand>) {
    && |guards| == |demands|
    && forall i :: 0 <= i < |guards| ==>
         && Decides(guards[i].authorizer, demands[i].policy)
         && guards[i].permission == demands[i].permission && guards[i].resource == demands[i].resource
  }

  /** The request as the authenticators leave it; absent groups leave what was there. */
  function Identified(req: Request, subject: string, groups: Option<seq<string>>): Request {
    req.(ctx := Context(Some(req.urlTenant), Some(subject), if groups.Some? then groups else req.ctx.groups))
  }

  /** The answer to a request, by authentication and policies alone. */
  function Verdict(v: Verifiers, middlewares: map<string, Middleware>, demands: seq<Demand>, req: Request): Response {
    if req.urlTenant !in middlewares then Rejected(401)
    else
      match Authenticate(v, middlewares[req.urlTenant], req)
      case Denied(status) => Rejected(status)
      case Known(subject, groups) =>
        var r := Identified(req, subject, groups);
        if forall d :: d in demands ==> Met(d, req.urlTenant, subject, GroupsOf(r)) then Reached(r) else Rejected(403)
  }

  /** Authenticators look at the connection and the headers, not at the context. */
  lemma ContextIsNoCredential(v: Verifiers, m: Middleware, req: Request, ctx: Context)
    ensures Authenticate(v, m, req.(ctx := ctx)) == Authenticate(v, m, req)
  {
  }

  lemma FirstWrapperFirst(wrappers: seq<Wrapper>, first: Wrapper, final: Handler)
    ensures Chain([first] + wrappers, final) == first(Chain(wrappers, final))
  {
    assert ([first] + wrappers)[1..] == wrappers;
  }

  /** One guard lets the request of a known caller through exactly when its demand is met. */
  lemma GuardChecksDemand(g: Guard, d: Demand, next: Handler, r: Request, tenant: string, subject: string)
    requires Enforces([g], [d])
    requires r.ctx.tenant == Some(tenant) && r.ctx.subject == Some(subject)
    ensures WithAuthorizer(g.authorizer, g.permission, g.resource)(next)(r)
         == if Met(d, tenant, subject, if r.ctx.groups.None? then [] else r.ctx.groups.value) then next(r)
            else Rejected(403)
  {
    assert Decides([g][0].authorizer, [d][0].policy);
  }

  /** A request that nobody gave a tenant or a subject reaches neither authenticator nor handler. */
  lemma IncompleteContextIsRefused(
    v: Verifiers, middlewares: map<string, Middleware>, a: Authorizer, permission: Permission, resource: string,
    next: Handler, r: Request)
    ensures r.ctx.tenant.None? ==>
      && WithTenantMiddlewares(v, middlewares)(next)(r) == Rejected(400)
      && WithAuthorizer(a, permission, resource)(next)(r) == Rejected(500)
    ensures r.ctx.tenant.Some? && r.ctx.subject.None? ==>
      WithAuthorizer(a, permission, resource)(next)(r) == Rejected(401)
  {
  }

  lemma {:induction false} GuardsAreConjoined(
    guards: seq<Guard>, demands: seq<Demand>, final: Handler, r: Request, tenant: string, subject: string)
    requires Enforces(guards, demands)
    requires r.ctx.tenant == Some(tenant) && r.ctx.subject == Some(subject)
    ensures Chain(Wrappers(guards), final)(r)
         == if forall d :: d in demands ==> Met(d, tenant, subject, GroupsOf(r)) then final(r) else Rejected(403)
  {
    if guards != [] {
      var g, rest := guards[0], Wrappers(guards[1..]);
      GuardsAreConjoined(guards[1..], demands[1..], final, r, tenant, subject);
      FirstWrapperFirst(rest, WithAuthorizer(g.authorizer, g.permission, g.resource), final);
      GuardChecksDemand(g, demands[0], Chain(rest, final), r, tenant, subject);
      assert forall d :: d in demands <==> d == demands[0] || d in demands[1..];
    }
  }

  /** The tenant in the URL selects the authenticator, and what it finds out travels with the request. */
  lemma TenantSelectsAuthenticator(v: Verifiers, middlewares: map<string, Middleware>, next: Handler, req: Request)
    ensures WithTenant()(WithTenantMiddlewares(v, middlewares)(next))(req)
         == if req.urlTenant !in middlewares then Rejected(401)
            else match Authenticate(v, middlewares[req.urlTenant], req)
              case Denied(status) => Rejected(status)
              case Known(subject, groups) => next(Identified(req, subject, groups))
  {
    var r := req.(ctx := req.ctx.(tenant := Some(req.urlTenant)));
    assert WithTenant()(WithTenantMiddlewares(v, middlewares)(next))(req)
        == WithTenantMiddlewares(v, middlewares)(next)(r);
    if req.urlTenant in middlewares {
      var m := middlewares[req.urlTenant];
      ContextIsNoCredential(v, m, req, r.ctx);
      assert WithTenantMiddlewares(v, middlewares)(next)(r) == WithIdentity(v, m)(next)(r);
    }
  }

  /**
   For every tenant map, verifiers and list of guards, the chain answers exactly as authentication and
   the guards' policies say: the handler is reached if and only if the tenant has a middleware, that
   middleware names a subject, and every policy permits it.
   */
  lemma ChainGivesVerdict(
    v: Verifiers, middlewares: map<string, Middleware>, guards: seq<Guard>, demands: seq<Demand>, req: Request)
    requires Enforces(guards, demands)
    ensures Serve(v, middlewares, guards)(req) == Verdict(v, middlewares, demands, req)
  {
    var final: Handler := (r: Request) => Reached(r);
    var inner := Wrappers(guards);
    var next, second := Chain(inner, final), WithTenantMiddlewares(v, middlewares);
    FirstWrapperFirst(inner, second, final);
    FirstWrapperFirst([second] + inner, WithTenant(), final);
    assert [WithTenant(), second] + inner == [WithTenant()] + ([second] + inner);
    TenantSelectsAuthenticator(v, middlewares, next, req);
    if req.urlTenant in middlewares {
      var id := Authenticate(v, middlewares[req.urlTenant], req);
      if id.Known? {
        var known := Identified(req, id.subject, id.groups);
        GuardsAreConjoined(guards, demands, final, known, req.urlTenant, id.subject);
      }
    }
  }

  /** Asks one compiled index after the other and stops at the first refusal. */
  method PassGuards(
    indexes: seq<Resources>, demands: seq<Demand>, tenant: string, subject: string, groups: seq<string>)
    returns (passed: bool)
    requires |indexes| == |demands|
    requires forall i :: 0 <= i < |indexes| ==> indexes[i].Implements(demands[i].policy)
    ensures passed <==> forall d :: d in demands ==> Met(d, tenant, subject, groups)
  {
    for i := 0 to |indexes|
      invariant forall k :: 0 <= k < i ==> Met(demands[k], tenant, subject, groups)
    {
      var d := demands[i];
      passed := indexes[i].Authorize(subject, groups, d.permission, d.resource, tenant);
      assert passed <==> Met(d, tenant, subject, groups);
      if !passed {
        return;
      }
    }
    passed := true;
  }

  /** The same chain with compiled indexes in place of authorizer values: it answers as the closures do. */
  method ServeCompiled(
    v: Verifiers, middlewares: map<string, Middleware>, indexes: seq<Resources>, demands: seq<Demand>, req: Request)
    returns (resp: Response)
    requires |indexes| == |demands|
    requires forall i :: 0 <= i < |indexes| ==> indexes[i].Implements(demands[i].policy)
    ensures resp == Verdict(v, middlewares, demands, req)
    ensures forall guards :: Enforces(guards, demands) ==> resp == Serve(v, middlewares, guards)(req)
  {
    if req.urlTenant !in middlewares {
      resp := Rejected(401);
    } else {
      var id := Authenticate(v, middlewares[req.urlTenant], req);
      if id.Denied? {
        resp := Rejected(id.status);
      } else {
        var r := Identified(req, id.subject, id.groups);
        var passed := PassGuards(indexes, demands, req.urlTenant, id.subject, GroupsOf(r));
        resp := if passed then Reached(r) else Rejected(403);
      }
    }
    forall guards | Enforces(guards, demands) ensures resp == Serve(v, middlewares, guards)(req) {
      ChainGivesVerdict(v, middlewares, guards, demands, req);
    }
  }
}

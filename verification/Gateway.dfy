/** From a tenant's certificate bundle to its handler: what start-up loads decides who is served. */
module Gateway {
  import opened Common
  import opened Authentication
  import opened RbacPolicy
  import opened RbacIndex
  import opened Tenants
  import opened Pipeline

  /** The caller is vouched for by `roots`, names itself, and meets every demand with its units as groups. */
  ghost predicate Vouched(v: Verifiers, roots: seq<Certificate>, demands: seq<Demand>, req: Request) {
    && req.peers.Some? && |req.peers.value| > 0
    && var leaf := req.peers.value[0];
       && v.certificate(roots, req.peers.value[1..], leaf) == Trusted
       && exists subject ::
            IsFirstName(leaf, subject) && forall d :: d in demands ==> Met(d, req.urlTenant, subject, leaf.units)
  }

  /**
   A tenant with an mTLS entry is served exactly to the callers its own bundle vouches for: that of its
   last mTLS entry, whatever other tenants and OIDC entries were configured.
   */
  lemma MtlsTenantIsServed(
    env: Env, ts: seq<Entry>, held: seq<Held>, up: nat -> bool, middlewares: map<string, Middleware>,
    v: Verifiers, demands: seq<Demand>, req: Request, i: nat, bundle: seq<Certificate>)
    requires |held| == |ts|
    requires Belongs(env, ts, held, up, req.urlTenant, Find(middlewares, req.urlTenant))
    requires IsLastMtls(ts, req.urlTenant, i) && Loads(env, ts[i].mtls, held[i].bundle, bundle)
    ensures Verdict(v, middlewares, demands, req).Reached? <==> Vouched(v, bundle, demands, req)
  {
    assert HasMtls(ts, req.urlTenant);
    var m := Find(middlewares, req.urlTenant);
    assert m.Some? && m.value.Mtls?;
    var k :| IsLastMtls(ts, req.urlTenant, k) && IsMtlsOf(env, ts, held, k, m.value.mtls);
    assert k == i;
    BundleIsUnambiguous(env, Source(env, ts[i].mtls.caPath, held[i].bundle).value, bundle, m.value.mtls.ca);
    var id := Authenticate(v, m.value, req);
    if id.Known? {
      assert GroupsOf(Identified(req, id.subject, id.groups)) == id.groups.value;
    }
    if req.peers.Some? && |req.peers.value| > 0 {
      forall s ensures CertificateSubject(req.peers.value[0]) == Some(s) <==> IsFirstName(req.peers.value[0], s) {
        SubjectIsFirstName(req.peers.value[0], s);
      }
    }
  }

  /** `config`'s verifier accepts the caller's token, and every demand is met by the subject and groups it claims. */
  predicate Claimed(
    v: Verifiers, config: OidcConfig, demands: seq<Demand>, req: Request, subject: string, groups: Option<seq<string>>)
  {
    var raw := BearerToken(config, req);
    && raw.Some? && v.token(config, raw.value).Some?
    && ClaimsSubject(config, v.token(config, raw.value).value, subject)
    && ClaimsGroups(config, v.token(config, raw.value).value, groups)
    && forall d :: d in demands ==> Met(d, req.urlTenant, subject, GroupsOf(Identified(req, subject, groups)))
  }

  /**
   A tenant without mTLS entry is served by its last OIDC entry that came up, exactly to callers with a
   token that this entry's verifier, trusting the entry's own issuer, accepts.
   */
  lemma OidcTenantIsServed(
    env: Env, ts: seq<Entry>, held: seq<Held>, up: nat -> bool, middlewares: map<string, Middleware>,
    v: Verifiers, demands: seq<Demand>, req: Request, i: nat, config: OidcConfig)
    requires |held| == |ts|
    requires Belongs(env, ts, held, up, req.urlTenant, Find(middlewares, req.urlTenant))
    requires !HasMtls(ts, req.urlTenant)
    requires IsLastOidc(ts, up, req.urlTenant, i) && IsOidcOf(env, ts, held, i, config)
    ensures Verdict(v, middlewares, demands, req).Reached? <==>
      exists subject, groups :: Claimed(v, config, demands, req, subject, groups)
  {
    var m := Find(middlewares, req.urlTenant);
    assert m.Some? && m.value.Oidc?;
    var k :| IsLastOidc(ts, up, req.urlTenant, k) && IsOidcOf(env, ts, held, k, m.value.oidc);
    assert k == i && m.value.oidc == config;
    var id := OidcIdentity(v, config, req);
    if id.Known? {
      OidcIdentityIsClaimed(v, config, req, id.subject, id.groups);
      assert Verdict(v, middlewares, demands, req).Reached? ==> Claimed(v, config, demands, req, id.subject, id.groups);
    }
    forall subject, groups | Claimed(v, config, demands, req, subject, groups)
      ensures Verdict(v, middlewares, demands, req).Reached?
    {
      OidcIdentityIsClaimed(v, config, req, subject, groups);
      assert id == Known(subject, groups);
    }
  }

  /** A tenant is rejected out of hand exactly when it has neither an mTLS entry nor an OIDC entry that came up. */
  lemma OnlyConfiguredTenantsAreKnown(
    env: Env, ts: seq<Entry>, held: seq<Held>, up: nat -> bool, middlewares: map<string, Middleware>, tenant: string)
    requires |held| == |ts|
    requires Belongs(env, ts, held, up, tenant, Find(middlewares, tenant))
    ensures tenant in middlewares <==>
      HasMtls(ts, tenant) || exists i :: CameUp(ts, up, i) && ts[i].name == tenant
  {
    var m := Find(middlewares, tenant);
    if m.Some? && m.value.Mtls? {
      var i :| IsLastMtls(ts, tenant, i) && IsMtlsOf(env, ts, held, i, m.value.mtls);
      assert HasMtls(ts, tenant);
    }
  }

  /** The map holds for every tenant the middleware its entries prescribe. */
  ghost predicate BuiltFrom(
    env: Env, ts: seq<Entry>, held: seq<Held>, up: nat -> bool, m: map<string, Middleware>)
    requires |held| == |ts|
    reads Sections(ts)
  {
    forall t ::
      && Find(m, t) == Chosen(OidcConfigs(ts), up, MtlsConfigs(ts), t)
      && Belongs(env, ts, held, up, t, Find(m, t))
  }

  /**
   Start-up and one request in one piece: with the tenants and the policy as configured, the response is
   the one that authentication by the chosen middleware and the policy prescribe.
   */
  method Run(
    env: Env, ts: seq<Entry>, up: nat -> bool, policy: Policy, v: Verifiers,
    permission: Permission, resource: string, req: Request)
    returns (resp: Option<Response>)
    requires env.Valid() && Parsed(ts)
    modifies Sections(ts)
    ensures
      var held := old(Holdings(ts));
      resp.Some? <==> forall i :: 0 <= i < |ts| ==> CanLoad(env, ts[i], held[i]) && (UsesOidc(ts[i]) || UsesMtls(ts[i]))
    ensures resp.Some? ==>
      exists m :: BuiltFrom(env, ts, old(Holdings(ts)), up, m)
        && resp.value == Verdict(v, m, [Demand(policy, permission, resource)], req)
    ensures resp.Some? ==> forall i, bundle ::
      IsLastMtls(ts, req.urlTenant, i) && Loads(env, ts[i].mtls, old(Holdings(ts))[i].bundle, bundle) ==>
        (resp.value.Reached? <==> Vouched(v, bundle, [Demand(policy, permission, resource)], req))
  {
    ghost var held := Holdings(ts);
    var m := StartUp(env, ts, up);
    if m.None? {
      return None;
    }
    label Started:
    assert BuiltFrom(env, ts, held, up, m.value);
    var index := NewAuthorizer(policy.roles, policy.bindings);
    var demands := [Demand(policy, permission, resource)];
    var answer := ServeCompiled(v, m.value, [index], demands, req);
    ConfigsUnchanged@Started(ts);
    assert BuiltFrom(env, ts, held, up, m.value);
    forall i, bundle | IsLastMtls(ts, req.urlTenant, i) && Loads(env, ts[i].mtls, held[i].bundle, bundle)
      ensures answer.Reached? <==> Vouched(v, bundle, demands, req)
    {
      MtlsTenantIsServed(env, ts, held, up, m.value, v, demands, req, i, bundle);
    }
    resp := Some(answer);
  }
}

/** Who a request comes from: the mTLS and OIDC authenticators of a tenant. */
module Authentication {
  import opened Common

  datatype Certificate = Certificate(
    der: seq<int>, emails: seq<string>, uris: seq<string>, dnsNames: seq<string>, ips: seq<string>, units: seq<string>)

  datatype MtlsConfig = MtlsConfig(tenant: string, ca: seq<Certificate>)

  datatype OidcConfig = OidcConfig(
    tenant: string, clientID: string, clientSecret: string, groupClaim: string, issuerCA: Option<Certificate>,
    issuerURL: string, redirectURL: string, usernameClaim: string)

  /** A tenant's middleware keeps the configuration it was made from. */
  datatype Middleware = Mtls(mtls: MtlsConfig) | Oidc(oidc: OidcConfig)

  /** A claim of an ID token; the elements of a list are given as they print. */
  datatype Claim = Str(text: string) | List(items: seq<string>) | Other

  datatype IdToken = IdToken(subject: string, claims: Option<map<string, Claim>>)

  datatype CertCheck = Trusted | Invalid | Failed

  /** The verdicts of the certificate and token libraries, about which nothing is assumed. */
  datatype Verifiers = Verifiers(
    certificate: (seq<Certificate>, seq<Certificate>, Certificate) -> CertCheck,   // roots, intermediates, leaf
    token: (OidcConfig, string) -> Option<IdToken>)

  /** What a request carries towards the handlers. */
  datatype Context = Context(tenant: Option<string>, subject: Option<string>, groups: Option<seq<string>>)

  datatype Request = Request(
    urlTenant: string,
    peers: Option<seq<Certificate>>,   // None without TLS
    authorization: string,
    cookies: map<string, string>,
    ctx: Context)

  datatype Identity = Known(subject: string, groups: Option<seq<string>>) | Denied(status: int)

  // ----- mTLS -----

  /** The first e-mail address, else the first URI, DNS name or IP address. */
  function CertificateSubject(cert: Certificate): Option<string> {
    if |cert.emails| > 0 then Some(cert.emails[0])
    else if |cert.uris| > 0 then Some(cert.uris[0])
    else if |cert.dnsNames| > 0 then Some(cert.dnsNames[0])
    else if |cert.ips| > 0 then Some(cert.ips[0])
    else None
  }

  /** `s` is the first name of the first kind the certificate has: e-mail, URI, DNS name, IP address. */
  predicate IsFirstName(cert: Certificate, s: string) {
    var names := [cert.emails, cert.uris, cert.dnsNames, cert.ips];
    exists k :: 0 <= k < 4 && names[k] != [] && names[k][0] == s && forall j :: 0 <= j < k ==> names[j] == []
  }

  lemma SubjectIsFirstName(cert: Certificate, s: string)
    ensures CertificateSubject(cert) == Some(s) <==> IsFirstName(cert, s)
    ensures CertificateSubject(cert) == None <==>
      cert.emails == [] && cert.uris == [] && cert.dnsNames == [] && cert.ips == []
  {
    var names := [cert.emails, cert.uris, cert.dnsNames, cert.ips];
    if CertificateSubject(cert) == Some(s) {
      var k := if names[0] != [] then 0 else if names[1] != [] then 1 else if names[2] != [] then 2 else 3;
      assert names[k] != [] && names[k][0] == s && forall j :: 0 <= j < k ==> names[j] == [];
    }
    if k :| 0 <= k < 4 && names[k] != [] && names[k][0] == s && forall j :: 0 <= j < k ==> names[j] == [] {
      assert k > 0 ==> names[0] == [];
      assert k > 1 ==> names[1] == [];
      assert k > 2 ==> names[2] == [];
    }
  }

  function MtlsIdentity(v: Verifiers, config: MtlsConfig, req: Request): Identity {
    if req.peers.None? then Denied(500)
    else if |req.peers.value| == 0 then Denied(401)
    else
      var leaf := req.peers.value[0];
      match v.certificate(config.ca, req.peers.value[1..], leaf)
      case Invalid => Denied(401)
      case Failed => Denied(500)
      case Trusted =>
        match CertificateSubject(leaf)
        case None => Denied(400)
        case Some(subject) => Known(subject, Some(leaf.units))
  }

  /** Which refusal an mTLS caller gets: each status for one reason, in this order. */
  lemma MtlsRefusals(v: Verifiers, config: MtlsConfig, req: Request)
    ensures MtlsIdentity(v, config, req).Denied? ==>
      var status := MtlsIdentity(v, config, req).status;
      if req.peers.None? then status == 500
      else if req.peers.value == [] then status == 401
      else match v.certificate(config.ca, req.peers.value[1..], req.peers.value[0])
        case Invalid => status == 401
        case Failed => status == 500
        case Trusted => status == 400 && forall s :: !IsFirstName(req.peers.value[0], s)
  {
    if req.peers.Some? && req.peers.value != [] {
      forall s ensures CertificateSubject(req.peers.value[0]) == Some(s) <==> IsFirstName(req.peers.value[0], s) {
        SubjectIsFirstName(req.peers.value[0], s);
      }
    }
  }

  // ----- OIDC -----

  function Split(s: string, separator: char): (parts: seq<string>)
    ensures |parts| > 0
  {
    if s == [] then [""]
    else
      var rest := Split(s[1..], separator);
      if s[0] == separator then [""] + rest else [[s[0]] + rest[0]] + rest[1..]
  }

  lemma {:induction false} SplitWithout(s: string, separator: char)
    requires separator !in s
    ensures Split(s, separator) == [s]
  {
    if s != [] {
      SplitWithout(s[1..], separator);
      assert s == [s[0]] + s[1..];
    }
  }

  lemma {:induction false} SplitAtFirst(a: string, separator: char, b: string)
    requires separator !in a
    ensures Split(a + [separator] + b, separator) == [a] + Split(b, separator)
  {
    var s := a + [separator] + b;
    if a == [] {
      assert s[1..] == b;
    } else {
      SplitAtFirst(a[1..], separator, b);
      assert s[1..] == a[1..] + [separator] + b;
      assert a == [s[0]] + a[1..];
    }
  }

  lemma {:induction false} FirstAt(s: string, separator: char) returns (i: nat)
    requires separator in s
    ensures i < |s| && s[i] == separator && separator !in s[..i]
  {
    if s[0] == separator {
      i := 0;
    } else {
      i := FirstAt(s[1..], separator);
      i := i + 1;
      assert s[..i] == [s[0]] + s[1..][..i - 1];
    }
  }

  /** A string splits into two parts exactly when it is two separator-free words around one separator. */
  lemma {:induction false} TwoWords(s: string, separator: char)
    ensures
      var parts := Split(s, separator);
      |parts| == 2 <==>
        exists a, b :: separator !in a && separator !in b && s == a + [separator] + b && parts == [a, b]
  {
    var parts := Split(s, separator);
    if i :| 0 <= i < |s| && s[i] == separator && separator !in s[..i] {
      var a, b := s[..i], s[i + 1..];
      assert s == a + [separator] + b;
      SplitAtFirst(a, separator, b);
      if separator !in b {
        SplitWithout(b, separator);
        assert parts == [a, b];
      } else {
        var k := FirstAt(b, separator);
        var c, d := b[..k], b[k + 1..];
        assert b == c + [separator] + d;
        SplitAtFirst(c, separator, d);
      }
    } else {
      if separator in s {
        var i := FirstAt(s, separator);
      }
      SplitWithout(s, separator);
    }
  }

  function CookieFor(tenant: string): string {
    "observatorium_" + tenant
  }

  /** No two tenants share a cookie. */
  lemma CookiesDiffer(a: string, b: string)
    ensures CookieFor(a) == CookieFor(b) <==> a == b
    ensures CookieFor(a) == "observatorium_" + a
  {
    assert CookieFor(a)[|"observatorium_"|..] == a && CookieFor(b)[|"observatorium_"|..] == b;
  }

  /** The second word of the Authorization header, or without one the tenant's cookie. */
  function BearerToken(config: OidcConfig, req: Request): Option<string> {
    if req.authorization != "" then
      var words := Split(req.authorization, ' ');
      if |words| == 2 then Some(words[1]) else None
    else if CookieFor(config.tenant) in req.cookies then
      Some(req.cookies[CookieFor(config.tenant)])
    else
      None
  }

  /** A non-empty header counts exactly when it is two words, the second being the token; else the cookie does. */
  lemma RequestToken(config: OidcConfig, req: Request, token: string)
    ensures BearerToken(config, req) == Some(token) <==>
      if req.authorization != "" then
        ' ' !in token && exists scheme :: ' ' !in scheme && req.authorization == scheme + [' '] + token
      else
        var cookie := "observatorium_" + config.tenant;
        cookie in req.cookies && req.cookies[cookie] == token
  {
    TwoWords(req.authorization, ' ');
    if scheme :| ' ' !in scheme && ' ' !in token && req.authorization == scheme + [' '] + token {
      SplitAtFirst(scheme, ' ', token);
      SplitWithout(token, ' ');
    }
  }

  function TokenSubject(config: OidcConfig, token: IdToken): Identity {
    if config.usernameClaim == "" then Known(token.subject, None)
    else if token.claims.None? then Denied(500)
    else if config.usernameClaim !in token.claims.value then Denied(400)
    else match token.claims.value[config.usernameClaim]
      case Str(name) => if name == "" then Denied(400) else Known(name, None)
      case _ => Denied(400)
  }

  function ClaimGroups(claim: Claim): seq<string> {
    match claim
    case Str(text) => [text]
    case List(items) => items
    case Other => []
  }

  function OidcIdentity(v: Verifiers, config: OidcConfig, req: Request): Identity {
    var raw := BearerToken(config, req);
    if raw.None? then Denied(401)
    else
      var token := v.token(config, raw.value);
      if token.None? then Denied(400)
      else
        var id := TokenSubject(config, token.value);
        if id.Denied? || config.groupClaim == "" then id
        else if token.value.claims.None? then Denied(500)
        else if config.groupClaim !in token.value.claims.value then Denied(400)
        else Known(id.subject, Some(ClaimGroups(token.value.claims.value[config.groupClaim])))
  }

  predicate ClaimsSubject(config: OidcConfig, token: IdToken, subject: string) {
    if config.usernameClaim == "" then subject == token.subject
    else
      && subject != "" && token.claims.Some? && config.usernameClaim in token.claims.value
      && token.claims.value[config.usernameClaim] == Str(subject)
  }

  predicate ClaimsGroups(config: OidcConfig, token: IdToken, groups: Option<seq<string>>) {
    if config.groupClaim == "" then groups == None
    else
      && token.claims.Some? && config.groupClaim in token.claims.value && groups.Some?
      && match token.claims.value[config.groupClaim]
         case Str(text) => groups.value == [text]
         case List(items) => groups.value == items
         case Other => groups.value == []
  }

  /** An OIDC caller is known exactly when the tenant's own verifier accepts a token with these claims. */
  lemma OidcIdentityIsClaimed(
    v: Verifiers, config: OidcConfig, req: Request, subject: string, groups: Option<seq<string>>)
    ensures OidcIdentity(v, config, req) == Known(subject, groups) <==>
      exists raw, token ::
        && BearerToken(config, req) == Some(raw) && v.token(config, raw) == Some(token)
        && ClaimsSubject(config, token, subject) && ClaimsGroups(config, token, groups)
  {
    var raw := BearerToken(config, req);
    if raw.Some? && v.token(config, raw.value).Some? {
      var token := v.token(config, raw.value).value;
      assert OidcIdentity(v, config, req) == Known(subject, groups) <==>
        ClaimsSubject(config, token, subject) && ClaimsGroups(config, token, groups);
    }
  }

  /** Which refusal an OIDC caller gets. */
  lemma OidcRefusals(v: Verifiers, config: OidcConfig, req: Request)
    ensures OidcIdentity(v, config, req).Denied? ==>
      var status, raw := OidcIdentity(v, config, req).status, BearerToken(config, req);
      if raw.None? then status == 401
      else if v.token(config, raw.value).None? then status == 400
      else if v.token(config, raw.value).value.claims.None? then status == 500
      else status == 400
  {
  }

  function Authenticate(v: Verifiers, m: Middleware, req: Request): Identity {
    match m
    case Mtls(config) => MtlsIdentity(v, config, req)
    case Oidc(config) => OidcIdentity(v, config, req)
  }
}

/**
 Start-up: loading the certificates of every tenant, sorting the tenants into OIDC and mTLS
 configurations, and building the map from which a request's middleware is taken.
 */
module Tenants {
  import opened Common
  import opened Authentication

  type Bytes = seq<int>

  datatype Block = Block(bytes: Bytes, rest: Bytes)

  /** Files, PEM decoding and certificate parsing. A decoded block leaves less input than there was. */
  datatype Env = Env(
    readFile: string -> Option<Bytes>,
    decode: Bytes -> Option<Block>,
    parse: Bytes -> Option<Certificate>)
  {
    ghost predicate Valid() {
      forall raw :: decode(raw).Some? ==> |decode(raw).value.rest| < |raw|
    }
  }

  class OidcSection {
    const issuerCAPath: string
    const config: OidcConfig     // as configured: without tenant and issuer certificate
    var issuerRawCA: Bytes
    var issuerCA: Option<Certificate>
  }

  class MtlsSection {
    const caPath: string
    var rawCA: Bytes
    var ca: seq<Certificate>
  }

  /** The entry is copied by every loop, but its sections are shared. */
  datatype Entry = Entry(name: string, id: string, oidc: OidcSection?, mtls: MtlsSection?)

  /** The bytes a section stands for: its file if it names one, else what it holds. */
  function Source(env: Env, path: string, raw: Bytes): Option<Bytes> {
    if path != "" then env.readFile(path) else Some(raw)
  }

  /** `certs` are all certificates of the bundle, in order, with nothing left over. */
  predicate Decoded(env: Env, raw: Bytes, certs: seq<Certificate>)
    decreases |certs|
  {
    && certs != []
    && env.decode(raw).Some?
    && var block := env.decode(raw).value;
       && env.parse(block.bytes) == Some(certs[0])
       && if block.rest == [] then |certs| == 1 else Decoded(env, block.rest, certs[1..])
  }

  /** Block `i` decodes from `rests[i]`, of which something is left, to the next rest and its certificate. */
  predicate IsLink(env: Env, certs: seq<Certificate>, rests: seq<Bytes>, i: nat)
    requires i < |certs| < |rests|
  {
    && (i > 0 ==> rests[i] != [])
    && env.decode(rests[i]).Some? && env.decode(rests[i]).value.rest == rests[i + 1]
    && env.parse(env.decode(rests[i]).value.bytes) == Some(certs[i])
  }

  /** Decoding `raw` block by block leaves `rests`, the last of them empty, and yields all of `certs`. */
  predicate IsChain(env: Env, raw: Bytes, certs: seq<Certificate>, rests: seq<Bytes>) {
    && certs != [] && |rests| == |certs| + 1 && rests[0] == raw && rests[|certs|] == []
    && forall i: nat :: i < |certs| ==> IsLink(env, certs, rests, i)
  }

  lemma {:induction false} ChainIsDecoded(env: Env, raw: Bytes, certs: seq<Certificate>, rests: seq<Bytes>)
    requires IsChain(env, raw, certs, rests)
    ensures Decoded(env, raw, certs)
    decreases |certs|
  {
    assert IsLink(env, certs, rests, 0);
    if |certs| > 1 {
      assert IsLink(env, certs, rests, 1);
      var certs', rests' := certs[1..], rests[1..];
      forall i: nat | i < |certs'| ensures IsLink(env, certs', rests', i) {
        assert IsLink(env, certs, rests, i + 1);
      }
      ChainIsDecoded(env, rests[1], certs', rests');
    }
  }

  lemma {:induction false} DecodedHasChain(env: Env, raw: Bytes, certs: seq<Certificate>) returns (rests: seq<Bytes>)
    requires Decoded(env, raw, certs)
    ensures IsChain(env, raw, certs, rests)
    decreases |certs|
  {
    var rest := env.decode(raw).value.rest;
    if rest == [] {
      rests := [raw, []];
    } else {
      var certs' := certs[1..];
      var rests' := DecodedHasChain(env, rest, certs');
      rests := [raw] + rests';
      forall i: nat | i < |certs| ensures IsLink(env, certs, rests, i) {
        assert i > 0 ==> IsLink(env, certs', rests', i - 1);
      }
    }
  }

  /** A complete bundle is one that decodes, block by block, to all its certificates and nothing else. */
  lemma DecodedIsChain(env: Env, raw: Bytes, certs: seq<Certificate>)
    ensures Decoded(env, raw, certs) <==> exists rests :: IsChain(env, raw, certs, rests)
  {
    if Decoded(env, raw, certs) {
      var rests := DecodedHasChain(env, raw, certs);
    }
    if rests :| IsChain(env, raw, certs, rests) {
      ChainIsDecoded(env, raw, certs, rests);
    }
  }

  /** A bundle has one reading. */
  lemma {:induction false} BundleIsUnambiguous(env: Env, raw: Bytes, certs: seq<Certificate>, certs': seq<Certificate>)
    requires Decoded(env, raw, certs) && Decoded(env, raw, certs')
    ensures certs == certs'
    decreases |certs|
  {
    var block := env.decode(raw).value;
    if block.rest != [] {
      BundleIsUnambiguous(env, block.rest, certs[1..], certs'[1..]);
      assert certs == [certs[0]] + certs[1..] && certs' == [certs'[0]] + certs'[1..];
    }
  }

  /** After `certs`, what is left of `raw` is `rest`: the bundle goes on as the rest does. */
  ghost predicate Continues(env: Env, raw: Bytes, certs: seq<Certificate>, rest: Bytes) {
    forall all :: Decoded(env, raw, all) <==> certs <= all && Decoded(env, rest, all[|certs|..])
  }

  lemma ContinuesWithNext(env: Env, raw: Bytes, certs: seq<Certificate>, rest: Bytes, block: Block, cert: Certificate)
    requires Continues(env, raw, certs, rest)
    requires env.decode(rest) == Some(block) && env.parse(block.bytes) == Some(cert)
    ensures block.rest != [] ==> Continues(env, raw, certs + [cert], block.rest)
    ensures block.rest == [] ==> Decoded(env, raw, certs + [cert])
  {
    if block.rest == [] {
      var all := certs + [cert];
      assert all[|certs|..] == [cert];
      assert Decoded(env, raw, all);
    } else {
      forall all ensures Decoded(env, raw, all) <==>
          certs + [cert] <= all && Decoded(env, block.rest, all[|certs + [cert]|..]) {
        if certs <= all && |all| > |certs| {
          assert all[|certs|..][1..] == all[|certs + [cert]|..];
          assert all[|certs|..][0] == all[|certs|];
        }
      }
    }
  }

  /** `certs` is the complete bundle of a section that held `raw` before start-up. */
  predicate Loads(env: Env, s: MtlsSection, raw: Bytes, certs: seq<Certificate>) {
    var source := Source(env, s.caPath, raw);
    source.Some? && Decoded(env, source.value, certs)
  }

  /** Reads a whole bundle into the section, or finds that there is none to read. */
  method LoadBundle(env: Env, s: MtlsSection) returns (ok: bool)
    requires env.Valid() && s.ca == []
    modifies s
    ensures ok <==> exists certs :: Loads(env, s, old(s.rawCA), certs)
    ensures ok ==> Loads(env, s, old(s.rawCA), s.ca)
  {
    if s.caPath != "" {
      var file := env.readFile(s.caPath);
      if file.None? {
        return false;
      }
      s.rawCA := file.value;
    }
    var rest := s.rawCA;
    while true
      invariant Source(env, s.caPath, old(s.rawCA)) == Some(s.rawCA)
      invariant Continues(env, s.rawCA, s.ca, rest)
      decreases |rest|
    {
      var block := env.decode(rest);
      if block.None? {
        return false;
      }
      var cert := env.parse(block.value.bytes);
      if cert.None? {
        return false;
      }
      ContinuesWithNext(env, s.rawCA, s.ca, rest, block.value, cert.value);
      s.ca := s.ca + [cert.value];
      rest := block.value.rest;
      if |rest| == 0 {
        assert Loads(env, s, old(s.rawCA), s.ca);
        return true;
      }
    }
  }

  /** The issuer certificate an OIDC section yields: None if start-up fails, Some(None) if it has none. */
  function Issuer(env: Env, path: string, raw: Bytes): Option<Option<Certificate>> {
    var source := Source(env, path, raw);
    if source.None? then None
    else if source.value == [] then Some(None)
    else
      var block := env.decode(source.value);
      if block.None? || env.parse(block.value.bytes).None? then None else Some(env.parse(block.value.bytes))
  }

  /** The section's bytes: those of the file at `path` if there is a path, else `raw`. */
  predicate IsSource(env: Env, path: string, raw: Bytes, bytes: Bytes) {
    if path == "" then bytes == raw else env.readFile(path) == Some(bytes)
  }

  /**
   There is an issuer certificate exactly when the section's bytes are not empty and their first PEM block
   parses to it; there is none exactly when they are empty; start-up fails exactly when there are no bytes
   to read, or non-empty ones do not decode or parse.
   */
  lemma IssuerExactly(env: Env, path: string, raw: Bytes)
    ensures forall c :: Issuer(env, path, raw) == Some(Some(c)) <==>
      exists bytes :: IsSource(env, path, raw, bytes) && bytes != []
        && env.decode(bytes).Some? && env.parse(env.decode(bytes).value.bytes) == Some(c)
    ensures Issuer(env, path, raw) == Some(None) <==> IsSource(env, path, raw, [])
    ensures Issuer(env, path, raw) == None <==> forall bytes :: IsSource(env, path, raw, bytes) ==>
      bytes != [] && (env.decode(bytes).None? || env.parse(env.decode(bytes).value.bytes).None?)
  {
    var source := Source(env, path, raw);
    assert forall bytes :: IsSource(env, path, raw, bytes) <==> source == Some(bytes);
  }

  /** A bundle is read from the file if the section names one, and from the section itself otherwise. */
  lemma LoadsExactly(env: Env, s: MtlsSection, raw: Bytes, certs: seq<Certificate>)
    ensures Loads(env, s, raw, certs) <==>
      exists bytes, rests :: IsSource(env, s.caPath, raw, bytes) && IsChain(env, bytes, certs, rests)
  {
    var source := Source(env, s.caPath, raw);
    assert forall bytes :: IsSource(env, s.caPath, raw, bytes) <==> source == Some(bytes);
    if source.Some? {
      DecodedIsChain(env, source.value, certs);
    }
  }

  /** How loading an OIDC section ends: start-up fails, the rest of the entry is skipped, or it goes on. */
  datatype Progress = Fatal | Skip | GoOn

  method LoadIssuer(env: Env, s: OidcSection) returns (p: Progress)
    requires s.issuerCA == None
    modifies s
    ensures
      var issuer := Issuer(env, s.issuerCAPath, old(s.issuerRawCA));
      && (p.Fatal? <==> issuer.None?)
      && (p.Skip? <==> issuer == Some(None))
      && (!p.Fatal? ==> Some(s.issuerCA) == issuer)
  {
    if s.issuerCAPath != "" {
      var file := env.readFile(s.issuerCAPath);
      if file.None? {
        return Fatal;
      }
      s.issuerRawCA := file.value;
    }
    if |s.issuerRawCA| == 0 {
      return Skip;
    }
    var block := env.decode(s.issuerRawCA);
    if block.None? {
      return Fatal;
    }
    var cert := env.parse(block.value.bytes);
    if cert.None? {
      return Fatal;
    }
    s.issuerCA := cert;
    return GoOn;
  }

  // ----- First pass: certificates -----

  ghost function Sections(ts: seq<Entry>): set<object> {
    (set i | 0 <= i < |ts| && ts[i].oidc != null :: ts[i].oidc as object)
    + (set i | 0 <= i < |ts| && ts[i].mtls != null :: ts[i].mtls as object)
  }

  ghost predicate Unloaded(t: Entry)
    reads t.oidc, t.mtls
  {
    (t.oidc != null ==> t.oidc.issuerCA == None) && (t.mtls != null ==> t.mtls.ca == [])
  }

  /** Freshly parsed entries: every entry has its own sections, and no certificate is loaded. */
  ghost predicate Parsed(ts: seq<Entry>)
    reads Sections(ts)
  {
    && (forall i, j :: 0 <= i < j < |ts| ==>
          && (ts[i].oidc == null || ts[i].oidc != ts[j].oidc)
          && (ts[i].mtls == null || ts[i].mtls != ts[j].mtls))
    && (forall i :: 0 <= i < |ts| ==> Unloaded(ts[i]))
  }

  /** The bytes an entry's sections hold themselves. */
  datatype Held = Held(issuer: Bytes, bundle: Bytes)

  ghost function HeldBy(t: Entry): Held
    reads t.oidc, t.mtls
  {
    Held(if t.oidc == null then [] else t.oidc.issuerRawCA, if t.mtls == null then [] else t.mtls.rawCA)
  }

  ghost function Holdings(ts: seq<Entry>): (held: seq<Held>)
    reads Sections(ts)
    ensures |held| == |ts| && forall i :: 0 <= i < |ts| ==> held[i] == HeldBy(ts[i])
  {
    seq(|ts|, i requires 0 <= i < |ts| reads Sections(ts) => HeldBy(ts[i]))
  }

  /**
   The certificates of an entry that holds `held` can be loaded; a bundle behind an OIDC section without
   issuer certificate is not looked at.
   */
  ghost predicate CanLoad(env: Env, t: Entry, held: Held) {
    && (t.oidc != null ==> Issuer(env, t.oidc.issuerCAPath, held.issuer).Some?)
    && (t.mtls != null && (t.oidc == null || Issuer(env, t.oidc.issuerCAPath, held.issuer) != Some(None)) ==>
          exists certs :: Loads(env, t.mtls, held.bundle, certs))
  }

  /** The entry's certificates are the ones its configuration, `held` before loading, stands for. */
  ghost predicate LoadedFrom(env: Env, t: Entry, held: Held)
    reads t.oidc, t.mtls
  {
    && (t.oidc != null ==> Issuer(env, t.oidc.issuerCAPath, held.issuer) == Some(t.oidc.issuerCA))
    && (t.oidc == null && t.mtls != null ==> Loads(env, t.mtls, held.bundle, t.mtls.ca))
  }

  ghost predicate AllLoadedFrom(env: Env, ts: seq<Entry>, held: seq<Held>)
    requires |held| == |ts|
    reads Sections(ts)
  {
    forall i :: 0 <= i < |ts| ==> LoadedFrom(env, ts[i], held[i])
  }

  method LoadEntry(env: Env, t: Entry) returns (ok: bool)
    requires env.Valid() && Unloaded(t)
    modifies t.oidc, t.mtls
    ensures ok <==> CanLoad(env, t, old(HeldBy(t)))
    ensures ok ==> LoadedFrom(env, t, old(HeldBy(t)))
  {
    if t.oidc != null {
      var p := LoadIssuer(env, t.oidc);
      if p.Fatal? {
        return false;
      }
      if p.Skip? {
        return true;
      }
    }
    if t.mtls != null {
      ok := LoadBundle(env, t.mtls);
      return ok;
    }
    return true;
  }

  /** Start-up gets past this loop exactly when every entry can be loaded, and then every entry is. */
  method LoadCertificates(env: Env, ts: seq<Entry>) returns (ok: bool)
    requires env.Valid() && Parsed(ts)
    modifies Sections(ts)
    ensures
      var held := old(Holdings(ts));
      && (ok <==> forall i :: 0 <= i < |ts| ==> CanLoad(env, ts[i], held[i]))
      && (ok ==> AllLoadedFrom(env, ts, held))
  {
    ghost var held := Holdings(ts);
    for i := 0 to |ts|
      invariant forall k :: i <= k < |ts| ==> Unloaded(ts[k]) && HeldBy(ts[k]) == held[k]
      invariant forall k :: 0 <= k < i ==> CanLoad(env, ts[k], held[k]) && LoadedFrom(env, ts[k], held[k])
    {
      var loaded := LoadEntry(env, ts[i]);
      if !loaded {
        return false;
      }
    }
    return true;
  }

  // ----- Second pass: configurations -----

  predicate UsesOidc(t: Entry) {
    t.oidc != null
  }

  predicate UsesMtls(t: Entry) {
    t.oidc == null && t.mtls != null
  }

  ghost function OidcOf(t: Entry): OidcConfig
    requires UsesOidc(t)
    reads t.oidc
  {
    t.oidc.config.(tenant := t.name, issuerCA := t.oidc.issuerCA)
  }

  ghost function MtlsOf(t: Entry): MtlsConfig
    requires UsesMtls(t)
    reads t.mtls
  {
    MtlsConfig(t.name, t.mtls.ca)
  }

  /** The OIDC configurations of the entries that use OIDC, in order. */
  ghost function OidcConfigs(ts: seq<Entry>): seq<OidcConfig>
    reads Sections(ts)
  {
    if ts == [] then []
    else
      var t := ts[|ts| - 1];
      assert Sections(ts[..|ts| - 1]) <= Sections(ts);
      OidcConfigs(ts[..|ts| - 1]) + if UsesOidc(t) then [OidcOf(t)] else []
  }

  ghost function MtlsConfigs(ts: seq<Entry>): seq<MtlsConfig>
    reads Sections(ts)
  {
    if ts == [] then []
    else
      var t := ts[|ts| - 1];
      assert Sections(ts[..|ts| - 1]) <= Sections(ts);
      MtlsConfigs(ts[..|ts| - 1]) + if UsesMtls(t) then [MtlsOf(t)] else []
  }

  /** Every entry goes to exactly one list; an entry with neither section stops start-up. */
  method Sort(ts: seq<Entry>)
    returns (ok: bool, ids: map<string, string>, oidcs: seq<OidcConfig>, mtlss: seq<MtlsConfig>)
    ensures ok <==> forall i :: 0 <= i < |ts| ==> UsesOidc(ts[i]) || UsesMtls(ts[i])
    ensures ok ==> oidcs == OidcConfigs(ts) && mtlss == MtlsConfigs(ts) && |oidcs| + |mtlss| == |ts|
    ensures ok ==> forall i :: 0 <= i < |ts| ==> ts[i].name in ids
    ensures ok ==> forall i :: 0 <= i < |ts| && (forall k :: i < k < |ts| ==> ts[k].name != ts[i].name)
                     ==> ids[ts[i].name] == ts[i].id
  {
    ids, oidcs, mtlss := map[], [], [];
    for i := 0 to |ts|
      invariant forall k :: 0 <= k < i ==> UsesOidc(ts[k]) || UsesMtls(ts[k])
      invariant oidcs == OidcConfigs(ts[..i]) && mtlss == MtlsConfigs(ts[..i]) && |oidcs| + |mtlss| == i
      invariant forall k :: 0 <= k < i ==> ts[k].name in ids
      invariant forall k :: 0 <= k < i && (forall m :: k < m < i ==> ts[m].name != ts[k].name)
                  ==> ids[ts[k].name] == ts[k].id
    {
      assert ts[..i + 1][..i] == ts[..i];
      var t := ts[i];
      ids := ids[t.name := t.id];
      if t.oidc != null {
        oidcs := oidcs + [t.oidc.config.(tenant := t.name, issuerCA := t.oidc.issuerCA)];
      } else if t.mtls != null {
        mtlss := mtlss + [MtlsConfig(t.name, t.mtls.ca)];
      } else {
        return false, ids, oidcs, mtlss;
      }
    }
    assert ts[..|ts|] == ts;
    ok := true;
  }

  // ----- Dispatch -----

  function LastMtls(configs: seq<MtlsConfig>, tenant: string): Option<Middleware> {
    if configs == [] then None
    else
      var c := configs[|configs| - 1];
      if c.tenant == tenant then Some(Mtls(c)) else LastMtls(configs[..|configs| - 1], tenant)
  }

  /** `up(i)` tells whether the i-th provider could be instantiated. */
  function LastOidc(configs: seq<OidcConfig>, up: nat -> bool, tenant: string): (m: Option<Middleware>)
    ensures m.Some? ==> m.value.Oidc?
  {
    if configs == [] then None
    else
      var n := |configs| - 1;
      if up(n) && configs[n].tenant == tenant then Some(Oidc(configs[n])) else LastOidc(configs[..n], up, tenant)
  }

  function Find(m: map<string, Middleware>, tenant: string): Option<Middleware> {
    if tenant in m then Some(m[tenant]) else None
  }

  method NewMtls(configs: seq<MtlsConfig>) returns (m: map<string, Middleware>)
    ensures forall t :: Find(m, t) == LastMtls(configs, t)
  {
    m := map[];
    for i := 0 to |configs|
      invariant forall t :: Find(m, t) == LastMtls(configs[..i], t)
    {
      m := m[configs[i].tenant := Mtls(configs[i])];
      assert configs[..i + 1][..i] == configs[..i];
    }
    assert configs[..|configs|] == configs;
  }

  /** The tenants whose providers could not be instantiated, one for each such configuration, in order. */
  function DownProviders(configs: seq<OidcConfig>, up: nat -> bool): seq<string> {
    if configs == [] then []
    else
      var n := |configs| - 1;
      DownProviders(configs[..n], up) + if up(n) then [] else [configs[n].tenant]
  }

  lemma {:induction false} DownProvidersExactly(configs: seq<OidcConfig>, up: nat -> bool, t: string)
    ensures t in DownProviders(configs, up) <==> exists i: nat :: i < |configs| && !up(i) && configs[i].tenant == t
  {
    if configs != [] {
      var n := |configs| - 1;
      DownProvidersExactly(configs[..n], up, t);
      assert forall i: nat :: i < n ==> configs[..n][i] == configs[i];
      if !up(n) && configs[n].tenant == t {
        var down := DownProviders(configs, up);
        assert down[|down| - 1] == t;
      }
    }
  }

  /** A provider that cannot be instantiated leaves a warning, and neither a login handler nor a middleware. */
  method NewOidc(configs: seq<OidcConfig>, up: nat -> bool)
    returns (handlers: map<string, OidcConfig>, m: map<string, Middleware>, warnings: seq<string>)
    ensures forall t :: Find(m, t) == LastOidc(configs, up, t)
    ensures handlers.Keys == m.Keys && forall t :: t in m ==> m[t] == Oidc(handlers[t])
    ensures warnings == DownProviders(configs, up)
  {
    handlers, m, warnings := map[], map[], [];
    for i := 0 to |configs|
      invariant forall t :: Find(m, t) == LastOidc(configs[..i], up, t)
      invariant handlers.Keys == m.Keys && forall t :: t in m ==> m[t] == Oidc(handlers[t])
      invariant warnings == DownProviders(configs[..i], up)
    {
      assert configs[..i + 1][..i] == configs[..i];
      if up(i) {
        handlers := handlers[configs[i].tenant := configs[i]];
        m := m[configs[i].tenant := Oidc(configs[i])];
      } else {
        warnings := warnings + [configs[i].tenant];
      }
    }
    assert configs[..|configs|] == configs;
  }

  /** The middleware of the last set that knows the tenant. */
  function LastSet(sets: seq<map<string, Middleware>>, tenant: string): Option<Middleware> {
    if sets == [] then None
    else
      var last := sets[|sets| - 1];
      if tenant in last then Some(last[tenant]) else LastSet(sets[..|sets| - 1], tenant)
  }

  /** Merges the sets one after the other; within a set, keys come in any order. */
  method Merge(sets: seq<map<string, Middleware>>) returns (m: map<string, Middleware>)
    ensures forall t :: Find(m, t) == LastSet(sets, t)
  {
    m := map[];
    for i := 0 to |sets|
      invariant forall t :: Find(m, t) == LastSet(sets[..i], t)
    {
      assert sets[..i + 1][..i] == sets[..i];
      var todo := sets[i].Keys;
      while todo != {}
        invariant todo <= sets[i].Keys
        invariant forall t ::
          Find(m, t) == if t in sets[i] && t !in todo then Some(sets[i][t]) else LastSet(sets[..i], t)
      {
        var t :| t in todo;
        m := m[t := sets[i][t]];
        todo := todo - {t};
      }
    }
    assert sets[..|sets|] == sets;
  }

  lemma LaterSetWins(a: map<string, Middleware>, b: map<string, Middleware>, t: string)
    ensures LastSet([a, b], t) == if t in b then Some(b[t]) else Find(a, t)
  {
    assert [a, b][..1] == [a] && [a][..0] == [];
    assert LastSet([a], t) == Find(a, t);
  }

  /** A tenant's last mTLS entry, else its last OIDC entry that came up, else nothing. */
  function Chosen(oidcs: seq<OidcConfig>, up: nat -> bool, mtlss: seq<MtlsConfig>, tenant: string): Option<Middleware> {
    if LastMtls(mtlss, tenant).Some? then LastMtls(mtlss, tenant) else LastOidc(oidcs, up, tenant)
  }

  method BuildMiddlewares(oidcs: seq<OidcConfig>, up: nat -> bool, mtlss: seq<MtlsConfig>)
    returns (m: map<string, Middleware>)
    ensures forall t :: Find(m, t) == Chosen(oidcs, up, mtlss, t)
  {
    var _, oidcMap, _ := NewOidc(oidcs, up);
    var mtlsMap := NewMtls(mtlss);
    m := Merge([oidcMap, mtlsMap]);
    forall t ensures Find(m, t) == Chosen(oidcs, up, mtlss, t) {
      LaterSetWins(oidcMap, mtlsMap, t);
      assert Find(mtlsMap, t) == LastMtls(mtlss, t);
    }
  }

  // ----- The whole of start-up -----

  /** Entry `i` is the last mTLS entry of the tenant. */
  predicate IsLastMtls(ts: seq<Entry>, tenant: string, i: int) {
    && 0 <= i < |ts| && UsesMtls(ts[i]) && ts[i].name == tenant
    && forall k :: i < k < |ts| ==> !(UsesMtls(ts[k]) && ts[k].name == tenant)
  }

  /** The configuration chosen for a tenant's mTLS is that of its last mTLS entry, if it has one. */
  lemma {:induction false} MtlsComesFromLastEntry(ts: seq<Entry>, tenant: string)
    ensures LastMtls(MtlsConfigs(ts), tenant).None? ==>
      forall i :: 0 <= i < |ts| ==> !(UsesMtls(ts[i]) && ts[i].name == tenant)
    ensures LastMtls(MtlsConfigs(ts), tenant).Some? ==>
      exists i :: IsLastMtls(ts, tenant, i) && LastMtls(MtlsConfigs(ts), tenant) == Some(Mtls(MtlsOf(ts[i])))
  {
    if ts != [] {
      var n := |ts| - 1;
      MtlsComesFromLastEntry(ts[..n], tenant);
      var past, configs := MtlsConfigs(ts[..n]), MtlsConfigs(ts);
      if UsesMtls(ts[n]) {
        assert configs[..|configs| - 1] == past;
        if ts[n].name == tenant {
          assert IsLastMtls(ts, tenant, n);
        }
      } else {
        assert configs == past;
      }
      if i :| IsLastMtls(ts[..n], tenant, i) && LastMtls(past, tenant) == Some(Mtls(MtlsOf(ts[..n][i]))) {
        if !(UsesMtls(ts[n]) && ts[n].name == tenant) {
          assert IsLastMtls(ts, tenant, i);
        }
      }
    }
  }

  /** How many of the entries use OIDC: the position of the next one in the list of OIDC configurations. */
  function CountOidc(ts: seq<Entry>): nat {
    if ts == [] then 0 else CountOidc(ts[..|ts| - 1]) + if UsesOidc(ts[|ts| - 1]) then 1 else 0
  }

  /** Entry `i` uses OIDC and its provider could be instantiated. */
  predicate CameUp(ts: seq<Entry>, up: nat -> bool, i: int) {
    0 <= i < |ts| && UsesOidc(ts[i]) && up(CountOidc(ts[..i]))
  }

  /** Entry `i` is the tenant's last OIDC entry whose provider came up. */
  predicate IsLastOidc(ts: seq<Entry>, up: nat -> bool, tenant: string, i: int) {
    && CameUp(ts, up, i) && ts[i].name == tenant
    && forall k :: i < k < |ts| ==> !(CameUp(ts, up, k) && ts[k].name == tenant)
  }

  lemma OidcPositions(ts: seq<Entry>)
    ensures |OidcConfigs(ts)| == CountOidc(ts)
  {
  }

  lemma CameUpEarlier(ts: seq<Entry>, up: nat -> bool, n: nat)
    requires n <= |ts|
    ensures forall i :: 0 <= i < n ==> (CameUp(ts[..n], up, i) <==> CameUp(ts, up, i))
  {
    forall i | 0 <= i < n ensures CameUp(ts[..n], up, i) <==> CameUp(ts, up, i) {
      assert ts[..n][..i] == ts[..i];
    }
  }

  /** The last entry is chosen if it came up and has the name; else the choice is that of the others. */
  lemma LastOidcOneMore(ts: seq<Entry>, up: nat -> bool, tenant: string)
    requires ts != []
    ensures
      var n := |ts| - 1;
      LastOidc(OidcConfigs(ts), up, tenant)
      == if CameUp(ts, up, n) && ts[n].name == tenant then Some(Oidc(OidcOf(ts[n])))
         else LastOidc(OidcConfigs(ts[..n]), up, tenant)
  {
    var n := |ts| - 1;
    var past, configs := OidcConfigs(ts[..n]), OidcConfigs(ts);
    OidcPositions(ts[..n]);
    if UsesOidc(ts[n]) {
      assert configs[..|configs| - 1] == past && configs[|configs| - 1] == OidcOf(ts[n]);
    } else {
      assert configs == past;
    }
  }

  /** The configuration chosen for a tenant's OIDC is that of its last entry that came up, if it has one. */
  lemma {:induction false} OidcComesFromLastEntry(ts: seq<Entry>, up: nat -> bool, tenant: string)
    ensures LastOidc(OidcConfigs(ts), up, tenant).None? ==>
      forall i :: 0 <= i < |ts| ==> !(CameUp(ts, up, i) && ts[i].name == tenant)
    ensures LastOidc(OidcConfigs(ts), up, tenant).Some? ==>
      exists i :: IsLastOidc(ts, up, tenant, i) && LastOidc(OidcConfigs(ts), up, tenant) == Some(Oidc(OidcOf(ts[i])))
  {
    if ts != [] {
      var n := |ts| - 1;
      var others := ts[..n];
      LastOidcOneMore(ts, up, tenant);
      if CameUp(ts, up, n) && ts[n].name == tenant {
        assert IsLastOidc(ts, up, tenant, n);
      } else {
        OidcComesFromLastEntry(others, up, tenant);
        CameUpEarlier(ts, up, n);
        var chosen := LastOidc(OidcConfigs(others), up, tenant);
        if i :| IsLastOidc(others, up, tenant, i) && chosen == Some(Oidc(OidcOf(others[i]))) {
          assert IsLastOidc(ts, up, tenant, i);
        }
      }
    }
  }

  /** `m` is entry `i`'s mTLS configuration, with the complete bundle the entry stood for. */
  ghost predicate IsMtlsOf(env: Env, ts: seq<Entry>, held: seq<Held>, i: int, m: MtlsConfig)
    requires |held| == |ts|
  {
    && 0 <= i < |ts| && UsesMtls(ts[i])
    && m.tenant == ts[i].name && Loads(env, ts[i].mtls, held[i].bundle, m.ca)
  }

  /** `m` is entry `i`'s OIDC configuration, with the issuer certificate the entry stood for. */
  ghost predicate IsOidcOf(env: Env, ts: seq<Entry>, held: seq<Held>, i: int, m: OidcConfig)
    requires |held| == |ts|
  {
    && 0 <= i < |ts| && UsesOidc(ts[i])
    && m == ts[i].oidc.config.(tenant := ts[i].name, issuerCA := m.issuerCA)
    && Issuer(env, ts[i].oidc.issuerCAPath, held[i].issuer) == Some(m.issuerCA)
  }

  ghost predicate HasMtls(ts: seq<Entry>, tenant: string) {
    exists i :: 0 <= i < |ts| && UsesMtls(ts[i]) && ts[i].name == tenant
  }

  /**
   A tenant's middleware belongs to its last mTLS entry if it has one, else to its last OIDC entry that
   came up, and trusts what that entry itself stood for; without such entries there is none.
   */
  ghost predicate Belongs(
    env: Env, ts: seq<Entry>, held: seq<Held>, up: nat -> bool, tenant: string, m: Option<Middleware>)
    requires |held| == |ts|
  {
    match m
    case Some(Mtls(config)) => exists i :: IsLastMtls(ts, tenant, i) && IsMtlsOf(env, ts, held, i, config)
    case Some(Oidc(config)) =>
      !HasMtls(ts, tenant) && exists i :: IsLastOidc(ts, up, tenant, i) && IsOidcOf(env, ts, held, i, config)
    case None => !HasMtls(ts, tenant) && forall i :: 0 <= i < |ts| ==> !(CameUp(ts, up, i) && ts[i].name == tenant)
  }

  /** An OIDC middleware has an issuer certificate exactly when its entry's issuer bytes are not empty. */
  ghost predicate TrustsIssuer(
    env: Env, ts: seq<Entry>, held: seq<Held>, up: nat -> bool, tenant: string, m: Option<Middleware>)
    requires |held| == |ts|
  {
    m.Some? && m.value.Oidc? ==>
      exists i :: IsLastOidc(ts, up, tenant, i)
        && (m.value.oidc.issuerCA.None? <==> IsSource(env, ts[i].oidc.issuerCAPath, held[i].issuer, []))
  }

  lemma BelongingTrustsIssuer(
    env: Env, ts: seq<Entry>, held: seq<Held>, up: nat -> bool, tenant: string, m: Option<Middleware>)
    requires |held| == |ts| && Belongs(env, ts, held, up, tenant, m)
    ensures TrustsIssuer(env, ts, held, up, tenant, m)
  {
    if m.Some? && m.value.Oidc? {
      var i :| IsLastOidc(ts, up, tenant, i) && IsOidcOf(env, ts, held, i, m.value.oidc);
      IssuerExactly(env, ts[i].oidc.issuerCAPath, held[i].issuer);
    }
  }

  lemma ChosenBelongs(env: Env, ts: seq<Entry>, held: seq<Held>, up: nat -> bool, tenant: string)
    requires |held| == |ts| && AllLoadedFrom(env, ts, held)
    ensures Belongs(env, ts, held, up, tenant, Chosen(OidcConfigs(ts), up, MtlsConfigs(ts), tenant))
  {
    MtlsComesFromLastEntry(ts, tenant);
    if LastMtls(MtlsConfigs(ts), tenant).Some? {
      var i :| IsLastMtls(ts, tenant, i) && LastMtls(MtlsConfigs(ts), tenant) == Some(Mtls(MtlsOf(ts[i])));
      assert LoadedFrom(env, ts[i], held[i]);
      assert IsMtlsOf(env, ts, held, i, MtlsOf(ts[i]));
    } else {
      OidcComesFromLastEntry(ts, up, tenant);
      if i :| IsLastOidc(ts, up, tenant, i) && LastOidc(OidcConfigs(ts), up, tenant) == Some(Oidc(OidcOf(ts[i]))) {
        assert LoadedFrom(env, ts[i], held[i]);
        assert IsOidcOf(env, ts, held, i, OidcOf(ts[i]));
      }
    }
  }

  /** The configurations depend on nothing but the sections. */
  twostate lemma ConfigsUnchanged(ts: seq<Entry>)
    requires forall i :: 0 <= i < |ts| ==>
      (ts[i].oidc != null ==> unchanged(ts[i].oidc)) && (ts[i].mtls != null ==> unchanged(ts[i].mtls))
    ensures OidcConfigs(ts) == old(OidcConfigs(ts)) && MtlsConfigs(ts) == old(MtlsConfigs(ts))
  {
    if ts != [] {
      ConfigsUnchanged(ts[..|ts| - 1]);
      assert ts[|ts| - 1] in ts;
    }
  }

  /** Once the certificates are loaded, the map is built unless an entry has no section. */
  method Configure(env: Env, ts: seq<Entry>, ghost held: seq<Held>, up: nat -> bool)
    returns (m: Option<map<string, Middleware>>)
    requires |held| == |ts| && AllLoadedFrom(env, ts, held)
    ensures m.Some? <==> forall i :: 0 <= i < |ts| ==> UsesOidc(ts[i]) || UsesMtls(ts[i])
    ensures m.Some? ==> forall tenant ::
      && Find(m.value, tenant) == Chosen(OidcConfigs(ts), up, MtlsConfigs(ts), tenant)
      && Belongs(env, ts, held, up, tenant, Find(m.value, tenant))
  {
    var ok, ids, oidcs, mtlss := Sort(ts);
    if !ok {
      return None;
    }
    forall tenant ensures Belongs(env, ts, held, up, tenant, Chosen(oidcs, up, mtlss, tenant)) {
      ChosenBelongs(env, ts, held, up, tenant);
    }
    label Sorted:
    var found := BuildMiddlewares(oidcs, up, mtlss);
    ConfigsUnchanged@Sorted(ts);
    m := Some(found);
  }

  /**
   Start-up succeeds exactly when every entry can be loaded and has a section, and then every middleware
   trusts what its own tenant's entry stood for, although the first pass skips parts of some entries.
   */
  method StartUp(env: Env, ts: seq<Entry>, up: nat -> bool) returns (m: Option<map<string, Middleware>>)
    requires env.Valid() && Parsed(ts)
    modifies Sections(ts)
    ensures
      var held := old(Holdings(ts));
      m.Some? <==> forall i :: 0 <= i < |ts| ==> CanLoad(env, ts[i], held[i]) && (UsesOidc(ts[i]) || UsesMtls(ts[i]))
    ensures m.Some? ==> forall tenant ::
      && Find(m.value, tenant) == Chosen(OidcConfigs(ts), up, MtlsConfigs(ts), tenant)
      && Belongs(env, ts, old(Holdings(ts)), up, tenant, Find(m.value, tenant))
      && TrustsIssuer(env, ts, old(Holdings(ts)), up, tenant, Find(m.value, tenant))
  {
    ghost var held := Holdings(ts);
    var loaded := LoadCertificates(env, ts);
    if !loaded {
      return None;
    }
    m := Configure(env, ts, held, up);
    if m.Some? {
      forall tenant ensures TrustsIssuer(env, ts, held, up, tenant, Find(m.value, tenant)) {
        BelongingTrustsIssuer(env, ts, held, up, tenant, Find(m.value, tenant));
      }
    }
  }
}

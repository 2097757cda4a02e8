# Observatorium gateway: verified model

Observatorium authenticates and authorizes the requests of many tenants and forwards them. This project
models the parts of it that carry state, concurrency or a compiled index, and proves what they keep.

* `LogLimiter.dfy`, `LogCounter.dfy`, `LimiterRates.dfy`, `LimiterDecisions.dfy`, `LimiterLedger.dfy`,
  `LimiterWitness.dfy`: the error-log rate limiter. A reference machine remembers every emission since its
  last reset; `LogCounter` is the running code, with its bounded buffer updated in place, and is proved to
  decide exactly as the reference does. Every handled message carries three nondecreasing clock readings, one for each
  `time.Now`/`time.Since` the longest branch evaluates. A run is any sequence of messages and timer expiries
  with a nondecreasing clock; a timer expires only after a full interval of silence.
* `RemoteWrite.dfy`: the dispatcher. Requests, forwarding goroutines and one limiter per endpoint as one
  interleaving transition system.
* `Fanout.dfy`: the fan-out handler and its workers, with WaitGroup, atomic counter and response writer, as an
  interleaving transition system. An execution is any sequence of single steps.
* `RbacPolicy.dfy`, `RbacIndex.dfy`: the declarative reading of roles and bindings, and the compiled index as
  heap objects filled in place by the nested loops of the builder.
* `Authentication.dfy`, `Pipeline.dfy`, `Tenants.dfy`, `Gateway.dfy`: tenant loading, tenant dispatch, the
  middleware chain, and the whole path from a tenant's certificate bundle to its handler.

The parameters `maxCount >= 1` and `interval > 0` stand for `logMaxCount` and `logInterval`. Certificate and
token verification, PEM decoding, certificate parsing, file contents, replies of endpoints and the outcome of
instantiating an OIDC provider are parameters; nothing is assumed about them except that a decoded PEM block
leaves less input than there was.

An mTLS middleware dereferences `r.TLS` without a nil check (internal/authentication/mtls.go:28), so a plaintext
request for an mTLS tenant panics; the outer `Recoverer` (main.go:328) turns the panic into a 500, and the model
shows that 500 as an ordinary refusal.

Two remarks on the limiter. The comment at internal/remotewrite/logchannel.go:87-88 speaks of one log event
occurring `logMaxCount` times within `logInterval`; the code holds back the event after the `logMaxCount`-th,
and a summary and the `logMaxCount` full lines after it can fall in the same interval, so the exact bound is
`logMaxCount` + 1 lines (`RateBound`, attained by `BoundIsAttained`). And a success changes nothing unless
the limiter is in reduced mode, so the model counts it as a reset only then.

## Model

| member | source | states |
|---|---|---|
| LogCounters.LogCounter.constructor | internal/remotewrite/logchannel.go:65-69 | a new counter is a valid counter with nothing remembered |
| LogCounters.LogCounter.RevertCounter | internal/remotewrite/logchannel.go:42-47 | in reduced mode forgets everything, else changes nothing; keeps the counter valid (reduced mode has a start time and an empty buffer) |
| LogCounters.LogCounter.CheckLog | internal/remotewrite/logchannel.go:89-136 | the bounded buffer decides and writes exactly as the machine with the full history does: in normal mode withheld iff the buffer is full and its oldest time at most an interval old, in reduced mode iff less than an interval has passed since the start; the buffer stays the last min(n, maxCount) emission times and is never longer than maxCount |
| LogCounters.LogCounter.Serve | internal/remotewrite/logchannel.go:70-83 | over any sequence of messages and timer expiries the loop ends in the state, and writes the lines, of the full-history machine |
| LimiterRates.EmissionsAreSpaced | internal/remotewrite/logchannel.go:116-134 | in every run, emissions since a reset are in order and the i-th and (i+maxCount)-th are more than an interval apart |
| LimiterRates.GeneralBound | internal/remotewrite/logchannel.go:42-47 | in every run, a half-open window of one interval with R resets holds at most maxCount*(R+1)+1 lines, full lines and summaries together |
| LimiterRates.RateBound | internal/remotewrite/logchannel.go:70-136 | while a single error repeats without success, silences allowed, no window of one interval holds more than maxCount+1 lines |
| LimiterWitness.BoundIsAttained | internal/remotewrite/logchannel.go:98-130 | for every configuration and every R some run puts maxCount*(R+1)+1 lines and R resets in one window, so neither bound can be lowered |
| LimiterDecisions.WithheldIff | internal/remotewrite/logchannel.go:91-125 | an error is withheld iff it has the current key and either, in normal mode, the maxCount-th most recent emission is at most an interval old, or, in reduced mode, less than an interval has passed since the start |
| LimiterDecisions.SummaryReports | internal/remotewrite/logchannel.go:98-104 | an error is answered by a summary iff it has the current key and comes an interval or more after the start; the summary is the error's own fields with element 1 replaced by the held-back count, the whole seconds since the start, and the key |
| LimiterDecisions.LinesAreRemembered | internal/remotewrite/logchannel.go:91-134 | a full line has the error's own fields and the date the code takes, which is remembered after those of the same key |
| LimiterDecisions.RunExactly | internal/remotewrite/logchannel.go:71-82 | the runs quantified over are all sequences with ordered readings, a nondecreasing clock and timers that wait a full interval |
| LimiterDecisions.RemembersLinesSinceReset | internal/remotewrite/logchannel.go:89-136 | in normal mode the remembered times are exactly the dates of the lines written since the last reset |
| LimiterDecisions.WithheldOverRuns | internal/remotewrite/logchannel.go:116-134 | in every run, a same-key error that finds normal mode is withheld iff at least maxCount lines since the last reset are dated no earlier than an interval before its first reading |
| LimiterDecisions.ReducedModeIsOpened | internal/remotewrite/logchannel.go:98-125 | in every run, reduced mode goes back to the withheld error or full summary that opened it; its start is that event's own reading, and all events since are errors of the key within the interval, none written, and are what is pending |
| LimiterLedger.EventsAreConserved | internal/remotewrite/logchannel.go:89-136 | over every run, error events are full lines plus summaries plus counts reported in summaries plus pending plus dropped by interruptions of reduced mode |
| LimiterLedger.ResetsLeaveBlank | internal/remotewrite/logchannel.go:98-114 | reduced mode ends with nothing remembered exactly on success, silence, or a summary of fewer than maxCount errors |
| LimiterLedger.RecoveryIsFull | internal/remotewrite/logchannel.go:91-97 | from a reset on, key change included, the first maxCount errors are all written in full with their own fields, whatever their keys and times |
| RemoteWrite.MessagesAreSafe | internal/remotewrite/proxy.go:104-139 | a forwarding goroutine's message has the success key iff the reply was 2xx, and every other message has the two keyvals a summary writes to |
| RemoteWrite.KeysTellFailuresApart | internal/remotewrite/proxy.go:106-131 | two failures have the same key iff both endpoints were unreachable, or both answered with the same status and both or neither answer could be read |
| RemoteWrite.MessagesCarryTheirReply | internal/remotewrite/proxy.go:106-136 | a failure's fields carry the error, or the status, the answer if readable and the URL, in their places; a success carries none |
| RemoteWrite.MessagesAreGenuine | internal/remotewrite/proxy.go:102-139 | in every execution, what a limiter takes from a goroutine is, on the goroutine's own channel, the message for the reply and URL it ended with, and that reply is the one counted |
| RemoteWrite.LimitersAreIndependent | internal/remotewrite/logchannel.go:62-84 | under every interleaving, limiter j's state and output are those of channel j's own events alone, and those events form a run |
| RemoteWrite.EveryEndpointIsLimited | internal/remotewrite/logchannel.go:62-84 | the general rate bound holds for each endpoint of the whole concurrent system |
| RemoteWrite.ForwardsAreAccounted | internal/remotewrite/proxy.go:62-141 | when everything has finished, each (request, endpoint) pair has made one counter increment and sent one message, on its own channel only |
| RemoteWrite.ForwardsNeverRepeat | internal/remotewrite/proxy.go:102-139 | at no moment has a pair been counted or reported twice, reported before it was counted, or reported on another channel |
| RemoteWrite.MetricsMatchLog | internal/remotewrite/proxy.go:104-139 | at every moment the failures counted for an endpoint equal what its log accounts for (lines, summaries, reported, pending and dropped) plus the goroutines still to hand over their message, of which none are left when everything has finished |
| RemoteWrite.NeverStuck | internal/remotewrite/proxy.go:62-141 | while a handler loop or forwarding goroutine is unfinished, one of them can take a step |
| RemoteWrite.ForwardingEnds | internal/remotewrite/proxy.go:62-141 | under every interleaving, the loops and goroutines of R accepted requests take at most 3 steps per endpoint and request, and have taken that many exactly when all have finished |
| Fanout.DecidesAfterAllWorkers | internal/fanout/proxy.go:96-104 | when the handler decides, all workers are done and the counter equals the number of endpoints that answered 2xx |
| Fanout.ResponseIsRight | internal/fanout/proxy.go:40-106 | under every interleaving, an execution that cannot go on has returned, with status 200 iff all of at least one endpoint answered 2xx, else 502; 400 without endpoints, 500 without a body; the 200 written after the 502 has no effect |
| Fanout.NoDeadlock | internal/fanout/proxy.go:61-96 | until the handler returns some step is possible |
| Fanout.StepsDecrease | internal/fanout/proxy.go:61-106 | every step of handler or worker decreases the remaining work |
| Fanout.ExecutionsAreShort | internal/fanout/proxy.go:61-106 | every execution has at most 7 steps per endpoint and 5 more |
| Fanout.NeverSentTwice | internal/fanout/proxy.go:63-93 | at every moment an endpoint was sent the body at most once, unchanged, and was counted only if it was sent |
| Fanout.SendsAreCounted | internal/fanout/proxy.go:63-93 | after the return, exactly the workers that reached the client have sent the body once and incremented their metric once |
| RbacPolicy.LastRole | rbac/rbac.go:107-110 | a role name stands for the last definition of that name, or for none iff there is none |
| RbacPolicy.PermitsSpelledOut | rbac/rbac.go:69-152 | a permission is "read" or "write" and some binding lists a role name whose last definition has the resource, tenant and permission, and lists the user or one of the groups |
| RbacPolicy.PermitsBySubject | rbac/rbac.go:89-101 | asking for the user and then for each group decides whether one binding fits |
| RbacPolicy.BindingsCombine | rbac/rbac.go:114-149 | authorization over concatenated binding lists is the disjunction over the lists |
| RbacPolicy.PermitsIsMonotone | rbac/rbac.go:89-101 | more bindings and more groups never take a permission away |
| RbacPolicy.OrderDoesNotMatter | rbac/rbac.go:94-149 | permuting or repeating bindings and groups changes no decision |
| RbacPolicy.ShadowedRoleIsInert | rbac/rbac.go:107-110 | a role definition followed anywhere by another of the same name has no effect |
| RbacIndex.Resources.PlacesAreSeparate | rbac/rbac.go:122-134 | in a valid index no two places share a map, and no two cells, read and write included, share a set |
| RbacIndex.Resources.EnsureResource | rbac/rbac.go:122-124 | creating a missing resource map leaves every grant as it was |
| RbacIndex.Resources.EnsureTenant | rbac/rbac.go:129-134 | creating a missing tenant entry with two new sets leaves every grant as it was |
| RbacIndex.Resources.AddTenant | rbac/rbac.go:130-133 | an entry with two sets of its own, new and empty, changes no grant |
| RbacIndex.Resources.Insert | rbac/rbac.go:138-143 | an insertion changes exactly one (resource, tenant, permission) cell, and none for a permission other than read and write |
| RbacIndex.Resources.GrantPermissions | rbac/rbac.go:137-144 | adds exactly one subject in the read and write cells the permission list names |
| RbacIndex.Resources.GrantSubjects | rbac/rbac.go:136-145 | adds exactly the listed subjects in those cells of one resource and tenant |
| RbacIndex.Resources.GrantTenants | rbac/rbac.go:126-146 | adds exactly the grants of a role on one resource, for all its tenants |
| RbacIndex.Resources.GrantRole | rbac/rbac.go:121-147 | adds exactly the grants of one role for the listed subjects; earlier grants survive |
| RbacIndex.Resources.GrantBinding | rbac/rbac.go:115-148 | adds exactly the grants of one binding, skipping undefined role names |
| RbacIndex.NameRoles | rbac/rbac.go:107-110 | the name table maps each name to its last definition |
| RbacIndex.NewAuthorizer | rbac/rbac.go:106-152 | the compiled index holds a subject in a cell iff some binding grants it by the roles' last definitions |
| RbacIndex.Resources.Lookup | rbac/rbac.go:69-102 | true iff the cell lists the user or one of the groups; false for a missing resource or tenant and for any other permission |
| RbacIndex.Resources.Authorize | rbac/rbac.go:69-102 | on an index that implements a policy, true iff the permission is read or write and some binding names the user or one of the groups and reaches the cell |
| Authentication.SubjectIsFirstName | internal/authentication/mtls.go:50-63 | the subject of a certificate is the first name of the first kind it has among e-mail, URI, DNS name and IP address, and there is none iff it has no name |
| Authentication.MtlsRefusals | internal/authentication/mtls.go:28-63 | each refusal of an mTLS caller has the status of its reason |
| Authentication.CookiesDiffer | internal/authentication/oidc.go:249-251 | a tenant's cookie is "observatorium_" and its name, and no two tenants share one |
| Authentication.TwoWords | internal/authentication/oidc.go:119-120 | a string splits into two parts iff it is two separator-free words around one separator |
| Authentication.RequestToken | internal/authentication/oidc.go:117-133 | a non-empty Authorization header yields a token iff it is two words, and then the second; without one the tenant's own cookie is the token |
| Authentication.OidcIdentityIsClaimed | internal/authentication/oidc.go:135-186 | an OIDC caller is known as a subject with groups iff the tenant's verifier accepts its token and the claims say so |
| Authentication.OidcRefusals | internal/authentication/oidc.go:117-173 | each refusal of an OIDC caller has the status of its reason |
| Pipeline.IncompleteContextIsRefused | internal/authentication/http.go:86-90 | without a tenant or a subject in the context no authenticator and no handler is reached |
| Pipeline.TenantSelectsAuthenticator | internal/authentication/http.go:84-99 | the URL's tenant selects the authenticator; an unknown tenant gets 401, a denial its status, a known caller travels on with subject and groups |
| Pipeline.GuardChecksDemand | internal/authorization/http.go:12-35 | a guard passes a known caller iff its policy permits, with absent groups read as empty, else 403 |
| Pipeline.GuardsAreConjoined | internal/authorization/http.go:12-35 | a chain of guards passes a known caller iff every guard's policy permits |
| Pipeline.ChainGivesVerdict | internal/authentication/http.go:84-99 | for all tenant maps, verifiers and guards, the handler is reached iff the tenant has a middleware, it names a subject, and every policy permits; the statuses of the refusals are determined too |
| Pipeline.PassGuards | internal/authorization/http.go:12-35 | asking compiled indexes one after the other passes a caller iff every policy permits |
| Pipeline.ServeCompiled | internal/authorization/http.go:12-35 | serving with compiled indexes gives the verdict of the policies they were compiled from, and the same response as the chain of middlewares with any guards that enforce those policies |
| Tenants.DecodedIsChain | main.go:223-237 | a complete bundle is one that decodes, block by block, each leaving input for the next and the last none, to all its certificates |
| Tenants.LoadsExactly | main.go:212-237 | a section's bundle is read from its file if it names one, else from its own bytes, to the end |
| Tenants.IssuerExactly | main.go:191-209 | there is an issuer certificate iff the section's bytes are non-empty and their first block parses to it, none iff they are empty, and start-up fails iff they cannot be read, decoded or parsed |
| Tenants.BundleIsUnambiguous | main.go:219-237 | a PEM bundle has one complete reading |
| Tenants.LoadBundle | main.go:211-238 | succeeds iff the section's bytes are a complete bundle, and then holds all its certificates, in order; the decoding loop terminates |
| Tenants.LoadIssuer | main.go:191-211 | the issuer certificate is the first of the PEM data; empty data skips the rest of the entry; unreadable data stops start-up |
| Tenants.LoadEntry | main.go:190-238 | an entry loads iff its issuer does and, unless skipped, its bundle does |
| Tenants.LoadCertificates | main.go:190-238 | the first pass succeeds iff every entry can be loaded, and then every OIDC entry holds the issuer certificate, and every mTLS-only entry the complete bundle, it stood for |
| Tenants.Sort | main.go:338-364 | every entry lands in exactly one of the two lists, in order, OIDC taking precedence; start-up stops iff an entry has neither section; a repeated name keeps its last ID |
| Tenants.NewMtls | internal/authentication/mtls.go:17-25 | each tenant maps to its last mTLS configuration, which the middleware keeps as its own |
| Tenants.NewOidc | internal/authentication/oidc.go:40-54 | each tenant maps to its last configuration whose provider came up, for middleware and login handler alike; the warnings name the tenants of the other configurations, one each, in order |
| Tenants.DownProvidersExactly | internal/authentication/oidc.go:46-50 | the warnings name exactly the tenants of configurations whose provider did not come up |
| Tenants.Merge | internal/authentication/http.go:75-82 | the last set that knows a tenant wins, in whatever order the keys of a set are visited |
| Tenants.BuildMiddlewares | main.go:366-375 | a tenant gets its last mTLS entry, else its last OIDC entry that came up, else nothing |
| Tenants.MtlsComesFromLastEntry | main.go:356-362 | the mTLS configuration of a tenant is that of its last mTLS entry, and there is one iff there is such an entry |
| Tenants.OidcComesFromLastEntry | main.go:344-354 | the OIDC configuration of a tenant is that of its last OIDC entry whose provider came up, and there is one iff there is such an entry |
| Tenants.ChosenBelongs | main.go:366-375 | the chosen middleware is that of the tenant's last mTLS entry, with its own complete bundle, else that of its last OIDC entry that came up, with its own issuer certificate, else there is none |
| Tenants.Configure | main.go:338-376 | once loaded, the map is built iff every entry has a section, and holds for every tenant the middleware its entries prescribe |
| Tenants.StartUp | main.go:190-376 | succeeds iff every entry loads and has a section; then every tenant's middleware is the one its entries prescribe, and trusts the bundle or issuer certificate its own entry stood for; an OIDC middleware has an issuer certificate iff its entry's issuer bytes are non-empty |
| Gateway.MtlsTenantIsServed | internal/authentication/mtls.go:21-71 | a tenant with an mTLS entry is served exactly to callers vouched for by that entry's own bundle and permitted by every policy |
| Gateway.OidcTenantIsServed | internal/authentication/oidc.go:113-189 | a tenant without mTLS entry is served by its last OIDC entry that came up, exactly to callers whose token that entry's verifier, with its own issuer, accepts and whose claimed subject and groups every policy permits |
| Gateway.OnlyConfiguredTenantsAreKnown | internal/authentication/http.go:91-95 | a tenant has a middleware iff it has an mTLS entry or an OIDC entry that came up |
| Gateway.Run | main.go:184-376 | start-up, index building and one request together: for every tenant the response is the verdict of the middleware its entries prescribe and of the policy; for an mTLS tenant the handler is reached iff its own bundle vouches for the caller and the policy permits |

## Left out

* HTTP transport, TLS set-up, reverse proxies, flag parsing, loggers, metric definitions, the per-method request counters and route tables: I/O and wiring.
* The OIDC login and callback redirects, and the router that mounts them: a thin layer over the OAuth2 library.
* `WithTenantHeader`: it adds the tenant's ID to a header and never decides whether a handler is reached.
* The environment overrides of `logMaxCount` and `logInterval` (internal/remotewrite/logchannel.go:50-61), which assign only when parsing fails.
* Failed construction of a client or request in `remoteWrite` (internal/remotewrite/proxy.go:82-101): the model assumes both succeed.
* Reading the request body and overwriting the last endpoint's URL in `remoteWrite` (internal/remotewrite/proxy.go:49-59): the URL a goroutine sees is arbitrary in the model, so nothing is claimed about it.
* Several calls of `Proxy` in one process, which would share the global channel list: one set-up is modelled.
* Widths of counters: `logNumber`, the atomic success count and the WaitGroup are unbounded in the model.
* Saturation of `time.Duration` and the rounding of `Seconds()`: durations are integers, and a summary's seconds are whole seconds.
* The text of summary lines: a line carries the reported count, seconds and key instead of the formatted string.
* The text of warnings and error bodies: only the tenant, or the status, is kept.
* The instant at which the logger writes: a line is dated by the last clock reading before it.
* YAML decoding in `rbac.Parse` and `main`: parsed values are the input. Tenant entries are taken to have sections of their own, as decoding makes them.
* Authentication.OidcIdentityIsClaimed: list elements are given as they print, because formatting arbitrary JSON values is the library's.

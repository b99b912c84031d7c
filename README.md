# proksi: HTTP-01 certificate issuance and the port-80 challenge responder

This Dafny project models two parts of the proksi reverse proxy.

**The Let's Encrypt background service** is `HttpLetsencrypt` and `HttpLetsencryptService` in
`src/services/letsencrypt/http01.rs`. One run of it does the following:
- it excludes every configured host that already has a challenge record
  (`./data/challenges/<host>/meta.csv`);
- it restores the ACME account from `./data/account/credentials.json`, or registers one;
- it places one order for the remaining hosts;
- it walks the order's authorizations into the in-memory challenge `Storage`;
- it saves the order URL to `./data/orders/meta.txt`;
- it writes each stored challenge to its host's `meta.csv` and signals it ready;
- it polls the order with exponential back-off (1, 2, 4, … seconds, at most ten refreshes);
- it finalizes with a CSR for the remaining hosts and polls the download every five seconds;
- it writes `cert.pem` and `key.pem` for each remaining host.

**The port-80 proxy** is `HttpLB` in `src/proxy_server/http_proxy.rs`. It does the following:
- it answers `/ping`;
- it serves HTTP-01 key authorizations from its challenge store (section 8.3 of RFC 8555);
- it redirects every other request to HTTPS with 308 Permanent Redirect (section 15.4.9 of RFC 9110);
- it never forwards a request upstream.

Files:
- `acme.dfy` models the ACME authority. Its answers are an `Authority` value given up front, and the requests the run sends are recorded as a `Call` log.
- `data_paths.dfy` holds the data directory layout.
- `challenge_storage.dfy` holds the `Storage` class.
- `issuance.dfy` holds the specification functions of one run and the lemmas about them:
  - `Expected` is the whole run;
  - `Scan` is the authorization loop;
  - `AfterPublishing` is everything after the challenges are written.
- `http01.dfy` holds the two service classes. Their methods update the data directory (`files`), the delays slept (`sleeps`) and the request log (`calls`) step by step, as the code does. They are proved against the functions of `issuance.dfy`. `HttpLetsencrypt.Start` ends in the run `Expected` describes.
- `http_proxy.dfy` holds the request filter as pure functions.

The service does not depend on the order in which `HashMap` iteration visits the challenges. `Storage.Iter` returns some enumeration of the store. `Expected` takes that enumeration as a parameter, and `RunDeterministic` shows that the outcome, the files and the delays are the same for every enumeration.

**Authorization statuses are handled as the code does, and this looks inverted.** The loop at `http01.rs:189-192` *skips* Pending authorizations and creates challenges only for Valid ones. A freshly created order's authorizations are Pending (section 7.1.6 of RFC 8555), so the conventional flow would be the reverse. The model keeps the code's behaviour. `Issuance.AllPendingYieldsNothing` and `Issuance.RunPendingOrder` state the consequence: a first-time order whose authorizations are all Pending publishes no challenge and ends with `NoChallenges`.

Points where the code's behaviour is easy to misread, and what the model does at each:
- **A refused account registration or order.** The code panics (`unwrap`) in both cases. Here the model departs from the code: the run ends with the outcome `NoOrder(AccountRejected)` or `NoOrder(OrderRejected)`.
- **A Valid authorization without an HTTP-01 challenge.** The code panics (`ok_or(...).unwrap()`, `http01.rs:198-203`). Here the model departs from the code too: the run ends with `NoOrder(BadAuthorization(NoHttp01Challenge(identifier)))`. `Issuance.RunNoOrder` states that such a run, like the two above, publishes nothing.
- **An empty identifier list.** `create_order` makes the account request before it checks for an empty identifier list, so that refusal is not free of network calls. `Issuance.RunNeverOrdersNothing` shows the refusal is never reached from a run anyway.
- **An authorization in another status** (neither Pending nor Valid). The code returns an error, and the run ends with `NoOrder(BadAuthorization(UnexpectedStatus(identifier, status)))`.
- **The order reference.** It is written before the check for an empty store, so a `NoChallenges` run has already written `orders/meta.txt`.
- **Identifiers.** They are the configured hosts in configured order, duplicates kept. They are not a set difference.
- **The directory URL.** It is fixed to Let's Encrypt staging.

## Model

| member | source | states |
|---|---|---|
| ChallengeStorage.Storage.constructor | src/services/letsencrypt/http01.rs:22-26 | a new store holds no challenge |
| ChallengeStorage.Storage.AddOrder | src/services/letsencrypt/http01.rs:28-36 | the identifier now maps to (token, url, key authorization), replacing an earlier entry; every other identifier keeps its entry or its absence |
| ChallengeStorage.Storage.GetOrders | src/services/letsencrypt/http01.rs:38-40 | hands back the whole store unchanged |
| ChallengeStorage.Storage.GetOrder | src/services/letsencrypt/http01.rs:42-44 | `Some` exactly when the identifier is stored, and then its entry |
| ChallengeStorage.Storage.Iter | src/services/letsencrypt/http01.rs:305 | lists every stored entry exactly once, with no key repeated, in some order |
| ChallengeStorage.LaterEntryWins | src/services/letsencrypt/http01.rs:28-44 | after two inserts for one identifier, lookup yields the later entry, and an entry under another identifier is untouched |
| DataPaths.Areas | src/services/letsencrypt/http01.rs:220-234 | credentials, order reference, challenge records and certificate files live in four distinct directories |
| DataPaths.ChallengeRecordFileInjective | src/services/letsencrypt/http01.rs:268 | two hosts share a `meta.csv` only if they are the same host |
| DataPaths.CertKeyFilesDistinct | src/services/letsencrypt/http01.rs:384-387 | no host's `cert.pem` is another host's `key.pem` |
| DataPaths.CertFileInjective | src/services/letsencrypt/http01.rs:384-385 | distinct hosts get distinct `cert.pem` paths |
| DataPaths.KeyFileInjective | src/services/letsencrypt/http01.rs:386-387 | distinct hosts get distinct `key.pem` paths |
| Acme.Repeat | src/services/letsencrypt/http01.rs:362-377 | helper: n copies of one request or delay (length n, every element that value); it spells out the repeated download requests and five-second waits of this loop and the refreshes of the polling loop |
| Acme.StatusAfter | src/services/letsencrypt/http01.rs:323-334 | the order status seen after k refreshes (the authority's answers); its properties are used by `Issuance.FirstReady`, `Http01.HttpLetsencryptService.RefreshOrder` and `Issuance.RunPolling` |
| Issuance.ExcludedHosts | src/services/letsencrypt/http01.rs:266-274 | a host is excluded exactly when it is configured and its challenge record exists; never more hosts than configured |
| Issuance.ExcludedHostsAppend | src/services/letsencrypt/http01.rs:267-273 | exclusion keeps configured order (distributes over concatenation) |
| Issuance.Remaining | src/services/letsencrypt/http01.rs:143-154 | an identifier is ordered exactly when its host is configured and not excluded |
| Issuance.RemainingAppend | src/services/letsencrypt/http01.rs:147-154 | identifiers keep configured order (distributes over concatenation) |
| Issuance.AllExcludedIff | src/services/letsencrypt/http01.rs:276-279 | as many exclusions as hosts exactly when every host has a challenge record |
| Issuance.ShortCircuitIffNothingRemains | src/services/letsencrypt/http01.rs:156-159 | the run's early return fires exactly when the identifier list would be empty |
| Issuance.FirstHttp01 | src/services/letsencrypt/http01.rs:198-203 | the chosen challenge is the first HTTP-01 one; `None` exactly when there is none |
| Issuance.Scan | src/services/letsencrypt/http01.rs:188-215 | the authorization loop as a function of the starting store; what it computes is stated by `ScanSucceedsIff`, `ScanErrorIsFirstBad`, `ScanKeys`, `ScanEntry`, `KeepsEntry` and `AllPendingYieldsNothing` |
| Issuance.ScanSucceedsIff | src/services/letsencrypt/http01.rs:188-215 | the authorization loop completes exactly when every authorization is Pending, or Valid with an HTTP-01 challenge |
| Issuance.ScanErrorIsFirstBad | src/services/letsencrypt/http01.rs:192-203 | a failed loop reports the first authorization that is neither, and all earlier ones were acceptable |
| Issuance.ScanKeys | src/services/letsencrypt/http01.rs:188-215 | after a complete loop an identifier is stored exactly when it was before or some Valid authorization names it |
| Issuance.ScanEntry | src/services/letsencrypt/http01.rs:197-214 | the entry of a Valid authorization not superseded by a later one is its first HTTP-01 challenge's token, URL and key authorization |
| Issuance.KeepsEntry | src/services/letsencrypt/http01.rs:188-215 | identifiers no Valid authorization names keep their entry or absence |
| Issuance.AllPendingYieldsNothing | src/services/letsencrypt/http01.rs:189-191 | an all-Pending order stores nothing and does not fail |
| Issuance.ParseRecordLine | src/services/letsencrypt/http01.rs:310 | a parsed record has no `;` in any field |
| Issuance.RecordLine | src/services/letsencrypt/http01.rs:310 | the `url;key_auth;token` record; `RecordRoundTrip` states that `ParseRecordLine` reads it back |
| Issuance.RecordRoundTrip | src/services/letsencrypt/http01.rs:310 | a `url;key_auth;token` record whose fields hold no `;` reads back as the entry written |
| Issuance.EnumerationExists | src/services/letsencrypt/http01.rs:305 | every store has a walk listing each entry once |
| Issuance.ChallengeFiles | src/services/letsencrypt/http01.rs:305-313 | the record files a walk writes; stated by `ChallengeFilesAt`, `ChallengeFilesDomain`, `ChallengeFilesOfStore` and `ChallengeFilesOrderIndependent` |
| Issuance.ReadySignals | src/services/letsencrypt/http01.rs:315-316 | one `set_challenge_ready(url)` per walked entry, in walk order |
| Issuance.ChallengeFilesAt | src/services/letsencrypt/http01.rs:309-313 | each walked host's `meta.csv` holds its own record line |
| Issuance.ChallengeFilesDomain | src/services/letsencrypt/http01.rs:305-317 | the walk writes only challenge record files of walked hosts |
| Issuance.ChallengeFilesOfStore | src/services/letsencrypt/http01.rs:305-317 | the files written are exactly one record per stored host, holding that host's entry |
| Issuance.ChallengeFilesOrderIndependent | src/services/letsencrypt/http01.rs:305 | two walks of the same store write the same files |
| Issuance.ReadySignalsOfStore | src/services/letsencrypt/http01.rs:305-316 | every stored challenge is signalled ready, once |
| Issuance.Pow2 | src/services/letsencrypt/http01.rs:321 | the delay before refresh n+1, at least one second; `BackoffDoubles` ties it to the doubling |
| Issuance.Backoff | src/services/letsencrypt/http01.rs:319-338 | the delays slept before the first n refreshes, one per refresh; stated by `BackoffDoubles`, `TenDelays` and `BackoffTotal` |
| Issuance.BackoffDoubles | src/services/letsencrypt/http01.rs:321-337 | the first delay is 1 s and each later one doubles the previous |
| Issuance.TenDelays | src/services/letsencrypt/http01.rs:319-338 | the full schedule is 1, 2, 4, …, 512 |
| Issuance.BackoffTotal | src/services/letsencrypt/http01.rs:319-338 | n refreshes wait 2^n − 1 seconds in all (1023 for ten) |
| Issuance.FirstReady | src/services/letsencrypt/http01.rs:323-327 | the number of refreshes after which the order is first Ready, within ten; `None` when it never is |
| Issuance.FirstDownloadAnswer | src/services/letsencrypt/http01.rs:362-377 | the first download answer that is not "not ready yet", all before it being "not ready yet" |
| Issuance.CertificateFiles | src/services/letsencrypt/http01.rs:381-395 | the certificate and key files written for the batch; stated by `CertificateFilesAt` and `CertificateFilesDomain` |
| Issuance.CertificateFilesAt | src/services/letsencrypt/http01.rs:381-395 | every non-excluded host gets the same chain in `cert.pem` and the same key in `key.pem` |
| Issuance.CertificateFilesDomain | src/services/letsencrypt/http01.rs:381-395 | only certificate and key files of those hosts are written |
| Issuance.AccountCall | src/services/letsencrypt/http01.rs:93-123 | the one account request: restore from the credentials file, or register; stated by `RunAccountCallFirst` and `RunAccountRequests` |
| Issuance.AccountCredentials | src/services/letsencrypt/http01.rs:96-136 | the credentials the account step ends with, none if registration is refused; stated by `RunAccountFiles` and `RunOrder` |
| Issuance.AfterAccount | src/services/letsencrypt/http01.rs:126-131 | the files after the account step; stated by `RunAccountFiles`, `RunFilesFrame` and `RunNoOrder` |
| Issuance.OrderReference | src/services/letsencrypt/http01.rs:294-296 | the `{:?}`-quoted order URL; stated by `RunOrderReference` |
| Issuance.Expected | src/services/letsencrypt/http01.rs:254-400 | one whole run as a function of its inputs and the walk order; `Http01.HttpLetsencrypt.Start` is proved to end in it, and every `Issuance.Run*` lemma states a property of it |
| Issuance.AfterPublishing | src/services/letsencrypt/http01.rs:319-395 | the run after publishing; stated by `AfterPublishingShape`, `AfterPublishingNeverReady`, `AfterPublishingReady`, `AfterPublishingFinalize` and `AfterPublishingCallsIrrelevant`, and `Http01.HttpLetsencryptService.CompleteOrder` is proved to end in it |
| Issuance.RunShortCircuit | src/services/letsencrypt/http01.rs:265-279 | the run stops before any request exactly when every host has a challenge record, and then changes no file |
| Issuance.RunNeverOrdersNothing | src/services/letsencrypt/http01.rs:156-159 | `create_order`'s refusal of an empty identifier list never ends a run |
| Issuance.AfterPublishingShape | src/services/letsencrypt/http01.rs:319-395 | after publishing only refresh, finalize and download requests follow, and only issuance adds (certificate) files |
| Issuance.RunFilesFrame | src/services/letsencrypt/http01.rs:254-400 | files outside the challenge, certificate and order areas are exactly as the account step left them |
| Issuance.RunAccountCallFirst | src/services/letsencrypt/http01.rs:142 | the account request is the first request and the only one |
| Issuance.RunAccountRequests | src/services/letsencrypt/http01.rs:93-123 | with a credentials file the account is restored from it; without one a single registration goes out with `mailto:<contact>`, terms agreed, against staging |
| Issuance.RunAccountFiles | src/services/letsencrypt/http01.rs:96-137 | existing credentials are kept, new ones saved, and a refused registration ends the run with no credentials file |
| Issuance.RunNoCertificateUnlessIssued | src/services/letsencrypt/http01.rs:354-395 | no `cert.pem` or `key.pem` is created or changed unless a certificate is issued |
| Issuance.RunPublishedShape | src/services/letsencrypt/http01.rs:276-317 | a run that published passed every earlier stage, and its requests were account, order, authorizations, then one ready signal per challenge |
| Issuance.RunOrder | src/services/letsencrypt/http01.rs:141-168 | once the account exists the second request is the order, non-empty, naming exactly the configured hosts without a challenge record |
| Issuance.RunSingleOrder | src/services/letsencrypt/http01.rs:162-168 | a run places at most one order, as its second request |
| Issuance.RunPublishedFiles | src/services/letsencrypt/http01.rs:293-317 | after publishing, non-certificate files stay as account, order reference and challenge records left them |
| Issuance.RunOrderReference | src/services/letsencrypt/http01.rs:293-297 | a published run saved the order URL, `{:?}`-quoted, in `orders/meta.txt` |
| Issuance.RunChallengeRecords | src/services/letsencrypt/http01.rs:304-313 | every stored challenge's host has a `meta.csv` holding that challenge's record line |
| Issuance.RunReadySignals | src/services/letsencrypt/http01.rs:315-316 | every stored challenge's URL is signalled ready |
| Issuance.RunRecordOfAuthorization | src/services/letsencrypt/http01.rs:188-316 | a Valid authorization not superseded later gets its record and ready signal, and its record parses back to its challenge |
| Issuance.RunNoChallenges | src/services/letsencrypt/http01.rs:293-302 | an empty store ends the run after writing only the order reference: no record, no ready signal, no sleep, no finalize |
| Issuance.RunNoOrder | src/services/letsencrypt/http01.rs:282-289 | a run that gets no order (refused account, refused order or bad authorization) keeps the files as the account step left them, sleeps nothing, and sends no ready signal, refresh or finalize |
| Issuance.RunPendingOrder | src/services/letsencrypt/http01.rs:189-191 | an order whose authorizations are all Pending ends with no challenge published |
| Issuance.AfterPublishingNeverReady | src/services/letsencrypt/http01.rs:319-327 | an order never Ready costs exactly ten refreshes, sleeps 1…512, and is never finalized |
| Issuance.AfterPublishingReady | src/services/letsencrypt/http01.rs:319-338 | an order Ready after n refreshes costs n refreshes, the first n delays are the back-off, and later delays are the five-second download wait |
| Issuance.RunPolling | src/services/letsencrypt/http01.rs:319-338 | at most ten refreshes; giving up means ten non-Ready statuses, delays 1…512 and no finalize; finalizing means the first Ready status was reached after exactly that many refreshes |
| Issuance.AfterPublishingFinalize | src/services/letsencrypt/http01.rs:349-377 | finalize names the order's identifiers; rejected exactly when the authority refuses it; issued, failed or pending exactly as the first informative download answer says |
| Issuance.RunFinalize | src/services/letsencrypt/http01.rs:340-377 | the CSR names exactly the ordered identifiers, and each finalized outcome occurs exactly under its authority answers |
| Issuance.RunIssued | src/services/letsencrypt/http01.rs:379-395 | an issued run writes the downloaded chain and the key for every non-excluded host, and a new `cert.pem` belongs to such a host |
| Issuance.AfterPublishingCallsIrrelevant | src/services/letsencrypt/http01.rs:319-395 | what happens after publishing does not depend on the earlier requests |
| Issuance.RunBeforePublishing | src/services/letsencrypt/http01.rs:276-302 | a run that stops before publishing does not depend on the walk order |
| Issuance.RunDeterministic | src/services/letsencrypt/http01.rs:305-317 | any two walk orders of the store give the same outcome, files and delays |
| Http01.HttpLetsencryptService.constructor | src/services/letsencrypt/http01.rs:79-87 | HTTP-01 challenges, the staging directory, the given hosts and contact, an empty store |
| Http01.HttpLetsencryptService.CollectExcludedHosts | src/services/letsencrypt/http01.rs:266-274 | the hosts, in configured order, whose challenge record exists |
| Http01.HttpLetsencryptService.CreateAccount | src/services/letsencrypt/http01.rs:89-138 | restores from the credentials file or registers and saves credentials; exactly one account request |
| Http01.HttpLetsencryptService.CreateOrder | src/services/letsencrypt/http01.rs:141-171 | orders exactly the non-excluded hosts in configured order; an error for no account, no identifier or a refused order |
| Http01.HttpLetsencryptService.CreateChallengesFromOrder | src/services/letsencrypt/http01.rs:174-218 | after the order and the authorization fetch, the store is what the authorization loop builds, and the first bad authorization is the error |
| Http01.HttpLetsencryptService.WriteOrderReference | src/services/letsencrypt/http01.rs:293-297 | `orders/meta.txt` holds the quoted order URL; nothing else changes |
| Http01.HttpLetsencryptService.PublishChallenges | src/services/letsencrypt/http01.rs:304-317 | walks the store once: every entry's record written and signalled ready, in walk order |
| Http01.HttpLetsencryptService.PublishChallenge | src/services/letsencrypt/http01.rs:306-316 | one host's `meta.csv` holds `url;key_auth;token` and its challenge is signalled ready |
| Http01.HttpLetsencryptService.RefreshOrder | src/services/letsencrypt/http01.rs:334 | one more refresh; the status is the authority's answer to it |
| Http01.HttpLetsencryptService.AwaitReady | src/services/letsencrypt/http01.rs:319-338 | Ready exactly when the order becomes Ready within ten refreshes, and then the order's status is Ready; the delays are the back-off, the refreshes are as many as needed (ten when giving up), and the status is the one after the last refresh |
| Http01.HttpLetsencryptService.FinalizeOrder | src/services/letsencrypt/http01.rs:349-359 | one finalize request for the given names; succeeds as the authority answers |
| Http01.HttpLetsencryptService.AwaitCertificate | src/services/letsencrypt/http01.rs:361-377 | the first answer that is not "not ready yet", after one download request per answer and five seconds per "not ready yet" |
| Http01.HttpLetsencryptService.WriteCertificates | src/services/letsencrypt/http01.rs:379-395 | every host of the batch gets the chain and the key |
| Http01.HttpLetsencryptService.CompleteOrder | src/services/letsencrypt/http01.rs:319-395 | polling, finalization, download and writing end as `AfterPublishing` describes |
| Http01.HttpLetsencrypt.constructor | src/services/letsencrypt/http01.rs:244-249 | keeps the configured hosts and contact |
| Http01.HttpLetsencrypt.Start | src/services/letsencrypt/http01.rs:254-400 | one run ends in the outcome, files, delays and requests `Expected` describes for some walk of the store |
| Text.Split | src/proxy_server/http_proxy.rs:68 | at least one piece, none containing the separator |
| Text.JoinSplit | src/proxy_server/http_proxy.rs:68 | splitting loses nothing: joining the pieces gives the string back |
| Text.LastPieceAfterSeparator | src/proxy_server/http_proxy.rs:68 | the last piece after a separator is the text that follows it |
| HttpProxy.GetHost | src/proxy_server/http_proxy.rs:124-134 | a non-empty host from the header is visible ASCII |
| HttpProxy.HostEmptyIff | src/proxy_server/http_proxy.rs:124-134 | the host is empty exactly when the header is unreadable or empty, or absent with no URI host |
| HttpProxy.RequestFilter | src/proxy_server/http_proxy.rs:27-108 | never declines; 400 exactly without a host, otherwise only 404; responses are text/plain with their body length, and 308 exactly when a `Location` is sent |
| HttpProxy.PingAnswered | src/proxy_server/http_proxy.rs:41-51 | `/ping` answers 200 `pong` with length 4 |
| HttpProxy.ChallengeDecision | src/proxy_server/http_proxy.rs:53-84 | a challenge path gets the proof exactly when the host's stored token is the last path segment, else 404 |
| HttpProxy.ChallengeRoundTrip | src/proxy_server/http_proxy.rs:53-84 | `/.well-known/acme-challenge/<token>` on a host storing that token gets 200 and the proof |
| HttpProxy.PrefixWithoutSlash | src/proxy_server/http_proxy.rs:53-61 | any path continuing the prefix is treated as a challenge, 404 when the host has none |
| HttpProxy.TrailingSlashMisses | src/proxy_server/http_proxy.rs:68-73 | a trailing slash makes the token empty and the request fails with 404 |
| HttpProxy.RedirectToHttps | src/proxy_server/http_proxy.rs:86-107 | other paths get 308 to `https://<host><path and query>`, empty body, length 0 |
| HttpProxy.UpstreamPeer | src/proxy_server/http_proxy.rs:113-119 | there is no upstream: stated by `NeverProxied` |
| HttpProxy.Serve | src/proxy_server/http_proxy.rs:27-119 | a request through the filter and, if it declined, the peer choice; stated by `NeverProxied` |
| HttpProxy.NeverProxied | src/proxy_server/http_proxy.rs:110-119 | no request is forwarded; the peer choice always fails with 404 |
| HttpProxy.ResponderExample | src/proxy_server/http_proxy.rs:53-84 | stored `abc`/`xyz` for example.com: token `abc` gets 200 `xyz`, token `def` gets 404 |

## Left out

- Directory creation (`create_dir_all`) is not modelled: the data directory is a map from paths to contents, and creating a directory cannot fail in the model.
- File I/O failures and JSON (de)serialisation failures are not modelled. Each of them panics in the code.
- Cryptography is opaque: key authorizations, key-pair generation, the CSR and PEM encoding. A key authorization is a string given by the authority, the key PEM is a parameter of `Start`, and a CSR is recorded by the names it certifies.
- Network failures of `authorizations()`, `set_challenge_ready`, `refresh` and `Account::from_credentials` are not modelled. Each of them panics in the code. The model always succeeds on these calls.
- Http01.HttpLetsencryptService.WriteOrderReference: `{:?}` is taken as quoting the URL. Debug escaping of quotes and backslashes inside it is not modelled.
- Http01.HttpLetsencryptService.RefreshOrder: past the end of the authority's list of refresh answers, the order status stays at the last answer.
- Http01.HttpLetsencryptService.AwaitCertificate: the download loop is unbounded in the code. The model is bounded by the authority's finite list of answers, and running out of answers ends the run as `DownloadPending`.
- Logging, `println!` and the `ShutdownWatch` (which the code ignores) are not modelled.
- Real time is not modelled: sleeps are recorded as their delay in seconds.
- Concurrency is not modelled. The issuance run is sequential and keeps its own `HashMap` (`Storage`). The proxy's `DashMap` store is read by concurrent requests, and the model looks at one request at a time.
- How the proxy's challenge store is loaded from the records is not part of this model.
- HttpProxy.RequestFilter:
  - `Content-Length` is the body's length in characters, not in UTF-8 bytes;
  - header and response construction errors (`?` on `append_header` and `write_response_*`) are not modelled;
  - the URI builder's validation of the host as an authority, which panics on invalid hosts, is not modelled; the model redirects any non-empty host;
  - a request whose URI has no path and query panics in the code and is modelled as `Aborted`.
- `HostCertificate`, `HostChallenge` and `HostOrder` are declared in http01.rs but never used there, so they are not modelled.

/**
 * The HTTP-01 issuance service (`HttpLetsencryptService`) and the
 * background service that drives one run of it (`HttpLetsencrypt`).
 *
 * The world the service acts on is part of its state: `files` is the
 * data directory (path -> contents), `sleeps` the delays slept, in
 * seconds, `calls` the requests sent to the ACME authority, whose answers
 * come from `authority`. Each method is proved against the functions of
 * `Issuance`; `HttpLetsencrypt.Start` ends in the run `Issuance.Expected`
 * describes.
 */
module Http01 {
  import opened Wrappers
  import opened Acme
  import opened DataPaths
  import opened ChallengeStorage
  import opened Issuance

  /** How far order creation got: the order's URL, or why there is no order. */
  datatype OrderAttempt = Created(url: string) | NotCreated(reason: OrderError)

  class HttpLetsencryptService {
    const challengeType: ChallengeType
    const url: string
    const contact: string
    const hosts: seq<string>
    const certStore: Storage
    const authority: Authority
    var files: map<string, string>
    var sleeps: seq<nat>
    var calls: seq<Call>
    /** Status of the order as last seen, and how many refreshes produced it. */
    var orderStatus: OrderStatus
    var refreshed: nat

    /** The service looks for HTTP-01 challenges and talks to the staging directory. */
    predicate Valid()
    {
      challengeType == Http01 && url == StagingDirectory
    }

    constructor (hosts: seq<string>, contact: string, authority: Authority, files: map<string, string>)
      ensures Valid()
      ensures this.hosts == hosts && this.contact == contact && this.authority == authority
      ensures fresh(certStore) && certStore.orders == map[]
      ensures this.files == files && sleeps == [] && calls == []
      ensures orderStatus == authority.initialStatus && refreshed == 0
    {
      challengeType := Http01;
      url := StagingDirectory;
      this.contact := contact;
      this.hosts := hosts;
      certStore := new Storage();
      this.authority := authority;
      this.files := files;
      sleeps := [];
      calls := [];
      orderStatus := authority.initialStatus;
      refreshed := 0;
    }

    /** The configured hosts that already have a challenge record, in configured order. */
    method CollectExcludedHosts() returns (excluded: seq<string>)
      ensures excluded == ExcludedHosts(files, hosts)
      ensures forall h :: h in excluded <==> h in hosts && ChallengeRecordFile(h) in files
    {
      excluded := [];
      for i := 0 to |hosts|
        invariant excluded == ExcludedHosts(files, hosts[..i])
      {
        assert hosts[..i + 1][..i] == hosts[..i];
        if ChallengeRecordFile(hosts[i]) in files {
          excluded := excluded + [hosts[i]];
        }
      }
      assert hosts[..|hosts|] == hosts;
    }

    /**
     * Restores the account from `account/credentials.json` when that file
     * exists; otherwise registers with the contact as a `mailto:` URL,
     * agreeing to the terms, and saves the new credentials.
     */
    method CreateAccount() returns (credentials: Option<string>)
      requires Valid()
      modifies this
      ensures credentials == AccountCredentials(old(files), authority)
      ensures files == AfterAccount(old(files), authority)
      ensures calls == old(calls) + [AccountCall(old(files), contact)]
      ensures sleeps == old(sleeps) && orderStatus == old(orderStatus) && refreshed == old(refreshed)
    {
      var path := AccountPath + "/credentials.json";
      if path in files {
        credentials := Some(files[path]);
        calls := calls + [RestoreAccount(files[path])];
        return;
      }
      calls := calls + [RegisterAccount(["mailto:" + contact], true, false, url)];
      credentials := authority.newAccount;
      if credentials.Some? {
        files := files[path := credentials.value];
      }
    }

    /**
     * Creates the account, then one order for every configured host not in
     * `excluded`, in configured order; no order when that leaves no host.
     */
    method CreateOrder(excluded: seq<string>) returns (r: OrderAttempt)
      requires Valid()
      modifies this
      ensures var ids := Remaining(hosts, excluded);
        && files == AfterAccount(old(files), authority)
        && r == (if AccountCredentials(old(files), authority).None? then NotCreated(AccountRejected)
                 else if ids == [] then NotCreated(NoIdentifiers)
                 else if authority.orderUrl.None? then NotCreated(OrderRejected)
                 else Created(authority.orderUrl.value))
        && calls == old(calls) + [AccountCall(old(files), contact)] +
                    (if AccountCredentials(old(files), authority).None? || ids == [] then [] else [NewOrder(ids)])
      ensures sleeps == old(sleeps)
      ensures r.Created? ==> orderStatus == StatusAfter(authority, 0) && refreshed == 0
    {
      var credentials := CreateAccount();
      if credentials.None? {
        return NotCreated(AccountRejected);
      }
      var identifiers := [];
      for i := 0 to |hosts|
        invariant identifiers == Remaining(hosts[..i], excluded)
      {
        assert hosts[..i + 1][..i] == hosts[..i];
        if hosts[i] in excluded {
          continue;
        }
        identifiers := identifiers + [hosts[i]];
      }
      assert hosts[..|hosts|] == hosts;
      if identifiers == [] {
        return NotCreated(NoIdentifiers);
      }
      calls := calls + [NewOrder(identifiers)];
      if authority.orderUrl.None? {
        return NotCreated(OrderRejected);
      }
      orderStatus := authority.initialStatus;
      refreshed := 0;
      r := Created(authority.orderUrl.value);
    }

    /**
     * Creates the order and walks its authorizations: Pending ones are
     * skipped, a Valid one stores its first HTTP-01 challenge under its
     * identifier, and any other status ends the walk with an error. A Valid
     * authorization without an HTTP-01 challenge makes the code panic; here
     * it ends the walk with the error `NoHttp01Challenge` instead.
     */
    method CreateChallengesFromOrder(excluded: seq<string>) returns (r: OrderAttempt)
      requires Valid()
      modifies this, certStore
      ensures var ids := Remaining(hosts, excluded);
        var created := AccountCredentials(old(files), authority).Some? && ids != [] && authority.orderUrl.Some?;
        var scanned := Scan(old(certStore.orders), authority.authorizations);
        && files == AfterAccount(old(files), authority)
        && sleeps == old(sleeps)
        && (!created ==> certStore.orders == old(certStore.orders) &&
                         r == (if AccountCredentials(old(files), authority).None? then NotCreated(AccountRejected)
                               else if ids == [] then NotCreated(NoIdentifiers)
                               else NotCreated(OrderRejected)) &&
                         calls == old(calls) + [AccountCall(old(files), contact)] +
                                  (if AccountCredentials(old(files), authority).None? || ids == [] then [] else [NewOrder(ids)]))
        && (created ==>
              && calls == old(calls) + [AccountCall(old(files), contact), NewOrder(ids), FetchAuthorizations]
              && certStore.orders == scanned.store
              && orderStatus == StatusAfter(authority, 0) && refreshed == 0
              && r == if scanned.error.Some? then NotCreated(BadAuthorization(scanned.error.value))
                      else Created(authority.orderUrl.value))
    {
      r := CreateOrder(excluded);
      if r.NotCreated? {
        return;
      }
      calls := calls + [FetchAuthorizations];
      var authorizations := authority.authorizations;
      ghost var start := certStore.orders;
      for i := 0 to |authorizations|
        invariant Scan(certStore.orders, authorizations[i..]) == Scan(start, authorizations)
        invariant orderStatus == StatusAfter(authority, 0) && refreshed == 0
        invariant files == AfterAccount(old(files), authority) && sleeps == old(sleeps)
        invariant calls == old(calls) + [AccountCall(old(files), contact), NewOrder(Remaining(hosts, excluded)), FetchAuthorizations]
      {
        var authz := authorizations[i];
        assert authorizations[i..][1..] == authorizations[i + 1..];
        match authz.status {
          case Pending => continue;
          case Valid =>
          case _ =>
            assert Scan(start, authorizations) == Scanned(certStore.orders, Some(ErrorOf(authz)));
            return NotCreated(BadAuthorization(UnexpectedStatus(authz.identifier, authz.status)));
        }
        var found := FirstHttp01(authz.challenges);
        if found.None? {
          assert Scan(start, authorizations) == Scanned(certStore.orders, Some(ErrorOf(authz)));
          return NotCreated(BadAuthorization(NoHttp01Challenge(authz.identifier)));
        }
        var challenge := authz.challenges[found.value];
        certStore.AddOrder(authz.identifier, challenge.token, challenge.url, challenge.keyAuthorization);
      }
      assert authorizations[|authorizations|..] == [];
    }

    /** Saves the order URL, `{:?}`-quoted, to `orders/meta.txt`. */
    method WriteOrderReference(orderUrl: string)
      modifies this
      ensures files == old(files)[OrderReferenceFile() := OrderReference(orderUrl)]
      ensures calls == old(calls) && sleeps == old(sleeps)
      ensures orderStatus == old(orderStatus) && refreshed == old(refreshed)
    {
      files := files[OrdersPath + "/meta.txt" := "\"" + orderUrl + "\""];
    }

    /**
     * Walks the store in some order: for each entry writes its
     * `url;key_auth;token` record to the host's `meta.csv` and signals the
     * challenge ready. The walk order is the one `pairs` lists.
     */
    method PublishChallenges() returns (pairs: seq<(string, Entry)>)
      modifies this
      ensures IsEnumeration(pairs, certStore.orders)
      ensures files == old(files) + ChallengeFiles(pairs)
      ensures calls == old(calls) + ReadySignals(pairs)
      ensures sleeps == old(sleeps) && orderStatus == old(orderStatus) && refreshed == old(refreshed)
    {
      pairs := certStore.Iter();
      for i := 0 to |pairs|
        invariant files == old(files) + ChallengeFiles(pairs[..i])
        invariant calls == old(calls) + ReadySignals(pairs[..i])
        invariant sleeps == old(sleeps) && orderStatus == old(orderStatus) && refreshed == old(refreshed)
      {
        ChallengeFilesNext(old(files), pairs, i);
        ReadySignalsNext(old(calls), pairs, i);
        PublishChallenge(pairs[i].0, pairs[i].1);
      }
      assert pairs[..|pairs|] == pairs;
    }

    /** Writes one challenge's record to the host's `meta.csv` and signals the challenge ready. */
    method PublishChallenge(key: string, value: Entry)
      modifies this
      ensures files == old(files)[ChallengeRecordFile(key) := RecordLine(value)]
      ensures calls == old(calls) + [SetChallengeReady(value.url)]
      ensures sleeps == old(sleeps) && orderStatus == old(orderStatus) && refreshed == old(refreshed)
    {
      assert ChallengesPath + "/" + key + "/meta.csv" == ChallengeRecordFile(key);
      files := files[ChallengesPath + "/" + key + "/meta.csv" := value.url + ";" + value.keyAuthorization + ";" + value.token];
      calls := calls + [SetChallengeReady(value.url)];
    }

    /** One `refresh` of the order. */
    method RefreshOrder()
      modifies this
      ensures refreshed == old(refreshed) + 1 && orderStatus == StatusAfter(authority, refreshed)
      ensures calls == old(calls) + [Refresh]
      ensures files == old(files) && sleeps == old(sleeps)
    {
      refreshed := refreshed + 1;
      orderStatus := StatusAfter(authority, refreshed);
      calls := calls + [Refresh];
    }

    /**
     * Waits until the order is Ready: sleeps 1, 2, 4, ... seconds before
     * each refresh and gives up once ten refreshes have not made it Ready.
     */
    method AwaitReady() returns (ready: bool)
      requires refreshed == 0 && orderStatus == StatusAfter(authority, 0)
      modifies this
      ensures ready <==> FirstReady(authority, 0).Some?
      ensures var n := if ready then FirstReady(authority, 0).value else MaxRetries;
        && sleeps == old(sleeps) + Backoff(n) && calls == old(calls) + Repeat(Refresh, n)
        && refreshed == n && orderStatus == StatusAfter(authority, n)
      ensures ready ==> orderStatus == OrderStatus.Ready
      ensures files == old(files)
    {
      var maxRetries := 10;
      var currentRetry := 0;
      var retryDelay := 1;
      while orderStatus != OrderStatus.Ready
        invariant 0 <= currentRetry <= maxRetries && maxRetries == MaxRetries
        invariant retryDelay == Pow2(currentRetry)
        invariant refreshed == currentRetry && orderStatus == StatusAfter(authority, currentRetry)
        invariant forall j :: 0 <= j < currentRetry ==> StatusAfter(authority, j) != OrderStatus.Ready
        invariant sleeps == old(sleeps) + Backoff(currentRetry)
        invariant calls == old(calls) + Repeat(Refresh, currentRetry)
        invariant files == old(files)
        decreases maxRetries - currentRetry
      {
        if currentRetry >= maxRetries {
          NoReadyWithin(authority);
          return false;
        }
        assert Backoff(currentRetry + 1) == Backoff(currentRetry) + [retryDelay];
        assert Repeat(Refresh, currentRetry + 1) == Repeat(Refresh, currentRetry) + [Refresh];
        sleeps := sleeps + [retryDelay];
        RefreshOrder();
        currentRetry := currentRetry + 1;
        retryDelay := retryDelay * 2;
      }
      ReadyAt(authority, currentRetry);
      ready := true;
    }

    /** Sends the finalize request for a CSR naming `names`; true if the authority accepts it. */
    method FinalizeOrder(names: seq<string>) returns (ok: bool)
      modifies this
      ensures ok == authority.finalizeOk
      ensures calls == old(calls) + [Finalize(names)]
      ensures files == old(files) && sleeps == old(sleeps)
    {
      calls := calls + [Finalize(names)];
      ok := authority.finalizeOk;
    }

    /**
     * Asks for the certificate until the answer is more than "not ready
     * yet", sleeping five seconds after each such answer. `NotReady` means
     * the authority's answers ran out first.
     */
    method AwaitCertificate() returns (answer: Download)
      modifies this
      ensures var k := FirstDownloadAnswer(authority.downloads);
        && answer == (if k == |authority.downloads| then NotReady else authority.downloads[k])
        && calls == old(calls) + Repeat(DownloadCertificate, if k == |authority.downloads| then k else k + 1)
        && sleeps == old(sleeps) + Repeat(CertificatePollDelay, k)
      ensures files == old(files)
    {
      var downloads := authority.downloads;
      var attempt := 0;
      while attempt < |downloads|
        invariant attempt <= |downloads|
        invariant forall j :: 0 <= j < attempt ==> downloads[j] == NotReady
        invariant calls == old(calls) + Repeat(DownloadCertificate, attempt)
        invariant sleeps == old(sleeps) + Repeat(CertificatePollDelay, attempt)
        invariant files == old(files)
      {
        calls := calls + [DownloadCertificate];
        match downloads[attempt]
        case Chain(pem) =>
          FirstDownloadAnswerAt(downloads, attempt);
          return Chain(pem);
        case NotReady =>
          sleeps := sleeps + [5];
          attempt := attempt + 1;
        case DownloadError =>
          FirstDownloadAnswerAt(downloads, attempt);
          return DownloadError;
      }
      FirstDownloadAnswerAt(downloads, attempt);
      answer := NotReady;
    }

    /** Writes `cert.pem` (the chain) and `key.pem` (the key) for every host of the batch. */
    method WriteCertificates(batch: seq<string>, chain: string, keyPem: string)
      modifies this
      ensures files == old(files) + CertificateFiles(batch, chain, keyPem)
      ensures calls == old(calls) && sleeps == old(sleeps)
    {
      for i := 0 to |batch|
        invariant files == old(files) + CertificateFiles(batch[..i], chain, keyPem)
        invariant calls == old(calls) && sleeps == old(sleeps)
      {
        var host := batch[i];
        CertificateFilesSnoc(old(files), batch, i, chain, keyPem);
        files := files[CertFile(host) := chain];
        files := files[KeyFile(host) := keyPem];
      }
      assert batch[..|batch|] == batch;
    }

    /**
     * Everything after the challenges are published: wait for the order,
     * finalize it with a CSR for the non-excluded hosts, download the
     * chain and write it with the key for each of those hosts.
     */
    method CompleteOrder(excluded: seq<string>, keyPem: string) returns (outcome: RunOutcome)
      requires refreshed == 0 && orderStatus == StatusAfter(authority, 0) && sleeps == []
      modifies this
      ensures Run(outcome, files, sleeps, calls) ==
              AfterPublishing(Remaining(hosts, excluded), authority, keyPem, old(files), old(calls))
    {
      var ready := AwaitReady();
      if !ready {
        return NeverReady;
      }
      var nonExcluded := Remaining(hosts, excluded);
      var ok := FinalizeOrder(nonExcluded);
      if !ok {
        return FinalizeRejected;
      }
      var answer := AwaitCertificate();
      match answer
      case NotReady => return DownloadPending;
      case DownloadError => return DownloadFailed;
      case Chain(pem) =>
        WriteCertificates(nonExcluded, pem, keyPem);
        return Issued;
    }
  }

  /** Ten refreshes without Ready: the polling gives up. */
  lemma NoReadyWithin(a: Authority)
    requires forall j :: 0 <= j < MaxRetries ==> StatusAfter(a, j) != OrderStatus.Ready
    requires StatusAfter(a, MaxRetries) != OrderStatus.Ready
    ensures FirstReady(a, 0).None?
  {
  }

  /** The first Ready status is the one polling stops at. */
  lemma ReadyAt(a: Authority, n: nat)
    requires n <= MaxRetries && StatusAfter(a, n) == OrderStatus.Ready
    requires forall j :: 0 <= j < n ==> StatusAfter(a, j) != OrderStatus.Ready
    ensures FirstReady(a, 0) == Some(n)
  {
  }

  /** The first answer that is not "not ready yet" is the one the download loop stops at. */
  lemma FirstDownloadAnswerAt(ds: seq<Download>, k: nat)
    requires k <= |ds| && forall j :: 0 <= j < k ==> ds[j] == NotReady
    requires k < |ds| ==> ds[k] != NotReady
    ensures FirstDownloadAnswer(ds) == k
  {
  }

  /** One more walked entry adds its record file. */
  lemma ChallengeFilesNext(files: map<string, string>, pairs: seq<(string, Entry)>, i: nat)
    requires i < |pairs|
    ensures (files + ChallengeFiles(pairs[..i]))[ChallengeRecordFile(pairs[i].0) := RecordLine(pairs[i].1)] ==
            files + ChallengeFiles(pairs[..i + 1])
  {
    assert pairs[..i + 1][..i] == pairs[..i];
  }

  /** One more walked entry adds its ready signal. */
  lemma ReadySignalsNext(calls: seq<Call>, pairs: seq<(string, Entry)>, i: nat)
    requires i < |pairs|
    ensures calls + ReadySignals(pairs[..i]) + [SetChallengeReady(pairs[i].1.url)] == calls + ReadySignals(pairs[..i + 1])
  {
    assert pairs[..i + 1][..i] == pairs[..i];
  }

  /** One more host of the batch adds its certificate and key files. */
  lemma CertificateFilesSnoc(files: map<string, string>, batch: seq<string>, i: nat, chain: string, keyPem: string)
    requires i < |batch|
    ensures (files + CertificateFiles(batch[..i], chain, keyPem))[CertFile(batch[i]) := chain][KeyFile(batch[i]) := keyPem] ==
            files + CertificateFiles(batch[..i + 1], chain, keyPem)
  {
    assert batch[..i + 1][..i] == batch[..i];
  }

  class HttpLetsencrypt {
    const contact: string
    const hosts: seq<string>

    constructor (hosts: seq<string>, contact: string)
      ensures this.hosts == hosts && this.contact == contact
    {
      this.contact := contact;
      this.hosts := hosts;
    }

    /**
     * One run of the background service on the data directory `files`,
     * against an authority answering as `authority`, with `keyPem` the
     * generated key. The run is the one `Expected` describes for some
     * walk order of the challenge store.
     */
    method Start(files: map<string, string>, authority: Authority, keyPem: string) returns (r: Run)
      ensures exists pairs :: IsEnumeration(pairs, Scan(map[], authority.authorizations).store) &&
                              r == Expected(hosts, contact, files, authority, keyPem, pairs)
    {
      var svc := new HttpLetsencryptService(hosts, contact, authority, files);
      var excluded := svc.CollectExcludedHosts();
      if |excluded| == |svc.hosts| {
        r := Run(AllHostsExcluded, svc.files, svc.sleeps, svc.calls);
        AnyWalk(hosts, contact, files, authority, keyPem, r);
        return;
      }
      var order := svc.CreateChallengesFromOrder(excluded);
      if order.NotCreated? {
        r := Run(NoOrder(order.reason), svc.files, svc.sleeps, svc.calls);
        NotCreatedRun(hosts, contact, files, authority, keyPem, order.reason, svc.calls, r);
        return;
      }
      svc.WriteOrderReference(order.url);
      var orders := svc.certStore.GetOrders();
      if orders == map[] {
        r := Run(NoChallenges, svc.files, svc.sleeps, svc.calls);
        assert !Publishes(hosts, files, authority);
        AnyWalk(hosts, contact, files, authority, keyPem, r);
        return;
      }
      ghost var published := svc.files;
      ghost var signalled := svc.calls;
      var pairs := svc.PublishChallenges();
      var outcome := svc.CompleteOrder(excluded, keyPem);
      r := Run(outcome, svc.files, svc.sleeps, svc.calls);
      PublishedRun(hosts, contact, files, authority, keyPem, pairs, published, signalled, r);
    }
  }

  /** A run that stops before publishing is the expected one for any walk. */
  lemma AnyWalk(hosts: seq<string>, contact: string, files: map<string, string>, a: Authority,
                keyPem: string, r: Run)
    requires !Publishes(hosts, files, a)
    requires r == Expected(hosts, contact, files, a, keyPem, [])
    ensures exists pairs :: IsEnumeration(pairs, Scan(map[], a.authorizations).store) &&
                            r == Expected(hosts, contact, files, a, keyPem, pairs)
  {
    var pairs := EnumerationExists(Scan(map[], a.authorizations).store);
    RunBeforePublishing(hosts, contact, files, a, keyPem, pairs, []);
  }

  /** A run that got no order stops where order creation stopped, for any walk. */
  lemma NotCreatedRun(hosts: seq<string>, contact: string, files: map<string, string>, a: Authority,
                      keyPem: string, reason: OrderError, calls: seq<Call>, r: Run)
    requires |ExcludedHosts(files, hosts)| != |hosts|
    requires r == Run(NoOrder(reason), AfterAccount(files, a), [], calls)
    requires var ids := Remaining(hosts, ExcludedHosts(files, hosts));
      var created := AccountCredentials(files, a).Some? && ids != [] && a.orderUrl.Some?;
      var scanned := Scan(map[], a.authorizations);
      && (!created ==> NotCreated(reason) == (if AccountCredentials(files, a).None? then NotCreated(AccountRejected)
                                              else if ids == [] then NotCreated(NoIdentifiers)
                                              else NotCreated(OrderRejected)) &&
                       calls == [] + [AccountCall(files, contact)] +
                                (if AccountCredentials(files, a).None? || ids == [] then [] else [NewOrder(ids)]))
      && (created ==>
            && calls == [] + [AccountCall(files, contact), NewOrder(ids), FetchAuthorizations]
            && NotCreated(reason) == if scanned.error.Some? then NotCreated(BadAuthorization(scanned.error.value))
                                     else Created(a.orderUrl.value))
    ensures exists pairs :: IsEnumeration(pairs, Scan(map[], a.authorizations).store) &&
                            r == Expected(hosts, contact, files, a, keyPem, pairs)
  {
    AnyWalk(hosts, contact, files, a, keyPem, r);
  }

  /** A run that published along `pairs` is the expected one for that walk. */
  lemma PublishedRun(hosts: seq<string>, contact: string, files: map<string, string>, a: Authority,
                     keyPem: string, pairs: seq<(string, Entry)>,
                     published: map<string, string>, signalled: seq<Call>, r: Run)
    requires Publishes(hosts, files, a)
    requires IsEnumeration(pairs, Scan(map[], a.authorizations).store)
    requires var ids := Remaining(hosts, ExcludedHosts(files, hosts));
      && published == AfterAccount(files, a)[OrderReferenceFile() := OrderReference(a.orderUrl.value)]
      && signalled == [AccountCall(files, contact), NewOrder(ids), FetchAuthorizations]
      && r == AfterPublishing(ids, a, keyPem, published + ChallengeFiles(pairs), signalled + ReadySignals(pairs))
    ensures exists pairs :: IsEnumeration(pairs, Scan(map[], a.authorizations).store) &&
                            r == Expected(hosts, contact, files, a, keyPem, pairs)
  {
    assert r == Expected(hosts, contact, files, a, keyPem, pairs);
  }
}

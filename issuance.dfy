/**
 * Specification of one HTTP-01 issuance run (section 8.3 of RFC 8555):
 * the pure decisions the run takes, stage by stage, and `Expected`, the
 * whole run as a function of the files found on disk, the configuration
 * and the authority's answers.
 */
module Issuance {
  import opened Wrappers
  import opened Text
  import opened Acme
  import opened DataPaths
  import opened ChallengeStorage

  /** Refreshes allowed while waiting for the order to become ready. */
  const MaxRetries := 10
  /** Seconds between two certificate downloads. */
  const CertificatePollDelay := 5

  // ---------------------------------------------------------------- exclusion

  /** The configured hosts that already have a challenge record, in configured order. */
  function ExcludedHosts(files: map<string, string>, hosts: seq<string>): (r: seq<string>)
    ensures |r| <= |hosts|
    ensures forall h :: h in r <==> h in hosts && ChallengeRecordFile(h) in files
    decreases |hosts|
  {
    if hosts == [] then []
    else
      var h := hosts[|hosts| - 1];
      assert hosts == hosts[..|hosts| - 1] + [h];
      ExcludedHosts(files, hosts[..|hosts| - 1]) + (if ChallengeRecordFile(h) in files then [h] else [])
  }

  /** The configured hosts not in `excluded`, in configured order. */
  function Remaining(hosts: seq<string>, excluded: seq<string>): (r: seq<string>)
    ensures |r| <= |hosts|
    ensures forall h :: h in r <==> h in hosts && h !in excluded
    decreases |hosts|
  {
    if hosts == [] then []
    else
      var h := hosts[|hosts| - 1];
      assert hosts == hosts[..|hosts| - 1] + [h];
      Remaining(hosts[..|hosts| - 1], excluded) + (if h in excluded then [] else [h])
  }

  /** Exclusion keeps configured order: it distributes over concatenation of host lists. */
  lemma {:induction false} ExcludedHostsAppend(files: map<string, string>, a: seq<string>, b: seq<string>)
    ensures ExcludedHosts(files, a + b) == ExcludedHosts(files, a) + ExcludedHosts(files, b)
    decreases |b|
  {
    if b != [] {
      var h := b[|b| - 1];
      assert (a + b)[..|a + b| - 1] == a + b[..|b| - 1];
      ExcludedHostsAppend(files, a, b[..|b| - 1]);
    } else {
      assert a + b == a;
    }
  }

  /** The identifier list keeps configured order: it distributes over concatenation. */
  lemma {:induction false} RemainingAppend(a: seq<string>, b: seq<string>, excluded: seq<string>)
    ensures Remaining(a + b, excluded) == Remaining(a, excluded) + Remaining(b, excluded)
    decreases |b|
  {
    if b != [] {
      assert (a + b)[..|a + b| - 1] == a + b[..|b| - 1];
      RemainingAppend(a, b[..|b| - 1], excluded);
    } else {
      assert a + b == a;
    }
  }

  /** `excluded_hosts.len() == hosts.len()` exactly when every host has a challenge record. */
  lemma {:induction false} AllExcludedIff(files: map<string, string>, hosts: seq<string>)
    ensures |ExcludedHosts(files, hosts)| == |hosts| <==>
            forall h :: h in hosts ==> ChallengeRecordFile(h) in files
    decreases |hosts|
  {
    if hosts != [] {
      var init, h := hosts[..|hosts| - 1], hosts[|hosts| - 1];
      assert hosts == init + [h];
      AllExcludedIff(files, init);
      if ChallengeRecordFile(h) !in files {
        assert |ExcludedHosts(files, hosts)| == |ExcludedHosts(files, init)| < |hosts|;
      }
    }
  }

  /**
   * The run's early return (all hosts excluded) fires exactly when the
   * identifier list would be empty, so `create_order`'s own refusal of an
   * empty list is never reached from the run.
   */
  lemma ShortCircuitIffNothingRemains(files: map<string, string>, hosts: seq<string>)
    ensures |ExcludedHosts(files, hosts)| == |hosts| <==> Remaining(hosts, ExcludedHosts(files, hosts)) == []
  {
    var excluded := ExcludedHosts(files, hosts);
    AllExcludedIff(files, hosts);
    if Remaining(hosts, excluded) != [] {
      var h := Remaining(hosts, excluded)[0];
      assert h in Remaining(hosts, excluded);
    }
  }

  // ----------------------------------------------------------- authorizations

  /** Index of the first HTTP-01 challenge (`iter().find`), if there is one. */
  function FirstHttp01(cs: seq<Challenge>): (r: Option<nat>)
    ensures r.Some? ==> r.value < |cs| && cs[r.value].kind == Http01 &&
                        forall j :: 0 <= j < r.value ==> cs[j].kind != Http01
    ensures r.None? ==> forall j :: 0 <= j < |cs| ==> cs[j].kind != Http01
    decreases |cs|
  {
    if cs == [] then None
    else if cs[0].kind == Http01 then Some(0)
    else match FirstHttp01(cs[1..])
      case None => None
      case Some(i) => Some(i + 1)
  }

  /**
   * Why the authorization loop stopped: a status other than Pending or
   * Valid (the code returns an error), or a Valid authorization without an
   * HTTP-01 challenge (the code panics; the model stops with this error).
   */
  datatype AuthzError =
    | UnexpectedStatus(identifier: string, status: AuthorizationStatus)
    | NoHttp01Challenge(identifier: string)

  /** Pending authorizations are skipped, Valid ones need an HTTP-01 challenge, anything else fails. */
  predicate Acceptable(a: Authorization)
  {
    a.status == AuthorizationStatus.Pending ||
    (a.status == AuthorizationStatus.Valid && FirstHttp01(a.challenges).Some?)
  }

  function ErrorOf(a: Authorization): AuthzError
  {
    if a.status == AuthorizationStatus.Valid then NoHttp01Challenge(a.identifier)
    else UnexpectedStatus(a.identifier, a.status)
  }

  /** The store entry built from a Valid authorization's first HTTP-01 challenge. */
  function EntryFor(a: Authorization): Entry
    requires FirstHttp01(a.challenges).Some?
  {
    var c := a.challenges[FirstHttp01(a.challenges).value];
    Entry(c.token, c.url, c.keyAuthorization)
  }

  /** The store after one acceptable authorization. */
  function Step(store: map<string, Entry>, a: Authorization): map<string, Entry>
    requires Acceptable(a)
  {
    if a.status == AuthorizationStatus.Pending then store
    else store[a.identifier := EntryFor(a)]
  }

  /** Store contents reached and the error that stopped the walk, if any. */
  datatype Scanned = Scanned(store: map<string, Entry>, error: Option<AuthzError>)

  /** The authorization loop of `create_challenges_from_order`, from a given store. */
  function Scan(store: map<string, Entry>, auths: seq<Authorization>): Scanned
    decreases |auths|
  {
    if auths == [] then Scanned(store, None)
    else if !Acceptable(auths[0]) then Scanned(store, Some(ErrorOf(auths[0])))
    else Scan(Step(store, auths[0]), auths[1..])
  }

  /** The walk succeeds exactly when every authorization is acceptable. */
  lemma {:induction false} ScanSucceedsIff(store: map<string, Entry>, auths: seq<Authorization>)
    ensures Scan(store, auths).error.None? <==> forall i :: 0 <= i < |auths| ==> Acceptable(auths[i])
    decreases |auths|
  {
    if auths != [] && Acceptable(auths[0]) {
      ScanSucceedsIff(Step(store, auths[0]), auths[1..]);
      assert forall i :: 1 <= i < |auths| ==> auths[i] == auths[1..][i - 1];
    }
  }

  /** On failure the error names the first authorization that is not acceptable. */
  lemma {:induction false} ScanErrorIsFirstBad(store: map<string, Entry>, auths: seq<Authorization>)
    requires Scan(store, auths).error.Some?
    ensures exists i :: 0 <= i < |auths| && !Acceptable(auths[i]) &&
                        Scan(store, auths).error.value == ErrorOf(auths[i]) &&
                        forall j :: 0 <= j < i ==> Acceptable(auths[j])
    decreases |auths|
  {
    if Acceptable(auths[0]) {
      ScanErrorIsFirstBad(Step(store, auths[0]), auths[1..]);
      var i :| 0 <= i < |auths[1..]| && !Acceptable(auths[1..][i]) &&
                Scan(Step(store, auths[0]), auths[1..]).error.value == ErrorOf(auths[1..][i]) &&
                forall j :: 0 <= j < i ==> Acceptable(auths[1..][j]);
      assert auths[i + 1] == auths[1..][i];
      forall j | 0 <= j < i + 1 ensures Acceptable(auths[j]) {
        if j > 0 { assert auths[j] == auths[1..][j - 1]; }
      }
    } else {
      assert !Acceptable(auths[0]);
    }
  }

  /**
   * A successful walk stores exactly the identifiers of the Valid
   * authorizations on top of what was there before.
   */
  lemma {:induction false} ScanKeys(store: map<string, Entry>, auths: seq<Authorization>, h: string)
    requires Scan(store, auths).error.None?
    ensures h in Scan(store, auths).store <==>
            h in store ||
            exists i :: 0 <= i < |auths| && auths[i].status == AuthorizationStatus.Valid && auths[i].identifier == h
    decreases |auths|
  {
    if auths != [] {
      ScanKeys(Step(store, auths[0]), auths[1..], h);
      if exists i :: 0 <= i < |auths[1..]| && auths[1..][i].status == AuthorizationStatus.Valid && auths[1..][i].identifier == h {
        var i :| 0 <= i < |auths[1..]| && auths[1..][i].status == AuthorizationStatus.Valid && auths[1..][i].identifier == h;
        assert auths[i + 1] == auths[1..][i];
      }
      if exists i :: 0 <= i < |auths| && auths[i].status == AuthorizationStatus.Valid && auths[i].identifier == h {
        var i :| 0 <= i < |auths| && auths[i].status == AuthorizationStatus.Valid && auths[i].identifier == h;
        if i > 0 { assert auths[1..][i - 1] == auths[i]; }
      }
    }
  }

  /**
   * A Valid authorization whose identifier no later Valid authorization
   * repeats leaves its own entry in the store (a later one replaces it).
   */
  lemma {:induction false} ScanEntry(store: map<string, Entry>, auths: seq<Authorization>, i: nat)
    requires Scan(store, auths).error.None?
    requires i < |auths| && auths[i].status == AuthorizationStatus.Valid
    requires forall j :: i < j < |auths| && auths[j].status == AuthorizationStatus.Valid ==>
               auths[j].identifier != auths[i].identifier
    ensures FirstHttp01(auths[i].challenges).Some?
    ensures auths[i].identifier in Scan(store, auths).store
    ensures Scan(store, auths).store[auths[i].identifier] == EntryFor(auths[i])
    decreases |auths|
  {
    ScanSucceedsIff(store, auths);
    if i == 0 {
      KeepsEntry(Step(store, auths[0]), auths[1..], auths[0].identifier);
    } else {
      forall j | i - 1 < j < |auths[1..]| && auths[1..][j].status == AuthorizationStatus.Valid
        ensures auths[1..][j].identifier != auths[1..][i - 1].identifier
      {
        assert auths[1..][j] == auths[j + 1];
      }
      ScanEntry(Step(store, auths[0]), auths[1..], i - 1);
    }
  }

  /** An identifier no Valid authorization names keeps its entry (or its absence). */
  lemma {:induction false} KeepsEntry(store: map<string, Entry>, auths: seq<Authorization>, h: string)
    requires Scan(store, auths).error.None?
    requires forall j :: 0 <= j < |auths| && auths[j].status == AuthorizationStatus.Valid ==> auths[j].identifier != h
    ensures h in Scan(store, auths).store <==> h in store
    ensures h in store ==> Scan(store, auths).store[h] == store[h]
    decreases |auths|
  {
    if auths != [] {
      forall j | 0 <= j < |auths[1..]| && auths[1..][j].status == AuthorizationStatus.Valid
        ensures auths[1..][j].identifier != h
      {
        assert auths[1..][j] == auths[j + 1];
      }
      KeepsEntry(Step(store, auths[0]), auths[1..], h);
    }
  }

  /**
   * The branch at http01.rs:190-191 taken literally: an order whose
   * authorizations are all Pending (the state a new order starts in,
   * section 7.1.6 of RFC 8555) yields no challenge at all.
   */
  lemma {:induction false} AllPendingYieldsNothing(store: map<string, Entry>, auths: seq<Authorization>)
    requires forall i :: 0 <= i < |auths| ==> auths[i].status == AuthorizationStatus.Pending
    ensures Scan(store, auths) == Scanned(store, None)
    decreases |auths|
  {
    if auths != [] {
      assert forall i :: 0 <= i < |auths[1..]| ==> auths[1..][i] == auths[i + 1];
      AllPendingYieldsNothing(store, auths[1..]);
    }
  }

  // ------------------------------------------------------------ record files

  /** The content of `meta.csv`: `url;key_auth;token`. */
  function RecordLine(e: Entry): string
  {
    e.url + ";" + e.keyAuthorization + ";" + e.token
  }

  /** Reads a `meta.csv` line back (inverse of `RecordLine`). */
  function ParseRecordLine(line: string): (r: Option<Entry>)
    ensures r.Some? ==> ';' !in r.value.url && ';' !in r.value.keyAuthorization && ';' !in r.value.token
  {
    var parts := Split(line, ';');
    if |parts| == 3 then Some(Entry(parts[2], parts[0], parts[1])) else None
  }

  /** A record whose fields hold no `;` reads back as the entry it was written from. */
  lemma RecordRoundTrip(e: Entry)
    requires ';' !in e.url && ';' !in e.keyAuthorization && ';' !in e.token
    ensures ParseRecordLine(RecordLine(e)) == Some(e)
  {
    var parts := [e.url, e.keyAuthorization, e.token];
    assert Join(parts, ';') == RecordLine(e) by {
      assert Join(parts[2..], ';') == e.token;
      assert Join(parts[1..], ';') == e.keyAuthorization + ";" + e.token;
    }
    SplitJoin(parts, ';');
  }

  /** Every finite store can be walked. */
  lemma EnumerationExists(m: map<string, Entry>) returns (pairs: seq<(string, Entry)>)
    ensures IsEnumeration(pairs, m)
    decreases |m|
  {
    if m == map[] {
      pairs := [];
    } else {
      var k :| k in m;
      var rest := m - {k};
      assert |rest| < |m| by {
        assert rest.Keys == m.Keys - {k};
      }
      var tail := EnumerationExists(rest);
      pairs := tail + [(k, m[k])];
      forall i | 0 <= i < |pairs| ensures pairs[i].0 in m && m[pairs[i].0] == pairs[i].1 {
        if i < |tail| {
          assert pairs[i] == tail[i] && tail[i].0 in rest;
        }
      }
      forall i, j | 0 <= i < j < |pairs| ensures pairs[i].0 != pairs[j].0 {
        assert pairs[i] == tail[i] && tail[i].0 in rest;
      }
      forall k' | k' in m ensures exists i :: 0 <= i < |pairs| && pairs[i].0 == k' {
        if k' == k {
          assert pairs[|tail|].0 == k;
        } else {
          assert k' in rest;
          var i :| 0 <= i < |tail| && tail[i].0 == k';
          assert pairs[i].0 == k';
        }
      }
    }
  }

  /** The challenge files written while walking `pairs`. */
  function ChallengeFiles(pairs: seq<(string, Entry)>): map<string, string>
    decreases |pairs|
  {
    if pairs == [] then map[]
    else
      var p := Last(pairs);
      ChallengeFiles(pairs[..|pairs| - 1])[ChallengeRecordFile(p.0) := RecordLine(p.1)]
  }

  /** The ready signals sent while walking `pairs`, one per entry, in walk order. */
  function ReadySignals(pairs: seq<(string, Entry)>): (r: seq<Call>)
    ensures |r| == |pairs|
    ensures forall i :: 0 <= i < |pairs| ==> r[i] == SetChallengeReady(pairs[i].1.url)
    decreases |pairs|
  {
    if pairs == [] then []
    else ReadySignals(pairs[..|pairs| - 1]) + [SetChallengeReady(Last(pairs).1.url)]
  }

  /** Each walked entry's file holds its record line. */
  lemma {:induction false} ChallengeFilesAt(pairs: seq<(string, Entry)>, i: nat)
    requires DistinctKeys(pairs) && i < |pairs|
    ensures ChallengeRecordFile(pairs[i].0) in ChallengeFiles(pairs)
    ensures ChallengeFiles(pairs)[ChallengeRecordFile(pairs[i].0)] == RecordLine(pairs[i].1)
    decreases |pairs|
  {
    if i < |pairs| - 1 {
      var init := pairs[..|pairs| - 1];
      assert init[i] == pairs[i];
      ChallengeFilesAt(init, i);
      if ChallengeRecordFile(Last(pairs).0) == ChallengeRecordFile(pairs[i].0) {
        ChallengeRecordFileInjective(Last(pairs).0, pairs[i].0);
      }
    }
  }

  /** Only challenge record files of walked keys are written. */
  lemma {:induction false} ChallengeFilesDomain(pairs: seq<(string, Entry)>, path: string)
    requires path in ChallengeFiles(pairs)
    ensures Area(path) == "./data/ch"
    ensures exists i :: 0 <= i < |pairs| && path == ChallengeRecordFile(pairs[i].0)
    decreases |pairs|
  {
    var init := pairs[..|pairs| - 1];
    Areas(Last(pairs).0);
    if path != ChallengeRecordFile(Last(pairs).0) {
      ChallengeFilesDomain(init, path);
      var i :| 0 <= i < |init| && path == ChallengeRecordFile(init[i].0);
      assert init[i] == pairs[i];
    }
  }

  /**
   * Walking the store writes, for every entry, its record line to the
   * host's `meta.csv` and nothing else; so the files do not depend on the
   * walk order.
   */
  lemma ChallengeFilesOfStore(pairs: seq<(string, Entry)>, m: map<string, Entry>)
    requires IsEnumeration(pairs, m)
    ensures forall k :: k in m ==> ChallengeRecordFile(k) in ChallengeFiles(pairs) &&
                                   ChallengeFiles(pairs)[ChallengeRecordFile(k)] == RecordLine(m[k])
    ensures forall path :: path in ChallengeFiles(pairs) ==> exists k :: k in m && path == ChallengeRecordFile(k)
  {
    forall k | k in m
      ensures ChallengeRecordFile(k) in ChallengeFiles(pairs) &&
              ChallengeFiles(pairs)[ChallengeRecordFile(k)] == RecordLine(m[k])
    {
      var i :| 0 <= i < |pairs| && pairs[i].0 == k;
      ChallengeFilesAt(pairs, i);
    }
    forall path | path in ChallengeFiles(pairs) ensures exists k :: k in m && path == ChallengeRecordFile(k) {
      ChallengeFilesDomain(pairs, path);
    }
  }

  lemma ChallengeFilesOrderIndependent(p1: seq<(string, Entry)>, p2: seq<(string, Entry)>, m: map<string, Entry>)
    requires IsEnumeration(p1, m) && IsEnumeration(p2, m)
    ensures ChallengeFiles(p1) == ChallengeFiles(p2)
  {
    forall path | path in ChallengeFiles(p1) ensures path in ChallengeFiles(p2) && ChallengeFiles(p1)[path] == ChallengeFiles(p2)[path] {
      WalksAgree(p1, p2, m, path);
    }
    forall path | path in ChallengeFiles(p2) ensures path in ChallengeFiles(p1) {
      WalksAgree(p2, p1, m, path);
    }
    assert ChallengeFiles(p1).Keys == ChallengeFiles(p2).Keys;
  }

  /** A file one walk of the store writes, another writes with the same contents. */
  lemma WalksAgree(p1: seq<(string, Entry)>, p2: seq<(string, Entry)>, m: map<string, Entry>, path: string)
    requires IsEnumeration(p1, m) && IsEnumeration(p2, m)
    requires path in ChallengeFiles(p1)
    ensures path in ChallengeFiles(p2) && ChallengeFiles(p1)[path] == ChallengeFiles(p2)[path]
  {
    ChallengeFilesDomain(p1, path);
    var i :| 0 <= i < |p1| && path == ChallengeRecordFile(p1[i].0);
    ChallengeFilesAt(p1, i);
    var j :| 0 <= j < |p2| && p2[j].0 == p1[i].0;
    ChallengeFilesAt(p2, j);
  }

  /** Every stored challenge is signalled ready exactly once. */
  lemma ReadySignalsOfStore(pairs: seq<(string, Entry)>, m: map<string, Entry>, k: string)
    requires IsEnumeration(pairs, m) && k in m
    ensures exists i :: 0 <= i < |pairs| && ReadySignals(pairs)[i] == SetChallengeReady(m[k].url) &&
                        forall j :: 0 <= j < |pairs| && j != i ==> pairs[j].0 != k
  {
    var i :| 0 <= i < |pairs| && pairs[i].0 == k;
    assert ReadySignals(pairs)[i] == SetChallengeReady(m[k].url);
  }

  // ---------------------------------------------------------------- polling

  function Pow2(n: nat): (r: nat)
    ensures r >= 1
  {
    if n == 0 then 1 else 2 * Pow2(n - 1)
  }

  /** The delays slept before the first `n` refreshes. */
  function Backoff(n: nat): (r: seq<nat>)
    ensures |r| == n
  {
    if n == 0 then [] else Backoff(n - 1) + [Pow2(n - 1)]
  }

  /** The delays start at one second and double before every further refresh. */
  lemma {:induction false} BackoffDoubles(n: nat)
    ensures forall i :: 0 <= i < n ==> Backoff(n)[i] == Pow2(i)
    ensures n > 0 ==> Backoff(n)[0] == 1
    ensures forall i :: 0 < i < n ==> Backoff(n)[i] == 2 * Backoff(n)[i - 1]
  {
    if n > 0 {
      BackoffDoubles(n - 1);
      assert forall i :: 0 <= i < n - 1 ==> Backoff(n)[i] == Backoff(n - 1)[i];
    }
  }

  lemma TenDelays()
    ensures Backoff(MaxRetries) == [1, 2, 4, 8, 16, 32, 64, 128, 256, 512]
  {
    BackoffDoubles(MaxRetries);
  }

  function Sum(s: seq<nat>): nat
  {
    if s == [] then 0 else Sum(s[..|s| - 1]) + s[|s| - 1]
  }

  /** Waiting for `n` refreshes takes 2^n - 1 seconds in all (1023 for the full ten). */
  lemma {:induction false} BackoffTotal(n: nat)
    ensures Sum(Backoff(n)) == Pow2(n) - 1
  {
    if n > 0 {
      BackoffTotal(n - 1);
      assert Backoff(n)[..n - 1] == Backoff(n - 1);
    }
  }

  /** Number of refreshes after which the order is Ready, if that happens within `MaxRetries`. */
  function FirstReady(a: Authority, k: nat): (r: Option<nat>)
    ensures r.Some? ==> k <= r.value <= MaxRetries && StatusAfter(a, r.value) == OrderStatus.Ready &&
                        forall j :: k <= j < r.value ==> StatusAfter(a, j) != OrderStatus.Ready
    ensures r.None? ==> forall j :: k <= j <= MaxRetries ==> StatusAfter(a, j) != OrderStatus.Ready
    decreases MaxRetries - k
  {
    if k > MaxRetries then None
    else if StatusAfter(a, k) == OrderStatus.Ready then Some(k)
    else FirstReady(a, k + 1)
  }

  // --------------------------------------------------------------- download

  /** Index of the first download answer that is not "not ready yet", or the count of answers. */
  function FirstDownloadAnswer(ds: seq<Download>): (r: nat)
    ensures r <= |ds|
    ensures forall j :: 0 <= j < r ==> ds[j] == NotReady
    ensures r < |ds| ==> ds[r] != NotReady
    decreases |ds|
  {
    if ds == [] || ds[0] != NotReady then 0 else 1 + FirstDownloadAnswer(ds[1..])
  }

  /** The certificate and key files written for `hosts`. */
  function CertificateFiles(hosts: seq<string>, chain: string, key: string): map<string, string>
    decreases |hosts|
  {
    if hosts == [] then map[]
    else
      var h := Last(hosts);
      CertificateFiles(hosts[..|hosts| - 1], chain, key)[CertFile(h) := chain][KeyFile(h) := key]
  }

  /** Every host of the batch gets the same chain and the same key. */
  lemma {:induction false} CertificateFilesAt(hosts: seq<string>, chain: string, key: string, h: string)
    requires h in hosts
    ensures CertFile(h) in CertificateFiles(hosts, chain, key) && CertificateFiles(hosts, chain, key)[CertFile(h)] == chain
    ensures KeyFile(h) in CertificateFiles(hosts, chain, key) && CertificateFiles(hosts, chain, key)[KeyFile(h)] == key
    decreases |hosts|
  {
    var init := hosts[..|hosts| - 1];
    CertKeyFilesDistinct(h, Last(hosts));
    CertKeyFilesDistinct(Last(hosts), h);
    if h != Last(hosts) {
      assert hosts == init + [Last(hosts)];
      CertificateFilesAt(init, chain, key, h);
    }
  }

  /** Only certificate and key files of batch hosts are written. */
  lemma {:induction false} CertificateFilesDomain(hosts: seq<string>, chain: string, key: string, path: string)
    requires path in CertificateFiles(hosts, chain, key)
    ensures Area(path) == "./data/ce"
    ensures exists h :: h in hosts && (path == CertFile(h) || path == KeyFile(h))
    decreases |hosts|
  {
    var init := hosts[..|hosts| - 1];
    Areas(Last(hosts));
    if path != CertFile(Last(hosts)) && path != KeyFile(Last(hosts)) {
      CertificateFilesDomain(init, chain, key, path);
      var h :| h in init && (path == CertFile(h) || path == KeyFile(h));
      assert h in hosts;
    }
  }

  // ---------------------------------------------------------------- account

  /** The account request: rebuild from the credentials file if it exists, else register. */
  function AccountCall(files: map<string, string>, contact: string): Call
  {
    if CredentialsFile() in files then RestoreAccount(files[CredentialsFile()])
    else RegisterAccount(["mailto:" + contact], true, false, StagingDirectory)
  }

  /** The credentials the account step ends with, `None` if registration is refused. */
  function AccountCredentials(files: map<string, string>, a: Authority): Option<string>
  {
    if CredentialsFile() in files then Some(files[CredentialsFile()]) else a.newAccount
  }

  /** The files after the account step: new credentials are saved. */
  function AfterAccount(files: map<string, string>, a: Authority): map<string, string>
  {
    if CredentialsFile() !in files && a.newAccount.Some? then files[CredentialsFile() := a.newAccount.value]
    else files
  }

  /** What `orders/meta.txt` receives: the order URL as `{:?}` prints it. */
  function OrderReference(url: string): string
  {
    "\"" + url + "\""
  }

  // ------------------------------------------------------------------- run

  /** Why no order came out of `create_challenges_from_order`. */
  datatype OrderError =
    | AccountRejected
    | NoIdentifiers
    | OrderRejected
    | BadAuthorization(error: AuthzError)

  /** Where a run stopped. */
  datatype RunOutcome =
    | AllHostsExcluded
    | NoOrder(reason: OrderError)
    | NoChallenges
    | NeverReady
    | FinalizeRejected
    | DownloadFailed
    | DownloadPending
    | Issued

  /** The end state of a run: its outcome, the files, the delays slept and the requests sent. */
  datatype Run = Run(outcome: RunOutcome, files: map<string, string>, sleeps: seq<nat>, calls: seq<Call>)

  /** Outcomes of runs that published their challenges. */
  predicate Published(o: RunOutcome)
  {
    o in {NeverReady, FinalizeRejected, DownloadFailed, DownloadPending, Issued}
  }

  /** Outcomes of runs that reached finalization. */
  predicate Finalized(o: RunOutcome)
  {
    o in {FinalizeRejected, DownloadFailed, DownloadPending, Issued}
  }

  /**
   * One run of the service, from the files on disk, the configured hosts
   * and contact, the authority's answers, the generated key (as PEM) and
   * `pairs`, the order in which the challenge store is walked.
   */
  function Expected(hosts: seq<string>, contact: string, files: map<string, string>, a: Authority,
                    keyPem: string, pairs: seq<(string, Entry)>): Run
  {
    var excluded := ExcludedHosts(files, hosts);
    if |excluded| == |hosts| then Run(AllHostsExcluded, files, [], [])
    else
      var account := AccountCall(files, contact);
      var afterAccount := AfterAccount(files, a);
      var ids := Remaining(hosts, excluded);
      if AccountCredentials(files, a).None? then Run(NoOrder(AccountRejected), afterAccount, [], [account])
      else if ids == [] then Run(NoOrder(NoIdentifiers), afterAccount, [], [account])
      else if a.orderUrl.None? then Run(NoOrder(OrderRejected), afterAccount, [], [account, NewOrder(ids)])
      else
        var scanned := Scan(map[], a.authorizations);
        var calls := [account, NewOrder(ids), FetchAuthorizations];
        if scanned.error.Some? then Run(NoOrder(BadAuthorization(scanned.error.value)), afterAccount, [], calls)
        else
          var recorded := afterAccount[OrderReferenceFile() := OrderReference(a.orderUrl.value)];
          if scanned.store == map[] then Run(NoChallenges, recorded, [], calls)
          else AfterPublishing(ids, a, keyPem, recorded + ChallengeFiles(pairs), calls + ReadySignals(pairs))
  }

  /** The rest of a run once its challenges are published: polling, finalization, download, writing. */
  function AfterPublishing(ids: seq<string>, a: Authority, keyPem: string,
                           files: map<string, string>, calls: seq<Call>): Run
  {
    match FirstReady(a, 0)
    case None => Run(NeverReady, files, Backoff(MaxRetries), calls + Repeat(Refresh, MaxRetries))
    case Some(n) =>
      var finalizing := calls + Repeat(Refresh, n) + [Finalize(ids)];
      if !a.finalizeOk then Run(FinalizeRejected, files, Backoff(n), finalizing)
      else
        var k := FirstDownloadAnswer(a.downloads);
        var sleeps := Backoff(n) + Repeat(CertificatePollDelay, k);
        if k == |a.downloads| then Run(DownloadPending, files, sleeps, finalizing + Repeat(DownloadCertificate, k))
        else if a.downloads[k].DownloadError? then
          Run(DownloadFailed, files, sleeps, finalizing + Repeat(DownloadCertificate, k + 1))
        else
          Run(Issued, files + CertificateFiles(ids, a.downloads[k].pem, keyPem), sleeps,
              finalizing + Repeat(DownloadCertificate, k + 1))
  }

  // ------------------------------------------------------- run properties

  /**
   * The run stops before any request exactly when every configured host
   * already has a challenge record, and then it changes nothing.
   */
  lemma RunShortCircuit(hosts: seq<string>, contact: string, files: map<string, string>, a: Authority,
                        keyPem: string, pairs: seq<(string, Entry)>)
    ensures Expected(hosts, contact, files, a, keyPem, pairs).outcome == AllHostsExcluded <==>
            forall h :: h in hosts ==> ChallengeRecordFile(h) in files
    ensures Expected(hosts, contact, files, a, keyPem, pairs).outcome == AllHostsExcluded ==>
            Expected(hosts, contact, files, a, keyPem, pairs) == Run(AllHostsExcluded, files, [], [])
  {
    AllExcludedIff(files, hosts);
  }

  /** `create_order`'s refusal of an empty identifier list never ends a run. */
  lemma RunNeverOrdersNothing(hosts: seq<string>, contact: string, files: map<string, string>, a: Authority,
                              keyPem: string, pairs: seq<(string, Entry)>)
    ensures Expected(hosts, contact, files, a, keyPem, pairs).outcome != NoOrder(NoIdentifiers)
  {
    ShortCircuitIffNothingRemains(files, hosts);
  }

  /**
   * What happens after publishing: only refresh, finalize and download
   * requests follow, and only an issued certificate adds files.
   */
  lemma AfterPublishingShape(ids: seq<string>, a: Authority, keyPem: string,
                             files: map<string, string>, calls: seq<Call>)
    ensures var r := AfterPublishing(ids, a, keyPem, files, calls);
      && |calls| <= |r.calls| && r.calls[..|calls|] == calls
      && (forall i :: |calls| <= i < |r.calls| ==>
            r.calls[i] == Refresh || r.calls[i] == Finalize(ids) || r.calls[i] == DownloadCertificate)
      && Published(r.outcome)
      && (r.outcome != Issued ==> r.files == files)
      && (r.outcome == Issued ==>
            var k := FirstDownloadAnswer(a.downloads);
            k < |a.downloads| && a.downloads[k].Chain? &&
            r.files == files + CertificateFiles(ids, a.downloads[k].pem, keyPem))
  {
    AfterPublishingCalls(ids, a, keyPem, files, calls);
    AfterPublishingFiles(ids, a, keyPem, files, calls);
  }

  lemma AfterPublishingCalls(ids: seq<string>, a: Authority, keyPem: string,
                             files: map<string, string>, calls: seq<Call>)
    ensures var r := AfterPublishing(ids, a, keyPem, files, calls);
      && |calls| <= |r.calls| && r.calls[..|calls|] == calls
      && (forall i :: |calls| <= i < |r.calls| ==>
            r.calls[i] == Refresh || r.calls[i] == Finalize(ids) || r.calls[i] == DownloadCertificate)
  {
    var r := AfterPublishing(ids, a, keyPem, files, calls);
    match FirstReady(a, 0)
    case None =>
      assert r.calls == calls + Repeat(Refresh, MaxRetries);
      LaterCalls(calls, Repeat(Refresh, MaxRetries), ids);
    case Some(n) =>
      var finalizing := Repeat(Refresh, n) + [Finalize(ids)];
      assert calls + Repeat(Refresh, n) + [Finalize(ids)] == calls + finalizing;
      if !a.finalizeOk {
        assert r.calls == calls + finalizing;
        LaterCalls(calls, finalizing, ids);
      } else {
        var k := FirstDownloadAnswer(a.downloads);
        var downloads := Repeat(DownloadCertificate, if k == |a.downloads| then k else k + 1);
        assert r.calls == calls + finalizing + downloads;
        assert calls + finalizing + downloads == calls + (finalizing + downloads);
        LaterCalls(calls, finalizing + downloads, ids);
      }
  }

  lemma AfterPublishingFiles(ids: seq<string>, a: Authority, keyPem: string,
                             files: map<string, string>, calls: seq<Call>)
    ensures var r := AfterPublishing(ids, a, keyPem, files, calls);
      && Published(r.outcome)
      && (r.outcome != Issued ==> r.files == files)
      && (r.outcome == Issued ==>
            var k := FirstDownloadAnswer(a.downloads);
            k < |a.downloads| && a.downloads[k].Chain? &&
            r.files == files + CertificateFiles(ids, a.downloads[k].pem, keyPem))
  {
  }

  /** Appending only refresh, finalize and download requests keeps the earlier ones. */
  lemma LaterCalls(calls: seq<Call>, tail: seq<Call>, ids: seq<string>)
    requires forall j :: 0 <= j < |tail| ==> tail[j] == Refresh || tail[j] == Finalize(ids) || tail[j] == DownloadCertificate
    ensures (calls + tail)[..|calls|] == calls
    ensures forall i :: |calls| <= i < |calls + tail| ==>
              (calls + tail)[i] == Refresh || (calls + tail)[i] == Finalize(ids) || (calls + tail)[i] == DownloadCertificate
  {
    assert (calls + tail)[..|calls|] == calls;
  }

  /** Paths outside the challenge, certificate and order areas keep what the account step left. */
  lemma RunFilesFrame(hosts: seq<string>, contact: string, files: map<string, string>, a: Authority,
                      keyPem: string, pairs: seq<(string, Entry)>, p: string)
    requires Expected(hosts, contact, files, a, keyPem, pairs).outcome != AllHostsExcluded
    requires Area(p) != "./data/ch" && Area(p) != "./data/ce" && p != OrderReferenceFile()
    ensures var r := Expected(hosts, contact, files, a, keyPem, pairs);
      (p in r.files <==> p in AfterAccount(files, a)) &&
      (p in r.files ==> r.files[p] == AfterAccount(files, a)[p])
  {
    if Publishes(hosts, files, a) {
      var ids := Remaining(hosts, ExcludedHosts(files, hosts));
      AfterPublishingKeeps(ids, a, keyPem,
                           AfterAccount(files, a)[OrderReferenceFile() := OrderReference(a.orderUrl.value)] + ChallengeFiles(pairs),
                           [AccountCall(files, contact), NewOrder(ids), FetchAuthorizations] + ReadySignals(pairs), p);
      if p in ChallengeFiles(pairs) {
        ChallengeFilesDomain(pairs, p);
      }
    }
  }

  /** No account request in `s`. */
  predicate NoAccountCalls(s: seq<Call>)
  {
    forall i :: 0 <= i < |s| ==> !s[i].RegisterAccount? && !s[i].RestoreAccount?
  }

  /** Publishing and what follows send no account request. */
  lemma AfterPublishingNoAccountCalls(ids: seq<string>, a: Authority, keyPem: string, files: map<string, string>,
                                      account: Call, pairs: seq<(string, Entry)>)
    ensures var calls := [account, NewOrder(ids), FetchAuthorizations] + ReadySignals(pairs);
      var r := AfterPublishing(ids, a, keyPem, files, calls);
      |r.calls| >= 1 && r.calls[0] == account && NoAccountCalls(r.calls[1..])
  {
    var calls := [account, NewOrder(ids), FetchAuthorizations] + ReadySignals(pairs);
    var later := AfterPublishing(ids, a, keyPem, files, calls).calls;
    AfterPublishingCalls(ids, a, keyPem, files, calls);
    assert later[0] == later[..|calls|][0];
    var rest := later[1..];
    forall i | 0 <= i < |rest| ensures !rest[i].RegisterAccount? && !rest[i].RestoreAccount? {
      if i + 1 < |calls| {
        assert rest[i] == later[..|calls|][i + 1] == calls[i + 1];
        if i + 1 >= 3 {
          assert calls[i + 1] == ReadySignals(pairs)[i - 2];
        }
      }
    }
  }

  /** The account request comes first and is the only one. */
  lemma RunAccountCallFirst(hosts: seq<string>, contact: string, files: map<string, string>, a: Authority,
                            keyPem: string, pairs: seq<(string, Entry)>)
    requires Expected(hosts, contact, files, a, keyPem, pairs).outcome != AllHostsExcluded
    ensures var r := Expected(hosts, contact, files, a, keyPem, pairs);
      |r.calls| >= 1 && r.calls[0] == AccountCall(files, contact) && NoAccountCalls(r.calls[1..])
  {
    var ids := Remaining(hosts, ExcludedHosts(files, hosts));
    var scanned := Scan(map[], a.authorizations);
    if AccountCredentials(files, a).Some? && ids != [] && a.orderUrl.Some? && scanned.error.None? && scanned.store != map[] {
      var recorded := AfterAccount(files, a)[OrderReferenceFile() := OrderReference(a.orderUrl.value)];
      AfterPublishingNoAccountCalls(ids, a, keyPem, recorded + ChallengeFiles(pairs), AccountCall(files, contact), pairs);
    }
  }

  /**
   * Account bootstrap: with a credentials file the account is rebuilt from
   * it and never registered; without one, exactly one registration is sent
   * (contact `mailto:<contact>`, terms of service agreed, against the
   * staging directory) and nothing else touches the account.
   */
  lemma RunAccountRequests(hosts: seq<string>, contact: string, files: map<string, string>, a: Authority,
                           keyPem: string, pairs: seq<(string, Entry)>)
    requires Expected(hosts, contact, files, a, keyPem, pairs).outcome != AllHostsExcluded
    ensures var r := Expected(hosts, contact, files, a, keyPem, pairs);
      && |r.calls| >= 1
      && (CredentialsFile() in files ==> r.calls[0] == RestoreAccount(files[CredentialsFile()]))
      && (CredentialsFile() !in files ==>
            r.calls[0] == RegisterAccount(["mailto:" + contact], true, false, StagingDirectory))
      && (forall i :: 1 <= i < |r.calls| ==> !r.calls[i].RegisterAccount? && !r.calls[i].RestoreAccount?)
  {
    RunAccountCallFirst(hosts, contact, files, a, keyPem, pairs);
    var r := Expected(hosts, contact, files, a, keyPem, pairs);
    forall i | 1 <= i < |r.calls| ensures !r.calls[i].RegisterAccount? && !r.calls[i].RestoreAccount? {
      assert r.calls[i] == r.calls[1..][i - 1];
    }
  }

  /**
   * The credentials file: an existing one is left as it is; otherwise the
   * credentials the authority returns are saved, and a refused registration
   * ends the run with no file.
   */
  lemma RunAccountFiles(hosts: seq<string>, contact: string, files: map<string, string>, a: Authority,
                        keyPem: string, pairs: seq<(string, Entry)>)
    requires Expected(hosts, contact, files, a, keyPem, pairs).outcome != AllHostsExcluded
    ensures var r := Expected(hosts, contact, files, a, keyPem, pairs);
      && (CredentialsFile() in files ==>
            CredentialsFile() in r.files && r.files[CredentialsFile()] == files[CredentialsFile()])
      && (CredentialsFile() !in files && a.newAccount.Some? ==>
            CredentialsFile() in r.files && r.files[CredentialsFile()] == a.newAccount.value)
      && (CredentialsFile() !in files && a.newAccount.None? ==>
            r.outcome == NoOrder(AccountRejected) && CredentialsFile() !in r.files)
  {
    Areas("");
    RunFilesFrame(hosts, contact, files, a, keyPem, pairs, CredentialsFile());
  }

  /**
   * No certificate or key file is created or changed unless the run
   * issues a certificate.
   */
  lemma RunNoCertificateUnlessIssued(hosts: seq<string>, contact: string, files: map<string, string>, a: Authority,
                                     keyPem: string, pairs: seq<(string, Entry)>, h: string)
    requires Expected(hosts, contact, files, a, keyPem, pairs).outcome != Issued
    ensures var r := Expected(hosts, contact, files, a, keyPem, pairs);
      && (CertFile(h) in r.files <==> CertFile(h) in files)
      && (CertFile(h) in files ==> r.files[CertFile(h)] == files[CertFile(h)])
      && (KeyFile(h) in r.files <==> KeyFile(h) in files)
      && (KeyFile(h) in files ==> r.files[KeyFile(h)] == files[KeyFile(h)])
  {
    Areas(h);
    RunKeepsCertificateArea(hosts, contact, files, a, keyPem, pairs, CertFile(h));
    RunKeepsCertificateArea(hosts, contact, files, a, keyPem, pairs, KeyFile(h));
  }

  /** Without an issued certificate, a run leaves the certificate area as it found it. */
  lemma RunKeepsCertificateArea(hosts: seq<string>, contact: string, files: map<string, string>, a: Authority,
                                keyPem: string, pairs: seq<(string, Entry)>, p: string)
    requires Expected(hosts, contact, files, a, keyPem, pairs).outcome != Issued
    requires Area(p) == "./data/ce"
    ensures var r := Expected(hosts, contact, files, a, keyPem, pairs);
      (p in r.files <==> p in files) && (p in files ==> r.files[p] == files[p])
  {
    Areas("");
    var r := Expected(hosts, contact, files, a, keyPem, pairs);
    assert p != CredentialsFile() && p != OrderReferenceFile();
    if Publishes(hosts, files, a) {
      if p in ChallengeFiles(pairs) {
        ChallengeFilesDomain(pairs, p);
      }
      var ids := Remaining(hosts, ExcludedHosts(files, hosts));
      var recorded := AfterAccount(files, a)[OrderReferenceFile() := OrderReference(a.orderUrl.value)];
      var calls := [AccountCall(files, contact), NewOrder(ids), FetchAuthorizations] + ReadySignals(pairs);
      AfterPublishingFiles(ids, a, keyPem, recorded + ChallengeFiles(pairs), calls);
      assert r.files == recorded + ChallengeFiles(pairs);
    } else {
      assert r.files == files || r.files == AfterAccount(files, a) ||
             (a.orderUrl.Some? && r.files == AfterAccount(files, a)[OrderReferenceFile() := OrderReference(a.orderUrl.value)]);
    }
  }

  /** How often `c` occurs in `s`. */
  function Count(s: seq<Call>, c: Call): nat
    decreases |s|
  {
    if s == [] then 0 else Count(s[..|s| - 1], c) + (if Last(s) == c then 1 else 0)
  }

  lemma {:induction false} CountAppend(s: seq<Call>, t: seq<Call>, c: Call)
    ensures Count(s + t, c) == Count(s, c) + Count(t, c)
    decreases |t|
  {
    if t == [] {
      assert s + t == s;
    } else {
      assert (s + t)[..|s + t| - 1] == s + t[..|t| - 1];
      CountAppend(s, t[..|t| - 1], c);
    }
  }

  lemma {:induction false} CountRepeat(x: Call, n: nat, c: Call)
    ensures Count(Repeat(x, n), c) == if x == c then n else 0
  {
    if n > 0 {
      assert Repeat(x, n)[..n - 1] == Repeat(x, n - 1);
      CountRepeat(x, n - 1, c);
    }
  }

  lemma {:induction false} CountAbsent(s: seq<Call>, c: Call)
    requires c !in s
    ensures Count(s, c) == 0
    decreases |s|
  {
    if s != [] {
      CountAbsent(s[..|s| - 1], c);
    }
  }

  /** A run that published its challenges got through every earlier stage. */
  lemma RunPublishedShape(hosts: seq<string>, contact: string, files: map<string, string>, a: Authority,
                          keyPem: string, pairs: seq<(string, Entry)>)
    requires Published(Expected(hosts, contact, files, a, keyPem, pairs).outcome)
    ensures var ids := Remaining(hosts, ExcludedHosts(files, hosts));
      var scanned := Scan(map[], a.authorizations);
      && |ExcludedHosts(files, hosts)| != |hosts| && AccountCredentials(files, a).Some?
      && ids != [] && a.orderUrl.Some? && scanned.error.None? && scanned.store != map[]
      && Expected(hosts, contact, files, a, keyPem, pairs) ==
         AfterPublishing(ids, a, keyPem,
                         AfterAccount(files, a)[OrderReferenceFile() := OrderReference(a.orderUrl.value)] + ChallengeFiles(pairs),
                         [AccountCall(files, contact), NewOrder(ids), FetchAuthorizations] + ReadySignals(pairs))
  {
  }

  /**
   * The order names exactly the configured hosts without a challenge
   * record, in configured order, and is never empty.
   */
  lemma RunOrder(hosts: seq<string>, contact: string, files: map<string, string>, a: Authority,
                 keyPem: string, pairs: seq<(string, Entry)>)
    requires Expected(hosts, contact, files, a, keyPem, pairs).outcome != AllHostsExcluded
    requires Expected(hosts, contact, files, a, keyPem, pairs).outcome != NoOrder(AccountRejected)
    ensures var r := Expected(hosts, contact, files, a, keyPem, pairs);
      && |r.calls| >= 2
      && r.calls[1] == NewOrder(Remaining(hosts, ExcludedHosts(files, hosts)))
      && r.calls[1].identifiers != []
      && (forall h :: h in r.calls[1].identifiers <==> h in hosts && ChallengeRecordFile(h) !in files)
  {
    var r := Expected(hosts, contact, files, a, keyPem, pairs);
    var excluded := ExcludedHosts(files, hosts);
    var ids := Remaining(hosts, excluded);
    ShortCircuitIffNothingRemains(files, hosts);
    assert |excluded| != |hosts|;
    var scanned := Scan(map[], a.authorizations);
    if a.orderUrl.None? || scanned.error.Some? || scanned.store == map[] {
      assert r.calls[1] == NewOrder(ids);
    } else {
      AfterPublishingOrderCalls(ids, a, keyPem,
                                AfterAccount(files, a)[OrderReferenceFile() := OrderReference(a.orderUrl.value)] + ChallengeFiles(pairs),
                                AccountCall(files, contact), pairs);
    }
  }

  /** Polling, finalizing and downloading never place a second order. */
  lemma AfterPublishingNoOrder(ids: seq<string>, a: Authority, keyPem: string,
                               files: map<string, string>, calls: seq<Call>)
    requires forall i :: 0 <= i < |calls| ==> calls[i].NewOrder? ==> i == 1
    ensures var r := AfterPublishing(ids, a, keyPem, files, calls);
      forall i :: 0 <= i < |r.calls| && r.calls[i].NewOrder? ==> i == 1
  {
    var r := AfterPublishing(ids, a, keyPem, files, calls);
    AfterPublishingCalls(ids, a, keyPem, files, calls);
    forall i | 0 <= i < |r.calls| && r.calls[i].NewOrder? ensures i == 1 {
      if i < |calls| {
        assert r.calls[i] == r.calls[..|calls|][i] == calls[i];
      }
    }
  }

  /** A run places at most one order: only its second request can be one. */
  lemma RunSingleOrder(hosts: seq<string>, contact: string, files: map<string, string>, a: Authority,
                       keyPem: string, pairs: seq<(string, Entry)>)
    ensures var r := Expected(hosts, contact, files, a, keyPem, pairs);
      forall i :: 0 <= i < |r.calls| && r.calls[i].NewOrder? ==> i == 1
  {
    var r := Expected(hosts, contact, files, a, keyPem, pairs);
    if Published(r.outcome) {
      PublishedSingleOrder(hosts, contact, files, a, keyPem, pairs);
    } else {
      var ids := Remaining(hosts, ExcludedHosts(files, hosts));
      var calls := [AccountCall(files, contact), NewOrder(ids), FetchAuthorizations];
      assert r.calls == calls[..|r.calls|];
    }
  }

  /**
   * The log of a published run: its second request is the order, and no
   * other request is one.
   */
  lemma AfterPublishingOrderCalls(ids: seq<string>, a: Authority, keyPem: string, files: map<string, string>,
                                  account: Call, pairs: seq<(string, Entry)>)
    requires !account.NewOrder?
    ensures var r := AfterPublishing(ids, a, keyPem, files, [account, NewOrder(ids), FetchAuthorizations] + ReadySignals(pairs));
      && |r.calls| >= 2 && r.calls[1] == NewOrder(ids)
      && forall i :: 0 <= i < |r.calls| && r.calls[i].NewOrder? ==> i == 1
  {
    var calls := [account, NewOrder(ids), FetchAuthorizations] + ReadySignals(pairs);
    forall i | 3 <= i < |calls| ensures calls[i].SetChallengeReady? {
      assert calls[i] == ReadySignals(pairs)[i - 3];
    }
    AfterPublishingNoOrder(ids, a, keyPem, files, calls);
    AfterPublishingCalls(ids, a, keyPem, files, calls);
    var r := AfterPublishing(ids, a, keyPem, files, calls);
    assert r.calls[1] == r.calls[..|calls|][1];
  }

  lemma PublishedSingleOrder(hosts: seq<string>, contact: string, files: map<string, string>, a: Authority,
                             keyPem: string, pairs: seq<(string, Entry)>)
    requires Published(Expected(hosts, contact, files, a, keyPem, pairs).outcome)
    ensures var r := Expected(hosts, contact, files, a, keyPem, pairs);
      forall i :: 0 <= i < |r.calls| && r.calls[i].NewOrder? ==> i == 1
  {
    RunPublishedShape(hosts, contact, files, a, keyPem, pairs);
    AfterPublishingOrderCalls(Remaining(hosts, ExcludedHosts(files, hosts)), a, keyPem,
                              AfterAccount(files, a)[OrderReferenceFile() := OrderReference(a.orderUrl.value)] + ChallengeFiles(pairs),
                              AccountCall(files, contact), pairs);
  }

  /** Polling, finalizing and downloading write nothing outside the certificate area. */
  lemma AfterPublishingKeeps(ids: seq<string>, a: Authority, keyPem: string,
                             files: map<string, string>, calls: seq<Call>, p: string)
    requires Area(p) != "./data/ce"
    ensures var r := AfterPublishing(ids, a, keyPem, files, calls);
      (p in r.files <==> p in files) && (p in files ==> r.files[p] == files[p])
  {
    AfterPublishingFiles(ids, a, keyPem, files, calls);
    var k := FirstDownloadAnswer(a.downloads);
    if k < |a.downloads| && a.downloads[k].Chain? && p in CertificateFiles(ids, a.downloads[k].pem, keyPem) {
      CertificateFilesDomain(ids, a.downloads[k].pem, keyPem, p);
    }
  }

  /** The files a published run holds outside the certificate area. */
  lemma RunPublishedFiles(hosts: seq<string>, contact: string, files: map<string, string>, a: Authority,
                          keyPem: string, pairs: seq<(string, Entry)>, p: string)
    requires Published(Expected(hosts, contact, files, a, keyPem, pairs).outcome)
    requires Area(p) != "./data/ce"
    ensures a.orderUrl.Some?
    ensures var r := Expected(hosts, contact, files, a, keyPem, pairs);
      var before := AfterAccount(files, a)[OrderReferenceFile() := OrderReference(a.orderUrl.value)] + ChallengeFiles(pairs);
      (p in r.files <==> p in before) && (p in before ==> r.files[p] == before[p])
  {
    RunPublishedShape(hosts, contact, files, a, keyPem, pairs);
    var ids := Remaining(hosts, ExcludedHosts(files, hosts));
    var calls := [AccountCall(files, contact), NewOrder(ids), FetchAuthorizations] + ReadySignals(pairs);
    var before := AfterAccount(files, a)[OrderReferenceFile() := OrderReference(a.orderUrl.value)] + ChallengeFiles(pairs);
    AfterPublishingKeeps(ids, a, keyPem, before, calls, p);
  }

  /** A published run left the order URL, `{:?}`-quoted, in `orders/meta.txt`. */
  lemma RunOrderReference(hosts: seq<string>, contact: string, files: map<string, string>, a: Authority,
                          keyPem: string, pairs: seq<(string, Entry)>)
    requires Published(Expected(hosts, contact, files, a, keyPem, pairs).outcome)
    ensures var r := Expected(hosts, contact, files, a, keyPem, pairs);
      && a.orderUrl.Some?
      && OrderReferenceFile() in r.files && r.files[OrderReferenceFile()] == OrderReference(a.orderUrl.value)
  {
    Areas("");
    RunPublishedFiles(hosts, contact, files, a, keyPem, pairs, OrderReferenceFile());
    if OrderReferenceFile() in ChallengeFiles(pairs) {
      ChallengeFilesDomain(pairs, OrderReferenceFile());
    }
  }

  /**
   * A published run got a clean authorization scan with at least one
   * stored challenge, and wrote each stored challenge's `url;key_auth;token`
   * record to its host's `meta.csv`.
   */
  lemma RunChallengeRecords(hosts: seq<string>, contact: string, files: map<string, string>, a: Authority,
                            keyPem: string, pairs: seq<(string, Entry)>)
    requires IsEnumeration(pairs, Scan(map[], a.authorizations).store)
    requires Published(Expected(hosts, contact, files, a, keyPem, pairs).outcome)
    ensures var r := Expected(hosts, contact, files, a, keyPem, pairs);
      var scanned := Scan(map[], a.authorizations);
      && scanned.error.None? && scanned.store != map[]
      && forall k :: k in scanned.store ==>
           ChallengeRecordFile(k) in r.files && r.files[ChallengeRecordFile(k)] == RecordLine(scanned.store[k])
  {
    RunPublishedShape(hosts, contact, files, a, keyPem, pairs);
    var store := Scan(map[], a.authorizations).store;
    ChallengeFilesOfStore(pairs, store);
    forall k | k in store
      ensures var r := Expected(hosts, contact, files, a, keyPem, pairs);
        ChallengeRecordFile(k) in r.files && r.files[ChallengeRecordFile(k)] == RecordLine(store[k])
    {
      Areas(k);
      RunPublishedFiles(hosts, contact, files, a, keyPem, pairs, ChallengeRecordFile(k));
    }
  }

  /** Every entry of the walked store keeps its ready signal in the log after publishing. */
  lemma AfterPublishingSignals(ids: seq<string>, a: Authority, keyPem: string, files: map<string, string>,
                               account: Call, pairs: seq<(string, Entry)>, store: map<string, Entry>)
    requires IsEnumeration(pairs, store)
    ensures var r := AfterPublishing(ids, a, keyPem, files, [account, NewOrder(ids), FetchAuthorizations] + ReadySignals(pairs));
      forall k :: k in store ==> SetChallengeReady(store[k].url) in r.calls
  {
    var calls := [account, NewOrder(ids), FetchAuthorizations] + ReadySignals(pairs);
    var later := AfterPublishing(ids, a, keyPem, files, calls).calls;
    AfterPublishingCalls(ids, a, keyPem, files, calls);
    forall k | k in store ensures SetChallengeReady(store[k].url) in later {
      ReadySignalsOfStore(pairs, store, k);
      var i :| 0 <= i < |pairs| && ReadySignals(pairs)[i] == SetChallengeReady(store[k].url);
      assert later[3 + i] == later[..|calls|][3 + i] == calls[3 + i];
    }
  }

  /** A published run signalled every stored challenge ready. */
  lemma RunReadySignals(hosts: seq<string>, contact: string, files: map<string, string>, a: Authority,
                        keyPem: string, pairs: seq<(string, Entry)>)
    requires IsEnumeration(pairs, Scan(map[], a.authorizations).store)
    requires Published(Expected(hosts, contact, files, a, keyPem, pairs).outcome)
    ensures var r := Expected(hosts, contact, files, a, keyPem, pairs);
      var store := Scan(map[], a.authorizations).store;
      forall k :: k in store ==> SetChallengeReady(store[k].url) in r.calls
  {
    RunPublishedShape(hosts, contact, files, a, keyPem, pairs);
    AfterPublishingSignals(Remaining(hosts, ExcludedHosts(files, hosts)), a, keyPem,
                           AfterAccount(files, a)[OrderReferenceFile() := OrderReference(a.orderUrl.value)] + ChallengeFiles(pairs),
                           AccountCall(files, contact), pairs, Scan(map[], a.authorizations).store);
  }

  /**
   * Per authorization: a Valid authorization (its identifier not repeated
   * by a later Valid one) gets its first HTTP-01 challenge written to its
   * host's `meta.csv` and signalled ready; the record reads back as that
   * challenge when its fields hold no `;`.
   */
  lemma RunRecordOfAuthorization(hosts: seq<string>, contact: string, files: map<string, string>, a: Authority,
                                 keyPem: string, pairs: seq<(string, Entry)>, i: nat)
    requires IsEnumeration(pairs, Scan(map[], a.authorizations).store)
    requires Published(Expected(hosts, contact, files, a, keyPem, pairs).outcome)
    requires i < |a.authorizations| && a.authorizations[i].status == AuthorizationStatus.Valid
    requires forall j :: i < j < |a.authorizations| && a.authorizations[j].status == AuthorizationStatus.Valid ==>
               a.authorizations[j].identifier != a.authorizations[i].identifier
    ensures var r := Expected(hosts, contact, files, a, keyPem, pairs);
      var host := a.authorizations[i].identifier;
      && FirstHttp01(a.authorizations[i].challenges).Some?
      && ChallengeRecordFile(host) in r.files
      && r.files[ChallengeRecordFile(host)] == RecordLine(EntryFor(a.authorizations[i]))
      && SetChallengeReady(EntryFor(a.authorizations[i]).url) in r.calls
      && (var e := EntryFor(a.authorizations[i]);
          ';' !in e.url && ';' !in e.keyAuthorization && ';' !in e.token ==>
            ParseRecordLine(r.files[ChallengeRecordFile(host)]) == Some(e))
  {
    RunChallengeRecords(hosts, contact, files, a, keyPem, pairs);
    ScanEntry(map[], a.authorizations, i);
    RunReadySignals(hosts, contact, files, a, keyPem, pairs);
    var e := EntryFor(a.authorizations[i]);
    if ';' !in e.url && ';' !in e.keyAuthorization && ';' !in e.token {
      RecordRoundTrip(e);
    }
  }

  /**
   * A run whose store stays empty writes the order reference and then
   * stops: no challenge record, no ready signal, no wait.
   */
  lemma RunNoChallenges(hosts: seq<string>, contact: string, files: map<string, string>, a: Authority,
                        keyPem: string, pairs: seq<(string, Entry)>, h: string)
    requires Expected(hosts, contact, files, a, keyPem, pairs).outcome == NoChallenges
    ensures var r := Expected(hosts, contact, files, a, keyPem, pairs);
      && Scan(map[], a.authorizations) == Scanned(map[], None)
      && a.orderUrl.Some?
      && r.files == AfterAccount(files, a)[OrderReferenceFile() := OrderReference(a.orderUrl.value)]
      && (ChallengeRecordFile(h) in r.files <==> ChallengeRecordFile(h) in files)
      && (ChallengeRecordFile(h) in files ==> r.files[ChallengeRecordFile(h)] == files[ChallengeRecordFile(h)])
      && r.sleeps == []
      && (forall i :: 0 <= i < |r.calls| ==> !r.calls[i].SetChallengeReady? && !r.calls[i].Finalize?)
  {
    Areas(h);
  }

  /**
   * A run that gets no order (refused account, refused order, or a bad
   * authorization) publishes nothing: it keeps the files as the account
   * step left them, sleeps nothing and sends no ready signal, refresh or
   * finalize request.
   */
  lemma RunNoOrder(hosts: seq<string>, contact: string, files: map<string, string>, a: Authority,
                   keyPem: string, pairs: seq<(string, Entry)>)
    requires Expected(hosts, contact, files, a, keyPem, pairs).outcome.NoOrder?
    ensures var r := Expected(hosts, contact, files, a, keyPem, pairs);
      && r.files == AfterAccount(files, a)
      && r.sleeps == []
      && forall i :: 0 <= i < |r.calls| ==>
           !r.calls[i].SetChallengeReady? && !r.calls[i].Refresh? && !r.calls[i].Finalize?
  {
    if Publishes(hosts, files, a) {
      var ids := Remaining(hosts, ExcludedHosts(files, hosts));
      AfterPublishingFiles(ids, a, keyPem,
                           AfterAccount(files, a)[OrderReferenceFile() := OrderReference(a.orderUrl.value)] + ChallengeFiles(pairs),
                           [AccountCall(files, contact), NewOrder(ids), FetchAuthorizations] + ReadySignals(pairs));
      assert false;
    }
  }

  /**
   * The literal status branch: an order whose authorizations are all
   * Pending, as a newly created order's are, ends with no challenge.
   */
  lemma RunPendingOrder(hosts: seq<string>, contact: string, files: map<string, string>, a: Authority,
                        keyPem: string, pairs: seq<(string, Entry)>)
    requires forall i :: 0 <= i < |a.authorizations| ==> a.authorizations[i].status == AuthorizationStatus.Pending
    requires exists h :: h in hosts && ChallengeRecordFile(h) !in files
    requires AccountCredentials(files, a).Some? && a.orderUrl.Some?
    ensures Expected(hosts, contact, files, a, keyPem, pairs).outcome == NoChallenges
  {
    AllExcludedIff(files, hosts);
    ShortCircuitIffNothingRemains(files, hosts);
    AllPendingYieldsNothing(map[], a.authorizations);
  }

  /** Ten refreshes that never see Ready: the backoff delays, then no finalization. */
  lemma AfterPublishingNeverReady(ids: seq<string>, a: Authority, keyPem: string,
                                  files: map<string, string>, calls: seq<Call>)
    requires Refresh !in calls
    requires forall i :: 0 <= i < |calls| ==> !calls[i].Finalize?
    requires FirstReady(a, 0).None?
    ensures var r := AfterPublishing(ids, a, keyPem, files, calls);
      && r.outcome == NeverReady
      && r.sleeps == [1, 2, 4, 8, 16, 32, 64, 128, 256, 512]
      && Count(r.calls, Refresh) == MaxRetries
      && forall i :: 0 <= i < |r.calls| ==> !r.calls[i].Finalize?
  {
    var r := AfterPublishing(ids, a, keyPem, files, calls);
    TenDelays();
    CountAbsent(calls, Refresh);
    CountAppend(calls, Repeat(Refresh, MaxRetries), Refresh);
    CountRepeat(Refresh, MaxRetries, Refresh);
    forall i | 0 <= i < |r.calls| ensures !r.calls[i].Finalize? {
      if i >= |calls| {
        assert r.calls[i] == Repeat(Refresh, MaxRetries)[i - |calls|];
      }
    }
  }

  /** Refreshes counted over the calls of a finalized run. */
  lemma {:induction false} CountFinalizedRefreshes(calls: seq<Call>, n: nat, ids: seq<string>, m: nat)
    requires Refresh !in calls
    ensures Count(calls + Repeat(Refresh, n) + ([Finalize(ids)] + Repeat(DownloadCertificate, m)), Refresh) == n
  {
    var refreshes := Repeat(Refresh, n);
    var rest := [Finalize(ids)] + Repeat(DownloadCertificate, m);
    CountAbsent(calls, Refresh);
    CountAppend(calls + refreshes, rest, Refresh);
    CountAppend(calls, refreshes, Refresh);
    CountRepeat(Refresh, n, Refresh);
    assert Refresh !in rest;
    CountAbsent(rest, Refresh);
  }

  /** The sleeps of a finalized run: `n` backoff delays, then only 5-second waits. */
  lemma FinalizedSleeps(n: nat, w: nat)
    ensures var sleeps := Backoff(n) + Repeat(CertificatePollDelay, w);
      |sleeps| >= n && sleeps[..n] == Backoff(n) &&
      forall i :: n <= i < |sleeps| ==> sleeps[i] == CertificatePollDelay
  {
    var sleeps := Backoff(n) + Repeat(CertificatePollDelay, w);
    assert sleeps[..n] == Backoff(n);
  }

  /** An order Ready after `n` refreshes: `n` backoff delays, then only 5-second waits. */
  lemma AfterPublishingReady(ids: seq<string>, a: Authority, keyPem: string,
                             files: map<string, string>, calls: seq<Call>)
    requires Refresh !in calls
    requires FirstReady(a, 0).Some?
    ensures var r := AfterPublishing(ids, a, keyPem, files, calls);
      var n := FirstReady(a, 0).value;
      && Finalized(r.outcome)
      && Count(r.calls, Refresh) == n
      && |r.sleeps| >= n && r.sleeps[..n] == Backoff(n)
      && (forall i :: n <= i < |r.sleeps| ==> r.sleeps[i] == CertificatePollDelay)
  {
    var r := AfterPublishing(ids, a, keyPem, files, calls);
    var n := FirstReady(a, 0).value;
    var k := FirstDownloadAnswer(a.downloads);
    var downloads := if !a.finalizeOk then 0 else if k == |a.downloads| then k else k + 1;
    var waits := if !a.finalizeOk then 0 else k;
    assert r.calls == calls + Repeat(Refresh, n) + ([Finalize(ids)] + Repeat(DownloadCertificate, downloads));
    assert r.sleeps == Backoff(n) + Repeat(CertificatePollDelay, waits);
    CountFinalizedRefreshes(calls, n, ids, downloads);
    FinalizedSleeps(n, waits);
  }

  /** The calls a published run made before polling: no refresh, no finalization. */
  lemma PublishingCalls(hosts: seq<string>, contact: string, files: map<string, string>,
                        pairs: seq<(string, Entry)>)
    ensures var ids := Remaining(hosts, ExcludedHosts(files, hosts));
      var calls := [AccountCall(files, contact), NewOrder(ids), FetchAuthorizations] + ReadySignals(pairs);
      Refresh !in calls && forall i :: 0 <= i < |calls| ==> !calls[i].Finalize?
  {
  }

  /**
   * Readiness polling: at most ten refreshes, with the delays 1, 2, 4, ...
   * seconds before them, and only 5-second waits once finalized; after ten
   * refreshes that never saw Ready the run stops without finalizing.
   */
  lemma RunPolling(hosts: seq<string>, contact: string, files: map<string, string>, a: Authority,
                   keyPem: string, pairs: seq<(string, Entry)>)
    requires Published(Expected(hosts, contact, files, a, keyPem, pairs).outcome)
    ensures var r := Expected(hosts, contact, files, a, keyPem, pairs);
      && Count(r.calls, Refresh) <= MaxRetries
      && (r.outcome == NeverReady ==>
            && r.sleeps == [1, 2, 4, 8, 16, 32, 64, 128, 256, 512]
            && Count(r.calls, Refresh) == MaxRetries
            && (forall j :: 0 <= j <= MaxRetries ==> StatusAfter(a, j) != OrderStatus.Ready)
            && forall i :: 0 <= i < |r.calls| ==> !r.calls[i].Finalize?)
      && (Finalized(r.outcome) ==>
            && FirstReady(a, 0).Some?
            && var n := FirstReady(a, 0).value;
            && StatusAfter(a, n) == OrderStatus.Ready
            && (forall j :: 0 <= j < n ==> StatusAfter(a, j) != OrderStatus.Ready)
            && Count(r.calls, Refresh) == n
            && |r.sleeps| >= n && r.sleeps[..n] == Backoff(n)
            && (forall i :: n <= i < |r.sleeps| ==> r.sleeps[i] == CertificatePollDelay))
  {
    RunPublishedShape(hosts, contact, files, a, keyPem, pairs);
    var ids := Remaining(hosts, ExcludedHosts(files, hosts));
    PublishingCalls(hosts, contact, files, pairs);
    AfterPublishingPolling(ids, a, keyPem,
                           AfterAccount(files, a)[OrderReferenceFile() := OrderReference(a.orderUrl.value)] + ChallengeFiles(pairs),
                           [AccountCall(files, contact), NewOrder(ids), FetchAuthorizations] + ReadySignals(pairs));
  }

  /** Polling after publishing, for a log with no refresh and no finalization yet. */
  lemma AfterPublishingPolling(ids: seq<string>, a: Authority, keyPem: string,
                               files: map<string, string>, calls: seq<Call>)
    requires Refresh !in calls
    requires forall i :: 0 <= i < |calls| ==> !calls[i].Finalize?
    ensures var r := AfterPublishing(ids, a, keyPem, files, calls);
      && Count(r.calls, Refresh) <= MaxRetries
      && (r.outcome == NeverReady ==>
            && r.sleeps == [1, 2, 4, 8, 16, 32, 64, 128, 256, 512]
            && Count(r.calls, Refresh) == MaxRetries
            && (forall j :: 0 <= j <= MaxRetries ==> StatusAfter(a, j) != OrderStatus.Ready)
            && forall i :: 0 <= i < |r.calls| ==> !r.calls[i].Finalize?)
      && (Finalized(r.outcome) ==>
            && FirstReady(a, 0).Some?
            && var n := FirstReady(a, 0).value;
            && StatusAfter(a, n) == OrderStatus.Ready
            && (forall j :: 0 <= j < n ==> StatusAfter(a, j) != OrderStatus.Ready)
            && Count(r.calls, Refresh) == n
            && |r.sleeps| >= n && r.sleeps[..n] == Backoff(n)
            && (forall i :: n <= i < |r.sleeps| ==> r.sleeps[i] == CertificatePollDelay))
  {
    if FirstReady(a, 0).None? {
      AfterPublishingNeverReady(ids, a, keyPem, files, calls);
    } else {
      AfterPublishingReady(ids, a, keyPem, files, calls);
    }
  }

  /** The first answer that is not "not ready yet" is a chain: the certificate is issued. */
  predicate IssuedAt(ds: seq<Download>, k: nat)
  {
    k < |ds| && ds[k].Chain? && forall j :: 0 <= j < k ==> ds[j] == NotReady
  }

  /**
   * Once finalized, the run is rejected exactly when finalization is; an
   * accepted finalization polls the download until the first real answer,
   * waiting five seconds before each retry, and the outcome is that answer.
   */
  lemma AfterPublishingFinalize(ids: seq<string>, a: Authority, keyPem: string,
                                files: map<string, string>, calls: seq<Call>)
    requires FirstReady(a, 0).Some?
    requires DownloadCertificate !in calls
    ensures var r := AfterPublishing(ids, a, keyPem, files, calls);
      var n := FirstReady(a, 0).value;
      && Finalize(ids) in r.calls
      && (r.outcome == FinalizeRejected <==> !a.finalizeOk)
      && (!a.finalizeOk ==> DownloadCertificate !in r.calls && r.sleeps == Backoff(n))
      && (r.outcome == DownloadPending <==> a.finalizeOk && forall j :: 0 <= j < |a.downloads| ==> a.downloads[j] == NotReady)
      && (r.outcome == Issued <==> a.finalizeOk && exists k :: IssuedAt(a.downloads, k))
      && (r.outcome == DownloadFailed <==>
            a.finalizeOk && exists k :: 0 <= k < |a.downloads| && a.downloads[k] == DownloadError &&
                                        forall j :: 0 <= j < k ==> a.downloads[j] == NotReady)
      && (a.finalizeOk ==> |r.sleeps| == n + FirstDownloadAnswer(a.downloads))
  {
    var r := AfterPublishing(ids, a, keyPem, files, calls);
    var n := FirstReady(a, 0).value;
    var k := FirstDownloadAnswer(a.downloads);
    var finalizing := calls + Repeat(Refresh, n) + [Finalize(ids)];
    assert finalizing[|finalizing| - 1] == Finalize(ids);
    assert r.calls[..|finalizing|] == finalizing;
    assert Finalize(ids) in r.calls by {
      assert r.calls[|finalizing| - 1] == Finalize(ids);
    }
    if !a.finalizeOk {
      assert DownloadCertificate !in Repeat(Refresh, n);
    }
    forall k' | IssuedAt(a.downloads, k') ensures k' == k {
    }
    forall k' | 0 <= k' < |a.downloads| && a.downloads[k'] == DownloadError &&
                forall j :: 0 <= j < k' ==> a.downloads[j] == NotReady
      ensures k' == k
    {
    }
    if a.finalizeOk && k < |a.downloads| && a.downloads[k].Chain? {
      assert IssuedAt(a.downloads, k);
    }
  }

  /** A published run that reached finalization asked for exactly the names it ordered. */
  lemma RunFinalize(hosts: seq<string>, contact: string, files: map<string, string>, a: Authority,
                    keyPem: string, pairs: seq<(string, Entry)>)
    requires Finalized(Expected(hosts, contact, files, a, keyPem, pairs).outcome)
    ensures var r := Expected(hosts, contact, files, a, keyPem, pairs);
      && |r.calls| >= 2 && r.calls[1].NewOrder?
      && Finalize(r.calls[1].identifiers) in r.calls
      && (r.outcome == FinalizeRejected <==> !a.finalizeOk)
      && (!a.finalizeOk ==> DownloadCertificate !in r.calls)
      && (r.outcome == DownloadPending <==> a.finalizeOk && forall j :: 0 <= j < |a.downloads| ==> a.downloads[j] == NotReady)
      && (r.outcome == Issued <==> a.finalizeOk && exists k :: IssuedAt(a.downloads, k))
  {
    RunPublishedShape(hosts, contact, files, a, keyPem, pairs);
    var r := Expected(hosts, contact, files, a, keyPem, pairs);
    var ids := Remaining(hosts, ExcludedHosts(files, hosts));
    var calls := [AccountCall(files, contact), NewOrder(ids), FetchAuthorizations] + ReadySignals(pairs);
    var before := AfterAccount(files, a)[OrderReferenceFile() := OrderReference(a.orderUrl.value)] + ChallengeFiles(pairs);
    AfterPublishingShape(ids, a, keyPem, before, calls);
    assert FirstReady(a, 0).Some?;
    assert DownloadCertificate !in calls;
    AfterPublishingFinalize(ids, a, keyPem, before, calls);
    assert r.calls[1] == calls[1];
  }

  /**
   * An issued certificate is written, with the one generated key, for
   * every configured host that had no challenge record, and for no other
   * host whose files were not already there.
   */
  lemma RunIssued(hosts: seq<string>, contact: string, files: map<string, string>, a: Authority,
                  keyPem: string, pairs: seq<(string, Entry)>, h: string)
    requires Expected(hosts, contact, files, a, keyPem, pairs).outcome == Issued
    ensures var r := Expected(hosts, contact, files, a, keyPem, pairs);
      var k := FirstDownloadAnswer(a.downloads);
      && IssuedAt(a.downloads, k)
      && (h in hosts && ChallengeRecordFile(h) !in files ==>
            && CertFile(h) in r.files && r.files[CertFile(h)] == a.downloads[k].pem
            && KeyFile(h) in r.files && r.files[KeyFile(h)] == keyPem)
      && (CertFile(h) in r.files && CertFile(h) !in files ==> h in hosts && ChallengeRecordFile(h) !in files)
  {
    RunPublishedShape(hosts, contact, files, a, keyPem, pairs);
    var r := Expected(hosts, contact, files, a, keyPem, pairs);
    var ids := Remaining(hosts, ExcludedHosts(files, hosts));
    var calls := [AccountCall(files, contact), NewOrder(ids), FetchAuthorizations] + ReadySignals(pairs);
    var before := AfterAccount(files, a)[OrderReferenceFile() := OrderReference(a.orderUrl.value)] + ChallengeFiles(pairs);
    AfterPublishingShape(ids, a, keyPem, before, calls);
    var k := FirstDownloadAnswer(a.downloads);
    var certs := CertificateFiles(ids, a.downloads[k].pem, keyPem);
    assert r.files == before + certs;
    if h in hosts && ChallengeRecordFile(h) !in files {
      CertificateFilesAt(ids, a.downloads[k].pem, keyPem, h);
    }
    if CertFile(h) in r.files && CertFile(h) !in files {
      Areas(h);
      if CertFile(h) in ChallengeFiles(pairs) {
        ChallengeFilesDomain(pairs, CertFile(h));
      }
      assert CertFile(h) in certs;
      CertificateFilesDomain(ids, a.downloads[k].pem, keyPem, CertFile(h));
      var h' :| h' in ids && (CertFile(h) == CertFile(h') || CertFile(h) == KeyFile(h'));
      CertKeyFilesDistinct(h, h');
      CertFileInjective(h, h');
    }
  }

  /** What happens after publication does not depend on the calls made before it. */
  lemma AfterPublishingCallsIrrelevant(ids: seq<string>, a: Authority, keyPem: string,
                                       files: map<string, string>, c1: seq<Call>, c2: seq<Call>)
    ensures var r1 := AfterPublishing(ids, a, keyPem, files, c1);
      var r2 := AfterPublishing(ids, a, keyPem, files, c2);
      r1.outcome == r2.outcome && r1.files == r2.files && r1.sleeps == r2.sleeps
  {
  }

  /** Whether a run gets as far as publishing challenges; this does not depend on the walk. */
  predicate Publishes(hosts: seq<string>, files: map<string, string>, a: Authority)
  {
    var scanned := Scan(map[], a.authorizations);
    && |ExcludedHosts(files, hosts)| != |hosts| && AccountCredentials(files, a).Some?
    && Remaining(hosts, ExcludedHosts(files, hosts)) != [] && a.orderUrl.Some?
    && scanned.error.None? && scanned.store != map[]
  }

  lemma RunBeforePublishing(hosts: seq<string>, contact: string, files: map<string, string>, a: Authority,
                            keyPem: string, p1: seq<(string, Entry)>, p2: seq<(string, Entry)>)
    requires !Publishes(hosts, files, a)
    ensures Expected(hosts, contact, files, a, keyPem, p1) == Expected(hosts, contact, files, a, keyPem, p2)
  {
  }

  /**
   * The walk order of the challenge store changes only the order of the
   * ready signals: outcome, files and sleeps are the same for every walk.
   */
  lemma RunDeterministic(hosts: seq<string>, contact: string, files: map<string, string>, a: Authority,
                         keyPem: string, p1: seq<(string, Entry)>, p2: seq<(string, Entry)>)
    requires IsEnumeration(p1, Scan(map[], a.authorizations).store)
    requires IsEnumeration(p2, Scan(map[], a.authorizations).store)
    ensures var r1 := Expected(hosts, contact, files, a, keyPem, p1);
      var r2 := Expected(hosts, contact, files, a, keyPem, p2);
      r1.outcome == r2.outcome && r1.files == r2.files && r1.sleeps == r2.sleeps
  {
    if Publishes(hosts, files, a) {
      ChallengeFilesOrderIndependent(p1, p2, Scan(map[], a.authorizations).store);
      var ids := Remaining(hosts, ExcludedHosts(files, hosts));
      var head := [AccountCall(files, contact), NewOrder(ids), FetchAuthorizations];
      var before := AfterAccount(files, a)[OrderReferenceFile() := OrderReference(a.orderUrl.value)] + ChallengeFiles(p1);
      assert Expected(hosts, contact, files, a, keyPem, p1) == AfterPublishing(ids, a, keyPem, before, head + ReadySignals(p1));
      assert Expected(hosts, contact, files, a, keyPem, p2) == AfterPublishing(ids, a, keyPem, before, head + ReadySignals(p2));
      AfterPublishingCallsIrrelevant(ids, a, keyPem, before, head + ReadySignals(p1), head + ReadySignals(p2));
    } else {
      RunBeforePublishing(hosts, contact, files, a, keyPem, p1, p2);
    }
  }
}

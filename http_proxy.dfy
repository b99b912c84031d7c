/**
 * The port-80 proxy (`HttpLB`): answers `/ping`, serves HTTP-01 challenge
 * proofs (section 8.3 of RFC 8555) from the challenge store, and
 * redirects everything else to HTTPS with 308 Permanent Redirect
 * (section 15.4.9 of RFC 9110). It never forwards a request upstream.
 */
module HttpProxy {
  import opened Wrappers
  import opened Text

  /** The path and query of a request target; `query` is the text after `?`. */
  datatype PathAndQuery = PathAndQuery(path: string, query: Option<string>)

  datatype Uri = Uri(host: Option<string>, pathAndQuery: Option<PathAndQuery>)

  /** What the filter reads of a request: its `Host` header, if any, and its URI. */
  datatype Request = Request(hostHeader: Option<string>, uri: Uri)

  /** `Uri::path`: the empty string when the URI has no path. */
  function Path(u: Uri): string
  {
    if u.pathAndQuery.Some? then u.pathAndQuery.value.path else ""
  }

  /** `PathAndQuery` as text: the path, then `?` and the query when there is one. */
  function PathAndQueryText(pq: PathAndQuery): (s: string)
    ensures StartsWith(s, pq.path)
    ensures pq.query.None? <==> |s| == |pq.path|
  {
    pq.path + (if pq.query.Some? then "?" + pq.query.value else "")
  }

  datatype Header = ContentType(mime: string) | ContentLength(length: nat) | Location(target: string)

  datatype Response = Response(status: nat, headers: seq<Header>, body: string)

  /**
   * What `request_filter` ends in: `Handled` is `Ok(true)` after writing
   * the response, `Declined` is `Ok(false)` (go on to the upstream),
   * `Failed` an `Err` carrying an HTTP status, `Aborted` the redirect of a
   * URI without path and query, which the code unwraps.
   */
  datatype FilterResult = Handled(response: Response) | Declined | Failed(status: nat) | Aborted

  /** Challenge store: host -> (token, proof). */
  type ChallengeStore = map<string, (string, string)>

  const PingPath := "/ping"
  const ChallengePrefix := "/.well-known/acme-challenge"

  /** A header value `HeaderValue::to_str` accepts: tab or visible ASCII. */
  predicate VisibleAscii(s: string)
  {
    forall i :: 0 <= i < |s| ==> s[i] == '\t' || ' ' <= s[i] <= '~'
  }

  /** The request's host: the `Host` header, else the URI's host, else empty. */
  function GetHost(req: Request): (h: string)
    ensures h != "" ==> VisibleAscii(h) || req.hostHeader.None?
  {
    match req.hostHeader
    case Some(value) => if VisibleAscii(value) then value else ""
    case None => if req.uri.host.Some? then req.uri.host.value else ""
  }

  function TextResponse(body: string): (r: Response)
    ensures r.status == 200 && r.body == body
  {
    Response(200, [ContentType("text/plain"), ContentLength(|body|)], body)
  }

  /**
   * The routing decision of `request_filter`. It never declines a request;
   * it fails with 400 exactly when there is no host, otherwise only with
   * 404; every response it writes is `text/plain` with a content length
   * equal to its body's, and is a 200, or a 308 carrying a `Location`.
   */
  function RequestFilter(store: ChallengeStore, req: Request): (r: FilterResult)
    ensures !r.Declined?
    ensures r == Failed(400) <==> GetHost(req) == ""
    ensures r.Failed? ==> r.status == 400 || r.status == 404
    ensures r.Handled? ==>
              && (r.response.status == 200 || r.response.status == 308)
              && ContentType("text/plain") in r.response.headers
              && ContentLength(|r.response.body|) in r.response.headers
              && (r.response.status == 308 <==> exists target :: Location(target) in r.response.headers)
  {
    var host := GetHost(req);
    var path := Path(req.uri);
    if host == "" then Failed(400)
    else if path == PingPath then Handled(TextResponse("pong"))
    else if StartsWith(path, ChallengePrefix) then
      if host !in store then Failed(404)
      else
        var (token, proof) := store[host];
        if token != Last(Split(path, '/')) then Failed(404)
        else Handled(TextResponse(proof))
    else if req.uri.pathAndQuery.None? then Aborted
    else
      var location := "https://" + host + PathAndQueryText(req.uri.pathAndQuery.value);
      Handled(Response(308, [Location(location), ContentType("text/plain"), ContentLength(0)], ""))
  }

  /** The peer a request is forwarded to, or the status it fails with. */
  datatype PeerChoice = Peer(address: string) | PeerError(status: nat)

  /** `upstream_peer`: there is no upstream on port 80. */
  function UpstreamPeer(req: Request): PeerChoice
  {
    PeerError(404)
  }

  /** What a request ends in once the filter and, if it declines, the peer choice have run. */
  datatype Served = Responded(response: Response) | ErrorStatus(status: nat) | Proxied(peer: string) | Dropped

  function Serve(store: ChallengeStore, req: Request): Served
  {
    match RequestFilter(store, req)
    case Handled(response) => Responded(response)
    case Failed(status) => ErrorStatus(status)
    case Aborted => Dropped
    case Declined =>
      match UpstreamPeer(req)
      case Peer(address) => Proxied(address)
      case PeerError(status) => ErrorStatus(status)
  }

  // ------------------------------------------------------------ properties

  /** The host is empty exactly when no usable host header or URI host is there. */
  lemma HostEmptyIff(req: Request)
    ensures GetHost(req) == "" <==>
              (req.hostHeader.Some? && (!VisibleAscii(req.hostHeader.value) || req.hostHeader.value == "")) ||
              (req.hostHeader.None? && (req.uri.host.None? || req.uri.host.value == ""))
    ensures req.hostHeader.Some? && VisibleAscii(req.hostHeader.value) ==> GetHost(req) == req.hostHeader.value
    ensures req.hostHeader.None? && req.uri.host.Some? ==> GetHost(req) == req.uri.host.value
  {
  }

  /** `/ping` with a host answers `pong`, whatever the challenge store holds. */
  lemma PingAnswered(store: ChallengeStore, req: Request)
    requires GetHost(req) != "" && Path(req.uri) == "/ping"
    ensures RequestFilter(store, req) ==
            Handled(Response(200, [ContentType("text/plain"), ContentLength(4)], "pong"))
  {
  }

  /**
   * On a challenge path the answer is the stored proof exactly when the
   * host has an entry whose token is the path's last `/` segment, and 404
   * otherwise.
   */
  lemma ChallengeDecision(store: ChallengeStore, req: Request)
    requires GetHost(req) != "" && Path(req.uri) != PingPath && StartsWith(Path(req.uri), ChallengePrefix)
    ensures var host := GetHost(req);
      var served := host in store && store[host].0 == Last(Split(Path(req.uri), '/'));
      && (served ==> RequestFilter(store, req) == Handled(TextResponse(store[host].1)))
      && (!served ==> RequestFilter(store, req) == Failed(404))
  {
  }

  /**
   * The responder side of HTTP-01: a request for
   * `/.well-known/acme-challenge/<token>` on a host whose stored token is
   * `token` (with no `/` in it) gets the stored proof, as text, with its
   * length.
   */
  lemma ChallengeRoundTrip(store: ChallengeStore, req: Request, token: string, proof: string)
    requires GetHost(req) != "" && GetHost(req) in store && store[GetHost(req)] == (token, proof)
    requires '/' !in token
    requires Path(req.uri) == ChallengePrefix + "/" + token
    ensures RequestFilter(store, req) ==
            Handled(Response(200, [ContentType("text/plain"), ContentLength(|proof|)], proof))
  {
    var path := Path(req.uri);
    assert path[..|ChallengePrefix|] == ChallengePrefix;
    assert path != PingPath by {
      assert |path| > |PingPath|;
    }
    assert ChallengePrefix + "/" + token == ChallengePrefix + ['/'] + token;
    LastPieceAfterSeparator(ChallengePrefix, token, '/');
  }

  /** The prefix test has no trailing slash: any continuation of the prefix is a challenge path. */
  lemma PrefixWithoutSlash(store: ChallengeStore, req: Request, rest: string)
    requires GetHost(req) != "" && GetHost(req) !in store
    requires Path(req.uri) == ChallengePrefix + rest
    ensures RequestFilter(store, req) == Failed(404)
  {
    var path := Path(req.uri);
    assert path[..|ChallengePrefix|] == ChallengePrefix;
    assert path != PingPath by {
      assert |path| >= |ChallengePrefix| > |PingPath|;
    }
  }

  /**
   * The token is the last `/` segment taken literally: a trailing slash
   * makes it empty, so a stored non-empty token no longer matches.
   */
  lemma TrailingSlashMisses(store: ChallengeStore, req: Request, token: string)
    requires GetHost(req) != "" && GetHost(req) in store && store[GetHost(req)].0 != ""
    requires Path(req.uri) == ChallengePrefix + "/" + token + "/"
    ensures RequestFilter(store, req) == Failed(404)
  {
    var path := Path(req.uri);
    assert path[..|ChallengePrefix|] == ChallengePrefix;
    assert path != PingPath by {
      assert |path| > |PingPath|;
    }
    assert path == (ChallengePrefix + "/" + token) + ['/'] + "";
    LastPieceAfterSeparator(ChallengePrefix + "/" + token, "", '/');
  }

  /** Every other path is redirected, permanently, to the same path and query over HTTPS. */
  lemma RedirectToHttps(store: ChallengeStore, req: Request)
    requires GetHost(req) != "" && Path(req.uri) != PingPath && !StartsWith(Path(req.uri), ChallengePrefix)
    requires req.uri.pathAndQuery.Some?
    ensures var r := RequestFilter(store, req);
      && r.Handled? && r.response.status == 308 && r.response.body == ""
      && Location("https://" + GetHost(req) + PathAndQueryText(req.uri.pathAndQuery.value)) in r.response.headers
      && ContentLength(0) in r.response.headers
  {
  }

  /**
   * Nothing is ever forwarded upstream: the filter never declines a
   * request, and the peer choice would fail with 404 if it did.
   */
  lemma NeverProxied(store: ChallengeStore, req: Request)
    ensures UpstreamPeer(req) == PeerError(404)
    ensures !Serve(store, req).Proxied?
    ensures Serve(store, req).Responded? <==> RequestFilter(store, req).Handled?
  {
  }

  /**
   * A stored challenge `abc` / `xyz` for `example.com`: the request for
   * token `abc` gets `xyz`, the request for token `def` gets 404.
   */
  lemma ResponderExample()
    ensures var store := map["example.com" := ("abc", "xyz")];
      var asked := (t: string) => Request(Some("example.com"), Uri(None, Some(PathAndQuery(ChallengePrefix + "/" + t, None))));
      && RequestFilter(store, asked("abc")) == Handled(Response(200, [ContentType("text/plain"), ContentLength(3)], "xyz"))
      && RequestFilter(store, asked("def")) == Failed(404)
  {
    var store := map["example.com" := ("abc", "xyz")];
    var asked := (t: string) => Request(Some("example.com"), Uri(None, Some(PathAndQuery(ChallengePrefix + "/" + t, None))));
    assert VisibleAscii("example.com");
    ChallengeRoundTrip(store, asked("abc"), "abc", "xyz");
    assert ChallengePrefix + "/" + "def" == ChallengePrefix + ['/'] + "def";
    LastPieceAfterSeparator(ChallengePrefix, "def", '/');
    ChallengeDecision(store, asked("def"));
  }
}

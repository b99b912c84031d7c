/**
 * The ACME certificate authority as the issuance run sees it (RFC 8555).
 * The authority is not modelled as a protocol: its answers to the run's
 * requests are given up front as an `Authority` value, and every request
 * the run makes is recorded as a `Call`.
 */
module Acme {
  import opened Wrappers

  /** Order status, section 7.1.6 of RFC 8555. */
  datatype OrderStatus = Pending | Ready | Processing | Valid | Invalid

  /** Authorization status, section 7.1.6 of RFC 8555. */
  datatype AuthorizationStatus = Pending | Valid | Invalid | Expired | Deactivated | Revoked

  datatype ChallengeType = Http01 | Dns01 | TlsAlpn01

  /**
   * One challenge of an authorization. `keyAuthorization` stands for the
   * value the authority session derives from the token and the account key
   * (section 8.1 of RFC 8555); the model treats it as an opaque string.
   */
  datatype Challenge = Challenge(kind: ChallengeType, url: string, token: string, keyAuthorization: string)

  /** An authorization for one DNS identifier. */
  datatype Authorization = Authorization(identifier: string, status: AuthorizationStatus, challenges: seq<Challenge>)

  /** One answer of the certificate download endpoint. */
  datatype Download = NotReady | Chain(pem: string) | DownloadError

  /**
   * What the authority answers, in the order the run asks:
   * - `newAccount`: credentials returned by account registration, `None` if it is refused;
   * - `orderUrl`: URL of the order `new_order` creates, `None` if it is refused;
   * - `authorizations`: the order's authorizations;
   * - `initialStatus`, `refreshes`: the order status when created, then after each refresh
   *   (past the end of `refreshes` the status no longer changes);
   * - `finalizeOk`: whether the finalize request is accepted;
   * - `downloads`: successive answers of the certificate endpoint.
   */
  datatype Authority = Authority(
    newAccount: Option<string>,
    orderUrl: Option<string>,
    authorizations: seq<Authorization>,
    initialStatus: OrderStatus,
    refreshes: seq<OrderStatus>,
    finalizeOk: bool,
    downloads: seq<Download>)

  /** A request the run sends to the authority. A CSR is recorded by the names it certifies. */
  datatype Call =
    | RestoreAccount(credentials: string)
    | RegisterAccount(contact: seq<string>, termsOfServiceAgreed: bool, onlyReturnExisting: bool, directory: string)
    | NewOrder(identifiers: seq<string>)
    | FetchAuthorizations
    | SetChallengeReady(url: string)
    | Refresh
    | Finalize(names: seq<string>)
    | DownloadCertificate

  /** Let's Encrypt's staging directory, the service's fixed directory URL. */
  const StagingDirectory := "https://acme-staging-v02.api.letsencrypt.org/directory"

  /** Order status after `k` refreshes. */
  function StatusAfter(a: Authority, k: nat): OrderStatus
  {
    if k == 0 || |a.refreshes| == 0 then a.initialStatus
    else if k <= |a.refreshes| then a.refreshes[k - 1]
    else a.refreshes[|a.refreshes| - 1]
  }

  /** `n` copies of `x`. */
  function Repeat<T>(x: T, n: nat): (r: seq<T>)
    ensures |r| == n
    ensures forall i :: 0 <= i < n ==> r[i] == x
  {
    if n == 0 then [] else Repeat(x, n - 1) + [x]
  }
}

/**
 * The file layout under `./data` used by the issuance run
 * (`challenges_path`, `certificates_path`, `account_path`, `orders_path`
 * and the file names built from them).
 */
module DataPaths {

  const ChallengesPath := "./data/challenges"
  const CertificatesPath := "./data/certificates"
  const AccountPath := "./data/account"
  const OrdersPath := "./data/orders"

  function CredentialsFile(): string { AccountPath + "/credentials.json" }

  function OrderReferenceFile(): string { OrdersPath + "/meta.txt" }

  /** The challenge record of `host`; its existence excludes the host from later orders. */
  function ChallengeRecordFile(host: string): string { "./data/challenges/" + host + "/meta.csv" }

  function CertFile(host: string): string { CertificatesPath + "/" + host + "/cert.pem" }

  function KeyFile(host: string): string { CertificatesPath + "/" + host + "/key.pem" }

  /** The first nine characters tell the four directories apart. */
  function Area(path: string): string
  {
    if |path| < 9 then path else path[..9]
  }

  lemma Areas(host: string)
    ensures Area(CredentialsFile()) == "./data/ac"
    ensures Area(OrderReferenceFile()) == "./data/or"
    ensures Area(ChallengeRecordFile(host)) == "./data/ch"
    ensures Area(CertFile(host)) == "./data/ce"
    ensures Area(KeyFile(host)) == "./data/ce"
  {
  }

  /** Two hosts share a challenge record file only if they are the same host. */
  lemma ChallengeRecordFileInjective(a: string, b: string)
    requires ChallengeRecordFile(a) == ChallengeRecordFile(b)
    ensures a == b
  {
    var p := "./data/challenges/";
    assert |a| == |b|;
    assert a == ChallengeRecordFile(a)[|p|..|p| + |a|];
    assert b == ChallengeRecordFile(b)[|p|..|p| + |b|];
  }

  /** The certificate file of one host is never the key file of another. */
  lemma CertKeyFilesDistinct(a: string, b: string)
    ensures CertFile(a) != KeyFile(b)
  {
    var c, k := CertFile(a), KeyFile(b);
    assert c[|c| - 8] == 'c';
    assert k[|k| - 8] == '/';
  }

  lemma CertFileInjective(a: string, b: string)
    requires CertFile(a) == CertFile(b)
    ensures a == b
  {
    var p := CertificatesPath + "/";
    assert |a| == |b|;
    assert a == CertFile(a)[|p|..|p| + |a|];
    assert b == CertFile(b)[|p|..|p| + |b|];
  }

  lemma KeyFileInjective(a: string, b: string)
    requires KeyFile(a) == KeyFile(b)
    ensures a == b
  {
    var p := CertificatesPath + "/";
    assert |a| == |b|;
    assert a == KeyFile(a)[|p|..|p| + |a|];
    assert b == KeyFile(b)[|p|..|p| + |b|];
  }
}

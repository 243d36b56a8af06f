/** How the scanner names a service and builds its banner once a port is
    open: port tables, banner signatures, the HTTP, TLS, SSH and Redis
    banner formats, and the per-port probing order. Everything that reads
    from or writes to a socket is an input here. */
module Fingerprint {
  import opened Wrappers
  import opened Text

  // ---------------------------------------------------------------------
  // Port tables

  /** `is_tls_port`: ports probed with a TLS handshake. */
  predicate IsTlsPort(port: nat)
  {
    port in {443, 8443, 9443, 993, 995, 465}
  }

  /** `is_http_port`: ports probed with an HTTP/1.0 GET. */
  predicate IsHttpPort(port: nat)
  {
    port in {80, 81, 82, 591, 8000, 8001, 8008, 8080, 8081, 8088, 8888}
  }

  /** The well-known-port fallback of `guess_service`. */
  function PortService(port: nat): Option<string>
  {
    match port
    case 22 => Some("ssh")
    case 23 => Some("telnet")
    case 25 => Some("smtp")
    case 53 => Some("dns")
    case 80 | 81 | 82 | 591 | 8000 | 8001 | 8008 | 8080 | 8081 | 8088 | 8888 => Some("http")
    case 110 => Some("pop3")
    case 123 => Some("ntp")
    case 139 | 445 => Some("smb")
    case 143 => Some("imap")
    case 161 => Some("snmp")
    case 389 => Some("ldap")
    case 443 | 8443 => Some("https")
    case 465 | 587 => Some("smtps")
    case 631 => Some("ipp")
    case 993 => Some("imaps")
    case 995 => Some("pop3s")
    case 1433 => Some("mssql")
    case 1521 => Some("oracle")
    case 1723 => Some("pptp")
    case 1883 => Some("mqtt")
    case 2049 => Some("nfs")
    case 2375 | 2376 => Some("docker")
    case 2380 => Some("etcd")
    case 3000 => Some("http")
    case 3128 => Some("http-proxy")
    case 3260 => Some("iscsi")
    case 3306 => Some("mysql")
    case 3389 => Some("rdp")
    case 4369 => Some("epmd")
    case 5000 => Some("http")
    case 5040 => Some("unknown")
    case 5432 => Some("postgresql")
    case 5672 => Some("amqp")
    case 5900 => Some("vnc")
    case 5985 | 5986 => Some("winrm")
    case 6379 => Some("redis")
    case 7001 | 7002 => Some("http")
    case 9000 => Some("http")
    case 9092 => Some("kafka")
    case 9200 | 9300 => Some("elasticsearch")
    case 11211 => Some("memcached")
    case 27017 => Some("mongodb")
    case _ => None
  }

  /** Every port probed with TLS is named by the table, except 9443,
      which the table does not list. */
  lemma TlsPortsNamed(port: nat)
    requires IsTlsPort(port)
    ensures PortService(port).None? <==> port == 9443
    ensures port == 443 || port == 8443 ==> PortService(port) == Some("https")
  {
  }

  /** Every port probed over HTTP is named "http" by the table. */
  lemma HttpPortsAreHttp(port: nat)
    requires IsHttpPort(port)
    ensures PortService(port) == Some("http")
  {
  }

  // ---------------------------------------------------------------------
  // Banner signatures

  /** How a signature looks for its text in the lower-cased banner. */
  datatype Pattern = Prefix(text: string) | Anywhere(text: string)

  datatype Signature = Signature(service: string, patterns: seq<Pattern>)

  /** The banner signatures of `guess_service`, in the order they are
      tried: the first that matches names the service. */
  const Signatures: seq<Signature> := [
    Signature("ssh", [Anywhere("ssh-")]),
    Signature("http", [Prefix("http/"), Anywhere("http/1."), Anywhere("server:")]),
    Signature("smtp", [Anywhere("smtp")]),
    Signature("redis", [Anywhere("redis")]),
    Signature("mysql", [Anywhere("mysql")]),
    Signature("postgresql", [Anywhere("postgres"), Anywhere("postgresql")]),
    Signature("mongodb", [Anywhere("mongodb")]),
    Signature("mqtt", [Anywhere("mqtt")])
  ]

  predicate PatternMatches(lb: string, p: Pattern)
  {
    match p
    case Prefix(t) => StartsWith(lb, t)
    case Anywhere(t) => Contains(lb, t)
  }

  predicate SignatureMatches(lb: string, sig: Signature)
  {
    exists k :: 0 <= k < |sig.patterns| && PatternMatches(lb, sig.patterns[k])
  }

  /** The service of the first signature in `sigs` that matches. */
  function FirstSignature(lb: string, sigs: seq<Signature>): (r: Option<string>)
    ensures r.Some? <==> exists k :: 0 <= k < |sigs| && SignatureMatches(lb, sigs[k])
    ensures r.Some? ==> exists k :: 0 <= k < |sigs| && SignatureMatches(lb, sigs[k]) &&
                          r.value == sigs[k].service &&
                          forall j :: 0 <= j < k ==> !SignatureMatches(lb, sigs[j])
    decreases |sigs|
  {
    if |sigs| == 0 then None
    else if SignatureMatches(lb, sigs[0]) then Some(sigs[0].service)
    else
      var r := FirstSignature(lb, sigs[1..]);
      assert forall k :: 1 <= k < |sigs| ==> sigs[k] == sigs[1..][k - 1];
      r
  }

  /** `guess_service`: the banner's signatures first, case-insensitively,
      then the port table. */
  function GuessService(port: nat, banner: Option<string>): Option<string>
  {
    if banner.Some? then
      var lb := Lower(banner.value);
      if Contains(lb, "ssh-") then Some("ssh")
      else if StartsWith(lb, "http/") || Contains(lb, "http/1.") || Contains(lb, "server:") then Some("http")
      else if Contains(lb, "smtp") then Some("smtp")
      else if Contains(lb, "redis") then Some("redis")
      else if Contains(lb, "mysql") then Some("mysql")
      else if Contains(lb, "postgres") || Contains(lb, "postgresql") then Some("postgresql")
      else if Contains(lb, "mongodb") then Some("mongodb")
      else if Contains(lb, "mqtt") then Some("mqtt")
      else PortService(port)
    else PortService(port)
  }

  /** The chain of tests is the signature table read in order: the first
      matching signature names the service, and with none the port table
      does. */
  lemma GuessServiceIsTable(port: nat, banner: string)
    ensures GuessService(port, Some(banner)) ==
            match FirstSignature(Lower(banner), Signatures)
            case Some(s) => Some(s)
            case None => PortService(port)
  {
    var lb := Lower(banner);
    SignatureTests(lb);
    FirstOfEight(lb, Signatures);
  }

  /** What each signature of the table tests. */
  lemma SignatureTests(lb: string)
    ensures SignatureMatches(lb, Signatures[0]) <==> Contains(lb, "ssh-")
    ensures SignatureMatches(lb, Signatures[1]) <==>
            StartsWith(lb, "http/") || Contains(lb, "http/1.") || Contains(lb, "server:")
    ensures SignatureMatches(lb, Signatures[2]) <==> Contains(lb, "smtp")
    ensures SignatureMatches(lb, Signatures[3]) <==> Contains(lb, "redis")
    ensures SignatureMatches(lb, Signatures[4]) <==> Contains(lb, "mysql")
    ensures SignatureMatches(lb, Signatures[5]) <==> Contains(lb, "postgres") || Contains(lb, "postgresql")
    ensures SignatureMatches(lb, Signatures[6]) <==> Contains(lb, "mongodb")
    ensures SignatureMatches(lb, Signatures[7]) <==> Contains(lb, "mqtt")
  {
    var s := Signatures;
    assert s[0].patterns[0] == Anywhere("ssh-");
    assert s[1].patterns == [Prefix("http/"), Anywhere("http/1."), Anywhere("server:")];
    assert PatternMatches(lb, s[1].patterns[0]) <==> StartsWith(lb, "http/");
    assert PatternMatches(lb, s[1].patterns[1]) <==> Contains(lb, "http/1.");
    assert PatternMatches(lb, s[1].patterns[2]) <==> Contains(lb, "server:");
    assert s[2].patterns[0] == Anywhere("smtp");
    assert s[3].patterns[0] == Anywhere("redis");
    assert s[4].patterns[0] == Anywhere("mysql");
    assert PatternMatches(lb, s[5].patterns[0]) <==> Contains(lb, "postgres");
    assert PatternMatches(lb, s[5].patterns[1]) <==> Contains(lb, "postgresql");
    assert s[6].patterns[0] == Anywhere("mongodb");
    assert s[7].patterns[0] == Anywhere("mqtt");
  }

  /** The first match among eight signatures, tested one after another. */
  lemma FirstOfEight(lb: string, s: seq<Signature>)
    requires |s| == 8
    ensures FirstSignature(lb, s) ==
            if SignatureMatches(lb, s[0]) then Some(s[0].service)
            else if SignatureMatches(lb, s[1]) then Some(s[1].service)
            else if SignatureMatches(lb, s[2]) then Some(s[2].service)
            else if SignatureMatches(lb, s[3]) then Some(s[3].service)
            else if SignatureMatches(lb, s[4]) then Some(s[4].service)
            else if SignatureMatches(lb, s[5]) then Some(s[5].service)
            else if SignatureMatches(lb, s[6]) then Some(s[6].service)
            else if SignatureMatches(lb, s[7]) then Some(s[7].service)
            else None
  {
    assert s[1..][1..][1..][1..][1..][1..][1..][1..] == [];
  }

  /** Without a banner, or when no signature matches, the port table
      decides. */
  lemma GuessServiceFallback(port: nat, banner: Option<string>)
    requires banner.None? || FirstSignature(Lower(banner.value), Signatures).None?
    ensures GuessService(port, banner) == PortService(port)
  {
    if banner.Some? {
      GuessServiceIsTable(port, banner.value);
    }
  }

  /** Priority: when signature `k` matches and none before it does, its
      service is the answer, whatever later signatures or the port say. */
  lemma GuessServicePriority(port: nat, banner: string, k: nat)
    requires k < |Signatures| && SignatureMatches(Lower(banner), Signatures[k])
    requires forall j :: 0 <= j < k ==> !SignatureMatches(Lower(banner), Signatures[j])
    ensures GuessService(port, Some(banner)) == Some(Signatures[k].service)
  {
    GuessServiceIsTable(port, banner);
    var r := FirstSignature(Lower(banner), Signatures);
    var k' :| 0 <= k' < |Signatures| && SignatureMatches(Lower(banner), Signatures[k']) &&
              r.value == Signatures[k'].service &&
              forall j :: 0 <= j < k' ==> !SignatureMatches(Lower(banner), Signatures[j]);
    assert k' == k;
  }

  /** The banner is read without regard to ASCII case. */
  lemma GuessServiceIgnoresCase(port: nat, banner: string)
    ensures GuessService(port, Some(banner)) == GuessService(port, Some(Lower(banner)))
  {
    LowerIdempotent(banner);
  }

  /** A banner holding both "SSH-" and "HTTP/1." is SSH: the SSH signature
      comes first although the HTTP one matches too. */
  lemma SshBeforeHttp(port: nat, a: string, b: string, c: string)
    ensures SignatureMatches(Lower(a + "SSH-" + b + "HTTP/1." + c), Signatures[1])
    ensures GuessService(port, Some(a + "SSH-" + b + "HTTP/1." + c)) == Some("ssh")
  {
    var banner := a + "SSH-" + b + "HTTP/1." + c;
    var lb := Lower(banner);
    LowerAppend(a + "SSH-" + b, "HTTP/1." + c);
    LowerAppend(a + "SSH-", b);
    LowerAppend(a, "SSH-");
    LowerAppend("HTTP/1.", c);
    assert Lower("SSH-") == "ssh-";
    assert Lower("HTTP/1.") == "http/1.";
    assert lb == Lower(a) + "ssh-" + Lower(b) + "http/1." + Lower(c);
    var i := |a|;
    assert lb[i..i + 4] == "ssh-";
    assert MatchesAt(lb, "ssh-", i);
    var h := |a| + 4 + |b|;
    assert lb[h..h + 7] == "http/1.";
    assert MatchesAt(lb, "http/1.", h);
    assert PatternMatches(lb, Signatures[1].patterns[1]);
  }
}

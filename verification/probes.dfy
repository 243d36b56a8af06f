/** The per-connection fingerprinting of an open port: the passive banner
    read, the SSH, Redis and TLS probes, and the order in which the
    scanner tries them. What each socket read returned, whether a write
    timed out, and what the certificate parser found are inputs. */
module Probes {
  import opened Wrappers
  import opened Text
  import opened Fingerprint
  import opened HttpProbe

  /** The service label and the banner recorded for an open port. */
  datatype Label = Label(service: Option<string>, banner: Option<string>)

  // ---------------------------------------------------------------------
  // Passive read, SSH and Redis

  /** `read_banner`: whatever the server sent unprompted, with line breaks
      escaped; nothing when the read returned no bytes. */
  function ReadBanner(got: string): (r: Option<string>)
    ensures r.Some? <==> |got| > 0
    ensures r.Some? ==> HasNoLineBreak(r.value)
    ensures r.Some? && HasNoLineBreak(got) ==> r.value == got
  {
    if |got| == 0 then None
    else
      EscapeRemovesLineBreaks(got);
      assert HasNoLineBreak(got) ==> EscapeLineBreaks(got) == got by {
        if HasNoLineBreak(got) { EscapeIdentity(got); }
      }
      Some(EscapeLineBreaks(got))
  }

  /** An SSH identification line: it starts with "ssh-" in any ASCII case,
      or mentions "OpenSSH". */
  predicate SshGreeting(s: string)
  {
    StartsWith(Lower(s), "ssh-") || Contains(s, "OpenSSH")
  }

  /** `probe_ssh`: the second read on port 22 is kept, trimmed and
      escaped, only when it looks like an SSH identification line. */
  function ProbeSsh(got: string): (r: Option<string>)
    ensures r.Some? <==> |got| > 0 && SshGreeting(got)
    ensures r.Some? ==> HasNoLineBreak(r.value)
  {
    if |got| > 0 && SshGreeting(got) then
      EscapeRemovesLineBreaks(Trim(got));
      Some(EscapeLineBreaks(Trim(got)))
    else None
  }

  /** The banner recorded for a Redis server that answered PING. */
  const PongBanner: string := "redis PONG"

  /** `probe_redis_ping`: after sending PING, a reply starting "+PONG" is
      reported as "redis PONG", any other reply escaped as it came; no
      banner when the write timed out or nothing came back. */
  function ProbeRedisPing(writeTimedOut: bool, got: string): (r: Option<string>)
    ensures r.Some? <==> !writeTimedOut && |got| > 0
    ensures r.Some? ==> HasNoLineBreak(r.value)
    ensures r.Some? && StartsWith(got, "+PONG") ==> r.value == PongBanner
    ensures r.Some? && !StartsWith(got, "+PONG") && HasNoLineBreak(got) ==> r.value == got
  {
    if writeTimedOut || |got| == 0 then None
    else if StartsWith(got, "+PONG") then Some(PongBanner)
    else
      EscapeRemovesLineBreaks(got);
      assert HasNoLineBreak(got) ==> EscapeLineBreaks(got) == got by {
        if HasNoLineBreak(got) { EscapeIdentity(got); }
      }
      Some(EscapeLineBreaks(got))
  }

  // ---------------------------------------------------------------------
  // TLS

  /** What the certificate parser yields: the first common name of the
      subject and of the issuer ("" when there is none), and the expiry
      in RFC 2822 form (`None` when it cannot be formatted). */
  datatype CertFields = CertFields(subjectCn: string, issuerCn: string, notAfter: Option<string>)

  function NotAfterText(cert: CertFields): string
  {
    match cert.notAfter
    case None => "invalid"
    case Some(t) => t
  }

  /** `format_cert_summary`: the non-empty names, then the expiry, joined
      by ", ". */
  function CertSummary(cert: CertFields): (r: string)
    ensures EndsWith(r, "not_after=" + NotAfterText(cert))
    ensures StartsWith(r, "subject_cn=") <==> cert.subjectCn != []
    ensures cert.subjectCn != [] ==> StartsWith(r, "subject_cn=" + cert.subjectCn + ", ")
  {
    var parts :=
      (if cert.subjectCn != [] then ["subject_cn=" + cert.subjectCn] else []) +
      (if cert.issuerCn != [] then ["issuer_cn=" + cert.issuerCn] else []) +
      ["not_after=" + NotAfterText(cert)];
    JoinedSummaryParts(cert.subjectCn, cert.issuerCn, "not_after=" + NotAfterText(cert));
    var r := Join(parts, ", ");
    assert cert.subjectCn == [] ==> r[0] != 's';
    r
  }

  /** The four shapes of the certificate summary. */
  lemma CertSummaryShapes(cert: CertFields)
    ensures
      var s, i, n := cert.subjectCn, cert.issuerCn, "not_after=" + NotAfterText(cert);
      CertSummary(cert) ==
        if s != [] && i != [] then "subject_cn=" + s + ", " + "issuer_cn=" + i + ", " + n
        else if s != [] then "subject_cn=" + s + ", " + n
        else if i != [] then "issuer_cn=" + i + ", " + n
        else n
  {
    JoinedSummaryParts(cert.subjectCn, cert.issuerCn, "not_after=" + NotAfterText(cert));
  }

  /** Joining the summary parts, by which names are present. */
  lemma JoinedSummaryParts(s: string, i: string, n: string)
    ensures
      var parts :=
        (if s != [] then ["subject_cn=" + s] else []) +
        (if i != [] then ["issuer_cn=" + i] else []) +
        [n];
      Join(parts, ", ") ==
        if s != [] && i != [] then "subject_cn=" + s + ", " + "issuer_cn=" + i + ", " + n
        else if s != [] then "subject_cn=" + s + ", " + n
        else if i != [] then "issuer_cn=" + i + ", " + n
        else n
  {
    var ps: seq<string> := if s != [] then ["subject_cn=" + s] else [];
    var pi: seq<string> := if i != [] then ["issuer_cn=" + i] else [];
    var parts := ps + pi + [n];
    if s != [] && i != [] {
      assert parts == ["subject_cn=" + s, "issuer_cn=" + i, n];
      assert parts[1..] == ["issuer_cn=" + i, n];
      assert parts[1..][1..] == [n];
      assert Join(parts[1..], ", ") == "issuer_cn=" + i + ", " + n;
    } else if s != [] {
      assert parts == ["subject_cn=" + s, n];
      assert parts[1..] == [n];
    } else if i != [] {
      assert parts == ["issuer_cn=" + i, n];
      assert parts[1..] == [n];
    } else {
      assert parts == [n];
    }
  }

  /** `tls_probe`: `None` when the handshake did not complete (connector
      error, failure or timeout); otherwise the "https" label, with a
      banner when the peer's certificate could be summarised. */
  function TlsProbe(handshakeOk: bool, cert: Option<CertFields>): (r: Option<Label>)
    ensures r.Some? <==> handshakeOk
    ensures r.Some? ==> r.value.service == Some("https")
    ensures r.Some? ==> (r.value.banner.Some? <==> cert.Some?)
    ensures r.Some? && cert.Some? ==> r.value.banner == Some("TLS: " + CertSummary(cert.value))
  {
    if !handshakeOk then None
    else
      var banner := if cert.Some? then Some("TLS: " + CertSummary(cert.value)) else None;
      Some(Label(Some("https"), banner))
  }

  // ---------------------------------------------------------------------
  // Probing order

  /** What the connection yields to each probe that may run on it. */
  datatype Replies = Replies(
    passive: string,            // bytes of the 200 ms passive read
    sshRead: string,            // bytes of the second read on port 22
    httpWriteTimedOut: bool,    // the GET request did not go out in time
    httpResponse: string,       // what the HTTP reads collected
    redisWriteTimedOut: bool,   // the PING did not go out in time
    redisReply: string,         // bytes read after PING
    tlsHandshakeOk: bool,       // the TLS handshake completed in time
    cert: Option<CertFields>)   // the parsed leaf certificate, if any

  /** `probe_protocol`: HTTP on the HTTP ports, Redis PING on 6379 when
      enabled, nothing elsewhere. */
  function ProbeProtocol(port: nat, probeRedis: bool, rp: Replies): (r: Option<string>)
    ensures IsHttpPort(port) ==> r == ProbeHttp(rp.httpWriteTimedOut, rp.httpResponse)
    ensures !IsHttpPort(port) && r.Some? ==> probeRedis && port == 6379
    ensures !IsHttpPort(port) && r.Some? ==> HasNoLineBreak(r.value)
  {
    if IsHttpPort(port) then ProbeHttp(rp.httpWriteTimedOut, rp.httpResponse)
    else if probeRedis && port == 6379 then ProbeRedisPing(rp.redisWriteTimedOut, rp.redisReply)
    else None
  }

  /** The banner of a non-TLS port before the active probes: the passive
      read, replaced on port 22 by an accepted SSH line. */
  function PreProbeBanner(port: nat, rp: Replies): (r: Option<string>)
    ensures r.None? <==> |rp.passive| == 0 && (port != 22 || ProbeSsh(rp.sshRead).None?)
    ensures r.Some? ==> HasNoLineBreak(r.value)
  {
    var b := ReadBanner(rp.passive);
    if port == 22 && ProbeSsh(rp.sshRead).Some? then ProbeSsh(rp.sshRead) else b
  }

  /** The fingerprint of one open port (the branch on `is_tls_port` in the
      scanning task). */
  function Identify(port: nat, probeRedis: bool, rp: Replies): (r: Label)
    ensures IsTlsPort(port) ==> r.service == Some("https")
    ensures IsTlsPort(port) ==> (r.banner.Some? <==> rp.tlsHandshakeOk && rp.cert.Some?)
    ensures !IsTlsPort(port) ==> r.service == GuessService(port, r.banner)
  {
    if IsTlsPort(port) then
      match TlsProbe(rp.tlsHandshakeOk, rp.cert)
      case Some(l) => l
      case None => Label(Some("https"), None)
    else
      var b := PreProbeBanner(port, rp);
      var b' := if b.None? then ProbeProtocol(port, probeRedis, rp) else b;
      Label(GuessService(port, b'), b')
  }

  /** On a TLS port the banner is exactly the certificate summary. */
  lemma IdentifyTls(port: nat, probeRedis: bool, rp: Replies)
    requires IsTlsPort(port) && rp.tlsHandshakeOk && rp.cert.Some?
    ensures Identify(port, probeRedis, rp) == Label(Some("https"), Some("TLS: " + CertSummary(rp.cert.value)))
  {
  }

  /** Away from the HTTP and TLS ports every banner has its line breaks
      escaped. */
  lemma IdentifyEscaped(port: nat, probeRedis: bool, rp: Replies)
    requires !IsTlsPort(port) && !IsHttpPort(port)
    ensures Identify(port, probeRedis, rp).banner.Some? ==> HasNoLineBreak(Identify(port, probeRedis, rp).banner.value)
  {
  }

  /** A passive banner on a port other than 22 wins: no active probe
      runs. */
  lemma IdentifyPassiveFirst(port: nat, probeRedis: bool, rp: Replies)
    requires !IsTlsPort(port) && port != 22 && |rp.passive| > 0
    ensures Identify(port, probeRedis, rp).banner == ReadBanner(rp.passive)
  {
  }

  /** On port 22 an accepted SSH line replaces whatever the passive read
      found. */
  lemma IdentifySshOverrides(probeRedis: bool, rp: Replies)
    requires |rp.sshRead| > 0 && SshGreeting(rp.sshRead)
    ensures Identify(22, probeRedis, rp).banner == ProbeSsh(rp.sshRead)
  {
  }

  /** With nothing read passively, an HTTP port's banner is the HTTP
      probe's. */
  lemma IdentifyHttpProbe(port: nat, probeRedis: bool, rp: Replies)
    requires IsHttpPort(port) && |rp.passive| == 0
    ensures Identify(port, probeRedis, rp).banner == ProbeHttp(rp.httpWriteTimedOut, rp.httpResponse)
  {
    assert !IsTlsPort(port);
  }

  /** The Redis probe matters only on port 6379, only when enabled, and
      only when nothing was read before it. */
  lemma IdentifyRedisGuarded(port: nat, probeRedis: bool, rp: Replies, timedOut: bool, reply: string)
    requires !(probeRedis && port == 6379) || |rp.passive| > 0
    ensures Identify(port, probeRedis, rp) ==
            Identify(port, probeRedis, rp.(redisWriteTimedOut := timedOut, redisReply := reply))
  {
  }

  /** A banner whose first signature is Redis's names Redis. */
  lemma RedisBanner(port: nat, banner: string)
    requires Contains(Lower(banner), "redis")
    requires !StartsWith(Lower(banner), "http/")
    requires !Contains(Lower(banner), "ssh-") && !Contains(Lower(banner), "http/1.")
    requires !Contains(Lower(banner), "server:") && !Contains(Lower(banner), "smtp")
    ensures GuessService(port, Some(banner)) == Some("redis")
  {
  }

  /** In "redis pong" the first signature that occurs is Redis's. */
  lemma PongSignatures(lb: string)
    requires lb == "redis pong"
    ensures Contains(lb, "redis") && !StartsWith(lb, "http/")
    ensures !Contains(lb, "ssh-") && !Contains(lb, "http/1.")
    ensures !Contains(lb, "server:") && !Contains(lb, "smtp")
  {
    assert MatchesAt(lb, "redis", 0);
    CharAbsent(lb, "ssh-", 3);
    CharAbsent(lb, "http/1.", 0);
    CharAbsent(lb, "server:", 6);
    CharAbsent(lb, "smtp", 1);
  }

  /** "redis PONG" names Redis: no earlier signature occurs in it. */
  lemma RedisPongIsRedis(port: nat)
    ensures GuessService(port, Some(PongBanner)) == Some("redis")
  {
    assert Lower(PongBanner) == "redis pong";
    PongSignatures(Lower(PongBanner));
    RedisBanner(port, PongBanner);
  }

  /** On 6379 with the Redis probe enabled and nothing read passively, a
      "+PONG" reply gives the label redis with banner "redis PONG". */
  lemma IdentifyRedisPong(rp: Replies)
    requires |rp.passive| == 0 && !rp.redisWriteTimedOut && StartsWith(rp.redisReply, "+PONG")
    ensures Identify(6379, true, rp) == Label(Some("redis"), Some(PongBanner))
  {
    assert !IsTlsPort(6379) && !IsHttpPort(6379);
    RedisPongIsRedis(6379);
  }

  /** The bare "HTTP" banner carries no signature, so the port table names
      the service; on an HTTP port that is "http". */
  lemma BareHttpIsHttp(port: nat)
    requires IsHttpPort(port)
    ensures GuessService(port, Some("HTTP")) == Some("http")
  {
    var lb := Lower("HTTP");
    assert lb == "http";
    forall j | 0 <= j
      ensures !MatchesAt(lb, "ssh-", j) && !MatchesAt(lb, "smtp", j) && !MatchesAt(lb, "mqtt", j)
    {
      if j == 0 {
        assert lb[0] != 's' && lb[0] != 'm';
      }
    }
    HttpPortsAreHttp(port);
  }

  /** An HTTP port that answers the GET with neither a `Server` header nor a
      title is labelled http with the banner "HTTP". */
  lemma IdentifyBareHttp(port: nat, probeRedis: bool, rp: Replies)
    requires IsHttpPort(port) && |rp.passive| == 0
    requires !rp.httpWriteTimedOut && |rp.httpResponse| > 0
    requires ExtractHeader(rp.httpResponse, "server").None? && ExtractHtmlTitle(rp.httpResponse).None?
    ensures Identify(port, probeRedis, rp) == Label(Some("http"), Some("HTTP"))
  {
    IdentifyHttpProbe(port, probeRedis, rp);
    BareHttpIsHttp(port);
  }

  // ---------------------------------------------------------------------
  // The fingerprint as written: the title cut may panic

  /** `probe_protocol` with the byte-index title cut of the code: on an HTTP
      port it panics exactly when the HTTP probe does, and otherwise it
      returns what the corrected probe returns. */
  function ProbeProtocolAsWritten(port: nat, probeRedis: bool, rp: Replies): (r: Completion<Option<string>>)
    ensures r.Panic? <==> IsHttpPort(port) && !rp.httpWriteTimedOut && |rp.httpResponse| > 0 && TitleCutPanics(rp.httpResponse)
    ensures r.Returned? ==> r.value == ProbeProtocol(port, probeRedis, rp)
  {
    if IsHttpPort(port) then ProbeHttpAsWritten(rp.httpWriteTimedOut, rp.httpResponse)
    else Returned(ProbeProtocol(port, probeRedis, rp))
  }

  /** The fingerprint of one open port as the scanning task computes it:
      it panics exactly when the HTTP probe runs (a non-TLS HTTP port with
      no banner before the probes) and the title cut panics; when it
      returns, the label is the corrected one. */
  function IdentifyAsWritten(port: nat, probeRedis: bool, rp: Replies): (r: Completion<Label>)
    ensures r.Panic? <==> !IsTlsPort(port) && PreProbeBanner(port, rp).None? && IsHttpPort(port)
                          && !rp.httpWriteTimedOut && |rp.httpResponse| > 0 && TitleCutPanics(rp.httpResponse)
    ensures r.Returned? ==> r.value == Identify(port, probeRedis, rp)
  {
    if IsTlsPort(port) then Returned(Identify(port, probeRedis, rp))
    else
      var b := PreProbeBanner(port, rp);
      if b.Some? then Returned(Label(GuessService(port, b), b))
      else
        match ProbeProtocolAsWritten(port, probeRedis, rp)
        case Panic => Panic
        case Returned(b') => Returned(Label(GuessService(port, b'), b'))
  }

  /** Port 80 with nothing read passively, answering the GET with a title of
      119 letters `a` and U+00E9: the fingerprint panics. */
  lemma IdentifyPanicExample(probeRedis: bool, rp: Replies)
    requires |rp.passive| == 0 && !rp.httpWriteTimedOut
    requires rp.httpResponse == OpenTag + TagEnd + (seq(119, _ => 'a') + ['\U{E9}']) + CloseTag
    ensures IdentifyAsWritten(80, probeRedis, rp) == Panic
  {
    assert TitleCutPanics(rp.httpResponse) by {
      TitleCutPanicExample();
    }
    assert !IsTlsPort(80) && IsHttpPort(80);
    assert PreProbeBanner(80, rp).None?;
  }
}

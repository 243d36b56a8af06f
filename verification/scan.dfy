/** The bookkeeping of a scan, run sequentially: every (target, port)
    unit is enumerated in order until cancellation is seen, each unit's
    outcome is an input, and the counters and the entry list are updated
    as the scanning tasks update them. */
module Scan {
  import opened Wrappers
  import opened Arith
  import opened Fingerprint
  import opened Probes
  import opened HttpProbe

  // ---------------------------------------------------------------------
  // Records

  /** One open port that was found. */
  datatype ScanEntry = ScanEntry(
    ip: string,
    port: nat,
    open: bool,
    latencyMs: nat,
    service: Option<string>,
    banner: Option<string>,
    timestamp: string)

  /** The progress counters and the entries of a scan. */
  datatype ScanResults = ScanResults(
    scannedTotal: nat,
    scannedDone: nat,
    openCount: nat,
    entries: seq<ScanEntry>)

  // ---------------------------------------------------------------------
  // Admission

  /** The semaphore never admits more units than this at once. */
  const MaxConcurrency: nat := 5000

  /** `concurrency.clamp(1, 5_000)`: the number of admission permits. */
  function ClampConcurrency(c: nat): (r: nat)
    ensures 1 <= r <= MaxConcurrency
    ensures 1 <= c <= MaxConcurrency ==> r == c
    ensures c == 0 ==> r == 1
    ensures c > MaxConcurrency ==> r == MaxConcurrency
  {
    if c < 1 then 1 else if c > MaxConcurrency then MaxConcurrency else c
  }

  /** Clamping keeps the order of requests and changes nothing in range. */
  lemma ClampMonotone(a: nat, b: nat)
    requires a <= b
    ensures ClampConcurrency(a) <= ClampConcurrency(b)
    ensures ClampConcurrency(ClampConcurrency(a)) == ClampConcurrency(a)
  {
  }

  // ---------------------------------------------------------------------
  // Units and their outcomes

  /** What became of one unit once admitted: it saw the scan cancelled
      when it started, its connect failed (refused, unreachable or timed
      out), or it connected after `latencyMs` and the connection answered
      the probes with `replies`; `timestamp` is the clock reading stored
      in the entry. */
  datatype Run =
    | Skipped
    | Unreachable
    | Connected(latencyMs: nat, timestamp: string, replies: Replies)

  /** The target of unit `k`: units run over the ports of each target in
      turn. */
  function UnitTarget(targets: seq<string>, ports: seq<nat>, k: nat): (r: string)
    requires k < |targets| * |ports|
    ensures r in targets
  {
    QuotientBelow(k, |ports|, |targets|);
    targets[k / |ports|]
  }

  function UnitPort(ports: seq<nat>, k: nat): (r: nat)
    requires |ports| > 0
    ensures r in ports
  {
    ports[k % |ports|]
  }

  /** How an open port is fingerprinted: a label from the port and what
      the connection answered, unless the fingerprinting panics. */
  type Fingerprinter = (nat, Replies) -> Completion<Label>

  /** The scanner's fingerprinting as written, with the Redis probe on or
      off: the title cut of the HTTP probe may panic. */
  function IdentifyAsWrittenWith(probeRedis: bool): Fingerprinter
  {
    (port: nat, rp: Replies) => IdentifyAsWritten(port, probeRedis, rp)
  }

  /** The scanner's fingerprinting with the corrected title cut: it never
      panics. */
  function IdentifyWith(probeRedis: bool): Fingerprinter
  {
    (port: nat, rp: Replies) => Returned(Identify(port, probeRedis, rp))
  }

  /** The entry a connected unit contributes. */
  function EntryOf(ip: string, port: nat, l: Label, latencyMs: nat, timestamp: string): ScanEntry
  {
    ScanEntry(ip, port, true, latencyMs, l.service, l.banner, timestamp)
  }

  /** The unit connected and its fingerprinting returned a label. */
  predicate Opens(port: nat, fp: Fingerprinter, run: Run)
  {
    run.Connected? && fp(port, run.replies).Returned?
  }

  /** The unit reached the end of its task: it did not see the
      cancellation, and if it connected, its fingerprinting returned. */
  predicate Finishes(port: nat, fp: Fingerprinter, run: Run)
  {
    run.Unreachable? || Opens(port, fp, run)
  }

  /** One unit: a skipped unit changes nothing, and neither does one whose
      fingerprinting panics, since the panic ends its task before any
      counter moves; a failed connect bumps the done counter; a connected
      unit that is fingerprinted also records its entry and bumps the open
      counter. */
  function Record(res: ScanResults, ip: string, port: nat, fp: Fingerprinter, run: Run): (r: ScanResults)
    ensures r.scannedTotal == res.scannedTotal
    ensures !Finishes(port, fp, run) ==> r == res
    ensures Finishes(port, fp, run) ==> r.scannedDone == res.scannedDone + 1
    ensures Opens(port, fp, run) ==>
              r.openCount == res.openCount + 1 &&
              r.entries == res.entries + [EntryOf(ip, port, fp(port, run.replies).value, run.latencyMs, run.timestamp)]
    ensures !Opens(port, fp, run) ==> r.openCount == res.openCount && r.entries == res.entries
  {
    match run
    case Skipped => res
    case Unreachable => res.(scannedDone := res.scannedDone + 1)
    case Connected(latency, stamp, rp) =>
      match fp(port, rp)
      case Panic => res
      case Returned(l) =>
        ScanResults(res.scannedTotal, res.scannedDone + 1, res.openCount + 1,
                    res.entries + [EntryOf(ip, port, l, latency, stamp)])
  }

  /** The results once the first `n` units have finished. */
  function ScanUnits(targets: seq<string>, ports: seq<nat>, fp: Fingerprinter, run: nat -> Run, n: nat): (r: ScanResults)
    requires n <= |targets| * |ports|
    ensures r.scannedTotal == |targets| * |ports|
    ensures r.openCount == |r.entries| <= r.scannedDone <= n
    ensures forall e :: e in r.entries ==> e.open && e.ip in targets && e.port in ports
    decreases n
  {
    if n == 0 then ScanResults(|targets| * |ports|, 0, 0, [])
    else
      var k := n - 1;
      var prev := ScanUnits(targets, ports, fp, run, k);
      Record(prev, UnitTarget(targets, ports, k), UnitPort(ports, k), fp, run(k))
  }

  function Min(a: nat, b: nat): nat
  {
    if a <= b then a else b
  }

  /** Unit `i·|ports| + j` is target `i` at port `j`, and finishing it
      extends the results by one step. */
  lemma ScanStep(targets: seq<string>, ports: seq<nat>, fp: Fingerprinter, run: nat -> Run, i: nat, j: nat, k: nat)
    requires i < |targets| && j < |ports| && k == i * |ports| + j
    ensures k < |targets| * |ports|
    ensures ScanUnits(targets, ports, fp, run, k + 1) == Record(ScanUnits(targets, ports, fp, run, k), targets[i], ports[j], fp, run(k))
  {
    var p := |ports|;
    RowBound(|targets|, p, i);
    DivUnique(k, p, i, j);
    assert UnitTarget(targets, ports, k) == targets[i];
    assert UnitPort(ports, k) == ports[j];
    assert ScanUnits(targets, ports, fp, run, k + 1) ==
           Record(ScanUnits(targets, ports, fp, run, k), UnitTarget(targets, ports, k), UnitPort(ports, k), fp, run(k));
  }

  /** The rows of units fit in the unit count. */
  lemma RowBound(t: nat, p: nat, i: nat)
    requires i < t
    ensures (i + 1) * p == i * p + p <= t * p
  {
    MulMonotone(p, i + 1, t);
  }

  /** `scan_targets_internal`, with one unit run at a time. Cancellation is
      first seen by the check made before unit `cancelFrom` (a value of at
      least |targets|·|ports| means the enumeration never sees it); since
      the token is never reset, every later check sees it too. */
  method ScanTargets(targets: seq<string>, ports: seq<nat>, fp: Fingerprinter, cancelFrom: nat, run: nat -> Run)
    returns (res: ScanResults)
    ensures res == ScanUnits(targets, ports, fp, run, Min(cancelFrom, |targets| * |ports|))
    ensures res.scannedTotal == |targets| * |ports|
    ensures res.openCount == |res.entries| <= res.scannedDone <= res.scannedTotal
    ensures res.scannedDone <= cancelFrom
    ensures forall e :: e in res.entries ==> e.open
    ensures cancelFrom >= |targets| * |ports| ==>
              (res.scannedDone == res.scannedTotal <==> forall k :: 0 <= k < |targets| * |ports| ==> UnitFinishes(ports, fp, run, k))
  {
    var p := |ports|;
    res := ScanResults(|targets| * p, 0, 0, []);
    var k := 0;
    var i := 0;
    while i < |targets|
      invariant 0 <= i <= |targets|
      invariant k == Min(cancelFrom, i * p)
      invariant k <= |targets| * p
      invariant res == ScanUnits(targets, ports, fp, run, k)
    {
      if k >= cancelFrom {
        break;
      }
      res, k := ScanRow(targets, ports, fp, cancelFrom, run, i, res);
      RowBound(|targets|, p, i);
      i := i + 1;
    }
    CompleteScan(targets, ports, fp, run, k);
  }

  /** The units of target `i`, one port after another, stopping at the
      first check that sees the cancellation; `k` is the number of units
      finished so far. */
  method ScanRow(targets: seq<string>, ports: seq<nat>, fp: Fingerprinter, cancelFrom: nat, run: nat -> Run,
                 i: nat, res0: ScanResults)
    returns (res: ScanResults, k: nat)
    requires i < |targets| && i * |ports| < cancelFrom
    requires res0 == ScanUnits(targets, ports, fp, run, i * |ports|)
    ensures k == Min(cancelFrom, (i + 1) * |ports|) && k <= |targets| * |ports|
    ensures res == ScanUnits(targets, ports, fp, run, k)
  {
    var p := |ports|;
    RowBound(|targets|, p, i);
    res, k := res0, i * p;
    var j := 0;
    while j < p
      invariant 0 <= j <= p
      invariant k == i * p + j && k <= cancelFrom && k <= |targets| * p
      invariant res == ScanUnits(targets, ports, fp, run, k)
    {
      if k >= cancelFrom {
        break;
      }
      ScanStep(targets, ports, fp, run, i, j, k);
      res := Record(res, targets[i], ports[j], fp, run(k));
      k := k + 1;
      j := j + 1;
    }
  }

  // ---------------------------------------------------------------------
  // Properties of the bookkeeping

  /** Unit `k` reaches the end of its task. */
  predicate UnitFinishes(ports: seq<nat>, fp: Fingerprinter, run: nat -> Run, k: nat)
  {
    |ports| > 0 && Finishes(UnitPort(ports, k), fp, run(k))
  }

  /** Unit `k` connects and is fingerprinted. */
  predicate UnitOpens(ports: seq<nat>, fp: Fingerprinter, run: nat -> Run, k: nat)
  {
    |ports| > 0 && Opens(UnitPort(ports, k), fp, run(k))
  }

  /** Units among the first `n` that reach the end of their task. */
  function Attempted(ports: seq<nat>, fp: Fingerprinter, run: nat -> Run, n: nat): nat
  {
    if n == 0 then 0 else Attempted(ports, fp, run, n - 1) + (if UnitFinishes(ports, fp, run, n - 1) then 1 else 0)
  }

  /** Units among the first `n` that connect and are fingerprinted. */
  function Connections(ports: seq<nat>, fp: Fingerprinter, run: nat -> Run, n: nat): nat
  {
    if n == 0 then 0 else Connections(ports, fp, run, n - 1) + (if UnitOpens(ports, fp, run, n - 1) then 1 else 0)
  }

  /** The counters count exactly the units that finish and the units that
      are fingerprinted. */
  lemma {:induction false} CountersCount(targets: seq<string>, ports: seq<nat>, fp: Fingerprinter, run: nat -> Run, n: nat)
    requires n <= |targets| * |ports|
    ensures ScanUnits(targets, ports, fp, run, n).scannedDone == Attempted(ports, fp, run, n)
    ensures ScanUnits(targets, ports, fp, run, n).openCount == Connections(ports, fp, run, n)
  {
    if n > 0 {
      CountersCount(targets, ports, fp, run, n - 1);
    }
  }

  /** Every unit is counted as done exactly when every unit finishes: no
      unit sees the cancellation and no fingerprinting panics. */
  lemma CompleteScan(targets: seq<string>, ports: seq<nat>, fp: Fingerprinter, run: nat -> Run, n: nat)
    requires n <= |targets| * |ports|
    ensures ScanUnits(targets, ports, fp, run, n).scannedDone == n <==> forall k :: 0 <= k < n ==> UnitFinishes(ports, fp, run, k)
  {
    CountersCount(targets, ports, fp, run, n);
    AttemptedAll(ports, fp, run, n);
  }

  /** At most `n` of the first `n` units finish, and all of them exactly
      when each one does. */
  lemma {:induction false} AttemptedAll(ports: seq<nat>, fp: Fingerprinter, run: nat -> Run, n: nat)
    ensures Attempted(ports, fp, run, n) <= n
    ensures Attempted(ports, fp, run, n) == n <==> forall k :: 0 <= k < n ==> UnitFinishes(ports, fp, run, k)
  {
    if n > 0 {
      AttemptedAll(ports, fp, run, n - 1);
    }
  }

  /** With the corrected fingerprinting, a scan that no cancellation
      reaches counts every unit as done. */
  lemma CompleteCorrectedScan(targets: seq<string>, ports: seq<nat>, probeRedis: bool, run: nat -> Run, n: nat)
    requires n <= |targets| * |ports|
    requires forall k :: 0 <= k < n ==> !run(k).Skipped?
    ensures ScanUnits(targets, ports, IdentifyWith(probeRedis), run, n).scannedDone == n
  {
    var fp := IdentifyWith(probeRedis);
    forall k | 0 <= k < n ensures UnitFinishes(ports, fp, run, k) {
      assert |ports| > 0;
      if run(k).Connected? {
        assert fp(UnitPort(ports, k), run(k).replies).Returned?;
      }
    }
    CompleteScan(targets, ports, fp, run, n);
  }

  /** With the fingerprinting as written, a connected unit whose title cut
      panics leaves the results as they were, so the scan never counts
      every unit as done. */
  lemma PanicLosesUnit(targets: seq<string>, ports: seq<nat>, probeRedis: bool, run: nat -> Run, k: nat)
    requires k < |targets| * |ports|
    requires run(k).Connected?
    requires IdentifyAsWritten(UnitPort(ports, k), probeRedis, run(k).replies).Panic?
    ensures ScanUnits(targets, ports, IdentifyAsWrittenWith(probeRedis), run, k + 1) ==
            ScanUnits(targets, ports, IdentifyAsWrittenWith(probeRedis), run, k)
    ensures ScanUnits(targets, ports, IdentifyAsWrittenWith(probeRedis), run, |targets| * |ports|).scannedDone
            < |targets| * |ports|
  {
    var fp := IdentifyAsWrittenWith(probeRedis);
    assert !UnitFinishes(ports, fp, run, k);
    CompleteScan(targets, ports, fp, run, |targets| * |ports|);
  }

  /** Every entry comes from a unit that connected and was fingerprinted,
      and carries that unit's address, port, latency, timestamp and
      label. */
  lemma {:induction false} EntriesFromConnections(targets: seq<string>, ports: seq<nat>, fp: Fingerprinter, run: nat -> Run, n: nat)
    requires n <= |targets| * |ports|
    ensures forall e :: e in ScanUnits(targets, ports, fp, run, n).entries ==>
              exists k :: 0 <= k < n && UnitOpens(ports, fp, run, k) &&
                e == EntryOf(UnitTarget(targets, ports, k), UnitPort(ports, k),
                             fp(UnitPort(ports, k), run(k).replies).value, run(k).latencyMs, run(k).timestamp)
  {
    if n > 0 {
      EntriesFromConnections(targets, ports, fp, run, n - 1);
    }
  }

  /** With the scanner's fingerprinting, every entry on a TLS port is
      labelled "https" and every other entry is labelled from its own
      banner and port. */
  lemma EntriesLabelled(targets: seq<string>, ports: seq<nat>, probeRedis: bool, run: nat -> Run, n: nat)
    requires n <= |targets| * |ports|
    ensures forall e :: e in ScanUnits(targets, ports, IdentifyAsWrittenWith(probeRedis), run, n).entries ==>
              (IsTlsPort(e.port) ==> e.service == Some("https")) &&
              (!IsTlsPort(e.port) ==> e.service == GuessService(e.port, e.banner))
  {
    var fp := IdentifyAsWrittenWith(probeRedis);
    EntriesFromConnections(targets, ports, fp, run, n);
    forall e | e in ScanUnits(targets, ports, fp, run, n).entries
      ensures (IsTlsPort(e.port) ==> e.service == Some("https"))
      ensures (!IsTlsPort(e.port) ==> e.service == GuessService(e.port, e.banner))
    {
      var k :| 0 <= k < n && UnitOpens(ports, fp, run, k) &&
               e == EntryOf(UnitTarget(targets, ports, k), UnitPort(ports, k),
                            fp(UnitPort(ports, k), run(k).replies).value, run(k).latencyMs, run(k).timestamp);
      var l := Identify(e.port, probeRedis, run(k).replies);
      assert e.service == l.service && e.banner == l.banner;
    }
  }

  /** One target scanned on port 80, where the only unit connects, reads
      nothing passively and gets a page whose title is 119 letters `a` and
      U+00E9: the scan ends with one unit to do and none done, and no
      entry. */
  lemma StalledScanExample(probeRedis: bool, run: nat -> Run)
    requires run(0).Connected? && |run(0).replies.passive| == 0 && !run(0).replies.httpWriteTimedOut
    requires run(0).replies.httpResponse == OpenTag + TagEnd + (seq(119, _ => 'a') + ['\U{E9}']) + CloseTag
    ensures ScanUnits(["192.168.1.10"], [80], IdentifyAsWrittenWith(probeRedis), run, 1) ==
            ScanResults(1, 0, 0, [])
  {
    IdentifyPanicExample(probeRedis, run(0).replies);
    assert UnitPort([80], 0) == 80;
    PanicLosesUnit(["192.168.1.10"], [80], probeRedis, run, 0);
  }
}

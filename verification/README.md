# lan-scan-rs core, modelled in Dafny

lan-scan-rs scans a local network for open TCP ports. This project models
the parts of it that decide what gets scanned and what a scan reports.

- **Ports lists** (`src/ports.rs`): parsing a ports file line by line.
  - Comments start at `#`, and surrounding whitespace is dropped.
  - A line is a single port or an inclusive `a-b` range.
  - Every value must lie in 1..=65535, and a reversed range is an error.
  - Repeats are dropped, keeping each port's first-seen order.
  - Also covered: the default and quick lists, and the fallback to the
    default list.
- **Networks** (`src/netdetect.rs`):
  - the /24 network derived from an interface address;
  - the expansion of an IPv4 network into its host addresses, network and
    broadcast excluded;
  - the post-processing of the local interfaces: loopback skipped,
    duplicates merged, networks sorted by address.
- **Fingerprinting** (`src/scanner.rs`):
  - the TLS and HTTP port sets;
  - `guess_service`, with its ordered banner signatures and its port table;
  - the passive banner read and its line-break escaping;
  - the SSH greeting check and the Redis `PING` reply;
  - the HTTP banner, built from the `Server` header and the HTML `<title>`;
  - the TLS certificate summary;
  - the per-port dispatch that combines them.
- **Scan bookkeeping** (`src/scanner.rs`, `src/types.rs`): the enumeration
  of (target, port) units.
  - Cancellation stops new units, and a unit that sees the scan cancelled
    adds nothing.
  - The done and open counters are kept, and an entry is recorded for each
    open port.
  - The concurrency limit is clamped to 1..=5000.

Network replies are inputs here. What a connection answered to the passive
read, the SSH read, the HTTP request, the Redis `PING` and the TLS
handshake is a `Probes.Replies` value. Whether a unit connected is a
`Scan.Run` value. Integers are unbounded. Where the source's fixed width
matters, the wrap-around is written out: `u32` for `parse::<u32>` and for
the host expansion.

Modules:

| module | file | models |
|---|---|---|
| Wrappers | wrappers.dfy | `Option`, `Result` |
| Text | text.dfy | Rust `str` helpers: `lines`, `trim`, `split_once`, `find`, ASCII lower-casing, `replace` for line breaks, `enumerate` numbering from 1 |
| Seqs | seqs.dfy | first-seen de-duplication, which is the source's `Vec` plus `HashSet` |
| Arith | arith.dfy | division facts used for unit numbering and network bounds |
| Ports | ports.dfy | `src/ports.rs` |
| PortsExamples | ports_examples.dfy | the ports-list unit tests, for arbitrary port numbers |
| NetDetect | netdetect.dfy | `src/netdetect.rs` |
| NetDetectExamples | netdetect_examples.dfy | the network unit tests |
| Fingerprint | fingerprint.dfy | `is_tls_port`, `is_http_port`, `guess_service` |
| HttpProbe | http_probe.dfy | `extract_header`, `extract_html_title`, `probe_http` |
| Probes | probes.dfy | `read_banner`, `probe_ssh`, `probe_redis_ping`, `format_cert_summary`, `tls_probe`, `probe_protocol`, the dispatch |
| Scan | scan.dfy | `scan_targets_internal`, `ScanEntry`, `ScanResults` |

Three points where the code does something easy to misread, and what the
model does about them:

- **The SSH read on port 22.** The code runs the SSH read on port 22
  whenever a connection is made, after the passive read, and an accepted
  greeting replaces the passive banner (`src/scanner.rs:197-199`).
  `Probes.IdentifySshOverrides` states this.
- **The `service` field.** `ScanEntry` in `src/types.rs` has no `service`
  field, but the scanner builds entries with one (`src/scanner.rs:209-217`).
  The model's `Scan.ScanEntry` follows the scanner.
- **The title limit.** `truncate(120)` counts UTF-8 bytes, and it panics
  when byte 120 is not a character boundary (`src/scanner.rs:386`). The
  panic ends the unit's task before the open counter, the entry list and
  the done counter are touched (`src/scanner.rs:208-226`), and
  `join_next` discards it (`src/scanner.rs:231`). The model keeps the code
  as written (`Probes.IdentifyAsWritten`, a fingerprinting that can
  return `Panic`) next to a corrected byte cut (`Probes.Identify`). The
  scan is stated for any fingerprinting, so its lemmas cover both. Both
  consequences are listed under Findings.

## Model

| member | source | states |
|---|---|---|
| Ports.ParsePortStr | src/ports.rs:98-104 | an accepted value is a port in 1..=65535 |
| Ports.ParseU32 | src/ports.rs:99 | a value `parse::<u32>` accepts is at most 2^32-1 |
| Ports.DecimalRoundTrip | src/ports.rs:99 | reading the decimal text of any number gives the number back |
| Ports.ParsePortRoundTrip | src/ports.rs:98-104 | the decimal text of every port, with or without a leading `+`, parses back to that port |
| Ports.ParsePortRejectsOutOfRange | src/ports.rs:100-102 | 0 and every number above 65535 are rejected, as out of range when they fit a `u32` |
| Ports.ParseContent | src/ports.rs:20-46 | a line's outcome is a valid spec (ports in range, range ordered), blank exactly when the content is empty, and an error carries that line's number |
| Ports.ParseLines | src/ports.rs:16-17 | there is one outcome per line of the text |
| PortsExamples.ParseLinesAt | src/ports.rs:16-17 | line k of the text, counting from 0, is parsed with line number k+1 |
| Ports.ParsePortsStr | src/ports.rs:12-50 | the loop with its `seen` set computes the reference meaning: the first bad line's error, otherwise the listed ports de-duplicated in first-seen order |
| Ports.RangeContribution | src/ports.rs:33-37 | a range `a-b` lists exactly the ports a..=b, ascending, b-a+1 of them |
| Ports.FirstErrorIsFirstBadLine | src/ports.rs:26-31 | the error reported is the error of the first failing line, and there is none exactly when every line parses |
| Ports.ParsePortsErrorIff | src/ports.rs:12-50 | a text is rejected if and only if one of its lines is, and the error is the first such line's error |
| Ports.ParsedPortsValid | src/ports.rs:5-12 | every returned port is in 1..=65535 and none is repeated |
| Ports.ParsedPortsAreUnion | src/ports.rs:33-46 | a port is returned if and only if some line names it or a range covering it |
| Ports.ParsedPortsFirstSeenOrder | src/ports.rs:33-46 | the returned ports are ordered by their first mention in the text |
| Ports.CommentIgnored | src/ports.rs:19 | anything after the first `#` does not change a line's outcome |
| Ports.PaddingIgnored | src/ports.rs:19 | whitespace around a line's content does not change its outcome |
| Ports.BlankLineIff | src/ports.rs:19-22 | a line is skipped if and only if its text before `#` is all whitespace, and a skipped line contributes no port |
| Ports.ParseLineOfRange | src/ports.rs:25-39 | the text `a-b` of two ports is the range a..=b when a <= b, and the reversed-range error naming both bounds otherwise |
| Ports.DefaultPorts | src/ports.rs:69-86 | the default list is non-empty and every entry is a valid port |
| Ports.DefaultPortsContents | src/ports.rs:69-86 | the default list has 144 entries, among them 80 and 443 |
| Ports.QuickPorts | src/ports.rs:89-96 | the quick list is non-empty and every entry is a valid port |
| Ports.QuickPortsContents | src/ports.rs:89-96 | the quick list has 48 entries, among them 80 and 443 |
| Ports.LoadPortsOrDefault | src/ports.rs:60-65 | the result is non-empty and valid; a missing or unparsable file, or an empty list, gives the default list; a non-empty parsed list is returned as parsed |
| PortsExamples.ExampleReversedRange | src/ports.rs:30-32 | a one-line file `a-b` with b < a is rejected as a reversed range on line 1 |
| PortsExamples.ExampleOutOfRange | tests/ports_tests.rs:21-25 | a one-line file holding 0 or a number above 65535 (such as 70000) is rejected as an out-of-range port on line 1 |
| PortsExamples.ExamplePaddedPort | src/ports.rs:111-115 | a port padded with spaces reads as that port |
| PortsExamples.ExampleRangeThenDuplicate | src/ports.rs:117-122 | a range, a port outside it, then a port inside it gives the range followed by the outside port |
| PortsExamples.ThreeLineFile | src/ports.rs:16-46 | a text of three plain lines has the outcome of its three lines' results, numbered 1 to 3 |
| PortsExamples.ExampleSinglePortsFile | src/ports.rs:111-115 | the text of three distinct ports on their own lines, the third padded with spaces, gives those ports in order |
| PortsExamples.ExampleSinglePortsText | src/ports.rs:111-115 | the text "80\n22\n   443  \n" gives [80, 22, 443] |
| PortsExamples.ExampleRangeFile | src/ports.rs:117-122 | the text of a range `a-b`, a port outside it and a port inside it gives the range followed by the outside port |
| PortsExamples.ExampleRangeText | src/ports.rs:117-122 | the text "8000-8002\n80\n8001\n" gives [8000, 8001, 8002, 80] |
| Seqs.DedupElements | src/ports.rs:33-37 | first-seen de-duplication keeps exactly the elements of its input |
| Seqs.DedupNoDuplicates | src/ports.rs:33-37 | first-seen de-duplication repeats nothing |
| Seqs.DedupFirstSeenOrder | src/ports.rs:33-37 | first-seen de-duplication orders elements by their first occurrence in the input |
| Text.SplitOnce | src/ports.rs:25 | `split_once` succeeds if and only if the separator occurs, and splits at its first occurrence |
| Text.TrimIsSlice | src/ports.rs:19 | `trim` returns a slice of its input, with whitespace only outside it and none at its ends |
| Text.LinesHaveNoLineFeed | src/ports.rs:16 | no line of `lines()` holds a line feed |
| Text.EscapeRemovesLineBreaks | src/scanner.rs:253 | after escaping, no line feed or carriage return is left |
| Text.EscapeIdentity | src/scanner.rs:253 | a text with no line break is left unchanged by escaping |
| Text.FindFrom | src/scanner.rs:376-384 | the match found is the first one at or after the start, and none means there is no match |
| Text.LowerTrim | src/scanner.rs:410-411 | ASCII lower-casing commutes with trimming |
| NetDetect.Network | src/netdetect.rs:55 | the network address is the aligned block start at or below the address |
| NetDetect.Broadcast | src/netdetect.rs:56 | the broadcast address is the last address of the block, 2^(32-prefix)-1 past the network address |
| NetDetect.ContainsIff | src/netdetect.rs:53-64 | an address lies in a network if and only if it falls in the same 2^(32-prefix) block |
| NetDetect.OctetsRoundTrip | src/netdetect.rs:48-49 | splitting an address into octets and joining them back gives the address |
| NetDetect.DefaultCidr | src/netdetect.rs:47-51 | the default network is a /24 whose first three octets are the address's, with the last octet 0, and it contains the address |
| NetDetect.DefaultCidrSameIff | src/netdetect.rs:47-51 | two addresses get the same default network if and only if their first three octets agree, and if and only if the first's network contains the second |
| NetDetect.DefaultCidrIdempotent | src/netdetect.rs:47-51 | deriving the default network from a default network's address gives that network again |
| NetDetect.ExpandHosts | src/netdetect.rs:53-64 | the hosts lie strictly between network and broadcast, 2^(32-prefix)-2 of them for prefixes up to /30 and none for /31 and /32 |
| NetDetect.ExpandHostsIff | src/netdetect.rs:53-64 | an address is listed if and only if it lies strictly between the network and broadcast addresses |
| NetDetect.ExpandHostsContiguous | src/netdetect.rs:61-63 | the hosts are ascending and consecutive, starting right after the network address |
| NetDetect.ExpandTinyNets | src/netdetect.rs:57-59 | /31 and /32 networks have no hosts |
| NetDetect.ExpandCidrToIps | src/netdetect.rs:36-44 | an IPv6 network gives nothing; an IPv4 network gives exactly its hosts as IPv4 addresses |
| NetDetect.ExpandHostsAsWritten | src/netdetect.rs:55-63 | with `u32` wrap-around on `start + 1`, the list's length is the distance from the wrapped successor to the broadcast address |
| NetDetect.AsWrittenAgrees | src/netdetect.rs:55-63 | below 255.255.255.255 the code as written lists exactly the hosts |
| NetDetect.AsWrittenOverflow | src/netdetect.rs:57 | for 255.255.255.255/32 the code as written lists 2^32-1 addresses, starting with 0.0.0.0 outside the network, where no host is meant |
| NetDetect.OnlyTopNetworkOverflows | src/netdetect.rs:57 | 255.255.255.255/32 is the only network whose network address is the last address |
| NetDetect.InsertNet | src/netdetect.rs:20 | inserting into the sorted set keeps it strictly sorted and adds exactly the new network |
| NetDetect.CollectCidrs | src/netdetect.rs:12-22 | the collected set is sorted and holds exactly the /24 networks of non-loopback IPv4 interfaces |
| NetDetect.DetectLocalCidrs | src/netdetect.rs:11-30 | the result holds only IPv4 /24 networks, exactly those of the non-loopback IPv4 interfaces, each once, ascending by (network, prefix) |
| NetDetect.DetectedNotLoopback | src/netdetect.rs:16-18 | no detected network is a loopback network |
| NetDetect.SortedUnique | src/netdetect.rs:23-28 | two strictly sorted lists with the same elements are equal, so the output does not depend on the set's iteration order |
| NetDetectExamples.ExampleDefaultCidr | tests/netdetect_tests.rs:5-9 | 192.168.42.99 gives "192.168.42.0/24" |
| NetDetectExamples.ExampleDefaultCidrSmall | src/netdetect.rs:70-74 | 10.1.2.3 gives "10.1.2.0/24" |
| NetDetectExamples.ExampleSlash30 | src/netdetect.rs:76-89 | 10.0.0.0/30 gives .1 and .2, and so does 192.168.1.0/30 through `expand_cidr_to_ips` |
| NetDetectExamples.ExampleDetect | src/netdetect.rs:11-30 | loopback and IPv6 interfaces are skipped, two addresses in one /24 give it once, and the networks come out ascending |
| Fingerprint.TlsPortsNamed | src/scanner.rs:455-500 | of the ports that get the TLS handshake, the port table names all but 9443, and names 443 and 8443 "https" |
| Fingerprint.HttpPortsAreHttp | src/scanner.rs:418-423 | every port that gets the HTTP request is labelled "http" by the port table |
| Fingerprint.FirstSignature | src/scanner.rs:427-453 | a service is found if and only if some signature matches, and then it is the first matching one |
| Fingerprint.SignatureTests | src/scanner.rs:429-452 | each row of the signature table tests exactly the substrings or prefix that the corresponding branch of `guess_service` tests |
| Fingerprint.GuessServiceIsTable | src/scanner.rs:425-500 | a banner's label is its first matching signature, falling back to the port table |
| Fingerprint.GuessServiceFallback | src/scanner.rs:454-500 | with no banner, or no signature matching, the label is the port table's |
| Fingerprint.GuessServicePriority | src/scanner.rs:427-453 | when signature k is the first to match, the label is signature k's service whatever the port |
| Fingerprint.GuessServiceIgnoresCase | src/scanner.rs:428 | the label is the same for a banner and its ASCII lower-case form |
| Fingerprint.SshBeforeHttp | src/scanner.rs:429-434 | a banner with "SSH-" and "HTTP/1." is labelled "ssh" |
| HttpProbe.HeaderValue | src/scanner.rs:364-366 | the value is the trimmed text after the line's first ':' |
| HttpProbe.HeaderIndexFirst | src/scanner.rs:363-370 | the line found is the first matching line with no blank line before it; none means every matching line comes after a blank line |
| HttpProbe.ExtractHeader | src/scanner.rs:361-372 | a value found is the trimmed value of the first matching header line before any blank line; none means no matching line precedes the first blank line |
| HttpProbe.HeaderValueShape | src/scanner.rs:363-366 | a header value holds no line feed and is already trimmed |
| HttpProbe.ExtractHeaderNameCase | src/scanner.rs:362-365 | header names that differ only in ASCII case find the same value |
| HttpProbe.BodyStart | src/scanner.rs:376 | the body starts just past the first blank-line separator, or at 0 when there is none |
| HttpProbe.TitleSpanShape | src/scanner.rs:379-384 | the span runs from the first "<title" in the body, past the first '>' after it, to the first "</title>" after that |
| HttpProbe.FindTitle | src/scanner.rs:377-384 | the searches on slices, as the code takes them, find the span described on the whole lower-cased text |
| HttpProbe.FindTitleComplete | src/scanner.rs:379-384 | a body holding "<title", then '>', then "</title>" always yields a span |
| HttpProbe.TitleSpanUnique | src/scanner.rs:376-384 | a span that starts at the first "<title" of the body, passes the first '>' after it and ends at the first "</title>" after that is the span the slice searches find |
| HttpProbe.TitleTextIff | src/scanner.rs:374-385 | a title text exists if and only if the lower-cased body holds "<title", a '>' after it and a "</title>" after that; it is the trimmed original-case text between the first such '>' and "</title>" |
| HttpProbe.TitleTagCaseInsensitive | src/scanner.rs:375 | responses equal up to ASCII case have a title in the same cases, with titles equal up to ASCII case |
| HttpProbe.Utf8LenAppend | src/scanner.rs:386 | the UTF-8 length of a concatenation is the sum of the lengths |
| HttpProbe.PrefixWithin | src/scanner.rs:386 | the longest prefix within n bytes fits, and one more character would not |
| HttpProbe.TruncateTitle | src/scanner.rs:386 | the corrected cut keeps at most 120 bytes, is a prefix of the title, changes nothing that fits, and is the longest such prefix |
| HttpProbe.TruncateTitleAsWritten | src/scanner.rs:386 | `truncate(120)` on a longer title either panics or keeps exactly 120 bytes |
| HttpProbe.TruncateAsWrittenAgrees | src/scanner.rs:386 | the code as written panics exactly when the title exceeds 120 bytes and byte 120 falls inside a character; otherwise it agrees with the corrected cut |
| HttpProbe.TruncatePanics | src/scanner.rs:386 | 119 ASCII characters followed by any multi-byte character panic |
| HttpProbe.TruncatePanicExample | src/scanner.rs:386 | 119 'a' followed by 'é' panics |
| HttpProbe.ExtractHtmlTitle | src/scanner.rs:374-388 | a title is returned if and only if a span is found; it is a prefix of the title text, at most 120 bytes, and the whole text when that fits |
| HttpProbe.ExtractHtmlTitleAsWritten | src/scanner.rs:374-388 | the code as written finds a title in the same cases, and when it does not panic it returns the corrected title |
| HttpProbe.HttpBanner | src/scanner.rs:351-358 | the banner starts with "HTTP", and is exactly "HTTP" if and only if neither server nor title was found |
| HttpProbe.HttpBannerShapes | src/scanner.rs:351-358 | the four banner forms: bare, server only, title only, server then title |
| HttpProbe.ProbeHttp | src/scanner.rs:330-359 | with the corrected title cut, a banner is produced if and only if the request write did not time out and something was read; it starts with "HTTP", and is bare exactly when neither field is found |
| HttpProbe.ProbeHttpAsWritten | src/scanner.rs:349-358 | as written, the probe panics if and only if a reply was read and its title cut panics; otherwise it gives the corrected probe's banner |
| HttpProbe.TitleCutPanicsOn | src/scanner.rs:374-386 | a page whose title is 119 ASCII characters followed by a multi-byte character makes `extract_html_title` panic |
| HttpProbe.TitleCutPanicExample | src/scanner.rs:374-386 | a page titled with 119 'a' and 'é' makes `extract_html_title` panic |
| Probes.ReadBanner | src/scanner.rs:247-258 | a banner exists if and only if bytes were read; it has no line break, and equals the reply when the reply had none |
| Probes.ProbeSsh | src/scanner.rs:405-416 | a banner exists if and only if the read is non-empty and is an SSH greeting; it has no line break |
| Probes.ProbeRedisPing | src/scanner.rs:390-403 | a reply exists if and only if the write did not time out and bytes came back; "+PONG" gives "redis PONG", and other replies are escaped |
| Probes.CertSummary | src/scanner.rs:301-328 | the summary ends with the expiry (or "invalid"), and starts with the subject exactly when the subject is non-empty |
| Probes.CertSummaryShapes | src/scanner.rs:323-327 | the summary is one of four strings, chosen by which common names are empty |
| Probes.TlsProbe | src/scanner.rs:276-299 | a label exists if and only if the handshake succeeded; it is "https", with a "TLS: " banner exactly when a certificate was read |
| Probes.ProbeProtocol | src/scanner.rs:262-270 | HTTP ports get the HTTP probe; otherwise only port 6379 with the Redis probe enabled can give a banner, and it has no line break |
| Probes.PreProbeBanner | src/scanner.rs:196-199 | there is no banner before the protocol probe if and only if the passive read was empty and, on port 22, no SSH greeting was read |
| Probes.Identify | src/scanner.rs:188-207 | with the corrected title cut, TLS ports are labelled "https", with a banner exactly when the handshake succeeded with a certificate; other ports are labelled by `guess_service` from the banner they end with |
| Probes.IdentifyTls | src/scanner.rs:188-192 | a successful handshake with a certificate gives "https" and the certificate summary |
| Probes.IdentifyEscaped | src/scanner.rs:193-204 | on ports that are neither TLS nor HTTP, a banner never holds a line break |
| Probes.IdentifyPassiveFirst | src/scanner.rs:196-204 | away from port 22, a non-empty passive read is the banner and no probe runs |
| Probes.IdentifySshOverrides | src/scanner.rs:197-199 | on port 22 an SSH greeting replaces whatever the passive read found |
| Probes.IdentifyHttpProbe | src/scanner.rs:200-204 | on HTTP ports with a silent passive read, the banner is the HTTP probe's |
| Probes.IdentifyRedisGuarded | src/scanner.rs:266-268 | the Redis reply has no effect unless the probe is enabled, the port is 6379 and the passive read was silent |
| Probes.RedisPongIsRedis | src/scanner.rs:398 | the banner "redis PONG" is labelled "redis" on every port |
| Probes.IdentifyRedisPong | src/scanner.rs:266-268 | a silent port 6379 answering "+PONG" is labelled redis with banner "redis PONG" |
| Probes.BareHttpIsHttp | src/scanner.rs:432-433 | the bare banner "HTTP" on an HTTP port is labelled "http" |
| Probes.IdentifyBareHttp | src/scanner.rs:200-206 | a silent HTTP port whose response has no server and no title is labelled http with banner "HTTP" |
| Probes.ProbeProtocolAsWritten | src/scanner.rs:262-270 | as written, the protocol probe panics if and only if the port is an HTTP port, a reply was read and its title cut panics; otherwise it gives the corrected result |
| Probes.IdentifyAsWritten | src/scanner.rs:186-207 | as written, fingerprinting panics if and only if the port is not a TLS port, nothing came before the protocol probe, the port is an HTTP port and the reply's title cut panics; otherwise it gives the corrected label |
| Probes.IdentifyPanicExample | src/scanner.rs:196-204 | a silent port 80 whose page is titled with 119 'a' and 'é' makes fingerprinting panic |
| Scan.ClampConcurrency | src/scanner.rs:143 | the permit count lies in 1..=5000, equals the request in range, and is pinned at the nearer bound otherwise |
| Scan.ClampMonotone | src/scanner.rs:143 | clamping keeps the order of requests and clamping twice changes nothing |
| Scan.UnitTarget | src/scanner.rs:157-161 | every unit's target is one of the targets |
| Scan.Record | src/scanner.rs:178-226 | a unit that sees cancellation, or whose fingerprinting panics, changes nothing; a failed connect adds 1 to done only; a fingerprinted connection adds 1 to done and to open and appends its entry |
| Scan.ScanUnits | src/scanner.rs:128-242 | after any number of units, total is targets times ports, open count equals the entry count, which is at most done, which is at most the units run, and every entry is open with a listed target and port |
| Scan.ScanStep | src/scanner.rs:157-164 | unit number i·|ports|+j is target i at port j, and running it is one more step of the fold |
| Scan.ScanRow | src/scanner.rs:157-164 | the inner loop over one target's ports runs the fold up to the end of that row or the first cancelled check, whichever comes first |
| Scan.ScanTargets | src/scanner.rs:119-244 | the nested loops with cancellation checks give the fold over the units before cancellation; open = entries <= done <= total; done never exceeds the units started; without cancellation, done equals total if and only if every unit finishes, that is, none panics |
| Scan.CountersCount | src/scanner.rs:208-226 | done counts exactly the units that finish, neither seeing cancellation nor panicking, and open counts exactly the connections that were fingerprinted |
| Scan.CompleteScan | src/scanner.rs:208-226 | every unit is counted as done if and only if every unit finishes |
| Scan.CompleteCorrectedScan | src/scanner.rs:178-226 | with the corrected title cut and no unit seeing cancellation, every unit is counted as done |
| Scan.PanicLosesUnit | src/scanner.rs:186-226 | with the code as written, a connected unit whose fingerprinting panics adds no entry and no count, so done ends below total |
| Scan.StalledScanExample | src/scanner.rs:186-231 | one target scanned on port 80, serving a page titled with 119 'a' and 'é', ends with 0 of 1 units done, no open port and no entry |
| Scan.EntriesFromConnections | src/scanner.rs:208-219 | every entry comes from a connected, fingerprinted unit and carries its address, port, latency, timestamp and label |
| Scan.EntriesLabelled | src/scanner.rs:188-215 | with the fingerprinting as written, entries on TLS ports are "https" and every other entry's service is `guess_service` of its port and banner |

## Left out

- Network I/O is left out: connecting, reading, writing and the timeouts. What each step returned is an input, `Probes.Replies`, and a unit's connect outcome is a `Scan.Run`.
- TLS with X.509 parsing (`native_tls`, `parse_x509_certificate`) is left out. The handshake's success and the certificate's common names and expiry text are inputs, `Probes.CertFields`.
- Concurrency is left out: the semaphore, `JoinSet`, the atomics, the entries mutex and the ctrl-c task. Units are modelled one after another in enumeration order. The source's final entry list is a permutation of the modelled one, depending on task completion order.
- Scan.ScanTargets: cancellation is a threshold, `cancelFrom`: the enumeration first sees it before unit `cancelFrom`. Units already admitted that see it at start are `Skipped` runs. Cancellation arriving while a unit is connecting is not modelled.
- The concurrency limit is computed (`Scan.ClampConcurrency`), but with units run sequentially it does not affect the results.
- `futures_collect_vec_blocking` and `futures_collect_vec_sync` are left out. They only copy the entry list out of its mutex.
- The clock is left out: latency and the RFC 3339 timestamp of `now_iso_like` are inputs of a `Connected` run.
- `String::from_utf8_lossy` is left out. Replies are given as already-decoded text, and the 256-, 64- and 4096-byte read limits are not modelled.
- Probes.ProbeHttp: the read loop (deadline, 80 ms per read, stop at the 4096-byte cap or the blank line) is not modelled. The response is the text read by the time the loop stopped.
- Scan.ScanEntry: the target address is kept as text. The `Display` form of `IpAddr` is not modelled.
- Ports.LoadPortsOrDefault: reading the file (`load_ports_from_path`) is not modelled. The file's contents, or their absence, are the input.
- Ports.ParsePortStr: the causes of a `parse::<u32>` error are reduced to "not a number" and "out of range". The message text of `anyhow` errors is not modelled.
- NetDetect.DetectLocalCidrs: `get_if_addrs` and its error are not modelled; the interfaces are the input. IPv6 networks never enter the set, so the sort key `(0, 0)` for IPv6 is never used and is not modelled. `HashSet` iteration order is replaced by sorted insertion. `NetDetect.SortedUnique` shows that the sorted output is the same for every order.
- Integer widths (`u16` ports, `u64` counters and latency) are unbounded. Ports never exceed 65535 by construction. A counter would need 2^64 units to wrap.
- `src/server.rs` (the HTTP API and progress sharing) and `src/main.rs` (the command line) are not part of this model.

## Findings

| source | as written | input that shows it | evidently intended | confidence | as-written member | corrected member |
|---|---|---|---|---|---|---|
| src/netdetect.rs:57 | `start + 1` is computed in `u32` | the network 255.255.255.255/32: `start + 1` overflows, which panics in a debug build and wraps to 0 in a release build, so `0..end` lists 2^32-1 addresses starting at 0.0.0.0 | a /32 has no hosts, so the list should be empty | not executed | NetDetect.AsWrittenOverflow | NetDetect.ExpandHosts |
| src/scanner.rs:386 | `title.truncate(120)` cuts at byte 120 | a title of 119 'a' followed by 'é' (121 bytes): byte 120 falls inside 'é', and `truncate` panics | keep the longest prefix of at most 120 bytes that ends on a character boundary | not executed | HttpProbe.TruncatePanicExample | HttpProbe.TruncateTitle |
| src/scanner.rs:208-226 | a panic while fingerprinting ends the unit's task before `open_count`, the entry list and `scanned_done` are updated, and `join_next` drops it | one target on port 80 whose page is titled with 119 'a' and 'é': the scan returns `scanned_done` 0 of `scanned_total` 1 and no entry, although the port is open | every unit that is not cancelled is counted as done, and an open port gets an entry | not executed | Scan.StalledScanExample | Scan.CompleteCorrectedScan |

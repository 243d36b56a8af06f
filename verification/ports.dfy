/** The ports-list text format: one port or one inclusive range `a-b` per
    line, `#` starting a comment, blank lines ignored. Parsing yields the
    listed ports once each, in the order they are first listed. */
module Ports {
  import opened Wrappers
  import opened Text
  import opened Seqs

  const MaxPort: nat := 65535
  const MaxU32: nat := 0xFFFF_FFFF

  predicate IsPort(p: int)
  {
    1 <= p <= MaxPort
  }

  predicate AllPorts(ps: seq<nat>)
  {
    forall p :: p in ps ==> IsPort(p)
  }

  // ---------------------------------------------------------------------
  // Numbers

  predicate IsDigit(c: char)
  {
    '0' <= c <= '9'
  }

  predicate AllDigits(s: string)
  {
    forall i :: 0 <= i < |s| ==> IsDigit(s[i])
  }

  function DigitValue(c: char): nat
    requires IsDigit(c)
  {
    c as int - '0' as int
  }

  function DigitChar(d: nat): (c: char)
    requires d < 10
    ensures IsDigit(c) && DigitValue(c) == d
  {
    ('0' as int + d) as char
  }

  /** The value of a run of decimal digits, most significant first. */
  function DecimalValue(s: string): nat
    requires AllDigits(s)
    decreases |s|
  {
    if |s| == 0 then 0 else 10 * DecimalValue(s[..|s| - 1]) + DigitValue(s[|s| - 1])
  }

  /** Decimal rendering without leading zeros. */
  function ShowDecimal(n: nat): (s: string)
    ensures |s| > 0 && AllDigits(s)
    decreases n
  {
    if n < 10 then [DigitChar(n)] else ShowDecimal(n / 10) + [DigitChar(n % 10)]
  }

  lemma {:induction false} DecimalRoundTrip(n: nat)
    ensures DecimalValue(ShowDecimal(n)) == n
    decreases n
  {
    if n >= 10 {
      DecimalRoundTrip(n / 10);
      var s := ShowDecimal(n);
      assert s[..|s| - 1] == ShowDecimal(n / 10);
    }
  }

  /** `str::parse::<u32>`: an optional '+', then one or more ASCII digits
      whose value fits in 32 bits. Any other text is an error. */
  function ParseU32(s: string): (r: Option<nat>)
    ensures r.Some? ==> r.value <= MaxU32
  {
    var digits := if |s| > 0 && s[0] == '+' then s[1..] else s;
    if |digits| == 0 || !AllDigits(digits) then None
    else if DecimalValue(digits) > MaxU32 then None
    else Some(DecimalValue(digits))
  }

  /** Why a piece of text is not a port. */
  datatype ValueError = NotANumber | OutOfRange(value: nat)

  /** `parse_port_str`: a `u32` that must lie in 1..=65535. */
  function ParsePortStr(s: string): (r: Result<nat, ValueError>)
    ensures r.Ok? ==> IsPort(r.value)
  {
    match ParseU32(s)
    case None => Err(NotANumber)
    case Some(v) => if v == 0 || v > MaxPort then Err(OutOfRange(v)) else Ok(v)
  }

  /** Every port's decimal text, with or without a leading '+', parses back
      to that port. */
  lemma ParsePortRoundTrip(p: nat)
    requires IsPort(p)
    ensures ParsePortStr(ShowDecimal(p)) == Ok(p)
    ensures ParsePortStr("+" + ShowDecimal(p)) == Ok(p)
  {
    DecimalRoundTrip(p);
    assert ("+" + ShowDecimal(p))[1..] == ShowDecimal(p);
  }

  /** Zero and numbers above 65535 are rejected; those that still fit in a
      `u32` are reported as out of range. */
  lemma ParsePortRejectsOutOfRange(n: nat)
    requires n == 0 || n > MaxPort
    ensures ParsePortStr(ShowDecimal(n)).Err?
    ensures n <= MaxU32 ==> ParsePortStr(ShowDecimal(n)) == Err(OutOfRange(n))
  {
    DecimalRoundTrip(n);
  }

  // ---------------------------------------------------------------------
  // Lines

  /** What one line of the file asks for. */
  datatype LineSpec = Blank | Single(port: nat) | Range(first: nat, last: nat)

  /** A parse failure, with the 1-based number of the offending line. */
  datatype PortsError =
    | BadRangeStart(line: nat, text: string, cause: ValueError)
    | BadRangeEnd(line: nat, text: string, cause: ValueError)
    | ReversedRange(line: nat, start: nat, end: nat)
    | BadPort(line: nat, text: string, cause: ValueError)

  /** The part of a line that carries data: the text before the first '#',
      trimmed. */
  function Content(raw: string): string
  {
    Trim(BeforeFirst(raw, '#'))
  }

  /** A line spec the parser can produce: ports in range, ranges ordered. */
  predicate ValidSpec(spec: LineSpec)
  {
    match spec
    case Blank => true
    case Single(p) => IsPort(p)
    case Range(a, b) => IsPort(a) && IsPort(b) && a <= b
  }

  /** The loop body of `parse_ports_str` for one line, given the line's
      content: a range when it has a '-', a single port otherwise. */
  function ParseContent(lineNo: nat, line: string): (r: Result<LineSpec, PortsError>)
    ensures r.Ok? ==> ValidSpec(r.value)
    ensures r.Ok? && r.value.Blank? <==> line == []
    ensures r.Err? ==> r.error.line == lineNo
  {
    if line == [] then Ok(Blank)
    else match SplitOnce(line, '-')
      case Some((a, b)) =>
        (match ParsePortStr(Trim(a))
         case Err(e) => Err(BadRangeStart(lineNo, a, e))
         case Ok(start) =>
           match ParsePortStr(Trim(b))
           case Err(e) => Err(BadRangeEnd(lineNo, b, e))
           case Ok(end) =>
             if start > end then Err(ReversedRange(lineNo, start, end))
             else Ok(Range(start, end)))
      case None =>
        match ParsePortStr(line)
        case Err(e) => Err(BadPort(lineNo, line, e))
        case Ok(p) => Ok(Single(p))
  }

  /** One raw line, numbered from 1. */
  function ParseLine(lineNo: nat, raw: string): Result<LineSpec, PortsError>
  {
    ParseContent(lineNo, Content(raw))
  }

  /** The ports a parsed line lists, in order; a range is inclusive. */
  function Contribution(spec: LineSpec): (ps: seq<nat>)
  {
    match spec
    case Blank => []
    case Single(p) => [p]
    case Range(a, b) => if b < a then [] else seq(b - a + 1, k requires 0 <= k < b - a + 1 => a + k)
  }

  /** A range `a-b` with a <= b lists exactly the ports a..=b, ascending. */
  lemma RangeContribution(a: nat, b: nat)
    requires a <= b
    ensures |Contribution(Range(a, b))| == b - a + 1
    ensures forall p :: p in Contribution(Range(a, b)) <==> a <= p <= b
    ensures forall k :: 0 <= k < b - a + 1 ==> Contribution(Range(a, b))[k] == a + k
  {
    forall p | a <= p <= b ensures p in Contribution(Range(a, b)) {
      assert Contribution(Range(a, b))[p - a] == p;
    }
  }

  lemma ValidSpecContribution(spec: LineSpec)
    requires ValidSpec(spec)
    ensures AllPorts(Contribution(spec))
  {
    if spec.Range? {
      RangeContribution(spec.first, spec.last);
    }
  }

  /** What one parse outcome contributes: nothing for an error. */
  function ContributionOf(r: Result<LineSpec, PortsError>): seq<nat>
  {
    match r
    case Ok(spec) => Contribution(spec)
    case Err(_) => []
  }

  /** The outcome of every line, in order. */
  function ParseLines(lines: seq<string>): (rs: seq<Result<LineSpec, PortsError>>)
    ensures |rs| == |lines|
  {
    MapNumbered(lines, ParseLine)
  }

  /** The error of the first failing line, if any. Defined from the end,
      so that one more line is one more step. */
  function FirstError(rs: seq<Result<LineSpec, PortsError>>): Option<PortsError>
    decreases |rs|
  {
    if |rs| == 0 then None
    else match FirstError(rs[..|rs| - 1])
      case Some(e) => Some(e)
      case None =>
        match rs[|rs| - 1]
        case Err(e) => Some(e)
        case Ok(_) => None
  }

  /** Every port the lines list, in file order, repeats included. */
  function Requested(rs: seq<Result<LineSpec, PortsError>>): seq<nat>
    decreases |rs|
  {
    if |rs| == 0 then []
    else Requested(rs[..|rs| - 1]) + ContributionOf(rs[|rs| - 1])
  }

  /** Reference meaning of `parse_ports_str`: the first bad line is the
      error; otherwise the requested ports, each kept at its first place. */
  function ParsePorts(s: string): Result<seq<nat>, PortsError>
  {
    Outcome(ParseLines(Lines(s)))
  }

  /** What a sequence of line outcomes amounts to. */
  function Outcome(rs: seq<Result<LineSpec, PortsError>>): Result<seq<nat>, PortsError>
  {
    match FirstError(rs)
    case Some(e) => Err(e)
    case None => Ok(Dedup(Requested(rs)))
  }

  // ---------------------------------------------------------------------
  // The parser

  /** Appending the next port of `ps` is one step of `Dedup`. */
  lemma DedupStep(base: seq<nat>, ps: seq<nat>, j: nat)
    requires j < |ps|
    ensures Dedup(base + ps[..j + 1]) ==
            if ps[j] in Dedup(base + ps[..j]) then Dedup(base + ps[..j]) else Dedup(base + ps[..j]) + [ps[j]]
  {
    var xs := base + ps[..j + 1];
    assert xs[..|xs| - 1] == base + ps[..j];
    assert xs[|xs| - 1] == ps[j];
  }

  /** `for p in ps { if seen.insert(p) { out.push(p) } }`. */
  method PushNew(out0: seq<nat>, seen0: set<nat>, ghost base: seq<nat>, ps: seq<nat>)
    returns (out: seq<nat>, seen: set<nat>)
    requires out0 == Dedup(base)
    requires seen0 == set x | x in out0
    ensures out == Dedup(base + ps)
    ensures seen == set x | x in out
  {
    out, seen := out0, seen0;
    var j := 0;
    assert base + ps[..0] == base;
    while j < |ps|
      invariant 0 <= j <= |ps|
      invariant out == Dedup(base + ps[..j])
      invariant seen == set x | x in out
    {
      var p := ps[j];
      DedupStep(base, ps, j);
      if p !in seen {
        seen := seen + {p};
        out := out + [p];
      }
      j := j + 1;
    }
    assert ps[..j] == ps;
  }

  /** `parse_ports_str`: walks the lines once, keeping a `seen` set beside
      the output so that each port is pushed only the first time. */
  method ParsePortsStr(s: string) returns (r: Result<seq<nat>, PortsError>)
    ensures r == ParsePorts(s)
  {
    var lines := Lines(s);
    ghost var rs := ParseLines(lines);
    var out: seq<nat> := [];
    var seen: set<nat> := {};
    var i := 0;
    while i < |lines|
      invariant 0 <= i <= |lines|
      invariant FirstError(rs[..i]).None?
      invariant out == Dedup(Requested(rs[..i]))
      invariant seen == set x | x in out
    {
      var outcome := ParseLine(i + 1, lines[i]);
      assert outcome == rs[i];
      OneMoreLine(rs, i);
      match outcome {
        case Err(e) =>
          FirstErrorPersists(rs, i + 1);
          return Err(e);
        case Ok(spec) =>
          out, seen := PushNew(out, seen, Requested(rs[..i]), Contribution(spec));
      }
      i := i + 1;
    }
    assert rs[..i] == rs;
    r := Ok(out);
  }

  /** One more line extends the reference definitions by one step. */
  lemma OneMoreLine(rs: seq<Result<LineSpec, PortsError>>, i: nat)
    requires i < |rs|
    ensures Requested(rs[..i + 1]) == Requested(rs[..i]) + ContributionOf(rs[i])
    ensures FirstError(rs[..i + 1]) ==
              if FirstError(rs[..i]).Some? then FirstError(rs[..i])
              else if rs[i].Err? then Some(rs[i].error) else None
  {
    assert rs[..i + 1][..i] == rs[..i];
  }

  /** Once a prefix of the lines has an error, later lines do not change it. */
  lemma {:induction false} FirstErrorPersists(rs: seq<Result<LineSpec, PortsError>>, k: nat)
    requires k <= |rs|
    requires FirstError(rs[..k]).Some?
    ensures FirstError(rs) == FirstError(rs[..k])
    decreases |rs| - k
  {
    if k < |rs| {
      assert rs[..k + 1][..k] == rs[..k];
      FirstErrorPersists(rs, k + 1);
    } else {
      assert rs[..k] == rs;
    }
  }

  // ---------------------------------------------------------------------
  // Properties of the parse

  /** The parse fails exactly when some line fails, and the error reported
      is that of the first failing line. */
  lemma {:induction false} FirstErrorIsFirstBadLine(rs: seq<Result<LineSpec, PortsError>>)
    ensures FirstError(rs).None? <==> forall k :: 0 <= k < |rs| ==> rs[k].Ok?
    ensures FirstError(rs).Some? ==>
              exists k :: 0 <= k < |rs| && rs[k] == Err(FirstError(rs).value)
                && forall j :: 0 <= j < k ==> rs[j].Ok?
    decreases |rs|
  {
    if |rs| > 0 {
      var n := |rs| - 1;
      var p := rs[..n];
      FirstErrorIsFirstBadLine(p);
      assert forall k :: 0 <= k < n ==> p[k] == rs[k];
    }
  }

  /** A port is requested exactly when some line lists it; when every
      parsed line is valid, every requested port is in range. */
  lemma {:induction false} RequestedMembers(rs: seq<Result<LineSpec, PortsError>>)
    ensures forall p :: p in Requested(rs) <==>
              exists k :: 0 <= k < |rs| && p in ContributionOf(rs[k])
    ensures (forall k :: 0 <= k < |rs| && rs[k].Ok? ==> ValidSpec(rs[k].value)) ==>
              AllPorts(Requested(rs))
    decreases |rs|
  {
    if |rs| > 0 {
      var n := |rs| - 1;
      var p := rs[..n];
      RequestedMembers(p);
      assert forall k :: 0 <= k < n ==> p[k] == rs[k];
      if rs[n].Ok? && ValidSpec(rs[n].value) {
        ValidSpecContribution(rs[n].value);
      }
    }
  }

  lemma ParseLinesValid(lines: seq<string>)
    ensures forall k :: 0 <= k < |lines| && ParseLines(lines)[k].Ok? ==>
              ValidSpec(ParseLines(lines)[k].value)
  {
    forall k | 0 <= k < |lines| {
      MapNumberedAt(lines, ParseLine, k);
    }
  }

  /** Every port returned is in 1..=65535 and none is returned twice. */
  lemma ParsedPortsValid(s: string)
    requires ParsePorts(s).Ok?
    ensures AllPorts(ParsePorts(s).value)
    ensures NoDuplicates(ParsePorts(s).value)
  {
    var rs := ParseLines(Lines(s));
    ParseLinesValid(Lines(s));
    RequestedMembers(rs);
    DedupElements(Requested(rs));
    DedupNoDuplicates(Requested(rs));
  }

  /** The ports returned are exactly the union of what the lines list: a
      port is returned iff some line names it or a range covering it. */
  lemma ParsedPortsAreUnion(s: string)
    requires ParsePorts(s).Ok?
    ensures var rs := ParseLines(Lines(s));
            forall p :: p in ParsePorts(s).value <==> exists k :: 0 <= k < |rs| && p in ContributionOf(rs[k])
  {
    var rs := ParseLines(Lines(s));
    RequestedMembers(rs);
    DedupElements(Requested(rs));
  }

  /** First-seen order: ports come out in the order of their first mention
      in the file. */
  lemma ParsedPortsFirstSeenOrder(s: string)
    requires ParsePorts(s).Ok?
    ensures var out := ParsePorts(s).value;
            var req := Requested(ParseLines(Lines(s)));
            forall i, j :: 0 <= i < j < |out| ==> FirstIndex(req, out[i]) < FirstIndex(req, out[j])
  {
    DedupFirstSeenOrder(Requested(ParseLines(Lines(s))));
  }

  /** The whole text is rejected exactly when one of its lines is, and then
      with the error of the first such line. */
  lemma ParsePortsErrorIff(s: string)
    ensures var rs := ParseLines(Lines(s));
            ParsePorts(s).Err? <==> exists k :: 0 <= k < |rs| && rs[k].Err?
    ensures var rs := ParseLines(Lines(s));
            ParsePorts(s).Err? ==>
              exists k :: 0 <= k < |rs| && rs[k] == Err(ParsePorts(s).error)
                && forall j :: 0 <= j < k ==> rs[j].Ok?
  {
    FirstErrorIsFirstBadLine(ParseLines(Lines(s)));
  }

  lemma DecimalTextIsPlain(s: string)
    requires |s| > 0 && AllDigits(s)
    ensures '#' !in s && '-' !in s
    ensures !IsWhitespace(s[0]) && !IsWhitespace(s[|s| - 1])
  {
  }

  /** A port written in decimal is a line listing that port. */
  lemma ParseLineOfPort(n: nat, p: nat)
    requires IsPort(p)
    ensures ParseLine(n, ShowDecimal(p)) == Ok(Single(p))
  {
    var s := ShowDecimal(p);
    DecimalTextIsPlain(s);
    TrimOfTrimmed(s);
    ParsePortRoundTrip(p);
  }

  /** Two ports written as `a-b` are a line listing the range a..=b, or the
      error for a reversed range when a > b. */
  lemma ParseLineOfRange(n: nat, a: nat, b: nat)
    requires IsPort(a) && IsPort(b)
    ensures ParseLine(n, ShowDecimal(a) + "-" + ShowDecimal(b)) ==
              if a <= b then Ok(Range(a, b)) else Err(ReversedRange(n, a, b))
  {
    var sa, sb := ShowDecimal(a), ShowDecimal(b);
    var s := sa + "-" + sb;
    RangeTextIsContent(sa, sb);
    DecimalTextIsPlain(sa);
    DecimalTextIsPlain(sb);
    TrimOfTrimmed(sa);
    TrimOfTrimmed(sb);
    SplitOnceAt(sa, '-', sb);
    ParsePortRoundTrip(a);
    ParsePortRoundTrip(b);
    assert ParseLine(n, s) == ParseContent(n, s);
  }

  lemma RangeTextIsContent(sa: string, sb: string)
    requires |sa| > 0 && AllDigits(sa) && |sb| > 0 && AllDigits(sb)
    ensures Content(sa + "-" + sb) == sa + "-" + sb
  {
    var s := sa + "-" + sb;
    DecimalTextIsPlain(sa);
    DecimalTextIsPlain(sb);
    assert '#' !in s;
    assert s[0] == sa[0] && s[|s| - 1] == sb[|sb| - 1];
    TrimOfTrimmed(s);
  }

  /** Text from '#' on is a comment and changes nothing. */
  lemma CommentIgnored(n: nat, line: string, comment: string)
    requires '#' !in line
    ensures ParseLine(n, line + "#" + comment) == ParseLine(n, line)
  {
    SplitOnceAt(line, '#', comment);
  }

  /** Whitespace around a line's content changes nothing. */
  lemma PaddingIgnored(n: nat, pre: string, line: string, post: string)
    requires AllWhitespace(pre) && AllWhitespace(post)
    requires '#' !in line
    ensures ParseLine(n, pre + line + post) == ParseLine(n, line)
  {
    var s := pre + line + post;
    assert '#' !in s by {
      forall i | 0 <= i < |s| ensures s[i] != '#' {
        if i < |pre| {
          assert s[i] == pre[i];
        } else if i < |pre| + |line| {
          assert s[i] == line[i - |pre|];
        } else {
          assert s[i] == post[i - |pre| - |line|];
        }
      }
    }
    TrimPadding(pre, line, post);
  }

  /** A line lists nothing exactly when it is blank up to its comment. */
  lemma BlankLineIff(n: nat, raw: string)
    ensures ParseLine(n, raw) == Ok(Blank) <==> AllWhitespace(BeforeFirst(raw, '#'))
    ensures AllWhitespace(BeforeFirst(raw, '#')) ==> ContributionOf(ParseLine(n, raw)) == []
  {
    TrimEmptyIff(BeforeFirst(raw, '#'));
  }

  // ---------------------------------------------------------------------
  // Built-in lists and the fallback

  /** A value the type system itself keeps within 1..=65535; used for the
      built-in lists so that each literal is checked where it is written. */
  type PortLiteral = p: nat | IsPort(p) witness 1

  /** `default_ports`, in its own order, in three pieces: the core
      infrastructure ports and then the application, database and queue
      ports. */
  const DefaultInfra: seq<PortLiteral> :=
    [ 20, 21, 22, 23, 25, 53, 67, 68, 69, 80, 110, 111, 123, 135, 137, 138, 139, 143, 161, 179,
      389, 427, 443, 445, 465, 500, 512, 513, 514, 515, 520, 554, 587, 631, 636, 853, 873, 902,
      989, 990, 993, 995 ]

  const DefaultServicesA: seq<PortLiteral> :=
    [ 1025, 1080, 1194, 1433, 1434, 1521, 1723, 1883, 2049, 2082, 2083, 2086, 2087, 2181, 2375,
      2376, 2380, 2483, 2484, 27017, 27018, 27019, 28017, 3000, 3128, 3260, 3306, 3333, 3389,
      3478, 4000, 4040, 4369, 4444, 4500, 4567, 5000, 5001, 5040, 5050, 5060, 5061, 5432, 5555,
      5671, 5672, 5696, 5900, 5901, 5984, 5985 ]

  const DefaultServicesB: seq<PortLiteral> :=
    [ 5986, 6000, 6080, 61616, 6379, 6380, 6443, 6666, 6667, 7001, 7002, 7199, 7200, 7777, 8000,
      8001, 8008, 8009, 8010, 8080, 8081, 8088, 8089, 8090, 8161, 8181, 8200, 8222, 8333, 8443,
      8500, 8529, 8888, 9000, 9001, 9042, 9071, 9090, 9091, 9092, 9100, 9200, 9300, 9418, 9443,
      9500, 9600, 9666, 9999, 10000, 11211 ]

  const QuickList: seq<PortLiteral> :=
    [ 21, 22, 23, 25, 80, 110, 135, 139, 143, 443, 445, 465, 500, 587, 631, 993, 995, 1433, 1521,
      1723, 1883, 3000, 3128, 3260, 3306, 3389, 5000, 5432, 5672, 5900, 5985, 5986, 6379, 7001,
      7002, 8000, 8008, 8080, 8081, 8088, 8443, 8888, 9000, 9092, 9200, 9300, 11211, 27017 ]

  /** `default_ports`. */
  function DefaultPorts(): (ps: seq<nat>)
    ensures |ps| > 0 && AllPorts(ps)
  {
    DefaultInfra + DefaultServicesA + DefaultServicesB
  }

  /** The default list: 144 ports, among them 80 and 443. */
  lemma DefaultPortsContents()
    ensures |DefaultPorts()| == 144 && 80 in DefaultPorts() && 443 in DefaultPorts()
  {
    assert |DefaultInfra| == 42 && DefaultInfra[9] == 80 && DefaultInfra[22] == 443;
    assert |DefaultServicesA| == 51;
    assert |DefaultServicesB| == 51;
    var ps := DefaultPorts();
    assert ps[9] == DefaultInfra[9] && ps[22] == DefaultInfra[22];
  }

  /** `quick_ports`. */
  function QuickPorts(): (ps: seq<nat>)
    ensures |ps| > 0 && AllPorts(ps)
  {
    QuickList
  }

  /** The quick list: 48 ports, among them 80 and 443. */
  lemma QuickPortsContents()
    ensures |QuickPorts()| == 48 && 80 in QuickPorts() && 443 in QuickPorts()
  {
    assert QuickPorts()[4] == 80 && QuickPorts()[9] == 443;
  }

  /** `load_ports_or_default` once the file has been read: `contents` is
      `None` when reading failed. A usable, non-empty list from the file is
      kept; anything else falls back to the default list. */
  function LoadPortsOrDefault(contents: Option<string>): (ps: seq<nat>)
    ensures |ps| > 0 && AllPorts(ps)
    ensures ps == DefaultPorts() || (contents.Some? && ParsePorts(contents.value) == Ok(ps))
    ensures contents.None? || ParsePorts(contents.value).Err? ==> ps == DefaultPorts()
    ensures contents.Some? && ParsePorts(contents.value).Ok? && |ParsePorts(contents.value).value| > 0 ==>
              ps == ParsePorts(contents.value).value
  {
    match contents
    case None => DefaultPorts()
    case Some(text) =>
      match ParsePorts(text)
      case Ok(v) =>
        if |v| > 0 then
          ParsedPortsValid(text);
          v
        else DefaultPorts()
      case Err(_) => DefaultPorts()
  }
}

/** The ports-list examples the parser is expected to reproduce, worked
    through the model for arbitrary port numbers written in decimal. */
module PortsExamples {
  import opened Wrappers
  import opened Text
  import opened Seqs
  import opened Ports

  /** Text that stands as one line of a file: no line feed inside and no
      carriage return at the end. */
  predicate PlainLine(a: string)
  {
    '\n' !in a && |a| > 0 && a[|a| - 1] != '\r'
  }

  lemma DecimalIsPlainLine(n: nat)
    ensures PlainLine(ShowDecimal(n))
  {
    var s := ShowDecimal(n);
    assert forall i :: 0 <= i < |s| ==> s[i] != '\n';
  }

  lemma RangeIsPlainLine(a: nat, b: nat)
    ensures PlainLine(ShowDecimal(a) + "-" + ShowDecimal(b))
  {
    DecimalIsPlainLine(a);
    DecimalIsPlainLine(b);
    var s := ShowDecimal(a) + "-" + ShowDecimal(b);
    assert s[|s| - 1] == ShowDecimal(b)[|ShowDecimal(b)| - 1];
  }

  lemma OneLine(a: string)
    requires PlainLine(a)
    ensures Lines(a + "\n") == [a]
  {
    assert a + "\n" == a + "\n" + [];
    LinesOfTerminated(a, []);
  }

  /** A file of one line is decided by that line alone. */
  lemma OneLineFile(s: string, l: string, r: Result<LineSpec, PortsError>)
    requires Lines(s) == [l] && ParseLine(1, l) == r
    ensures ParsePorts(s) == Outcome([r])
  {
    ParseLinesAt([l], 0, 1);
    SeqOfOne(ParseLines([l]), r);
  }

  lemma OutcomeOfOne(r: Result<LineSpec, PortsError>)
    ensures r.Err? ==> Outcome([r]) == Err(r.error)
    ensures r.Ok? ==> Outcome([r]) == Ok(Dedup(Contribution(r.value)))
  {
    assert [r][..0] == [];
    assert FirstError([r][..0]) == None;
    assert [r][|[r]| - 1] == r;
    assert Requested([r]) == [] + ContributionOf(r);
    assert [] + ContributionOf(r) == ContributionOf(r);
  }

  /** A file whose one line is a reversed range `a-b` is rejected, naming
      line 1 and both bounds. */
  lemma ExampleReversedRange(a: nat, b: nat)
    requires IsPort(a) && IsPort(b) && b < a
    ensures ParsePorts(ShowDecimal(a) + "-" + ShowDecimal(b) + "\n") == Err(ReversedRange(1, a, b))
  {
    var l := ShowDecimal(a) + "-" + ShowDecimal(b);
    RangeIsPlainLine(a, b);
    OneLine(l);
    ParseLineOfRange(1, a, b);
    OneLineFile(l + "\n", l, Err(ReversedRange(1, a, b)));
    OutcomeOfOne(Err(ReversedRange(1, a, b)));
  }

  /** A file whose one line is a number outside 1..=65535 (but still a
      `u32`) is rejected as an out-of-range port on line 1. */
  lemma ExampleOutOfRange(n: nat)
    requires (n == 0 || n > MaxPort) && n <= MaxU32
    ensures ParsePorts(ShowDecimal(n) + "\n") == Err(BadPort(1, ShowDecimal(n), OutOfRange(n)))
  {
    var l := ShowDecimal(n);
    var r := Err(BadPort(1, l, OutOfRange(n)));
    DecimalIsPlainLine(n);
    OneLine(l);
    ParseLineOutOfRange(1, n);
    OneLineFile(l + "\n", l, r);
    OutcomeOfOne(r);
  }

  /** A line holding a number outside 1..=65535 that still fits a `u32`
      is an out-of-range port on that line. */
  lemma ParseLineOutOfRange(k: nat, n: nat)
    requires (n == 0 || n > MaxPort) && n <= MaxU32
    ensures ParseLine(k, ShowDecimal(n)) == Err(BadPort(k, ShowDecimal(n), OutOfRange(n)))
  {
    var l := ShowDecimal(n);
    DecimalTextIsPlain(l);
    TrimOfTrimmed(l);
    assert Content(l) == l;
    assert SplitOnce(l, '-') == None;
    ParsePortRejectsOutOfRange(n);
  }

  /** A port padded with spaces on both sides reads as that port. */
  lemma ExamplePaddedPort(n: nat, p: nat)
    requires IsPort(p)
    ensures ParseLine(n, "   " + ShowDecimal(p) + "  ") == Ok(Single(p))
  {
    ParseLineOfPort(n, p);
    DecimalTextIsPlain(ShowDecimal(p));
    PaddingIgnored(n, "   ", ShowDecimal(p), "  ");
  }

  lemma RangeThenOutsideDistinct(a: nat, b: nat, p: nat)
    requires a <= b && !(a <= p <= b)
    ensures NoDuplicates(Contribution(Range(a, b)) + [p])
  {
    var range := Contribution(Range(a, b));
    RangeContribution(a, b);
    forall i, j | 0 <= i < j < |range| + 1 ensures (range + [p])[i] != (range + [p])[j] {
      if j == |range| {
        assert (range + [p])[i] == range[i];
      }
    }
  }

  /** Three good lines list their ports in order, each kept once. */
  lemma OutcomeOfThree(x: LineSpec, y: LineSpec, z: LineSpec)
    ensures Outcome([Ok(x), Ok(y), Ok(z)]) == Ok(Dedup(Contribution(x) + Contribution(y) + Contribution(z)))
  {
    var rs: seq<Result<LineSpec, PortsError>> := [Ok(x), Ok(y), Ok(z)];
    assert rs[..2][..1][..0] == [];
    assert rs[..2][..1] == [Ok(x)];
    assert rs[..2] == [Ok(x), Ok(y)];
    assert Requested(rs[..2][..1]) == Contribution(x);
    assert Requested(rs[..2]) == Contribution(x) + Contribution(y);
    assert FirstError(rs[..2][..1][..0]) == None;
    assert FirstError(rs[..2][..1]) == None;
    assert FirstError(rs[..2]) == None;
  }

  /** A range `a-b`, then a port `p` outside it, then a port `q` the range
      already listed: the outcome is the range followed by `p`, the repeat
      dropped and first-seen order kept. */
  lemma ExampleRangeThenDuplicate(a: nat, b: nat, p: nat, q: nat)
    requires IsPort(a) && IsPort(b) && IsPort(p) && IsPort(q)
    requires a <= b && !(a <= p <= b) && a <= q <= b
    ensures Outcome([Ok(Range(a, b)), Ok(Single(p)), Ok(Single(q))]) == Ok(Contribution(Range(a, b)) + [p])
  {
    OutcomeOfThree(Range(a, b), Single(p), Single(q));
    var range := Contribution(Range(a, b));
    RangeContribution(a, b);
    RangeThenOutsideDistinct(a, b, p);
    DedupOfDistinct(range + [p]);
    assert q in range + [p];
  }

  // ---------------------------------------------------------------------
  // Whole files

  /** The text of a file holding `ls`, each line ended by a line feed. */
  function Joined(ls: seq<string>): string
  {
    if |ls| == 0 then [] else ls[0] + "\n" + Joined(ls[1..])
  }

  /** A file of plain lines, each ended by a line feed, splits back into
      those lines. */
  lemma {:induction false} LinesOfJoined(ls: seq<string>)
    requires forall k :: 0 <= k < |ls| ==> PlainLine(ls[k])
    ensures Lines(Joined(ls)) == ls
  {
    if |ls| > 0 {
      LinesOfJoined(ls[1..]);
      LinesOfTerminated(ls[0], Joined(ls[1..]));
      assert StripCr(ls[0]) == ls[0];
      assert ls == [ls[0]] + ls[1..];
    }
  }

  lemma LinesOfThree(x: string, y: string, z: string)
    requires PlainLine(x) && PlainLine(y) && PlainLine(z)
    ensures Lines(Joined([x, y, z])) == [x, y, z]
  {
    var ls := [x, y, z];
    forall k | 0 <= k < |ls| ensures PlainLine(ls[k]) {
      if k == 0 { assert ls[k] == x; } else if k == 1 { assert ls[k] == y; } else { assert ls[k] == z; }
    }
    LinesOfJoined(ls);
  }

  /** Line `k` of a file is parsed as line number `k + 1`. */
  lemma ParseLinesAt(ls: seq<string>, k: nat, n: nat)
    requires k < |ls| && n == k + 1
    ensures ParseLines(ls)[k] == ParseLine(n, ls[k])
  {
    MapNumberedAt(ls, ParseLine, k);
  }

  lemma SeqOfOne<T>(s: seq<T>, a: T)
    requires |s| == 1 && s[0] == a
    ensures s == [a]
  {
  }

  lemma SeqOfThree<T>(s: seq<T>, a: T, b: T, c: T)
    requires |s| == 3 && s[0] == a && s[1] == b && s[2] == c
    ensures s == [a, b, c]
  {
  }

  /** A file of three plain lines whose lines parse to `r1`, `r2`, `r3`
      has the outcome of those three results. */
  lemma ThreeLineFile(x: string, y: string, z: string, r1: Result<LineSpec, PortsError>, r2: Result<LineSpec, PortsError>, r3: Result<LineSpec, PortsError>)
    requires PlainLine(x) && PlainLine(y) && PlainLine(z)
    requires ParseLine(1, x) == r1 && ParseLine(2, y) == r2 && ParseLine(3, z) == r3
    ensures ParsePorts(Joined([x, y, z])) == Outcome([r1, r2, r3])
  {
    LinesOfThree(x, y, z);
    ParseThreeLines(x, y, z, r1, r2, r3);
  }

  lemma ParseThreeLines(x: string, y: string, z: string, r1: Result<LineSpec, PortsError>, r2: Result<LineSpec, PortsError>, r3: Result<LineSpec, PortsError>)
    requires ParseLine(1, x) == r1 && ParseLine(2, y) == r2 && ParseLine(3, z) == r3
    ensures ParseLines([x, y, z]) == [r1, r2, r3]
  {
    ParseLinesOfThree([x, y, z]);
  }

  lemma ParseLinesOfThree(ls: seq<string>)
    requires |ls| == 3
    ensures ParseLines(ls) == [ParseLine(1, ls[0]), ParseLine(2, ls[1]), ParseLine(3, ls[2])]
  {
    ParseLinesAt(ls, 0, 1);
    ParseLinesAt(ls, 1, 2);
    ParseLinesAt(ls, 2, 3);
    SeqOfThree(ParseLines(ls), ParseLine(1, ls[0]), ParseLine(2, ls[1]), ParseLine(3, ls[2]));
  }

  /** The text of three lines. */
  lemma JoinedThree(x: string, y: string, z: string)
    ensures Joined([x, y, z]) == x + "\n" + y + "\n" + z + "\n"
  {
    assert [x, y, z][1..] == [y, z];
    assert [y, z][1..] == [z];
    assert [z][1..] == [];
    assert Joined([z]) == z + "\n";
    assert Joined([y, z]) == y + "\n" + (z + "\n");
    assert x + "\n" + (y + "\n" + (z + "\n")) == x + "\n" + y + "\n" + z + "\n";
  }

  /** A padded port is a plain line. */
  lemma PaddedIsPlainLine(p: nat)
    ensures PlainLine("   " + ShowDecimal(p) + "  ")
  {
    DecimalIsPlainLine(p);
    var s := "   " + ShowDecimal(p) + "  ";
    assert forall i :: 0 <= i < |s| ==> s[i] == ' ' || s[i] in ShowDecimal(p);
  }

  /** Three distinct single ports, all good, list those ports in order. */
  lemma OutcomeOfSingles(p: nat, q: nat, r: nat)
    requires p != q && q != r && p != r
    ensures Outcome([Ok(Single(p)), Ok(Single(q)), Ok(Single(r))]) == Ok([p, q, r])
  {
    OutcomeOfThree(Single(p), Single(q), Single(r));
    assert Contribution(Single(p)) + Contribution(Single(q)) + Contribution(Single(r)) == [p, q, r];
    DedupOfDistinct([p, q, r]);
  }

  /** Three distinct ports on lines of their own, the third padded with
      spaces, list those ports in order. */
  lemma ExampleSinglePortsFile(p: nat, q: nat, r: nat)
    requires IsPort(p) && IsPort(q) && IsPort(r) && p != q && q != r && p != r
    ensures ParsePorts(Joined([ShowDecimal(p), ShowDecimal(q), "   " + ShowDecimal(r) + "  "])) == Ok([p, q, r])
  {
    DecimalIsPlainLine(p);
    DecimalIsPlainLine(q);
    PaddedIsPlainLine(r);
    ParseLineOfPort(1, p);
    ParseLineOfPort(2, q);
    ExamplePaddedPort(3, r);
    ThreeLineFile(ShowDecimal(p), ShowDecimal(q), "   " + ShowDecimal(r) + "  ", Ok(Single(p)), Ok(Single(q)), Ok(Single(r)));
    OutcomeOfSingles(p, q, r);
  }

  /** The file "80\n22\n   443  \n" lists 80, 22 and 443. */
  lemma ExampleSinglePortsText()
    ensures ParsePorts("80\n22\n   443  \n") == Ok([80, 22, 443])
  {
    SinglePortsText();
    ExampleSinglePortsFile(80, 22, 443);
  }

  lemma SinglePortsText()
    ensures Joined([ShowDecimal(80), ShowDecimal(22), "   " + ShowDecimal(443) + "  "]) == "80\n22\n   443  \n"
  {
    var x, y, z := ShowDecimal(80), ShowDecimal(22), "   " + ShowDecimal(443) + "  ";
    SmallDecimals();
    JoinedThree(x, y, z);
    SinglePortsLiteral();
  }

  lemma SinglePortsLiteral()
    ensures "80" + "\n" + "22" + "\n" + ("   " + "443" + "  ") + "\n" == "80\n22\n   443  \n"
  {
  }

  lemma SmallDecimals()
    ensures ShowDecimal(80) == "80" && ShowDecimal(22) == "22" && ShowDecimal(443) == "443"
  {
  }

  /** A file of a range `a-b`, a port outside it and a port inside it lists
      the range followed by the outside port. */
  lemma ExampleRangeFile(a: nat, b: nat, p: nat, q: nat)
    requires IsPort(a) && IsPort(b) && IsPort(p) && IsPort(q)
    requires a <= b && !(a <= p <= b) && a <= q <= b
    ensures ParsePorts(Joined([ShowDecimal(a) + "-" + ShowDecimal(b), ShowDecimal(p), ShowDecimal(q)]))
            == Ok(Contribution(Range(a, b)) + [p])
  {
    RangeIsPlainLine(a, b);
    DecimalIsPlainLine(p);
    DecimalIsPlainLine(q);
    ParseLineOfRange(1, a, b);
    ParseLineOfPort(2, p);
    ParseLineOfPort(3, q);
    ThreeLineFile(ShowDecimal(a) + "-" + ShowDecimal(b), ShowDecimal(p), ShowDecimal(q), Ok(Range(a, b)), Ok(Single(p)), Ok(Single(q)));
    ExampleRangeThenDuplicate(a, b, p, q);
  }

  /** The file "8000-8002\n80\n8001\n" lists 8000, 8001, 8002 and 80. */
  lemma ExampleRangeText()
    ensures ParsePorts("8000-8002\n80\n8001\n") == Ok([8000, 8001, 8002, 80])
  {
    RangeText();
    ExampleRangeFile(8000, 8002, 80, 8001);
    RangeThenEighty();
  }

  lemma RangeText()
    ensures Joined([ShowDecimal(8000) + "-" + ShowDecimal(8002), ShowDecimal(80), ShowDecimal(8001)]) == "8000-8002\n80\n8001\n"
  {
    var x, y, z := ShowDecimal(8000) + "-" + ShowDecimal(8002), ShowDecimal(80), ShowDecimal(8001);
    LargeDecimals();
    JoinedThree(x, y, z);
    RangeTextLiteral();
  }

  lemma RangeTextLiteral()
    ensures "8000" + "-" + "8002" + "\n" + "80" + "\n" + "8001" + "\n" == "8000-8002\n80\n8001\n"
  {
  }

  lemma LargeDecimals()
    ensures ShowDecimal(8000) == "8000" && ShowDecimal(8001) == "8001" && ShowDecimal(8002) == "8002" && ShowDecimal(80) == "80"
  {
    assert ShowDecimal(8) == "8";
    assert ShowDecimal(80) == ShowDecimal(8) + [DigitChar(0)] == "80";
    assert ShowDecimal(800) == ShowDecimal(80) + [DigitChar(0)] == "800";
    assert ShowDecimal(8000) == ShowDecimal(800) + [DigitChar(0)] == "8000";
    assert ShowDecimal(8001) == ShowDecimal(800) + [DigitChar(1)] == "8001";
    assert ShowDecimal(8002) == ShowDecimal(800) + [DigitChar(2)] == "8002";
  }

  lemma RangeThenEighty()
    ensures Contribution(Range(8000, 8002)) + [80] == [8000, 8001, 8002, 80]
  {
    RangeContribution(8000, 8002);
    SeqOfThree(Contribution(Range(8000, 8002)), 8000, 8001, 8002);
    assert [8000, 8001, 8002] + [80] == [8000, 8001, 8002, 80];
  }
}

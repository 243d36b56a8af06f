/** What the scanner reads out of an HTTP response: the `Server` header,
    the HTML `<title>`, and the banner assembled from them. The response
    text is given; sending the request and collecting the reply are not
    modelled. */
module HttpProbe {
  import opened Wrappers
  import opened Text

  // ---------------------------------------------------------------------
  // Header lookup

  /** A header line names `key` (already lower-cased): its text before the
      first ':' is `key` up to ASCII case and surrounding whitespace. */
  predicate HeaderLineMatches(line: string, key: string)
  {
    match SplitOnce(line, ':')
    case None => false
    case Some((k, _)) => EqIgnoreAsciiCase(Trim(k), key)
  }

  /** The value of a header line: the trimmed text after the first ':'. */
  function HeaderValue(line: string): (r: string)
    requires ':' in line
    ensures exists k :: line == k + [':'] + SplitOnce(line, ':').value.1 && ':' !in k
    ensures r == Trim(SplitOnce(line, ':').value.1)
  {
    Trim(SplitOnce(line, ':').value.1)
  }

  /** A line that trims to nothing ends the header section. */
  predicate IsBlank(line: string)
  {
    Trim(line) == []
  }

  /** Index of the header line `extract_header` stops at, scanning from
      `from`: the first matching line, unless a blank line comes first. */
  function HeaderIndexFrom(lines: seq<string>, key: string, from: nat): (r: Option<nat>)
    requires from <= |lines|
    ensures r.Some? ==> from <= r.value < |lines| && HeaderLineMatches(lines[r.value], key)
    decreases |lines| - from
  {
    if from == |lines| then None
    else if HeaderLineMatches(lines[from], key) then Some(from)
    else if IsBlank(lines[from]) then None
    else HeaderIndexFrom(lines, key, from + 1)
  }

  /** The line found is the first match, with no blank line before it;
      when none is found, every match comes after a blank line. */
  lemma {:induction false} HeaderIndexFirst(lines: seq<string>, key: string, from: nat)
    requires from <= |lines|
    ensures var r := HeaderIndexFrom(lines, key, from);
      r.Some? ==> forall j :: from <= j < r.value ==> !HeaderLineMatches(lines[j], key) && !IsBlank(lines[j])
    ensures HeaderIndexFrom(lines, key, from).None? ==>
      forall i :: from <= i < |lines| && HeaderLineMatches(lines[i], key) ==>
        exists j :: from <= j < i && IsBlank(lines[j])
    decreases |lines| - from
  {
    if from < |lines| && !HeaderLineMatches(lines[from], key) {
      if IsBlank(lines[from]) {
        forall i | from <= i < |lines| && HeaderLineMatches(lines[i], key)
          ensures exists j :: from <= j < i && IsBlank(lines[j])
        {
          assert i != from;
        }
      } else {
        HeaderIndexFirst(lines, key, from + 1);
        forall i | from <= i < |lines| && HeaderLineMatches(lines[i], key)
          ensures i != from
        {
        }
      }
    }
  }

  /** `extract_header`: the trimmed value of the first header line whose
      name is `name` (ignoring ASCII case), looking no further than the
      first blank line. */
  function ExtractHeader(resp: string, name: string): (r: Option<string>)
    ensures r.Some? ==> exists i ::
      && 0 <= i < |Lines(resp)|
      && HeaderLineMatches(Lines(resp)[i], Lower(name))
      && r.value == HeaderValue(Lines(resp)[i])
      && forall j :: 0 <= j < i ==> !IsBlank(Lines(resp)[j]) && !HeaderLineMatches(Lines(resp)[j], Lower(name))
    ensures r.None? ==>
      forall i :: 0 <= i < |Lines(resp)| && HeaderLineMatches(Lines(resp)[i], Lower(name)) ==>
        exists j :: 0 <= j < i && IsBlank(Lines(resp)[j])
  {
    var lines := Lines(resp);
    HeaderIndexFirst(lines, Lower(name), 0);
    match HeaderIndexFrom(lines, Lower(name), 0)
    case None => None
    case Some(i) =>
      assert SplitOnce(lines[i], ':').Some?;
      Some(HeaderValue(lines[i]))
  }

  /** The header value is one line of the response: it holds no line feed
      and has no whitespace at either end. */
  lemma HeaderValueShape(resp: string, name: string)
    requires ExtractHeader(resp, name).Some?
    ensures '\n' !in ExtractHeader(resp, name).value
    ensures Trim(ExtractHeader(resp, name).value) == ExtractHeader(resp, name).value
  {
    var lines := Lines(resp);
    LinesHaveNoLineFeed(resp);
    var i := HeaderIndexFrom(lines, Lower(name), 0).value;
    var line := lines[i];
    var v := SplitOnce(line, ':').value.1;
    assert line == SplitOnce(line, ':').value.0 + [':'] + v;
    assert forall c :: c in v ==> c in line;
    TrimIsSlice(v);
    var t := Trim(v);
    if |t| > 0 {
      assert forall c :: c in t ==> c in v;
      TrimOfTrimmed(t);
    }
  }

  /** The name is matched without regard to ASCII case. */
  lemma ExtractHeaderNameCase(resp: string, n1: string, n2: string)
    requires EqIgnoreAsciiCase(n1, n2)
    ensures ExtractHeader(resp, n1) == ExtractHeader(resp, n2)
  {
  }

  // ---------------------------------------------------------------------
  // Title lookup

  /** The texts `extract_html_title` searches for, in lower case. */
  const OpenTag: string := "<title"
  const TagEnd: string := ">"
  const CloseTag: string := "</title>"
  const HeaderEnd: string := "\r\n\r\n"

  /** Where the body starts: just past the first "\r\n\r\n", or at the
      beginning when there is none. */
  function BodyStart(lower: string): (r: nat)
    ensures r <= |lower|
    ensures r > 0 ==> r >= 4 && MatchesAt(lower, HeaderEnd, r - 4)
    ensures r > 0 ==> forall j :: 0 <= j < r - 4 ==> !MatchesAt(lower, HeaderEnd, j)
    ensures r == 0 ==> forall j :: 0 <= j ==> !MatchesAt(lower, HeaderEnd, j)
  {
    match Find(lower, HeaderEnd)
    case None => 0
    case Some(i) => i + 4
  }

  /** The positions `extract_html_title` settles on in the lower-cased
      response: the opening tag, the first character after its '>', and
      the start of the closing tag. */
  datatype TitleSpan = TitleSpan(open: nat, start: nat, end: nat)

  /** The title span described by searches of the whole lower-cased text:
      the first "<title" at or after the body start, the first '>' at or
      after it, and the first "</title>" after that '>'. */
  function TitleSpanOf(lower: string): Option<TitleSpan>
  {
    var o := FindFrom(lower, OpenTag, BodyStart(lower));
    if o.None? then None
    else
      var g := FindFrom(lower, TagEnd, o.value);
      if g.None? then None
      else
        var e := FindFrom(lower, CloseTag, g.value + 1);
        if e.None? then None
        else Some(TitleSpan(o.value, g.value + 1, e.value))
  }

  /** The span found lies in the body, is delimited by the tags, and each
      delimiter is the first one after the previous. */
  lemma TitleSpanShape(lower: string)
    ensures var r := TitleSpanOf(lower);
      r.Some? ==>
      && BodyStart(lower) <= r.value.open < r.value.start <= r.value.end <= |lower|
      && MatchesAt(lower, OpenTag, r.value.open)
      && MatchesAt(lower, TagEnd, r.value.start - 1)
      && MatchesAt(lower, CloseTag, r.value.end)
      && (forall j :: BodyStart(lower) <= j < r.value.open ==> !MatchesAt(lower, OpenTag, j))
      && (forall j :: r.value.open <= j < r.value.start - 1 ==> !MatchesAt(lower, TagEnd, j))
      && (forall j :: r.value.start <= j < r.value.end ==> !MatchesAt(lower, CloseTag, j))
  {
  }

  /** `extract_html_title`'s search, on slices of the lower-cased text as
      the source takes them (`lbody`, `after`, `rest_l`); it finds the span
      described above. */
  function FindTitle(lower: string): (r: Option<TitleSpan>)
    ensures r == TitleSpanOf(lower)
  {
    var b := BodyStart(lower);
    var o := FindInSlice(lower, OpenTag, b);
    if o.None? then None
    else
      var g := FindInSlice(lower, TagEnd, o.value);
      if g.None? then None
      else
        var e := FindInSlice(lower, CloseTag, g.value + 1);
        if e.None? then None
        else Some(TitleSpan(o.value, g.value + 1, e.value))
  }

  /** Whenever the body holds "<title", then a '>', then "</title>", some
      title span is found. */
  lemma FindTitleComplete(lower: string, ts: nat, g: nat, e: nat)
    requires BodyStart(lower) <= ts <= g < e
    requires MatchesAt(lower, OpenTag, ts)
    requires MatchesAt(lower, TagEnd, g)
    requires MatchesAt(lower, CloseTag, e)
    ensures FindTitle(lower).Some?
  {
    var o := FindFrom(lower, OpenTag, BodyStart(lower));
    assert o.Some? && o.value <= ts;
    var c := FindFrom(lower, TagEnd, o.value);
    assert c.Some? && c.value <= g;
    var d := FindFrom(lower, CloseTag, c.value + 1);
    assert d.Some?;
  }

  /** The title text before any shortening: the original-case text inside
      the span, trimmed. */
  function TitleText(resp: string): (r: Option<string>)
    ensures r.Some? <==> FindTitle(Lower(resp)).Some?
    ensures r.Some? ==> r.value == Trim(resp[FindTitle(Lower(resp)).value.start..FindTitle(Lower(resp)).value.end])
  {
    match FindTitle(Lower(resp))
    case None => None
    case Some(sp) => Some(Trim(resp[sp.start..sp.end]))
  }

  /** Positions `o`, `g`, `e` of the lower-cased text delimit the title:
      the first "<title" in the body, the first '>' from there on, and the
      first "</title>" after that '>'. */
  predicate IsTitleSpan(lower: string, o: nat, g: nat, e: nat)
  {
    && BodyStart(lower) <= o <= g < e
    && MatchesAt(lower, OpenTag, o) && MatchesAt(lower, TagEnd, g) && MatchesAt(lower, CloseTag, e)
    && (forall j :: BodyStart(lower) <= j < o ==> !MatchesAt(lower, OpenTag, j))
    && (forall j :: o <= j < g ==> !MatchesAt(lower, TagEnd, j))
    && (forall j :: g < j < e ==> !MatchesAt(lower, CloseTag, j))
  }

  /** Delimiters of that kind are the ones the search settles on. */
  lemma TitleSpanUnique(lower: string, o: nat, g: nat, e: nat)
    requires IsTitleSpan(lower, o, g, e)
    ensures FindTitle(lower) == Some(TitleSpan(o, g + 1, e))
  {
    var b := BodyStart(lower);
    FindFromIs(lower, OpenTag, b, o);
    FindFromIs(lower, TagEnd, o, g);
    FindFromIs(lower, CloseTag, g + 1, e);
    TitleSpanOfFinds(lower, o, g, e);
  }

  /** The span assembled from the three searches. */
  lemma TitleSpanOfFinds(lower: string, o: nat, g: nat, e: nat)
    requires FindFrom(lower, OpenTag, BodyStart(lower)) == Some(o)
    requires FindFrom(lower, TagEnd, o) == Some(g)
    requires FindFrom(lower, CloseTag, g + 1) == Some(e)
    ensures TitleSpanOf(lower).Some? && TitleSpanOf(lower).value.open == o
    ensures TitleSpanOf(lower).value.start == g + 1 && TitleSpanOf(lower).value.end == e
  {
    assert TitleSpanOf(lower).Some?;
  }

  /** The title read off such delimiters. */
  lemma TitleTextOfSpan(resp: string, o: nat, g: nat, e: nat)
    requires IsTitleSpan(Lower(resp), o, g, e)
    ensures e <= |resp| && TitleText(resp) == Some(Trim(resp[g + 1..e]))
  {
    TitleSpanUnique(Lower(resp), o, g, e);
  }

  /** A response has a title exactly when its lower-cased text has title
      delimiters, and the title is then the trimmed original-case text
      between the '>' and the closing tag. */
  lemma TitleTextIff(resp: string)
    ensures TitleText(resp).Some? <==> exists o: nat, g: nat, e: nat :: IsTitleSpan(Lower(resp), o, g, e)
    ensures forall o: nat, g: nat, e: nat :: IsTitleSpan(Lower(resp), o, g, e) ==>
              e <= |resp| && TitleText(resp) == Some(Trim(resp[g + 1..e]))
  {
    var lower := Lower(resp);
    forall o: nat, g: nat, e: nat | IsTitleSpan(lower, o, g, e)
      ensures e <= |resp| && TitleText(resp) == Some(Trim(resp[g + 1..e]))
    {
      TitleTextOfSpan(resp, o, g, e);
    }
    if TitleText(resp).Some? {
      TitleSpanShape(lower);
      var sp := TitleSpanOf(lower).value;
      assert IsTitleSpan(lower, sp.open, sp.start - 1, sp.end);
    }
  }

  /** Whether a title is found depends on the response only up to ASCII
      case, and then the two titles agree up to ASCII case. */
  lemma TitleTagCaseInsensitive(r1: string, r2: string)
    requires Lower(r1) == Lower(r2)
    ensures TitleText(r1).Some? <==> TitleText(r2).Some?
    ensures TitleText(r1).Some? ==> Lower(TitleText(r1).value) == Lower(TitleText(r2).value)
  {
    if TitleText(r1).Some? {
      var sp := FindTitle(Lower(r1)).value;
      LowerSlice(r1, sp.start, sp.end);
      LowerSlice(r2, sp.start, sp.end);
      LowerTrim(r1[sp.start..sp.end]);
      LowerTrim(r2[sp.start..sp.end]);
    }
  }

  // ---------------------------------------------------------------------
  // Title length

  /** The title is cut to this many bytes of UTF-8. */
  const MaxTitleBytes: nat := 120

  /** Bytes UTF-8 needs for one character. */
  function Utf8Width(c: char): (r: nat)
    ensures 1 <= r <= 4
    ensures r == 1 <==> c as int < 0x80
  {
    if c as int < 0x80 then 1
    else if c as int < 0x800 then 2
    else if c as int < 0x1_0000 then 3
    else 4
  }

  /** `str::len`: the length of the UTF-8 encoding, in bytes. */
  function Utf8Len(s: string): (r: nat)
    ensures r >= |s|
    decreases |s|
  {
    if |s| == 0 then 0 else Utf8Width(s[0]) + Utf8Len(s[1..])
  }

  lemma {:induction false} Utf8LenAppend(a: string, b: string)
    ensures Utf8Len(a + b) == Utf8Len(a) + Utf8Len(b)
    decreases |a|
  {
    if |a| == 0 {
      assert a + b == b;
    } else {
      assert (a + b)[1..] == a[1..] + b;
      Utf8LenAppend(a[1..], b);
    }
  }

  /** ASCII text takes one byte per character. */
  lemma {:induction false} Utf8LenAscii(s: string)
    requires forall i :: 0 <= i < |s| ==> s[i] as int < 0x80
    ensures Utf8Len(s) == |s|
    decreases |s|
  {
    if |s| > 0 {
      Utf8LenAscii(s[1..]);
    }
  }

  /** The longest prefix of `s` whose encoding fits in `n` bytes: the text
      up to the last character boundary at or before byte `n`. */
  function PrefixWithin(s: string, n: nat): (r: string)
    ensures |r| <= |s| && r == s[..|r|]
    ensures Utf8Len(r) <= n
    ensures |r| < |s| ==> Utf8Len(r) + Utf8Width(s[|r|]) > n
    decreases |s|
  {
    if |s| == 0 || Utf8Width(s[0]) > n then []
    else
      var rest := PrefixWithin(s[1..], n - Utf8Width(s[0]));
      assert ([s[0]] + rest)[1..] == rest;
      [s[0]] + rest
  }

  /** Shortening of the title as the source intends it: text longer than
      120 bytes is cut at the last character boundary within 120 bytes. */
  function TruncateTitle(t: string): (r: string)
    ensures Utf8Len(r) <= MaxTitleBytes && |r| <= MaxTitleBytes
    ensures StartsWith(t, r)
    ensures Utf8Len(t) <= MaxTitleBytes ==> r == t
    ensures |r| < |t| ==> Utf8Len(r) + Utf8Width(t[|r|]) > MaxTitleBytes
  {
    if Utf8Len(t) <= MaxTitleBytes then t else PrefixWithin(t, MaxTitleBytes)
  }

  /** What `String::truncate(120)` does: keep the first 120 bytes, or
      panic when byte 120 falls inside a character. */
  datatype Truncated = Kept(text: string) | Panicked

  function TruncateTitleAsWritten(t: string): (r: Truncated)
    ensures r.Kept? && Utf8Len(t) > MaxTitleBytes ==> Utf8Len(r.text) == MaxTitleBytes
  {
    if Utf8Len(t) <= MaxTitleBytes then Kept(t)
    else
      var p := PrefixWithin(t, MaxTitleBytes);
      if Utf8Len(p) == MaxTitleBytes then Kept(p) else Panicked
  }

  /** Where the byte-based cut does not panic it agrees with the intended
      one. */
  lemma TruncateAsWrittenAgrees(t: string)
    ensures TruncateTitleAsWritten(t).Kept? ==> TruncateTitleAsWritten(t).text == TruncateTitle(t)
    ensures TruncateTitleAsWritten(t).Panicked? <==>
              Utf8Len(t) > MaxTitleBytes && Utf8Len(TruncateTitle(t)) < MaxTitleBytes
  {
  }

  /** 119 ASCII characters followed by any character of two or more bytes:
      byte 120 is inside that character, and the cut panics. */
  lemma TruncatePanics(a: string, c: char)
    requires |a| == 119 && forall i :: 0 <= i < |a| ==> a[i] as int < 0x80
    requires Utf8Width(c) >= 2
    ensures TruncateTitleAsWritten(a + [c]) == Panicked
  {
    var t := a + [c];
    Utf8LenAscii(a);
    Utf8LenAppend(a, [c]);
    assert Utf8Len([c]) == Utf8Width(c) by {
      assert [c][1..] == [];
    }
    var p := PrefixWithin(t, MaxTitleBytes);
    assert Utf8Len(t) > MaxTitleBytes;
    assert t[..|t|] == t;
    assert |p| < |t|;
    assert forall i :: 0 <= i < |p| ==> p[i] == t[i] == a[i];
    Utf8LenAscii(p);
  }

  /** A concrete title: 119 letters `a`, then U+00E9 (two bytes in UTF-8). */
  lemma TruncatePanicExample()
    ensures TruncateTitleAsWritten(seq(119, _ => 'a') + ['\U{E9}']) == Panicked
  {
    TruncatePanics(seq(119, _ => 'a'), '\U{E9}');
  }

  // ---------------------------------------------------------------------
  // Title extraction

  /** `extract_html_title`, with the length limit applied at a character
      boundary. */
  function ExtractHtmlTitle(resp: string): (r: Option<string>)
    ensures r.Some? <==> FindTitle(Lower(resp)).Some?
    ensures r.Some? ==> Utf8Len(r.value) <= MaxTitleBytes && |r.value| <= MaxTitleBytes
    ensures r.Some? ==> StartsWith(TitleText(resp).value, r.value)
    ensures r.Some? && Utf8Len(TitleText(resp).value) <= MaxTitleBytes ==> r.value == TitleText(resp).value
  {
    match TitleText(resp)
    case None => None
    case Some(t) => Some(TruncateTitle(t))
  }

  /** `extract_html_title` as written, with the byte-based cut. */
  function ExtractHtmlTitleAsWritten(resp: string): (r: Option<Truncated>)
    ensures r.Some? <==> ExtractHtmlTitle(resp).Some?
    ensures r.Some? && r.value.Kept? ==> r.value.text == ExtractHtmlTitle(resp).value
  {
    match TitleText(resp)
    case None => None
    case Some(t) =>
      TruncateAsWrittenAgrees(t);
      Some(TruncateTitleAsWritten(t))
  }

  // ---------------------------------------------------------------------
  // The HTTP banner

  /** The banner `probe_http` assembles from the header and the title:
      "HTTP", then the found fields, server first, joined by ", ". */
  function HttpBanner(server: Option<string>, title: Option<string>): (r: string)
    ensures StartsWith(r, "HTTP")
    ensures r == "HTTP" <==> server.None? && title.None?
  {
    var parts :=
      (if server.Some? then ["server=" + server.value] else []) +
      (if title.Some? then ["title=\"" + title.value + "\""] else []);
    if |parts| == 0 then "HTTP" else "HTTP " + Join(parts, ", ")
  }

  /** The four shapes of the HTTP banner: bare, one field, or the server
      field then the title field. */
  lemma HttpBannerShapes(s: string, t: string)
    ensures HttpBanner(None, None) == "HTTP"
    ensures HttpBanner(Some(s), None) == "HTTP " + ("server=" + s)
    ensures HttpBanner(None, Some(t)) == "HTTP " + ("title=\"" + t + "\"")
    ensures HttpBanner(Some(s), Some(t)) == "HTTP " + ("server=" + s + ", " + ("title=\"" + t + "\""))
  {
    BannerOneField(Some(s), None, "server=" + s);
    BannerOneField(None, Some(t), "title=\"" + t + "\"");
    BannerBothFields(s, t);
  }

  lemma BannerOneField(server: Option<string>, title: Option<string>, field: string)
    requires server.Some? != title.Some?
    requires server.Some? ==> field == "server=" + server.value
    requires title.Some? ==> field == "title=\"" + title.value + "\""
    ensures HttpBanner(server, title) == "HTTP " + field
  {
    var parts :=
      (if server.Some? then ["server=" + server.value] else []) +
      (if title.Some? then ["title=\"" + title.value + "\""] else []);
    assert parts == [field];
  }

  lemma BannerBothFields(s: string, t: string)
    ensures var sf, tf := "server=" + s, "title=\"" + t + "\"";
            HttpBanner(Some(s), Some(t)) == "HTTP " + (sf + ", " + tf)
  {
    var sf, tf := "server=" + s, "title=\"" + t + "\"";
    var parts := [sf] + [tf];
    assert parts[1..] == [tf];
    assert Join(parts, ", ") == sf + ", " + tf;
  }

  /** `probe_http` once the request is sent and the reply collected: no
      banner when the write timed out or nothing came back, otherwise the
      banner built from the `Server` header and the title. */
  function ProbeHttp(writeTimedOut: bool, response: string): (r: Option<string>)
    ensures r.Some? <==> !writeTimedOut && |response| > 0
    ensures r.Some? ==> StartsWith(r.value, "HTTP")
    ensures r == Some("HTTP") <==>
              !writeTimedOut && |response| > 0 &&
              ExtractHeader(response, "server").None? && ExtractHtmlTitle(response).None?
  {
    if writeTimedOut || |response| == 0 then None
    else Some(HttpBanner(ExtractHeader(response, "server"), ExtractHtmlTitle(response)))
  }

  /** The title cut of the response panics. */
  predicate TitleCutPanics(response: string)
  {
    ExtractHtmlTitleAsWritten(response) == Some(Panicked)
  }

  /** `probe_http` as written, with the byte-based title cut: it panics
      exactly when a reply came back and its title cut panics, and
      otherwise gives the banner of the corrected probe. */
  function ProbeHttpAsWritten(writeTimedOut: bool, response: string): (r: Completion<Option<string>>)
    ensures r.Panic? <==> !writeTimedOut && |response| > 0 && TitleCutPanics(response)
    ensures r.Returned? ==> r.value == ProbeHttp(writeTimedOut, response)
  {
    if writeTimedOut || |response| == 0 then Returned(None)
    else
      var server := ExtractHeader(response, "server");
      match ExtractHtmlTitleAsWritten(response)
      case None => Returned(Some(HttpBanner(server, None)))
      case Some(Panicked) => Panic
      case Some(Kept(t)) => Returned(Some(HttpBanner(server, Some(t))))
  }

  /** A response that is just a title element whose text has no '<' and
      no carriage return: the title is that text, trimmed. */
  lemma TitleOfElement(t: string)
    requires '<' !in t && '\r' !in t
    ensures TitleText(OpenTag + TagEnd + t + CloseTag) == Some(Trim(t))
  {
    var resp := OpenTag + TagEnd + t + CloseTag;
    var n := |OpenTag| + |TagEnd|;
    LowerOfElement(t);
    ElementSpan(Lower(resp), |t|);
    assert resp[n..n + |t|] == t;
  }

  /** Lower-casing a title element keeps its tags and puts no '<' and no
      carriage return into its text. */
  lemma LowerOfElement(t: string)
    requires '<' !in t && '\r' !in t
    ensures var lower, n := Lower(OpenTag + TagEnd + t + CloseTag), |OpenTag| + |TagEnd|;
      && |lower| == n + |t| + |CloseTag|
      && lower[..n] == OpenTag + TagEnd && lower[n + |t|..] == CloseTag
      && forall i :: n <= i < n + |t| ==> lower[i] != '<' && lower[i] != '\r'
  {
    var head := OpenTag + TagEnd;
    LowerAppend(head + t, CloseTag);
    LowerAppend(head, t);
    assert Lower(head) == head;
    assert Lower(CloseTag) == CloseTag;
    var lower := Lower(head + t + CloseTag);
    assert lower == head + Lower(t) + CloseTag;
    forall i | |head| <= i < |head| + |t| ensures lower[i] != '<' && lower[i] != '\r' {
      assert lower[i] == Lower(t)[i - |head|];
      assert t[i - |head|] in t;
    }
  }

  /** The title span of a lower-cased title element with `m` characters of
      text: the text between the tags. */
  lemma ElementSpan(lower: string, m: nat)
    requires var n := |OpenTag| + |TagEnd|;
      && |lower| == n + m + |CloseTag|
      && lower[..n] == OpenTag + TagEnd && lower[n + m..] == CloseTag
      && forall i :: n <= i < n + m ==> lower[i] != '<' && lower[i] != '\r'
    ensures TitleSpanOf(lower) == Some(TitleSpan(0, |OpenTag| + |TagEnd|, |OpenTag| + |TagEnd| + m))
  {
    var n := |OpenTag| + |TagEnd|;
    assert forall i :: 0 <= i < n ==> lower[i] == (OpenTag + TagEnd)[i];
    assert forall i :: n + m <= i < |lower| ==> lower[i] == CloseTag[i - n - m];
    forall j | 0 <= j ensures !MatchesAt(lower, HeaderEnd, j) {
      if j + 4 <= |lower| {
        assert lower[j] != HeaderEnd[0];
      }
    }
    assert BodyStart(lower) == 0;
    FindFromIs(lower, OpenTag, 0, 0);
    forall j | 0 <= j < n - 1 ensures !MatchesAt(lower, TagEnd, j) {
      assert lower[j] != TagEnd[0];
    }
    FindFromIs(lower, TagEnd, 0, n - 1);
    forall j | n <= j < n + m ensures !MatchesAt(lower, CloseTag, j) {
      assert lower[j] != CloseTag[0];
    }
    FindFromIs(lower, CloseTag, n, n + m);
  }

  /** A response whose title is 119 ASCII characters, the first not
      whitespace and none '<' or a carriage return, followed by a
      non-whitespace character of two or more bytes: the title cut panics. */
  lemma TitleCutPanicsOn(a: string, c: char)
    requires |a| == 119 && forall i :: 0 <= i < |a| ==> a[i] as int < 0x80 && a[i] != '<' && a[i] != '\r'
    requires !IsWhitespace(a[0]) && !IsWhitespace(c) && Utf8Width(c) >= 2
    ensures TitleCutPanics(OpenTag + TagEnd + (a + [c]) + CloseTag)
  {
    var t := a + [c];
    PanicTitleText(a, c);
    TruncatePanics(a, c);
    assert ExtractHtmlTitleAsWritten(OpenTag + TagEnd + t + CloseTag) == Some(Panicked);
  }

  /** The title of such a response is the whole element text. */
  lemma PanicTitleText(a: string, c: char)
    requires forall i :: 0 <= i < |a| ==> a[i] != '<' && a[i] != '\r'
    requires |a| > 0 && !IsWhitespace(a[0]) && !IsWhitespace(c) && Utf8Width(c) >= 2
    ensures TitleText(OpenTag + TagEnd + (a + [c]) + CloseTag) == Some(a + [c])
  {
    var t := a + [c];
    assert c as int >= 0x80;
    forall i | 0 <= i < |t| ensures t[i] != '<' && t[i] != '\r' {
      if i < |a| { assert t[i] == a[i]; } else { assert t[i] == c; }
    }
    assert '<' !in t && '\r' !in t;
    TitleOfElement(t);
    TrimOfTrimmed(t);
  }

  /** A response holding a title of 119 letters `a` and U+00E9: the title
      cut panics. */
  lemma TitleCutPanicExample()
    ensures TitleCutPanics(OpenTag + TagEnd + (seq(119, _ => 'a') + ['\U{E9}']) + CloseTag)
  {
    TitleCutPanicsOn(seq(119, _ => 'a'), '\U{E9}');
  }
}

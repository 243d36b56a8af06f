/** The slice of Rust's `str` API the scanner relies on, over strings as
    sequences of Unicode scalar values: ASCII case folding, `find`,
    `split_once`, `trim`, `lines` and `replace`. */
module Text {
  import opened Wrappers

  /** `char::is_whitespace`: the Unicode White_Space property. */
  predicate IsWhitespace(c: char)
  {
    || ('\t' <= c <= '\r')
    || c == ' '
    || c == '\U{0085}'
    || c == '\U{00A0}'
    || c == '\U{1680}'
    || ('\U{2000}' <= c <= '\U{200A}')
    || c == '\U{2028}'
    || c == '\U{2029}'
    || c == '\U{202F}'
    || c == '\U{205F}'
    || c == '\U{3000}'
  }

  predicate AllWhitespace(s: string)
  {
    forall i :: 0 <= i < |s| ==> IsWhitespace(s[i])
  }

  /** `char::to_ascii_lowercase`: only 'A'..'Z' change. */
  function AsciiLower(c: char): char
  {
    if 'A' <= c <= 'Z' then (c as int + 32) as char else c
  }

  /** `str::to_ascii_lowercase`, which keeps every position in place. */
  function Lower(s: string): string
  {
    seq(|s|, i requires 0 <= i < |s| => AsciiLower(s[i]))
  }

  /** `str::eq_ignore_ascii_case`. */
  predicate EqIgnoreAsciiCase(a: string, b: string)
  {
    Lower(a) == Lower(b)
  }

  predicate StartsWith(s: string, prefix: string)
  {
    |prefix| <= |s| && s[..|prefix|] == prefix
  }

  predicate EndsWith(s: string, suffix: string)
  {
    |suffix| <= |s| && s[|s| - |suffix|..] == suffix
  }

  /** `pat` occurs in `s` starting at position `i`. */
  predicate MatchesAt(s: string, pat: string, i: nat)
  {
    i + |pat| <= |s| && s[i..i + |pat|] == pat
  }

  /** Leftmost occurrence of `pat` in `s` at or after `from`. */
  function FindFrom(s: string, pat: string, from: nat): (r: Option<nat>)
    ensures r.Some? ==>
      && from <= r.value && r.value + |pat| <= |s|
      && MatchesAt(s, pat, r.value)
      && forall j :: from <= j < r.value ==> !MatchesAt(s, pat, j)
    ensures r.None? ==> forall j :: from <= j ==> !MatchesAt(s, pat, j)
    decreases |s| - from
  {
    if |s| < from + |pat| then None
    else if s[from..from + |pat|] == pat then Some(from)
    else FindFrom(s, pat, from + 1)
  }

  /** An occurrence with none before it, from `from` on, is the one found. */
  lemma FindFromIs(s: string, pat: string, from: nat, i: nat)
    requires from <= i && MatchesAt(s, pat, i)
    requires forall j :: from <= j < i ==> !MatchesAt(s, pat, j)
    ensures FindFrom(s, pat, from) == Some(i)
  {
  }

  /** `str::find`: the index of the leftmost occurrence of `pat`. */
  function Find(s: string, pat: string): Option<nat>
  {
    FindFrom(s, pat, 0)
  }

  /** `str::contains`. */
  predicate Contains(s: string, pat: string)
  {
    Find(s, pat).Some?
  }

  lemma ContainsIff(s: string, pat: string)
    ensures Contains(s, pat) <==> exists i: nat :: MatchesAt(s, pat, i)
  {
  }

  lemma MatchesAtChar(s: string, c: char, i: nat)
    ensures MatchesAt(s, [c], i) <==> i < |s| && s[i] == c
  {
    if i < |s| {
      assert s[i..i + 1] == [s[i]];
    }
  }

  /** A pattern with a character the text lacks does not occur in it. */
  lemma CharAbsent(s: string, pat: string, k: nat)
    requires k < |pat| && pat[k] !in s
    ensures !Contains(s, pat)
  {
    forall i: nat | i + |pat| <= |s| ensures !MatchesAt(s, pat, i) {
      assert s[i..i + |pat|][k] == s[i + k];
      assert s[i + k] in s;
    }
  }

  /** `str::split_once` on a single character: the text before and after
      the first occurrence of `c`. */
  function SplitOnce(s: string, c: char): (r: Option<(string, string)>)
    ensures r.Some? <==> c in s
    ensures r.Some? ==> s == r.value.0 + [c] + r.value.1 && c !in r.value.0
  {
    match Find(s, [c])
    case None =>
      assert c !in s by {
        forall i | 0 <= i < |s| ensures s[i] != c {
          MatchesAtChar(s, c, i);
        }
      }
      None
    case Some(i) =>
      MatchesAtChar(s, c, i);
      assert c !in s[..i] by {
        forall j | 0 <= j < i ensures s[j] != c {
          MatchesAtChar(s, c, j);
        }
      }
      assert s == s[..i] + [c] + s[i + 1..];
      Some((s[..i], s[i + 1..]))
  }

  /** Splitting at the first `c` finds the `c` that follows a `c`-free
      prefix. */
  lemma SplitOnceAt(a: string, c: char, b: string)
    requires c !in a
    ensures SplitOnce(a + [c] + b, c) == Some((a, b))
    ensures BeforeFirst(a + [c] + b, c) == a
  {
    var s := a + [c] + b;
    assert s[|a|] == c;
    var r := SplitOnce(s, c).value;
    assert forall k :: 0 <= k < |a| ==> s[k] == a[k];
    assert forall k :: 0 <= k < |r.0| ==> s[k] == r.0[k];
    assert |r.0| == |a|;
    assert r.0 == s[..|a|] == a;
    assert r.1 == s[|a| + 1..] == b;
  }

  /** `str::split(c).next()`: everything before the first `c`, or the
      whole string when `c` does not occur. */
  function BeforeFirst(s: string, c: char): (r: string)
    ensures c !in r
    ensures StartsWith(s, r)
    ensures c in s ==> |r| < |s| && s[|r|] == c
    ensures c !in s ==> r == s
  {
    match SplitOnce(s, c)
    case None => s
    case Some((a, _)) => a
  }

  /** `str::trim_start`. */
  function TrimStart(s: string): (r: string)
    ensures |r| <= |s| && r == s[|s| - |r|..]
    ensures AllWhitespace(s[..|s| - |r|])
    ensures |r| > 0 ==> !IsWhitespace(r[0])
    decreases |s|
  {
    if |s| > 0 && IsWhitespace(s[0]) then TrimStart(s[1..]) else s
  }

  /** `str::trim_end`. */
  function TrimEnd(s: string): (r: string)
    ensures |r| <= |s| && r == s[..|r|]
    ensures AllWhitespace(s[|r|..])
    ensures |r| > 0 ==> !IsWhitespace(r[|r| - 1])
    decreases |s|
  {
    if |s| > 0 && IsWhitespace(s[|s| - 1]) then TrimEnd(s[..|s| - 1]) else s
  }

  /** `str::trim`. */
  function Trim(s: string): string
  {
    TrimEnd(TrimStart(s))
  }

  /** Trimming keeps a contiguous piece of the input and drops exactly the
      whitespace around it. */
  lemma TrimIsSlice(s: string)
    ensures exists i, j ::
              && 0 <= i <= j <= |s|
              && Trim(s) == s[i..j]
              && AllWhitespace(s[..i])
              && AllWhitespace(s[j..])
    ensures |Trim(s)| > 0 ==> !IsWhitespace(Trim(s)[0]) && !IsWhitespace(Trim(s)[|Trim(s)| - 1])
  {
    var t := TrimStart(s);
    var e := TrimEnd(t);
    var i := |s| - |t|;
    var j := i + |e|;
    SliceOfSuffix(s, i, |e|);
    assert Trim(s) == s[i..j];
    if |e| > 0 {
      assert e[0] == t[0];
    }
  }

  lemma SliceOfSuffix(s: string, i: nat, k: nat)
    requires i + k <= |s|
    ensures s[i..][..k] == s[i..i + k]
    ensures s[i..][k..] == s[i + k..]
  {
  }

  /** A string trims to nothing exactly when it is all whitespace. */
  lemma TrimEmptyIff(s: string)
    ensures Trim(s) == [] <==> AllWhitespace(s)
  {
    var t := TrimStart(s);
    if Trim(s) == [] {
      assert s == s[..|s| - |t|] + t;
      assert t == t[|TrimEnd(t)|..];
    }
  }

  /** Text that starts and ends with a non-whitespace character is its own
      trim. */
  lemma TrimOfTrimmed(s: string)
    requires |s| > 0 && !IsWhitespace(s[0]) && !IsWhitespace(s[|s| - 1])
    ensures Trim(s) == s
  {
  }

  /** Whitespace padding on either side does not change the trimmed text. */
  lemma {:induction false} TrimPadding(pre: string, s: string, post: string)
    requires AllWhitespace(pre) && AllWhitespace(post)
    ensures Trim(pre + s + post) == Trim(s)
  {
    assert pre + s + post == pre + (s + post);
    TrimStartPadding(pre, s + post);
    if AllWhitespace(s) {
      assert AllWhitespace(s + post);
      TrimStartAllWhitespace(s + post);
      TrimStartAllWhitespace(s);
    } else {
      TrimStartAppend(s, post);
      TrimEndPadding(TrimStart(s), post);
    }
  }

  lemma {:induction false} TrimStartPadding(pre: string, s: string)
    requires AllWhitespace(pre)
    ensures TrimStart(pre + s) == TrimStart(s)
    decreases |pre|
  {
    if |pre| > 0 {
      assert (pre + s)[1..] == pre[1..] + s;
      TrimStartPadding(pre[1..], s);
    } else {
      assert pre + s == s;
    }
  }

  lemma {:induction false} TrimEndPadding(s: string, post: string)
    requires AllWhitespace(post)
    ensures TrimEnd(s + post) == TrimEnd(s)
    decreases |post|
  {
    if |post| > 0 {
      assert (s + post)[..|s + post| - 1] == s + post[..|post| - 1];
      TrimEndPadding(s, post[..|post| - 1]);
    } else {
      assert s + post == s;
    }
  }

  /** Whitespace appended after text that is not all whitespace is left for
      `trim_end` to remove: `trim_start` does not reach it. */
  lemma {:induction false} TrimStartAppend(s: string, post: string)
    requires !AllWhitespace(s) && AllWhitespace(post)
    ensures TrimStart(s + post) == TrimStart(s) + post
    decreases |s|
  {
    if IsWhitespace(s[0]) {
      assert (s + post)[1..] == s[1..] + post;
      TrimStartAppend(s[1..], post);
    }
  }

  lemma {:induction false} TrimStartAllWhitespace(s: string)
    requires AllWhitespace(s)
    ensures TrimStart(s) == []
    decreases |s|
  {
    if |s| > 0 {
      TrimStartAllWhitespace(s[1..]);
    }
  }

  /** Drops one '\r' from the end of a line that ended in "\r\n". */
  function StripCr(line: string): (r: string)
    ensures line == r || line == r + ['\r']
  {
    if |line| > 0 && line[|line| - 1] == '\r' then line[..|line| - 1] else line
  }

  /** `str::lines`: pieces separated by '\n', with a '\r' before each '\n'
      removed; the line ending of the last line is optional, so a final
      '\n' does not start an empty line. */
  function Lines(s: string): seq<string>
    decreases |s|
  {
    if |s| == 0 then []
    else match Find(s, "\n")
      case None => [s]
      case Some(i) => [StripCr(s[..i])] + Lines(s[i + 1..])
  }

  /** No line returned by `Lines` contains a line feed, and every line is a
      piece of the input. */
  lemma {:induction false} LinesHaveNoLineFeed(s: string)
    ensures forall k :: 0 <= k < |Lines(s)| ==> '\n' !in Lines(s)[k]
    ensures |Lines(s)| <= |s|
    decreases |s|
  {
    if |s| > 0 {
      match Find(s, "\n")
      case None =>
        assert '\n' !in s by {
          forall j | 0 <= j < |s| ensures s[j] != '\n' {
            MatchesAtChar(s, '\n', j);
          }
        }
      case Some(i) =>
        MatchesAtChar(s, '\n', i);
        assert '\n' !in s[..i] by {
          forall j | 0 <= j < i ensures s[j] != '\n' {
            MatchesAtChar(s, '\n', j);
          }
        }
        LinesHaveNoLineFeed(s[i + 1..]);
    }
  }

  /** `Lines` of a text made of '\n'-terminated lines gives back those lines. */
  lemma {:induction false} LinesOfTerminated(first: string, rest: string)
    requires '\n' !in first
    ensures Lines(first + "\n" + rest) == [StripCr(first)] + Lines(rest)
  {
    var s := first + "\n" + rest;
    MatchesAtChar(s, '\n', |first|);
    forall j | 0 <= j < |first| ensures !MatchesAt(s, "\n", j) {
      MatchesAtChar(s, '\n', j);
      assert s[j] == first[j];
    }
    assert Find(s, "\n") == Some(|first|);
    assert s[..|first|] == first;
    assert s[|first| + 1..] == rest;
  }

  /** `str::replace(c, rep)` for a single character `c`. */
  function ReplaceChar(s: string, c: char, rep: string): string
    decreases |s|
  {
    if |s| == 0 then []
    else (if s[0] == c then rep else [s[0]]) + ReplaceChar(s[1..], c, rep)
  }

  /** `.replace('\n', "\\n").replace('\r', "\\r")`: line breaks shown as
      backslash escapes so that a banner stays on one display line. */
  function EscapeLineBreaks(s: string): string
  {
    ReplaceChar(ReplaceChar(s, '\n', "\\n"), '\r', "\\r")
  }

  predicate HasNoLineBreak(s: string)
  {
    '\n' !in s && '\r' !in s
  }

  /** After replacing `c`, only characters of the input and of the
      replacement remain, and `c` is gone unless the replacement has it. */
  lemma {:induction false} ReplaceCharContents(s: string, c: char, rep: string, d: char)
    ensures d in ReplaceChar(s, c, rep) ==> (d in s && d != c) || d in rep
    decreases |s|
  {
    if |s| > 0 {
      ReplaceCharContents(s[1..], c, rep, d);
    }
  }

  lemma {:induction false} ReplaceCharIdentity(s: string, c: char, rep: string)
    requires c !in s
    ensures ReplaceChar(s, c, rep) == s
    decreases |s|
  {
    if |s| > 0 {
      ReplaceCharIdentity(s[1..], c, rep);
    }
  }

  lemma {:induction false} ReplaceCharAppend(a: string, b: string, c: char, rep: string)
    ensures ReplaceChar(a + b, c, rep) == ReplaceChar(a, c, rep) + ReplaceChar(b, c, rep)
    decreases |a|
  {
    if |a| == 0 {
      assert a + b == b;
    } else {
      assert (a + b)[1..] == a[1..] + b;
      ReplaceCharAppend(a[1..], b, c, rep);
    }
  }

  /** The escaped text never contains a line feed or a carriage return. */
  lemma EscapeRemovesLineBreaks(s: string)
    ensures HasNoLineBreak(EscapeLineBreaks(s))
  {
    var once := ReplaceChar(s, '\n', "\\n");
    ReplaceCharContents(s, '\n', "\\n", '\n');
    ReplaceCharContents(s, '\n', "\\n", '\r');
    ReplaceCharContents(once, '\r', "\\r", '\n');
    ReplaceCharContents(once, '\r', "\\r", '\r');
  }

  /** Text without line breaks is left unchanged by escaping. */
  lemma EscapeIdentity(s: string)
    requires HasNoLineBreak(s)
    ensures EscapeLineBreaks(s) == s
  {
    ReplaceCharIdentity(s, '\n', "\\n");
    ReplaceCharIdentity(s, '\r', "\\r");
  }

  /** Escaping works piece by piece. */
  lemma EscapeAppend(a: string, b: string)
    ensures EscapeLineBreaks(a + b) == EscapeLineBreaks(a) + EscapeLineBreaks(b)
  {
    ReplaceCharAppend(a, b, '\n', "\\n");
    ReplaceCharAppend(ReplaceChar(a, '\n', "\\n"), ReplaceChar(b, '\n', "\\n"), '\r', "\\r");
  }

  /** ASCII lower-casing is idempotent. */
  lemma LowerIdempotent(s: string)
    ensures Lower(Lower(s)) == Lower(s)
  {
  }

  /** `Lower` commutes with slicing and concatenation. */
  lemma LowerSlice(s: string, i: nat, j: nat)
    requires i <= j <= |s|
    ensures Lower(s[i..j]) == Lower(s)[i..j]
  {
  }

  lemma LowerAppend(a: string, b: string)
    ensures Lower(a + b) == Lower(a) + Lower(b)
  {
  }

  /** ASCII lower-casing neither creates nor removes whitespace, so it
      commutes with trimming. */
  lemma LowerTrim(s: string)
    ensures Lower(Trim(s)) == Trim(Lower(s))
  {
    LowerTrimStart(s);
    LowerTrimEnd(TrimStart(s));
  }

  lemma AsciiLowerWhitespace(c: char)
    ensures IsWhitespace(AsciiLower(c)) <==> IsWhitespace(c)
  {
  }

  lemma {:induction false} LowerTrimStart(s: string)
    ensures Lower(TrimStart(s)) == TrimStart(Lower(s))
    decreases |s|
  {
    if |s| > 0 {
      var l := Lower(s);
      assert l[0] == AsciiLower(s[0]);
      AsciiLowerWhitespace(s[0]);
      if IsWhitespace(s[0]) {
        assert l[1..] == Lower(s[1..]);
        LowerTrimStart(s[1..]);
      }
    }
  }

  lemma {:induction false} LowerTrimEnd(s: string)
    ensures Lower(TrimEnd(s)) == TrimEnd(Lower(s))
    decreases |s|
  {
    if |s| > 0 {
      var l := Lower(s);
      assert l[|s| - 1] == AsciiLower(s[|s| - 1]);
      AsciiLowerWhitespace(s[|s| - 1]);
      if IsWhitespace(s[|s| - 1]) {
        assert l[..|s| - 1] == Lower(s[..|s| - 1]);
        LowerTrimEnd(s[..|s| - 1]);
      }
    }
  }

  /** A match inside a suffix is a match in the whole text, shifted. */
  lemma MatchesAtShift(s: string, pat: string, b: nat, i: nat)
    requires b <= |s|
    ensures MatchesAt(s[b..], pat, i) <==> MatchesAt(s, pat, b + i)
  {
    if b + i + |pat| <= |s| {
      assert s[b..][i..i + |pat|] == s[b + i..b + i + |pat|];
    }
  }

  /** `find` on the suffix starting at `b` is the search of the whole text
      from `b`, with positions shifted by `b`. */
  lemma FindInSuffix(s: string, pat: string, b: nat)
    requires b <= |s|
    ensures Find(s[b..], pat).Some? <==> FindFrom(s, pat, b).Some?
    ensures Find(s[b..], pat).Some? ==> b + Find(s[b..], pat).value == FindFrom(s, pat, b).value
  {
    var x := Find(s[b..], pat);
    var y := FindFrom(s, pat, b);
    if x.Some? {
      MatchesAtShift(s, pat, b, x.value);
      assert y.Some?;
      MatchesAtShift(s, pat, b, y.value - b);
    }
    if y.Some? {
      MatchesAtShift(s, pat, b, y.value - b);
    }
  }
  /** `s[b..].find(pat)`, with the position given in `s`. */
  function FindInSlice(s: string, pat: string, b: nat): (r: Option<nat>)
    requires b <= |s|
    ensures r == FindFrom(s, pat, b)
  {
    FindInSuffix(s, pat, b);
    match Find(s[b..], pat)
    case None => None
    case Some(i) => Some(b + i)
  }


  /** Joins `parts` with `sep` in between, as `[String]::join`. */
  function Join(parts: seq<string>, sep: string): string
    decreases |parts|
  {
    if |parts| == 0 then []
    else if |parts| == 1 then parts[0]
    else parts[0] + sep + Join(parts[1..], sep)
  }

  /** `f` applied to every element together with its position counted
      from 1, as `enumerate` numbers the lines of a file for display. */
  function MapNumbered<A, B>(xs: seq<A>, f: (nat, A) -> B): (ys: seq<B>)
    ensures |ys| == |xs|
  {
    seq(|xs|, k requires 0 <= k < |xs| => f(k + 1, xs[k]))
  }

  lemma MapNumberedAt<A, B>(xs: seq<A>, f: (nat, A) -> B, k: nat)
    requires k < |xs|
    ensures MapNumbered(xs, f)[k] == f(k + 1, xs[k])
  {
  }
}

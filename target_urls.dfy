/** The list of target URLs read from the PERF_TARGET_URL environment
    variable: a comma-separated list, each entry trimmed and stripped of one
    surrounding quote character at each end, empty entries dropped, with a
    single built-in URL when the variable is unset or empty. */
module TargetUrls {
  import opened Wrappers
  import opened Strings

  const DEFAULT_TARGET_URL: string := "https://walmartrealm.com/"

  predicate IsQuote(c: char)
  {
    c == '"' || c == '\''
  }

  /** `r` is `t` with the first `i` (at most one) characters and at most one
      last character removed, and each removed character is a quote. */
  predicate StrippedAt(t: string, i: int, r: string)
  {
    && 0 <= i <= 1
    && OccursAt(t, r, i)
    && i + |r| + 1 >= |t|
    && (i == 1 ==> IsQuote(t[0]))
    && (i + |r| < |t| ==> IsQuote(t[|t| - 1]))
  }

  /** The replacement of /^["']|["']$/g by the empty string: a leading quote
      is removed, then a trailing quote of what is left is removed. */
  function StripQuotes(t: string): (r: string)
    ensures exists i :: StrippedAt(t, i, r)
    // a leading quote always goes
    ensures |t| > 0 && IsQuote(t[0]) ==> 1 + |r| <= |t| && r == t[1..1 + |r|]
    // with no leading quote, a trailing quote always goes
    ensures |t| > 0 && !IsQuote(t[0]) && IsQuote(t[|t| - 1]) ==> r == t[..|t| - 1]
    // with quotes at both ends of two or more characters, exactly the inside is kept
    ensures |t| >= 2 && IsQuote(t[0]) && IsQuote(t[|t| - 1]) ==> r == t[1..|t| - 1]
    // an end that is not a quote is kept
    ensures |t| > 0 && !IsQuote(t[0]) ==> r == t[..|r|]
    ensures |t| > 0 && !IsQuote(t[|t| - 1]) ==> r == t[|t| - |r|..]
  {
    var i := if |t| > 0 && IsQuote(t[0]) then 1 else 0;
    var u := t[i..];
    var r := if |u| > 0 && IsQuote(u[|u| - 1]) then u[..|u| - 1] else u;
    assert OccursAt(t, r, i);
    assert StrippedAt(t, i, r);
    r
  }

  /** One comma-separated segment as the list keeps it. */
  function Clean(segment: string): string
  {
    StripQuotes(Trim(segment))
  }

  /** A cleaned segment is a piece of the segment. */
  lemma CleanIsSubstring(segment: string)
    ensures exists i :: OccursAt(segment, Clean(segment), i)
  {
    var t := Trim(segment);
    var r := StripQuotes(t);
    var i :| PaddedAt(segment, i, t);
    var j :| StrippedAt(t, j, r);
    OccursWithin(segment, t, r, i, j);
    assert OccursAt(segment, Clean(segment), i + j);
  }

  /** `f` applied to each segment, position by position: the `map` step. */
  function MapEach(segments: seq<string>, f: string -> string): (mapped: seq<string>)
    ensures |mapped| == |segments|
    ensures forall k :: 0 <= k < |segments| ==> mapped[k] == f(segments[k])
  {
    if segments == [] then [] else [f(segments[0])] + MapEach(segments[1..], f)
  }

  /** The entries that are not empty, in their order: `filter(Boolean)`. */
  function DropEmpty(entries: seq<string>): (kept: seq<string>)
    ensures |kept| <= |entries|
    ensures forall k :: 0 <= k < |kept| ==> kept[k] != []
    ensures forall e :: e in kept <==> e in entries && e != []
  {
    if entries == [] then []
    else (if entries[0] == [] then [] else [entries[0]]) + DropEmpty(entries[1..])
  }

  /** A substring of a string without commas has no commas. */
  lemma NoCommaInSubstring(s: string, r: string, i: int)
    requires ',' !in s && OccursAt(s, r, i)
    ensures ',' !in r
  {
    forall k | 0 <= k < |r| ensures r[k] != ',' {
      assert r[k] == s[i + k];
    }
  }

  /** Cleaning never introduces a comma. */
  lemma CleanAddsNoComma(segment: string)
    requires ',' !in segment
    ensures ',' !in Clean(segment)
  {
    CleanIsSubstring(segment);
    var i :| OccursAt(segment, Clean(segment), i);
    NoCommaInSubstring(segment, Clean(segment), i);
  }

  /** What the `map` and `filter` steps keep: exactly the non-empty results
      of `f` on the segments. */
  lemma {:induction false} KeptAreMapped(segments: seq<string>, f: string -> string, u: string)
    ensures u in DropEmpty(MapEach(segments, f)) <==>
      u != [] && exists j :: 0 <= j < |segments| && f(segments[j]) == u
  {
    var mapped := MapEach(segments, f);
    if u in DropEmpty(mapped) {
      var j :| 0 <= j < |mapped| && mapped[j] == u;
      assert f(segments[j]) == u;
    }
    if u != [] && exists j :: 0 <= j < |segments| && f(segments[j]) == u {
      var j :| 0 <= j < |segments| && f(segments[j]) == u;
      assert mapped[j] == u;
    }
  }

  /** The list read from a non-empty variable value. */
  function ParseList(raw: string): (urls: seq<string>)
    ensures forall k :: 0 <= k < |urls| ==> urls[k] != [] && ',' !in urls[k]
  {
    var segments := Split(raw, ',');
    var urls := DropEmpty(MapEach(segments, Clean));
    assert forall k :: 0 <= k < |urls| ==> ',' !in urls[k] by {
      forall k | 0 <= k < |urls| ensures ',' !in urls[k] {
        KeptAreMapped(segments, Clean, urls[k]);
        var j :| 0 <= j < |segments| && Clean(segments[j]) == urls[k];
        CleanAddsNoComma(segments[j]);
      }
    }
    urls
  }

  /** The entries are exactly the non-empty cleaned comma-separated segments. */
  lemma {:induction false} EntriesAreCleanedSegments(raw: string, u: string)
    ensures u in ParseList(raw) <==> u != [] && u in MapEach(Split(raw, ','), Clean)
  {
  }

  /** parseTargetUrls: `env` is PERF_TARGET_URL, None when unset. An unset or
      empty value means the built-in URL (JavaScript's `||`). */
  function ParseTargetUrls(env: Option<string>): (urls: seq<string>)
    ensures forall k :: 0 <= k < |urls| ==> urls[k] != [] && ',' !in urls[k]
  {
    var raw := if env.None? || env.value == [] then DEFAULT_TARGET_URL else env.value;
    ParseList(raw)
  }

  lemma {:induction false} MapEachAppend(a: seq<string>, b: seq<string>, f: string -> string)
    ensures MapEach(a + b, f) == MapEach(a, f) + MapEach(b, f)
    decreases |a|
  {
    if a == [] {
      assert a + b == b;
    } else {
      assert (a + b)[1..] == a[1..] + b;
      MapEachAppend(a[1..], b, f);
    }
  }

  lemma {:induction false} DropEmptyAppend(a: seq<string>, b: seq<string>)
    ensures DropEmpty(a + b) == DropEmpty(a) + DropEmpty(b)
    decreases |a|
  {
    if a == [] {
      assert a + b == b;
    } else {
      assert (a + b)[1..] == a[1..] + b;
      DropEmptyAppend(a[1..], b);
    }
  }

  /** The entries of two comma-joined lists are those of the left list followed
      by those of the right list: entries keep the order of their segments. */
  lemma ParseListAround(a: string, b: string)
    ensures ParseList(a + [','] + b) == ParseList(a) + ParseList(b)
  {
    SplitAround(a, ',', b);
    var sa, sb := Split(a, ','), Split(b, ',');
    MapEachAppend(sa, sb, Clean);
    DropEmptyAppend(MapEach(sa, Clean), MapEach(sb, Clean));
  }

  /** A segment without commas gives its cleaned text as the only entry, or no
      entry when that text is empty. */
  lemma ParseListSegment(s: string)
    requires ',' !in s
    ensures ParseList(s) == if Clean(s) == [] then [] else [Clean(s)]
  {
    SplitWithoutSeparator(s, ',');
  }

  /** A URL without commas whose ends are neither whitespace nor quotes is
      the one entry of its list, unchanged. */
  lemma PlainUrlIsKept(url: string)
    requires ',' !in url && url != []
    requires !IsWhitespace(url[0]) && !IsWhitespace(url[|url| - 1])
    requires !IsQuote(url[0]) && !IsQuote(url[|url| - 1])
    ensures ParseList(url) == [url]
  {
    CleanKeepsPlain(url);
    ParseListSegment(url);
  }

  /** Text whose ends are neither whitespace nor quotes is left as it is. */
  lemma CleanKeepsPlain(url: string)
    requires url != []
    requires !IsWhitespace(url[0]) && !IsWhitespace(url[|url| - 1])
    requires !IsQuote(url[0]) && !IsQuote(url[|url| - 1])
    ensures Clean(url) == url
  {
    assert Trim(url) == url by {
      assert [] + url + [] == url;
      TrimPadded([], url, []);
    }
    StripQuotesKeepsPlain(url);
  }

  lemma StripQuotesKeepsPlain(t: string)
    requires t != [] && !IsQuote(t[0]) && !IsQuote(t[|t| - 1])
    ensures StripQuotes(t) == t
  {
  }

  /** A quote only at the start is removed and the rest is kept. */
  lemma LeadingQuoteOnly(q: char, url: string)
    requires IsQuote(q) && url != [] && !IsQuote(url[|url| - 1])
    ensures StripQuotes([q] + url) == url
  {
    var t := [q] + url;
    assert t[0] == q && t[|t| - 1] == url[|url| - 1];
    assert t[1..] == url;
  }

  /** A quote only at the end is removed and the rest is kept. */
  lemma TrailingQuoteOnly(q: char, url: string)
    requires IsQuote(q) && url != [] && !IsQuote(url[0])
    ensures StripQuotes(url + [q]) == url
  {
    var t := url + [q];
    assert t[0] == url[0] && t[|t| - 1] == q;
    assert t[..|t| - 1] == url;
  }

  lemma CleanOpeningQuote(q: char, a: string)
    requires IsQuote(q) && a != [] && !IsWhitespace(a[|a| - 1]) && !IsQuote(a[|a| - 1])
    ensures Clean([q] + a) == a
  {
    var s := [q] + a;
    assert Trim(s) == s by {
      assert s[0] == q && s[|s| - 1] == a[|a| - 1];
      assert [] + s + [] == s;
      TrimPadded([], s, []);
    }
    LeadingQuoteOnly(q, a);
  }

  lemma CleanClosingQuote(q: char, b: string)
    requires IsQuote(q) && b != [] && !IsWhitespace(b[0]) && !IsQuote(b[0])
    ensures Clean(b + [q]) == b
  {
    var s := b + [q];
    assert Trim(s) == s by {
      assert s[0] == b[0] && s[|s| - 1] == q;
      assert [] + s + [] == s;
      TrimPadded([], s, []);
    }
    TrailingQuoteOnly(q, b);
  }

  /** A segment that opens with a quote gives the text after it. */
  lemma OpeningQuoteSegment(q: char, a: string)
    requires IsQuote(q)
    requires ',' !in a && a != [] && !IsWhitespace(a[|a| - 1]) && !IsQuote(a[|a| - 1])
    ensures ParseList([q] + a) == [a]
  {
    NoCommaAround(q, a);
    CleanOpeningQuote(q, a);
    ParseListSegment([q] + a);
  }

  /** A segment that closes with a quote gives the text before it. */
  lemma ClosingQuoteSegment(q: char, b: string)
    requires IsQuote(q)
    requires ',' !in b && b != [] && !IsWhitespace(b[0]) && !IsQuote(b[0])
    ensures ParseList(b + [q]) == [b]
  {
    NoCommaAround(q, b);
    CleanClosingQuote(q, b);
    ParseListSegment(b + [q]);
  }

  lemma NoCommaAround(q: char, s: string)
    requires IsQuote(q) && ',' !in s
    ensures ',' !in [q] + s && ',' !in s + [q]
  {
    assert forall k :: 0 <= k < |s| ==> ([q] + s)[k + 1] == s[k] && (s + [q])[k] == s[k];
  }

  /** A whole list wrapped in one pair of quotes, as a shell may pass it on:
      the opening quote goes from the first URL and the closing quote from the
      last one. */
  lemma QuotedListGivesBothUrls(q: char, a: string, b: string)
    requires IsQuote(q)
    requires ',' !in a && a != [] && !IsWhitespace(a[|a| - 1]) && !IsQuote(a[|a| - 1])
    requires ',' !in b && b != [] && !IsWhitespace(b[0]) && !IsQuote(b[0])
    ensures ParseList(([q] + a) + [','] + (b + [q])) == [a, b]
  {
    ParseListAround([q] + a, b + [q]);
    OpeningQuoteSegment(q, a);
    ClosingQuoteSegment(q, b);
  }

  /** Unset or empty: exactly the built-in URL. */
  lemma DefaultWhenUnset(env: Option<string>)
    requires env.None? || env == Some([])
    ensures ParseTargetUrls(env) == [DEFAULT_TARGET_URL]
  {
    PlainUrlIsKept(DEFAULT_TARGET_URL);
  }

  /** A lone comma gives two empty segments and so no entry. */
  lemma LoneCommaGivesNothing()
    ensures ParseTargetUrls(Some(",")) == []
  {
    assert "," == [] + [','] + [];
    ParseListAround([], []);
    ParseListSegment([]);
  }

  /** A segment whose trimmed text is quoted at both ends gives the text
      between those two quotes, or nothing when that is empty. */
  lemma QuotedSegment(s: string)
    requires ',' !in s
    requires |Trim(s)| >= 2 && IsQuote(Trim(s)[0]) && IsQuote(Trim(s)[|Trim(s)| - 1])
    ensures ParseList(s) == if |Trim(s)| == 2 then [] else [Trim(s)[1..|Trim(s)| - 1]]
  {
    var t := Trim(s);
    assert Clean(s) == t[1..|t| - 1];
    ParseListSegment(s);
  }

  /** A pair of quotes leaves an empty entry, which is dropped. */
  lemma QuotePairGivesNothing()
    ensures ParseTargetUrls(Some("\"\"")) == []
  {
    QuotePairSegment('"', '"');
    assert "\"\"" == ['"', '"'];
  }

  /** Two quote characters are cleaned to nothing. */
  lemma QuotePairSegment(open: char, close: char)
    requires IsQuote(open) && IsQuote(close)
    ensures ParseList([open, close]) == []
  {
    CleanQuotePair(open, close);
    ParseListSegment([open, close]);
  }

  lemma CleanQuotePair(open: char, close: char)
    requires IsQuote(open) && IsQuote(close)
    ensures Clean([open, close]) == []
  {
    var pair := [open, close];
    assert Trim(pair) == pair by {
      assert [] + pair + [] == pair;
      TrimPadded([], pair, []);
    }
    StripQuotePair(open, close);
  }

  lemma StripQuotePair(open: char, close: char)
    requires IsQuote(open) && IsQuote(close)
    ensures StripQuotes([open, close]) == []
  {
    var t := [open, close];
    assert IsQuote(t[0]) && IsQuote(t[|t| - 1]);
    assert t[1..|t| - 1] == [];
  }

  /** A lone quote is removed as a leading quote, leaving nothing. */
  lemma LoneQuoteGivesNothing()
    ensures ParseTargetUrls(Some("'")) == []
  {
    LoneQuoteSegment('\'');
    assert "'" == ['\''];
  }

  /** A lone quote character is cleaned to nothing. */
  lemma LoneQuoteSegment(q: char)
    requires IsQuote(q)
    ensures ParseList([q]) == []
  {
    CleanLoneQuote(q);
    ParseListSegment([q]);
  }

  lemma CleanLoneQuote(q: char)
    requires IsQuote(q)
    ensures Clean([q]) == []
  {
    assert Trim([q]) == [q] by {
      assert [] + [q] + [] == [q];
      TrimPadded([], [q], []);
    }
    StripLoneQuote(q);
  }

  lemma StripLoneQuote(q: char)
    requires IsQuote(q)
    ensures StripQuotes([q]) == []
  {
    var t := [q];
    assert IsQuote(t[0]);
    assert 1 + |StripQuotes(t)| <= |t|;
  }

  lemma NoCommaInQuoted(left: string, quoted: string, right: string)
    requires AllWhitespace(left) && AllWhitespace(right)
    requires |quoted| >= 2 && IsQuote(quoted[0]) && IsQuote(quoted[|quoted| - 1])
    requires ',' !in quoted[1..|quoted| - 1]
    ensures ',' !in left + quoted + right
  {
    var s := left + quoted + right;
    forall k | 0 <= k < |s| ensures s[k] != ',' {
      if k < |left| {
        assert s[k] == left[k];
      } else if k < |left| + |quoted| {
        var j := k - |left|;
        assert s[k] == quoted[j];
        if 0 < j < |quoted| - 1 {
          assert quoted[j] == quoted[1..|quoted| - 1][j - 1];
        }
      } else {
        assert s[k] == right[k - |left| - |quoted|];
      }
    }
  }

  /** A quoted, padded segment gives exactly the text between the quotes:
      whitespace and quotes just inside the quotes survive. */
  lemma QuotedTextSurvives(left: string, open: char, text: string, close: char, right: string)
    requires AllWhitespace(left) && AllWhitespace(right)
    requires IsQuote(open) && IsQuote(close)
    requires text != [] && ',' !in text
    ensures ParseList(left + [open] + text + [close] + right) == [text]
  {
    var quoted := [open] + text + [close];
    assert quoted[1..|quoted| - 1] == text;
    var s := left + quoted + right;
    assert s == left + [open] + text + [close] + right;
    TrimPadded(left, quoted, right);
    NoCommaInQuoted(left, quoted, right);
    QuotedSegment(s);
  }
}

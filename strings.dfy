/** The JavaScript string operations the harness relies on: `split` with a
    one-character separator, `trim`, `includes`, `startsWith` and `endsWith`.
    Strings are sequences of Unicode scalar values. */
module Strings {

  /** The ECMAScript WhiteSpace and LineTerminator code points, which is
      exactly what String.prototype.trim removes from both ends. */
  predicate IsWhitespace(c: char)
  {
    || c == '\t' || c == '\n' || c == '\U{000B}' || c == '\U{000C}' || c == '\r'
    || c == ' ' || c == '\U{00A0}' || c == '\U{1680}'
    || ('\U{2000}' <= c <= '\U{200A}')
    || c == '\U{2028}' || c == '\U{2029}' || c == '\U{202F}' || c == '\U{205F}'
    || c == '\U{3000}' || c == '\U{FEFF}'
  }

  predicate AllWhitespace(s: string)
  {
    forall k :: 0 <= k < |s| ==> IsWhitespace(s[k])
  }

  /** `sub` occurs in `s` starting at index `i`. */
  predicate OccursAt(s: string, sub: string, i: int)
  {
    0 <= i && i + |sub| <= |s| && s[i..i + |sub|] == sub
  }

  /** An occurrence inside an occurrence is an occurrence. */
  lemma OccursWithin(s: string, t: string, r: string, i: int, j: int)
    requires OccursAt(s, t, i) && OccursAt(t, r, j)
    ensures OccursAt(s, r, i + j)
  {
    forall k | 0 <= k < |r| ensures r[k] == s[i + j + k] {
      assert r[k] == t[j + k];
    }
  }

  /** `r` occurs in `s` at index `i` and only whitespace surrounds it. */
  predicate PaddedAt(s: string, i: int, r: string)
  {
    OccursAt(s, r, i) && AllWhitespace(s[..i]) && AllWhitespace(s[i + |r|..])
  }

  predicate StartsWith(s: string, prefix: string)
  {
    |prefix| <= |s| && s[..|prefix|] == prefix
  }

  predicate EndsWith(s: string, suffix: string)
  {
    |suffix| <= |s| && s[|s| - |suffix|..] == suffix
  }

  /** A suffix of a suffix is a suffix. */
  lemma EndsWithWithin(s: string, t: string, r: string)
    requires EndsWith(s, t) && EndsWith(t, r)
    ensures EndsWith(s, r)
  {
    assert s[|s| - |r|..] == s[|s| - |t|..][|t| - |r|..];
  }

  /** String.prototype.includes: some occurrence of `sub` exists. */
  function Contains(s: string, sub: string): (b: bool)
    ensures b <==> exists i :: OccursAt(s, sub, i)
    decreases |s|
  {
    if |s| < |sub| then false
    else if s[..|sub|] == sub then (assert OccursAt(s, sub, 0); true)
    else
      var b := Contains(s[1..], sub);
      assert b ==> exists i :: OccursAt(s, sub, i) by {
        if b {
          var j :| OccursAt(s[1..], sub, j);
          assert s[j + 1..j + 1 + |sub|] == s[1..][j..j + |sub|];
          assert OccursAt(s, sub, j + 1);
        }
      }
      assert (exists i :: OccursAt(s, sub, i)) ==> b by {
        if exists i :: OccursAt(s, sub, i) {
          var i :| OccursAt(s, sub, i);
          assert i != 0;
          assert s[1..][i - 1..i - 1 + |sub|] == s[i..i + |sub|];
          assert OccursAt(s[1..], sub, i - 1);
        }
      }
      b
  }

  /** String.prototype.trimStart: drops the leading whitespace and nothing else. */
  function TrimStart(s: string): (r: string)
    ensures |r| <= |s| && r == s[|s| - |r|..]
    ensures AllWhitespace(s[..|s| - |r|])
    ensures r != [] ==> !IsWhitespace(r[0])
  {
    if s != [] && IsWhitespace(s[0]) then
      var r := TrimStart(s[1..]);
      assert s[..|s| - |r|] == [s[0]] + s[1..][..|s| - 1 - |r|];
      r
    else s
  }

  /** String.prototype.trimEnd: drops the trailing whitespace and nothing else. */
  function TrimEnd(s: string): (r: string)
    ensures |r| <= |s| && r == s[..|r|]
    ensures AllWhitespace(s[|r|..])
    ensures r != [] ==> !IsWhitespace(r[|r| - 1])
  {
    if s != [] && IsWhitespace(s[|s| - 1]) then
      var r := TrimEnd(s[..|s| - 1]);
      assert s[|r|..] == s[..|s| - 1][|r|..] + [s[|s| - 1]];
      r
    else s
  }

  /** String.prototype.trim: the result is the part of `s` between its leading
      and its trailing whitespace. */
  function Trim(s: string): (r: string)
    ensures exists i :: PaddedAt(s, i, r)
    ensures r != [] ==> !IsWhitespace(r[0]) && !IsWhitespace(r[|r| - 1])
  {
    var t := TrimStart(s);
    var r := TrimEnd(t);
    assert s[|s| - |t|..][..|r|] == s[|s| - |t|..|s| - |t| + |r|];
    assert s[|s| - |t| + |r|..] == t[|r|..];
    assert PaddedAt(s, |s| - |t|, r);
    r
  }

  lemma {:induction false} TrimStartPadded(pad: string, t: string)
    requires AllWhitespace(pad) && t != [] && !IsWhitespace(t[0])
    ensures TrimStart(pad + t) == t
    decreases |pad|
  {
    if pad == [] {
      assert pad + t == t;
    } else {
      assert (pad + t)[1..] == pad[1..] + t;
      TrimStartPadded(pad[1..], t);
    }
  }

  lemma {:induction false} TrimEndPadded(t: string, pad: string)
    requires AllWhitespace(pad) && t != [] && !IsWhitespace(t[|t| - 1])
    ensures TrimEnd(t + pad) == t
    decreases |pad|
  {
    if pad == [] {
      assert t + pad == t;
    } else {
      assert (t + pad)[..|t + pad| - 1] == t + pad[..|pad| - 1];
      TrimEndPadded(t, pad[..|pad| - 1]);
    }
  }

  /** Trimming removes exactly the whitespace around text whose ends are not
      whitespace. */
  lemma TrimPadded(left: string, t: string, right: string)
    requires AllWhitespace(left) && AllWhitespace(right)
    requires t != [] && !IsWhitespace(t[0]) && !IsWhitespace(t[|t| - 1])
    ensures Trim(left + t + right) == t
  {
    assert left + t + right == left + (t + right);
    TrimStartPadded(left, t + right);
    TrimEndPadded(t, right);
  }

  /** String.prototype.split with a one-character separator: the pieces of `s`
      between occurrences of `sep`, always at least one (the empty string
      splits into one empty piece), none of them containing `sep`. */
  function Split(s: string, sep: char): (parts: seq<string>)
    ensures |parts| >= 1
    ensures forall k :: 0 <= k < |parts| ==> sep !in parts[k]
  {
    if s == [] then [[]]
    else
      var rest := Split(s[1..], sep);
      if s[0] == sep then [[]] + rest
      else [[s[0]] + rest[0]] + rest[1..]
  }

  /** Array.prototype.join with a one-character separator. */
  function Join(parts: seq<string>, sep: char): string
    requires |parts| >= 1
  {
    if |parts| == 1 then parts[0] else parts[0] + [sep] + Join(parts[1..], sep)
  }

  /** Joining the pieces back with the separator gives the original string. */
  lemma {:induction false} JoinSplit(s: string, sep: char)
    ensures Join(Split(s, sep), sep) == s
    decreases |s|
  {
    if s != [] {
      JoinSplit(s[1..], sep);
      var rest := Split(s[1..], sep);
      if s[0] != sep {
        if |rest| > 1 {
          assert rest == [rest[0]] + rest[1..];
        }
      }
    }
  }

  /** Splitting joined pieces that do not contain the separator gives the
      pieces back. */
  lemma {:induction false} SplitJoin(parts: seq<string>, sep: char)
    requires |parts| >= 1
    requires forall k :: 0 <= k < |parts| ==> sep !in parts[k]
    ensures Split(Join(parts, sep), sep) == parts
    decreases |parts|
  {
    SplitWithoutSeparator(parts[0], sep);
    if |parts| > 1 {
      var tail := parts[1..];
      assert forall k :: 0 <= k < |tail| ==> sep !in tail[k] by {
        forall k | 0 <= k < |tail| ensures sep !in tail[k] {
          assert tail[k] == parts[k + 1];
        }
      }
      SplitJoin(tail, sep);
      var rest := Join(tail, sep);
      assert Join(parts, sep) == parts[0] + [sep] + rest;
      SplitAround(parts[0], sep, rest);
      assert parts == [parts[0]] + tail;
    }
  }

  /** A string without the separator is a single piece. */
  lemma {:induction false} SplitWithoutSeparator(s: string, sep: char)
    requires sep !in s
    ensures Split(s, sep) == [s]
    decreases |s|
  {
    if s != [] {
      assert sep !in s[1..] by {
        assert forall k :: 0 <= k < |s[1..]| ==> s[1..][k] == s[k + 1];
      }
      SplitWithoutSeparator(s[1..], sep);
      assert [s[0]] + s[1..] == s;
    }
  }

  /** A separator splits the string into the pieces of what is on its left
      followed by the pieces of what is on its right. */
  lemma {:induction false} SplitAround(a: string, sep: char, b: string)
    ensures Split(a + [sep] + b, sep) == Split(a, sep) + Split(b, sep)
    decreases |a|
  {
    var s := a + [sep] + b;
    if a == [] {
      assert s[1..] == b;
    } else {
      assert s[1..] == a[1..] + [sep] + b;
      SplitAround(a[1..], sep, b);
    }
  }

  /** The index of the last occurrence of `c`, or -1 when there is none. */
  function LastIndexOf(s: string, c: char): (i: int)
    ensures -1 <= i < |s|
    ensures i >= 0 ==> s[i] == c
    ensures forall j :: i < j < |s| ==> s[j] != c
  {
    if s == [] then -1
    else if s[|s| - 1] == c then |s| - 1
    else LastIndexOf(s[..|s| - 1], c)
  }

  /** The last piece is the text after the last separator, or the whole
      string when there is no separator. */
  lemma LastPieceIsSuffix(s: string, sep: char)
    ensures var last := Split(s, sep)[|Split(s, sep)| - 1];
      && EndsWith(s, last)
      && (|last| < |s| ==> s[|s| - |last| - 1] == sep)
      && (|Split(s, sep)| > 1 ==> |last| < |s|)
  {
    var i := LastIndexOf(s, sep);
    if i < 0 {
      SplitWithoutSeparator(s, sep);
    } else {
      var tail := s[i + 1..];
      assert sep !in tail by {
        forall k | 0 <= k < |tail| ensures tail[k] != sep {
          assert tail[k] == s[i + 1 + k];
        }
      }
      assert s == s[..i] + [sep] + tail;
      SplitAround(s[..i], sep, tail);
      SplitWithoutSeparator(tail, sep);
      assert Split(s, sep)[|Split(s, sep)| - 1] == tail;
    }
  }

  /** The text after the last separator (all of `s` when there is none):
      the last piece of the split. */
  function LastPiece(s: string, sep: char): (last: string)
    ensures sep !in last
    ensures EndsWith(s, last)
    ensures |last| < |s| ==> s[|s| - |last| - 1] == sep
  {
    var parts := Split(s, sep);
    LastPieceIsSuffix(s, sep);
    parts[|parts| - 1]
  }

  /** A string that ends with the separator has an empty last piece. */
  lemma LastPieceAfterTrailingSeparator(s: string, sep: char)
    requires s != [] && s[|s| - 1] == sep
    ensures Split(s, sep)[|Split(s, sep)| - 1] == []
  {
    assert s == s[..|s| - 1] + [sep] + [];
    SplitAround(s[..|s| - 1], sep, []);
  }
}

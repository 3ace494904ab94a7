/**
 The string primitives the extractor relies on, as JavaScript defines them:
 `String.prototype.trim`, a first-occurrence `indexOf`, `replace` with a
 string pattern (first occurrence only), `split` with a string separator and
 `Array.prototype.join`. Strings are sequences of Unicode scalar values.
 */
module Strings {
  import opened Wrappers

  /** The code points `trim` removes: ECMAScript WhiteSpace (tab, vertical tab,
      form feed, space, no-break space, byte-order mark and the Zs category)
      and LineTerminator (line feed, carriage return, line and paragraph
      separators). */
  predicate IsWhitespace(c: char) {
    || c == '\t' || c == '\n' || c == '\U{000B}' || c == '\U{000C}' || c == '\r'
    || c == ' ' || c == '\U{00A0}' || c == '\U{1680}'
    || ('\U{2000}' <= c <= '\U{200A}')
    || c == '\U{2028}' || c == '\U{2029}' || c == '\U{202F}' || c == '\U{205F}'
    || c == '\U{3000}' || c == '\U{FEFF}'
  }

  predicate AllWhitespace(s: string) {
    forall i :: 0 <= i < |s| ==> IsWhitespace(s[i])
  }

  /** Drops leading whitespace: the result is the suffix of `s` that starts at
      its first non-whitespace character. */
  function TrimStart(s: string): (r: string)
    ensures |r| <= |s| && r == s[|s| - |r|..]
    ensures AllWhitespace(s[..|s| - |r|])
    ensures |r| > 0 ==> !IsWhitespace(r[0])
  {
    if |s| > 0 && IsWhitespace(s[0]) then TrimStart(s[1..]) else s
  }

  /** Drops trailing whitespace: the result is the prefix of `s` that ends at
      its last non-whitespace character. */
  function TrimEnd(s: string): (r: string)
    ensures |r| <= |s| && r == s[..|r|]
    ensures AllWhitespace(s[|r|..])
    ensures |r| > 0 ==> !IsWhitespace(r[|r| - 1])
  {
    if |s| > 0 && IsWhitespace(s[|s| - 1]) then TrimEnd(s[..|s| - 1]) else s
  }

  /** `s.trim()`: a piece of `s` that neither starts nor ends with whitespace. */
  function Trim(s: string): (r: string)
    ensures |r| <= |s|
    ensures |r| > 0 ==> !IsWhitespace(r[0]) && !IsWhitespace(r[|r| - 1])
  {
    TrimEnd(TrimStart(s))
  }

  /** A blank line: one made of whitespace only. */
  predicate IsBlank(line: string) {
    AllWhitespace(line)
  }

  /** Blank is exactly the source's test `line.trim().length === 0`. */
  lemma BlankIffTrimEmpty(line: string)
    ensures IsBlank(line) <==> |Trim(line)| == 0
  {
    var t := TrimStart(line);
    assert line == line[..|line| - |t|] + t;
    if |Trim(line)| == 0 {
      assert t[0..] == t;
    }
  }

  /** The first non-whitespace character of `s`, if any. */
  function FirstVisible(s: string): Option<char> {
    if |s| == 0 then None
    else if IsWhitespace(s[0]) then FirstVisible(s[1..])
    else Some(s[0])
  }

  /** The first non-whitespace character is where `trim()` starts: there is
      none exactly when `s` is blank, and otherwise it heads `Trim(s)`. */
  lemma {:induction false} FirstVisibleTrim(s: string)
    ensures FirstVisible(s).None? <==> IsBlank(s)
    ensures FirstVisible(s).Some? ==> |Trim(s)| > 0 && Trim(s)[0] == FirstVisible(s).value
  {
    if |s| > 0 {
      if IsWhitespace(s[0]) {
        FirstVisibleTrim(s[1..]);
        assert TrimStart(s) == TrimStart(s[1..]);
        assert IsBlank(s) <==> IsBlank(s[1..]) by {
          assert forall i :: 1 <= i < |s| ==> s[i] == s[1..][i - 1];
        }
      } else {
        assert TrimStart(s) == s;
        var r := TrimEnd(s);
        assert |r| > 0;
        assert r[0] == s[0];
      }
    }
  }

  /** `pat` occurs in `s` starting at index `i`. */
  predicate OccursAt(s: string, pat: string, i: nat) {
    i + |pat| <= |s| && s[i..i + |pat|] == pat
  }

  /** The first occurrence of `pat` in `s` at or after `from`. */
  function IndexFrom(s: string, pat: string, from: nat): (r: Option<nat>)
    ensures r.Some? ==> from <= r.value && OccursAt(s, pat, r.value)
    ensures r.Some? ==> forall j :: from <= j < r.value ==> !OccursAt(s, pat, j)
    ensures r.None? ==> forall j :: from <= j ==> !OccursAt(s, pat, j)
    decreases |s| - from
  {
    if from + |pat| > |s| then None
    else if s[from..from + |pat|] == pat then Some(from)
    else IndexFrom(s, pat, from + 1)
  }

  /** `s.indexOf(pat)`, with `None` for -1. */
  function IndexOf(s: string, pat: string): Option<nat> {
    IndexFrom(s, pat, 0)
  }

  /** `indexOf` finds the first occurrence. */
  lemma IndexOfAt(s: string, pat: string, i: nat)
    requires OccursAt(s, pat, i)
    requires forall j :: 0 <= j < i ==> !OccursAt(s, pat, j)
    ensures IndexOf(s, pat) == Some(i)
  {
    var r := IndexOf(s, pat);
    assert r.Some?;
  }

  /** `s.replace(pat, rep)` with a string pattern: only the first occurrence is
      replaced, and a string without one is returned unchanged. */
  function ReplaceFirst(s: string, pat: string, rep: string): (r: string)
    ensures IndexOf(s, pat).None? ==> r == s
    ensures IndexOf(s, pat).Some? ==>
              var i := IndexOf(s, pat).value;
              |r| == |s| - |pat| + |rep|
              && r[..i] == s[..i] && r[i..i + |rep|] == rep && r[i + |rep|..] == s[i + |pat|..]
  {
    match IndexOf(s, pat)
    case None => s
    case Some(i) => s[..i] + rep + s[i + |pat|..]
  }

  /** `s.split(sep)` for a non-empty string separator: the pieces between the
      non-overlapping occurrences of `sep`, left to right. */
  function Split(s: string, sep: string): (r: seq<string>)
    requires |sep| > 0
    ensures |r| >= 1
    ensures Join(r, sep) == s
    decreases |s|
  {
    match IndexOf(s, sep)
    case None => [s]
    case Some(i) =>
      var rest := Split(s[i + |sep|..], sep);
      assert s == s[..i] + sep + s[i + |sep|..];
      [s[..i]] + rest
  }

  /** `parts.join(sep)`. */
  function Join(parts: seq<string>, sep: string): string
  {
    if |parts| == 0 then ""
    else if |parts| == 1 then parts[0]
    else parts[0] + sep + Join(parts[1..], sep)
  }

  /** A non-empty join starts with the first part. */
  lemma JoinStartsWithFirst(parts: seq<string>, sep: string)
    requires |parts| > 0
    ensures |Join(parts, sep)| >= |parts[0]|
    ensures Join(parts, sep)[..|parts[0]|] == parts[0]
  {
  }

  /** A string without a line feed has no occurrence of a separator that
      contains one. */
  lemma NoNewlineNoOccurrence(s: string, sep: string)
    requires '\n' !in s && '\n' in sep
    ensures IndexOf(s, sep).None?
  {
  }

  /** A separator whose only line feed is its last character, e.g. "\n" or
      "\r\n". */
  predicate EndsAtNewline(sep: string) {
    |sep| > 0 && sep[|sep| - 1] == '\n' && forall k :: 0 <= k < |sep| - 1 ==> sep[k] != '\n'
  }

  /** Lines without line feeds, joined with such a separator, split back into
      the same lines. */
  lemma {:induction false} SplitJoin(parts: seq<string>, sep: string)
    requires |parts| >= 1
    requires EndsAtNewline(sep)
    requires forall k :: 0 <= k < |parts| ==> '\n' !in parts[k]
    ensures Split(Join(parts, sep), sep) == parts
    decreases |parts|
  {
    if |parts| == 1 {
      assert sep[|sep| - 1] == '\n';
      NoNewlineNoOccurrence(parts[0], sep);
    } else {
      var p := parts[0];
      var rest := Join(parts[1..], sep);
      var s := p + sep + rest;
      assert s == Join(parts, sep);
      assert s[|p|..|p| + |sep|] == sep;
      assert OccursAt(s, sep, |p|);
      var r := IndexOf(s, sep);
      assert r.Some? && r.value == |p|;
      assert s[|p| + |sep|..] == rest;
      SplitJoin(parts[1..], sep);
    }
  }

  function CountChar(s: string, c: char): nat
  {
    if |s| == 0 then 0 else (if s[0] == c then 1 else 0) + CountChar(s[1..], c)
  }

  lemma {:induction false} CountCharConcat(a: string, b: string, c: char)
    ensures CountChar(a + b, c) == CountChar(a, c) + CountChar(b, c)
    decreases |a|
  {
    if |a| == 0 {
      assert a + b == b;
    } else {
      assert (a + b)[1..] == a[1..] + b;
      CountCharConcat(a[1..], b, c);
    }
  }

  lemma {:induction false} CountCharZero(s: string, c: char)
    ensures CountChar(s, c) == 0 <==> c !in s
    decreases |s|
  {
    if |s| > 0 {
      CountCharZero(s[1..], c);
      assert s == [s[0]] + s[1..];
    }
  }

  /** Replacing the first occurrence changes the count of a character by the
      pattern's count minus the replacement's. */
  lemma ReplaceFirstCount(s: string, pat: string, rep: string, c: char)
    requires IndexOf(s, pat).Some?
    ensures CountChar(ReplaceFirst(s, pat, rep), c) + CountChar(pat, c)
            == CountChar(s, c) + CountChar(rep, c)
  {
    var i := IndexOf(s, pat).value;
    assert s == s[..i] + pat + s[i + |pat|..];
    CountCharConcat(s[..i], pat, c);
    CountCharConcat(s[..i] + pat, s[i + |pat|..], c);
    CountCharConcat(s[..i], rep, c);
    CountCharConcat(s[..i] + rep, s[i + |pat|..], c);
  }

  /** `s` contains a single character exactly when `indexOf` finds it. */
  lemma IndexOfChar(s: string, c: char)
    ensures IndexOf(s, [c]).Some? <==> c in s
  {
    forall i: nat | OccursAt(s, [c], i)
      ensures s[i] == c
    {
      assert s[i..i + 1][0] == s[i];
    }
    if c in s {
      var k :| 0 <= k < |s| && s[k] == c;
      assert s[k..k + 1] == [c];
      assert OccursAt(s, [c], k);
    }
  }
}

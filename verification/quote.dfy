/**
 `removeTrailerQuote` (extractor.js): walking up from the last line, blank
 lines and lines whose trimmed text starts with '>' are passed over; the list
 is cut just after the first other line met. When there is no such line the
 list is returned as it is, quotes included.
 */
module Quote {
  import opened Wrappers
  import opened Strings

  /** A line that stops the walk: its trimmed text is not empty and does not
      start with '>' (see `TrimmedKinds`). */
  predicate IsUnquoted(line: string) {
    FirstVisible(line).Some? && FirstVisible(line).value != '>'
  }

  /** A line whose trimmed text starts with '>'. */
  predicate IsQuoted(line: string) {
    FirstVisible(line) == Some('>')
  }

  /** The two tests in terms of `trim()`, as the source makes them. */
  lemma TrimmedKinds(line: string)
    ensures IsUnquoted(line) <==> |Trim(line)| > 0 && Trim(line)[0] != '>'
    ensures IsQuoted(line) <==> |Trim(line)| > 0 && Trim(line)[0] == '>'
  {
    FirstVisibleTrim(line);
    BlankIffTrimEmpty(line);
  }

  /** Every line is exactly one of blank, quoted or unquoted. */
  lemma LineKinds(line: string)
    ensures IsUnquoted(line) <==> !IsBlank(line) && !IsQuoted(line)
    ensures !(IsBlank(line) && IsQuoted(line))
  {
    FirstVisibleTrim(line);
  }

  /** The index of the last unquoted line among `lines[..n]`, or -1. */
  function LastUnquoted(lines: seq<string>, n: int): (k: int)
    requires 0 <= n <= |lines|
    ensures -1 <= k < n
    ensures k >= 0 ==> IsUnquoted(lines[k])
    ensures forall j :: k < j < n ==> !IsUnquoted(lines[j])
    decreases n
  {
    if n == 0 then -1
    else if IsUnquoted(lines[n - 1]) then n - 1
    else LastUnquoted(lines, n - 1)
  }

  /** `removeTrailerQuote`. The result is a prefix of the input. When the input
      holds an unquoted line, the result ends with the last one and every line
      dropped is blank or quoted; otherwise the input comes back unchanged. */
  function RemoveTrailerQuote(lines: seq<string>): (r: seq<string>)
    ensures |r| <= |lines| && r == lines[..|r|]
    ensures (exists j :: 0 <= j < |lines| && IsUnquoted(lines[j])) ==>
              && |r| > 0 && IsUnquoted(r[|r| - 1])
              && forall j :: |r| <= j < |lines| ==> IsBlank(lines[j]) || IsQuoted(lines[j])
    ensures (forall j :: 0 <= j < |lines| ==> !IsUnquoted(lines[j])) ==> r == lines
  {
    var k := LastUnquoted(lines, |lines|);
    PassedOver(lines, k);
    if k >= 0 then lines[..k + 1] else lines
  }

  /** The lines the walk passes over are blank or quoted. */
  lemma PassedOver(lines: seq<string>, k: int)
    requires -1 <= k < |lines|
    requires forall j :: k < j < |lines| ==> !IsUnquoted(lines[j])
    ensures forall j :: k < j < |lines| ==> IsBlank(lines[j]) || IsQuoted(lines[j])
  {
    forall j | k < j < |lines|
      ensures IsBlank(lines[j]) || IsQuoted(lines[j])
    {
      LineKinds(lines[j]);
    }
  }

  /** Cut just after an unquoted line, that line is the last unquoted one. */
  lemma LastUnquotedOfCut(lines: seq<string>, k: int)
    requires 0 <= k < |lines| && IsUnquoted(lines[k])
    ensures LastUnquoted(lines[..k + 1], k + 1) == k
  {
    assert lines[..k + 1][k] == lines[k];
  }

  /** Stripping the trailing quote twice is stripping it once. */
  lemma RemoveTrailerQuoteIdempotent(lines: seq<string>)
    ensures RemoveTrailerQuote(RemoveTrailerQuote(lines)) == RemoveTrailerQuote(lines)
  {
    var k := LastUnquoted(lines, |lines|);
    if k >= 0 {
      var r := lines[..k + 1];
      LastUnquotedOfCut(lines, k);
      assert r[..k + 1] == r;
    }
  }
}

/**
 The extraction pipeline (extractor.js): `extract`, `removeTrailer` and
 `removeHeader`. The input is normalised and split into lines; the trailer
 (quoted reply, signature, closing greeting) is cut from the tail, the header
 (header block, addressee, opening greeting) from the head, and blank edges
 are trimmed. The kept lines are joined with "\r\n"; when nothing is kept the
 normalised input is returned whole.
 */
module Extractor {
  import opened Strings
  import opened LineFeed
  import opened Rules
  import opened Scanner
  import opened Quote
  import opened Signature
  import opened EmptyLines
  import opened Catalog

  /** The object `extract` returns. */
  datatype Extraction = Extraction(text: string, startLineNo: nat, lineCount: nat)

  /** `removeTrailer`: every step cuts the tail only, so `startIndex` is left
      as it was. */
  function RemoveTrailer(c: Catalog, s: State): (r: State)
    requires Valid(c)
    ensures KeepsFront(s, r)
  {
    var s1 := State(RemoveTrailerQuote(s.lines), s.startIndex);
    var s2 := RemoveUnconditionally(c.trailQuote, s1);
    var s3 := RemoveUnconditionally(c.signature, s2);
    var s4 := State(RemoveSignature(c.trailGreeting, s3.lines), s3.startIndex);
    var s5 := RemoveUnconditionally(c.trailGreeting, s4);
    KeepsFrontTransitive(s, s1, s2);
    KeepsFrontTransitive(s, s2, s3);
    KeepsFrontTransitive(s, s3, s4);
    KeepsFrontTransitive(s, s4, s5);
    s5
  }

  /** `removeHeader`: every step cuts the head only, and `startIndex` grows
      by the number of lines cut. */
  function RemoveHeader(c: Catalog, s: State): (r: State)
    requires Valid(c)
    ensures KeepsBack(s, r)
  {
    var s1 := RemoveUnconditionally(c.header, s);
    var s2 := RemoveUnconditionally(c.headerDestination, s1);
    var s3 := RemoveUnconditionally(c.headerGreeting, s2);
    KeepsBackTransitive(s, s1, s2);
    KeepsBackTransitive(s, s2, s3);
    s3
  }

  /** A window of blank lines is blank. */
  lemma NarrowsKeepsBlank(s: State, t: State)
    requires Narrows(s, t)
    ensures (forall j :: 0 <= j < |s.lines| ==> IsBlank(s.lines[j])) ==>
              forall j :: 0 <= j < |t.lines| ==> IsBlank(t.lines[j])
  {
    var d := t.startIndex - s.startIndex;
    assert forall j :: 0 <= j < |t.lines| ==> t.lines[j] == s.lines[d + j];
  }

  /** The lines kept for an input: a window of its split lines whose first
      and last lines are non-blank, with `startIndex` the number of lines
      before the window. Nothing is kept from blank lines only. */
  function Body(re: Regex -> string -> bool, lines: seq<string>): (r: State)
    ensures Narrows(State(lines, 0), r)
    ensures |r.lines| > 0 ==> !IsBlank(r.lines[0]) && !IsBlank(r.lines[|r.lines| - 1])
    ensures (forall j :: 0 <= j < |lines| ==> IsBlank(lines[j])) ==> |r.lines| == 0
  {
    BodyWith(InitParams(re), lines)
  }

  /** The same for any catalog of the shape the extractor relies on. */
  function BodyWith(c: Catalog, lines: seq<string>): (r: State)
    requires Valid(c)
    ensures Narrows(State(lines, 0), r)
    ensures |r.lines| > 0 ==> !IsBlank(r.lines[0]) && !IsBlank(r.lines[|r.lines| - 1])
    ensures (forall j :: 0 <= j < |lines| ==> IsBlank(lines[j])) ==> |r.lines| == 0
  {
    var s0 := State(lines, 0);
    var s1 := RemoveTrailer(c, s0);
    var s2 := RemoveHeader(c, s1);
    var s3 := RemoveEmptyLine(s2);
    KeepsFrontNarrows(s0, s1);
    KeepsBackNarrows(s1, s2);
    NarrowsTransitive(s0, s1, s2);
    NarrowsTransitive(s0, s2, s3);
    NarrowsKeepsBlank(s0, s2);
    s3
  }

  /** `text` is `window` joined with "\r\n" and splits back into it, and the
      window's first and last lines are non-blank. */
  predicate JoinsWindow(text: string, window: seq<string>) {
    && |window| > 0
    && text == Join(window, Crlf)
    && Split(text, Crlf) == window
    && !IsBlank(window[0]) && !IsBlank(window[|window| - 1])
  }

  /** The kept window of `lines` is a run of at least one line starting at
      `startLineNo`, ending with non-blank lines, joined with "\r\n" into
      `r.text`, which splits back into exactly those lines. */
  predicate IsWindowOf(r: Extraction, lines: seq<string>) {
    && 1 <= r.startLineNo
    && r.startLineNo - 1 + r.lineCount <= |lines|
    && JoinsWindow(r.text, lines[r.startLineNo - 1 .. r.startLineNo - 1 + r.lineCount])
  }

  /** The kept lines joined with "\r\n" are empty only when no line is kept,
      and otherwise split back into the kept lines. */
  lemma JoinedBody(lines: seq<string>, body: State)
    requires Narrows(State(lines, 0), body)
    requires forall k :: 0 <= k < |lines| ==> '\n' !in lines[k]
    requires |body.lines| > 0 ==> !IsBlank(body.lines[0]) && !IsBlank(body.lines[|body.lines| - 1])
    ensures |Join(body.lines, Crlf)| == 0 <==> |body.lines| == 0
    ensures |body.lines| > 0 ==> JoinsWindow(Join(body.lines, Crlf), body.lines)
  {
    if |body.lines| == 0 {
      return;
    }
    JoinStartsWithFirst(body.lines, Crlf);
    forall k | 0 <= k < |body.lines|
      ensures '\n' !in body.lines[k]
    {
      assert body.lines[k] == lines[body.startIndex + k];
    }
    SplitJoin(body.lines, Crlf);
  }

  /** Text that joins the kept lines joins a window of the split lines,
      starting just after the lines dropped from the front. */
  lemma WindowOfBody(lines: seq<string>, body: State, text: string)
    requires Narrows(State(lines, 0), body)
    requires JoinsWindow(text, body.lines)
    ensures IsWindowOf(Extraction(text, body.startIndex + 1, |body.lines|), lines)
  {
    assert lines[body.startIndex .. body.startIndex + |body.lines|] == body.lines;
  }

  /** `r` is what `extract` reports for the kept lines `body` of `lines`: the
      whole normalised input from line 1 when nothing is kept, otherwise the
      window the kept lines occupy, from line `startIndex + 1` on and as many
      lines long as were kept. */
  predicate Reports(r: Extraction, normalized: string, lines: seq<string>, body: State) {
    && (|body.lines| == 0 ==> r == Extraction(normalized, 1, |lines|))
    && (|body.lines| > 0 ==>
          && IsWindowOf(r, lines)
          && r.startLineNo == body.startIndex + 1
          && r.lineCount == |body.lines|)
  }

  /** The tail of `extract`: join the kept lines, or fall back to the whole
      normalised input when that gives nothing. */
  function Output(normalized: string, lines: seq<string>, body: State): (r: Extraction)
    requires forall k :: 0 <= k < |lines| ==> '\n' !in lines[k]
    requires Narrows(State(lines, 0), body)
    requires |body.lines| > 0 ==> !IsBlank(body.lines[0]) && !IsBlank(body.lines[|body.lines| - 1])
    ensures Reports(r, normalized, lines, body)
  {
    var outputText := Join(body.lines, Crlf);
    JoinedBody(lines, body);
    if |outputText| == 0 then
      Extraction(normalized, 1, |lines|)
    else
      WindowOfBody(lines, body, outputText);
      Extraction(outputText, body.startIndex + 1, |body.lines|)
  }

  /** `extract`. The fallback, the normalised input whole from line 1, exactly
      when no line is kept; otherwise the kept lines, a window of at least one
      line of the normalised input whose first and last lines are non-blank,
      joined with "\r\n"; the text splits on "\r\n" back into exactly those
      lines. Input of blank lines only always falls back. */
  function Extract(re: Regex -> string -> bool, inputText: string): (r: Extraction)
    ensures var normalized := NormalizeLineFeed(inputText);
            var lines := SplitLine(normalized);
            r == Extraction(normalized, 1, |lines|) || IsWindowOf(r, lines)
    ensures var normalized := NormalizeLineFeed(inputText);
            var lines := SplitLine(normalized);
            Reports(r, normalized, lines, Body(re, lines))
    ensures var lines := SplitLine(NormalizeLineFeed(inputText));
            (forall j :: 0 <= j < |lines| ==> IsBlank(lines[j])) ==>
              r == Extraction(NormalizeLineFeed(inputText), 1, |lines|)
  {
    var normalized := NormalizeLineFeed(inputText);
    ExtractLines(InitParams(re), normalized, SplitLine(normalized))
  }

  /** `extract` from the split lines on, for any catalog of the shape the
      extractor relies on: the fallback exactly when no line is kept,
      otherwise the window of `lines` the kept lines occupy. */
  function ExtractLines(c: Catalog, normalized: string, lines: seq<string>): (r: Extraction)
    requires Valid(c)
    requires forall k :: 0 <= k < |lines| ==> '\n' !in lines[k]
    ensures Reports(r, normalized, lines, BodyWith(c, lines))
  {
    Output(normalized, lines, BodyWith(c, lines))
  }

  /** Empty input: one empty line, nothing kept, so the fallback gives back
      the empty text as line 1, one line long. */
  lemma ExtractEmpty(re: Regex -> string -> bool)
    ensures Extract(re, "") == Extraction("", 1, 1)
  {
    assert NormalizeLineFeed("") == "";
    var lines := SplitLine("");
    assert |lines| == 1 && Join(lines, "\n") == "";
    assert IsBlank(lines[0]);
  }
}

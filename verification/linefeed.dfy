/**
 Line-ending handling of the extractor: `normalizeLineFeed` and `splitLine`
 (extractor.js), and the separator the extracted body is joined with.
 */
module LineFeed {
  import opened Wrappers
  import opened Strings

  /** `LINE_FEED`: the separator the extracted lines are joined with. */
  const Crlf: string := "\r\n"

  /** `normalizeLineFeed`. Each `replace` is given a string pattern, so it
      rewrites only the FIRST "\r\n" and then the first "\r" left over; every
      later carriage return survives. */
  function NormalizeLineFeed(str: string): (r: string)
    ensures '\r' !in str ==> r == str
    ensures |r| == |str| - (if IndexOf(str, "\r\n").Some? then 1 else 0)
    ensures var k := if IndexOf(str, "\r\n").Some? then 2 else 1;
            CountChar(r, '\r') == if CountChar(str, '\r') <= k then 0 else CountChar(str, '\r') - k
  {
    var once := ReplaceFirst(str, "\r\n", "\n");
    NormalizeCounts(str, once);
    ReplaceFirst(once, "\r", "\n")
  }

  lemma NormalizeCounts(str: string, once: string)
    requires once == ReplaceFirst(str, "\r\n", "\n")
    ensures '\r' !in str ==> ReplaceFirst(once, "\r", "\n") == once == str
    ensures var k := if IndexOf(str, "\r\n").Some? then 2 else 1;
            var c := CountChar(str, '\r');
            CountChar(ReplaceFirst(once, "\r", "\n"), '\r') == if c <= k then 0 else c - k
  {
    var c := CountChar(str, '\r');
    IndexOfChar(str, '\r');
    IndexOfChar(once, '\r');
    CountCharZero(str, '\r');
    CountCharZero(once, '\r');
    if IndexOf(str, "\r\n").Some? {
      ReplaceFirstCount(str, "\r\n", "\n", '\r');
      assert CountChar("\r\n", '\r') == 1 && CountChar("\n", '\r') == 0;
      assert CountChar(once, '\r') == c - 1;
    }
    var twice := ReplaceFirst(once, "\r", "\n");
    if IndexOf(once, "\r").Some? {
      ReplaceFirstCount(once, "\r", "\n", '\r');
      assert CountChar("\r", '\r') == 1 && CountChar("\n", '\r') == 0;
    }
  }

  /** `splitLine`: the pieces of `inputText` between its line feeds. */
  function SplitLine(inputText: string): (r: seq<string>)
    ensures |r| == CountChar(inputText, '\n') + 1
    ensures Join(r, "\n") == inputText
    ensures forall k :: 0 <= k < |r| ==> '\n' !in r[k]
  {
    SplitLinePieces(inputText);
    Split(inputText, "\n")
  }

  lemma {:induction false} SplitLinePieces(s: string)
    ensures |Split(s, "\n")| == CountChar(s, '\n') + 1
    ensures forall k :: 0 <= k < |Split(s, "\n")| ==> '\n' !in Split(s, "\n")[k]
    decreases |s|
  {
    IndexOfChar(s, '\n');
    match IndexOf(s, "\n")
    case None =>
      CountCharZero(s, '\n');
    case Some(i) =>
      forall j | 0 <= j < i
        ensures s[j] != '\n'
      {
        assert !OccursAt(s, "\n", j);
        assert s[j..j + 1] == [s[j]];
      }
      var rest := s[i + 1..];
      assert s == s[..i] + "\n" + rest;
      CountCharZero(s[..i], '\n');
      CountCharConcat(s[..i], "\n", '\n');
      CountCharConcat(s[..i] + "\n", rest, '\n');
      SplitLinePieces(rest);
      assert Split(s, "\n") == [s[..i]] + Split(rest, "\n");
  }

  /** Joining lines that contain no line feed with "\n" and splitting again
      gives the same lines back. */
  lemma SplitLineJoin(lines: seq<string>)
    requires |lines| >= 1
    requires forall k :: 0 <= k < |lines| ==> '\n' !in lines[k]
    ensures SplitLine(Join(lines, "\n")) == lines
  {
    SplitJoin(lines, "\n");
  }

  /** Two CRLF line endings: the second one keeps its carriage return, which
      the second `replace` turns into an extra, empty line. */
  lemma NormalizeRewritesOnlyFirstCrlf()
    ensures NormalizeLineFeed("a\r\nb\r\nc") == "a\nb\n\nc"
    ensures SplitLine(NormalizeLineFeed("a\r\nb\r\nc")) == ["a", "b", "", "c"]
  {
    FirstCrlfReplaced();
    LeftoverCrReplaced();
    SplitFourLines();
  }

  lemma SplitFourLines()
    ensures SplitLine("a\nb\n\nc") == ["a", "b", "", "c"]
  {
    SplitLineJoin(["a", "b", "", "c"]);
    assert Join(["a", "b", "", "c"], "\n") == "a\nb\n\nc";
  }

  lemma FirstCrlfReplaced()
    ensures ReplaceFirst("a\r\nb\r\nc", "\r\n", "\n") == "a\nb\r\nc"
  {
    var s := "a\r\nb\r\nc";
    assert OccursAt(s, "\r\n", 1);
    assert s[0..2][0] == 'a';
    IndexOfAt(s, "\r\n", 1);
  }

  lemma LeftoverCrReplaced()
    ensures ReplaceFirst("a\nb\r\nc", "\r", "\n") == "a\nb\n\nc"
  {
    var once := "a\nb\r\nc";
    assert OccursAt(once, "\r", 3);
    forall j | 0 <= j < 3
      ensures !OccursAt(once, "\r", j)
    {
      assert once[j..j + 1][0] == once[j] != '\r';
    }
    IndexOfAt(once, "\r", 3);
  }

  /** Two lone carriage returns: only the first becomes a line feed. */
  lemma NormalizeRewritesOnlyFirstCr()
    ensures NormalizeLineFeed("a\rb\rc") == "a\nb\rc"
    ensures SplitLine(NormalizeLineFeed("a\rb\rc")) == ["a", "b\rc"]
  {
    NoCrlfAmongLoneCrs();
    FirstLoneCrReplaced();
    SplitTwoLines();
  }

  lemma NoCrlfAmongLoneCrs()
    ensures ReplaceFirst("a\rb\rc", "\r\n", "\n") == "a\rb\rc"
  {
    var s := "a\rb\rc";
    forall j: nat | j + 2 <= |s|
      ensures !OccursAt(s, "\r\n", j)
    {
      assert s[j..j + 2][1] == s[j + 1] != '\n';
    }
    assert IndexOf(s, "\r\n").None?;
  }

  lemma FirstLoneCrReplaced()
    ensures ReplaceFirst("a\rb\rc", "\r", "\n") == "a\nb\rc"
  {
    var s := "a\rb\rc";
    assert OccursAt(s, "\r", 1);
    assert s[0..1][0] == 'a';
    IndexOfAt(s, "\r", 1);
  }

  lemma SplitTwoLines()
    ensures SplitLine("a\nb\rc") == ["a", "b\rc"]
  {
    SplitLineJoin(["a", "b\rc"]);
    assert Join(["a", "b\rc"], "\n") == "a\nb\rc";
  }
}

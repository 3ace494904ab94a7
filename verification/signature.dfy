/**
 `removeSignature` (extractor.js): walking up from the last line, every
 non-blank line is first tested against the closing greetings (on the raw
 line) and the walk ends at one that matches; otherwise the line, trimmed and
 with its ASCII and ideographic spaces removed, is tested for a divider: a
 run of at least 15 symbol characters at its start. The walk also ends at the
 third divider, after 15 non-blank lines while no divider has been seen, and
 after 20 non-blank lines in any case. The list is cut just before the
 topmost divider recorded.
 */
module Signature {
  import opened Strings
  import opened Rules

  /** `SIGNATURE_FIRST_LINE_LIMIT`. */
  const FirstLineLimit: nat := 15
  /** `SIGNATURE_LINE_LIMIT`. */
  const LineLimit: nat := 20
  /** `SIGNATURE_FOUND_COUNT_LIMIT`. */
  const FoundCountLimit: nat := 3
  /** The `{15,}` of the divider pattern. */
  const DividerRun: nat := 15

  /** The divider pattern's character class: ASCII punctuation, half-width
      katakana punctuation and prolonged sound mark, full-width punctuation,
      the block from U+2010 (dashes, arrows, box drawing, shapes, ...) to
      U+2BFF, and the kana voicing marks, double hyphen and middle dot. */
  predicate IsSymbol(c: char) {
    || ('!' <= c <= '/') || (':' <= c <= '@') || ('[' <= c <= '`') || ('{' <= c <= '~')
    || ('\U{FF61}' <= c <= '\U{FF65}') || c == '\U{FF70}'
    || ('\U{FF01}' <= c <= '\U{FF0F}') || ('\U{FF1A}' <= c <= '\U{FF20}')
    || ('\U{FF3B}' <= c <= '\U{FF40}') || ('\U{FF5B}' <= c <= '\U{FF65}')
    || ('\U{2010}' <= c <= '\U{2BFF}')
    || ('\U{3099}' <= c <= '\U{309F}') || c == '\U{30A0}' || ('\U{30FB}' <= c <= '\U{30FF}')
  }

  /** The divider test, anchored at the start only: the text begins with
      `DividerRun` symbol characters, whatever follows. */
  predicate IsDivider(text: string) {
    |text| >= DividerRun && forall i :: 0 <= i < DividerRun ==> IsSymbol(text[i])
  }

  /** The two characters `/[ 　]/g` removes. */
  predicate IsSpace(c: char) {
    c == ' ' || c == '\U{3000}'
  }

  /** `replace(/[ 　]/g, '')`: the characters of `s` other than spaces, in
      order. */
  function StripSpaces(s: string): (r: string)
    ensures |s| > 0 && !IsSpace(s[0]) ==> |r| > 0 && r[0] == s[0]
  {
    if |s| == 0 then ""
    else if IsSpace(s[0]) then StripSpaces(s[1..])
    else [s[0]] + StripSpaces(s[1..])
  }

  /** Every space is removed and nothing is added: the result holds no
      space, is no longer than `s`, and a text without spaces is left as it
      was. */
  lemma {:induction false} StripSpacesRemovesAll(s: string)
    ensures |StripSpaces(s)| <= |s|
    ensures forall i :: 0 <= i < |StripSpaces(s)| ==> !IsSpace(StripSpaces(s)[i])
    ensures (forall i :: 0 <= i < |s| ==> !IsSpace(s[i])) ==> StripSpaces(s) == s
    decreases |s|
  {
    if |s| > 0 {
      StripSpacesRemovesAll(s[1..]);
      if !IsSpace(s[0]) {
        assert forall i :: 1 <= i < |StripSpaces(s)| ==> StripSpaces(s)[i] == StripSpaces(s[1..])[i - 1];
      }
      if forall i :: 0 <= i < |s| ==> !IsSpace(s[i]) {
        assert forall i :: 0 <= i < |s[1..]| ==> s[1..][i] == s[i + 1];
        assert s == [s[0]] + s[1..];
      }
    }
  }

  /** Removing spaces goes character by character: a single character is
      dropped exactly when it is a space, and the pieces of a concatenation
      are stripped separately. Together these fix the result for every text:
      the characters other than spaces, in their order. */
  lemma {:induction false} StripSpacesConcat(a: string, b: string)
    ensures StripSpaces(a + b) == StripSpaces(a) + StripSpaces(b)
    ensures |a| == 1 ==> StripSpaces(a) == if IsSpace(a[0]) then "" else a
    decreases |a|
  {
    if |a| > 0 {
      assert (a + b)[1..] == a[1..] + b;
      StripSpacesConcat(a[1..], b);
      if |a| == 1 {
        assert a[1..] == "";
      }
    } else {
      assert a + b == b;
    }
  }

  /** The text the divider test sees. */
  function Compact(line: string): string {
    StripSpaces(Trim(line))
  }

  /** The walk's own emptiness test agrees with blankness: the spaces removed
      are whitespace, so they cannot be all that `trim` leaves. */
  lemma CompactEmptyIffBlank(line: string)
    ensures |Compact(line)| == 0 <==> IsBlank(line)
  {
    BlankIffTrimEmpty(line);
  }

  predicate IsDividerLine(line: string) {
    IsDivider(Compact(line))
  }

  /** A divider line is never blank. */
  lemma DividerNotBlank(line: string)
    requires IsDividerLine(line)
    ensures !IsBlank(line)
  {
    CompactEmptyIffBlank(line);
  }

  /** Some closing greeting rule matches line `idx`. */
  predicate Greets(greetings: seq<Rule>, lines: seq<string>, idx: int)
    requires 0 <= idx < |lines|
  {
    exists k :: 0 <= k < |greetings| && IsMatch(greetings[k], lines, idx)
  }

  /** How the walk treats a line, decided in the source's order: an empty
      compacted line is skipped, a closing greeting stops the walk, and only
      then is the divider test made. */
  datatype Kind = Blank | Greeting | Divider | Other

  function KindOf(greetings: seq<Rule>, lines: seq<string>, idx: int): Kind
    requires 0 <= idx < |lines|
  {
    if |Compact(lines[idx])| == 0 then Blank
    else if Greets(greetings, lines, idx) then Greeting
    else if IsDividerLine(lines[idx]) then Divider
    else Other
  }

  /** The kinds of `lines[..n]`, in order. */
  function Kinds(greetings: seq<Rule>, lines: seq<string>, n: int): (ks: seq<Kind>)
    requires 0 <= n <= |lines|
    ensures |ks| == n
  {
    if n == 0 then [] else Kinds(greetings, lines, n - 1) + [KindOf(greetings, lines, n - 1)]
  }

  lemma {:induction false} KindsAt(greetings: seq<Rule>, lines: seq<string>, n: int, i: int)
    requires 0 <= i < n <= |lines|
    ensures Kinds(greetings, lines, n)[i] == KindOf(greetings, lines, i)
    decreases n
  {
    if i < n - 1 {
      KindsAt(greetings, lines, n - 1, i);
    }
  }

  /** The kinds in terms of the line itself. */
  lemma KindMeaning(greetings: seq<Rule>, lines: seq<string>, idx: int)
    requires 0 <= idx < |lines|
    ensures KindOf(greetings, lines, idx) == Blank <==> IsBlank(lines[idx])
    ensures KindOf(greetings, lines, idx) == Greeting <==>
              !IsBlank(lines[idx]) && Greets(greetings, lines, idx)
    ensures KindOf(greetings, lines, idx) == Divider <==>
              !IsBlank(lines[idx]) && !Greets(greetings, lines, idx) && IsDividerLine(lines[idx])
  {
    CompactEmptyIffBlank(lines[idx]);
  }

  /** A recorded divider is a non-blank line that is no closing greeting and
      whose compacted text starts with a run of symbols. */
  lemma RecordedLine(greetings: seq<Rule>, lines: seq<string>, i: int)
    requires Recorded(Kinds(greetings, lines, |lines|), i)
    ensures !IsBlank(lines[i]) && !Greets(greetings, lines, i) && IsDivider(Compact(lines[i]))
  {
    KindsAt(greetings, lines, |lines|, i);
    KindMeaning(greetings, lines, i);
  }

  /** The number of non-blank lines in `ks[lo..]`. */
  function CountSeen(ks: seq<Kind>, lo: int): nat
    requires 0 <= lo <= |ks|
    decreases |ks| - lo
  {
    if lo == |ks| then 0 else (if ks[lo] == Blank then 0 else 1) + CountSeen(ks, lo + 1)
  }

  /** The number of dividers in `ks[lo..]`. */
  function CountFound(ks: seq<Kind>, lo: int): nat
    requires 0 <= lo <= |ks|
    decreases |ks| - lo
  {
    if lo == |ks| then 0 else (if ks[lo] == Divider then 1 else 0) + CountFound(ks, lo + 1)
  }

  /** The walk's loop from `idx` up. `lineCount` non-blank lines and `found`
      dividers lie below `idx`, and `lastFound` is the topmost divider so far
      (-1 for none). */
  function SignatureScan(ks: seq<Kind>, idx: int, lineCount: nat, lastFound: int, found: nat): int
    requires -1 <= idx < |ks|
    decreases idx + 1
  {
    if idx < 0 then lastFound
    else if ks[idx] == Blank then SignatureScan(ks, idx - 1, lineCount, lastFound, found)
    else if ks[idx] == Greeting then lastFound
    else if ks[idx] == Divider && found + 1 >= FoundCountLimit then idx
    else
      var last := if ks[idx] == Divider then idx else lastFound;
      var f := if ks[idx] == Divider then found + 1 else found;
      if f == 0 && lineCount + 1 >= FirstLineLimit then last
      else if lineCount + 1 >= LineLimit then last
      else SignatureScan(ks, idx - 1, lineCount + 1, last, f)
  }

  /** The walk goes on past the non-blank line `j`: it is no closing greeting,
      it is not the third divider, and neither line limit has been reached
      with it. */
  predicate Continues(ks: seq<Kind>, j: int)
    requires 0 <= j < |ks|
  {
    && ks[j] != Greeting
    && !(ks[j] == Divider && CountFound(ks, j) >= FoundCountLimit)
    && !(CountFound(ks, j) == 0 && CountSeen(ks, j) >= FirstLineLimit)
    && CountSeen(ks, j) < LineLimit
  }

  /** The walk reaches line `i`: it went on past every non-blank line below. */
  predicate Reached(ks: seq<Kind>, i: int)
    requires -1 <= i < |ks|
  {
    forall j :: i < j < |ks| && ks[j] != Blank ==> Continues(ks, j)
  }

  /** The walk records line `i` as a divider. */
  predicate Recorded(ks: seq<Kind>, i: int) {
    0 <= i < |ks| && Reached(ks, i) && ks[i] == Divider
  }

  /** The walk records no divider. */
  predicate NoneRecorded(ks: seq<Kind>) {
    forall i :: 0 <= i < |ks| ==> !Recorded(ks, i)
  }

  /** No divider lies in a range whose count is zero. */
  lemma {:induction false} CountFoundZero(ks: seq<Kind>, lo: int, j: int)
    requires 0 <= lo <= j < |ks| && CountFound(ks, lo) == 0
    ensures ks[j] != Divider
    decreases j - lo
  {
    if lo < j {
      CountFoundZero(ks, lo + 1, j);
    }
  }

  lemma {:induction false} SignatureScanSpec(ks: seq<Kind>, idx: int, lineCount: nat, lastFound: int, found: nat)
    requires -1 <= idx < |ks|
    requires Reached(ks, idx)
    requires lineCount == CountSeen(ks, idx + 1) && found == CountFound(ks, idx + 1)
    requires lastFound == -1 ==> found == 0
    requires lastFound != -1 ==>
               && idx < lastFound < |ks| && Recorded(ks, lastFound)
               && forall j :: idx < j < lastFound ==> ks[j] != Divider
    ensures var b := SignatureScan(ks, idx, lineCount, lastFound, found);
            && (b == -1 ==> forall i :: 0 <= i < |ks| ==> !Recorded(ks, i))
            && (b != -1 ==> Recorded(ks, b) && forall i :: 0 <= i < b ==> !Recorded(ks, i))
    decreases idx + 1
  {
    if lastFound == -1 {
      forall j | idx < j < |ks|
        ensures ks[j] != Divider
      {
        CountFoundZero(ks, idx + 1, j);
      }
    }
    if idx >= 0 {
      if ks[idx] == Blank {
        ReachedStep(ks, idx);
        SignatureScanSpec(ks, idx - 1, lineCount, lastFound, found);
      } else if !Continues(ks, idx) {
        StopsAt(ks, idx);
      } else {
        ReachedStep(ks, idx);
        var last := if ks[idx] == Divider then idx else lastFound;
        var f := if ks[idx] == Divider then found + 1 else found;
        SignatureScanSpec(ks, idx - 1, lineCount + 1, last, f);
      }
    }
  }

  /** Passing over line `idx` reaches the line above it. */
  lemma ReachedStep(ks: seq<Kind>, idx: int)
    requires 0 <= idx < |ks| && Reached(ks, idx)
    requires ks[idx] == Blank || Continues(ks, idx)
    ensures Reached(ks, idx - 1)
  {
    forall j | idx - 1 < j < |ks| && ks[j] != Blank
      ensures Continues(ks, j)
    {
      if j == idx {
        assert Continues(ks, idx);
      }
    }
  }

  /** A walk that stops at line `idx` reaches no line above it. */
  lemma StopsAt(ks: seq<Kind>, idx: int)
    requires 0 <= idx < |ks| && ks[idx] != Blank && !Continues(ks, idx)
    ensures forall i :: 0 <= i < idx ==> !Reached(ks, i)
  {
    forall i | 0 <= i < idx
      ensures !Reached(ks, i)
    {
      assert idx > i && ks[idx] != Blank && !Continues(ks, idx);
    }
  }

  /** The part a recorded divider starts: no closing greeting in it, and the
      walk's limits bound what it holds. */
  lemma RecordedCut(ks: seq<Kind>, b: int)
    requires Recorded(ks, b)
    ensures forall j :: b <= j < |ks| ==> ks[j] != Greeting
    ensures CountSeen(ks, b) <= LineLimit
    ensures CountFound(ks, b) <= FoundCountLimit
    ensures CountFound(ks, b) == 1 ==> CountSeen(ks, b) <= FirstLineLimit
  {
    ReachedCounts(ks, b + 1);
    forall j | b < j < |ks|
      ensures ks[j] != Greeting
    {
      if ks[j] != Blank {
        assert Continues(ks, j);
      }
    }
  }

  /** The index of the topmost recorded divider, or -1 when the walk records
      none. */
  function SignatureBoundary(ks: seq<Kind>): (b: int)
    ensures b == -1 <==> NoneRecorded(ks)
    ensures b != -1 ==> Recorded(ks, b) && forall i :: 0 <= i < b ==> !Recorded(ks, i)
  {
    SignatureScanSpec(ks, |ks| - 1, 0, -1, 0);
    SignatureScan(ks, |ks| - 1, 0, -1, 0)
  }

  /** What a walk that reaches past line `i - 1` has seen from `i` down: fewer
      than 20 non-blank lines, fewer than 3 dividers, and fewer than 15
      non-blank lines if none of them is a divider. */
  lemma {:induction false} ReachedCounts(ks: seq<Kind>, i: int)
    requires 0 <= i <= |ks|
    requires Reached(ks, i - 1)
    ensures CountSeen(ks, i) < LineLimit
    ensures CountFound(ks, i) < FoundCountLimit
    ensures CountFound(ks, i) == 0 ==> CountSeen(ks, i) < FirstLineLimit
    decreases |ks| - i
  {
    if i < |ks| {
      ReachedCounts(ks, i + 1);
      if ks[i] != Blank {
        assert Continues(ks, i);
      }
    }
  }

  /** `removeSignature`: the lines above the topmost recorded divider, or all
      of them when no divider is recorded. The part cut off starts with that
      divider, holds no closing greeting, at most 20 non-blank lines and at
      most 3 dividers, and at most 15 non-blank lines when the divider is its
      only one. */
  function RemoveSignature(greetings: seq<Rule>, lines: seq<string>): (r: seq<string>)
    ensures |r| <= |lines| && r == lines[..|r|]
    ensures var ks := Kinds(greetings, lines, |lines|);
            && (r == lines <==> NoneRecorded(ks))
            && (|r| < |lines| ==>
                  && Recorded(ks, |r|)
                  && (forall i :: 0 <= i < |r| ==> !Recorded(ks, i))
                  && (forall j :: |r| <= j < |lines| ==> ks[j] != Greeting)
                  && CountSeen(ks, |r|) <= LineLimit
                  && CountFound(ks, |r|) <= FoundCountLimit
                  && (CountFound(ks, |r|) == 1 ==> CountSeen(ks, |r|) <= FirstLineLimit))
  {
    var ks := Kinds(greetings, lines, |lines|);
    var b := SignatureBoundary(ks);
    if b != -1 then
      RecordedCut(ks, b);
      lines[..b]
    else lines
  }
}

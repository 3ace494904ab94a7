/**
 `removeEmptyLine` (extractor.js): drop the blank lines at the head, counting
 them into `startIndex`, and the blank lines at the tail. A list of blank
 lines only becomes empty, and then `startIndex` is left as it was.
 */
module EmptyLines {
  import opened Strings
  import opened Rules

  /** The first loop: the index of the first non-blank line at or after
      `from`, or `|lines|` when there is none. */
  function FirstNonBlank(lines: seq<string>, from: int): (k: int)
    requires 0 <= from <= |lines|
    ensures from <= k <= |lines|
    ensures forall j :: from <= j < k ==> IsBlank(lines[j])
    ensures k < |lines| ==> !IsBlank(lines[k])
    decreases |lines| - from
  {
    if from == |lines| || !IsBlank(lines[from]) then from
    else FirstNonBlank(lines, from + 1)
  }

  /** The second loop: the index of the last non-blank line before `n`, or
      -1 when there is none. */
  function LastNonBlank(lines: seq<string>, n: int): (k: int)
    requires 0 <= n <= |lines|
    ensures -1 <= k < n
    ensures forall j :: k < j < n ==> IsBlank(lines[j])
    ensures k >= 0 ==> !IsBlank(lines[k])
    decreases n
  {
    if n == 0 then -1
    else if !IsBlank(lines[n - 1]) then n - 1
    else LastNonBlank(lines, n - 1)
  }

  /** The head half of `removeEmptyLine`: drop the leading blank lines and
      count them into `startIndex`; a list of blank lines only becomes
      empty with `startIndex` left as it was. */
  function DropBlankHead(s: State): (t: State)
    ensures Narrows(s, t)
    ensures |t.lines| > 0 ==> KeepsBack(s, t)
    ensures |t.lines| == 0 <==> forall j :: 0 <= j < |s.lines| ==> IsBlank(s.lines[j])
    ensures |t.lines| == 0 ==> t.startIndex == s.startIndex
    ensures |t.lines| > 0 ==> !IsBlank(t.lines[0])
    ensures |t.lines| > 0 ==> forall j :: 0 <= j < t.startIndex - s.startIndex ==> IsBlank(s.lines[j])
  {
    var found := FirstNonBlank(s.lines, 0);
    if 0 < found < |s.lines| then State(s.lines[found..], s.startIndex + found)
    else if found == |s.lines| then State([], s.startIndex)
    else s
  }

  /** Every line is blank (the empty list included). */
  predicate AllBlank(lines: seq<string>) {
    forall j :: 0 <= j < |lines| ==> IsBlank(lines[j])
  }

  /** The tail half: keep the lines up to the last non-blank one. The loop
      never cuts a list without a non-blank line, so such a list comes back
      as it was. */
  function DropBlankTail(t: State): (r: State)
    ensures KeepsFront(t, r)
    ensures |r.lines| == 0 <==> |t.lines| == 0
    ensures AllBlank(t.lines) ==> r == t
    ensures !AllBlank(t.lines) ==>
              && 0 < |r.lines|
              && !IsBlank(r.lines[|r.lines| - 1])
              && forall j :: |r.lines| <= j < |t.lines| ==> IsBlank(t.lines[j])
  {
    var last := LastNonBlank(t.lines, |t.lines|);
    if last >= 0 then State(t.lines[..last + 1], t.startIndex) else t
  }

  /** `removeEmptyLine`. The kept lines are the run from the first non-blank
      line to the last one; everything outside it is blank, and `startIndex`
      grows by the number of blank lines dropped from the head. */
  function RemoveEmptyLine(s: State): (r: State)
    ensures Narrows(s, r)
    ensures |r.lines| == 0 <==> forall j :: 0 <= j < |s.lines| ==> IsBlank(s.lines[j])
    ensures |r.lines| == 0 ==> r.startIndex == s.startIndex
    ensures |r.lines| > 0 ==> !IsBlank(r.lines[0]) && !IsBlank(r.lines[|r.lines| - 1])
    ensures forall j :: 0 <= j < r.startIndex - s.startIndex ==> IsBlank(s.lines[j])
    ensures forall j :: r.startIndex - s.startIndex + |r.lines| <= j < |s.lines| ==> IsBlank(s.lines[j])
  {
    Halves(s);
    DropBlankTail(DropBlankHead(s))
  }

  /** What the head half and the tail half promise, put together. */
  lemma Halves(s: State)
    ensures var r := DropBlankTail(DropBlankHead(s));
            && Narrows(s, r)
            && (|r.lines| == 0 <==> forall j :: 0 <= j < |s.lines| ==> IsBlank(s.lines[j]))
            && (|r.lines| == 0 ==> r.startIndex == s.startIndex)
            && (|r.lines| > 0 ==> !IsBlank(r.lines[0]) && !IsBlank(r.lines[|r.lines| - 1]))
            && (forall j :: 0 <= j < r.startIndex - s.startIndex ==> IsBlank(s.lines[j]))
            && (forall j :: r.startIndex - s.startIndex + |r.lines| <= j < |s.lines| ==> IsBlank(s.lines[j]))
  {
    var t := DropBlankHead(s);
    var r := DropBlankTail(t);
    HalvesWindow(s, t, r);
    if |t.lines| > 0 {
      assert !IsBlank(t.lines[0]);
      HalvesTail(s, t, r);
    }
  }

  /** The two halves compose: a window of a window, empty exactly when the
      input is all blank. */
  lemma HalvesWindow(s: State, t: State, r: State)
    requires Narrows(s, t) && KeepsFront(t, r)
    requires |t.lines| == 0 <==> forall j :: 0 <= j < |s.lines| ==> IsBlank(s.lines[j])
    requires |t.lines| == 0 ==> t.startIndex == s.startIndex
    requires |t.lines| > 0 ==> !IsBlank(t.lines[0])
    requires |r.lines| == 0 <==> |t.lines| == 0
    ensures Narrows(s, r)
    ensures |r.lines| == 0 <==> forall j :: 0 <= j < |s.lines| ==> IsBlank(s.lines[j])
    ensures |r.lines| == 0 ==> r.startIndex == s.startIndex
    ensures |r.lines| > 0 ==> r.lines[0] == t.lines[0]
  {
    KeepsFrontNarrows(t, r);
    NarrowsTransitive(s, t, r);
    if |t.lines| > 0 {
      assert !IsBlank(t.lines[0]);
    }
  }

  /** The lines the halves drop from the tail of a non-empty head half lie
      at the tail of the input too. */
  lemma HalvesTail(s: State, t: State, r: State)
    requires |t.lines| > 0 && KeepsBack(s, t) && KeepsFront(t, r)
    requires forall j :: |r.lines| <= j < |t.lines| ==> IsBlank(t.lines[j])
    ensures forall j :: r.startIndex - s.startIndex + |r.lines| <= j < |s.lines| ==> IsBlank(s.lines[j])
  {
    var d := t.startIndex - s.startIndex;
    forall j | d + |r.lines| <= j < |s.lines|
      ensures IsBlank(s.lines[j])
    {
      assert s.lines[j] == t.lines[j - d];
    }
  }

  /** A list that is empty or has non-blank first and last lines is left
      alone. */
  lemma RemoveEmptyLineFixed(t: State)
    requires |t.lines| > 0 ==> !IsBlank(t.lines[0]) && !IsBlank(t.lines[|t.lines| - 1])
    ensures RemoveEmptyLine(t) == t
  {
    if |t.lines| > 0 {
      assert FirstNonBlank(t.lines, 0) == 0;
      assert DropBlankHead(t) == t;
      assert LastNonBlank(t.lines, |t.lines|) == |t.lines| - 1;
      assert t.lines[..|t.lines|] == t.lines;
    } else {
      assert FirstNonBlank(t.lines, 0) == 0;
    }
  }

  /** Trimming the blank edges twice is trimming them once. */
  lemma RemoveEmptyLineIdempotent(s: State)
    ensures RemoveEmptyLine(RemoveEmptyLine(s)) == RemoveEmptyLine(s)
  {
    RemoveEmptyLineFixed(RemoveEmptyLine(s));
  }
}

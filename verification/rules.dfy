/**
 The rule engine's building blocks (extractor.js): the shape of a rule record
 from `initParams`, the offset resolver `getOffsetIndex`, `getTextLine`, the
 matcher `isMatch` and the cut `removeLines`.

 The extractor object's `startIndex` field, the number of lines dropped from
 the front so far, is threaded explicitly: every operation that may cut the
 front takes and returns a `State`.
 */
module Rules {
  import opened Wrappers
  import opened Strings

  /** A rule's `direction` (where its scan starts and which way it walks) and
      its `remove` (which side of the resolved boundary line is discarded):
      removing `Forward` drops everything up to and including the boundary,
      removing `Backward` drops the boundary and everything after it. The
      source throws on any other string; a closed type leaves no such case. */
  datatype Direction = Forward | Backward

  /** An entry of `additionalCondition`: `pattern` must hold of the line that
      lies `offset` non-blank lines away from the matched line. */
  datatype Condition = Condition(offset: int, pattern: string -> bool)

  /** A rule record. `lineLimit == 0` stands for an absent `lineLimit` (the
      source tests it for truthiness, so 0 and undefined behave alike). */
  datatype Rule = Rule(
    direction: Direction,
    condition: string -> bool,
    additionalCondition: seq<Condition>,
    offset: int,
    remove: Direction,
    lineLimit: nat,
    repeat: bool)

  /** The working lines together with `startIndex`, the number of lines of the
      split input that have been dropped from the front. */
  datatype State = State(lines: seq<string>, startIndex: nat)

  /** `t` is a contiguous run of the lines of `s`, and its `startIndex` has
      grown by exactly the number of lines cut from the front. */
  predicate Narrows(s: State, t: State) {
    && s.startIndex <= t.startIndex
    && t.startIndex - s.startIndex + |t.lines| <= |s.lines|
    && t.lines == s.lines[t.startIndex - s.startIndex .. t.startIndex - s.startIndex + |t.lines|]
  }

  /** `t` keeps a prefix of the lines of `s`: only the tail was cut. */
  predicate KeepsFront(s: State, t: State) {
    && t.startIndex == s.startIndex
    && |t.lines| <= |s.lines|
    && t.lines == s.lines[..|t.lines|]
  }

  /** `t` keeps a suffix of the lines of `s`, with `startIndex` grown by the
      number of lines cut from the front. */
  predicate KeepsBack(s: State, t: State) {
    && |t.lines| <= |s.lines|
    && t.startIndex == s.startIndex + (|s.lines| - |t.lines|)
    && t.lines == s.lines[|s.lines| - |t.lines|..]
  }

  lemma NarrowsTransitive(a: State, b: State, c: State)
    requires Narrows(a, b) && Narrows(b, c)
    ensures Narrows(a, c)
  {
    var i := b.startIndex - a.startIndex;
    var j := c.startIndex - b.startIndex;
    forall k | 0 <= k < |c.lines|
      ensures c.lines[k] == a.lines[i + j + k]
    {
      assert c.lines[k] == b.lines[j + k];
    }
    assert c.lines == a.lines[i + j .. i + j + |c.lines|];
  }

  lemma KeepsFrontTransitive(a: State, b: State, c: State)
    requires KeepsFront(a, b) && KeepsFront(b, c)
    ensures KeepsFront(a, c)
  {
    assert c.lines == a.lines[..|b.lines|][..|c.lines|];
  }

  lemma KeepsBackTransitive(a: State, b: State, c: State)
    requires KeepsBack(a, b) && KeepsBack(b, c)
    ensures KeepsBack(a, c)
  {
    assert c.lines == a.lines[|a.lines| - |b.lines|..][|b.lines| - |c.lines|..];
  }

  lemma KeepsFrontNarrows(s: State, t: State)
    requires KeepsFront(s, t)
    ensures Narrows(s, t)
  {
  }

  lemma KeepsBackNarrows(s: State, t: State)
    requires KeepsBack(s, t)
    ensures Narrows(s, t)
  {
  }

  /** The number of non-blank lines among `lines[lo..hi]`. */
  function CountNonBlank(lines: seq<string>, lo: int, hi: int): nat
    requires 0 <= lo <= hi <= |lines|
    decreases hi - lo
  {
    if lo == hi then 0
    else CountNonBlank(lines, lo, hi - 1) + (if IsBlank(lines[hi - 1]) then 0 else 1)
  }

  /** Counting is additive over adjacent ranges. */
  lemma {:induction false} CountNonBlankSplit(lines: seq<string>, lo: int, mid: int, hi: int)
    requires 0 <= lo <= mid <= hi <= |lines|
    ensures CountNonBlank(lines, lo, hi) == CountNonBlank(lines, lo, mid) + CountNonBlank(lines, mid, hi)
    decreases hi - mid
  {
    if mid < hi {
      CountNonBlankSplit(lines, lo, mid, hi - 1);
    }
  }

  /** Adding one line at the front of a range. */
  lemma CountNonBlankFront(lines: seq<string>, lo: int, hi: int)
    requires 0 <= lo < hi <= |lines|
    ensures CountNonBlank(lines, lo, hi) == (if IsBlank(lines[lo]) then 0 else 1) + CountNonBlank(lines, lo + 1, hi)
  {
    CountNonBlankSplit(lines, lo, lo + 1, hi);
  }

  /** `getOffsetIndex`: from `idx`, step one line at a time in the direction of
      `offset`'s sign, counting only non-blank lines, until `|offset|` of them
      have been passed; -1 when the edge of `lines` comes first. An offset of
      zero resolves to `idx` itself. */
  function OffsetIndex(lines: seq<string>, idx: int, offset: int): (r: int)
    ensures offset == 0 ==> r == idx
    ensures offset > 0 ==> r == -1 || (0 <= r < |lines| && idx < r && !IsBlank(lines[r]))
    ensures offset < 0 ==> r == -1 || (0 <= r < |lines| && r < idx && !IsBlank(lines[r]))
    decreases if offset < 0 then -offset else offset, if offset > 0 then |lines| - idx else idx + 1
  {
    if offset == 0 then idx
    else
      var inc := if offset > 0 then 1 else -1;
      var next := idx + inc;
      if next < 0 || next >= |lines| then -1
      else if IsBlank(lines[next]) then OffsetIndex(lines, next, offset)
      else OffsetIndex(lines, next, offset - inc)
  }

  /** One step of the resolver walking forward: a blank line is skipped
      without using up the offset, a non-blank one uses up one unit. */
  lemma OffsetIndexStepForward(lines: seq<string>, idx: int, offset: int)
    requires 0 <= idx < |lines| - 1 && offset > 0
    ensures IsBlank(lines[idx + 1]) ==> OffsetIndex(lines, idx, offset) == OffsetIndex(lines, idx + 1, offset)
    ensures !IsBlank(lines[idx + 1]) ==> OffsetIndex(lines, idx, offset) == OffsetIndex(lines, idx + 1, offset - 1)
  {
    if IsBlank(lines[idx + 1]) {} else {}
  }

  /** One step of the resolver walking backward. */
  lemma OffsetIndexStepBackward(lines: seq<string>, idx: int, offset: int)
    requires 0 < idx < |lines| && offset < 0
    ensures IsBlank(lines[idx - 1]) ==> OffsetIndex(lines, idx, offset) == OffsetIndex(lines, idx - 1, offset)
    ensures !IsBlank(lines[idx - 1]) ==> OffsetIndex(lines, idx, offset) == OffsetIndex(lines, idx - 1, offset + 1)
  {
    if IsBlank(lines[idx - 1]) {} else {}
  }

  /** A positive offset resolves to the line after `idx` at which exactly
      `offset` non-blank lines have been passed; -1 exactly when fewer than
      `offset` non-blank lines follow `idx`. */
  lemma {:induction false} OffsetIndexForward(lines: seq<string>, idx: int, offset: int)
    requires 0 <= idx < |lines| && offset > 0
    ensures var r := OffsetIndex(lines, idx, offset);
            && (r == -1 <==> CountNonBlank(lines, idx + 1, |lines|) < offset)
            && (r != -1 ==> idx < r < |lines| && !IsBlank(lines[r])
                            && CountNonBlank(lines, idx + 1, r + 1) == offset)
    decreases |lines| - idx
  {
    var next := idx + 1;
    var r := OffsetIndex(lines, idx, offset);
    if next == |lines| {
      assert r == -1;
      assert CountNonBlank(lines, idx + 1, |lines|) == 0;
    } else {
      OffsetIndexStepForward(lines, idx, offset);
      CountNonBlankSplit(lines, idx + 1, next + 1, |lines|);
      if IsBlank(lines[next]) {
        OffsetIndexForward(lines, next, offset);
        if r != -1 {
          CountNonBlankSplit(lines, idx + 1, next + 1, r + 1);
        }
      } else if offset > 1 {
        OffsetIndexForward(lines, next, offset - 1);
        assert CountNonBlank(lines, idx + 1, next + 1) == 1;
        if r != -1 {
          CountNonBlankSplit(lines, idx + 1, next + 1, r + 1);
        }
      } else {
        assert r == next;
        assert CountNonBlank(lines, idx + 1, next + 1) == 1;
      }
    }
  }

  /** A negative offset resolves to the line before `idx` at which exactly
      `-offset` non-blank lines have been passed; -1 exactly when fewer than
      `-offset` non-blank lines precede `idx`. */
  lemma {:induction false} OffsetIndexBackward(lines: seq<string>, idx: int, offset: int)
    requires 0 <= idx < |lines| && offset < 0
    ensures var r := OffsetIndex(lines, idx, offset);
            && (r == -1 <==> CountNonBlank(lines, 0, idx) < -offset)
            && (r != -1 ==> 0 <= r < idx && !IsBlank(lines[r])
                            && CountNonBlank(lines, r, idx) == -offset)
    decreases idx
  {
    var next := idx - 1;
    if next >= 0 {
      var r := OffsetIndex(lines, idx, offset);
      OffsetIndexStepBackward(lines, idx, offset);
      if IsBlank(lines[next]) {
        OffsetIndexBackward(lines, next, offset);
      } else if offset < -1 {
        OffsetIndexBackward(lines, next, offset + 1);
      }
    }
  }

  lemma OffsetIndexCounts(lines: seq<string>, idx: int, offset: int)
    requires 0 <= idx < |lines|
    ensures offset > 0 ==> (OffsetIndex(lines, idx, offset) == -1 <==> CountNonBlank(lines, idx + 1, |lines|) < offset)
    ensures offset < 0 ==> (OffsetIndex(lines, idx, offset) == -1 <==> CountNonBlank(lines, 0, idx) < -offset)
    ensures var r := OffsetIndex(lines, idx, offset);
            offset > 0 && r != -1 ==>
              idx < r < |lines| && !IsBlank(lines[r]) && CountNonBlank(lines, idx + 1, r + 1) == offset
    ensures var r := OffsetIndex(lines, idx, offset);
            offset < 0 && r != -1 ==>
              0 <= r < idx && !IsBlank(lines[r]) && CountNonBlank(lines, r, idx) == -offset
  {
    if offset > 0 {
      OffsetIndexForward(lines, idx, offset);
    } else if offset < 0 {
      OffsetIndexBackward(lines, idx, offset);
    }
  }

  /** `getTextLine`: the line `offset` non-blank lines away from `idx`, or
      `None` (the source's null) when there is none. */
  function GetTextLine(lines: seq<string>, idx: int, offset: int): (r: Option<string>)
    requires 0 <= idx < |lines|
    ensures offset == 0 ==> r == Some(lines[idx])
    ensures offset != 0 && r.Some? ==> !IsBlank(r.value)
    ensures offset > 0 ==> (r.None? <==> CountNonBlank(lines, idx + 1, |lines|) < offset)
    ensures offset < 0 ==> (r.None? <==> CountNonBlank(lines, 0, idx) < -offset)
    ensures offset > 0 && r.Some? ==>
              exists k :: idx < k < |lines| && r.value == lines[k] && !IsBlank(lines[k])
                          && CountNonBlank(lines, idx + 1, k + 1) == offset
    ensures offset < 0 && r.Some? ==>
              exists k :: 0 <= k < idx && r.value == lines[k] && !IsBlank(lines[k])
                          && CountNonBlank(lines, k, idx) == -offset
  {
    OffsetIndexCounts(lines, idx, offset);
    var k := OffsetIndex(lines, idx, offset);
    if k >= 0 then Some(lines[k]) else None
  }

  /** One additional condition holds at `idx`: its line exists and matches. */
  predicate ConditionHolds(c: Condition, lines: seq<string>, idx: int)
    requires 0 <= idx < |lines|
  {
    match GetTextLine(lines, idx, c.offset)
    case None => false
    case Some(line) => c.pattern(line)
  }

  /** The loop over `additionalCondition`, in declared order, stopping at the
      first failure. */
  predicate AdditionalHold(conds: seq<Condition>, lines: seq<string>, idx: int)
    requires 0 <= idx < |lines|
  {
    |conds| == 0 || (ConditionHolds(conds[0], lines, idx) && AdditionalHold(conds[1..], lines, idx))
  }

  /** `isMatch`: the primary pattern is tested on the line as it stands (not
      trimmed), then every additional condition. */
  predicate IsMatch(rule: Rule, lines: seq<string>, idx: int)
    requires 0 <= idx < |lines|
  {
    rule.condition(lines[idx]) && AdditionalHold(rule.additionalCondition, lines, idx)
  }

  /** The additional conditions are conjunctive: their order and the early
      exit do not change the verdict. */
  lemma {:induction false} AdditionalHoldAll(conds: seq<Condition>, lines: seq<string>, idx: int)
    requires 0 <= idx < |lines|
    ensures AdditionalHold(conds, lines, idx)
            <==> forall k :: 0 <= k < |conds| ==> ConditionHolds(conds[k], lines, idx)
    decreases |conds|
  {
    if |conds| > 0 {
      AdditionalHoldAll(conds[1..], lines, idx);
      assert forall k :: 1 <= k < |conds| ==> conds[k] == conds[1..][k - 1];
    }
  }

  /** A rule matches at `idx` exactly when its primary pattern holds of the raw
      line and every additional condition finds its line and matches it. */
  lemma IsMatchIff(rule: Rule, lines: seq<string>, idx: int)
    requires 0 <= idx < |lines|
    ensures IsMatch(rule, lines, idx)
            <==> rule.condition(lines[idx])
                 && forall k :: 0 <= k < |rule.additionalCondition| ==>
                      ConditionHolds(rule.additionalCondition[k], lines, idx)
  {
    AdditionalHoldAll(rule.additionalCondition, lines, idx);
  }

  /** `removeLines`: resolve the rule's offset from the matched line; removing
      `Forward` keeps what lies after the boundary and counts the dropped
      lines into `startIndex`, removing `Backward` keeps what lies before it.
      An unresolved offset leaves everything as it was. */
  function RemoveLines(rule: Rule, s: State, idx: int): (r: State)
    requires 0 <= idx < |s.lines|
    ensures Narrows(s, r)
    ensures rule.remove == Forward ==> KeepsBack(s, r)
    ensures rule.remove == Backward ==> KeepsFront(s, r)
    ensures var k := OffsetIndex(s.lines, idx, rule.offset);
            && (k < 0 ==> r == s)
            && (k >= 0 && rule.remove == Forward ==>
                  r.startIndex == s.startIndex + k + 1 && r.lines == s.lines[k + 1..])
            && (k >= 0 && rule.remove == Backward ==>
                  r.startIndex == s.startIndex && r.lines == s.lines[..k])
  {
    var k := OffsetIndex(s.lines, idx, rule.offset);
    if k < 0 then s
    else match rule.remove
      case Forward => State(s.lines[k + 1..], s.startIndex + k + 1)
      case Backward => State(s.lines[..k], s.startIndex)
  }

  /** With offset 0 the boundary is the matched line itself, so a firing
      always removes at least that line: re-applying a `repeat` rule of offset
      0 makes progress. */
  lemma RemoveLinesShrinks(rule: Rule, s: State, idx: int)
    requires 0 <= idx < |s.lines| && rule.offset == 0
    ensures |RemoveLines(rule, s, idx).lines| < |s.lines|
  {
  }
}

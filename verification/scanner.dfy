/**
 The generic rule-set scanner `removeUnconditionally` (extractor.js): for each
 rule of a set, walk the lines from the rule's origin in its direction,
 passing over blank lines, counting the non-blank lines that do not match,
 giving up once `lineLimit` of them have been counted, and applying
 `removeLines` at the first match. A `repeat` rule that fired is tried again
 on what is left.
 */
module Scanner {
  import opened Wrappers
  import opened Strings
  import opened Rules

  /** The index a scan in direction `dir` moves to after `idx`. */
  function Step(dir: Direction, idx: int): int {
    if dir == Forward then idx + 1 else idx - 1
  }

  /** The first index a scan in direction `dir` visits. */
  function Origin(dir: Direction, n: nat): int {
    if dir == Forward then 0 else n - 1
  }

  /** The scan loop from `idx` on; `count` is the number of non-blank lines
      already passed without a match. */
  function ScanFrom(rule: Rule, lines: seq<string>, idx: int, count: nat): Option<nat>
    requires -1 <= idx <= |lines|
    decreases if rule.direction == Forward then |lines| - idx else idx + 1
  {
    if idx < 0 || idx >= |lines| then None
    else if IsBlank(lines[idx]) then ScanFrom(rule, lines, Step(rule.direction, idx), count)
    else if IsMatch(rule, lines, idx) then Some(idx)
    else if rule.lineLimit > 0 && count + 1 >= rule.lineLimit then None
    else ScanFrom(rule, lines, Step(rule.direction, idx), count + 1)
  }

  /** `j` is visited before `i` by a scan in direction `dir`. */
  predicate Earlier(dir: Direction, j: int, i: int) {
    if dir == Forward then j < i else j > i
  }

  /** The scan passes over line `j`: it is blank, or the rule does not match
      it. */
  predicate Rejects(rule: Rule, lines: seq<string>, j: int)
    requires 0 <= j < |lines|
  {
    IsBlank(lines[j]) || !IsMatch(rule, lines, j)
  }

  /** The number of non-blank lines a scan visits before it reaches `i`. */
  function SeenBefore(rule: Rule, lines: seq<string>, i: int): nat
    requires 0 <= i < |lines|
  {
    if rule.direction == Forward then CountNonBlank(lines, 0, i)
    else CountNonBlank(lines, i + 1, |lines|)
  }

  /** The rule fires at line `i`: a non-blank line it matches, every line the
      scan visits before it is passed over, and fewer than `lineLimit`
      non-blank lines come before it (when there is a limit). */
  predicate FiresAt(rule: Rule, lines: seq<string>, i: int) {
    && 0 <= i < |lines|
    && !IsBlank(lines[i])
    && IsMatch(rule, lines, i)
    && (rule.lineLimit == 0 || SeenBefore(rule, lines, i) < rule.lineLimit)
    && forall j :: 0 <= j < |lines| && Earlier(rule.direction, j, i) ==> Rejects(rule, lines, j)
  }

  /** A rule fires at one line at most: every line the scan visits before a
      firing line is passed over, so none of them fires. */
  lemma FiresAtUnique(rule: Rule, lines: seq<string>, i: int, j: int)
    requires FiresAt(rule, lines, i)
    requires 0 <= j < |lines| && j != i
    ensures !FiresAt(rule, lines, j)
  {
    if Earlier(rule.direction, j, i) {
      assert Rejects(rule, lines, j);
    } else {
      assert !Rejects(rule, lines, i);
    }
  }

  /** A set of one rule that does not repeat cuts exactly at the line where
      the rule fires, and changes nothing when it fires nowhere. */
  lemma SingleRule(rule: Rule, s: State)
    requires !rule.repeat
    ensures (forall i :: 0 <= i < |s.lines| ==> !FiresAt(rule, s.lines, i)) ==>
              RemoveUnconditionally([rule], s) == s
    ensures forall i :: FiresAt(rule, s.lines, i) ==>
                          RemoveUnconditionally([rule], s) == RemoveLines(rule, s, i)
  {
    assert [rule][1..] == [];
    match FindMatch(rule, s.lines)
    case None =>
    case Some(k) =>
      forall i | FiresAt(rule, s.lines, i)
        ensures i == k
      {
        if i != k {
          FiresAtUnique(rule, s.lines, k, i);
        }
      }
  }

  /** The line a rule's scan stops at with a match, if any: blank lines are
      never tested, and the match lies among the first `lineLimit` non-blank
      lines from the scan's origin. */
  function FindMatch(rule: Rule, lines: seq<string>): (r: Option<nat>)
    ensures r.Some? ==> FiresAt(rule, lines, r.value)
    ensures r.None? ==> forall i :: 0 <= i < |lines| ==> !FiresAt(rule, lines, i)
  {
    ScanSpec(rule, lines);
    ScanFrom(rule, lines, Origin(rule.direction, |lines|), 0)
  }

  /** The scan from the origin in either direction stops only at the line
      where the rule fires. */
  lemma ScanSpec(rule: Rule, lines: seq<string>)
    ensures var r := ScanFrom(rule, lines, Origin(rule.direction, |lines|), 0);
            && (r.Some? ==> FiresAt(rule, lines, r.value))
            && (r.None? ==> forall i :: 0 <= i < |lines| ==> !FiresAt(rule, lines, i))
  {
    if rule.direction == Forward {
      ScanForwardSpec(rule, lines, 0, 0);
    } else {
      ScanBackwardSpec(rule, lines, |lines| - 1, 0);
    }
  }

  lemma {:induction false} ScanForwardSpec(rule: Rule, lines: seq<string>, idx: int, count: nat)
    requires rule.direction == Forward && 0 <= idx <= |lines|
    requires count == CountNonBlank(lines, 0, idx)
    requires rule.lineLimit == 0 || count < rule.lineLimit
    requires forall j :: 0 <= j < idx ==> Rejects(rule, lines, j)
    ensures var r := ScanFrom(rule, lines, idx, count);
            && (r.Some? ==> FiresAt(rule, lines, r.value))
            && (r.None? ==> forall i :: 0 <= i < |lines| ==> !FiresAt(rule, lines, i))
    decreases |lines| - idx
  {
    forall i | 0 <= i < idx
      ensures !FiresAt(rule, lines, i)
    {
      assert Rejects(rule, lines, i);
    }
    if idx < |lines| {
      if IsBlank(lines[idx]) || !IsMatch(rule, lines, idx) {
        assert Rejects(rule, lines, idx);
        if !IsBlank(lines[idx]) && rule.lineLimit > 0 && count + 1 >= rule.lineLimit {
          forall i | idx < i < |lines|
            ensures !FiresAt(rule, lines, i)
          {
            CountNonBlankSplit(lines, 0, idx + 1, i);
          }
        } else {
          ScanForwardSpec(rule, lines, idx + 1, CountNonBlank(lines, 0, idx + 1));
        }
      }
    }
  }

  lemma {:induction false} ScanBackwardSpec(rule: Rule, lines: seq<string>, idx: int, count: nat)
    requires rule.direction == Backward && -1 <= idx < |lines|
    requires count == CountNonBlank(lines, idx + 1, |lines|)
    requires rule.lineLimit == 0 || count < rule.lineLimit
    requires forall j :: idx < j < |lines| ==> Rejects(rule, lines, j)
    ensures var r := ScanFrom(rule, lines, idx, count);
            && (r.Some? ==> FiresAt(rule, lines, r.value))
            && (r.None? ==> forall i :: 0 <= i < |lines| ==> !FiresAt(rule, lines, i))
    decreases idx + 1
  {
    forall i | idx < i < |lines|
      ensures !FiresAt(rule, lines, i)
    {
      assert Rejects(rule, lines, i);
    }
    if idx >= 0 {
      CountNonBlankFront(lines, idx, |lines|);
      if IsBlank(lines[idx]) || !IsMatch(rule, lines, idx) {
        assert Rejects(rule, lines, idx);
        if !IsBlank(lines[idx]) && rule.lineLimit > 0 && count + 1 >= rule.lineLimit {
          forall i | 0 <= i < idx
            ensures !FiresAt(rule, lines, i)
          {
            CountNonBlankSplit(lines, i + 1, idx, |lines|);
          }
        } else {
          ScanBackwardSpec(rule, lines, idx - 1, CountNonBlank(lines, idx, |lines|));
        }
      }
    }
  }

  /** Every `repeat` rule of the set resolves its boundary to the matched line
      itself, so each firing removes at least that line. */
  predicate RepeatsProgress(rules: seq<Rule>) {
    forall k :: 0 <= k < |rules| && rules[k].repeat ==> rules[k].offset == 0
  }

  predicate AllRemove(rules: seq<Rule>, dir: Direction) {
    forall k :: 0 <= k < |rules| ==> rules[k].remove == dir
  }

  /** What a set of rules promises holds for the rules after its first. */
  lemma RulesTail(rules: seq<Rule>)
    requires |rules| > 0 && RepeatsProgress(rules)
    ensures RepeatsProgress(rules[1..])
    ensures AllRemove(rules, Backward) ==> AllRemove(rules[1..], Backward)
    ensures AllRemove(rules, Forward) ==> AllRemove(rules[1..], Forward)
    ensures rules[0].repeat ==> rules[0].offset == 0
  {
    assert forall k :: 1 <= k < |rules| ==> rules[1..][k - 1] == rules[k];
  }

  /** Two cuts in a row are one cut of the same kind. */
  lemma CutsCompose(rules: seq<Rule>, s: State, t: State, r: State)
    requires Narrows(s, t) && Narrows(t, r)
    requires AllRemove(rules, Backward) ==> KeepsFront(s, t) && KeepsFront(t, r)
    requires AllRemove(rules, Forward) ==> KeepsBack(s, t) && KeepsBack(t, r)
    ensures Narrows(s, r)
    ensures AllRemove(rules, Backward) ==> KeepsFront(s, r)
    ensures AllRemove(rules, Forward) ==> KeepsBack(s, r)
  {
    NarrowsTransitive(s, t, r);
    if AllRemove(rules, Backward) {
      KeepsFrontTransitive(s, t, r);
    }
    if AllRemove(rules, Forward) {
      KeepsBackTransitive(s, t, r);
    }
  }

  /** `removeUnconditionally`: apply the rules in order, re-applying a
      `repeat` rule as long as it fires. The result is a contiguous run of
      the input lines, and `startIndex` grows by exactly the number of lines
      cut from the front; a set whose rules all remove backward only cuts the
      tail, one whose rules all remove forward only cuts the head.

      A `repeat` rule whose boundary does not resolve would fire forever in
      the source; the precondition excludes such sets. */
  function RemoveUnconditionally(rules: seq<Rule>, s: State): (r: State)
    requires RepeatsProgress(rules)
    ensures Narrows(s, r)
    ensures AllRemove(rules, Backward) ==> KeepsFront(s, r)
    ensures AllRemove(rules, Forward) ==> KeepsBack(s, r)
    decreases |rules|, |s.lines|
  {
    if |rules| == 0 then s
    else
      var rule := rules[0];
      RulesTail(rules);
      match FindMatch(rule, s.lines)
      case None =>
        RemoveUnconditionally(rules[1..], s)
      case Some(i) =>
        var t := RemoveLines(rule, s, i);
        if rule.repeat then
          RemoveLinesShrinks(rule, s, i);
          var r := RemoveUnconditionally(rules, t);
          CutsCompose(rules, s, t, r);
          r
        else
          var r := RemoveUnconditionally(rules[1..], t);
          CutsCompose(rules, s, t, r);
          r
  }

  /** One step of `removeUnconditionally`: a first rule that fires nowhere
      hands the lines to the rest of the set; one that fires at line `i` cuts
      there, and the set goes on from the same rule when it repeats, from the
      next one otherwise. */
  lemma RemoveUnconditionallyStep(rules: seq<Rule>, s: State)
    requires |rules| > 0 && RepeatsProgress(rules)
    ensures RepeatsProgress(rules[1..])
    ensures (forall i :: 0 <= i < |s.lines| ==> !FiresAt(rules[0], s.lines, i)) ==>
              RemoveUnconditionally(rules, s) == RemoveUnconditionally(rules[1..], s)
    ensures forall i :: FiresAt(rules[0], s.lines, i) ==>
              RemoveUnconditionally(rules, s)
              == RemoveUnconditionally(if rules[0].repeat then rules else rules[1..],
                                       RemoveLines(rules[0], s, i))
  {
    RulesTail(rules);
    match FindMatch(rules[0], s.lines)
    case None =>
    case Some(k) =>
      forall i | FiresAt(rules[0], s.lines, i)
        ensures i == k
      {
        if i != k {
          FiresAtUnique(rules[0], s.lines, k, i);
        }
      }
  }

  /** A set none of whose rules fires anywhere leaves the lines and
      `startIndex` as they were. */
  lemma {:induction false} QuietSetUnchanged(rules: seq<Rule>, s: State)
    requires RepeatsProgress(rules)
    requires forall k, i :: 0 <= k < |rules| && 0 <= i < |s.lines| ==> !FiresAt(rules[k], s.lines, i)
    ensures RemoveUnconditionally(rules, s) == s
    decreases |rules|
  {
    if |rules| > 0 {
      RemoveUnconditionallyStep(rules, s);
      assert forall k :: 1 <= k < |rules| ==> rules[1..][k - 1] == rules[k];
      QuietSetUnchanged(rules[1..], s);
    }
  }
}

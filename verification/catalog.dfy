/**
 The rule catalog of `initParams` (extractor.js): six rule sets, each rule a
 record with its direction, offset, remove direction, optional `lineLimit`,
 `repeat` flag and additional conditions.

 The regular expressions are left to a parameter `re`, which gives each
 named pattern its verdict on a line. The patterns simple enough to state as
 a predicate on the line are written out here instead. Their `.` is
 JavaScript's: any character but a line terminator.
 */
module Catalog {
  import opened Strings
  import opened Rules
  import opened Scanner
  import Signature

  /** The catalog's patterns that the model leaves to `re`. */
  datatype Regex =
    | OriginalMessageFrom      // an "Original Message" banner run into a "From:" line (extractor.js:389)
    | ForwardedBy              // "Forwarded by" and an address (extractor.js:397)
    | MessageBanner            // a dashed banner naming an original or forwarded message (extractor.js:409)
    | OnDateWrote              // "On <date> <time>, <name> wrote:" (extractor.js:415)
    | WroteOnDate              // "<address> wrote on <date> <time>:" (extractor.js:421)
    | OnDateTimeZone           // "On <day>, <date> <time> <zone>" (extractor.js:426)
    | DateMailOf               // a Japanese "<date> <time>、<address>のメール:" line (extractor.js:431)
    | DashedOnWrote            // "---- On <date> <address> wrote ----" (extractor.js:436)
    | DateSender               // "<date> <time> <name> <address>:" (extractor.js:442)
    | JapaneseDateSender       // the same with a 年月日 date (extractor.js:448)
    | FromAddress              // "From:" or 差出人 with an address (extractor.js:453)
    | SentLine                 // "Sent:" or 送信日時 (extractor.js:456)
    | SenderAddress            // 送信元 with an address (extractor.js:462)
    | RecipientLine            // 宛先 (extractor.js:465)
    | RequestRegards           // a closing "よろしくお願いします" (extractor.js:490)
    | LeadRequestRegards       // the same after 以上, 何卒, 今後, どうぞ or お手数 (extractor.js:496)
    | Honorific                // a name with 様, さま, さん, 社長 or 部長 (extractor.js:536)
    | ThanksForSupportPolite   // an "お世話になっております" greeting going on with です or ます (extractor.js:552)
    | ThanksForSupport         // the "お世話に..." greeting alone (extractor.js:558, 568)
    | PoliteEnding             // a line ending in です or ます (extractor.js:561)
    | GoodWorkPolite           // an "お疲れ様です" greeting going on with です (extractor.js:574)
    | GoodWork                 // the "お疲れ様です" greeting alone (extractor.js:580, 590)
    | DesuEnding               // a line ending in です (extractor.js:583)

  /** JavaScript's line terminators, which `.` does not match. */
  predicate IsLineTerminator(c: char) {
    c == '\n' || c == '\r' || c == '\U{2028}' || c == '\U{2029}'
  }

  /** `.*` matches all of `s`. */
  predicate AnyChars(s: string) {
    forall i :: 0 <= i < |s| ==> !IsLineTerminator(s[i])
  }

  /** `^<prefix>.*$`. */
  predicate PrefixLine(prefix: string, line: string) {
    |prefix| <= |line| && line[..|prefix|] == prefix && AnyChars(line[|prefix|..])
  }

  /** `^----------------------- Original Message -----------------------$`. */
  predicate IsOriginalBanner(line: string) {
    line == "----------------------- Original Message -----------------------"
  }

  /** `^iPhoneから送信$`. */
  predicate IsIPhoneSent(line: string) {
    line == "iPhoneから送信"
  }

  /** `^-- ?$`: the signature separator of RFC 3676, with or without its
      trailing space. */
  predicate IsSignatureDashes(line: string) {
    line == "--" || line == "-- "
  }

  /** `^以上(です)?[。]?$`. */
  predicate IsThatIsAll(line: string) {
    line == "以上" || line == "以上です" || line == "以上。" || line == "以上です。"
  }

  /** `^以上、.*$`. */
  predicate IsThatIsAllComma(line: string) {
    PrefixLine("以上、", line)
  }

  /** `.*各位`: `s` ends with 各位 ("to all concerned"). */
  predicate EndsToAll(s: string) {
    |s| >= 2 && s[|s| - 2..] == "各位" && AnyChars(s[..|s| - 2])
  }

  /** `^To:.*$`. */
  predicate IsToLine(line: string) {
    PrefixLine("To:", line)
  }

  /** `^Cc:.*$`. */
  predicate IsCcLine(line: string) {
    PrefixLine("Cc:", line)
  }

  /** `^添付:.*$`. */
  predicate IsAttachmentLine(line: string) {
    PrefixLine("添付:", line)
  }

  /** `^本文:.*$`. */
  predicate IsBodyLine(line: string) {
    PrefixLine("本文:", line)
  }

  /** `^.*各位[、。へ]?$`. */
  predicate IsToAll(line: string) {
    || EndsToAll(line)
    || (|line| > 0 && line[|line| - 1] in "、。へ" && EndsToAll(line[..|line| - 1]))
  }

  /** The six rule sets. */
  datatype Catalog = Catalog(
    trailQuote: seq<Rule>,
    signature: seq<Rule>,
    trailGreeting: seq<Rule>,
    header: seq<Rule>,
    headerDestination: seq<Rule>,
    headerGreeting: seq<Rule>)

  /** A rule whose firing always cuts: its boundary is the matched line, or
      a line an additional condition has already found. */
  predicate CutsWhenMatched(rule: Rule) {
    || rule.offset == 0
    || exists m :: 0 <= m < |rule.additionalCondition| && rule.additionalCondition[m].offset == rule.offset
  }

  predicate AllCut(rules: seq<Rule>) {
    forall k :: 0 <= k < |rules| ==> CutsWhenMatched(rules[k])
  }

  /** The shape the extractor relies on: the trailer sets only cut the tail,
      the header sets only cut the head, every `repeat` rule has offset 0,
      and every firing cuts. */
  predicate Valid(c: Catalog) {
    && AllRemove(c.trailQuote, Backward) && AllRemove(c.signature, Backward)
    && AllRemove(c.trailGreeting, Backward)
    && AllRemove(c.header, Forward) && AllRemove(c.headerDestination, Forward)
    && AllRemove(c.headerGreeting, Forward)
    && RepeatsProgress(c.trailQuote) && RepeatsProgress(c.signature)
    && RepeatsProgress(c.trailGreeting) && RepeatsProgress(c.header)
    && RepeatsProgress(c.headerDestination) && RepeatsProgress(c.headerGreeting)
    && AllCut(c.trailQuote) && AllCut(c.signature) && AllCut(c.trailGreeting)
    && AllCut(c.header) && AllCut(c.headerDestination) && AllCut(c.headerGreeting)
  }

  /** A rule with no additional condition, offset 0 and no repeat. */
  function Simple(direction: Direction, lineLimit: nat, condition: string -> bool, remove: Direction): Rule {
    Rule(direction, condition, [], 0, remove, lineLimit, false)
  }

  /** The shape every rule set of the catalog has: all its rules remove in
      direction `dir`, its `repeat` rules have offset 0, and every firing
      cuts. */
  predicate WellShaped(rules: seq<Rule>, dir: Direction) {
    AllRemove(rules, dir) && RepeatsProgress(rules) && AllCut(rules)
  }

  /** `defTrailQuote`: reply and forward banners and headers, cut with
      everything below them. */
  function TrailQuoteRules(re: Regex -> string -> bool): (rules: seq<Rule>)
    ensures |rules| == 13 && WellShaped(rules, Backward)
    ensures forall k :: 0 <= k < |rules| ==> rules[k].direction == Forward && rules[k].lineLimit == 0
  {
    var rules := [
      Simple(Forward, 0, re(OriginalMessageFrom), Backward),
      Rule(Forward, IsOriginalBanner, [Condition(-1, re(ForwardedBy))], -1, Backward, 0, false),
      Simple(Forward, 0, re(MessageBanner), Backward),
      Simple(Forward, 0, re(OnDateWrote), Backward),
      Simple(Forward, 0, re(WroteOnDate), Backward),
      Simple(Forward, 0, re(OnDateTimeZone), Backward),
      Simple(Forward, 0, re(DateMailOf), Backward),
      Simple(Forward, 0, re(DashedOnWrote), Backward),
      Simple(Forward, 0, re(DateSender), Backward),
      Simple(Forward, 0, re(JapaneseDateSender), Backward),
      Rule(Forward, re(FromAddress), [Condition(1, re(SentLine))], 0, Backward, 0, false),
      Rule(Forward, re(SenderAddress), [Condition(1, re(RecipientLine))], 0, Backward, 0, false),
      Simple(Forward, 0, IsIPhoneSent, Backward)
    ];
    assert CutsWhenMatched(rules[1]) by {
      assert rules[1].additionalCondition[0].offset == -1;
    }
    rules
  }

  /** `defSignature`: the RFC 3676 separator among the last 20 non-blank
      lines. */
  function SignatureRules(): (rules: seq<Rule>)
    ensures |rules| == 1 && WellShaped(rules, Backward)
    ensures rules[0].direction == Backward && rules[0].offset == 0
    ensures rules[0].lineLimit == Signature.LineLimit == 20 && !rules[0].repeat
  {
    [Simple(Backward, Signature.LineLimit, IsSignatureDashes, Backward)]
  }

  /** `defTrailGreeting`: closing greetings among the last 2 non-blank
      lines. */
  function TrailGreetingRules(re: Regex -> string -> bool): (rules: seq<Rule>)
    ensures |rules| == 4 && WellShaped(rules, Backward)
  {
    [
      Simple(Backward, 2, re(RequestRegards), Backward),
      Simple(Backward, 2, re(LeadRequestRegards), Backward),
      Simple(Backward, 2, IsThatIsAll, Backward),
      Simple(Backward, 2, IsThatIsAllComma, Backward)
    ]
  }

  /** `defHeader`: a To/Cc/添付/本文 block among the first 4 non-blank lines,
      cut with everything above it. */
  function HeaderRules(): (rules: seq<Rule>)
    ensures |rules| == 1 && WellShaped(rules, Forward)
    ensures rules[0].direction == Forward && rules[0].lineLimit == 4 && !rules[0].repeat
    ensures |rules[0].additionalCondition| == 3
    ensures rules[0].offset == 3 == rules[0].additionalCondition[2].offset
  {
    var rules := [
      Rule(Forward, IsToLine,
           [Condition(1, IsCcLine), Condition(2, IsAttachmentLine), Condition(3, IsBodyLine)],
           3, Forward, 4, false)
    ];
    assert CutsWhenMatched(rules[0]) by {
      assert rules[0].additionalCondition[2].offset == 3;
    }
    rules
  }

  /** `defHeaderDestination`: addressee lines among the first 3 non-blank
      lines; the honorific rule repeats. */
  function HeaderDestinationRules(re: Regex -> string -> bool): (rules: seq<Rule>)
    ensures |rules| == 2 && WellShaped(rules, Forward)
  {
    [
      Rule(Forward, re(Honorific), [], 0, Forward, 3, true),
      Simple(Forward, 3, IsToAll, Forward)
    ]
  }

  /** `defHeaderGreeting`: opening greetings among the first 3 non-blank
      lines, with the polite line after them when there is one. */
  function HeaderGreetingRules(re: Regex -> string -> bool): (rules: seq<Rule>)
    ensures |rules| == 6 && WellShaped(rules, Forward)
  {
    var rules := [
      Simple(Forward, 3, re(ThanksForSupportPolite), Forward),
      Rule(Forward, re(ThanksForSupport), [Condition(1, re(PoliteEnding))], 1, Forward, 3, false),
      Simple(Forward, 3, re(ThanksForSupport), Forward),
      Simple(Forward, 3, re(GoodWorkPolite), Forward),
      Rule(Forward, re(GoodWork), [Condition(1, re(DesuEnding))], 1, Forward, 3, false),
      Simple(Forward, 3, re(GoodWork), Forward)
    ];
    assert CutsWhenMatched(rules[1]) by {
      assert rules[1].additionalCondition[0].offset == 1;
    }
    assert CutsWhenMatched(rules[4]) by {
      assert rules[4].additionalCondition[0].offset == 1;
    }
    rules
  }

  /** `initParams`. */
  function InitParams(re: Regex -> string -> bool): (c: Catalog)
    ensures Valid(c)
    ensures |c.trailQuote| == 13 && |c.signature| == 1 && |c.trailGreeting| == 4
    ensures |c.header| == 1 && |c.headerDestination| == 2 && |c.headerGreeting| == 6
  {
    Catalog(TrailQuoteRules(re), SignatureRules(), TrailGreetingRules(re),
            HeaderRules(), HeaderDestinationRules(re), HeaderGreetingRules(re))
  }

  /** A firing of a rule that cuts when matched removes at least one line:
      the boundary exists because the matcher has already found it. */
  lemma FiringCuts(rule: Rule, s: State, idx: int)
    requires CutsWhenMatched(rule)
    requires 0 <= idx < |s.lines| && IsMatch(rule, s.lines, idx)
    ensures |RemoveLines(rule, s, idx).lines| < |s.lines|
  {
    if rule.offset != 0 {
      var m :| 0 <= m < |rule.additionalCondition| && rule.additionalCondition[m].offset == rule.offset;
      IsMatchIff(rule, s.lines, idx);
      assert ConditionHolds(rule.additionalCondition[m], s.lines, idx);
      assert GetTextLine(s.lines, idx, rule.offset).Some?;
      var k := OffsetIndex(s.lines, idx, rule.offset);
      assert 0 <= k < |s.lines|;
    } else {
      RemoveLinesShrinks(rule, s, idx);
    }
  }
}

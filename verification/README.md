# Mail body extractor — a Dafny model

This project models `extractor.js`, which pulls the body out of an e-mail
message. The message is normalised and split into lines. Then boilerplate is
cut from both ends of the line list:

- from the tail: a quoted reply, the signature block and the closing
  greeting;
- from the head: a header block, the addressee line and the opening
  greeting.

Blank edges are trimmed last. The kept lines are joined with "\r\n". The
result also reports the 1-based number of the first kept line and how many
lines were kept. When nothing is kept, the whole normalised input comes back.

The model is functional. Each cut is a function from `State(lines,
startIndex)` to `State`. `startIndex` is the source's mutable counter of
lines dropped from the front, passed along explicitly.

Three predicates describe every cut:

- `Narrows(s, t)`: the result is a contiguous run of the input, and
  `startIndex` grew by exactly the number of lines cut from the front.
- `KeepsFront`: only the tail was cut.
- `KeepsBack`: only the head was cut.

Rules are data: the `Rule` datatype holds a direction, a primary pattern, the
additional conditions as (offset, pattern) pairs, the boundary offset, the
remove direction, `lineLimit` (0 when absent) and `repeat`. Patterns are
predicates `string -> bool`. The catalog's regular expressions are named by
the `Catalog.Regex` enumeration and judged by a parameter
`re: Regex -> string -> bool`. The simple ones are written out as predicates:
the literal banner, `^iPhoneから送信$`, `^-- ?$`, the `以上` lines, the
`To:`/`Cc:`/`添付:`/`本文:` prefixes and the `各位` line, and in the signature
walk the space removal and the divider character class.

Modules, one file each:

- `Wrappers`: the optional value used for "not found".
- `Strings`: JavaScript's `trim`, first-occurrence `replace`, `split` and
  `join`.
- `LineFeed`: line endings.
- `Rules`: the rule records, the offset resolver, the matcher and
  `removeLines`.
- `Scanner`: the generic scanner.
- `Quote`, `Signature`, `EmptyLines`: the specialised trimmers.
- `Catalog`: `initParams`.
- `Extractor`: the pipeline.

## Model

| member | source | states |
|---|---|---|
| LineFeed.NormalizeLineFeed | extractor.js:67-71 | An input without a carriage return is unchanged. The length drops by one exactly when a "\r\n" occurs. At most two carriage returns disappear: the one in the first "\r\n" and the first one left after it. |
| LineFeed.NormalizeRewritesOnlyFirstCrlf | extractor.js:67-71 | With two CRLF line endings, the second one's carriage return becomes an extra empty line: "a\r\nb\r\nc" splits into a, b, "", c. |
| LineFeed.NormalizeRewritesOnlyFirstCr | extractor.js:67-71 | With two lone carriage returns, only the first becomes a line break; the second stays inside a line. |
| LineFeed.SplitLine | extractor.js:78-80 | There is one more line than there are line feeds, so there is always at least one line. No line contains a line feed. Joining the lines with "\n" gives the input back. |
| LineFeed.SplitLineJoin | extractor.js:78-80 | Splitting is the inverse of joining: lines without line feeds, joined with "\n" and split again, come back unchanged. |
| Strings.SplitJoin | extractor.js:46 | Lines that contain no line feed, joined with a separator that ends in a line feed, split back into the same lines. |
| Strings.BlankIffTrimEmpty | extractor.js:129 | A line is blank exactly when its `trim()` is empty, the test made here and again at lines 142, 253 and 345. |
| Strings.FirstVisibleTrim | extractor.js:158-161 | A line has no non-whitespace character exactly when it is blank. Otherwise its first one is the first character of its `trim()`. |
| Rules.OffsetIndex | extractor.js:332-356 | Offset 0 resolves to `idx` itself. Any other offset gives -1 or an in-range, non-blank line on the side of `idx` given by the offset's sign. |
| Rules.OffsetIndexForward | extractor.js:332-356 | A positive offset gives -1 exactly when fewer than `offset` non-blank lines follow `idx`. Otherwise exactly `offset` non-blank lines lie in (idx, result]. |
| Rules.OffsetIndexBackward | extractor.js:332-356 | A negative offset gives -1 exactly when fewer than `-offset` non-blank lines precede `idx`. Otherwise exactly `-offset` non-blank lines lie in [result, idx). |
| Rules.GetTextLine | extractor.js:316-323 | Offset 0 gives the line at `idx`. Any other offset gives null exactly when too few non-blank lines lie in that direction. Otherwise it gives the non-blank line on that side of `idx` at which exactly `|offset|` non-blank lines have been counted, counting from the line next to `idx`. |
| Rules.AdditionalHoldAll | extractor.js:288-303 | The early-exit loop over the additional conditions accepts exactly when every condition holds. |
| Rules.IsMatchIff | extractor.js:284-306 | A rule matches exactly when its primary pattern accepts the raw, untrimmed line and every additional condition finds its line and accepts it. |
| Rules.RemoveLines | extractor.js:364-380 | Forward removal keeps `lines[k+1..]` and adds `k+1` to `startIndex`. Backward removal keeps `lines[..k]` and leaves `startIndex` alone. An unresolved boundary changes nothing. Either way the result is a contiguous run of the input. |
| Rules.RemoveLinesShrinks | extractor.js:364-380 | With offset 0, a firing removes at least the matched line. |
| Scanner.FindMatch | extractor.js:251-264 | The scan stops at a line only if the rule fires there. It never tests a blank line. Every line visited before that one is passed over. Fewer than `lineLimit` non-blank lines come before it. A scan that finds nothing means no line fires. |
| Scanner.FiresAtUnique | extractor.js:251-264 | A rule fires at one line at most. |
| Scanner.SingleRule | extractor.js:229-275 | A one-rule set that does not repeat cuts exactly at the line where its rule fires, and changes nothing when the rule fires nowhere. |
| Scanner.RemoveUnconditionally | extractor.js:229-275 | The result is a contiguous run of the input, and `startIndex` grows by the number of lines cut from the front. A set that only removes backward cuts only the tail. A set that only removes forward cuts only the head. Re-applying a `repeat` rule terminates. |
| Scanner.RemoveUnconditionallyStep | extractor.js:229-275 | If the set's first rule fires nowhere, the set's result is the result of the remaining rules on the same lines. If it fires at line `i`, the lines are cut there, and the set goes on with the same rule when it repeats and with the next rule when it does not. |
| Scanner.QuietSetUnchanged | extractor.js:229-275 | When no rule of the set fires anywhere, the lines and `startIndex` come back unchanged. |
| Quote.LineKinds | extractor.js:155-168 | Every line is exactly one of blank, quoted (trimmed text starts with '>') or unquoted. |
| Quote.TrimmedKinds | extractor.js:158-161 | The unquoted and quoted tests are exactly the source's: `trim()` is non-empty, and its first character is not, or is, '>'. |
| Quote.RemoveTrailerQuote | extractor.js:155-168 | The result is a prefix of the input. If an unquoted line exists, the result ends with the last one and every dropped line is blank or quoted. Otherwise the input comes back unchanged. |
| Quote.RemoveTrailerQuoteIdempotent | extractor.js:155-168 | Stripping the trailing quote a second time changes nothing. |
| Signature.CompactEmptyIffBlank | extractor.js:181-185 | After trimming and removing ASCII and ideographic spaces, a line is empty exactly when it is blank. |
| Signature.DividerNotBlank | extractor.js:200 | A line whose compacted text starts with 15 symbol characters is not blank. |
| Signature.KindMeaning | extractor.js:181-200 | The walk classifies a line as blank, closing greeting, divider or other, in the source's order. The greeting test is made on the raw line. |
| Signature.RecordedLine | extractor.js:187-206 | A recorded divider is non-blank, matches no closing greeting, and its compacted text starts with a run of symbols. |
| Signature.SignatureBoundary | extractor.js:178-217 | The walk returns -1 exactly when it records no divider. Otherwise it returns the topmost recorded divider. |
| Signature.ReachedCounts | extractor.js:202-216 | Any line the walk reaches has fewer than 20 non-blank lines and fewer than 3 dividers below it. It has fewer than 15 non-blank lines below it when none of them is a divider. |
| Signature.RecordedCut | extractor.js:187-216 | From a recorded divider down there is no closing greeting. That part holds at most 20 non-blank lines and at most 3 dividers, and at most 15 non-blank lines when it holds one divider only. |
| Signature.RemoveSignature | extractor.js:175-222 | The result is a prefix of the input, equal to the input exactly when no divider is recorded. Otherwise the cut starts at the topmost recorded divider. The cut part holds no closing greeting, at most 20 non-blank lines and at most 3 dividers, and at most 15 non-blank lines when it holds one divider only. |
| EmptyLines.RemoveEmptyLine | extractor.js:124-149 | The result is a contiguous run of the input. It is empty exactly when every line is blank, and then `startIndex` is unchanged. Otherwise its first and last lines are non-blank. Every dropped line is blank, and `startIndex` grows by the number of blank lines dropped from the head. |
| EmptyLines.DropBlankHead | extractor.js:126-140 | The head loop keeps a suffix that starts with a non-blank line, and `startIndex` grows by the number of lines dropped. Every dropped line is blank. Input of blank lines only becomes empty with `startIndex` unchanged. |
| EmptyLines.DropBlankTail | extractor.js:141-147 | The tail loop on its own. When the list holds a non-blank line, it keeps the prefix that ends with the last one, and every dropped line is blank. A list without a non-blank line, the empty list included, comes back unchanged, because the loop never slices it. The result is empty exactly when the list is. |
| EmptyLines.RemoveEmptyLineIdempotent | extractor.js:124-149 | Trimming blank edges a second time changes nothing. |
| Catalog.TrailQuoteRules | extractor.js:387-474 | The 13 reply and forward rules all scan forward with no line limit and remove backward, so each rule, in turn, cuts at the topmost line where it fires. Every one that fires cuts at least one line. |
| Catalog.SignatureRules | extractor.js:477-484 | The one signature-separator rule scans backward, has offset 0 and removes backward. Its line limit is 20 and it does not repeat. |
| Catalog.TrailGreetingRules | extractor.js:487-511 | The 4 closing-greeting rules remove backward, and each firing cuts. |
| Catalog.HeaderRules | extractor.js:514-530 | The one header rule scans forward with line limit 4, does not repeat and removes forward. It has three additional conditions. Its boundary offset is 3, the offset of its last additional condition, so the boundary is a line the matcher has already found. |
| Catalog.HeaderDestinationRules | extractor.js:533-546 | The 2 addressee rules remove forward. Every `repeat` rule among them has offset 0. |
| Catalog.HeaderGreetingRules | extractor.js:549-593 | The 6 opening-greeting rules remove forward. Every boundary with offset 1 is the line an additional condition has found. |
| Catalog.InitParams | extractor.js:385-595 | The catalog has 13 trailing-quote rules, 1 signature rule, 4 closing-greeting rules, 1 header rule, 2 addressee rules and 6 opening-greeting rules. Trailer sets remove only backward and header sets only forward. Every `repeat` rule has offset 0. Every rule's boundary resolves whenever it matches. |
| Catalog.IsOriginalBanner | extractor.js:394 | The line is exactly the dashed "Original Message" banner, 23 dashes on each side. |
| Catalog.IsIPhoneSent | extractor.js:471 | The line is exactly "iPhoneから送信". |
| Catalog.IsSignatureDashes | extractor.js:481 | The line is "--" with at most one trailing space. |
| Catalog.IsThatIsAll | extractor.js:502 | The line is 以上, optionally followed by です, optionally followed by 。. |
| Catalog.IsThatIsAllComma | extractor.js:508 | The line starts with 以上、 and the rest holds no line terminator. |
| Catalog.IsToLine | extractor.js:517 | The line starts with "To:" and the rest holds no line terminator. |
| Catalog.IsCcLine | extractor.js:520 | The line starts with "Cc:" and the rest holds no line terminator. |
| Catalog.IsAttachmentLine | extractor.js:523 | The line starts with "添付:" and the rest holds no line terminator. |
| Catalog.IsBodyLine | extractor.js:526 | The line starts with "本文:" and the rest holds no line terminator. |
| Catalog.IsToAll | extractor.js:543 | The line ends with 各位, or with 各位 and one of 、。へ, and holds no line terminator before that. |
| Signature.IsSymbol | extractor.js:200 | The divider class: ASCII punctuation, half-width katakana punctuation and ｰ, full-width punctuation, U+2010 to U+2BFF, the kana voicing marks, ゠ and ・ to ヿ. |
| Signature.IsDivider | extractor.js:200 | The compacted text starts with at least 15 symbol characters; nothing is required of what follows. |
| Signature.StripSpaces | extractor.js:183 | A text that does not start with an ASCII or ideographic space keeps its first character. The full behaviour, every other character kept in order, is stated by `Signature.StripSpacesConcat`. |
| Signature.StripSpacesRemovesAll | extractor.js:183 | The result of removing spaces contains no ASCII space and no ideographic space, and is no longer than the input. A text without such spaces comes back unchanged. |
| Signature.StripSpacesConcat | extractor.js:183 | Removing spaces works character by character: a single character is dropped exactly when it is an ASCII or ideographic space, and a concatenation is stripped piece by piece. Together these fix the result as the input's other characters, kept in their order. |
| Catalog.FiringCuts | extractor.js:364-380 | A rule whose boundary offset is 0, or equals one of its additional conditions' offsets, removes at least one line whenever it fires. |
| Extractor.RemoveTrailer | extractor.js:87-100 | The trailer phase cuts only the tail, so `startIndex` is unchanged. |
| Extractor.RemoveHeader | extractor.js:107-118 | The header phase cuts only the head, and `startIndex` grows by the number of lines cut. |
| Extractor.Body | extractor.js:26-42 | The kept lines are a contiguous run of the split lines, at offset `startIndex`, with non-blank first and last lines. Input of blank lines only keeps nothing. |
| Extractor.BodyWith | extractor.js:26-42 | For any catalog whose trailer sets cut only the tail and whose header sets cut only the head, the kept lines are a contiguous run of the split lines with non-blank first and last lines, and blank lines only keep nothing. |
| Extractor.JoinedBody | extractor.js:46-49 | Kept lines joined with "\r\n" give empty text exactly when no line is kept. Otherwise the text splits on "\r\n" back into those lines. |
| Extractor.Output | extractor.js:43-59 | With no kept line, the result is the whole normalised input as line 1 with the split line count. Otherwise it is the window the kept lines occupy in the split lines: it starts at line `startIndex + 1`, is as many lines long as were kept, and its text is those lines joined with "\r\n". |
| Extractor.ExtractLines | extractor.js:35-59 | From split lines without line feeds and any catalog whose trailer sets cut only the tail and whose header sets cut only the head: the result is the fallback exactly when no line is kept. Otherwise it is the window the kept lines occupy, starting at line `startIndex + 1` and as many lines long as were kept. |
| Extractor.Extract | extractor.js:24-60 | The result is the fallback (the normalised input, line 1, all lines) exactly when the pipeline keeps no line. Otherwise it is the window of the split lines that the kept lines occupy: it starts at `startIndex + 1`, is as many lines long as were kept, has non-blank first and last lines, and its text is the window joined with "\r\n", which splits back into it. Input of blank lines only always gets the fallback. |
| Extractor.ExtractEmpty | extractor.js:24-60 | Empty input comes back as empty text at line 1, one line long. |

## Left out

- The regular-expression engine: every catalog pattern that is not written out is an uninterpreted verdict of the `re` parameter, so no property depends on what those patterns accept.
- UTF-16: strings are sequences of Unicode scalar values, not UTF-16 code units. Every character the model inspects (the divider class, '>', spaces, line terminators) lies in the Basic Multilingual Plane, where the two agree.
- `trim()`'s whitespace set is written out as JavaScript's set. A line is blank when all of its characters are in it, which is the same as its `trim()` being empty (`Strings.BlankIffTrimEmpty`).
- The `throw` branches for an unknown direction or remove direction: both are a closed two-value datatype, so the branches cannot be reached.
- Scanner.RemoveUnconditionally: requires every `repeat` rule to have offset 0. A repeat rule that matches but whose boundary does not resolve re-fires forever in the source. The catalog meets the requirement (`Catalog.InitParams`).
- The extractor object and its mutable `startIndex`: the counter is passed along inside `State` and returned.
- Extractor.Extract: kept lines are joined with "\r\n" (extractor.js:10, 46), so the result can be longer than the normalised input, because each kept line break gains a carriage return. No lemma exhibits such an input, because it needs concrete verdicts for the patterns left to `re`.

# Log masking: a Dafny model of `LogMasker`

This project models the redaction engine of a Logback/Logstash log-masking
library. A `MaskingRule` is one compiled regular expression. Its `mask`
operation walks the pattern's matches over a log message and rebuilds the
message with `Matcher.appendReplacement` / `appendTail`. The whole text of each
match is replaced by a run of `*` characters. The run is as long as the
selected capture group: group 2 when the pattern has more than one group,
group 1 when it has exactly one, and the empty string when it has none. A
`LogMasker` keeps its own copy of an array of rules and applies them strictly
in array order, each rule's output feeding the next.

Modules, one per component:

- `Wrappers` (`wrappers.dfy`): `Option` (Java's `null`) and `Result` (the
  exception from `Pattern.compile`).
- `Regex` (`regex.dfy`): an abstract view of `java.util.regex`. A `Regex` has a
  fixed `groupCount` and a total function `find` from a text to the list of
  `Match` records that successive `Matcher.find` calls report. Each record holds
  the match span and one optional span per group. `Pattern` is the subset type
  of regexes whose reports are always well formed:
  - every match lies in the text;
  - matches are pairwise non-overlapping, in order;
  - every group span that is present lies in the text. It need not lie inside
    its match, because a group captured inside a lookahead or lookbehind lies
    outside it.
- `Rules` (`rules.dfy`): `MaskingRule`, `getDataToBeMasked`,
  `maskDataWithReplacement`, and the `find`/`appendReplacement`/`appendTail`
  loop as the method `MaskingRule.Mask`. That method is proved equal to the
  recursive specification `MaskingRule.Masked` (`MaskFrom`: copy the gap before
  the next match, emit its run, continue after the match, and finally copy the
  tail). The lemmas then prove what the output is:
  - its length;
  - where each unmatched input character lands;
  - where each run of stars lands.

  Whether a rule can lengthen a message depends on whether its groups lie
  inside its matches (`Regex.CapturesInside`).
- `Masker` (`masker.dfy`): the `LogMasker` class. It has a constant `masks` array field
  that the constructor clones, `create`, and `mask` as a loop. The loop is
  proved equal to the ordered fold `MaskAll`.
- `Examples` (`examples.dfy`): concrete rules and messages. They show four
  things:
  - a zero-group rule deletes its matches;
  - the password rules star the whole match;
  - rule order changes the result;
  - a group captured in a lookahead makes the text longer.

The constant `REG_EX_DEFAULT_GROUP_SELECTOR = 2` (LogMasker.java:35) points to
rules written as `(label)(value)`, where only the value is meant to be hidden.
But `appendReplacement` (LogMasker.java:55) replaces the whole match, so the
label and the surrounding quotes are replaced too. This model follows the code
as written: `Examples.PasswordIsStarred` proves that `{"password":"Masking@123"}`
becomes `{***********}` under both the one-group and the three-group password
rule.

## Model

| member | source | states |
|---|---|---|
| `Regex.Group` | src/main/java/com/daya/logging/logstash/LogMasker.java:66-71 | `Matcher.group(n)` is null exactly when group n took no part in the match; otherwise it is a substring of the text, and no longer than the match when the groups lie inside it |
| `Rules.Repeat` | src/main/java/com/daya/logging/logstash/LogMasker.java:63 | `String.join("", nCopies(n, x))` has length n·\|x\|, is made only of characters of x, and is all `x[0]` when x has one character |
| `Rules.MaskDataWithReplacement` | src/main/java/com/daya/logging/logstash/LogMasker.java:61-64 | null data gives the empty string; otherwise the result has \|data\|·\|replacement\| characters, all taken from the replacement (so an empty input gives an empty result) |
| `Rules.GetDataToBeMasked` | src/main/java/com/daya/logging/logstash/LogMasker.java:66-71 | selects group 2 when groupCount > 1, group 1 when groupCount == 1, and `""` when there are no groups; when the groups lie inside the match, the selected data is no longer than the match |
| `Rules.MaskRunShape` | src/main/java/com/daya/logging/logstash/LogMasker.java:48-71 | the replacement for a match is all `'*'`; its length equals the selected data's length, or 0 when that data is null; it is no longer than the match when the groups lie inside it; it is empty for a zero-group rule |
| `Rules.MaskingRule.Mask` | src/main/java/com/daya/logging/logstash/LogMasker.java:51-59 | the `find`/`appendReplacement`/`appendTail` loop returns exactly the gap-run-…-tail reconstruction `Masked` over the reported matches |
| `Rules.Create` | src/main/java/com/daya/logging/logstash/LogMasker.java:47-49 | a rule is built exactly when its text compiles and then holds that compiled pattern; otherwise the result is the `InvalidPattern` error for that text |
| `Rules.NoMatchUnchanged` | src/main/java/com/daya/logging/logstash/LogMasker.java:52-58 | when `find` reports no match, `mask` returns its input unchanged |
| `Rules.MaskFromLength` | src/main/java/com/daya/logging/logstash/LogMasker.java:51-59 | from any append position, the output length is the remaining input length minus the matched lengths plus the run lengths |
| `Rules.RunsAreSelected` | src/main/java/com/daya/logging/logstash/LogMasker.java:55-71 | the runs' total length equals the selected data's total length, null data counting as 0 |
| `Rules.RunsNoLonger` | src/main/java/com/daya/logging/logstash/LogMasker.java:61-71 | when every match's groups lie inside it, the runs' total length is at most the matches' total length; it is 0 for a zero-group rule |
| `Rules.MaskedLength` | src/main/java/com/daya/logging/logstash/LogMasker.java:51-64 | output length = input length − Σ match lengths + Σ selected-data lengths (null counting as 0); a zero-group rule removes exactly the matched characters; a pattern that captures nothing outside its matches never makes the text longer |
| `Rules.KeepsUnmatched` | src/main/java/com/daya/logging/logstash/LogMasker.java:54-57 | from any append position, each input character outside every match appears in the output, at its own position moved by the shift of the matches that end at or before it |
| `Rules.RunPlacement` | src/main/java/com/daya/logging/logstash/LogMasker.java:55 | the j-th character of match i's run is `'*'` and sits at match i's start moved by the shift of the earlier matches; the whole run fits in the output |
| `Rules.RunSlice` | src/main/java/com/daya/logging/logstash/LogMasker.java:55 | the output slice starting at `RunStart(i)` and as long as match i's run is exactly that run |
| `Rules.MaskedKeepsUnmatched` | src/main/java/com/daya/logging/logstash/LogMasker.java:51-58 | text between matches and after the last match is copied verbatim and in order into `mask`'s output |
| `Rules.MaskedReplacesMatches` | src/main/java/com/daya/logging/logstash/LogMasker.java:55-71 | the whole matched span, not only the selected group, is replaced by a run of `'*'` whose length is the selected data's length (0 when the data is null) |
| `Masker.MaskAllAppend` | src/main/java/com/daya/logging/logstash/LogMasker.java:25-31 | masking with `rs1 + rs2` is masking with `rs1` and then with `rs2`: rules apply strictly in order, each output feeding the next (`rs + [r]` is `r` applied after `rs`) |
| `Masker.MaskAllFirst` | src/main/java/com/daya/logging/logstash/LogMasker.java:26-30 | the first rule sees the raw input and the remaining rules see its output |
| `Masker.MaskAllNoLonger` | src/main/java/com/daya/logging/logstash/LogMasker.java:25-31 | a masker whose patterns all capture nothing outside their matches never makes a message longer |
| `Masker.CreateRules` | src/main/java/com/daya/logging/logstash/LogMasker.java:20-23 | compiling the rule texts succeeds exactly when every text compiles; it then gives one rule per text, in order, holding that text's pattern; otherwise the error names the first text that fails, and every earlier text compiled |
| `Masker.LogMasker.constructor` | src/main/java/com/daya/logging/logstash/LogMasker.java:15-18 | the masker's array is a fresh copy with the same contents as the caller's |
| `Masker.LogMasker.Create` | src/main/java/com/daya/logging/logstash/LogMasker.java:20-23 | it succeeds exactly when every rule compiles, and the masker's fresh array then holds the compiled rules in input order; otherwise it returns the first compile error and builds no masker |
| `Masker.LogMasker.Mask` | src/main/java/com/daya/logging/logstash/LogMasker.java:25-31 | the loop returns the ordered fold `MaskAll` of the rules over the input; with no rules it returns the input unchanged; when every pattern captures nothing outside its matches, the result is no longer than the input |
| `Masker.CloneIsolation` | src/main/java/com/daya/logging/logstash/LogMasker.java:15-18 | writing to the caller's array after construction leaves the masker's rules as they were |
| `Examples.PhoneIsDeleted` | src/main/java/com/daya/logging/logstash/LogMasker.java:70 | the zero-group rule `9898981212` turns `9898981212` into `""` and `call 9898981212 now` into `call  now` |
| `Examples.PasswordIsStarred` | src/main/java/com/daya/logging/logstash/LogMasker.java:55-70 | `"password":"(.*?)"` and `("password":")(.*?)(")` both turn `{"password":"Masking@123"}` into `{***********}`: 11 stars replace the whole match |
| `Examples.OrderMatters` | src/main/java/com/daya/logging/logstash/LogMasker.java:27-29 | the rules `[a, bb]` turn `bab` into `""`, while `[bb, a]` turn it into `bb` |
| `Examples.LookaheadGrows` | src/main/java/com/daya/logging/logstash/LogMasker.java:55-70 | `a(?=(bcdef))` turns `abcdef` into `*****bcdef`: a group outside its match gives a run longer than the match, so the output is longer than the input |

## Left out

- The regular-expression engine (`Pattern.compile`, `Matcher.find`): it is a foreign library. `find` is abstract and constrained only by well-formedness. The model does not capture leftmost search, the skip after a zero-length match, or backtracking cost.
- `PatternSyntaxException`: modelled as `compile` returning `None`, which gives the `InvalidPattern` error. The syntax of valid patterns is not modelled.
- `appendReplacement`'s `$` and `\` escaping: the replacement is only `*` characters, which are never escaped.
- The public two-argument `MaskingRule` constructor with an arbitrary replacement operator: `create` always uses the `*` replacement, so `MaskingRule` stores only its pattern.
- `create` takes a Java `String[]`; the model takes a sequence of strings, because the array is only read by the stream.
- `MaskingMessagingProvider` (Logback, Jackson and Spring glue, and the rule-string tokenising in Spring's `StringUtils`) and the Spring Boot application class are not part of this model.
- Rules.MaskedLength, Rules.RunsNoLonger, Masker.MaskAllNoLonger, Masker.LogMasker.Mask: "no longer than the input" is promised only for patterns whose groups lie inside their matches (`Regex.CapturesInside`). A group captured inside a lookaround can lie outside its match and lengthen the text, as `Examples.LookaheadGrows` shows.
- Null messages: `mask` takes a `string`, so the null message path is not modelled. In Java, a masker with no rules returns null unchanged, and any rule throws a `NullPointerException` from `pattern.matcher(null)`.
- Thread safety and safe sharing: the model is sequential.
- UTF-16 code units versus code points: strings are sequences of `char`.

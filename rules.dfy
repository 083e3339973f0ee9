/** `MaskingRule` (LogMasker.java:34-72): one compiled pattern and the
    replacement that turns the selected data of each match into asterisks. */
module Rules {
  import opened Wrappers
  import opened Regex

  /** REG_EX_DEFAULT_GROUP_SELECTOR: the group masked when there are several. */
  const RegExDefaultGroupSelector: nat := 2
  /** DEFAULT_REPLACEMENT: the unit the mask is made of. */
  const DefaultReplacement: string := "*"

  /** `PatternSyntaxException`, carrying the rule text that failed. */
  datatype Error = InvalidPattern(rule: string)

  /** `Collections.nCopies(n, x)` joined with the empty separator. */
  function Repeat(n: nat, x: string): (r: string)
    ensures |r| == n * |x|
    ensures forall k :: 0 <= k < |r| ==> r[k] in x
    ensures |x| == 1 ==> forall k :: 0 <= k < |r| ==> r[k] == x[0]
  {
    if n == 0 then [] else x + Repeat(n - 1, x)
  }

  /** `maskDataWithReplacement`: one copy of `replacement` per character of
      the data; null or empty data gives the empty string. */
  function MaskDataWithReplacement(input: Option<string>, replacement: string): (r: string)
    ensures input.None? ==> r == []
    ensures input.Some? ==> |r| == |input.value| * |replacement|
    ensures forall k :: 0 <= k < |r| ==> r[k] in replacement
  {
    var repetition := if input.None? || |input.value| == 0 then 0 else |input.value|;
    Repeat(repetition, replacement)
  }

  /** `getDataToBeMasked`: group 2 when the pattern has more than one group,
      group 1 when it has exactly one, and the empty string when it has none. */
  function GetDataToBeMasked(s: string, m: Match, groupCount: nat): (r: Option<string>)
    requires MatchIn(m, s, groupCount)
    ensures groupCount > 1 ==> r == Group(s, m, groupCount, RegExDefaultGroupSelector)
    ensures groupCount == 1 ==> r == Group(s, m, groupCount, 1)
    ensures groupCount == 0 ==> r == Some("")
    ensures r.Some? && GroupsInside(m) ==> |r.value| <= m.end - m.start
  {
    if groupCount > 1 then Group(s, m, groupCount, RegExDefaultGroupSelector)
    else if groupCount > 0 then Group(s, m, groupCount, 1)
    else Some("")
  }

  /** What `appendReplacement` puts in place of match `m`: the star mask of
      the selected data. */
  function MaskRun(s: string, m: Match, groupCount: nat): (r: string)
    requires MatchIn(m, s, groupCount)
  {
    MaskDataWithReplacement(GetDataToBeMasked(s, m, groupCount), DefaultReplacement)
  }

  /** The run is made of '*' only, is exactly as long as the selected data
      (zero when that data is null or empty), and never longer than the match
      when the groups lie inside it. */
  lemma MaskRunShape(s: string, m: Match, groupCount: nat)
    requires MatchIn(m, s, groupCount)
    ensures var d := GetDataToBeMasked(s, m, groupCount);
      |MaskRun(s, m, groupCount)| == (if d.None? then 0 else |d.value|)
    ensures GroupsInside(m) ==> |MaskRun(s, m, groupCount)| <= m.end - m.start
    ensures groupCount == 0 ==> MaskRun(s, m, groupCount) == []
    ensures forall k :: 0 <= k < |MaskRun(s, m, groupCount)| ==> MaskRun(s, m, groupCount)[k] == '*'
  {
  }

  /** The first pending match does not start before position `from`. */
  predicate StartsFrom(ms: seq<Match>, from: nat)
  {
    |ms| > 0 ==> from <= ms[0].start
  }

  /** The reconstruction that `MaskingRule.mask` performs, from append
      position `from` on: the gap before the next match, that match's mask
      run, then the rest; after the last match, the tail of the text. */
  function MaskFrom(s: string, ms: seq<Match>, from: nat, groupCount: nat): string
    requires WellFormed(s, ms, groupCount)
    requires from <= |s| && StartsFrom(ms, from)
    decreases |ms|
  {
    if ms == [] then s[from..]
    else
      SuffixWellFormed(s, ms, groupCount, 1);
      s[from..ms[0].start] + MaskRun(s, ms[0], groupCount) + MaskFrom(s, ms[1..], ms[0].end, groupCount)
  }

  /** Sum of the matched spans' lengths. */
  function MatchedLength(ms: seq<Match>): int
  {
    if ms == [] then 0 else ms[0].end - ms[0].start + MatchedLength(ms[1..])
  }

  /** Sum of the mask runs' lengths. */
  function RunsLength(s: string, ms: seq<Match>, groupCount: nat): int
    requires WellFormed(s, ms, groupCount)
  {
    if ms == [] then 0
    else
      SuffixWellFormed(s, ms, groupCount, 1);
      |MaskRun(s, ms[0], groupCount)| + RunsLength(s, ms[1..], groupCount)
  }

  /** Sum of the selected data's lengths, null counting as 0. */
  function SelectedLength(s: string, ms: seq<Match>, groupCount: nat): int
    requires WellFormed(s, ms, groupCount)
  {
    if ms == [] then 0
    else
      SuffixWellFormed(s, ms, groupCount, 1);
      var d := GetDataToBeMasked(s, ms[0], groupCount);
      (if d.None? then 0 else |d.value|) + SelectedLength(s, ms[1..], groupCount)
  }

  /** Every match's selected group lies inside it. */
  ghost predicate AllGroupsInside(ms: seq<Match>)
  {
    forall i :: 0 <= i < |ms| ==> GroupsInside(ms[i])
  }

  /** How far the output has moved relative to the input at input position
      `k`: the length gained or lost by every match that ends at or before `k`. */
  function Shift(s: string, ms: seq<Match>, groupCount: nat, k: nat): int
    requires WellFormed(s, ms, groupCount)
  {
    if ms == [] || k < ms[0].end then 0
    else
      SuffixWellFormed(s, ms, groupCount, 1);
      |MaskRun(s, ms[0], groupCount)| - (ms[0].end - ms[0].start) + Shift(s, ms[1..], groupCount, k)
  }

  /** The same shift, counted over the first `i` matches. */
  function ShiftBefore(s: string, ms: seq<Match>, groupCount: nat, i: nat): int
    requires WellFormed(s, ms, groupCount)
    requires i <= |ms|
  {
    if i == 0 then 0
    else
      SuffixWellFormed(s, ms, groupCount, 1);
      |MaskRun(s, ms[0], groupCount)| - (ms[0].end - ms[0].start) + ShiftBefore(s, ms[1..], groupCount, i - 1)
  }

  /** Position `k` of the input lies in no matched span. */
  ghost predicate Unmatched(ms: seq<Match>, k: nat)
  {
    forall i :: 0 <= i < |ms| ==> !(ms[i].start <= k < ms[i].end)
  }

  /** Output length = remaining input − matched lengths + mask lengths. */
  lemma {:induction false} MaskFromLength(s: string, ms: seq<Match>, from: nat, groupCount: nat)
    requires WellFormed(s, ms, groupCount)
    requires from <= |s| && StartsFrom(ms, from)
    ensures |MaskFrom(s, ms, from, groupCount)| ==
            |s| - from - MatchedLength(ms) + RunsLength(s, ms, groupCount)
    decreases |ms|
  {
    if ms != [] {
      SuffixWellFormed(s, ms, groupCount, 1);
      MaskFromLength(s, ms[1..], ms[0].end, groupCount);
    }
  }

  /** The runs together are exactly as long as the selected data. */
  lemma {:induction false} RunsAreSelected(s: string, ms: seq<Match>, groupCount: nat)
    requires WellFormed(s, ms, groupCount)
    ensures RunsLength(s, ms, groupCount) == SelectedLength(s, ms, groupCount)
    decreases |ms|
  {
    if ms != [] {
      SuffixWellFormed(s, ms, groupCount, 1);
      MaskRunShape(s, ms[0], groupCount);
      RunsAreSelected(s, ms[1..], groupCount);
    }
  }

  /** When every selected group lies inside its match, the runs are at most
      as long as the matches; a rule without groups has empty runs. */
  lemma {:induction false} RunsNoLonger(s: string, ms: seq<Match>, groupCount: nat)
    requires WellFormed(s, ms, groupCount)
    ensures AllGroupsInside(ms) ==> RunsLength(s, ms, groupCount) <= MatchedLength(ms)
    ensures groupCount == 0 ==> RunsLength(s, ms, groupCount) == 0
    decreases |ms|
  {
    if ms != [] {
      SuffixWellFormed(s, ms, groupCount, 1);
      MaskRunShape(s, ms[0], groupCount);
      RunsNoLonger(s, ms[1..], groupCount);
      assert AllGroupsInside(ms) ==> AllGroupsInside(ms[1..]) by {
        if AllGroupsInside(ms) {
          forall i | 0 <= i < |ms[1..]| ensures GroupsInside(ms[1..][i]) {
            assert ms[1..][i] == ms[i + 1];
          }
        }
      }
    }
  }

  /** A character outside every match is copied to the output, at its own
      position moved by the shift of the matches before it. */
  lemma {:induction false} KeepsUnmatched(s: string, ms: seq<Match>, from: nat, groupCount: nat, k: nat)
    requires WellFormed(s, ms, groupCount)
    requires from <= |s| && StartsFrom(ms, from)
    requires from <= k < |s| && Unmatched(ms, k)
    ensures var out, p := MaskFrom(s, ms, from, groupCount), k - from + Shift(s, ms, groupCount, k);
      0 <= p < |out| && out[p] == s[k]
    decreases |ms|
  {
    if ms != [] {
      SuffixWellFormed(s, ms, groupCount, 1);
      var run := MaskRun(s, ms[0], groupCount);
      var rest := MaskFrom(s, ms[1..], ms[0].end, groupCount);
      var gap := s[from..ms[0].start];
      assert MaskFrom(s, ms, from, groupCount) == gap + run + rest;
      if k >= ms[0].end {
        assert Unmatched(ms[1..], k) by {
          forall i | 0 <= i < |ms[1..]| ensures !(ms[1..][i].start <= k < ms[1..][i].end) {
            assert ms[1..][i] == ms[i + 1];
          }
        }
        KeepsUnmatched(s, ms[1..], ms[0].end, groupCount, k);
      } else {
        assert k < ms[0].start;
      }
    }
  }

  /** The `j`-th character of the run for match `i` sits right after the
      (shifted) gap before that match, and is '*'; the whole run fits in the
      output. */
  lemma {:induction false} RunPlacement(s: string, ms: seq<Match>, from: nat, groupCount: nat, i: nat, j: nat)
    requires WellFormed(s, ms, groupCount)
    requires from <= |s| && StartsFrom(ms, from)
    requires i < |ms| && j <= |MaskRun(s, ms[i], groupCount)|
    ensures var out, p := MaskFrom(s, ms, from, groupCount),
                          ms[i].start - from + ShiftBefore(s, ms, groupCount, i) + j;
      0 <= p <= |out| &&
      (j < |MaskRun(s, ms[i], groupCount)| ==> p < |out| && out[p] == MaskRun(s, ms[i], groupCount)[j] == '*')
    decreases i
  {
    SuffixWellFormed(s, ms, groupCount, 1);
    MaskRunShape(s, ms[i], groupCount);
    var rest := MaskFrom(s, ms[1..], ms[0].end, groupCount);
    assert MaskFrom(s, ms, from, groupCount) == s[from..ms[0].start] + MaskRun(s, ms[0], groupCount) + rest;
    if i > 0 {
      assert ms[1..][i - 1] == ms[i];
      RunPlacement(s, ms[1..], ms[0].end, groupCount, i - 1, j);
    }
  }

  /** `MaskingRule`: a compiled pattern; its replacement operator is always
      `in -> maskDataWithReplacement(in, "*")`, so it is not stored. */
  datatype MaskingRule = MaskingRule(pattern: Pattern)
  {
    /** What `mask` returns on `s`, stated over the matches `find` reports. */
    function Masked(s: string): string
    {
      MaskFrom(s, pattern.find(s), 0, pattern.groupCount)
    }

    /** `MaskingRule.mask`: the `find` / `appendReplacement` loop followed
        by `appendTail`. */
    method Mask(s: string) returns (r: string)
      ensures r == Masked(s)
    {
      var matches := pattern.find(s);
      var groupCount := pattern.groupCount;
      var sb: string := [];
      var last: nat := 0;
      var i := 0;
      while i < |matches|
        invariant 0 <= i <= |matches|
        invariant last <= |s|
        invariant WellFormed(s, matches[i..], groupCount) && StartsFrom(matches[i..], last)
        invariant sb + MaskFrom(s, matches[i..], last, groupCount) == Masked(s)
      {
        var m := matches[i];
        SuffixWellFormed(s, matches, groupCount, i + 1);
        assert matches[i..][1..] == matches[i + 1..];
        // appendReplacement: the text since the last match, then the mask
        sb := sb + s[last..m.start] + MaskDataWithReplacement(GetDataToBeMasked(s, m, groupCount), DefaultReplacement);
        last := m.end;
        i := i + 1;
      }
      // appendTail
      sb := sb + s[last..];
      r := sb;
    }
  }

  /** `MaskingRule.create`: compile the rule text; `compile` stands for
      `Pattern.compile`, None for a `PatternSyntaxException`. */
  function Create(rule: string, compile: string -> Option<Pattern>): (r: Result<MaskingRule, Error>)
    ensures r.Success? <==> compile(rule).Some?
    ensures r.Success? ==> r.value.pattern == compile(rule).value
    ensures r.Failure? ==> r.error == InvalidPattern(rule)
  {
    match compile(rule)
    case Some(p) => Success(MaskingRule(p))
    case None => Failure(InvalidPattern(rule))
  }

  /** With no match, the text comes back unchanged. */
  lemma NoMatchUnchanged(rule: MaskingRule, s: string)
    requires rule.pattern.find(s) == []
    ensures rule.Masked(s) == s
  {
  }

  /** Length of `mask`'s output: input length minus the matched lengths plus
      the selected data's lengths; a rule without groups deletes every matched
      character; a pattern that captures nothing outside its matches never
      makes the text longer. */
  lemma MaskedLength(rule: MaskingRule, s: string)
    ensures var ms, gc := rule.pattern.find(s), rule.pattern.groupCount;
      |rule.Masked(s)| == |s| - MatchedLength(ms) + SelectedLength(s, ms, gc)
    ensures rule.pattern.groupCount == 0 ==>
      |rule.Masked(s)| == |s| - MatchedLength(rule.pattern.find(s))
    ensures CapturesInside(rule.pattern) ==> |rule.Masked(s)| <= |s|
  {
    var ms, gc := rule.pattern.find(s), rule.pattern.groupCount;
    MaskFromLength(s, ms, 0, gc);
    RunsAreSelected(s, ms, gc);
    RunsNoLonger(s, ms, gc);
  }

  /** Where the run for match `i` begins in the output. */
  function RunStart(s: string, ms: seq<Match>, groupCount: nat, i: nat): int
    requires WellFormed(s, ms, groupCount)
    requires i < |ms|
  {
    ms[i].start + ShiftBefore(s, ms, groupCount, i)
  }

  /** The run for match `i` occupies the output from `RunStart` on. */
  lemma RunSlice(s: string, ms: seq<Match>, groupCount: nat, i: nat)
    requires WellFormed(s, ms, groupCount)
    requires i < |ms|
    ensures var out, run, p := MaskFrom(s, ms, 0, groupCount), MaskRun(s, ms[i], groupCount), RunStart(s, ms, groupCount, i);
      0 <= p <= p + |run| <= |out| && out[p..p + |run|] == run
  {
    var out, run, p := MaskFrom(s, ms, 0, groupCount), MaskRun(s, ms[i], groupCount), RunStart(s, ms, groupCount, i);
    RunPlacement(s, ms, 0, groupCount, i, 0);
    RunPlacement(s, ms, 0, groupCount, i, |run|);
    forall j | 0 <= j < |run| ensures out[p + j] == run[j] {
      RunPlacement(s, ms, 0, groupCount, i, j);
    }
    assert out[p..p + |run|] == run;
  }

  /** Text outside the matches is copied verbatim and in order: each such
      character lands at its own position moved by the preceding shift. */
  lemma MaskedKeepsUnmatched(rule: MaskingRule, s: string)
    ensures var ms, gc, out := rule.pattern.find(s), rule.pattern.groupCount, rule.Masked(s);
      forall k :: 0 <= k < |s| && Unmatched(ms, k) ==>
        0 <= k + Shift(s, ms, gc, k) < |out| && out[k + Shift(s, ms, gc, k)] == s[k]
  {
    var ms, gc := rule.pattern.find(s), rule.pattern.groupCount;
    forall k | 0 <= k < |s| && Unmatched(ms, k)
      ensures 0 <= k + Shift(s, ms, gc, k) < |MaskFrom(s, ms, 0, gc)|
      ensures MaskFrom(s, ms, 0, gc)[k + Shift(s, ms, gc, k)] == s[k]
    {
      KeepsUnmatched(s, ms, 0, gc, k);
    }
  }

  /** Each whole match, not only its selected group, is replaced by a run of
      '*' as long as the selected data. */
  lemma MaskedReplacesMatches(rule: MaskingRule, s: string)
    ensures var ms, gc, out := rule.pattern.find(s), rule.pattern.groupCount, rule.Masked(s);
      forall i :: 0 <= i < |ms| ==>
        0 <= RunStart(s, ms, gc, i) <= RunStart(s, ms, gc, i) + |MaskRun(s, ms[i], gc)| <= |out| &&
        out[RunStart(s, ms, gc, i)..RunStart(s, ms, gc, i) + |MaskRun(s, ms[i], gc)|] == MaskRun(s, ms[i], gc)
    ensures var ms, gc := rule.pattern.find(s), rule.pattern.groupCount;
      forall i :: 0 <= i < |ms| ==>
        var d := GetDataToBeMasked(s, ms[i], gc);
        && |MaskRun(s, ms[i], gc)| == (if d.None? then 0 else |d.value|)
        && forall c :: c in MaskRun(s, ms[i], gc) ==> c == '*'
  {
    var ms, gc := rule.pattern.find(s), rule.pattern.groupCount;
    forall i | 0 <= i < |ms|
      ensures 0 <= RunStart(s, ms, gc, i) <= RunStart(s, ms, gc, i) + |MaskRun(s, ms[i], gc)| <= |rule.Masked(s)|
      ensures rule.Masked(s)[RunStart(s, ms, gc, i)..RunStart(s, ms, gc, i) + |MaskRun(s, ms[i], gc)|] == MaskRun(s, ms[i], gc)
      ensures var d := GetDataToBeMasked(s, ms[i], gc);
        && |MaskRun(s, ms[i], gc)| == (if d.None? then 0 else |d.value|)
        && forall c :: c in MaskRun(s, ms[i], gc) ==> c == '*'
    {
      RunSlice(s, ms, gc, i);
      MaskRunShape(s, ms[i], gc);
    }
  }
}

/** An abstract view of `java.util.regex`: a compiled pattern is its number
    of capture groups and the sequence of matches that successive calls of
    `Matcher.find` report on a given text. The search itself is not modelled;
    only the shape of what it reports is fixed, by `WellFormed`. */
module Regex {
  import opened Wrappers

  /** The half-open span [start, end) of one capture group in the text. */
  datatype Span = Span(start: nat, end: nat)

  /** One successful `find`: the whole match [start, end) and, for each group
      1..groupCount at index group - 1, its span, or None when the group took
      no part in the match (`Matcher.group` then returns null). */
  datatype Match = Match(start: nat, end: nat, groups: seq<Option<Span>>)

  /** The match lies in `s`, has one entry per group, and each group that
      took part lies in `s`. A group need not lie inside its match: one
      captured inside a lookahead or lookbehind lies outside it. */
  predicate MatchIn(m: Match, s: string, groupCount: nat)
  {
    && m.start <= m.end <= |s|
    && |m.groups| == groupCount
    && forall g :: 0 <= g < |m.groups| && m.groups[g].Some? ==>
         m.groups[g].value.start <= m.groups[g].value.end <= |s|
  }

  /** Every group that took part lies inside the match. */
  predicate GroupsInside(m: Match)
  {
    forall g :: 0 <= g < |m.groups| && m.groups[g].Some? ==>
      m.start <= m.groups[g].value.start <= m.groups[g].value.end <= m.end
  }

  /** Matches are reported left to right and never overlap. */
  predicate Ordered(ms: seq<Match>)
  {
    forall i, j :: 0 <= i < j < |ms| ==> ms[i].end <= ms[j].start
  }

  predicate WellFormed(s: string, ms: seq<Match>, groupCount: nat)
  {
    && Ordered(ms)
    && forall i :: 0 <= i < |ms| ==> MatchIn(ms[i], s, groupCount)
  }

  /** A regular expression as the masker sees it. `find(s)` is the list of
      all matches `Matcher.find` reports on `s`, in order. */
  datatype Regex = Regex(groupCount: nat, find: string -> seq<Match>)

  ghost predicate Sound(r: Regex)
  {
    forall s :: WellFormed(s, r.find(s), r.groupCount)
  }

  /** A compiled `java.util.regex.Pattern`: a regex whose reports are always
      well formed. */
  type Pattern = r: Regex | Sound(r) witness Regex(0, _ => [])

  /** The pattern captures nothing outside its matches (no group inside a
      lookaround), on every text. */
  ghost predicate CapturesInside(r: Regex)
  {
    forall s, i :: 0 <= i < |r.find(s)| ==> GroupsInside(r.find(s)[i])
  }

  /** `Matcher.group(n)` for 1 <= n <= groupCount: the text of group n, or
      None (Java's null) when that group took no part in the match. */
  function Group(s: string, m: Match, groupCount: nat, n: nat): (r: Option<string>)
    requires MatchIn(m, s, groupCount)
    requires 1 <= n <= groupCount
    ensures r.None? <==> m.groups[n - 1].None?
    ensures r.Some? ==> exists a, b :: 0 <= a <= b <= |s| && r.value == s[a..b]
    ensures r.Some? && GroupsInside(m) ==> |r.value| <= m.end - m.start
  {
    match m.groups[n - 1]
    case None => None
    case Some(g) => Some(s[g.start..g.end])
  }

  /** A suffix of a well-formed match list is well formed. */
  lemma SuffixWellFormed(s: string, ms: seq<Match>, groupCount: nat, i: nat)
    requires WellFormed(s, ms, groupCount)
    requires i <= |ms|
    ensures WellFormed(s, ms[i..], groupCount)
  {
    forall a, b | 0 <= a < b < |ms[i..]|
      ensures ms[i..][a].end <= ms[i..][b].start
    {
      assert ms[i..][a] == ms[i + a] && ms[i..][b] == ms[i + b];
    }
  }
}

/** Concrete rules and messages. Each pattern's `find` lists, for the
    messages used here, the matches `java.util.regex` reports, and reports
    nothing elsewhere. */
module Examples {
  import opened Wrappers
  import opened Regex
  import opened Rules
  import opened Masker

  /** `9898981212`: no capture group. */
  const Phone: Pattern := Regex(0, s =>
    if s == "9898981212" then [Match(0, 10, [])]
    else if s == "call 9898981212 now" then [Match(5, 15, [])]
    else [])

  /** A zero-group rule deletes each match instead of starring it. */
  lemma PhoneIsDeleted()
    ensures MaskingRule(Phone).Masked("9898981212") == ""
    ensures MaskingRule(Phone).Masked("call 9898981212 now") == "call  now"
  {
    var m := Match(0, 10, []);
    assert Phone.find("9898981212") == [m];
    assert MaskRun("9898981212", m, 0) == "";
    assert MaskFrom("9898981212", [m], 0, 0) == "" + "" + MaskFrom("9898981212", [], 10, 0);
    var s, n := "call 9898981212 now", Match(5, 15, []);
    assert Phone.find(s) == [n];
    assert MaskRun(s, n, 0) == "";
    assert MaskFrom(s, [n], 0, 0) == s[..5] + "" + MaskFrom(s, [], 15, 0);
    assert s[..5] + s[15..] == "call  now";
  }

  /** `"password":"(.*?)"`: one group, the value. */
  const PasswordValue: Pattern := Regex(1, s =>
    if s == "{\"password\":\"Masking@123\"}" then [Match(1, 25, [Some(Span(13, 24))])]
    else [])

  /** `("password":")(.*?)(")`: three groups, the value is group 2. */
  const PasswordLabelled: Pattern := Regex(3, s =>
    if s == "{\"password\":\"Masking@123\"}"
    then [Match(1, 25, [Some(Span(1, 13)), Some(Span(13, 24)), Some(Span(24, 25))])]
    else [])

  /** With one group or with several, the whole match (label and quotes
      included) becomes as many stars as the value has characters. */
  lemma PasswordIsStarred()
    ensures MaskingRule(PasswordValue).Masked("{\"password\":\"Masking@123\"}") == "{***********}"
    ensures MaskingRule(PasswordLabelled).Masked("{\"password\":\"Masking@123\"}") == "{***********}"
  {
    var s := "{\"password\":\"Masking@123\"}";
    var one := Match(1, 25, [Some(Span(13, 24))]);
    var three := Match(1, 25, [Some(Span(1, 13)), Some(Span(13, 24)), Some(Span(24, 25))]);
    assert PasswordValue.find(s) == [one];
    assert PasswordLabelled.find(s) == [three];
    assert s[13..24] == "Masking@123";
    assert GetDataToBeMasked(s, one, 1) == Some("Masking@123");
    assert GetDataToBeMasked(s, three, 3) == Some("Masking@123");
    assert Repeat(11, "*") == "***********";
    assert MaskRun(s, one, 1) == "***********";
    assert MaskRun(s, three, 3) == "***********";
    assert MaskFrom(s, [], 25, 1) == "}" && MaskFrom(s, [], 25, 3) == "}";
    assert MaskFrom(s, [one], 0, 1) == "{" + "***********" + "}";
    assert MaskFrom(s, [three], 0, 3) == "{" + "***********" + "}";
  }

  /** `a`, no group. */
  const LetterA: Pattern := Regex(0, s =>
    if s == "bab" then [Match(1, 2, [])] else [])

  /** `bb`, no group. */
  const DoubleB: Pattern := Regex(0, s =>
    if s == "bb" then [Match(0, 2, [])] else [])

  /** Rule order matters: deleting `a` first creates a `bb` for the second
      rule to delete; the other order leaves it. */
  lemma OrderMatters()
    ensures MaskAll([MaskingRule(LetterA), MaskingRule(DoubleB)], "bab") == ""
    ensures MaskAll([MaskingRule(DoubleB), MaskingRule(LetterA)], "bab") == "bb"
  {
    var a, b := MaskingRule(LetterA), MaskingRule(DoubleB);
    assert [a, b][..1] == [a] && [b, a][..1] == [b];
    assert [a][..0] == [] && [b][..0] == [];
    assert a.Masked("bab") == "bb" by {
      assert LetterA.find("bab") == [Match(1, 2, [])];
      assert MaskRun("bab", Match(1, 2, []), 0) == "";
      assert MaskFrom("bab", [Match(1, 2, [])], 0, 0) == "b" + "" + MaskFrom("bab", [], 2, 0);
    }
    assert b.Masked("bb") == "" by {
      assert DoubleB.find("bb") == [Match(0, 2, [])];
      assert MaskRun("bb", Match(0, 2, []), 0) == "";
      assert MaskFrom("bb", [Match(0, 2, [])], 0, 0) == "" + "" + MaskFrom("bb", [], 2, 0);
    }
    assert b.Masked("bab") == "bab" by {
      assert DoubleB.find("bab") == [];
    }
    assert MaskAll([a], "bab") == "bb";
    assert MaskAll([b], "bab") == "bab";
  }

  /** `a(?=(bcdef))`: group 1 is captured inside a lookahead, after the
      match. */
  const Lookahead: Pattern := Regex(1, s =>
    if s == "abcdef" then [Match(0, 1, [Some(Span(1, 6))])] else [])

  /** A group outside its match gives a run longer than the match: the
      one-character match `a` becomes five stars, and the text grows. */
  lemma LookaheadGrows()
    ensures MaskingRule(Lookahead).Masked("abcdef") == "*****bcdef"
    ensures |MaskingRule(Lookahead).Masked("abcdef")| > |"abcdef"|
  {
    var s, m := "abcdef", Match(0, 1, [Some(Span(1, 6))]);
    assert Lookahead.find(s) == [m];
    assert s[1..6] == "bcdef";
    assert Group(s, m, 1, 1) == Some("bcdef");
    assert GetDataToBeMasked(s, m, 1) == Some("bcdef");
    assert Repeat(5, "*") == "*****";
    assert MaskRun(s, m, 1) == "*****";
    assert MaskFrom(s, [], 1, 1) == "bcdef";
    assert MaskFrom(s, [m], 0, 1) == "" + "*****" + "bcdef";
  }
}

/** `LogMasker` (LogMasker.java:11-32): an ordered array of masking rules
    applied one after another. */
module Masker {
  import opened Wrappers
  import opened Regex
  import opened Rules

  /** The text after applying `rules` strictly in order, each rule's output
      feeding the next. */
  function MaskAll(rules: seq<MaskingRule>, s: string): string
    decreases |rules|
  {
    if rules == [] then s
    else rules[|rules| - 1].Masked(MaskAll(rules[..|rules| - 1], s))
  }

  /** Masking with `first` and then with `second` is masking with their
      concatenation. */
  lemma {:induction false} MaskAllAppend(first: seq<MaskingRule>, second: seq<MaskingRule>, s: string)
    ensures MaskAll(first + second, s) == MaskAll(second, MaskAll(first, s))
    decreases |second|
  {
    if second == [] {
      assert first + second == first;
    } else {
      var init := second[..|second| - 1];
      assert (first + second)[..|first + second| - 1] == first + init;
      MaskAllAppend(first, init, s);
    }
  }

  /** The first rule sees the raw input; the others see its output. */
  lemma MaskAllFirst(r: MaskingRule, rest: seq<MaskingRule>, s: string)
    ensures MaskAll([r] + rest, s) == MaskAll(rest, r.Masked(s))
  {
    MaskAllAppend([r], rest, s);
    assert [r][..0] == [];
  }

  /** Every rule's pattern captures nothing outside its matches. */
  ghost predicate AllCaptureInside(rules: seq<MaskingRule>)
  {
    forall i :: 0 <= i < |rules| ==> CapturesInside(rules[i].pattern)
  }

  /** When no rule captures outside its matches, no rule makes the text
      longer, so neither does the whole masker. */
  lemma {:induction false} MaskAllNoLonger(rules: seq<MaskingRule>, s: string)
    ensures AllCaptureInside(rules) ==> |MaskAll(rules, s)| <= |s|
    decreases |rules|
  {
    if rules != [] {
      var init := rules[..|rules| - 1];
      MaskAllNoLonger(init, s);
      MaskedLength(rules[|rules| - 1], MaskAll(init, s));
      assert AllCaptureInside(rules) ==> AllCaptureInside(init) by {
        if AllCaptureInside(rules) {
          forall i | 0 <= i < |init| ensures CapturesInside(init[i].pattern) {
            assert init[i] == rules[i];
          }
        }
      }
    }
  }

  /** The stream in `create`: compile every rule text in order; the first
      one that does not compile aborts with its error. */
  function CreateRules(rules: seq<string>, compile: string -> Option<Pattern>): (r: Result<seq<MaskingRule>, Error>)
    ensures r.Success? <==> forall i :: 0 <= i < |rules| ==> compile(rules[i]).Some?
    ensures r.Success? ==> |r.value| == |rules|
    ensures r.Success? ==> forall i :: 0 <= i < |rules| ==> r.value[i].pattern == compile(rules[i]).value
    ensures r.Failure? ==>
      exists i :: (&& 0 <= i < |rules|
                   && compile(rules[i]).None?
                   && r.error == InvalidPattern(rules[i])
                   && forall j :: 0 <= j < i ==> compile(rules[j]).Some?)
  {
    if rules == [] then Success([])
    else
      match Create(rules[0], compile)
      case Failure(e) => Failure(e)
      case Success(head) =>
        match CreateRules(rules[1..], compile)
        case Failure(e) =>
          assert forall j :: 0 <= j < |rules| - 1 ==> rules[1..][j] == rules[j + 1];
          Failure(e)
        case Success(tail) =>
          assert forall j :: 1 <= j < |rules| ==> rules[j] == rules[1..][j - 1];
          Success([head] + tail)
  }

  class LogMasker {
    /** The masker's own copy of the rules. */
    const masks: array<MaskingRule>

    /** `new LogMasker(masks)`: keeps a clone of the array, never the
        caller's array itself. */
    constructor (masks: array<MaskingRule>)
      ensures fresh(this.masks)
      ensures this.masks[..] == masks[..]
    {
      this.masks := new MaskingRule[masks.Length](i reads masks requires 0 <= i < masks.Length => masks[i]);
    }

    /** `LogMasker.create`: one rule per rule text, in the same order, or the
        error of the first text that does not compile. */
    static method Create(rules: seq<string>, compile: string -> Option<Pattern>) returns (r: Result<LogMasker, Error>)
      ensures r.Success? <==> CreateRules(rules, compile).Success?
      ensures r.Success? ==> fresh(r.value.masks) && r.value.masks[..] == CreateRules(rules, compile).value
      ensures r.Failure? ==> r.error == CreateRules(rules, compile).error
    {
      match CreateRules(rules, compile)
      case Failure(e) =>
        r := Failure(e);
      case Success(rs) =>
        var arr := new MaskingRule[|rs|](i requires 0 <= i < |rs| => rs[i]);
        var m := new LogMasker(arr);
        r := Success(m);
    }

    /** `LogMasker.mask`: fold the rules over the input in array order. */
    method Mask(input: string) returns (r: string)
      ensures r == MaskAll(masks[..], input)
      ensures masks.Length == 0 ==> r == input
      ensures AllCaptureInside(masks[..]) ==> |r| <= |input|
    {
      var transformed := input;
      for i := 0 to masks.Length
        invariant transformed == MaskAll(masks[..i], input)
      {
        assert masks[..i + 1][..i] == masks[..i];
        transformed := masks[i].Mask(transformed);
      }
      assert masks[..masks.Length] == masks[..];
      MaskAllNoLonger(masks[..], input);
      r := transformed;
    }
  }

  /** Changing the caller's array after construction leaves the masker's
      rules, and so its behaviour, as they were. */
  method CloneIsolation(rules: array<MaskingRule>, other: MaskingRule) returns (m: LogMasker)
    requires rules.Length > 0
    modifies rules
    ensures m.masks[..] == old(rules[..])
    ensures rules[0] == other
  {
    m := new LogMasker(rules);
    rules[0] := other;
  }
}

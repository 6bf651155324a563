/** pkg/common/rules.go (with the record of pkg/common/secrets.go): the legacy
    rule type and its matcher, which applies no entropy gate. */
module Common {
  import opened Wrappers
  import opened Foreign
  import DefaultPatterns

  /** A named pattern with a minimum entropy; a nil `Pattern` is `None`. */
  datatype SecretStringRule = SecretStringRule(name: string, pattern: Option<Regex>, entropy: real)

  datatype SecretStringMatch = SecretStringMatch(rule: SecretStringRule, value: string)

  /** The `SecretSource` constants of pkg/common/secrets.go. */
  const EnvVar: string := "environment variable"
  const BuildArgument: string := "build argument"

  /** A detected secret string, as the layer detector reports it. */
  datatype SecretString = SecretString(name: string, location: string, value: string, source: string)

  /** Every rule has a compiled pattern; calling `FindStringSubmatch` on a nil
      pattern would dereference nil. */
  predicate AllCompiled(rules: seq<SecretStringRule>)
  {
    forall i :: 0 <= i < |rules| ==> rules[i].pattern.Some?
  }

  /** The submatches one rule finds in `content`. */
  function Submatches(re: Re2, content: string, r: SecretStringRule): seq<string>
    requires r.pattern.Some?
  {
    re.findStringSubmatch(r.pattern.value, content)
  }

  /** One match per submatch, in submatch order. */
  function RuleMatches(r: SecretStringRule, subs: seq<string>): seq<SecretStringMatch>
  {
    seq(|subs|, k requires 0 <= k < |subs| => SecretStringMatch(r, subs[k]))
  }

  /** The reference result: the rules' matches in rule order. */
  function Matches(re: Re2, content: string, rules: seq<SecretStringRule>): seq<SecretStringMatch>
    requires AllCompiled(rules)
  {
    if |rules| == 0 then []
    else
      var last := rules[|rules| - 1];
      Matches(re, content, rules[..|rules| - 1]) + RuleMatches(last, Submatches(re, content, last))
  }

  /** `FindRuleMatches`: every element of every rule's `FindStringSubmatch`
      becomes a match; there is no entropy filter. */
  method FindRuleMatches(re: Re2, content: string, rules: seq<SecretStringRule>) returns (matches: seq<SecretStringMatch>)
    requires AllCompiled(rules)
    ensures matches == Matches(re, content, rules)
  {
    matches := [];
    for i := 0 to |rules|
      invariant matches == Matches(re, content, rules[..i])
    {
      var r := rules[i];
      assert rules[..i + 1][..i] == rules[..i];
      var subs := re.findStringSubmatch(r.pattern.value, content);
      for j := 0 to |subs|
        invariant matches == Matches(re, content, rules[..i]) + RuleMatches(r, subs[..j])
      {
        matches := matches + [SecretStringMatch(r, subs[j])];
      }
      assert subs[..|subs|] == subs;
    }
    assert rules[..|rules|] == rules;
  }

  /** How many submatches the rules find in all. */
  function SubmatchTotal(re: Re2, content: string, rules: seq<SecretStringRule>): nat
    requires AllCompiled(rules)
  {
    if |rules| == 0 then 0
    else SubmatchTotal(re, content, rules[..|rules| - 1]) + |Submatches(re, content, rules[|rules| - 1])|
  }

  /** The match count is the sum of the rules' submatch counts. */
  lemma {:induction false} MatchCount(re: Re2, content: string, rules: seq<SecretStringRule>)
    requires AllCompiled(rules)
    ensures |Matches(re, content, rules)| == SubmatchTotal(re, content, rules)
  {
    if |rules| > 0 { MatchCount(re, content, rules[..|rules| - 1]); }
  }

  /** Matches come out in rule order. */
  lemma {:induction false} MatchesAppend(re: Re2, content: string, a: seq<SecretStringRule>, b: seq<SecretStringRule>)
    requires AllCompiled(a) && AllCompiled(b)
    ensures AllCompiled(a + b)
    ensures Matches(re, content, a + b) == Matches(re, content, a) + Matches(re, content, b)
  {
    if |b| > 0 {
      assert (a + b)[..|a + b| - 1] == a + b[..|b| - 1];
      MatchesAppend(re, content, a, b[..|b| - 1]);
    } else {
      assert a + b == a;
    }
  }

  /** A match is produced exactly when some rule's submatch is its value, and
      it carries that rule unchanged. */
  lemma {:induction false} MatchMember(re: Re2, content: string, rules: seq<SecretStringRule>, m: SecretStringMatch)
    requires AllCompiled(rules)
    ensures m in Matches(re, content, rules) <==>
      m.rule in rules && m.rule.pattern.Some? && m.value in Submatches(re, content, m.rule)
  {
    if |rules| > 0 {
      var init, last := rules[..|rules| - 1], rules[|rules| - 1];
      MatchMember(re, content, init, m);
      assert rules == init + [last];
      var subs := Submatches(re, content, last);
      if m.rule == last && m.value in subs {
        var k :| 0 <= k < |subs| && subs[k] == m.value;
        assert RuleMatches(last, subs)[k] == m;
      }
    }
  }

  /** `DefaultRules`: the bundled table, in table order, every rule compiled
      and none with an entropy threshold. */
  function DefaultRules(): (rs: seq<SecretStringRule>)
    ensures |rs| == |DefaultPatterns.Table| == 40
    ensures AllCompiled(rs)
    ensures forall i :: 0 <= i < |rs| ==>
      rs[i].name == DefaultPatterns.Table[i].0 && rs[i].pattern == Some(Regex(DefaultPatterns.Table[i].1)) &&
      rs[i].entropy == 0.0
  {
    seq(|DefaultPatterns.Table|, i requires 0 <= i < |DefaultPatterns.Table| =>
      SecretStringRule(DefaultPatterns.Table[i].0, Some(Regex(DefaultPatterns.Table[i].1)), 0.0))
  }
}

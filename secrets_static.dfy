/** pkg/secrets/static.go: the entropy-gated matcher over static rules. */
module StaticSearch {
  import opened Wrappers
  import opened Foreign
  import opened SecretRules
  import opened SecretValue

  /** A match of a static rule. The matcher never sets `fullText`,
      `startPos` or `endPos`, so they keep Go's zero values. */
  datatype TextMatch = TextMatch(rule: StaticRule, secret: Secret, fullText: string, startPos: int, endPos: int)

  /** Every rule has a compiled pattern; `FindStringSubmatch` on a nil
      pattern would dereference nil. */
  predicate AllCompiled(rules: seq<StaticRule>)
  {
    forall i :: 0 <= i < |rules| ==> rules[i].pattern.Some?
  }

  /** A candidate string passes the gate when its entropy is not below the
      rule's minimum. */
  predicate Passes(shannon: string -> real, r: StaticRule, s: string)
  {
    !(Entropy(shannon, s) < r.minEntropy)
  }

  /** The match a passing candidate becomes. */
  function MatchOf(shannon: string -> real, r: StaticRule, s: string): TextMatch
  {
    TextMatch(r, Secret(s, Entropy(shannon, s)), "", 0, 0)
  }

  /** The matches one rule keeps from its submatches, in submatch order. */
  function Gated(shannon: string -> real, r: StaticRule, subs: seq<string>): seq<TextMatch>
  {
    if |subs| == 0 then []
    else
      var s := subs[|subs| - 1];
      Gated(shannon, r, subs[..|subs| - 1]) + (if Passes(shannon, r, s) then [MatchOf(shannon, r, s)] else [])
  }

  /** The reference result: each rule's gated submatches, in rule order. */
  function StaticMatches(re: Re2, shannon: string -> real, content: string, rules: seq<StaticRule>): seq<TextMatch>
    requires AllCompiled(rules)
  {
    if |rules| == 0 then []
    else
      var last := rules[|rules| - 1];
      StaticMatches(re, shannon, content, rules[..|rules| - 1]) +
      Gated(shannon, last, re.findStringSubmatch(last.pattern.value, content))
  }

  /** `findStaticRuleMatches`: for each rule, every element of one
      `FindStringSubmatch` call whose entropy reaches the rule's minimum;
      the error result is always nil. */
  method FindStaticRuleMatches(re: Re2, shannon: string -> real, content: string, rules: seq<StaticRule>)
    returns (matches: seq<TextMatch>, err: Option<Error>)
    requires AllCompiled(rules)
    ensures err.None?
    ensures matches == StaticMatches(re, shannon, content, rules)
  {
    matches, err := [], None;
    for i := 0 to |rules|
      invariant matches == StaticMatches(re, shannon, content, rules[..i])
    {
      var r := rules[i];
      assert rules[..i + 1][..i] == rules[..i];
      var subs := re.findStringSubmatch(r.pattern.value, content);
      for j := 0 to |subs|
        invariant matches == StaticMatches(re, shannon, content, rules[..i]) + Gated(shannon, r, subs[..j])
      {
        assert subs[..j + 1][..j] == subs[..j];
        var s := subs[j];
        var entropy := Entropy(shannon, s);
        if entropy < r.minEntropy {
          continue;
        }
        matches := matches + [TextMatch(r, Secret(s, entropy), "", 0, 0)];
      }
      assert subs[..|subs|] == subs;
    }
    assert rules[..|rules|] == rules;
  }

  /** A rule keeps exactly its passing submatches, each carrying the rule,
      the value, the value's entropy, and zero text and positions. */
  lemma {:induction false} GatedMember(shannon: string -> real, r: StaticRule, subs: seq<string>, m: TextMatch)
    ensures m in Gated(shannon, r, subs) <==>
      m.rule == r && m.secret.value in subs && Passes(shannon, r, m.secret.value) &&
      m.secret.entropy == Entropy(shannon, m.secret.value) &&
      m.fullText == "" && m.startPos == 0 && m.endPos == 0
  {
    if |subs| > 0 {
      var init := subs[..|subs| - 1];
      GatedMember(shannon, r, init, m);
      assert subs == init + [subs[|subs| - 1]];
    }
  }

  /** No rule keeps more matches than it has submatches. */
  lemma {:induction false} GatedLength(shannon: string -> real, r: StaticRule, subs: seq<string>)
    ensures |Gated(shannon, r, subs)| <= |subs|
    ensures (forall k :: 0 <= k < |subs| ==> Passes(shannon, r, subs[k])) ==>
      |Gated(shannon, r, subs)| == |subs|
  {
    if |subs| > 0 { GatedLength(shannon, r, subs[..|subs| - 1]); }
  }

  /** Within one rule, matches keep submatch order. */
  lemma {:induction false} GatedAppend(shannon: string -> real, r: StaticRule, a: seq<string>, b: seq<string>)
    ensures Gated(shannon, r, a + b) == Gated(shannon, r, a) + Gated(shannon, r, b)
  {
    if |b| > 0 {
      assert (a + b)[..|a + b| - 1] == a + b[..|b| - 1];
      GatedAppend(shannon, r, a, b[..|b| - 1]);
    } else {
      assert a + b == a;
    }
  }

  /** Every emitted match comes from a listed rule's single submatch call,
      has a value's own entropy at or above that rule's minimum, and leaves
      the text and positions at zero; and every such candidate is emitted. */
  lemma {:induction false} StaticMatchMember(re: Re2, shannon: string -> real, content: string, rules: seq<StaticRule>, m: TextMatch)
    requires AllCompiled(rules)
    ensures m in StaticMatches(re, shannon, content, rules) <==>
      m.rule in rules && m.rule.pattern.Some? &&
      m.secret.value in re.findStringSubmatch(m.rule.pattern.value, content) &&
      m.secret.entropy == Entropy(shannon, m.secret.value) && m.secret.entropy >= m.rule.minEntropy &&
      m.fullText == "" && m.startPos == 0 && m.endPos == 0
  {
    if |rules| > 0 {
      var init, last := rules[..|rules| - 1], rules[|rules| - 1];
      StaticMatchMember(re, shannon, content, init, m);
      GatedMember(shannon, last, re.findStringSubmatch(last.pattern.value, content), m);
      assert rules == init + [last];
    }
  }

  /** Matches come out grouped by rule, in rule order. */
  lemma {:induction false} StaticMatchesAppend(re: Re2, shannon: string -> real, content: string, a: seq<StaticRule>, b: seq<StaticRule>)
    requires AllCompiled(a) && AllCompiled(b)
    ensures AllCompiled(a + b)
    ensures StaticMatches(re, shannon, content, a + b) ==
      StaticMatches(re, shannon, content, a) + StaticMatches(re, shannon, content, b)
  {
    if |b| > 0 {
      assert (a + b)[..|a + b| - 1] == a + b[..|b| - 1];
      StaticMatchesAppend(re, shannon, content, a, b[..|b| - 1]);
    } else {
      assert a + b == a;
    }
  }

  /** A rule whose pattern does not match contributes nothing. */
  lemma NonMatchingRuleAddsNothing(re: Re2, shannon: string -> real, content: string, rules: seq<StaticRule>, r: StaticRule)
    requires AllCompiled(rules) && r.pattern.Some?
    requires re.findStringSubmatch(r.pattern.value, content) == []
    ensures AllCompiled(rules + [r])
    ensures StaticMatches(re, shannon, content, rules + [r]) == StaticMatches(re, shannon, content, rules)
  {
    assert (rules + [r])[..|rules|] == rules;
  }
}

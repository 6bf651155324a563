/** pkg/secrets/dynamic.go: the path-filtered matcher over dynamic rules and
    one file's content. */
module DynamicSearch {
  import opened Wrappers
  import opened Foreign
  import opened SecretRules
  import opened SecretValue

  /** A match of a dynamic rule against the file at `path`. */
  datatype FileMatch = FileMatch(rule: DynamicRule, secret: Secret, path: string)

  /** Go's zero `Secret`, carried by a match on the path alone. */
  const NoSecret: Secret := Secret("", 0.0)

  /** A rule looks at a file when it has no file pattern or its file pattern
      matches the path. */
  predicate Selects(re: Re2, r: DynamicRule, path: string)
  {
    r.filePattern.None? || re.matchString(r.filePattern.value, path)
  }

  /** A content candidate passes when its entropy is not below the rule's
      minimum. */
  predicate Passes(shannon: string -> real, r: DynamicRule, s: string)
  {
    !(Entropy(shannon, s) < r.minEntropy)
  }

  /** The content matches one rule keeps, in submatch order. */
  function Gated(shannon: string -> real, r: DynamicRule, path: string, subs: seq<seq<byte>>): seq<FileMatch>
  {
    if |subs| == 0 then []
    else
      var s := BytesToString(subs[|subs| - 1]);
      Gated(shannon, r, path, subs[..|subs| - 1]) +
      (if Passes(shannon, r, s) then [FileMatch(r, Secret(s, Entropy(shannon, s)), path)] else [])
  }

  /** What one rule contributes for the file. */
  function RuleMatches(re: Re2, shannon: string -> real, path: string, content: seq<byte>, r: DynamicRule): seq<FileMatch>
  {
    if !Selects(re, r, path) then []
    else if r.pattern.None? then [FileMatch(r, NoSecret, path)]
    else Gated(shannon, r, path, re.findSubmatch(r.pattern.value, content))
  }

  /** The reference result: the rules' contributions, in rule order. */
  function DynamicMatches(re: Re2, shannon: string -> real, path: string, content: seq<byte>, rules: seq<DynamicRule>): seq<FileMatch>
  {
    if |rules| == 0 then []
    else
      DynamicMatches(re, shannon, path, content, rules[..|rules| - 1]) +
      RuleMatches(re, shannon, path, content, rules[|rules| - 1])
  }

  /** `findDynamicRuleMatches`. `body` is what `io.ReadAll` returns: a read
      error is returned before any rule is looked at; otherwise the content,
      read once, is shared by every rule. */
  method FindDynamicRuleMatches(re: Re2, shannon: string -> real, path: string, body: Result<seq<byte>>, rules: seq<DynamicRule>)
    returns (r: Result<seq<FileMatch>>)
    ensures body.Err? ==> r == Err(body.error)
    ensures body.Ok? ==> r == Ok(DynamicMatches(re, shannon, path, body.value, rules))
  {
    if body.Err? {
      return Err(body.error);
    }
    var content := body.value;
    var matches: seq<FileMatch> := [];
    for i := 0 to |rules|
      invariant matches == DynamicMatches(re, shannon, path, content, rules[..i])
    {
      var rule := rules[i];
      assert rules[..i + 1][..i] == rules[..i];
      if rule.filePattern.Some? && !re.matchString(rule.filePattern.value, path) {
        continue;
      }
      if rule.pattern.None? {
        matches := matches + [FileMatch(rule, NoSecret, path)];
        continue;
      }
      var subs := re.findSubmatch(rule.pattern.value, content);
      for j := 0 to |subs|
        invariant matches == DynamicMatches(re, shannon, path, content, rules[..i]) + Gated(shannon, rule, path, subs[..j])
      {
        assert subs[..j + 1][..j] == subs[..j];
        var s := BytesToString(subs[j]);
        var entropy := Entropy(shannon, s);
        if entropy < rule.minEntropy {
          continue;
        }
        matches := matches + [FileMatch(rule, Secret(s, entropy), path)];
      }
      assert subs[..|subs|] == subs;
    }
    assert rules[..|rules|] == rules;
    return Ok(matches);
  }

  /** A content rule keeps exactly its passing submatches, read as strings,
      with their entropy and the path. */
  lemma {:induction false} GatedMember(shannon: string -> real, r: DynamicRule, path: string, subs: seq<seq<byte>>, m: FileMatch)
    ensures m in Gated(shannon, r, path, subs) <==>
      m.rule == r && m.path == path &&
      (exists k :: 0 <= k < |subs| && BytesToString(subs[k]) == m.secret.value) &&
      Passes(shannon, r, m.secret.value) && m.secret.entropy == Entropy(shannon, m.secret.value)
  {
    if |subs| > 0 {
      var init, last := subs[..|subs| - 1], subs[|subs| - 1];
      GatedMember(shannon, r, path, init, m);
      if exists k :: 0 <= k < |subs| && BytesToString(subs[k]) == m.secret.value {
        var k :| 0 <= k < |subs| && BytesToString(subs[k]) == m.secret.value;
        if k < |init| {
          assert init[k] == subs[k];
        }
      }
      if exists k :: 0 <= k < |init| && BytesToString(init[k]) == m.secret.value {
        var k :| 0 <= k < |init| && BytesToString(init[k]) == m.secret.value;
        assert subs[k] == init[k];
      }
    }
  }

  /** A match is emitted exactly when a listed rule selects the path and
      either has no content pattern (one match with the empty secret) or one
      of its submatches reaches its minimum entropy. */
  lemma {:induction false} DynamicMatchMember(re: Re2, shannon: string -> real, path: string, content: seq<byte>, rules: seq<DynamicRule>, m: FileMatch)
    ensures m in DynamicMatches(re, shannon, path, content, rules) <==>
      m.rule in rules && Selects(re, m.rule, path) && m.path == path &&
      (m.rule.pattern.None? ==> m.secret == NoSecret) &&
      (m.rule.pattern.Some? ==>
        (exists k :: 0 <= k < |re.findSubmatch(m.rule.pattern.value, content)| &&
          BytesToString(re.findSubmatch(m.rule.pattern.value, content)[k]) == m.secret.value) &&
        Passes(shannon, m.rule, m.secret.value) && m.secret.entropy == Entropy(shannon, m.secret.value))
  {
    if |rules| > 0 {
      var init, last := rules[..|rules| - 1], rules[|rules| - 1];
      DynamicMatchMember(re, shannon, path, content, init, m);
      if last.pattern.Some? {
        GatedMember(shannon, last, path, re.findSubmatch(last.pattern.value, content), m);
      }
      assert rules == init + [last];
    }
  }

  /** Every emitted match names the searched path. */
  lemma EveryMatchHasPath(re: Re2, shannon: string -> real, path: string, content: seq<byte>, rules: seq<DynamicRule>)
    ensures forall m :: m in DynamicMatches(re, shannon, path, content, rules) ==> m.path == path
  {
    forall m | m in DynamicMatches(re, shannon, path, content, rules)
      ensures m.path == path
    {
      DynamicMatchMember(re, shannon, path, content, rules, m);
    }
  }

  /** Matches come out grouped by rule, in rule order. */
  lemma {:induction false} DynamicMatchesAppend(re: Re2, shannon: string -> real, path: string, content: seq<byte>, a: seq<DynamicRule>, b: seq<DynamicRule>)
    ensures DynamicMatches(re, shannon, path, content, a + b) ==
      DynamicMatches(re, shannon, path, content, a) + DynamicMatches(re, shannon, path, content, b)
  {
    if |b| > 0 {
      assert (a + b)[..|a + b| - 1] == a + b[..|b| - 1];
      DynamicMatchesAppend(re, shannon, path, content, a, b[..|b| - 1]);
    } else {
      assert a + b == a;
    }
  }

  /** The rules that select the path. */
  function Selected(re: Re2, path: string, rules: seq<DynamicRule>): seq<DynamicRule>
  {
    if |rules| == 0 then []
    else
      var last := rules[|rules| - 1];
      Selected(re, path, rules[..|rules| - 1]) + (if Selects(re, last, path) then [last] else [])
  }

  /** Rules without a content pattern, such as the default ones, never look
      at the content: they yield one empty-secret match per rule that
      selects the path, whatever the file holds. */
  lemma {:induction false} PathOnlyRules(re: Re2, shannon: string -> real, path: string, content: seq<byte>, rules: seq<DynamicRule>)
    requires forall i :: 0 <= i < |rules| ==> rules[i].pattern.None?
    ensures |DynamicMatches(re, shannon, path, content, rules)| == |Selected(re, path, rules)|
    ensures forall k :: 0 <= k < |Selected(re, path, rules)| ==>
      DynamicMatches(re, shannon, path, content, rules)[k] == FileMatch(Selected(re, path, rules)[k], NoSecret, path)
  {
    if |rules| > 0 {
      PathOnlyRules(re, shannon, path, content, rules[..|rules| - 1]);
    }
  }

  /** The default dynamic rules are path-only rules. */
  lemma DefaultRulesIgnoreContent(re: Re2, shannon: string -> real, path: string, content: seq<byte>)
    ensures |DynamicMatches(re, shannon, path, content, DefaultDynamicRules)| == |Selected(re, path, DefaultDynamicRules)|
    ensures forall k :: 0 <= k < |Selected(re, path, DefaultDynamicRules)| ==>
      DynamicMatches(re, shannon, path, content, DefaultDynamicRules)[k] ==
      FileMatch(Selected(re, path, DefaultDynamicRules)[k], NoSecret, path)
  {
    DefaultRulesShape();
    PathOnlyRules(re, shannon, path, content, DefaultDynamicRules);
  }
}

/** pkg/secrets/rules.go: static and dynamic rules, their descriptions, the
    default tables and the two rule compilers. */
module SecretRules {
  import opened Wrappers
  import opened Foreign
  import opened Config
  import Text
  import DefaultPatterns

  /** The pieces a rule description is built from. */
  function Quoted(name: string): string { "'" + name + "'" }
  function RegexCondition(r: Regex): string { "regex '" + r.expr + "'" }
  function EntropyCondition(formatted: string): string { "minimum entropy of " + formatted }
  function FilePatternCondition(r: Regex): string { "file pattern '" + r.expr + "'" }

  /** A content pattern with a minimum entropy. The compiler can leave
      `pattern` nil (`None`). */
  datatype StaticRule = StaticRule(name: string, pattern: Option<Regex>, minEntropy: real)
  {
    /** `StaticRule.String`; `formatFloat` stands for `%f`. */
    method ToString(formatFloat: real -> string) returns (s: string)
      ensures s == StaticText(this, formatFloat)
    {
      var conditions: seq<string> := [];
      if pattern.Some? {
        conditions := conditions + [RegexCondition(pattern.value)];
      }
      if minEntropy > 0.0 {
        conditions := conditions + [EntropyCondition(formatFloat(minEntropy))];
      }
      assert conditions == StaticConditions(this, formatFloat);
      if |conditions| > 0 {
        return Quoted(name) + " via " + Text.Join(conditions, " and ");
      }
      return Quoted(name);
    }
  }

  /** A rule on file paths (`filePattern`) and optionally on file content
      (`pattern`); `None` stands for nil. */
  datatype DynamicRule = DynamicRule(name: string, filePattern: Option<Regex>, pattern: Option<Regex>, minEntropy: real)
  {
    /** `DynamicRule.String`: the static description of the same name,
        pattern and entropy, with the file pattern as the last condition. */
    method ToString(formatFloat: real -> string) returns (s: string)
      ensures s == DynamicText(this, formatFloat)
    {
      var conditions: seq<string> := [];
      if pattern.Some? {
        conditions := conditions + [RegexCondition(pattern.value)];
      }
      if minEntropy > 0.0 {
        conditions := conditions + [EntropyCondition(formatFloat(minEntropy))];
      }
      if filePattern.Some? {
        conditions := conditions + [FilePatternCondition(filePattern.value)];
      }
      assert conditions == DynamicConditions(this, formatFloat);
      if |conditions| > 0 {
        return Quoted(name) + " via " + Text.Join(conditions, " and ");
      }
      return Quoted(name);
    }
  }

  /** The conditions of a static rule, in order: the regex, then the entropy
      when it is positive. */
  function StaticConditions(r: StaticRule, formatFloat: real -> string): seq<string>
  {
    (if r.pattern.Some? then [RegexCondition(r.pattern.value)] else []) +
    (if r.minEntropy > 0.0 then [EntropyCondition(formatFloat(r.minEntropy))] else [])
  }

  /** How a static rule describes itself: the quoted name, then `via` and the
      conditions joined by `and`. */
  function StaticText(r: StaticRule, formatFloat: real -> string): (s: string)
    ensures r.pattern.None? && r.minEntropy <= 0.0 ==> s == Quoted(r.name)
    ensures r.pattern.Some? && r.minEntropy <= 0.0 ==>
      s == Quoted(r.name) + " via " + RegexCondition(r.pattern.value)
    ensures r.pattern.None? && r.minEntropy > 0.0 ==>
      s == Quoted(r.name) + " via " + EntropyCondition(formatFloat(r.minEntropy))
    ensures r.pattern.Some? && r.minEntropy > 0.0 ==>
      s == Quoted(r.name) + " via " + RegexCondition(r.pattern.value) + " and " + EntropyCondition(formatFloat(r.minEntropy))
  {
    var conditions := StaticConditions(r, formatFloat);
    if |conditions| > 0 then
      Text.JoinPair(conditions[0], conditions[|conditions| - 1], " and ");
      Quoted(r.name) + " via " + Text.Join(conditions, " and ")
    else Quoted(r.name)
  }

  /** The conditions of a dynamic rule: those of the static rule with the
      same name, pattern and entropy, then the file pattern. */
  function DynamicConditions(r: DynamicRule, formatFloat: real -> string): seq<string>
  {
    StaticConditions(StaticRule(r.name, r.pattern, r.minEntropy), formatFloat) +
    (if r.filePattern.Some? then [FilePatternCondition(r.filePattern.value)] else [])
  }

  /** How a dynamic rule describes itself: the quoted name, then `via` and
      its conditions joined by `and`. */
  function DynamicText(r: DynamicRule, formatFloat: real -> string): (s: string)
    ensures |s| >= |Quoted(r.name)|
  {
    var conditions := DynamicConditions(r, formatFloat);
    if |conditions| > 0 then Quoted(r.name) + " via " + Text.Join(conditions, " and ")
    else Quoted(r.name)
  }

  /** Without a file pattern a dynamic rule reads like its static rule. */
  lemma DynamicWithoutFile(r: DynamicRule, formatFloat: real -> string)
    requires r.filePattern.None?
    ensures DynamicText(r, formatFloat) == StaticText(StaticRule(r.name, r.pattern, r.minEntropy), formatFloat)
  {
    assert DynamicConditions(r, formatFloat) == StaticConditions(StaticRule(r.name, r.pattern, r.minEntropy), formatFloat);
  }

  /** A rule on the file name alone reads `'name' via file pattern '...'`. */
  lemma DynamicFileOnly(r: DynamicRule, formatFloat: real -> string)
    requires r.filePattern.Some? && r.pattern.None? && r.minEntropy <= 0.0
    ensures DynamicText(r, formatFloat) == Quoted(r.name) + " via " + FilePatternCondition(r.filePattern.value)
  {
    assert DynamicConditions(r, formatFloat) == [FilePatternCondition(r.filePattern.value)];
  }

  /** Otherwise the file pattern is appended to the static description. */
  lemma DynamicFileAppended(r: DynamicRule, formatFloat: real -> string)
    requires r.filePattern.Some? && (r.pattern.Some? || r.minEntropy > 0.0)
    ensures DynamicText(r, formatFloat) ==
      StaticText(StaticRule(r.name, r.pattern, r.minEntropy), formatFloat) + " and " + FilePatternCondition(r.filePattern.value)
  {
    var sc := StaticConditions(StaticRule(r.name, r.pattern, r.minEntropy), formatFloat);
    var f := FilePatternCondition(r.filePattern.value);
    assert DynamicConditions(r, formatFloat) == sc + [f];
    Text.JoinSnoc(sc, f, " and ");
  }

  /** A description is the bare quoted name exactly when there is no
      condition. */
  lemma BareNameIffNoCondition(r: StaticRule, formatFloat: real -> string)
    ensures StaticText(r, formatFloat) == Quoted(r.name) <==> r.pattern.None? && r.minEntropy <= 0.0
  {
    var s := StaticText(r, formatFloat);
    if !(r.pattern.None? && r.minEntropy <= 0.0) {
      assert |s| > |Quoted(r.name)|;
    }
  }

  /** `DefaultStaticRules`: the bundled table, in table order, every rule
      compiled and without an entropy threshold. */
  function DefaultStaticRules(): (rs: seq<StaticRule>)
    ensures |rs| == |DefaultPatterns.Table| == 40
    ensures forall i :: 0 <= i < |rs| ==>
      rs[i].name == DefaultPatterns.Table[i].0 && rs[i].pattern == Some(Regex(DefaultPatterns.Table[i].1)) &&
      rs[i].minEntropy == 0.0
  {
    seq(|DefaultPatterns.Table|, i requires 0 <= i < |DefaultPatterns.Table| =>
      StaticRule(DefaultPatterns.Table[i].0, Some(Regex(DefaultPatterns.Table[i].1)), 0.0))
  }

  /** `DefaultDynamicRules`: three path-only rules. */
  const DefaultDynamicRules: seq<DynamicRule> := [
    DynamicRule(".env file", Some(Regex(@"^(.*/)*[-\w._]*\.env(\.[-\w._]*)?$")), None, 0.0),
    DynamicRule("Terraform state file", Some(Regex(@"^(.*/)*terraform.tfstate$")), None, 0.0),
    DynamicRule("AWS credentials file", Some(Regex(@"^(.*/)*\.aws/credentials$")), None, 0.0)
  ]

  /** The default dynamic rules look at file paths only. */
  lemma DefaultRulesShape()
    ensures forall i :: 0 <= i < |DefaultDynamicRules| ==>
      DefaultDynamicRules[i].pattern.None? && DefaultDynamicRules[i].filePattern.Some?
  {
  }

  /** The static inputs whose pattern fails to compile, in input order. */
  function FailingStatic(re: Re2, userRules: seq<UserStaticRule>): seq<UserStaticRule>
  {
    if |userRules| == 0 then []
    else
      var last := userRules[|userRules| - 1];
      FailingStatic(re, userRules[..|userRules| - 1]) + (if re.compiles(last.pattern) then [] else [last])
  }

  /** `ParseStaticRules`: one rule per input, in order; an input whose
      pattern fails to compile is still emitted, with a nil pattern, and is
      also reported. */
  method ParseStaticRules(re: Re2, userRules: seq<UserStaticRule>) returns (rules: seq<StaticRule>, errors: seq<UserStaticRule>)
    ensures |rules| == |userRules|
    ensures forall i :: 0 <= i < |userRules| ==>
      rules[i].name == userRules[i].name && rules[i].minEntropy == userRules[i].minEntropy &&
      rules[i].pattern == Compile(re, userRules[i].pattern)
    ensures errors == FailingStatic(re, userRules)
  {
    rules, errors := [], [];
    for i := 0 to |userRules|
      invariant |rules| == i
      invariant forall k :: 0 <= k < i ==>
        rules[k].name == userRules[k].name && rules[k].minEntropy == userRules[k].minEntropy &&
        rules[k].pattern == Compile(re, userRules[k].pattern)
      invariant errors == FailingStatic(re, userRules[..i])
    {
      var r := userRules[i];
      assert userRules[..i + 1][..i] == userRules[..i];
      var regex := Compile(re, r.pattern);
      if regex.None? {
        errors := errors + [r];
      }
      rules := rules + [StaticRule(r.name, regex, r.minEntropy)];
    }
    assert userRules[..|userRules|] == userRules;
  }

  /** An input is reported exactly when its pattern fails to compile. */
  lemma {:induction false} FailingStaticMember(re: Re2, userRules: seq<UserStaticRule>, u: UserStaticRule)
    ensures u in FailingStatic(re, userRules) <==> u in userRules && !re.compiles(u.pattern)
  {
    if |userRules| > 0 {
      var init := userRules[..|userRules| - 1];
      FailingStaticMember(re, init, u);
      assert userRules == init + [userRules[|userRules| - 1]];
    }
  }

  /** The report keeps the input order. */
  lemma {:induction false} FailingStaticAppend(re: Re2, a: seq<UserStaticRule>, b: seq<UserStaticRule>)
    ensures FailingStatic(re, a + b) == FailingStatic(re, a) + FailingStatic(re, b)
  {
    if |b| > 0 {
      assert (a + b)[..|a + b| - 1] == a + b[..|b| - 1];
      FailingStaticAppend(re, a, b[..|b| - 1]);
    } else {
      assert a + b == a;
    }
  }

  /** One dynamic input compiled: nothing when a given pattern fails to
      compile. */
  function CompileDynamic(re: Re2, u: UserDynamicRule): (r: Option<DynamicRule>)
    ensures r.None? <==> (u.filePattern != "" && !re.compiles(u.filePattern)) || (u.pattern != "" && !re.compiles(u.pattern))
    ensures r.Some? ==> r.value.name == u.name
    ensures r.Some? ==> (r.value.filePattern.None? <==> u.filePattern == "")
    ensures r.Some? && r.value.filePattern.Some? ==> r.value.filePattern.value.expr == u.filePattern
    ensures r.Some? ==> (r.value.pattern.None? <==> u.pattern == "")
    ensures r.Some? && r.value.pattern.Some? ==> r.value.pattern.value.expr == u.pattern && r.value.minEntropy == u.minEntropy
    ensures r.Some? && r.value.pattern.None? ==> r.value.minEntropy == 0.0
  {
    if u.filePattern != "" && !re.compiles(u.filePattern) then None
    else if u.pattern != "" && !re.compiles(u.pattern) then None
    else Some(DynamicRule(
      u.name,
      if u.filePattern != "" then Some(Regex(u.filePattern)) else None,
      if u.pattern != "" then Some(Regex(u.pattern)) else None,
      if u.pattern != "" then u.minEntropy else 0.0))
  }

  /** The compiled dynamic rules, in input order. */
  function CompiledDynamic(re: Re2, userRules: seq<UserDynamicRule>): seq<DynamicRule>
  {
    if |userRules| == 0 then []
    else
      var c := CompileDynamic(re, userRules[|userRules| - 1]);
      CompiledDynamic(re, userRules[..|userRules| - 1]) + (if c.Some? then [c.value] else [])
  }

  /** The dynamic inputs that failed, in input order. */
  function FailingDynamic(re: Re2, userRules: seq<UserDynamicRule>): seq<UserDynamicRule>
  {
    if |userRules| == 0 then []
    else
      var last := userRules[|userRules| - 1];
      FailingDynamic(re, userRules[..|userRules| - 1]) + (if CompileDynamic(re, last).Some? then [] else [last])
  }

  /** `ParseDynamicRules`: each input lands either among the rules or among
      the errors. */
  method ParseDynamicRules(re: Re2, userRules: seq<UserDynamicRule>) returns (rules: seq<DynamicRule>, errors: seq<UserDynamicRule>)
    ensures rules == CompiledDynamic(re, userRules)
    ensures errors == FailingDynamic(re, userRules)
  {
    rules, errors := [], [];
    for i := 0 to |userRules|
      invariant rules == CompiledDynamic(re, userRules[..i])
      invariant errors == FailingDynamic(re, userRules[..i])
    {
      var r := userRules[i];
      assert userRules[..i + 1][..i] == userRules[..i];
      var rule := DynamicRule(r.name, None, None, 0.0);
      if r.filePattern != "" {
        var regex := Compile(re, r.filePattern);
        if regex.None? {
          errors := errors + [r];
          continue;
        }
        rule := rule.(filePattern := regex);
      }
      if r.pattern != "" {
        var regex := Compile(re, r.pattern);
        if regex.None? {
          errors := errors + [r];
          continue;
        }
        rule := rule.(pattern := regex, minEntropy := r.minEntropy);
      }
      rules := rules + [rule];
    }
    assert userRules[..|userRules|] == userRules;
  }

  /** Every input lands in exactly one of the two outputs. */
  lemma {:induction false} DynamicPartition(re: Re2, userRules: seq<UserDynamicRule>)
    ensures |CompiledDynamic(re, userRules)| + |FailingDynamic(re, userRules)| == |userRules|
  {
    if |userRules| > 0 { DynamicPartition(re, userRules[..|userRules| - 1]); }
  }

  /** A rule is produced exactly when it is the compilation of some input; an
      input is reported exactly when it fails to compile. */
  lemma {:induction false} DynamicMember(re: Re2, userRules: seq<UserDynamicRule>, rule: DynamicRule, u: UserDynamicRule)
    ensures rule in CompiledDynamic(re, userRules) <==> exists v :: v in userRules && CompileDynamic(re, v) == Some(rule)
    ensures u in FailingDynamic(re, userRules) <==> u in userRules && CompileDynamic(re, u).None?
  {
    if |userRules| > 0 {
      var init, last := userRules[..|userRules| - 1], userRules[|userRules| - 1];
      DynamicMember(re, init, rule, u);
      assert userRules == init + [last];
      if exists v :: v in userRules && CompileDynamic(re, v) == Some(rule) {
        var v :| v in userRules && CompileDynamic(re, v) == Some(rule);
        if v != last { assert v in init; }
      }
    }
  }
}

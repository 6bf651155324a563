/** pkg/layers/detector.go: the layer detector, which runs the legacy
    matcher over an image's build arguments and then its environment. */
module Layers {
  import opened Wrappers
  import opened Foreign
  import opened ImageTypes
  import opened Common

  const BuildArgsFailure: string := "an unknown error occurred while parsing build arguments"
  const EnvVarsFailure: string := "an unknown error occurred while parsing environment variables"

  /** One detection per match found in one variable's value. */
  function MatchDetections(v: NameValue, matches: seq<SecretStringMatch>, source: string): (ds: seq<SecretString>)
    ensures |ds| == |matches|
    ensures forall k :: 0 <= k < |matches| ==>
      ds[k] == SecretString(matches[k].rule.name, v.location, matches[k].value, source)
  {
    if |matches| == 0 then []
    else
      MatchDetections(v, matches[..|matches| - 1], source) +
      [SecretString(matches[|matches| - 1].rule.name, v.location, matches[|matches| - 1].value, source)]
  }

  /** The reference result for one loop of `Detect`: each variable's
      detections, in input order. */
  function VarDetections(re: Re2, rules: seq<SecretStringRule>, vars: seq<NameValue>, source: string): seq<SecretString>
    requires AllCompiled(rules)
  {
    if |vars| == 0 then []
    else
      var v := vars[|vars| - 1];
      VarDetections(re, rules, vars[..|vars| - 1], source) + MatchDetections(v, Matches(re, v.value, rules), source)
  }

  /** The reference result of `Detect`. */
  function Detected(re: Re2, rules: seq<SecretStringRule>, img: Image): Result<seq<SecretString>>
    requires AllCompiled(rules)
  {
    if img.buildArgs.Err? then Err(Error(BuildArgsFailure))
    else if img.envVars.Err? then Err(Error(EnvVarsFailure))
    else Ok(VarDetections(re, rules, img.buildArgs.value, Common.BuildArgument) + VarDetections(re, rules, img.envVars.value, Common.EnvVar))
  }

  /** The layer `Detector`: its rules and the image it inspects. Both update
      operations return a new detector value. */
  datatype Detector = Detector(patterns: seq<SecretStringRule>, img: Image)
  {
    /** `WithRules`: the given rules after the current ones, so repeating a
        call repeats the rules. */
    function WithRules(rules: seq<SecretStringRule>): (d: Detector)
      ensures d.img == img
      ensures |d.patterns| == |patterns| + |rules|
      ensures d.patterns[..|patterns|] == patterns && d.patterns[|patterns|..] == rules
    {
      this.(patterns := patterns + rules)
    }

    /** `UseDefaultRules`: the default rules after the current ones. */
    function UseDefaultRules(): (d: Detector)
      ensures d.img == img
      ensures |d.patterns| == |patterns| + 40
      ensures d.patterns[..|patterns|] == patterns && d.patterns[|patterns|..] == DefaultRules()
      ensures AllCompiled(patterns) ==> AllCompiled(d.patterns)
    {
      var d := this.(patterns := patterns + DefaultRules());
      assert forall i :: |patterns| <= i < |d.patterns| ==> d.patterns[i] == DefaultRules()[i - |patterns|];
      d
    }

    /** `Detect`: a build-argument failure is reported before environment
        variables are looked at; an environment failure discards the
        build-argument detections; otherwise all build-argument detections
        come first. Calling the matcher on a nil pattern would fail, so the
        rules must be compiled. */
    method Detect(re: Re2) returns (r: Result<seq<SecretString>>)
      requires AllCompiled(patterns)
      ensures r == Detected(re, patterns, img)
    {
      if img.buildArgs.Err? {
        return Err(Error(BuildArgsFailure));
      }
      var detections := AppendVars(re, [], img.buildArgs.value, Common.BuildArgument);
      assert detections == VarDetections(re, patterns, img.buildArgs.value, Common.BuildArgument);
      if img.envVars.Err? {
        return Err(Error(EnvVarsFailure));
      }
      detections := AppendVars(re, detections, img.envVars.value, Common.EnvVar);
      return Ok(detections);
    }

    /** One loop of `Detect`: the variables' detections after those found so
        far. */
    method AppendVars(re: Re2, detections: seq<SecretString>, vars: seq<NameValue>, source: string) returns (out: seq<SecretString>)
      requires AllCompiled(patterns)
      ensures out == detections + VarDetections(re, patterns, vars, source)
    {
      out := detections;
      for i := 0 to |vars|
        invariant out == detections + VarDetections(re, patterns, vars[..i], source)
      {
        VarDetectionsStep(re, patterns, vars, i, source);
        out := AppendMatches(re, out, vars[i], source);
      }
      assert vars[..|vars|] == vars;
    }

    /** The inner loop of `Detect` for one variable. */
    method AppendMatches(re: Re2, detections: seq<SecretString>, v: NameValue, source: string) returns (out: seq<SecretString>)
      requires AllCompiled(patterns)
      ensures out == detections + MatchDetections(v, Matches(re, v.value, patterns), source)
    {
      var matches := FindRuleMatches(re, v.value, patterns);
      out := detections;
      for k := 0 to |matches|
        invariant out == detections + MatchDetections(v, matches[..k], source)
      {
        assert matches[..k + 1][..k] == matches[..k];
        out := out + [SecretString(matches[k].rule.name, v.location, matches[k].value, source)];
      }
      assert matches[..|matches|] == matches;
    }
  }

  /** One more variable adds its detections at the end. */
  lemma VarDetectionsStep(re: Re2, rules: seq<SecretStringRule>, vars: seq<NameValue>, i: nat, source: string)
    requires AllCompiled(rules) && i < |vars|
    ensures VarDetections(re, rules, vars[..i + 1], source) ==
      VarDetections(re, rules, vars[..i], source) + MatchDetections(vars[i], Matches(re, vars[i].value, rules), source)
  {
    assert vars[..i + 1][..i] == vars[..i];
  }

  /** `NewDetector`: no rules yet. */
  function NewDetector(img: Image): (d: Detector)
    ensures d.patterns == [] && d.img == img
  {
    Detector([], img)
  }

  /** Each variable yields one detection per match of its value, so a loop
      yields as many detections as its variables have submatches. */
  lemma {:induction false} VarDetectionsCount(re: Re2, rules: seq<SecretStringRule>, vars: seq<NameValue>, source: string)
    requires AllCompiled(rules)
    ensures |VarDetections(re, rules, vars, source)| == VarSubmatchTotal(re, rules, vars)
  {
    if |vars| > 0 {
      VarDetectionsCount(re, rules, vars[..|vars| - 1], source);
      MatchCount(re, vars[|vars| - 1].value, rules);
    }
  }

  /** The number of submatches all the rules find in all the values. */
  function VarSubmatchTotal(re: Re2, rules: seq<SecretStringRule>, vars: seq<NameValue>): nat
    requires AllCompiled(rules)
  {
    if |vars| == 0 then 0
    else VarSubmatchTotal(re, rules, vars[..|vars| - 1]) + SubmatchTotal(re, vars[|vars| - 1].value, rules)
  }

  /** A detection comes from some variable and some match of its value: it
      carries the rule's name, the match as value, the variable's location
      and the loop's source. */
  lemma {:induction false} VarDetectionsMember(re: Re2, rules: seq<SecretStringRule>, vars: seq<NameValue>, source: string, d: SecretString)
    requires AllCompiled(rules)
    ensures d in VarDetections(re, rules, vars, source) <==>
      exists v, m :: v in vars && m in Matches(re, v.value, rules) &&
        d == SecretString(m.rule.name, v.location, m.value, source)
  {
    if |vars| > 0 {
      var init, last := vars[..|vars| - 1], vars[|vars| - 1];
      VarDetectionsMember(re, rules, init, source, d);
      assert vars == init + [last];
      var lastMatches := Matches(re, last.value, rules);
      if d in MatchDetections(last, lastMatches, source) {
        var k :| 0 <= k < |lastMatches| && MatchDetections(last, lastMatches, source)[k] == d;
        assert lastMatches[k] in lastMatches;
      }
      if exists v, m :: v in vars && m in Matches(re, v.value, rules) &&
          d == SecretString(m.rule.name, v.location, m.value, source) {
        var v, m :| v in vars && m in Matches(re, v.value, rules) &&
          d == SecretString(m.rule.name, v.location, m.value, source);
        if v == last {
          var k :| 0 <= k < |lastMatches| && lastMatches[k] == m;
          assert MatchDetections(last, lastMatches, source)[k] == d;
        } else {
          assert v in init;
        }
      }
    }
  }

  /** Every detection of a loop carries that loop's source. */
  lemma {:induction false} VarDetectionsSource(re: Re2, rules: seq<SecretStringRule>, vars: seq<NameValue>, source: string)
    requires AllCompiled(rules)
    ensures forall d :: d in VarDetections(re, rules, vars, source) ==> d.source == source
  {
    if |vars| > 0 {
      VarDetectionsSource(re, rules, vars[..|vars| - 1], source);
    }
  }

  /** All build-argument detections precede all environment detections. */
  lemma BuildArgsFirst(re: Re2, rules: seq<SecretStringRule>, img: Image)
    requires AllCompiled(rules)
    requires Detected(re, rules, img).Ok?
    ensures var ds := Detected(re, rules, img).value;
      forall i, j :: 0 <= i < j < |ds| && ds[i].source == Common.EnvVar ==> ds[j].source == Common.EnvVar
  {
    var b := VarDetections(re, rules, img.buildArgs.value, Common.BuildArgument);
    var e := VarDetections(re, rules, img.envVars.value, Common.EnvVar);
    VarDetectionsSource(re, rules, img.buildArgs.value, Common.BuildArgument);
    VarDetectionsSource(re, rules, img.envVars.value, Common.EnvVar);
    var ds := b + e;
    assert forall k :: 0 <= k < |b| ==> ds[k] == b[k] && ds[k] in b;
    assert forall k :: |b| <= k < |ds| ==> ds[k] == e[k - |b|] && ds[k] in e;
  }
}

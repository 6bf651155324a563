/** pkg/detections/regex.go with the record and constants of
    pkg/detections/types.go: the first-match regular expression detector. */
module Detections {
  import opened Wrappers
  import opened Foreign
  import opened ImageTypes

  /** The `SecretSource` constants. */
  const EnvVarSecret: string := "environment variable"
  const BuildArgSecret: string := "build argument"

  /** The `DetectionType` constants. */
  const RegexDetection: string := "regular expression"

  /** A reported secret; Go's `Type` field is `kind` here. */
  datatype Detection = Detection(kind: string, name: string, location: string, value: string, source: string)

  /** An expression and the name of the secret it finds. Go's field is a
      pointer, so `None` stands for a nil `RegExp`. */
  datatype Pattern = Pattern(regExp: Option<Regex>, name: string)

  /** `MatchString` on a nil pattern fails, so the detector needs every
      pattern compiled. */
  predicate AllCompiled(patterns: seq<Pattern>)
  {
    forall p :: p in patterns ==> p.regExp.Some?
  }

  /** The name of the first pattern, in list order, that matches `s`. */
  function FirstMatch(re: Re2, patterns: seq<Pattern>, s: string): Option<string>
    requires AllCompiled(patterns)
  {
    if |patterns| == 0 then None
    else if re.matchString(patterns[0].regExp.value, s) then Some(patterns[0].name)
    else FirstMatch(re, patterns[1..], s)
  }

  /** The detection one variable yields, if any. */
  function DetectionOf(re: Re2, patterns: seq<Pattern>, v: NameValue, source: string): Option<Detection>
    requires AllCompiled(patterns)
  {
    match FirstMatch(re, patterns, v.value)
    case None => None
    case Some(name) => Some(Detection(RegexDetection, name, v.location, v.value, source))
  }

  /** The reference result: the variables' detections, in input order. */
  function Evaluated(re: Re2, patterns: seq<Pattern>, vars: seq<NameValue>, source: string): seq<Detection>
    requires AllCompiled(patterns)
  {
    if |vars| == 0 then []
    else
      var d := DetectionOf(re, patterns, vars[|vars| - 1], source);
      Evaluated(re, patterns, vars[..|vars| - 1], source) + (if d.Some? then [d.value] else [])
  }

  /** The `Regexp` detector. */
  datatype Regexp = Regexp(patterns: seq<Pattern>)
  {
    /** `findMatch`: an early-return scan over the patterns. */
    method FindMatch(re: Re2, s: string) returns (name: string, found: bool)
      requires AllCompiled(patterns)
      ensures found <==> FirstMatch(re, patterns, s).Some?
      ensures found ==> name == FirstMatch(re, patterns, s).value
      ensures !found ==> name == ""
    {
      for i := 0 to |patterns|
        invariant FirstMatch(re, patterns, s) == FirstMatch(re, patterns[i..], s)
      {
        assert patterns[i..][1..] == patterns[i + 1..];
        if re.matchString(patterns[i].regExp.value, s) {
          return patterns[i].name, true;
        }
      }
      return "", false;
    }

    /** The loop `EvalEnvVars` and `EvalBuildArgs` share: at most one
        detection per variable, tagged with `source`. */
    method Evaluate(re: Re2, vars: seq<NameValue>, source: string) returns (detections: seq<Detection>)
      requires AllCompiled(patterns)
      ensures detections == Evaluated(re, patterns, vars, source)
    {
      detections := [];
      for i := 0 to |vars|
        invariant detections == Evaluated(re, patterns, vars[..i], source)
      {
        var v := vars[i];
        assert vars[..i + 1][..i] == vars[..i];
        var name, found := FindMatch(re, v.value);
        if found {
          detections := detections + [Detection(RegexDetection, name, v.location, v.value, source)];
        }
      }
      assert vars[..|vars|] == vars;
    }

    /** `EvalEnvVars`. */
    method EvalEnvVars(re: Re2, envVars: seq<EnvVar>) returns (detections: seq<Detection>)
      requires AllCompiled(patterns)
      ensures detections == Evaluated(re, patterns, envVars, EnvVarSecret)
    {
      detections := Evaluate(re, envVars, EnvVarSecret);
    }

    /** `EvalBuildArgs`. */
    method EvalBuildArgs(re: Re2, buildArgs: seq<BuildArg>) returns (detections: seq<Detection>)
      requires AllCompiled(patterns)
      ensures detections == Evaluated(re, patterns, buildArgs, BuildArgSecret)
    {
      detections := Evaluate(re, buildArgs, BuildArgSecret);
    }
  }

  /** `NewRegexDetector`: never fails, and keeps the patterns as given. */
  function NewRegexDetector(patterns: seq<Pattern>): (r: (Regexp, Option<Error>))
    ensures r.1.None?
    ensures r.0.patterns == patterns
  {
    (Regexp(patterns), None)
  }

  /** The first match is the one at the smallest matching index: every
      earlier pattern fails on `s`; no match means no pattern matches. */
  lemma {:induction false} FirstMatchMeaning(re: Re2, patterns: seq<Pattern>, s: string)
    requires AllCompiled(patterns)
    ensures FirstMatch(re, patterns, s).None? <==> forall i :: 0 <= i < |patterns| ==> !re.matchString(patterns[i].regExp.value, s)
    ensures FirstMatch(re, patterns, s).Some? ==>
      exists i :: 0 <= i < |patterns| && re.matchString(patterns[i].regExp.value, s) &&
        patterns[i].name == FirstMatch(re, patterns, s).value &&
        forall j :: 0 <= j < i ==> !re.matchString(patterns[j].regExp.value, s)
  {
    if |patterns| > 0 && !re.matchString(patterns[0].regExp.value, s) {
      var rest := patterns[1..];
      FirstMatchMeaning(re, rest, s);
      if FirstMatch(re, rest, s).Some? {
        var i :| 0 <= i < |rest| && re.matchString(rest[i].regExp.value, s) &&
          rest[i].name == FirstMatch(re, rest, s).value &&
          forall j :: 0 <= j < i ==> !re.matchString(rest[j].regExp.value, s);
        assert patterns[i + 1] == rest[i];
        forall j | 0 <= j < i + 1
          ensures !re.matchString(patterns[j].regExp.value, s)
        {
          if j > 0 { assert patterns[j] == rest[j - 1]; }
        }
      } else {
        forall i | 0 <= i < |patterns|
          ensures !re.matchString(patterns[i].regExp.value, s)
        {
          if i > 0 { assert patterns[i] == rest[i - 1]; }
        }
      }
    }
  }

  /** A detection is reported exactly for a variable whose value some pattern
      matches; it names the first such pattern, is a regular-expression
      detection of the given source, and copies the value and location. */
  lemma {:induction false} EvaluatedMember(re: Re2, patterns: seq<Pattern>, vars: seq<NameValue>, source: string, d: Detection)
    requires AllCompiled(patterns)
    ensures d in Evaluated(re, patterns, vars, source) <==>
      exists v :: v in vars && FirstMatch(re, patterns, v.value) == Some(d.name) &&
        d == Detection(RegexDetection, d.name, v.location, v.value, source)
  {
    if |vars| > 0 {
      var init, last := vars[..|vars| - 1], vars[|vars| - 1];
      EvaluatedMember(re, patterns, init, source, d);
      assert vars == init + [last];
      if exists v :: v in vars && FirstMatch(re, patterns, v.value) == Some(d.name) &&
          d == Detection(RegexDetection, d.name, v.location, v.value, source) {
        var v :| v in vars && FirstMatch(re, patterns, v.value) == Some(d.name) &&
          d == Detection(RegexDetection, d.name, v.location, v.value, source);
        if v != last { assert v in init; }
      }
    }
  }

  /** At most one detection per variable. */
  lemma {:induction false} EvaluatedLength(re: Re2, patterns: seq<Pattern>, vars: seq<NameValue>, source: string)
    requires AllCompiled(patterns)
    ensures |Evaluated(re, patterns, vars, source)| <= |vars|
  {
    if |vars| > 0 { EvaluatedLength(re, patterns, vars[..|vars| - 1], source); }
  }

  /** Detections keep the input order. */
  lemma {:induction false} EvaluatedAppend(re: Re2, patterns: seq<Pattern>, a: seq<NameValue>, b: seq<NameValue>, source: string)
    requires AllCompiled(patterns)
    ensures Evaluated(re, patterns, a + b, source) == Evaluated(re, patterns, a, source) + Evaluated(re, patterns, b, source)
  {
    if |b| > 0 {
      assert (a + b)[..|a + b| - 1] == a + b[..|b| - 1];
      EvaluatedAppend(re, patterns, a, b[..|b| - 1], source);
    } else {
      assert a + b == a;
    }
  }
}

/** pkg/analysis/static.go, with the `Source` and `Finding` records of
    pkg/analysis/finding.go: run a secrets detector over an image's
    environment and then its build arguments. */
module Analysis {
  import opened Wrappers
  import opened Foreign
  import opened SecretRules
  import opened StaticSearch
  import ImageTypes

  /** Where a finding came from. */
  datatype Source = BuildArgument | EnvVar | File
  {
    /** The `Source` string constants. */
    function Name(): (s: string)
      ensures this == BuildArgument ==> s == "build-arg"
      ensures this == EnvVar ==> s == "env-var"
      ensures this == File ==> s == "file"
    {
      match this
      case BuildArgument => "build-arg"
      case EnvVar => "env-var"
      case File => "file"
    }
  }

  /** The three names are distinct, so a finding's source string names its
      source. */
  lemma NamesDistinct(a: Source, b: Source)
    ensures a.Name() == b.Name() <==> a == b
  {
  }

  /** A finding as static.go builds it: the secret's display string, the
      rule and the source. It carries no location or path. */
  datatype Finding = Finding(secret: string, rule: StaticRule, source: Source)

  /** One finding per match, in match order. */
  function FindingsOf(matches: seq<TextMatch>, source: Source, unmask: bool): (fs: seq<Finding>)
    ensures |fs| == |matches|
    ensures forall k :: 0 <= k < |matches| ==>
      fs[k] == Finding(matches[k].secret.ToString(unmask), matches[k].rule, source)
  {
    if |matches| == 0 then []
    else
      var m := matches[|matches| - 1];
      FindingsOf(matches[..|matches| - 1], source, unmask) + [Finding(m.secret.ToString(unmask), m.rule, source)]
  }

  /** The reference result of one loop: the values searched in order, the
      first search error ending it. `search` is the detector's `SearchText`. */
  function Searched(search: string -> Result<seq<TextMatch>>, vars: seq<ImageTypes.NameValue>, source: Source, unmask: bool): Result<seq<Finding>>
  {
    if |vars| == 0 then Ok([])
    else
      match Searched(search, vars[..|vars| - 1], source, unmask)
      case Err(e) => Err(e)
      case Ok(fs) =>
        match search(vars[|vars| - 1].value)
        case Err(e) => Err(e)
        case Ok(ms) => Ok(fs + FindingsOf(ms, source, unmask))
  }

  /** The reference result of `Static`. */
  function Analysed(img: ImageTypes.Image, search: string -> Result<seq<TextMatch>>, unmask: bool): Result<seq<Finding>>
  {
    if img.envVars.Err? then Err(img.envVars.error)
    else
      match Searched(search, img.envVars.value, EnvVar, unmask)
      case Err(e) => Err(e)
      case Ok(fromEnv) =>
        if img.buildArgs.Err? then Err(img.buildArgs.error)
        else
          match Searched(search, img.buildArgs.value, BuildArgument, unmask)
          case Err(e) => Err(e)
          case Ok(fromArgs) => Ok(fromEnv + fromArgs)
  }

  /** `Static`: each retrieval or search error is returned at once, and the
      findings gathered so far are discarded; the environment is searched
      before the build arguments. `unmask` is the viper unmask flag that
      `Secret.String` reads. */
  method Static(img: ImageTypes.Image, search: string -> Result<seq<TextMatch>>, unmask: bool) returns (r: Result<seq<Finding>>)
    ensures r == Analysed(img, search, unmask)
  {
    if img.envVars.Err? {
      return Err(img.envVars.error);
    }
    var fromEnv := SearchAll(search, img.envVars.value, EnvVar, unmask);
    if fromEnv.Err? {
      return Err(fromEnv.error);
    }
    if img.buildArgs.Err? {
      return Err(img.buildArgs.error);
    }
    var fromArgs := SearchAll(search, img.buildArgs.value, BuildArgument, unmask);
    if fromArgs.Err? {
      return Err(fromArgs.error);
    }
    return Ok(fromEnv.value + fromArgs.value);
  }

  /** One loop of `Static`. */
  method SearchAll(search: string -> Result<seq<TextMatch>>, vars: seq<ImageTypes.NameValue>, source: Source, unmask: bool)
    returns (r: Result<seq<Finding>>)
    ensures r == Searched(search, vars, source, unmask)
  {
    var findings: seq<Finding> := [];
    for i := 0 to |vars|
      invariant Searched(search, vars[..i], source, unmask) == Ok(findings)
    {
      var matches := search(vars[i].value);
      if matches.Err? {
        SearchedStep(search, vars, i, source, unmask);
        SearchedErrorSticks(search, vars, i + 1, source, unmask);
        return Err(matches.error);
      }
      SearchedStep(search, vars, i, source, unmask);
      findings := AppendFindings(findings, matches.value, source, unmask);
    }
    assert vars[..|vars|] == vars;
    return Ok(findings);
  }

  /** The inner loop of `Static` for one value's matches. */
  method AppendFindings(findings: seq<Finding>, matches: seq<TextMatch>, source: Source, unmask: bool) returns (out: seq<Finding>)
    ensures out == findings + FindingsOf(matches, source, unmask)
  {
    out := findings;
    for k := 0 to |matches|
      invariant out == findings + FindingsOf(matches[..k], source, unmask)
    {
      assert matches[..k + 1][..k] == matches[..k];
      out := out + [Finding(matches[k].secret.ToString(unmask), matches[k].rule, source)];
    }
    assert matches[..|matches|] == matches;
  }

  /** One more value extends a successful loop by its findings, or ends it
      with its search error. */
  lemma SearchedStep(search: string -> Result<seq<TextMatch>>, vars: seq<ImageTypes.NameValue>, i: nat, source: Source, unmask: bool)
    requires i < |vars| && Searched(search, vars[..i], source, unmask).Ok?
    ensures search(vars[i].value).Err? ==> Searched(search, vars[..i + 1], source, unmask) == Err(search(vars[i].value).error)
    ensures search(vars[i].value).Ok? ==>
      Searched(search, vars[..i + 1], source, unmask) ==
      Ok(Searched(search, vars[..i], source, unmask).value + FindingsOf(search(vars[i].value).value, source, unmask))
  {
    assert vars[..i + 1][..i] == vars[..i];
  }

  /** Once a prefix of the values ends in an error, so does the whole loop,
      with that error. */
  lemma {:induction false} SearchedErrorSticks(search: string -> Result<seq<TextMatch>>, vars: seq<ImageTypes.NameValue>, i: nat, source: Source, unmask: bool)
    requires i <= |vars| && Searched(search, vars[..i], source, unmask).Err?
    ensures Searched(search, vars, source, unmask) == Searched(search, vars[..i], source, unmask)
  {
    if i == |vars| {
      assert vars[..i] == vars;
    } else {
      var init := vars[..|vars| - 1];
      assert init[..i] == vars[..i];
      SearchedErrorSticks(search, init, i, source, unmask);
    }
  }

  /** A loop fails exactly when some search fails, and then with the error
      of the first failing search. */
  lemma {:induction false} SearchedError(search: string -> Result<seq<TextMatch>>, vars: seq<ImageTypes.NameValue>, source: Source, unmask: bool)
    ensures Searched(search, vars, source, unmask).Err? <==> exists i :: 0 <= i < |vars| && search(vars[i].value).Err?
    ensures Searched(search, vars, source, unmask).Err? ==>
      exists i :: 0 <= i < |vars| && search(vars[i].value) == Err(Searched(search, vars, source, unmask).error) &&
        forall j :: 0 <= j < i ==> search(vars[j].value).Ok?
  {
    if |vars| > 0 {
      var init := vars[..|vars| - 1];
      SearchedError(search, init, source, unmask);
      assert forall i :: 0 <= i < |init| ==> init[i] == vars[i];
    }
  }

  /** Every finding of a loop carries that loop's source, and a successful
      loop yields one finding per match. */
  lemma {:induction false} SearchedFindings(search: string -> Result<seq<TextMatch>>, vars: seq<ImageTypes.NameValue>, source: Source, unmask: bool)
    requires Searched(search, vars, source, unmask).Ok?
    ensures forall f :: f in Searched(search, vars, source, unmask).value ==> f.source == source
    ensures |Searched(search, vars, source, unmask).value| == MatchTotal(search, vars)
  {
    if |vars| > 0 {
      SearchedFindings(search, vars[..|vars| - 1], source, unmask);
    }
  }

  /** How many matches the searches of a loop return, when all succeed. */
  function MatchTotal(search: string -> Result<seq<TextMatch>>, vars: seq<ImageTypes.NameValue>): nat
  {
    if |vars| == 0 then 0
    else
      var r := search(vars[|vars| - 1].value);
      MatchTotal(search, vars[..|vars| - 1]) + (if r.Ok? then |r.value| else 0)
  }

  /** All environment findings precede all build-argument findings. */
  lemma EnvFirst(img: ImageTypes.Image, search: string -> Result<seq<TextMatch>>, unmask: bool)
    requires Analysed(img, search, unmask).Ok?
    ensures var fs := Analysed(img, search, unmask).value;
      forall i, j :: 0 <= i < j < |fs| && fs[i].source == BuildArgument ==> fs[j].source == BuildArgument
  {
    var a := Searched(search, img.envVars.value, EnvVar, unmask).value;
    var b := Searched(search, img.buildArgs.value, BuildArgument, unmask).value;
    SearchedFindings(search, img.envVars.value, EnvVar, unmask);
    SearchedFindings(search, img.buildArgs.value, BuildArgument, unmask);
    assert Analysed(img, search, unmask).value == a + b;
    SourcesInOrder(a, b);
  }

  lemma SourcesInOrder(a: seq<Finding>, b: seq<Finding>)
    requires forall f :: f in a ==> f.source == EnvVar
    requires forall f :: f in b ==> f.source == BuildArgument
    ensures forall i, j :: 0 <= i < j < |a + b| && (a + b)[i].source == BuildArgument ==> (a + b)[j].source == BuildArgument
  {
    var fs := a + b;
    assert forall k :: 0 <= k < |a| ==> fs[k] == a[k] && fs[k] in a;
    assert forall k :: |a| <= k < |fs| ==> fs[k] == b[k - |a|] && fs[k] in b;
  }

  /** With the secrets detector's `SearchText`, which never fails, `Static`
      fails only when the image cannot be read. */
  lemma WithStaticDetector(img: ImageTypes.Image, re: Re2, shannon: string -> real, rules: seq<StaticRule>,
                           search: string -> Result<seq<TextMatch>>, unmask: bool)
    requires AllCompiled(rules)
    requires forall t :: search(t) == Ok(StaticMatches(re, shannon, t, rules))
    ensures Analysed(img, search, unmask).Err? <==> img.envVars.Err? || img.buildArgs.Err?
  {
    if img.envVars.Ok? {
      SearchedError(search, img.envVars.value, EnvVar, unmask);
    }
    if img.buildArgs.Ok? {
      SearchedError(search, img.buildArgs.value, BuildArgument, unmask);
    }
  }
}

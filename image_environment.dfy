/** pkg/image/enviornment.go: splitting the image's `NAME=VALUE` strings. */
module EnvVars {
  import opened Wrappers
  import opened ImageTypes

  /** Index of the first `=` in `s`, or `|s|` when there is none. */
  function FirstEquals(s: string): (k: nat)
    ensures k <= |s|
    ensures forall i :: 0 <= i < k ==> s[i] != '='
    ensures k < |s| ==> s[k] == '='
  {
    if |s| == 0 then 0 else if s[0] == '=' then 0 else 1 + FirstEquals(s[1..])
  }

  /** `strings.SplitN(env, "=", 2)` followed by the two-part check: a variable
      for an entry holding an `=`, nothing for one without. */
  function SplitEnv(env: string): (r: Option<EnvVar>)
    ensures r.None? <==> '=' !in env
    ensures r.Some? ==> '=' !in r.value.name
    ensures r.Some? ==> r.value.name + "=" + r.value.value == env
    ensures r.Some? ==> r.value.location == env
  {
    var k := FirstEquals(env);
    if k == |env| then None
    else
      assert env == env[..k] + "=" + env[k + 1..];
      Some(NameValue(env[..k], env[k + 1..], env))
  }

  /** The kept entries, in input order. */
  function KeptEnv(envs: seq<string>): seq<EnvVar>
  {
    if |envs| == 0 then []
    else
      var last := SplitEnv(envs[|envs| - 1]);
      KeptEnv(envs[..|envs| - 1]) + (if last.Some? then [last.value] else [])
  }

  /** `parseEnvVars` from the inspect call onward: an inspect error is
      returned as is; otherwise every entry without `=` is skipped and the
      call succeeds. */
  method ParseEnvVars(inspect: Result<seq<string>>) returns (r: Result<seq<EnvVar>>)
    ensures inspect.Err? ==> r == Err(inspect.error)
    ensures inspect.Ok? ==> r == Ok(KeptEnv(inspect.value))
  {
    if inspect.Err? {
      return Err(inspect.error);
    }
    var envs := inspect.value;
    var vars: seq<EnvVar> := [];
    for i := 0 to |envs|
      invariant vars == KeptEnv(envs[..i])
    {
      assert envs[..i + 1][..i] == envs[..i];
      var split := SplitEnv(envs[i]);
      if split.None? {
        continue;
      }
      vars := vars + [split.value];
    }
    assert envs[..|envs|] == envs;
    return Ok(vars);
  }

  /** Splitting distributes over concatenation, so the output keeps the
      input's order. */
  lemma {:induction false} KeptEnvAppend(a: seq<string>, b: seq<string>)
    ensures KeptEnv(a + b) == KeptEnv(a) + KeptEnv(b)
  {
    if |b| == 0 {
      assert a + b == a;
    } else {
      assert (a + b)[..|a + b| - 1] == a + b[..|b| - 1];
      KeptEnvAppend(a, b[..|b| - 1]);
    }
  }

  /** Never longer than the input. */
  lemma {:induction false} KeptEnvLength(envs: seq<string>)
    ensures |KeptEnv(envs)| <= |envs|
  {
    if |envs| > 0 { KeptEnvLength(envs[..|envs| - 1]); }
  }

  /** A variable is in the output exactly when it is the split of some input
      entry; every kept entry has a name without `=` and rejoins to its
      location. */
  lemma {:induction false} KeptEnvMember(envs: seq<string>, v: EnvVar)
    ensures v in KeptEnv(envs) <==> v.location in envs && SplitEnv(v.location) == Some(v)
    ensures v in KeptEnv(envs) ==> '=' !in v.name && v.name + "=" + v.value == v.location
  {
    if |envs| > 0 {
      var init := envs[..|envs| - 1];
      KeptEnvMember(init, v);
      assert envs == init + [envs[|envs| - 1]];
    }
  }

  /** Entries without `=` vanish without trace. */
  lemma {:induction false} EntriesWithoutEqualsSkipped(envs: seq<string>)
    requires forall i :: 0 <= i < |envs| ==> '=' !in envs[i]
    ensures KeptEnv(envs) == []
  {
    if |envs| > 0 { EntriesWithoutEqualsSkipped(envs[..|envs| - 1]); }
  }
}

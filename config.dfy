/** internal/config: the user-declared rule records (configfile.go) and the
    legacy rule compiler `ParseRules` (config.go). */
module Config {
  import opened Wrappers
  import opened Foreign
  import Common

  /** A legacy user rule: pattern source, name, minimum entropy. */
  datatype UserRule = UserRule(pattern: string, name: string, entropy: real)

  /** A user static rule. */
  datatype UserStaticRule = UserStaticRule(pattern: string, name: string, minEntropy: real)

  /** A user dynamic rule; an empty pattern string means "not given". */
  datatype UserDynamicRule = UserDynamicRule(name: string, filePattern: string, pattern: string, minEntropy: real)

  /** The inputs whose pattern fails to compile, in input order. */
  function InvalidRules(re: Re2, userRules: seq<UserRule>): seq<UserRule>
  {
    if |userRules| == 0 then []
    else
      var last := userRules[|userRules| - 1];
      InvalidRules(re, userRules[..|userRules| - 1]) + (if re.compiles(last.pattern) then [] else [last])
  }

  /** The rules `ParseRules` builds: one per input, in order, with the name
      and entropy copied and the pattern compiled (nil when it fails). */
  function ParsedRules(re: Re2, userRules: seq<UserRule>): (rs: seq<Common.SecretStringRule>)
    ensures |rs| == |userRules|
    ensures forall i :: 0 <= i < |userRules| ==>
      rs[i].name == userRules[i].name && rs[i].entropy == userRules[i].entropy &&
      rs[i].pattern == Compile(re, userRules[i].pattern)
  {
    seq(|userRules|, i requires 0 <= i < |userRules| =>
      Common.SecretStringRule(userRules[i].name, Compile(re, userRules[i].pattern), userRules[i].entropy))
  }

  /** `ParseRules`: one rule per input, in order, a failing input included
      with a nil pattern; the failing inputs are also reported. */
  method ParseRules(re: Re2, userRules: seq<UserRule>) returns (rules: seq<Common.SecretStringRule>, errors: seq<UserRule>)
    ensures |rules| == |userRules|
    ensures forall i :: 0 <= i < |userRules| ==>
      rules[i].name == userRules[i].name && rules[i].entropy == userRules[i].entropy &&
      rules[i].pattern == Compile(re, userRules[i].pattern)
    ensures rules == ParsedRules(re, userRules)
    ensures errors == InvalidRules(re, userRules)
  {
    rules, errors := [], [];
    for i := 0 to |userRules|
      invariant |rules| == i
      invariant forall k :: 0 <= k < i ==>
        rules[k].name == userRules[k].name && rules[k].entropy == userRules[k].entropy &&
        rules[k].pattern == Compile(re, userRules[k].pattern)
      invariant errors == InvalidRules(re, userRules[..i])
    {
      var r := userRules[i];
      assert userRules[..i + 1][..i] == userRules[..i];
      var regex := Compile(re, r.pattern);
      if regex.None? {
        errors := errors + [r];
      }
      rules := rules + [Common.SecretStringRule(r.name, regex, r.entropy)];
    }
    assert userRules[..|userRules|] == userRules;
  }

  /** An input is reported exactly when its pattern fails to compile. */
  lemma {:induction false} InvalidRulesMember(re: Re2, userRules: seq<UserRule>, u: UserRule)
    ensures u in InvalidRules(re, userRules) <==> u in userRules && !re.compiles(u.pattern)
  {
    if |userRules| > 0 {
      var init := userRules[..|userRules| - 1];
      InvalidRulesMember(re, init, u);
      assert userRules == init + [userRules[|userRules| - 1]];
    }
  }

  /** Never more errors than inputs. */
  lemma {:induction false} InvalidRulesLength(re: Re2, userRules: seq<UserRule>)
    ensures |InvalidRules(re, userRules)| <= |userRules|
  {
    if |userRules| > 0 { InvalidRulesLength(re, userRules[..|userRules| - 1]); }
  }

  /** Errors keep the input order. */
  lemma {:induction false} InvalidRulesAppend(re: Re2, a: seq<UserRule>, b: seq<UserRule>)
    ensures InvalidRules(re, a + b) == InvalidRules(re, a) + InvalidRules(re, b)
  {
    if |b| > 0 {
      assert (a + b)[..|a + b| - 1] == a + b[..|b| - 1];
      InvalidRulesAppend(re, a, b[..|b| - 1]);
    } else {
      assert a + b == a;
    }
  }

  /** As written, the rules `ParseRules` returns are all compiled exactly when
      no input was reported: every reported input stays behind as a rule with
      a nil pattern. */
  lemma FailingRulesStayUncompiled(re: Re2, userRules: seq<UserRule>)
    ensures Common.AllCompiled(ParsedRules(re, userRules)) <==> InvalidRules(re, userRules) == []
  {
    var rs := ParsedRules(re, userRules);
    if InvalidRules(re, userRules) != [] {
      var u := InvalidRules(re, userRules)[0];
      InvalidRulesMember(re, userRules, u);
      var i :| 0 <= i < |userRules| && userRules[i] == u;
      assert rs[i].pattern.None?;
    } else {
      forall i | 0 <= i < |userRules|
        ensures rs[i].pattern.Some?
      {
        InvalidRulesMember(re, userRules, userRules[i]);
      }
    }
  }

  /** The compiled rules only, in input order. */
  function ValidRules(re: Re2, userRules: seq<UserRule>): seq<Common.SecretStringRule>
  {
    if |userRules| == 0 then []
    else
      var last := userRules[|userRules| - 1];
      ValidRules(re, userRules[..|userRules| - 1]) +
      (if re.compiles(last.pattern) then [Common.SecretStringRule(last.name, Some(Regex(last.pattern)), last.entropy)] else [])
  }

  /** `ParseRules` as its callers need it: a failing input is reported and
      not turned into a rule. */
  method ParseValidRules(re: Re2, userRules: seq<UserRule>) returns (rules: seq<Common.SecretStringRule>, errors: seq<UserRule>)
    ensures rules == ValidRules(re, userRules)
    ensures errors == InvalidRules(re, userRules)
  {
    rules, errors := [], [];
    for i := 0 to |userRules|
      invariant rules == ValidRules(re, userRules[..i])
      invariant errors == InvalidRules(re, userRules[..i])
    {
      var r := userRules[i];
      assert userRules[..i + 1][..i] == userRules[..i];
      var regex := Compile(re, r.pattern);
      if regex.None? {
        errors := errors + [r];
        continue;
      }
      rules := rules + [Common.SecretStringRule(r.name, regex, r.entropy)];
    }
    assert userRules[..|userRules|] == userRules;
  }

  /** Every corrected rule is compiled, and each input lands in exactly one
      of the two outputs. */
  lemma {:induction false} ValidRulesCompiled(re: Re2, userRules: seq<UserRule>)
    ensures Common.AllCompiled(ValidRules(re, userRules))
    ensures |ValidRules(re, userRules)| + |InvalidRules(re, userRules)| == |userRules|
  {
    if |userRules| > 0 { ValidRulesCompiled(re, userRules[..|userRules| - 1]); }
  }

  /** A corrected rule is exactly a compiling input, with its name and
      entropy. */
  lemma {:induction false} ValidRulesMember(re: Re2, userRules: seq<UserRule>, r: Common.SecretStringRule)
    ensures r in ValidRules(re, userRules) <==>
      exists u :: u in userRules && re.compiles(u.pattern) && r == Common.SecretStringRule(u.name, Some(Regex(u.pattern)), u.entropy)
  {
    if |userRules| > 0 {
      var init, last := userRules[..|userRules| - 1], userRules[|userRules| - 1];
      ValidRulesMember(re, init, r);
      assert userRules == init + [last];
      if exists u :: u in userRules && re.compiles(u.pattern) && r == Common.SecretStringRule(u.name, Some(Regex(u.pattern)), u.entropy) {
        var u :| u in userRules && re.compiles(u.pattern) && r == Common.SecretStringRule(u.name, Some(Regex(u.pattern)), u.entropy);
        if u != last { assert u in init; }
      }
    }
  }
}

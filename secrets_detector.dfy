/** pkg/secrets/detector.go: a detector holding static rules, optionally
    preceded by the defaults, that searches text with the static matcher. */
module SecretsDetector {
  import opened Wrappers
  import opened Foreign
  import opened SecretRules
  import opened StaticSearch

  /** `Opts`: whether the default rules come first. */
  datatype Opts = Opts(useDefaultRules: bool)

  /** The `detector` record; its rules never change after construction. */
  datatype Detector = Detector(rules: seq<StaticRule>)
  {
    /** `SearchText`: the static matcher over the stored rules. */
    method SearchText(re: Re2, shannon: string -> real, text: string) returns (matches: seq<TextMatch>, err: Option<Error>)
      requires AllCompiled(rules)
      ensures err.None?
      ensures matches == StaticMatches(re, shannon, text, rules)
    {
      matches, err := FindStaticRuleMatches(re, shannon, text, rules);
    }
  }

  /** `NewDetector`: the default rules (when asked for) followed by the
      user's rules, which are never dropped or reordered. */
  function NewDetector(opts: Opts, userRules: seq<StaticRule>): (d: Detector)
    ensures |d.rules| == (if opts.useDefaultRules then |DefaultStaticRules()| else 0) + |userRules|
    ensures d.rules[|d.rules| - |userRules|..] == userRules
    ensures opts.useDefaultRules ==> d.rules[..|DefaultStaticRules()|] == DefaultStaticRules()
    ensures !opts.useDefaultRules ==> d.rules == userRules
  {
    var base := if opts.useDefaultRules then DefaultStaticRules() else [];
    Detector(base + userRules)
  }

  /** With compiled user rules, every rule of a new detector is compiled, so
      `SearchText` may be called on it. */
  lemma NewDetectorCompiled(opts: Opts, userRules: seq<StaticRule>)
    requires AllCompiled(userRules)
    ensures AllCompiled(NewDetector(opts, userRules).rules)
  {
    var rules := NewDetector(opts, userRules).rules;
    forall i | 0 <= i < |rules|
      ensures rules[i].pattern.Some?
    {
      if opts.useDefaultRules && i < |DefaultStaticRules()| {
        assert rules[i] == DefaultStaticRules()[i];
      } else {
        assert rules[i] == userRules[i - |rules| + |userRules|];
      }
    }
  }

  /** Searching with the defaults finds the default rules' matches first,
      then the user rules' matches. */
  lemma DefaultMatchesFirst(re: Re2, shannon: string -> real, text: string, userRules: seq<StaticRule>)
    requires AllCompiled(userRules)
    ensures AllCompiled(NewDetector(Opts(true), userRules).rules)
    ensures AllCompiled(DefaultStaticRules())
    ensures StaticMatches(re, shannon, text, NewDetector(Opts(true), userRules).rules) ==
      StaticMatches(re, shannon, text, DefaultStaticRules()) + StaticMatches(re, shannon, text, userRules)
  {
    NewDetectorCompiled(Opts(true), userRules);
    StaticMatchesAppend(re, shannon, text, DefaultStaticRules(), userRules);
  }
}

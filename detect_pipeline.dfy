/** The wiring of cmd/detect.go from the user's rules to the layer detector:
    `ParseRules`, then `NewDetector(img).WithRules(rules...)`, then
    `UseDefaultRules` unless the defaults are excluded, then `Detect`. */
module DetectPipeline {
  import opened Wrappers
  import opened Foreign
  import opened ImageTypes
  import opened Config
  import Common
  import Layers

  /** The detector cmd/detect.go builds from a list of rules. */
  function Configured(img: Image, rules: seq<Common.SecretStringRule>, excludeDefaults: bool): (d: Layers.Detector)
    ensures d.img == img
    ensures excludeDefaults ==> d.patterns == rules
    ensures !excludeDefaults ==> d.patterns == rules + Common.DefaultRules()
  {
    var d := Layers.NewDetector(img).WithRules(rules);
    if excludeDefaults then d else d.UseDefaultRules()
  }

  /** As written: one user rule whose pattern does not compile reaches
      `Detect` with a nil pattern, whether or not the defaults are added, so
      `Detect`'s matcher would call `FindStringSubmatch` on nil. */
  lemma AsWrittenNilPatternReachesDetect(img: Image, excludeDefaults: bool)
    ensures var re := Re2(e => e != "(", (r, s) => false, (r, s) => [], (r, b) => []);
      var userRules := [UserRule("(", "broken", 0.0)];
      !Common.AllCompiled(Configured(img, ParsedRules(re, userRules), excludeDefaults).patterns)
  {
    var re := Re2(e => e != "(", (r, s) => false, (r, s) => [], (r, b) => []);
    var userRules := [UserRule("(", "broken", 0.0)];
    var d := Configured(img, ParsedRules(re, userRules), excludeDefaults);
    assert d.patterns[0] == ParsedRules(re, userRules)[0];
  }

  /** Corrected: with only the compiled rules, every rule `Detect` sees is
      compiled, whatever the user wrote. */
  lemma CorrectedRulesReachDetectCompiled(re: Re2, img: Image, userRules: seq<UserRule>, excludeDefaults: bool)
    ensures Common.AllCompiled(Configured(img, ValidRules(re, userRules), excludeDefaults).patterns)
  {
    ValidRulesCompiled(re, userRules);
    var d := Layers.NewDetector(img).WithRules(ValidRules(re, userRules));
    assert d.patterns == ValidRules(re, userRules);
  }
}

# dockerleaks core, modelled in Dafny

dockerleaks looks for secrets in Docker images. It reads two things from an
image: the environment (`NAME=VALUE` strings) and the build arguments, which
it reconstructs from the layer history. The values are then matched against
rules, and the tool reports a finding or detection for each match.

A rule is a named regular expression. It can have a minimum Shannon entropy
that a candidate must reach. A dynamic rule also has a regular expression
that a file path must match. Three generations of matchers coexist:
- the legacy layer detector: `common.FindRuleMatches`, driven by `layers.Detector`;
- the first-match regular-expression detector in `pkg/detections`;
- the newer `pkg/secrets` engine: entropy-gated static rules, path-filtered dynamic rules, and `analysis.Static` on top.

This project models all three, plus:
- the rule compilers;
- the default rule tables;
- secret masking;
- the slice helpers of `internal/util`.

Each Go file becomes one Dafny module (file names in brackets):

| Go file | Dafny module |
|---|---|
| `internal/util/lists.go` | `Lists` (lists.dfy) |
| `pkg/image/types.go` | `ImageTypes` (image_types.dfy) |
| `pkg/image/enviornment.go` | `EnvVars` (image_environment.dfy) |
| `pkg/image/arguments.go` | `BuildArgs` (image_arguments.dfy) |
| `pkg/common/rules.go` with `secrets.go` | `Common` (common_rules.dfy) |
| `internal/config/config.go` | `Config` (config.dfy) |
| `pkg/secrets/rules.go` | `SecretRules` (secrets_rules.dfy) |
| `pkg/secrets/secret.go` | `SecretValue` (secrets_secret.dfy) |
| `pkg/secrets/static.go` | `StaticSearch` (secrets_static.dfy) |
| `pkg/secrets/dynamic.go` | `DynamicSearch` (secrets_dynamic.dfy) |
| `pkg/secrets/detector.go` | `SecretsDetector` (secrets_detector.dfy) |
| `pkg/detections/regex.go` with `types.go` | `Detections` (detections_regex.dfy) |
| `pkg/layers/detector.go` | `Layers` (layers_detector.dfy) |
| `pkg/analysis/static.go` | `Analysis` (analysis_static.dfy) |

Supporting modules:
- `Wrappers`: `Option`, `Result`, `Error`.
- `Foreign`: what the core sees of RE2 and of the entropy function.
- `Text`: the parts of `strings.Join` the core needs, plus a character count.
- `DefaultPatterns`: the 40-entry table that both default static tables share. `pkg/common/rules.go:44-166` and `pkg/secrets/rules.go:80-202` list the same names and expressions in the same order.
- `DetectPipeline`: how cmd/detect.go wires compiled rules into the layer detector. It exists for the finding below.

## How the model is built

**Foreign pieces as parameters.** The core calls code that is not modelled. Each such piece becomes a parameter:
- *RE2* is the record `Foreign.Re2`. Its fields stand for `regexp.Compile` succeeding, `MatchString`, `FindStringSubmatch` and `FindSubmatch`. A submatch result of `[]` stands for Go's nil. A compiled `Regex` keeps its source text, which `Regexp.String` prints.
- *Entropy* is `Foreign.Entropy(shannon, s)`. It is `0` for the empty string, as the early return of `CalculateShannonEntropy` gives. Otherwise it is the opaque `shannon(s)`.
- *The Docker client* is replaced by its answers, as `Result` values:
  - the history (`ImageHistory`);
  - the environment list (`ImageInspectWithRaw`);
  - the file body (`io.ReadAll`);
  - the image's two parse results (the `image.Image` interface).
- *The unmask flag* of viper and *the `%f` formatter* are plain parameters.

**Imperative code stays imperative.** Where the Go code loops and appends, the Dafny model is a `method` with a `for`/`while` loop. Its `ensures` ties the result to a reference function defined by recursion on the sequence (most on its last element; `Lists.Zipped`, `Lists.Mapped`, `Detections.FirstMatch`, `BuildArgs.DeclaredNames` and `Text.Join` on its first), and lemmas prove the promised properties of that function. `util.Reverse` works on an `array` in place. It returns the same array, and its contents become the reversal of the old contents. Pure update functions become datatype members.

**History markers.** The three marker regexes of the history scan are per-entry classifiers. Their result types encode what the Go expressions really capture:
- `(\d)+` in `^(?:RUN )?\|(\d)+` captures only its last digit. The count is therefore a `Digit`, and `strconv.Atoi` cannot fail on it.
- `([^]"])` captures one character. The shell after `SHELL ["/bin/bash"]` is therefore `"/"`, not `/bin/bash`.

**What failing rules become.** The doc comments of `ParseStaticRules` (pkg/secrets/rules.go:219-220) and `config.ParseRules` (internal/config/config.go:63-64) say the rules that fail are returned in the second result. The `ignore-invalid` message at cmd/detect.go:41-46 says those rules are then ignored. The code nonetheless also appends every failing rule to the first result, with a nil pattern. The model follows the code. The finding below shows where that leads.

## Model

| member | source | states |
|---|---|---|
| Lists.Reversal | internal/util/lists.go:4-12 | the reference reversal keeps the length and leaves empty and one-element lists unchanged |
| Lists.ReversalAt | internal/util/lists.go:4-12 | element `k` of the reversal is element `n-1-k` of the input |
| Lists.ReversalAppend | internal/util/lists.go:4-12 | reversing `a + b` gives the reversal of `b` followed by the reversal of `a` |
| Lists.ReversalInvolutive | internal/util/lists.go:4-12 | reversing twice restores the input |
| Lists.Reverse | internal/util/lists.go:4-12 | swaps in place: the array's contents become the reversal of its old contents, and the very same array is returned |
| Lists.Zipped | internal/util/lists.go:17-23 | the zip has the length of the shorter input and element `i` is `f(as[i], bs[i])` |
| Lists.ZipApply | internal/util/lists.go:17-23 | the filled slice is the zip of the two inputs |
| Lists.Mapped | internal/util/lists.go:25-31 | the map keeps the length and element `i` is `f(as[i])` |
| Lists.Apply | internal/util/lists.go:25-31 | the filled slice is the map of the input |
| Lists.Any | internal/util/lists.go:33-40 | true exactly when some element satisfies `f`, so false on the empty list |
| EnvVars.FirstEquals | pkg/image/enviornment.go:17 | the index of the first `=`, or the length when there is none |
| EnvVars.SplitEnv | pkg/image/enviornment.go:17-26 | no variable exactly when the entry has no `=`; otherwise the name has no `=`, `name + "=" + value` is the entry, and the location is the entry |
| EnvVars.ParseEnvVars | pkg/image/enviornment.go:11-28 | an inspect error is returned unchanged; otherwise the result is always a success holding the kept entries |
| EnvVars.KeptEnvAppend | pkg/image/enviornment.go:16-27 | the kept entries of `a + b` are those of `a` followed by those of `b`, so input order is kept |
| EnvVars.KeptEnvLength | pkg/image/enviornment.go:16-27 | never more variables than entries |
| EnvVars.KeptEnvMember | pkg/image/enviornment.go:17-26 | a variable is kept exactly when it is the split of an input entry, and then its name has no `=` and it rejoins to its location |
| EnvVars.EntriesWithoutEqualsSkipped | pkg/image/enviornment.go:17-21 | entries without `=` are skipped, not reported |
| BuildArgs.RunContribution | pkg/image/arguments.go:43-59 | a non-matching assembled regex contributes nothing; a match contributes `min(len(args), groups)` pairs of `args[i]` with group `i + 1`, each located at the entry; no names contribute nothing |
| BuildArgs.ParseBuildArgs | pkg/image/arguments.go:19-62 | a history error is returned unchanged; otherwise the history is reversed in place and the reconstruction is the scan of the oldest-first entries |
| BuildArgs.NewestEntryScannedLast | pkg/image/arguments.go:24 | because the history arrives newest first, its first entry is scanned last |
| BuildArgs.ShellDefaultsToBinSh | pkg/image/arguments.go:22-29 | without a `SHELL` entry the shell stays `/bin/sh` |
| BuildArgs.ShellIsLatestDeclared | pkg/image/arguments.go:26-29 | after a `SHELL` entry with no later one, the shell is the single character it captured |
| BuildArgs.ShellShape | pkg/image/arguments.go:14-29 | the shell is always `/bin/sh` or one character |
| BuildArgs.ArgsAreDeclaredNames | pkg/image/arguments.go:31-34 | the names list is exactly one name per `ARG` entry, oldest first; nothing removes a name |
| BuildArgs.ScanOnlyGrows | pkg/image/arguments.go:24-61 | the names and the recovered arguments after a prefix of the history are prefixes of their final values |
| BuildArgs.ArgOnRunLineCountedFirst | pkg/image/arguments.go:26-60 | an `ARG` on a `RUN` line is declared before that `RUN` assembles its regex |
| BuildArgs.CountIsOnlyAWarning | pkg/image/arguments.go:36-42 | the `RUN` count never changes the outcome |
| BuildArgs.AssignmentPatternGroups | pkg/image/arguments.go:43 | the assembled regex has exactly one group per declared name when the shell holds no `(` |
| BuildArgs.RunRecoversEveryName | pkg/image/arguments.go:43-56 | when RE2 returns the whole match plus one element per group, a `RUN` recovers one argument per declared name, named after it and located at the entry |
| BuildArgs.RecoveredArgsAreDeclared | pkg/image/arguments.go:47-55 | every recovered argument carries a declared name and the text of a `RUN` entry of the history |
| Foreign.Compile | internal/config/config.go:67 | compilation succeeds exactly when RE2 accepts the expression, and keeps its text |
| Foreign.Entropy | pkg/common/entropy.go:6-9 | the empty string has entropy 0 |
| Foreign.BytesToString | pkg/secrets/dynamic.go:48 | `string(b)` has one character per byte, with the same code |
| SecretValue.Secret.ToString | pkg/secrets/secret.go:15-26 | an empty value shows as empty; unmasked it is verbatim; masked and shorter than 6 it is `*****`; otherwise it is the first 3 bytes, `*****`, and the last 3 bytes |
| SecretValue.MaskedLength | pkg/secrets/secret.go:16-25 | a masked non-empty value shows as 5 or 11 bytes, 5 exactly when it is shorter than 6 |
| SecretValue.DisplayIgnoresEntropy | pkg/secrets/secret.go:8-26 | the entropy never affects the display |
| SecretValue.DisplayExamples | pkg/secrets/secret_test.go:22-55 | the test table's five cases |
| Common.FindRuleMatches | pkg/common/rules.go:27-38 | the matches are each rule's `FindStringSubmatch` elements, in rule order, with no entropy filter |
| Common.MatchCount | pkg/common/rules.go:28-36 | the match count is the sum of the rules' submatch counts |
| Common.MatchesAppend | pkg/common/rules.go:28-30 | matches are grouped by rule in rule order |
| Common.MatchMember | pkg/common/rules.go:28-36 | a match exists exactly when its value is a submatch of a listed rule, and it carries that rule unchanged |
| Common.DefaultRules | pkg/common/rules.go:44-166 | 40 compiled rules in table order, each with entropy 0 |
| Config.ParsedRules | internal/config/config.go:65-82 | one rule per input, in order, with name and entropy copied and the pattern compiled or nil |
| Config.ParseRules | internal/config/config.go:65-82 | emits exactly those rules, failing inputs included with a nil pattern, and reports exactly the failing inputs in input order |
| Config.InvalidRulesMember | internal/config/config.go:66-74 | an input is reported exactly when its pattern fails to compile |
| Config.InvalidRulesLength | internal/config/config.go:65-82 | never more errors than inputs |
| Config.InvalidRulesAppend | internal/config/config.go:66-74 | the report keeps input order |
| Config.FailingRulesStayUncompiled | internal/config/config.go:66-80 | the emitted rules are all compiled exactly when nothing was reported |
| Config.ParseValidRules | internal/config/config.go:65-82 | corrected compiler: emits the compiled rules only and reports the failing inputs |
| Config.ValidRulesCompiled | internal/config/config.go:65-82 | every corrected rule is compiled, and each input lands in exactly one output |
| Config.ValidRulesMember | internal/config/config.go:65-82 | a corrected rule is exactly a compiling input with its name and entropy |
| SecretRules.StaticRule.ToString | pkg/secrets/rules.go:28-40 | builds the conditions list and returns the rule's description |
| SecretRules.StaticText | pkg/secrets/rules.go:28-40 | `'name'` with no conditions; otherwise `'name' via ` then the regex, then the entropy when positive, joined by ` and ` |
| SecretRules.BareNameIffNoCondition | pkg/secrets/rules.go:36-39 | the description is the bare quoted name exactly when there is neither a pattern nor a positive entropy |
| SecretRules.DynamicRule.ToString | pkg/secrets/rules.go:59-74 | builds the conditions list and returns the rule's description |
| SecretRules.DynamicWithoutFile | pkg/secrets/rules.go:59-74 | without a file pattern a dynamic rule reads like the static rule with its name, pattern and entropy |
| SecretRules.DynamicFileOnly | pkg/secrets/rules.go:66-73 | a rule with only a file pattern reads `'name' via file pattern '...'` |
| SecretRules.DynamicFileAppended | pkg/secrets/rules.go:59-74 | otherwise the file pattern comes last, after ` and ` |
| SecretRules.DefaultStaticRules | pkg/secrets/rules.go:80-202 | 40 compiled rules in table order, each without an entropy threshold |
| SecretRules.DefaultRulesShape | pkg/secrets/rules.go:204-217 | every default dynamic rule has a file pattern and no content pattern |
| SecretRules.ParseStaticRules | pkg/secrets/rules.go:221-238 | one rule per input, in order, name and entropy copied, pattern compiled or nil; the errors are exactly the failing inputs |
| SecretRules.FailingStaticMember | pkg/secrets/rules.go:223-230 | an input is reported exactly when its pattern fails to compile |
| SecretRules.FailingStaticAppend | pkg/secrets/rules.go:222-230 | the report keeps input order |
| SecretRules.CompileDynamic | pkg/secrets/rules.go:243-272 | no rule exactly when a given pattern fails; the name is copied; an empty pattern string leaves that field nil; the entropy is copied only with a content pattern and is 0 otherwise |
| SecretRules.ParseDynamicRules | pkg/secrets/rules.go:242-274 | the rules are the compiled inputs and the errors the failing ones, both in input order |
| SecretRules.DynamicPartition | pkg/secrets/rules.go:243-272 | `len(rules) + len(errors) == len(userRules)` |
| SecretRules.DynamicMember | pkg/secrets/rules.go:243-272 | a rule is produced exactly from a compiling input; an input is reported exactly when it fails |
| StaticSearch.FindStaticRuleMatches | pkg/secrets/static.go:19-36 | the error is always nil; the matches are each rule's gated submatches in rule order |
| StaticSearch.GatedMember | pkg/secrets/static.go:21-32 | a rule keeps exactly the submatches whose entropy is not below its minimum, each with the rule, the value, its entropy and zero text and positions |
| StaticSearch.GatedLength | pkg/secrets/static.go:21-25 | never more matches than submatches, and all of them when every one passes |
| StaticSearch.GatedAppend | pkg/secrets/static.go:21 | within a rule, matches keep submatch order |
| StaticSearch.StaticMatchMember | pkg/secrets/static.go:19-35 | a match exists exactly for a listed rule's submatch with `entropy == Entropy(value) >= minEntropy`, with `FullText`, `StartPos` and `EndPos` at zero |
| StaticSearch.StaticMatchesAppend | pkg/secrets/static.go:20-27 | matches are grouped by rule in rule order |
| StaticSearch.NonMatchingRuleAddsNothing | pkg/secrets/static.go:21 | a rule whose pattern does not match contributes nothing |
| DynamicSearch.FindDynamicRuleMatches | pkg/secrets/dynamic.go:22-64 | a read error is returned before any rule is evaluated; otherwise the content, read once, is matched by every rule |
| DynamicSearch.GatedMember | pkg/secrets/dynamic.go:47-60 | a content rule keeps exactly the submatches, read as strings, that reach its minimum entropy |
| DynamicSearch.DynamicMatchMember | pkg/secrets/dynamic.go:29-61 | a match exists exactly for a listed rule that selects the path: one with the empty secret when it has no content pattern, otherwise one per passing submatch |
| DynamicSearch.EveryMatchHasPath | pkg/secrets/dynamic.go:36-60 | every match names the searched path |
| DynamicSearch.DynamicMatchesAppend | pkg/secrets/dynamic.go:29-61 | matches are grouped by rule in rule order |
| DynamicSearch.PathOnlyRules | pkg/secrets/dynamic.go:31-42 | rules without content patterns yield one empty-secret match per rule selecting the path, whatever the content |
| DynamicSearch.DefaultRulesIgnoreContent | pkg/secrets/rules.go:204-217 | the default dynamic rules never look at file content |
| SecretsDetector.Detector.SearchText | pkg/secrets/detector.go:33-35 | the static matcher over the stored rules; never an error |
| SecretsDetector.NewDetector | pkg/secrets/detector.go:19-27 | the defaults (when asked for) followed by the user rules, which form the suffix unchanged |
| SecretsDetector.NewDetectorCompiled | pkg/secrets/detector.go:19-27 | compiled user rules give a detector whose rules are all compiled |
| SecretsDetector.DefaultMatchesFirst | pkg/secrets/detector.go:19-27 | with defaults, the defaults' matches come before the user rules' matches |
| Detections.Regexp.FindMatch | pkg/detections/regex.go:46-53 | found exactly when the first-match function finds a name, and returns that name; otherwise `("", false)` |
| Detections.FirstMatchMeaning | pkg/detections/regex.go:46-53 | nothing found exactly when no pattern matches; otherwise the name of the smallest-index matching pattern |
| Detections.Regexp.EvalEnvVars | pkg/detections/regex.go:57-74 | the environment's detections, tagged `environment variable` |
| Detections.Regexp.EvalBuildArgs | pkg/detections/regex.go:78-96 | the build arguments' detections, tagged `build argument` |
| Detections.EvaluatedMember | pkg/detections/regex.go:57-95 | a detection exists exactly for a variable whose value some pattern matches, named after the first one, of type `regular expression`, with value and location copied |
| Detections.EvaluatedLength | pkg/detections/regex.go:57-74 | at most one detection per variable |
| Detections.EvaluatedAppend | pkg/detections/regex.go:57-74 | detections keep input order |
| Detections.NewRegexDetector | pkg/detections/regex.go:36-40 | never an error; keeps the patterns |
| Layers.MatchDetections | pkg/layers/detector.go:55-62 | one detection per match, with the rule name, the variable's location and the match value |
| Layers.Detector.WithRules | pkg/layers/detector.go:25-28 | the given rules come after the existing ones, so repeated calls duplicate them; the image stays |
| Layers.Detector.UseDefaultRules | pkg/layers/detector.go:32-35 | the 40 default rules come after the current ones, and compiled rules stay compiled |
| Layers.NewDetector | pkg/layers/detector.go:18-20 | no rules, the given image |
| Layers.Detector.Detect | pkg/layers/detector.go:39-88 | a build-argument error fails with its message before the environment is consulted; an environment error fails with its message and drops the earlier detections; otherwise the build-argument detections then the environment ones |
| Layers.Detector.AppendVars | pkg/layers/detector.go:49-64 | one loop appends each variable's detections in order |
| Layers.VarDetectionsCount | pkg/layers/detector.go:49-63 | a loop yields one detection per submatch of each value |
| Layers.VarDetectionsMember | pkg/layers/detector.go:50-62 | a detection exists exactly for a match of a variable's value, with the rule name, the match, the variable's location and the loop's source |
| Layers.VarDetectionsSource | pkg/layers/detector.go:56-61 | every detection of a loop carries that loop's source |
| Layers.BuildArgsFirst | pkg/layers/detector.go:44-86 | all build-argument detections precede all environment detections |
| Analysis.Source.Name | pkg/analysis/finding.go:12-16 | each source's string constant: `build-arg`, `env-var`, `file` |
| Analysis.NamesDistinct | pkg/analysis/finding.go:12-16 | two sources have the same name exactly when they are the same source |
| Analysis.FindingsOf | pkg/analysis/static.go:27-33 | one finding per match, with the displayed secret, the rule and the source |
| Analysis.Static | pkg/analysis/static.go:9-55 | an environment or search error fails at once; then a build-argument or search error fails at once; otherwise the environment findings followed by the build-argument findings |
| Analysis.SearchAll | pkg/analysis/static.go:21-34 | one loop searches the values in order and stops at the first error |
| Analysis.SearchedErrorSticks | pkg/analysis/static.go:23-26 | once a search fails, the loop's result is that failure |
| Analysis.SearchedError | pkg/analysis/static.go:21-34 | a loop fails exactly when some search fails, and then with the first failing search's error |
| Analysis.SearchedFindings | pkg/analysis/static.go:27-33 | every finding carries its loop's source, and a successful loop yields one finding per match |
| Analysis.EnvFirst | pkg/analysis/static.go:16-53 | all environment findings precede all build-argument findings |
| Analysis.WithStaticDetector | pkg/analysis/static.go:16-45 | with the secrets detector, which never fails, `Static` fails exactly when the image cannot be read |
| DetectPipeline.Configured | cmd/detect.go:63-66 | the user rules, then the defaults unless they are excluded |
| DetectPipeline.AsWrittenNilPatternReachesDetect | cmd/detect.go:39-67 | one uncompilable user rule reaches `Detect` with a nil pattern |
| DetectPipeline.CorrectedRulesReachDetectCompiled | cmd/detect.go:39-67 | with the corrected compiler every rule reaching `Detect` is compiled |

## Left out

- Docker daemon I/O is not modelled. `ImageHistory`, `ImageInspectWithRaw`, `io.ReadAll` and the `image.Image` calls become `Result` parameters. Pulling, containers, tar streams and `pkg/analysis/dynamic.go` are left out.
- CLI, configuration loading and process handling are left out. That covers `cmd/*` apart from the rule wiring in `DetectPipeline`, viper, spinners and `main.go`.
- Logging calls are left out; they do not affect results.
- RE2 semantics are not modelled. `Compile`, `MatchString`, `FindStringSubmatch` and `FindSubmatch` are oracles, and no default pattern is verified.
- Shannon entropy numerics are not modelled. Only `Entropy("") == 0` is modelled. The floating-point computation is an opaque function, so this does not capture that entropy.go divides rune counts by byte length. Comparisons with `MinEntropy` are on reals, without float64 rounding.
- `%f` formatting in the rule descriptions is a parameter `formatFloat`.
- String encoding is not modelled. One character is one byte, so UTF-8 is not decoded when masking, measuring or converting bytes to strings.
- A nil pattern makes Go panic, so calling it is not modelled. Instead these members require compiled rules:
  - `Common.FindRuleMatches`, `StaticSearch.FindStaticRuleMatches`, `SecretsDetector.Detector.SearchText` and `Layers.Detector.Detect` require `AllCompiled`;
  - `Detections.Regexp.FindMatch`, `Detections.Regexp.EvalEnvVars` and `Detections.Regexp.EvalBuildArgs` require `Detections.AllCompiled`. A `Pattern`'s `RegExp` is a pointer, modelled as `Option<Regex>`, and `MatchString` at pkg/detections/regex.go:48 would panic on nil;
  - `BuildArgs.ParseBuildArgs` requires the assembled `RUN` regex to compile (`ScanOk`), because the code would call a nil regexp.
- Go slice aliasing through `append` and shared backing arrays is not modelled; collections are values. `ParseBuildArgs` copies the history into an array and reverses that array in place.
- A few names are used by one file but defined elsewhere or not at all:
  - pkg/secrets/detector.go refers to `Rule`, `DefaultRules` and `findRuleMatches`, which pkg/secrets does not define with those types. The detector is modelled over `StaticRule`, `DefaultStaticRules` and `findStaticRuleMatches`.
  - pkg/secrets/static.go and dynamic.go call `CalculateShannonEntropy`, which is defined in pkg/common.
- `Analysis.Static` follows pkg/analysis/static.go as written:
  - its `Finding.Secret` is the display string, although pkg/analysis/finding.go types that field as `secrets.Secret`;
  - the detector is a parameter `search` of the result type static.go expects.
- The `RUN` count's `strconv.Atoi` error branch cannot be reached: the count is one digit.
- `TextMatch.FullText`, `StartPos` and `EndPos` stay zero, as in the code. pkg/secrets/static_test.go expects `FullText` to be set.
- The `pkg/detections` default pattern table and `Regexp.String` are not modelled. No named operation uses them.
- The unused detection constants are not modelled: the `FileSecret`, `FileSystem`, `EntropyDetection` and `FileDetection` constants of pkg/detections/types.go, and `common.File` of pkg/common/secrets.go. No modelled operation produces them.
- `Detection.String`, `SecretString.String` and the finding formatters are not modelled: they only render text.
- SecretRules.DynamicText: its own contract states only a length bound. The three `Dynamic*` lemmas state its content case by case.

## Findings

| source | as written | input that shows it | evidently intended | confidence | as-written member | corrected member |
|---|---|---|---|---|---|---|
| internal/config/config.go:66-80 | `ParseRules` appends a rule with a nil `Pattern` for every input that fails to compile. cmd/detect.go:39-67 passes all rules to the layer detector, whether or not `ignore-invalid` is set. `Detect` then calls `FindStringSubmatch` on the nil pattern. | one user rule with pattern `(`, on an image with at least one build argument or environment variable | a failing input is reported in the second result and ignored, never reaching a matcher (pkg/secrets/rules.go:219-220, cmd/detect.go:41-46) | medium; not executed | DetectPipeline.AsWrittenNilPatternReachesDetect | Config.ParseValidRules, DetectPipeline.CorrectedRulesReachDetectCompiled |

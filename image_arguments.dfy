/** pkg/image/arguments.go: reconstructing build arguments from the image's
    layer history. */
module BuildArgs {
  import opened Wrappers
  import opened Foreign
  import opened ImageTypes
  import Text
  import Lists

  predicate IsArgNameChar(c: char)
  {
    'A' <= c <= 'Z' || 'a' <= c <= 'z' || '0' <= c <= '9' || c == '_' || c == '-'
  }

  /** What `ARG\s+([A-Za-z0-9_\-]+)` captures. */
  type ArgName = s: string | |s| > 0 && forall i :: 0 <= i < |s| ==> IsArgNameChar(s[i]) witness "A"

  /** What `SHELL\s+\[\s*"?([^]"])"?` captures: a single character. */
  type ShellChar = c: char | c != ']' && c != '"' witness '/'

  /** What `^(?:RUN )?\|(\d)+` captures: only the last digit, so
      `strconv.Atoi` always succeeds. */
  type Digit = d: int | 0 <= d <= 9

  /** The three marker regexes as per-entry classifiers: each returns its
      capture group when the entry matches. */
  datatype Markers = Markers(
    shell: string -> Option<ShellChar>,
    arg: string -> Option<ArgName>,
    run: string -> Option<Digit>)

  const InitialShell: string := "/bin/sh"

  /** The assignment regex assembled for a `RUN` entry:
      `strings.Join(append(args, shell), "=(.*)\s")`. */
  function AssignmentPattern(args: seq<string>, shell: string): string
  {
    Text.Join(args + [shell], "=(.*)\\s")
  }

  /** The scan's state: the active shell, the names declared so far and the
      build arguments recovered so far. */
  datatype ScanState = ScanState(shell: string, args: seq<ArgName>, out: seq<BuildArg>)

  function ShellAfter(m: Markers, shell: string, entry: string): string
  {
    if m.shell(entry).Some? then [m.shell(entry).value] else shell
  }

  function ArgsAfter(m: Markers, args: seq<ArgName>, entry: string): seq<ArgName>
  {
    if m.arg(entry).Some? then args + [m.arg(entry).value] else args
  }

  /** What one `RUN` entry contributes, given the names and the shell after
      that entry's own `SHELL` and `ARG` checks. */
  function RunContribution(re: Re2, args: seq<ArgName>, shell: string, entry: string): (c: seq<BuildArg>)
    ensures |re.findStringSubmatch(Regex(AssignmentPattern(args, shell)), entry)| == 0 ==> c == []
    ensures var ms := re.findStringSubmatch(Regex(AssignmentPattern(args, shell)), entry);
      |ms| > 0 ==>
        (|c| == Min(|args|, |ms| - 1) &&
         forall i :: 0 <= i < |c| ==> c[i] == NameValue(args[i], ms[i + 1], entry))
    ensures |args| == 0 ==> c == []
  {
    var ms := re.findStringSubmatch(Regex(AssignmentPattern(args, shell)), entry);
    if |ms| == 0 then []
    else Lists.Zipped((name: ArgName, value: string) => NameValue(name, value, entry), args, ms[1..])
  }

  /** The assembled regex compiles whenever this entry is a `RUN` entry. */
  predicate StepOk(m: Markers, re: Re2, st: ScanState, entry: string)
  {
    m.run(entry).Some? ==>
      re.compiles(AssignmentPattern(ArgsAfter(m, st.args, entry), ShellAfter(m, st.shell, entry)))
  }

  /** One history entry: the `SHELL`, `ARG` and `RUN` checks in that order. */
  function Step(m: Markers, re: Re2, st: ScanState, entry: string): ScanState
  {
    var shell := ShellAfter(m, st.shell, entry);
    var args := ArgsAfter(m, st.args, entry);
    var out := if m.run(entry).Some? then st.out + RunContribution(re, args, shell, entry) else st.out;
    ScanState(shell, args, out)
  }

  /** The state after scanning `entries` (oldest first) from the initial one. */
  function Scan(m: Markers, re: Re2, entries: seq<string>): ScanState
  {
    if |entries| == 0 then ScanState(InitialShell, [], [])
    else Step(m, re, Scan(m, re, entries[..|entries| - 1]), entries[|entries| - 1])
  }

  /** Every `RUN` entry of the scan has an assembled regex that compiles. */
  predicate ScanOk(m: Markers, re: Re2, entries: seq<string>)
  {
    |entries| == 0 ||
    (ScanOk(m, re, entries[..|entries| - 1]) &&
     StepOk(m, re, Scan(m, re, entries[..|entries| - 1]), entries[|entries| - 1]))
  }

  /** The recovered build arguments of a newest-first history. */
  function Reconstruct(m: Markers, re: Re2, history: seq<string>): seq<BuildArg>
  {
    Scan(m, re, Lists.Reversal(history)).out
  }

  /** `parseBuildArgs` from the history call onward. A history error comes back
      unchanged; otherwise the history is reversed in place and scanned
      oldest first. */
  method ParseBuildArgs(m: Markers, re: Re2, history: Result<seq<string>>) returns (r: Result<seq<BuildArg>>)
    requires history.Ok? ==> ScanOk(m, re, Lists.Reversal(history.value))
    ensures history.Err? ==> r == Err(history.error)
    ensures history.Ok? ==> r == Ok(Reconstruct(m, re, history.value))
  {
    if history.Err? {
      return Err(history.error);
    }
    var items := new string[|history.value|](i requires 0 <= i < |history.value| => history.value[i]);
    assert items[..] == history.value;
    var reversed := Lists.Reverse(items);
    ghost var entries := reversed[..];
    var envVars: seq<BuildArg> := [];
    var args: seq<ArgName> := [];
    var shell := InitialShell;
    for i := 0 to reversed.Length
      invariant reversed[..] == entries
      invariant ScanState(shell, args, envVars) == Scan(m, re, entries[..i])
    {
      var h := reversed[i];
      assert entries[..i + 1][..i] == entries[..i];
      var shellMatch := m.shell(h);
      if shellMatch.Some? {
        shell := [shellMatch.value];
      }
      var argMatch := m.arg(h);
      if argMatch.Some? {
        args := args + [argMatch.value];
      }
      var runMatch := m.run(h);
      if runMatch.Some? {
        // A count that differs from |args| is only logged.
        var regxp := Regex(Text.Join(args + [shell], "=(.*)\\s"));
        var matches := re.findStringSubmatch(regxp, h);
        if |matches| > 0 {
          var zipped := Lists.ZipApply((name: ArgName, value: string) => NameValue(name, value, h), args, matches[1..]);
          envVars := envVars + zipped;
        }
      }
    }
    assert entries[..|entries|] == entries;
    return Ok(envVars);
  }

  /** The history arrives newest first: the newest entry is scanned last,
      after every older one. */
  lemma NewestEntryScannedLast(m: Markers, re: Re2, newest: string, older: seq<string>)
    ensures Scan(m, re, Lists.Reversal([newest] + older)) == Step(m, re, Scan(m, re, Lists.Reversal(older)), newest)
  {
    Lists.ReversalAppend([newest], older);
    var es := Lists.Reversal([newest] + older);
    assert es == Lists.Reversal(older) + [newest];
    assert es[..|es| - 1] == Lists.Reversal(older);
  }

  /** The shell stays `/bin/sh` while no `SHELL` entry has been seen. */
  lemma {:induction false} ShellDefaultsToBinSh(m: Markers, re: Re2, es: seq<string>)
    requires forall i :: 0 <= i < |es| ==> m.shell(es[i]).None?
    ensures Scan(m, re, es).shell == InitialShell
  {
    if |es| > 0 {
      ShellDefaultsToBinSh(m, re, es[..|es| - 1]);
    }
  }

  /** After a `SHELL` entry, the shell is the character it captured until the
      next `SHELL` entry. */
  lemma {:induction false} ShellIsLatestDeclared(m: Markers, re: Re2, es: seq<string>, i: nat)
    requires i < |es| && m.shell(es[i]).Some?
    requires forall j :: i < j < |es| ==> m.shell(es[j]).None?
    ensures Scan(m, re, es).shell == [m.shell(es[i]).value]
  {
    if i < |es| - 1 {
      var init := es[..|es| - 1];
      assert init[i] == es[i];
      forall j | i < j < |init| ensures m.shell(init[j]).None? {
        assert init[j] == es[j];
      }
      ShellIsLatestDeclared(m, re, init, i);
    }
  }

  /** The names each `ARG` entry declares, oldest first. */
  function DeclaredNames(m: Markers, es: seq<string>): seq<ArgName>
  {
    if |es| == 0 then [] else (if m.arg(es[0]).Some? then [m.arg(es[0]).value] else []) + DeclaredNames(m, es[1..])
  }

  lemma {:induction false} DeclaredNamesSnoc(m: Markers, es: seq<string>, e: string)
    ensures DeclaredNames(m, es + [e]) == DeclaredNames(m, es) + (if m.arg(e).Some? then [m.arg(e).value] else [])
  {
    if |es| > 0 {
      assert (es + [e])[1..] == es[1..] + [e];
      DeclaredNamesSnoc(m, es[1..], e);
    } else {
      assert es + [e] == [e];
    }
  }

  /** Each `ARG` entry appends exactly its one name and nothing, not even a
      `RUN`, removes one. */
  lemma {:induction false} ArgsAreDeclaredNames(m: Markers, re: Re2, es: seq<string>)
    ensures Scan(m, re, es).args == DeclaredNames(m, es)
  {
    if |es| > 0 {
      var init := es[..|es| - 1];
      ArgsAreDeclaredNames(m, re, init);
      DeclaredNamesSnoc(m, init, es[|es| - 1]);
      assert init + [es[|es| - 1]] == es;
    }
  }

  /** Scanning further only extends the declared names and the recovered
      build arguments: both are prefixes of their final values. */
  lemma {:induction false} ScanOnlyGrows(m: Markers, re: Re2, es: seq<string>, k: nat)
    requires k <= |es|
    ensures Scan(m, re, es[..k]).args <= Scan(m, re, es).args
    ensures Scan(m, re, es[..k]).out <= Scan(m, re, es).out
  {
    if k < |es| {
      var init := es[..|es| - 1];
      assert init[..k] == es[..k];
      ScanOnlyGrows(m, re, init, k);
    } else {
      assert es[..k] == es;
    }
  }

  /** An `ARG` on a `RUN` line is declared before that `RUN` assembles its
      pattern. */
  lemma ArgOnRunLineCountedFirst(m: Markers, re: Re2, st: ScanState, entry: string)
    requires m.arg(entry).Some? && m.run(entry).Some?
    ensures Step(m, re, st, entry).out ==
      st.out + RunContribution(re, st.args + [m.arg(entry).value], ShellAfter(m, st.shell, entry), entry)
  {
  }

  /** The markers with every `RUN` count replaced by `d`. */
  function WithCount(m: Markers, d: Digit): Markers
  {
    Markers(m.shell, m.arg, (e: string) => if m.run(e).Some? then Some(d) else None)
  }

  /** The declared `RUN` count never changes the outcome: a mismatch with the
      number of names is only a warning. */
  lemma {:induction false} CountIsOnlyAWarning(m: Markers, re: Re2, es: seq<string>, d: Digit)
    ensures Scan(m, re, es) == Scan(WithCount(m, d), re, es)
    ensures ScanOk(m, re, es) <==> ScanOk(WithCount(m, d), re, es)
  {
    if |es| > 0 {
      CountIsOnlyAWarning(m, re, es[..|es| - 1], d);
    }
  }

  /** The assembled pattern has one `(` per declared name, and so that many
      capture groups, whenever the shell holds no `(`. */
  lemma {:induction false} AssignmentPatternGroups(args: seq<ArgName>, shell: string)
    requires '(' !in shell
    ensures Text.Count(AssignmentPattern(args, shell), '(') == |args|
  {
    if |args| == 0 {
      assert args + [shell] == [shell];
      Text.CountAbsent(shell, '(');
    } else {
      var sep := "=(.*)\\s";
      var a := args[0];
      assert args + [shell] == [a] + (args[1..] + [shell]);
      assert Text.Join(args + [shell], sep) == a + sep + Text.Join(args[1..] + [shell], sep);
      AssignmentPatternGroups(args[1..], shell);
      Text.CountAbsent(a, '(');
      Text.CountAppend(a, sep, '(');
      Text.CountAppend(a + sep, Text.Join(args[1..] + [shell], sep), '(');
      assert Text.Count(sep, '(') == 1;
    }
  }

  /** When RE2 answers with the whole match plus one element per capture
      group, a `RUN` entry recovers exactly one build argument per declared
      name, each named after it and located at the entry. */
  lemma RunRecoversEveryName(re: Re2, args: seq<ArgName>, shell: string, entry: string)
    requires '(' !in shell
    requires |re.findStringSubmatch(Regex(AssignmentPattern(args, shell)), entry)| == 1 + Text.Count(AssignmentPattern(args, shell), '(')
    ensures |RunContribution(re, args, shell, entry)| == |args|
    ensures forall i :: 0 <= i < |args| ==>
      RunContribution(re, args, shell, entry)[i].name == args[i] &&
      RunContribution(re, args, shell, entry)[i].location == entry
  {
    AssignmentPatternGroups(args, shell);
  }

  /** Every shell the scan holds is `/bin/sh` or the single character of a
      `SHELL` entry. */
  lemma {:induction false} ShellShape(m: Markers, re: Re2, es: seq<string>)
    ensures Scan(m, re, es).shell == InitialShell || |Scan(m, re, es).shell| == 1
  {
    if |es| > 0 { ShellShape(m, re, es[..|es| - 1]); }
  }

  /** Every recovered build argument carries a declared name and is located at
      a `RUN` entry of the history. */
  lemma {:induction false} RecoveredArgsAreDeclared(m: Markers, re: Re2, es: seq<string>)
    ensures forall b :: b in Scan(m, re, es).out ==>
      b.name in Scan(m, re, es).args && b.location in es && m.run(b.location).Some?
  {
    if |es| > 0 {
      var init := es[..|es| - 1];
      var e := es[|es| - 1];
      RecoveredArgsAreDeclared(m, re, init);
      var st := Scan(m, re, init);
      var final := Scan(m, re, es);
      assert st.args <= final.args;
      forall b | b in final.out ensures b.name in final.args && b.location in es && m.run(b.location).Some? {
        if b in st.out {
          assert b.name in st.args;
        } else {
          assert m.run(e).Some?;
          var c := RunContribution(re, final.args, final.shell, e);
          assert b in c;
          var i :| 0 <= i < |c| && c[i] == b;
        }
      }
    }
  }
}

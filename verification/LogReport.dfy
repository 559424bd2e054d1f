/** The JUnit report of a log, and the whole script from the log to the exit code. */
module LogReport {
  import opened Bytes
  import opened LogStats
  import opened LogTotals

  // ---------------------------------------------------------------- names

  /** str.split('/') */
  function Split(s: string): (parts: seq<string>)
    ensures |parts| == Slashes(s) + 1
    decreases |s|
  {
    if s == "" then [""]
    else
      var rest := Split(s[1..]);
      if s[0] == '/' then [""] + rest else [[s[0]] + rest[0]] + rest[1..]
  }

  function Slashes(s: string): nat
    decreases |s|
  {
    if s == "" then 0 else (if s[0] == '/' then 1 else 0) + Slashes(s[1..])
  }

  /** '/'.join(parts) */
  function JoinPath(parts: seq<string>): string
    decreases |parts|
  {
    if parts == [] then "" else if |parts| == 1 then parts[0] else parts[0] + "/" + JoinPath(parts[1..])
  }

  /** The parts hold no separator and make up the name. */
  lemma {:induction false} SplitJoins(s: string)
    ensures JoinPath(Split(s)) == s
    ensures forall i :: 0 <= i < |Split(s)| ==> '/' !in Split(s)[i]
    decreases |s|
  {
    if s != "" {
      SplitJoins(s[1..]);
      SplitStep(s);
      hide Split;
      var rest := Split(s[1..]);
      assert s == [s[0]] + s[1..];
      if s[0] == '/' {
        JoinFirst("", rest);
      } else {
        JoinGrows(s[0], rest);
      }
    }
  }

  lemma SplitStep(s: string)
    requires s != ""
    ensures var rest := Split(s[1..]);
            Split(s) == if s[0] == '/' then [""] + rest else [[s[0]] + rest[0]] + rest[1..]
  {}

  lemma JoinFirst(first: string, rest: seq<string>)
    requires rest != []
    ensures JoinPath([first] + rest) == first + "/" + JoinPath(rest)
  {
    assert ([first] + rest)[1..] == rest;
  }

  /** A character in front of the first part is a character in front of the whole. */
  lemma JoinGrows(c: char, rest: seq<string>)
    requires rest != []
    ensures JoinPath([[c] + rest[0]] + rest[1..]) == [c] + JoinPath(rest)
  {
    var grown := [[c] + rest[0]] + rest[1..];
    assert grown[1..] == rest[1..];
    if |rest| > 1 {
      assert [c] + rest[0] + "/" + JoinPath(rest[1..]) == [c] + (rest[0] + "/" + JoinPath(rest[1..]));
    }
  }

  // ---------------------------------------------------------------- the report

  /** One test case: its place, the runs listed as failed, and whether it is marked as a failure. */
  datatype Case = Case(package: string, group: string, name: string, failedRuns: seq<nat>, failure: bool)

  /** Whether there is a report at all; junit tells whether junit_xml can be imported. */
  predicate Reports(args: Args, junit: bool) { args.minpass.Some? && args.iterations.Some? && junit }

  /** A script whose name has a package and a group, and that ran often enough. */
  predicate Reportable(script: Script, runs: seq<Entry>, n: int) {
    Slashes(script.path) >= 2 && |runs| >= n
  }

  /**
    * The case lists exactly the failed runs among the first n, and is a failure when fewer than
    * minpass of them passed.
    */
  ghost predicate IsCase(c: Case, script: Script, runs: seq<Entry>, n: int, minpass: nat) {
    && Reportable(script, runs, n)
    && (exists front, middle :: JoinPath([front, c.package, c.group] + middle) == script.path
                                && Split(script.path) == [front, c.package, c.group] + middle)
    && c.name == Split(script.path)[Slashes(script.path)]
    && (forall i :: i in c.failedRuns <==> 0 <= i < n && !runs[i].passed)
    && (forall i, j :: 0 <= i < j < |c.failedRuns| ==> c.failedRuns[i] < c.failedRuns[j])
    && (c.failure <==> Passes(if n > 0 then runs[..n] else []) < minpass)
  }

  /** The log that was kept of a run says that the script failed. */
  predicate SaysFailed(log: seq<Line>) { exists i :: 0 <= i < |log| && log[i].failed }

  /** The kept logs say FAILED exactly for the runs that failed. */
  predicate Logged(runs: seq<Entry>) {
    forall i :: 0 <= i < |runs| ==> (SaysFailed(runs[i].log) <==> !runs[i].passed)
  }

  /** That is so for every log that is read. */
  lemma {:induction false} OutcomesLogged(lines: seq<Line>, i: nat)
    ensures Logged(Outcomes(lines, i))
    decreases |lines| - i
  {
    if i < |lines| {
      hide Outcome, SaysFailed;
      OutcomesLogged(lines, i + 1);
      if lines[i].start.Some? && Outcome(lines, i).Some? {
        OutcomeLogged(lines, i);
      }
    }
  }

  lemma OutcomeLogged(lines: seq<Line>, i: nat)
    requires i < |lines| && lines[i].start.Some? && Outcome(lines, i).Some?
    ensures SaysFailed(Outcome(lines, i).value.log) <==> !Outcome(lines, i).value.passed
  {
    hide Verdict;
    var j := if lines[i].passed || lines[i].failed then Some(i) else Verdict(lines, i + 1);
    assert lines[i..j.value + 1][j.value - i] == lines[j.value];
  }

  lemma {:induction false} RunsLogged(results: seq<Entry>, s: Script)
    requires Logged(results)
    ensures Logged(RunsOf(results, s))
    decreases |results|
  {
    hide SaysFailed;
    if results != [] {
      RunsLogged(results[..|results| - 1], s);
    }
  }

  /** One turn of the loop of create_xml_report. */
  method MakeCase(script: Script, runs: seq<Entry>, n: int, minpass: nat) returns (r: PyResult<Case>)
    requires Logged(runs)
    ensures r.Raises? <==> !Reportable(script, runs, n)
    ensures r.Ok? ==> IsCase(r.value, script, runs, n, minpass)
  {
    hide Passes, Split, Slashes, SaysFailed;
    var parts := Split(script.path);
    if |parts| < 3 {
      return Raises;
    }
    var passIterations := 0;
    var failedIterations: seq<nat> := [];
    assert runs[..0] == [] && Passes([]) == 0 by { NoPasses(); }
    var i := 0;
    while i < n
      invariant 0 <= i <= |runs| && (i <= n || i == 0)
      invariant passIterations == Passes(runs[..i])
      invariant forall k :: k in failedIterations <==> 0 <= k < i && !runs[k].passed
      invariant forall j, k :: 0 <= j < k < |failedIterations| ==> failedIterations[j] < failedIterations[k]
    {
      if i >= |runs| {
        return Raises;
      }
      assert runs[..i + 1] == runs[..i] + [runs[i]];
      PassesSnoc(runs[..i], runs[i]);
      ghost var listed := failedIterations;
      if SaysFailed(runs[i].log) {
        failedIterations := failedIterations + [i];
        assert forall k :: k in failedIterations <==> k in listed || k == i;
        assert forall j :: 0 <= j < |listed| ==> listed[j] in listed && listed[j] < i;
      } else {
        passIterations := passIterations + 1;
      }
      i := i + 1;
    }
    SplitJoins(script.path);
    assert parts == [parts[0], parts[1], parts[2]] + parts[3..];
    r := Ok(Case(parts[1], parts[2], parts[|parts| - 1], failedIterations, passIterations < minpass));
  }

  lemma NoPasses()
    ensures Passes([]) == 0
  {}

  type Report = map<Script, Case>

  /** create_xml_report, up to the writing of the files. */
  method CreateXmlReport(args: Args, junit: bool, scripts: Scripts) returns (report: PyResult<Option<Report>>)
    requires forall s :: s in scripts ==> Logged(scripts[s].iters)
    ensures !Reports(args, junit) ==> report == Ok(None)
    ensures report.Raises? <==>
              && Reports(args, junit)
              && exists s :: s in scripts && !Reportable(s, scripts[s].iters, args.iterations.value)
    ensures Reports(args, junit) && report.Ok? ==>
              && report.value.Some? && report.value.value.Keys == scripts.Keys
              && forall s :: s in scripts ==>
                   IsCase(report.value.value[s], s, scripts[s].iters, args.iterations.value, args.minpass.value)
  {
    hide IsCase, Reportable, Logged;
    if args.minpass.None? || args.iterations.None? {
      return Ok(None);
    }
    if !junit {
      return Ok(None);
    }
    var cases: Report := map[];
    var todo := scripts.Keys;
    while todo != {}
      invariant todo <= scripts.Keys && cases.Keys == scripts.Keys - todo
      invariant forall s :: s in cases ==>
                  Reportable(s, scripts[s].iters, args.iterations.value)
                  && IsCase(cases[s], s, scripts[s].iters, args.iterations.value, args.minpass.value)
      decreases |todo|
    {
      var s :| s in todo;
      var c := MakeCase(s, scripts[s].iters, args.iterations.value, args.minpass.value);
      if c.Raises? {
        return Raises;
      }
      cases := cases[s := c.value];
      todo := todo - {s};
    }
    report := Ok(Some(cases));
  }

  // ---------------------------------------------------------------- report and exit code

  /** No case of the report is marked as a failure. */
  ghost predicate Clean(report: Report) { forall s :: s in report ==> !report[s].failure }

  lemma {:induction false} FirstPasses(runs: seq<Entry>, n: nat)
    requires n <= |runs|
    ensures Passes(runs[..n]) <= Passes(runs)
    decreases |runs|
  {
    if n < |runs| {
      assert runs[..|runs| - 1][..n] == runs[..n];
      FirstPasses(runs[..|runs| - 1], n);
    } else {
      assert runs[..n] == runs;
    }
  }

  /**
    * A report without failures means that every script passed at least minpass times, and the
    * other way round when no script ran more often than the report looks at.
    */
  lemma CleanMeansPasses(results: seq<Entry>, d: Scripts, report: Report, n: int, minpass: nat)
    requires Counts(d, results) && report.Keys == d.Keys
    requires forall s :: s in d ==> IsCase(report[s], s, d[s].iters, n, minpass)
    ensures Clean(report) ==> EveryScriptPasses(results, minpass)
    ensures EveryScriptPasses(results, minpass) && (forall s :: s in d ==> |d[s].iters| == n) ==> Clean(report)
  {
    hide Passes, RunsOf, Names, Split, JoinPath, Slashes;
    forall s | s in d
      ensures Passes(if n > 0 then d[s].iters[..n] else []) <= Passes(RunsOf(results, s))
      ensures |d[s].iters| == n ==> (if n > 0 then d[s].iters[..n] else []) == RunsOf(results, s)
    {
      NoPasses();
      if n > 0 {
        FirstPasses(d[s].iters, n);
      }
    }
  }

  /**
    * A script that fails its first run and passes its second: the report on one run is a failure, the
    * exit code is 0.
    */
  lemma ReportAndCodeDisagree(script: Script, c: Case, log: seq<Line>)
    requires IsCase(c, script, [Entry(script, false, log), Entry(script, true, [])], 1, 1)
    ensures c.failure
    ensures Accepts(Args(false, None, Some(1), Some(1)), [Entry(script, false, log), Entry(script, true, [])])
  {
    var first, second := Entry(script, false, log), Entry(script, true, []);
    var runs := [first] + [second];
    assert runs == [first, second] && runs[..1] == [] + [first];
    PassesSnoc([], first);
    PassesSnoc([first], second);
    RunsSnoc([], first, script);
    RunsSnoc([first], second, script);
    assert [] + [first] == [first];
    assert runs[1..] == [second] && Names([second]) == [script] && Names(runs) == [script] + [script];
  }

  // ---------------------------------------------------------------- the whole script

  /** The report cannot be made: some script has no package or group in its name, or too few runs. */
  ghost predicate ReportRaises(args: Args, junit: bool, results: seq<Entry>) {
    Reports(args, junit) && exists s :: s in Names(results) && !Reportable(s, RunsOf(results, s), args.iterations.value)
  }

  /** The whole script: the exit code of a log is 0 exactly when its results meet the options. */
  method ExitCode(lines: seq<Line>, args: Args, junit: bool) returns (code: PyResult<nat>)
    ensures code.Raises? <==>
              || ReportRaises(args, junit, Outcomes(lines, 0))
              || (Outcomes(lines, 0) == [] && !args.strict && (args.minpass.GetOr(0) > 1 || args.percent.GetOr(0) > 0))
    ensures code.Ok? ==> code.value == if Accepts(args, Outcomes(lines, 0)) then 0 else 1
  {
    hide *;
    var parser := new LogParser();
    var pending := parser.ParseLog(lines);
    var scripts, maxPasses, totalRuns, totalPasses := ProcessResults(parser.scriptResults);
    OutcomesLogged(lines, 0);
    LoggedScripts(scripts, parser.scriptResults);
    var report := CreateXmlReport(args, junit, scripts);
    ReportOfResults(args, junit, scripts, parser.scriptResults);
    if report.Raises? {
      return Raises;
    }
    PassesFit(parser.scriptResults, scripts, maxPasses);
    var histo := Histogram(scripts, maxPasses);
    code := ComputeExitCode(args, totalRuns, totalPasses, histo);
    ghost var results, m := parser.scriptResults, args.minpass.GetOr(0);
    if args.strict {
      StrictAccepts(args, results);
    } else {
      AcceptsMeans(args, results);
      BelowIsTooFew(results, scripts, histo[..], m);
      if results == [] {
        EmptyLogAccepts(args);
      } else if m > maxPasses {
        TooManyAsked(results, scripts, maxPasses, m);
      }
    }
  }

  lemma LoggedScripts(d: Scripts, results: seq<Entry>)
    requires Counts(d, results) && Logged(results)
    ensures forall s :: s in d ==> Logged(d[s].iters)
  {
    hide Logged, RunsOf, Names, Passes;
    forall s | s in d ensures Logged(d[s].iters) {
      RunsLogged(results, s);
    }
  }

  lemma ReportOfResults(args: Args, junit: bool, d: Scripts, results: seq<Entry>)
    requires Counts(d, results)
    ensures ReportRaises(args, junit, results) <==>
              Reports(args, junit) && exists s :: s in d && !Reportable(s, d[s].iters, args.iterations.value)
  {
    hide Reportable, RunsOf, Names, Passes;
  }
}

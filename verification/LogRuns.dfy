/**
  * What a log says, straight from its lines: a run is a start line and the first verdict after it,
  * unless another script starts before that. Results, missed runs and the exit code in these terms.
  */
module LogRuns {
  import opened Bytes
  import opened LogStats
  import opened LogTotals

  // ---------------------------------------------------------------- runs

  /** A script starts on line i, and the first verdict from there on is on line j, with no other start in between. */
  predicate RunAt(lines: seq<Line>, i: int, j: int) {
    && 0 <= i <= j < |lines| && lines[i].start.Some? && HasVerdict(lines[j])
    && (forall k :: i <= k < j ==> !HasVerdict(lines[k]))
    && (forall k :: i < k <= j ==> lines[k].start.None?)
  }

  predicate HasVerdict(l: Line) { l.passed || l.failed }

  /** A start without a verdict before the next start or the end of the log. */
  ghost predicate MissedAt(lines: seq<Line>, i: int) {
    0 <= i < |lines| && lines[i].start.Some? && forall j :: !RunAt(lines, i, j)
  }

  /** The entry of a run: its script, its verdict, and all of its lines if it failed. */
  predicate Tells(e: Entry, lines: seq<Line>, i: int, j: int)
    requires RunAt(lines, i, j)
  {
    && lines[i].start == Some(e.script) && (e.passed <==> lines[j].passed)
    && e.log == if lines[j].passed then [] else lines[i..j + 1]
  }

  datatype Span = Span(first: nat, last: nat)

  /** These are all the runs that start at line i or later, in their order. */
  ghost predicate AllRuns(lines: seq<Line>, i: nat, spans: seq<Span>) {
    && (forall n :: 0 <= n < |spans| ==> i <= spans[n].first && RunAt(lines, spans[n].first, spans[n].last))
    && (forall m, n :: 0 <= m < n < |spans| ==> spans[m].last < spans[n].first)
    && (forall a: nat, b: nat :: i <= a && RunAt(lines, a, b) ==> Span(a, b) in spans)
  }

  /** The results tell of these runs, one by one. */
  ghost predicate TellOf(results: seq<Entry>, lines: seq<Line>, spans: seq<Span>) {
    && |results| == |spans|
    && forall n :: 0 <= n < |spans| ==>
         RunAt(lines, spans[n].first, spans[n].last) && Tells(results[n], lines, spans[n].first, spans[n].last)
  }

  /** The line with the verdict is the first one, and before the next start. */
  lemma {:induction false} VerdictIsFirst(lines: seq<Line>, k: nat)
    ensures match Verdict(lines, k)
            case Some(j) => && HasVerdict(lines[j]) && (forall l :: k <= l < j ==> !HasVerdict(lines[l]))
                            && (forall l :: k <= l <= j ==> lines[l].start.None?)
            case None => forall j :: k <= j < |lines| && HasVerdict(lines[j]) ==>
                           exists l :: k <= l <= j && (lines[l].start.Some? || (l < j && HasVerdict(lines[l])))
    decreases |lines| - k
  {
    if k < |lines| && lines[k].start.None? && !HasVerdict(lines[k]) {
      VerdictIsFirst(lines, k + 1);
    }
  }

  /** What is recorded for a start line is its run, if it has one. */
  lemma OutcomeIsRun(lines: seq<Line>, i: nat)
    requires i < |lines| && lines[i].start.Some?
    ensures match Outcome(lines, i)
            case Some(e) => exists j: nat :: RunAt(lines, i, j) && Tells(e, lines, i, j)
            case None => MissedAt(lines, i)
  {
    hide Verdict;
    VerdictIsFirst(lines, i + 1);
    if HasVerdict(lines[i]) {
      assert RunAt(lines, i, i) && Tells(Outcome(lines, i).value, lines, i, i);
    } else if Verdict(lines, i + 1).Some? {
      var j := Verdict(lines, i + 1).value;
      assert RunAt(lines, i, j) && Tells(Outcome(lines, i).value, lines, i, j);
    }
  }

  lemma OneRunPerStart(lines: seq<Line>, i: int, j: int, k: int)
    requires RunAt(lines, i, j) && RunAt(lines, i, k)
    ensures j == k
  {}

  /**
    * The results are the runs: one entry for each, in order, with the verdict of the run's last
    * line and, for a failed one, all of its lines.
    */
  lemma ResultsAreRuns(lines: seq<Line>, i: nat)
    ensures exists spans :: AllRuns(lines, i, spans) && TellOf(Outcomes(lines, i), lines, spans)
  {
    var spans := FindRuns(lines, i);
  }

  lemma {:induction false} FindRuns(lines: seq<Line>, i: nat) returns (spans: seq<Span>)
    ensures AllRuns(lines, i, spans) && TellOf(Outcomes(lines, i), lines, spans)
    decreases |lines| - i
  {
    hide *;
    if i >= |lines| {
      spans := [];
      NoneLeft(lines, i);
    } else {
      var rest := FindRuns(lines, i + 1);
      OutcomesStep(lines, i);
      if lines[i].start.Some? {
        OutcomeIsRun(lines, i);
      }
      if lines[i].start.Some? && Outcome(lines, i).Some? {
        var e := Outcome(lines, i).value;
        var j: nat :| RunAt(lines, i, j) && Tells(e, lines, i, j);
        spans := [Span(i, j)] + rest;
        FirstRun(lines, i, j, rest);
        FirstTold(e, Outcomes(lines, i + 1), lines, Span(i, j), rest);
      } else {
        spans := rest;
        NoRunHere(lines, i, rest);
      }
    }
  }

  lemma OutcomesStep(lines: seq<Line>, i: nat)
    requires i < |lines|
    ensures Outcomes(lines, i)
            == if lines[i].start.Some? && Outcome(lines, i).Some?
               then [Outcome(lines, i).value] + Outcomes(lines, i + 1)
               else Outcomes(lines, i + 1)
    ensures Unsettled(lines, i)
            == if lines[i].start.Some? && Outcome(lines, i).None?
               then [lines[i].start.value] + Unsettled(lines, i + 1)
               else Unsettled(lines, i + 1)
  {
    hide Outcome;
  }

  lemma NoneLeft(lines: seq<Line>, i: nat)
    requires i >= |lines|
    ensures AllRuns(lines, i, []) && TellOf(Outcomes(lines, i), lines, [])
    ensures AllMissed(lines, i, []) && StartOn(Unsettled(lines, i), lines, [])
  {}

  /** A line that no run starts on. */
  lemma NoRunHere(lines: seq<Line>, i: nat, rest: seq<Span>)
    requires i < |lines| && (lines[i].start.None? || MissedAt(lines, i)) && AllRuns(lines, i + 1, rest)
    ensures AllRuns(lines, i, rest)
  {
    forall b ensures !RunAt(lines, i, b) {}
    hide RunAt, MissedAt;
  }

  lemma FirstTold(e: Entry, results: seq<Entry>, lines: seq<Line>, span: Span, rest: seq<Span>)
    requires RunAt(lines, span.first, span.last) && Tells(e, lines, span.first, span.last)
    requires TellOf(results, lines, rest)
    ensures TellOf([e] + results, lines, [span] + rest)
  {
    hide RunAt, Tells;
    var all, spans := [e] + results, [span] + rest;
    forall n | 0 <= n < |spans|
      ensures RunAt(lines, spans[n].first, spans[n].last)
      ensures Tells(all[n], lines, spans[n].first, spans[n].last)
    {
      if n > 0 {
        assert all[n] == results[n - 1] && spans[n] == rest[n - 1];
      }
    }
  }

  lemma FirstRun(lines: seq<Line>, i: nat, j: nat, rest: seq<Span>)
    requires RunAt(lines, i, j) && AllRuns(lines, i + 1, rest)
    ensures AllRuns(lines, i, [Span(i, j)] + rest)
  {
    var spans := [Span(i, j)] + rest;
    forall n | 0 <= n < |rest| ensures j < rest[n].first {
      assert RunAt(lines, rest[n].first, rest[n].last);
    }
    hide RunAt;
    forall a: nat, b: nat | i <= a && RunAt(lines, a, b) ensures Span(a, b) in spans {
      if a == i {
        OneRunPerStart(lines, i, j, b);
        assert spans[0] == Span(a, b);
      } else {
        assert Span(a, b) in rest;
      }
    }
  }

  /** These are all the starts at line i or later that get no verdict, in their order. */
  ghost predicate AllMissed(lines: seq<Line>, i: nat, at: seq<nat>) {
    && (forall n :: 0 <= n < |at| ==> i <= at[n] && MissedAt(lines, at[n]))
    && (forall m, n :: 0 <= m < n < |at| ==> at[m] < at[n])
    && (forall a: nat :: i <= a && MissedAt(lines, a) ==> a in at)
  }

  /** The scripts that start on these lines. */
  predicate StartOn(scripts: seq<Script>, lines: seq<Line>, at: seq<nat>) {
    && |scripts| == |at|
    && forall n :: 0 <= n < |at| ==> at[n] < |lines| && lines[at[n]].start == Some(scripts[n])
  }

  /** The missed runs are the starts without a verdict, one by one and in order. */
  lemma MissedAreStarts(lines: seq<Line>, i: nat)
    ensures exists at :: AllMissed(lines, i, at) && StartOn(Unsettled(lines, i), lines, at)
  {
    var at := FindMissed(lines, i);
  }

  lemma {:induction false} FindMissed(lines: seq<Line>, i: nat) returns (at: seq<nat>)
    ensures AllMissed(lines, i, at) && StartOn(Unsettled(lines, i), lines, at)
    decreases |lines| - i
  {
    hide *;
    if i >= |lines| {
      at := [];
      NoneLeft(lines, i);
    } else {
      var rest := FindMissed(lines, i + 1);
      OutcomesStep(lines, i);
      if lines[i].start.Some? {
        OutcomeIsRun(lines, i);
      }
      if lines[i].start.Some? && Outcome(lines, i).None? {
        at := [i] + rest;
        FirstMissed(lines, i, rest, Unsettled(lines, i + 1));
      } else {
        at := rest;
        NotMissedHere(lines, i, rest);
      }
    }
  }

  lemma FirstMissed(lines: seq<Line>, i: nat, rest: seq<nat>, scripts: seq<Script>)
    requires MissedAt(lines, i) && AllMissed(lines, i + 1, rest) && StartOn(scripts, lines, rest)
    ensures AllMissed(lines, i, [i] + rest) && lines[i].start.Some?
    ensures StartOn([lines[i].start.value] + scripts, lines, [i] + rest)
  {
    hide RunAt;
    assert lines[i].start.Some?;
    hide MissedAt;
    var at := [i] + rest;
    forall a: nat | i <= a && MissedAt(lines, a) ensures a in at {
      if a == i {
        assert at[0] == a;
      } else {
        assert a in rest;
      }
    }
  }

  lemma NotMissedHere(lines: seq<Line>, i: nat, rest: seq<nat>)
    requires i < |lines| && (lines[i].start.None? || Outcome(lines, i).Some?) && AllMissed(lines, i + 1, rest)
    ensures AllMissed(lines, i, rest)
  {
    hide Outcome, RunAt, Tells;
    if lines[i].start.Some? {
      OutcomeIsRun(lines, i);
    }
    assert !MissedAt(lines, i);
    hide MissedAt;
  }

  // ---------------------------------------------------------------- the verdict on a log

  /** Which of the results are passes of a script. */
  ghost function PassedOf(results: seq<Entry>, s: Script): set<int> {
    set n | 0 <= n < |results| && results[n].script == s && results[n].passed
  }

  /** The passes of a script are counted one by one. */
  lemma {:induction false} PassesAreCounted(results: seq<Entry>, s: Script)
    ensures Passes(RunsOf(results, s)) == |PassedOf(results, s)|
    decreases |results|
  {
    hide RunsOf;
    if results == [] {
      RunsOfNothing(s);
      assert PassedOf(results, s) == {};
    } else {
      var n, front := |results| - 1, results[..|results| - 1];
      PassesAreCounted(front, s);
      assert results == front + [results[n]];
      RunsSnoc(front, results[n], s);
      PassesSnoc(RunsOf(front, s), results[n]);
      if results[n].script == s && results[n].passed {
        assert PassedOf(results, s) == PassedOf(front, s) + {n};
      } else {
        assert PassedOf(results, s) == PassedOf(front, s);
      }
    }
  }

  lemma RunsOfNothing(s: Script)
    ensures RunsOf([], s) == [] && Passes([]) == 0
  {}

  /** The percentage that is compared with the threshold is rounded down. */
  lemma PercentageMet(passes: nat, runs: nat, percent: nat)
    requires runs > 0
    ensures Enough(passes, runs, percent) <==> 100 * passes / runs >= percent
  {
    PercentFloor(100 * passes, runs, percent);
  }

  /** A hundred per cent means every run. */
  lemma AllOfThem(args: Args, results: seq<Entry>)
    requires !args.strict && args.percent == Some(100) && args.minpass.GetOr(0) == 0
    ensures Accepts(args, results) <==> AllRunsPass(results)
  {
    AllPassed(results);
  }

  /** In strict mode a log is accepted exactly when the last line of every run in it says that it passed. */
  lemma StrictMeansNoFailure(lines: seq<Line>, args: Args)
    requires args.strict
    ensures Accepts(args, Outcomes(lines, 0)) <==> forall i: nat, j: nat :: RunAt(lines, i, j) ==> lines[j].passed
  {
    hide Outcomes;
    ResultsAreRuns(lines, 0);
    var results := Outcomes(lines, 0);
    var spans :| AllRuns(lines, 0, spans) && TellOf(results, lines, spans);
    if Accepts(args, results) {
      forall i: nat, j: nat | RunAt(lines, i, j) ensures lines[j].passed {
        hide RunAt;
        var n :| 0 <= n < |spans| && spans[n] == Span(i, j);
        RunTold(results, lines, spans, n);
      }
    } else {
      var n :| 0 <= n < |results| && !results[n].passed;
      RunTold(results, lines, spans, n);
    }
  }

  lemma RunTold(results: seq<Entry>, lines: seq<Line>, spans: seq<Span>, n: nat)
    requires TellOf(results, lines, spans) && n < |spans|
    ensures var r := spans[n]; RunAt(lines, r.first, r.last) && lines[r.last].passed == results[n].passed
  {}
}

/**
  * The statistics of a test log: a line-driven state machine, per-script counters, a histogram
  * of passes and the exit code computed from them.
  */
module LogStats {
  import opened Bytes

  /** The name of a script, as the log prints it. */
  datatype Script = Script(path: string)

  /** A log line: its text, the script name of an "Executing script:" match, and which verdicts occur in it. */
  datatype Line = Line(text: string, start: Option<Script>, passed: bool, failed: bool)

  /** An entry of script_results; log holds the lines of the run when it failed. */
  datatype Entry = Entry(script: Script, passed: bool, log: seq<Line>)

  // ---------------------------------------------------------------- what a log says

  /** The first line from k on that carries a verdict, unless another script starts first. */
  function Verdict(lines: seq<Line>, k: nat): (j: Option<nat>)
    ensures j.Some? ==> k <= j.value < |lines| && (lines[j.value].passed || lines[j.value].failed)
    decreases |lines| - k
  {
    if k >= |lines| || lines[k].start.Some? then None
    else if lines[k].passed || lines[k].failed then Some(k)
    else Verdict(lines, k + 1)
  }

  function Settle(lines: seq<Line>, i: nat, script: Script, j: Option<nat>): Option<Entry>
    requires j.Some? ==> i <= j.value < |lines|
  {
    if j.None? then None
    else if lines[j.value].passed then Some(Entry(script, true, []))
    else Some(Entry(script, false, lines[i..j.value + 1]))
  }

  /** The result of the run that starts on line i: its first verdict, if there is one before the next start. */
  function Outcome(lines: seq<Line>, i: nat): Option<Entry>
    requires i < |lines| && lines[i].start.Some?
  {
    var j := if lines[i].passed || lines[i].failed then Some(i) else Verdict(lines, i + 1);
    Settle(lines, i, lines[i].start.value, j)
  }

  function ToSeq<T>(x: Option<T>): (s: seq<T>)
    ensures |s| == if x.Some? then 1 else 0
  {
    if x.Some? then [x.value] else []
  }

  /** The results of the runs that start at line i or later, in order. */
  function Outcomes(lines: seq<Line>, i: nat): seq<Entry>
    decreases |lines| - i
  {
    if i >= |lines| then []
    else if lines[i].start.Some? then ToSeq(Outcome(lines, i)) + Outcomes(lines, i + 1)
    else Outcomes(lines, i + 1)
  }

  /** The scripts of the runs that start at line i or later and get no verdict, in order. */
  function Unsettled(lines: seq<Line>, i: nat): seq<Script>
    decreases |lines| - i
  {
    if i >= |lines| then []
    else if lines[i].start.Some? && Outcome(lines, i).None? then [lines[i].start.value] + Unsettled(lines, i + 1)
    else Unsettled(lines, i + 1)
  }

  function Starts(lines: seq<Line>, i: nat): seq<Script>
    decreases |lines| - i
  {
    if i >= |lines| then [] else ToSeq(lines[i].start) + Starts(lines, i + 1)
  }

  /** The number of verdicts on a line: it may carry both. */
  function VerdictsOn(l: Line): nat {
    (if l.passed then 1 else 0) + if l.failed then 1 else 0
  }

  function Verdicts(lines: seq<Line>, i: nat): nat
    decreases |lines| - i
  {
    if i >= |lines| then 0
    else VerdictsOn(lines[i]) + Verdicts(lines, i + 1)
  }

  function Names(results: seq<Entry>): (n: seq<Script>)
    ensures |n| == |results|
  {
    if results == [] then [] else [results[0].script] + Names(results[1..])
  }

  /** Every started run is either a result or left without one: none is lost or counted twice. */
  lemma {:induction false} StartsAreSettledOrNot(lines: seq<Line>, i: nat)
    ensures multiset(Starts(lines, i)) == multiset(Names(Outcomes(lines, i))) + multiset(Unsettled(lines, i))
    decreases |lines| - i
  {
    if i < |lines| {
      StartsAreSettledOrNot(lines, i + 1);
      StartIsSettledOrNot(lines, i);
      hide *;
      var s, n, u := Starts(lines, i + 1), Names(Outcomes(lines, i + 1)), Unsettled(lines, i + 1);
      if lines[i].start.Some? {
        var name := [lines[i].start.value];
        assert multiset(name + s) == multiset(name) + multiset(s);
        if Outcome(lines, i).Some? {
          assert multiset(name + n) == multiset(name) + multiset(n);
        } else {
          assert multiset(name + u) == multiset(name) + multiset(u);
        }
      }
    }
  }

  lemma {:induction false} StartIsSettledOrNot(lines: seq<Line>, i: nat)
    requires i < |lines|
    ensures lines[i].start.None? ==>
              && Starts(lines, i) == Starts(lines, i + 1)
              && Outcomes(lines, i) == Outcomes(lines, i + 1)
              && Unsettled(lines, i) == Unsettled(lines, i + 1)
    ensures lines[i].start.Some? ==>
              var name := [lines[i].start.value];
              && Starts(lines, i) == name + Starts(lines, i + 1)
              && (Outcome(lines, i).Some? ==>
                    && Names(Outcomes(lines, i)) == name + Names(Outcomes(lines, i + 1))
                    && Unsettled(lines, i) == Unsettled(lines, i + 1))
              && (Outcome(lines, i).None? ==>
                    && Outcomes(lines, i) == Outcomes(lines, i + 1)
                    && Unsettled(lines, i) == name + Unsettled(lines, i + 1))
  {
    if lines[i].start.Some? && Outcome(lines, i).Some? {
      OutcomeIsNamed(lines, i);
      var o := [Outcome(lines, i).value];
      assert (o + Outcomes(lines, i + 1))[1..] == Outcomes(lines, i + 1);
    }
  }

  lemma OutcomeIsNamed(lines: seq<Line>, i: nat)
    requires i < |lines| && lines[i].start.Some?
    ensures Outcome(lines, i).Some? ==> Outcome(lines, i).value.script == lines[i].start.value
  {}

  /** The parser's state between lines: idle, or waiting for the verdict of the run begun on line i. */
  datatype Wait = Idle | Waiting(i: nat, script: Script)

  function Started(lines: seq<Line>, k: nat, w: Wait): Wait
    requires k < |lines|
  {
    if lines[k].start.Some? then Waiting(k, lines[k].start.value) else w
  }

  /** The results still to be recorded when line k is next. */
  function StillToCome(lines: seq<Line>, k: nat, w: Wait): seq<Entry>
    requires w.Waiting? ==> w.i <= k
  {
    if w.Idle? then Outcomes(lines, k)
    else ToSeq(Settle(lines, w.i, w.script, Verdict(lines, k))) + Outcomes(lines, k)
  }

  /** The scripts still to be left without a result when line k is next. */
  function StillToMiss(lines: seq<Line>, k: nat, w: Wait): seq<Script>
  {
    if w.Waiting? && Verdict(lines, k).None? then [w.script] + Unsettled(lines, k) else Unsettled(lines, k)
  }

  /** The result recorded on line k, if any. */
  function Recorded(lines: seq<Line>, k: nat, w: Wait): seq<Entry>
    requires k < |lines| && (w.Waiting? ==> w.i <= k)
  {
    var v := Started(lines, k, w);
    if v.Idle? then []
    else if lines[k].passed then [Entry(v.script, true, [])]
    else if lines[k].failed then [Entry(v.script, false, lines[v.i..k] + [lines[k]])]
    else []
  }

  /** The run given up on line k, if any. */
  function GivenUp(lines: seq<Line>, k: nat, w: Wait): seq<Script>
    requires k < |lines|
  {
    if lines[k].start.Some? && w.Waiting? then [w.script] else []
  }

  function Next(lines: seq<Line>, k: nat, w: Wait): Wait
    requires k < |lines|
  {
    if lines[k].passed || lines[k].failed then Idle else Started(lines, k, w)
  }

  lemma {:induction false} LineSettles(lines: seq<Line>, k: nat, w: Wait)
    requires k < |lines| && (w.Waiting? ==> w.i <= k)
    ensures StillToCome(lines, k, w) == Recorded(lines, k, w) + StillToCome(lines, k + 1, Next(lines, k, w))
  {
    var v := Started(lines, k, w);
    if v.Waiting? {
      assert lines[v.i..k + 1] == lines[v.i..k] + [lines[k]];
    }
  }

  lemma {:induction false} LineMisses(lines: seq<Line>, k: nat, w: Wait)
    requires k < |lines|
    ensures StillToMiss(lines, k, w) == GivenUp(lines, k, w) + StillToMiss(lines, k + 1, Next(lines, k, w))
  {
    var l := lines[k];
    if l.start.Some? {
      assert Outcome(lines, k).None? <==> !l.passed && !l.failed && Verdict(lines, k + 1).None?;
    }
    hide Settle, Outcome;
    var rest := StillToMiss(lines, k + 1, Next(lines, k, w));
    if l.start.Some? {
      assert Unsettled(lines, k) == rest;
    } else {
      assert StillToMiss(lines, k, w) == rest;
    }
  }

  lemma NothingToCome(lines: seq<Line>, w: Wait)
    requires w.Waiting? ==> w.i <= |lines|
    ensures StillToCome(lines, |lines|, w) == []
    ensures StillToMiss(lines, |lines|, w) == if w.Waiting? then [w.script] else []
  {}

  // ---------------------------------------------------------------- reading the log

  lemma StartsAreCounted(lines: seq<Line>)
    ensures |Starts(lines, 0)| == |Outcomes(lines, 0)| + |Unsettled(lines, 0)|
  {
    StartsAreSettledOrNot(lines, 0);
    assert |multiset(Starts(lines, 0))| == |Starts(lines, 0)|;
  }

  /** Recording what line k settles and gives up keeps the totals. */
  lemma LineDone(lines: seq<Line>, k: nat, w: Wait, results: seq<Entry>, missed: seq<Script>)
    requires k < |lines| && (w.Waiting? ==> w.i <= k)
    ensures var v := Next(lines, k, w);
            && results + StillToCome(lines, k, w) == results + Recorded(lines, k, w) + StillToCome(lines, k + 1, v)
            && missed + StillToMiss(lines, k, w) == missed + GivenUp(lines, k, w) + StillToMiss(lines, k + 1, v)
  {
    hide Recorded, GivenUp, Next, StillToCome, StillToMiss;
    LineSettles(lines, k, w);
    LineMisses(lines, k, w);
  }

  /** The module-level lists the parser fills, and the variables it keeps from line to line. */
  class LogParser {
    var scriptResults: seq<Entry>
    var dups: seq<Script>
    var missed: seq<Script>
    var waiting: bool
    var script: Script
    var prevScript: Script
    var log: seq<Line>

    constructor ()
      ensures scriptResults == [] && dups == [] && missed == [] && !waiting && prevScript == Script("")
    {
      scriptResults, dups, missed := [], [], [];
      waiting, script, prevScript, log := false, Script(""), Script(""), [];
    }

    /** The state is w when line k is next. */
    ghost predicate At(lines: seq<Line>, k: nat, w: Wait)
      reads this
    {
      && k <= |lines| && waiting == w.Waiting?
      && (waiting ==> w.script == script && w.i <= k && log == lines[w.i..k])
      && prevScript == (if scriptResults == [] then Script("") else scriptResults[|scriptResults| - 1].script)
    }

    /**
      * The body of the loop: the lists grow by what line k records and gives up, and every other
      * verdict is a duplicate.
      */
    method ReadLine(ghost lines: seq<Line>, ghost k: nat, ghost w: Wait, l: Line)
      requires k < |lines| && l == lines[k] && At(lines, k, w)
      modifies this
      ensures At(lines, k + 1, Next(lines, k, w))
      ensures scriptResults == old(scriptResults) + Recorded(lines, k, w)
      ensures missed == old(missed) + GivenUp(lines, k, w)
      ensures old(dups) <= dups
      ensures |scriptResults| + |dups| == old(|scriptResults| + |dups|) + VerdictsOn(l)
      ensures forall i :: old(|dups|) <= i < |dups| ==>
                dups[i] == if scriptResults == [] then Script("") else scriptResults[|scriptResults| - 1].script
    {
      hide Outcomes, Unsettled, StillToCome, StillToMiss, Verdict, Settle;
      if l.start.Some? {
        if waiting {
          missed := missed + [script];
        }
        waiting := true;
        script := l.start.value;
        log := [];
        assert lines[k..k] == [];
      }
      log := log + [l];
      if l.passed {
        if waiting {
          scriptResults := scriptResults + [Entry(script, true, [])];
          prevScript := script;
          script := Script("");
          waiting := false;
        } else {
          dups := dups + [prevScript];
        }
      }
      if l.failed {
        if waiting {
          scriptResults := scriptResults + [Entry(script, false, log)];
          prevScript := script;
          script := Script("");
          waiting := false;
        } else {
          dups := dups + [prevScript];
        }
      }
    }

    /** parse_log; pending is the script still waiting for its verdict at the end of the log. */
    method ParseLog(lines: seq<Line>) returns (pending: Option<Script>)
      requires scriptResults == [] && dups == [] && missed == [] && !waiting && prevScript == Script("")
      modifies this
      ensures scriptResults == Outcomes(lines, 0)
      ensures missed + ToSeq(pending) == Unsettled(lines, 0)
      ensures Verdicts(lines, 0) == |scriptResults| + |dups|
      ensures |Starts(lines, 0)| == |scriptResults| + |missed| + if pending.Some? then 1 else 0
    {
      assert StillToCome(lines, 0, Idle) == Outcomes(lines, 0) && StillToMiss(lines, 0, Idle) == Unsettled(lines, 0);
      hide StillToCome, StillToMiss, Outcomes, Unsettled, Starts, VerdictsOn, Recorded, GivenUp, Next;
      ghost var w := Idle;
      var k := 0;
      while k < |lines|
        invariant 0 <= k <= |lines| && At(lines, k, w)
        invariant scriptResults + StillToCome(lines, k, w) == Outcomes(lines, 0)
        invariant missed + StillToMiss(lines, k, w) == Unsettled(lines, 0)
        invariant |scriptResults| + |dups| + Verdicts(lines, k) == Verdicts(lines, 0)
      {
        LineDone(lines, k, w, scriptResults, missed);
        ReadLine(lines, k, w, lines[k]);
        w := Next(lines, k, w);
        k := k + 1;
      }
      pending := if waiting then Some(script) else None;
      NothingToCome(lines, w);
      StartsAreCounted(lines);
    }
  }
}

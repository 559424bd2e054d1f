/** From the results of a log to the verdict on it: counters per script, a histogram of passes, the exit code. */
module LogTotals {
  import opened Bytes
  import opened LogStats

  // ---------------------------------------------------------------- sums over sets and lists

  ghost function SumOver(keys: set<Script>, f: Script -> int): int
    decreases |keys|
  {
    if keys == {} then 0
    else
      var s :| s in keys;
      f(s) + SumOver(keys - {s}, f)
  }

  /** Any member may be taken out first. */
  lemma {:induction false} SumWithout(keys: set<Script>, f: Script -> int, x: Script)
    requires x in keys
    ensures SumOver(keys, f) == f(x) + SumOver(keys - {x}, f)
    decreases |keys|
  {
    var s :| s in keys && SumOver(keys, f) == f(s) + SumOver(keys - {s}, f);
    if s != x {
      SumWithout(keys - {s}, f, x);
      SumWithout(keys - {x}, f, s);
      assert keys - {s} - {x} == keys - {x} - {s};
    }
  }

  lemma {:induction false} SumSame(keys: set<Script>, f: Script -> int, g: Script -> int)
    requires forall s :: s in keys ==> f(s) == g(s)
    ensures SumOver(keys, f) == SumOver(keys, g)
    decreases |keys|
  {
    if keys != {} {
      var s :| s in keys;
      SumWithout(keys, f, s);
      SumWithout(keys, g, s);
      SumSame(keys - {s}, f, g);
    }
  }

  function Sum(h: seq<nat>): nat
    decreases |h|
  {
    if h == [] then 0 else Sum(h[..|h| - 1]) + h[|h| - 1]
  }

  /** The sum of i * h[i]. */
  function Weighted(h: seq<nat>): nat
    decreases |h|
  {
    if h == [] then 0 else Weighted(h[..|h| - 1]) + (|h| - 1) * h[|h| - 1]
  }

  lemma {:induction false} OneMore(h: seq<nat>, i: nat)
    requires i < |h|
    ensures Sum(h[i := h[i] + 1]) == Sum(h) + 1
    ensures Weighted(h[i := h[i] + 1]) == Weighted(h) + i
    decreases |h|
  {
    var g := h[i := h[i] + 1];
    var n := |h| - 1;
    if i == n {
      assert g[..n] == h[..n];
      assert n * (h[n] + 1) == n * h[n] + n;
    } else {
      assert g[..n] == h[..n][i := h[i] + 1];
      OneMore(h[..n], i);
    }
  }

  lemma {:induction false} SumOfZeros(h: seq<nat>)
    requires forall i :: 0 <= i < |h| ==> h[i] == 0
    ensures Sum(h) == 0 && Weighted(h) == 0
    decreases |h|
  {
    if h != [] {
      SumOfZeros(h[..|h| - 1]);
    }
  }

  // ---------------------------------------------------------------- counting by script

  /** The results of one script, in order. */
  function RunsOf(results: seq<Entry>, script: Script): seq<Entry>
    decreases |results|
  {
    if results == [] then []
    else
      var r := results[|results| - 1];
      RunsOf(results[..|results| - 1], script) + if r.script == script then [r] else []
  }

  function Passes(results: seq<Entry>): (n: nat)
    ensures n <= |results|
    decreases |results|
  {
    if results == [] then 0
    else Passes(results[..|results| - 1]) + if results[|results| - 1].passed then 1 else 0
  }

  datatype Totals = Totals(passed: nat, failed: nat, iters: seq<Entry>)

  type Scripts = map<Script, Totals>

  /** The dictionary holds exactly the scripts of the results, each with its runs and their counts. */
  ghost predicate Counts(d: Scripts, results: seq<Entry>) {
    && (forall s :: s in d <==> s in Names(results))
    && forall s :: s in d ==> CountsOne(d[s], RunsOf(results, s))
  }

  predicate CountsOne(t: Totals, runs: seq<Entry>) {
    t.iters == runs && t.passed == Passes(runs) && t.passed + t.failed == |runs|
  }

  /** n is the largest number of runs of one script, 0 if there are none. */
  ghost predicate MostRuns(d: Scripts, n: nat) {
    && (forall s :: s in d ==> |d[s].iters| <= n)
    && (n > 0 ==> exists s :: s in d && |d[s].iters| == n)
  }

  lemma RunsSnoc(results: seq<Entry>, r: Entry, s: Script)
    ensures RunsOf(results + [r], s) == if r.script == s then RunsOf(results, s) + [r] else RunsOf(results, s)
  {
    assert (results + [r])[..|results|] == results;
  }

  lemma PassesSnoc(results: seq<Entry>, r: Entry)
    ensures Passes(results + [r]) == Passes(results) + if r.passed then 1 else 0
  {
    assert (results + [r])[..|results|] == results;
  }

  lemma NamesAppend(a: seq<Entry>, b: seq<Entry>)
    ensures Names(a + b) == Names(a) + Names(b)
  {
    if a == [] {
      assert a + b == b;
    } else {
      assert (a + b)[1..] == a[1..] + b;
      NamesAppend(a[1..], b);
    }
  }

  /** A script without results has no entry: the dictionary starts it from nothing. */
  lemma {:induction false} NoRuns(results: seq<Entry>, s: Script)
    ensures s in Names(results) <==> RunsOf(results, s) != []
    decreases |results|
  {
    if results != [] {
      var n := |results| - 1;
      NoRuns(results[..n], s);
      assert results == results[..n] + [results[n]];
      NamesAppend(results[..n], [results[n]]);
      assert Names([results[n]]) == [results[n].script];
    }
  }

  ghost function RunCounts(results: seq<Entry>): Script -> int {
    s => |RunsOf(results, s)|
  }

  ghost function PassCounts(results: seq<Entry>): Script -> int {
    s => Passes(RunsOf(results, s))
  }

  /** Summed over the scripts, the runs are all the results and the passes are all the passes. */
  lemma {:induction false} ScriptsAddUp(keys: set<Script>, results: seq<Entry>)
    requires forall i :: 0 <= i < |results| ==> results[i].script in keys
    ensures SumOver(keys, RunCounts(results)) == |results|
    ensures SumOver(keys, PassCounts(results)) == Passes(results)
    decreases |results|
  {
    if results == [] {
      SumOfNothing(keys, RunCounts(results));
      SumOfNothing(keys, PassCounts(results));
    } else {
      hide RunCounts, PassCounts, RunsOf, SumOver, Passes;
      var n := |results| - 1;
      ScriptsAddUp(keys, results[..n]);
      assert results == results[..n] + [results[n]];
      PassesSnoc(results[..n], results[n]);
      OneResultMore(results[..n], results[n]);
      var x := results[n].script;
      OneScriptMore(keys, x, RunCounts(results[..n]), RunCounts(results), 1);
      OneScriptMore(keys, x, PassCounts(results[..n]), PassCounts(results), if results[n].passed then 1 else 0);
    }
  }

  lemma OneResultMore(results: seq<Entry>, r: Entry)
    ensures forall s :: RunCounts(results + [r])(s) == RunCounts(results)(s) + if s == r.script then 1 else 0
    ensures forall s :: PassCounts(results + [r])(s)
                        == PassCounts(results)(s) + if s == r.script && r.passed then 1 else 0
  {
    forall s ensures RunCounts(results + [r])(s) == RunCounts(results)(s) + (if s == r.script then 1 else 0)
                  && PassCounts(results + [r])(s)
                     == PassCounts(results)(s) + if s == r.script && r.passed then 1 else 0
    {
      hide RunsOf, Passes;
      RunsSnoc(results, r, s);
      PassesSnoc(RunsOf(results, s), r);
    }
  }

  lemma {:induction false} SumOfNothing(keys: set<Script>, f: Script -> int)
    requires forall s :: s in keys ==> f(s) == 0
    ensures SumOver(keys, f) == 0
    decreases |keys|
  {
    if keys != {} {
      var s :| s in keys;
      SumWithout(keys, f, s);
      SumOfNothing(keys - {s}, f);
    }
  }

  lemma OneScriptMore(keys: set<Script>, x: Script, f: Script -> int, g: Script -> int, more: int)
    requires x in keys && g(x) == f(x) + more
    requires forall s :: s in keys && s != x ==> g(s) == f(s)
    ensures SumOver(keys, g) == SumOver(keys, f) + more
  {
    SumWithout(keys, f, x);
    SumWithout(keys, g, x);
    SumSame(keys - {x}, f, g);
  }

  lemma {:induction false} CountsSnoc(d: Scripts, results: seq<Entry>, r: Entry, t: Totals)
    requires Counts(d, results)
    requires CountsOne(t, RunsOf(results, r.script) + [r])
    ensures Counts(d[r.script := t], results + [r])
  {
    hide CountsOne;
    var all := results + [r];
    forall s ensures s in Names(all) <==> s in Names(results) || s == r.script {
      NamesAppend(results, [r]);
      assert Names([r]) == [r.script];
    }
    forall s ensures RunsOf(all, s) == if r.script == s then RunsOf(results, s) + [r] else RunsOf(results, s) {
      RunsSnoc(results, r, s);
    }
    var e := d[r.script := t];
    forall s | s in e ensures CountsOne(e[s], RunsOf(all, s)) {
      if s != r.script {
        assert RunsOf(all, s) == RunsOf(results, s);
      }
    }
  }

  lemma MostRunsStep(d: Scripts, script: Script, t: Totals, n: nat)
    requires MostRuns(d, n)
    requires |t.iters| == |Entered(d, script).iters| + 1
    ensures MostRuns(d[script := t], if |t.iters| > n then |t.iters| else n)
  {
    var e := d[script := t];
    assert script in e && e[script] == t;
    if |t.iters| <= n {
      var s :| s in d && |d[s].iters| == n;
      assert s != script && s in e && e[s] == d[s];
    }
  }

  /** The entry of a script, or the fresh one it would get. */
  function Entered(d: Scripts, s: Script): Totals {
    if s in d then d[s] else Totals(0, 0, [])
  }

  lemma CountsSoFar(d: Scripts, results: seq<Entry>, s: Script)
    requires Counts(d, results)
    ensures CountsOne(Entered(d, s), RunsOf(results, s))
  {
    NoRuns(results, s);
  }

  /** What counting one more result does to the dictionary and the maximum. */
  lemma {:induction false} ResultCounted(d: Scripts, results: seq<Entry>, r: Entry, n: nat, t: Totals, m: nat)
    requires Counts(d, results) && MostRuns(d, n)
    requires t.iters == Entered(d, r.script).iters + [r]
    requires t.passed == Entered(d, r.script).passed + if r.passed then 1 else 0
    requires t.failed == Entered(d, r.script).failed + if r.passed then 0 else 1
    requires m == if t.passed + t.failed > n then t.passed + t.failed else n
    ensures Counts(d[r.script := t], results + [r]) && MostRuns(d[r.script := t], m)
    ensures Passes(results + [r]) == Passes(results) + if r.passed then 1 else 0
  {
    hide RunsOf, Passes, Counts, MostRuns, Entered, Names;
    PassesSnoc(results, r);
    PassesSnoc(RunsOf(results, r.script), r);
    CountsSoFar(d, results, r.script);
    assert CountsOne(t, RunsOf(results, r.script) + [r]) && t.passed + t.failed == |t.iters|;
    CountsSnoc(d, results, r, t);
    MostRunsStep(d, r.script, t, n);
  }

  method ProcessResults(scriptResults: seq<Entry>)
    returns (scripts: Scripts, maxPasses: nat, totalRuns: nat, totalPasses: nat)
    ensures Counts(scripts, scriptResults) && MostRuns(scripts, maxPasses)
    ensures totalRuns == |scriptResults| && totalPasses == Passes(scriptResults)
  {
    assert Counts(map[], []) && MostRuns(map[], 0) && Passes([]) == 0;
    hide *;
    totalRuns, totalPasses, scripts, maxPasses := 0, 0, map[], 0;
    while totalRuns < |scriptResults|
      invariant totalRuns <= |scriptResults|
      invariant Counts(scripts, scriptResults[..totalRuns]) && MostRuns(scripts, maxPasses)
      invariant totalPasses == Passes(scriptResults[..totalRuns])
    {
      ghost var done, n := scriptResults[..totalRuns], maxPasses;
      var r := scriptResults[totalRuns];
      assert scriptResults[..totalRuns + 1] == done + [r];
      var counts := Entered(scripts, r.script);
      totalRuns := totalRuns + 1;
      if r.passed {
        counts := counts.(passed := counts.passed + 1);
        totalPasses := totalPasses + 1;
      } else {
        counts := counts.(failed := counts.failed + 1);
      }
      if counts.passed + counts.failed > maxPasses {
        maxPasses := counts.passed + counts.failed;
      }
      counts := counts.(iters := counts.iters + [r]);
      ResultCounted(scripts, done, r, n, counts, maxPasses);
      scripts := scripts[r.script := counts];
    }
    assert scriptResults[..totalRuns] == scriptResults;
  }

  // ---------------------------------------------------------------- the histogram

  ghost function With(d: Scripts, keys: set<Script>, n: int): set<Script> {
    set s | s in keys && s in d && d[s].passed == n
  }

  ghost function PassedBy(d: Scripts): Script -> int {
    s => if s in d then d[s].passed else 0
  }

  /** Entry i counts the scripts that passed i times. */
  ghost predicate IsHistogram(h: seq<nat>, d: Scripts, keys: set<Script>) {
    forall i :: 0 <= i < |h| ==> h[i] == |With(d, keys, i)|
  }

  lemma HistogramStep(h: seq<nat>, d: Scripts, keys: set<Script>, s: Script)
    requires IsHistogram(h, d, keys) && s !in keys && s in d && d[s].passed < |h|
    ensures IsHistogram(h[d[s].passed := h[d[s].passed] + 1], d, keys + {s})
  {
    hide With;
    var p := d[s].passed;
    forall i: int ensures |With(d, keys + {s}, i)| == |With(d, keys, i)| + if i == p then 1 else 0 {
      WithOneMore(d, keys, s, i);
    }
  }

  lemma WithOneMore(d: Scripts, keys: set<Script>, s: Script, i: int)
    requires s !in keys && s in d
    ensures |With(d, keys + {s}, i)| == |With(d, keys, i)| + if i == d[s].passed then 1 else 0
  {
    if i == d[s].passed {
      assert With(d, keys + {s}, i) == With(d, keys, i) + {s};
    } else {
      assert With(d, keys + {s}, i) == With(d, keys, i);
    }
  }

  lemma EmptyHistogram(d: Scripts, h: seq<nat>)
    requires forall i :: 0 <= i < |h| ==> h[i] == 0
    ensures IsHistogram(h, d, {})
  {
    assert forall i :: With(d, {}, i) == {};
  }

  /** The first part of print_results. */
  method Histogram(scripts: Scripts, maxPasses: nat) returns (histo: array<nat>)
    requires forall s :: s in scripts ==> scripts[s].passed <= maxPasses
    ensures fresh(histo) && histo.Length == maxPasses + 1 && IsHistogram(histo[..], scripts, scripts.Keys)
  {
    hide *;
    histo := new nat[maxPasses + 1](i => 0);
    var todo := scripts.Keys;
    assert IsHistogram(histo[..], scripts, {}) by {
      EmptyHistogram(scripts, histo[..]);
    }
    assert scripts.Keys - todo == {};
    while todo != {}
      invariant todo <= scripts.Keys
      invariant IsHistogram(histo[..], scripts, scripts.Keys - todo)
      decreases |todo|
    {
      var s :| s in todo;
      HistogramStep(histo[..], scripts, scripts.Keys - todo, s);
      assert scripts.Keys - todo + {s} == scripts.Keys - (todo - {s});
      histo[scripts[s].passed] := histo[scripts[s].passed] + 1;
      todo := todo - {s};
    }
    assert scripts.Keys - todo == scripts.Keys;
  }

  /** The entries of a histogram long enough for all counts add up to the scripts and, weighted, to their passes. */
  lemma {:induction false} EntriesAddUp(h: seq<nat>, d: Scripts, keys: set<Script>)
    requires IsHistogram(h, d, keys) && forall s :: s in keys ==> s in d && d[s].passed < |h|
    ensures Sum(h) == |keys| && Weighted(h) == SumOver(keys, PassedBy(d))
    decreases |keys|
  {
    if keys == {} {
      assert forall i :: With(d, {}, i) == {};
      SumOfZeros(h);
    } else {
      var s :| s in keys;
      var p, rest := d[s].passed, keys - {s};
      assert rest + {s} == keys;
      assert s in With(d, keys, p) && h[p] > 0;
      hide With, Sum, Weighted, SumOver;
      var g := h[p := h[p] - 1];
      forall i | 0 <= i < |g| ensures g[i] == |With(d, rest, i)| {
        WithOneMore(d, rest, s, i);
      }
      EntriesAddUp(g, d, rest);
      OneMore(g, p);
      assert g[p := g[p] + 1] == h;
      SumWithout(keys, PassedBy(d), s);
    }
  }

  /** The histogram counts every script once and, weighted, every pass of the log once. */
  lemma HistogramAddsUp(results: seq<Entry>, d: Scripts, h: seq<nat>)
    requires Counts(d, results) && IsHistogram(h, d, d.Keys) && forall s :: s in d ==> d[s].passed < |h|
    ensures Sum(h) == |d|
    ensures Weighted(h) == Passes(results)
    ensures SumOver(d.Keys, RunCounts(results)) == |results|
  {
    EntriesAddUp(h, d, d.Keys);
    PassesAddUp(results, d);
  }

  lemma PassesAddUp(results: seq<Entry>, d: Scripts)
    requires Counts(d, results)
    ensures SumOver(d.Keys, PassedBy(d)) == Passes(results)
    ensures SumOver(d.Keys, RunCounts(results)) == |results|
  {
    hide SumOver, RunsOf, Passes;
    forall i | 0 <= i < |results| ensures results[i].script in d.Keys {
      NamesAt(results, i);
    }
    ScriptsAddUp(d.Keys, results);
    SumSame(d.Keys, PassedBy(d), PassCounts(results));
  }

  lemma {:induction false} NamesAt(results: seq<Entry>, i: nat)
    requires i < |results|
    ensures Names(results)[i] == results[i].script
  {
    if i > 0 {
      NamesAt(results[1..], i - 1);
    }
  }

  // ---------------------------------------------------------------- the exit code

  /**
    * The options that decide what is reported and the exit code. parse_args refuses negative values
    * of percent and minpass. For the exit code 0 counts as not set.
    */
  datatype Args = Args(strict: bool, percent: Option<nat>, minpass: Option<nat>, iterations: Option<int>)

  /** Some script passed fewer than n times, as far as the histogram goes. */
  ghost predicate Below(h: seq<nat>, n: nat) {
    exists i :: 0 <= i < n && i < |h| && h[i] != 0
  }

  /** compute_exit_code; Raises is an IndexError (histogram shorter than minpass) or a ZeroDivisionError (no runs). */
  method ComputeExitCode(args: Args, totalRuns: nat, totalPasses: nat, histo: array<nat>) returns (code: PyResult<nat>)
    ensures args.strict ==> code == Ok(if totalRuns == totalPasses then 0 else 1)
    ensures !args.strict ==>
              var m, p := args.minpass.GetOr(0), args.percent.GetOr(0);
              code == if Below(histo[..], m) then Ok(1)
                      else if m > histo.Length then Raises
                      else if p == 0 then Ok(0)
                      else if totalRuns == 0 then Raises
                      else Ok(if Enough(totalPasses, totalRuns, p) then 0 else 1)
  {
    if args.strict {
      return Ok(if totalRuns != totalPasses then 1 else 0);
    }
    if args.minpass.GetOr(0) != 0 {
      var minpass := true;
      var i := 0;
      while i < args.minpass.value
        invariant 0 <= i <= args.minpass.value && i <= histo.Length
        invariant minpass && forall j :: 0 <= j < i ==> histo[..][j] == 0
      {
        if i >= histo.Length {
          return Raises;
        }
        if histo[i] != 0 {
          minpass := false;
          assert histo[..][i] != 0;
          break;
        }
        i := i + 1;
      }
      if !minpass {
        return Ok(1);
      } else if args.percent.GetOr(0) == 0 {
        return Ok(0);
      }
    }
    if args.percent.GetOr(0) != 0 {
      if totalRuns == 0 {
        return Raises;
      }
      var pct := 100 * totalPasses / totalRuns;
      PercentFloor(100 * totalPasses, totalRuns, args.percent.value);
      if pct < args.percent.value {
        return Ok(1);
      }
    }
    return Ok(0);
  }

  lemma {:induction false} PercentFloor(a: nat, n: nat, p: nat)
    requires n > 0
    ensures a / n < p <==> a < p * n
  {
    var q := a / n;
    assert a == n * q + a % n;
    if q < p {
      assert n * (q + 1) <= n * p;
    } else {
      assert n * p <= n * q;
    }
  }

  /** At least percent of the runs passed. */
  predicate Enough(passes: nat, runs: nat, percent: nat) {
    100 * passes >= percent * runs
  }

  ghost predicate AllRunsPass(results: seq<Entry>) {
    forall i :: 0 <= i < |results| ==> results[i].passed
  }

  ghost predicate EveryScriptPasses(results: seq<Entry>, n: nat) {
    forall s :: s in Names(results) ==> Passes(RunsOf(results, s)) >= n
  }

  /** What the options promise: all runs passed, or else enough passes for every script and enough passes in all. */
  ghost predicate Accepts(args: Args, results: seq<Entry>) {
    if args.strict then AllRunsPass(results)
    else
      && EveryScriptPasses(results, args.minpass.GetOr(0))
      && Enough(Passes(results), |results|, args.percent.GetOr(0))
  }

  lemma {:induction false} AllPassed(results: seq<Entry>)
    ensures Passes(results) == |results| <==> AllRunsPass(results)
    decreases |results|
  {
    if results != [] {
      AllPassed(results[..|results| - 1]);
    }
  }

  /** The histogram shows whether every script passed often enough. */
  lemma BelowIsTooFew(results: seq<Entry>, d: Scripts, h: seq<nat>, n: nat)
    requires Counts(d, results) && IsHistogram(h, d, d.Keys)
    requires forall s :: s in d ==> d[s].passed < |h|
    ensures Below(h, n) <==> !EveryScriptPasses(results, n)
  {
    hide RunsOf, Passes, Names;
    if Below(h, n) {
      var i :| 0 <= i < n && i < |h| && h[i] != 0;
      var s :| s in With(d, d.Keys, i);
      assert s in Names(results) && Passes(RunsOf(results, s)) < n;
    }
    if s :| s in Names(results) && Passes(RunsOf(results, s)) < n {
      assert s in With(d, d.Keys, d[s].passed);
      assert h[d[s].passed] != 0;
    }
  }

  /** No script of a log with results can have more passes than the most runs of any. */
  lemma TooManyAsked(results: seq<Entry>, d: Scripts, n: nat, m: nat)
    requires Counts(d, results) && results != [] && n < m && forall s :: s in d ==> d[s].passed <= n
    ensures !EveryScriptPasses(results, m)
  {
    hide RunsOf, Passes;
    var s := results[0].script;
    assert s in Names(results);
    assert CountsOne(d[s], RunsOf(results, s));
  }

  lemma PassesFit(results: seq<Entry>, d: Scripts, n: nat)
    requires Counts(d, results) && MostRuns(d, n)
    ensures forall s :: s in d ==> d[s].passed <= n
    ensures results == [] ==> n == 0
  {
    hide RunsOf, Passes;
  }

  lemma StrictAccepts(args: Args, results: seq<Entry>)
    requires args.strict
    ensures Accepts(args, results) <==> |results| == Passes(results)
  {
    AllPassed(results);
  }

  lemma EmptyLogAccepts(args: Args)
    requires !args.strict
    ensures Accepts(args, []) && forall m :: EveryScriptPasses([], m)
  {}

  lemma AcceptsMeans(args: Args, results: seq<Entry>)
    requires !args.strict
    ensures Accepts(args, results)
            <==> EveryScriptPasses(results, args.minpass.GetOr(0))
                 && Enough(Passes(results), |results|, args.percent.GetOr(0))
    ensures args.percent.GetOr(0) == 0 ==> Enough(Passes(results), |results|, args.percent.GetOr(0))
  {
    hide EveryScriptPasses, Passes;
  }
}

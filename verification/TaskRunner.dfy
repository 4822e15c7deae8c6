/** The bounded, fail-fast runner of the checks: tasks start in order, at most `limit` at a time, and
    settle in any order. */
module TaskRunner {
  import opened Wrappers

  datatype Task = Task(name: string, advisory: bool)

  /** What happened, in order: tasks by their position in the list. */
  datatype Step = Start(task: nat) | Settle(task: nat)

  ghost predicate Blocks(tasks: seq<Task>, codes: seq<int>, i: nat)
    requires i < |tasks| == |codes|
  {
    codes[i] != 0 && !tasks[i].advisory
  }

  ghost predicate Warns(tasks: seq<Task>, codes: seq<int>, i: nat)
    requires i < |tasks| == |codes|
  {
    codes[i] != 0 && tasks[i].advisory
  }

  ghost function Started(trace: seq<Step>): seq<nat> {
    if trace == [] then []
    else Started(trace[..|trace| - 1]) + match trace[|trace| - 1] case Start(i) => [i] case Settle(_) => []
  }

  ghost function Settled(trace: seq<Step>): seq<nat> {
    if trace == [] then []
    else Settled(trace[..|trace| - 1]) + match trace[|trace| - 1] case Start(_) => [] case Settle(i) => [i]
  }

  ghost function InFlight(trace: seq<Step>): set<nat> {
    (set i | i in Started(trace)) - (set i | i in Settled(trace))
  }

  /** At every moment at most `limit` tasks are in flight. */
  ghost predicate Bounded(trace: seq<Step>, limit: int) {
    forall n :: 0 <= n <= |trace| ==> |InFlight(trace[..n])| <= if limit > 0 then limit else 0
  }

  /** At every moment whatever has settled was started before. */
  ghost predicate Causal(trace: seq<Step>) {
    forall n :: 0 <= n <= |trace| ==> forall i :: i in Settled(trace[..n]) ==> i in Started(trace[..n])
  }

  /** All of these are tasks, and none of them blocks. */
  ghost predicate NoneBlocked(tasks: seq<Task>, codes: seq<int>, settled: seq<nat>)
    requires |tasks| == |codes|
  {
    forall k :: 0 <= k < |settled| ==> settled[k] < |tasks| && !Blocks(tasks, codes, settled[k])
  }

  /** 0, 1, …, n - 1. */
  ghost function UpTo(n: nat): (s: seq<nat>)
    ensures |s| == n && forall i :: 0 <= i < n ==> s[i] == i
  {
    if n == 0 then [] else UpTo(n - 1) + [n - 1]
  }

  ghost predicate NoRepeats(s: seq<nat>) {
    forall i, j :: 0 <= i < j < |s| ==> s[i] != s[j]
  }

  ghost predicate Below(s: seq<nat>, n: nat) {
    forall i :: 0 <= i < |s| ==> s[i] < n
  }

  lemma StepEffects(trace: seq<Step>, step: Step)
    ensures Started(trace + [step]) == Started(trace) + match step case Start(i) => [i] case Settle(_) => []
    ensures Settled(trace + [step]) == Settled(trace) + match step case Start(_) => [] case Settle(i) => [i]
  {
    assert (trace + [step])[..|trace|] == trace;
  }

  lemma BoundedStep(trace: seq<Step>, step: Step, limit: int)
    requires Bounded(trace, limit)
    requires |InFlight(trace + [step])| <= if limit > 0 then limit else 0
    ensures Bounded(trace + [step], limit)
  {
    hide InFlight;
    var all := trace + [step];
    forall n | 0 <= n <= |all|
      ensures |InFlight(all[..n])| <= if limit > 0 then limit else 0
    {
      if n <= |trace| {
        assert all[..n] == trace[..n];
      } else {
        assert all[..n] == all;
      }
    }
  }

  lemma CausalStep(trace: seq<Step>, step: Step)
    requires Causal(trace)
    requires step.Settle? ==> step.task in Started(trace)
    ensures Causal(trace + [step])
  {
    hide Started, Settled;
    var all := trace + [step];
    StepEffects(trace, step);
    forall n, i | 0 <= n <= |all| && i in Settled(all[..n])
      ensures i in Started(all[..n])
    {
      if n <= |trace| {
        assert all[..n] == trace[..n];
      } else {
        assert all[..n] == all && trace[..|trace|] == trace;
      }
    }
  }

  lemma StartFlight(trace: seq<Step>, i: nat)
    requires i !in Settled(trace)
    ensures InFlight(trace + [Start(i)]) == InFlight(trace) + {i}
  {
    StepEffects(trace, Start(i));
  }

  lemma SettleFlight(trace: seq<Step>, i: nat)
    ensures InFlight(trace + [Settle(i)]) == InFlight(trace) - {i}
  {
    StepEffects(trace, Settle(i));
  }

  /** Where the runner stands: the first `next` tasks have started, `inflight` of them are running, and
      the others have settled without blocking. */
  ghost predicate Running(tasks: seq<Task>, codes: seq<int>, limit: int, trace: seq<Step>, next: nat,
                          inflight: set<nat>)
    requires |tasks| == |codes|
  {
    && next <= |tasks|
    && Started(trace) == UpTo(next)
    && NoRepeats(Settled(trace))
    && Below(Settled(trace), next)
    && NoneBlocked(tasks, codes, Settled(trace))
    && inflight == InFlight(trace)
    && Bounded(trace, limit)
    && Causal(trace)
  }

  lemma StartKeepsRunning(tasks: seq<Task>, codes: seq<int>, limit: int, trace: seq<Step>, next: nat,
                          inflight: set<nat>)
    requires |tasks| == |codes| && Running(tasks, codes, limit, trace, next, inflight)
    requires next < |tasks| && |inflight| < limit
    ensures Running(tasks, codes, limit, trace + [Start(next)], next + 1, inflight + {next})
  {
    hide InFlight, Bounded, Causal;
    StepEffects(trace, Start(next));
    StartFlight(trace, next);
    BoundedStep(trace, Start(next), limit);
    CausalStep(trace, Start(next));
  }

  lemma SmallerFlight(inflight: set<nat>, i: nat)
    requires i in inflight
    ensures |inflight - {i}| < |inflight|
  {
    assert inflight == (inflight - {i}) + {i};
  }

  lemma CurrentFlight(trace: seq<Step>, limit: int)
    requires Bounded(trace, limit)
    ensures |InFlight(trace)| <= if limit > 0 then limit else 0
  {
    assert trace[..|trace|] == trace;
  }

  lemma SettleEffects(tasks: seq<Task>, codes: seq<int>, limit: int, trace: seq<Step>, next: nat,
                      inflight: set<nat>, i: nat)
    requires |tasks| == |codes| && Running(tasks, codes, limit, trace, next, inflight) && i in inflight
    ensures i < next && i !in Settled(trace)
    ensures Bounded(trace + [Settle(i)], limit) && Causal(trace + [Settle(i)])
    ensures Settled(trace + [Settle(i)]) == Settled(trace) + [i]
    ensures Started(trace + [Settle(i)]) == Started(trace)
    ensures InFlight(trace + [Settle(i)]) == inflight - {i}
  {
    hide Bounded, Causal, Started, Settled, NoneBlocked, NoRepeats, Below;
    StepEffects(trace, Settle(i));
    SettleFlight(trace, i);
    CurrentFlight(trace, limit);
    SmallerFlight(inflight, i);
    BoundedStep(trace, Settle(i), limit);
    CausalStep(trace, Settle(i));
    assert i in UpTo(next);
  }

  lemma SettledNext(settled: seq<nat>, i: nat, n: nat)
    requires NoRepeats(settled) && Below(settled, n) && i !in settled && i < n
    ensures NoRepeats(settled + [i]) && Below(settled + [i], n)
  {
  }

  lemma SettleKeepsRunning(tasks: seq<Task>, codes: seq<int>, limit: int, trace: seq<Step>, next: nat,
                           inflight: set<nat>, i: nat)
    requires |tasks| == |codes| && Running(tasks, codes, limit, trace, next, inflight) && i in inflight
    requires i < |tasks| && !Blocks(tasks, codes, i)
    ensures Running(tasks, codes, limit, trace + [Settle(i)], next, inflight - {i})
  {
    hide Bounded, Causal, Started, Settled, InFlight, Blocks;
    SettleEffects(tasks, codes, limit, trace, next, inflight, i);
    SettledNext(Settled(trace), i, next);
  }

  lemma RunningStarted(tasks: seq<Task>, codes: seq<int>, limit: int, trace: seq<Step>, next: nat,
                       inflight: set<nat>)
    requires |tasks| == |codes| && Running(tasks, codes, limit, trace, next, inflight)
    ensures next <= |tasks|
  {
  }

  method Fill(tasks: seq<Task>, ghost codes: seq<int>, limit: int, next: nat, inflight: set<nat>,
              ghost trace: seq<Step>)
    returns (next': nat, inflight': set<nat>, ghost trace': seq<Step>)
    requires |tasks| == |codes| && Running(tasks, codes, limit, trace, next, inflight)
    ensures Running(tasks, codes, limit, trace', next', inflight')
    ensures next' == |tasks| || |inflight'| >= limit
    ensures Settled(trace') == Settled(trace)
    ensures inflight' == {} ==> inflight == {}
    ensures limit < 1 ==> trace' == trace
  {
    hide Running, Started, Settled;
    next', inflight', trace' := next, inflight, trace;
    RunningStarted(tasks, codes, limit, trace, next, inflight);
    while |inflight'| < limit && next' < |tasks|
      invariant Running(tasks, codes, limit, trace', next', inflight') && next' <= |tasks|
      invariant Settled(trace') == Settled(trace)
      invariant inflight' == {} ==> inflight == {}
      invariant limit < 1 ==> trace' == trace
      decreases |tasks| - next'
    {
      StartKeepsRunning(tasks, codes, limit, trace', next', inflight');
      StepEffects(trace', Start(next'));
      trace' := trace' + [Start(next')];
      inflight', next' := inflight' + {next'}, next' + 1;
      RunningStarted(tasks, codes, limit, trace', next', inflight');
    }
  }

  /** Which settled tasks were warned about: the failed advisory ones, in the order they settled. */
  ghost function Warnings(tasks: seq<Task>, codes: seq<int>, settled: seq<nat>): seq<nat>
    requires |tasks| == |codes| && Below(settled, |tasks|)
  {
    if settled == [] then []
    else
      var last := settled[|settled| - 1];
      Warnings(tasks, codes, settled[..|settled| - 1]) + if Warns(tasks, codes, last) then [last] else []
  }

  lemma WarningsSnoc(tasks: seq<Task>, codes: seq<int>, settled: seq<nat>, i: nat)
    requires |tasks| == |codes| && i < |tasks| && Below(settled, |tasks|)
    ensures Warnings(tasks, codes, settled + [i])
         == Warnings(tasks, codes, settled) + if Warns(tasks, codes, i) then [i] else []
  {
    assert (settled + [i])[..|settled|] == settled;
  }

  /** The warnings name exactly the settled advisory tasks that failed, each once. */
  lemma {:induction false} WarningsAreFailedAdvisories(tasks: seq<Task>, codes: seq<int>, settled: seq<nat>)
    requires |tasks| == |codes| && Below(settled, |tasks|) && NoRepeats(settled)
    ensures NoRepeats(Warnings(tasks, codes, settled))
    ensures forall i: nat :: i in Warnings(tasks, codes, settled)
                             <==> i in settled && i < |tasks| && Warns(tasks, codes, i)
  {
    hide Warns;
    if settled == [] {
    } else {
      WarningsAreFailedAdvisories(tasks, codes, settled[..|settled| - 1]);
      assert settled == settled[..|settled| - 1] + [settled[|settled| - 1]];
    }
  }

  /** Distinct numbers below n are at most n. */
  lemma {:induction false} FewBelow(s: seq<nat>, n: nat)
    requires NoRepeats(s) && Below(s, n)
    ensures |s| <= n
  {
    if s == [] {
      assert |s| == 0;
    } else if n - 1 in s {
      assert s[0] < n;
      var k :| 0 <= k < |s| && s[k] == n - 1;
      var rest := s[..k] + s[k + 1..];
      forall i | 0 <= i < |rest|
        ensures rest[i] < n - 1
      {
        assert rest[i] == s[if i < k then i else i + 1];
      }
      FewBelow(rest, n - 1);
    } else {
      assert s[0] < n;
      FewBelow(s, n - 1);
    }
  }

  lemma SettledAreFew(tasks: seq<Task>, codes: seq<int>, limit: int, trace: seq<Step>, next: nat,
                      inflight: set<nat>, i: nat)
    requires |tasks| == |codes| && Running(tasks, codes, limit, trace, next, inflight) && i in inflight
    ensures |Settled(trace)| < |tasks|
  {
    hide Bounded, Causal, Started;
    SettleEffects(tasks, codes, limit, trace, next, inflight, i);
    var all := Settled(trace) + [i];
    assert forall k :: 0 <= k < |all| ==> all[k] in Settled(trace) || all[k] == i;
    FewBelow(all, |tasks|);
  }

  lemma NothingRunning(tasks: seq<Task>, codes: seq<int>, limit: int)
    requires |tasks| == |codes|
    ensures Running(tasks, codes, limit, [], 0, {})
    ensures Warnings(tasks, codes, Settled([])) == []
  {
  }

  lemma RunningMeans(tasks: seq<Task>, codes: seq<int>, limit: int, trace: seq<Step>, next: nat,
                     inflight: set<nat>)
    requires |tasks| == |codes| && Running(tasks, codes, limit, trace, next, inflight)
    ensures next <= |tasks| && Started(trace) == UpTo(next) && NoRepeats(Settled(trace))
    ensures Below(Settled(trace), |tasks|) && NoneBlocked(tasks, codes, Settled(trace))
    ensures inflight == InFlight(trace) && Bounded(trace, limit) && Causal(trace)
  {
  }

  lemma SettledBlocks(tasks: seq<Task>, codes: seq<int>, i: nat)
    requires i < |tasks| == |codes|
    ensures Blocks(tasks, codes, i) <==> codes[i] != 0 && !tasks[i].advisory
    ensures Warns(tasks, codes, i) <==> codes[i] != 0 && tasks[i].advisory
  {
  }

  lemma NothingInFlight(limit: int)
    ensures InFlight([]) == {} && Started([]) == [] && Settled([]) == []
  {
  }

  lemma AllSettled(trace: seq<Step>, n: nat)
    requires Started(trace) == UpTo(n) && InFlight(trace) == {} && Below(Settled(trace), n)
    ensures forall i: nat :: i in Settled(trace) <==> i < n
  {
    hide Started, Settled;
    forall i: nat
      ensures i in Settled(trace) <==> i < n
    {
      if i < n {
        assert UpTo(n)[i] == i;
        assert i in (set k | k in Started(trace));
        assert i !in InFlight(trace);
      }
    }
  }

  /** So, given room for at least one task, a failure is reported exactly when some task blocks. */
  lemma FailureReported(tasks: seq<Task>, codes: seq<int>, settled: seq<nat>, i: nat)
    requires |tasks| == |codes| && NoneBlocked(tasks, codes, settled)
    requires i < |tasks| && forall k: nat :: k in settled <==> k < |tasks|
    ensures !Blocks(tasks, codes, i)
  {
    assert i in settled;
  }

  /** Runs the tasks; `codes[i]` is the exit code of task i, and which task settles next is anyone's
      guess. Whatever the order: a task settles only after it started, never more than `limit` run at
      once, tasks start in list order, nothing starts after a blocking failure is handled, and without
      one every task runs exactly once and the warnings are exactly the failed advisory tasks. With no
      room for any task, which the callers exclude, nothing happens. */
  method RunParallel(tasks: seq<Task>, codes: seq<int>, limit: int)
    returns (warnings: seq<nat>, firstFailure: Option<nat>, ghost trace: seq<Step>)
    requires |tasks| == |codes|
    ensures Bounded(trace, limit) && Causal(trace)
    ensures Started(trace) == UpTo(|Started(trace)|) && |Started(trace)| <= |tasks| && NoRepeats(Settled(trace))
    ensures Below(Settled(trace), |tasks|)
    ensures firstFailure.Some? ==>
              && trace != [] && trace[|trace| - 1] == Settle(firstFailure.value)
              && firstFailure.value < |tasks| && Blocks(tasks, codes, firstFailure.value)
              && NoneBlocked(tasks, codes, Settled(trace[..|trace| - 1]))
    ensures limit >= 1 ==> (firstFailure.Some? <==> exists i :: 0 <= i < |tasks| && Blocks(tasks, codes, i))
    ensures firstFailure.None? ==>
              && warnings == Warnings(tasks, codes, Settled(trace))
              && NoneBlocked(tasks, codes, Settled(trace))
              && (limit >= 1 ==>
                    Started(trace) == UpTo(|tasks|) && forall i: nat :: i in Settled(trace) <==> i < |tasks|)
    ensures limit < 1 ==> trace == [] && firstFailure.None? && warnings == []
  {
    hide Running, Blocks, Warns, Started, Settled, InFlight, Bounded, Causal, Warnings, NoRepeats;
    warnings, firstFailure, trace := [], None, [];
    NothingRunning(tasks, codes, limit);
    var next: nat, inflight: set<nat>;
    next, inflight, trace := Fill(tasks, codes, limit, 0, {}, trace);
    RunningMeans(tasks, codes, limit, trace, next, inflight);
    if limit < 1 {
      NothingInFlight(limit);
    }
    while inflight != {}
      invariant Running(tasks, codes, limit, trace, next, inflight) && next <= |tasks|
      invariant next == |tasks| || |inflight| >= limit
      invariant Below(Settled(trace), |tasks|)
      invariant warnings == Warnings(tasks, codes, Settled(trace))
      invariant limit < 1 ==> trace == [] && inflight == {} && warnings == []
      invariant inflight == {} ==> limit < 1 || next == |tasks|
      decreases |tasks| - |Settled(trace)|
    {
      var settled :| settled in inflight;
      SettleEffects(tasks, codes, limit, trace, next, inflight, settled);
      SettledAreFew(tasks, codes, limit, trace, next, inflight, settled);
      SettledBlocks(tasks, codes, settled);
      RunningMeans(tasks, codes, limit, trace, next, inflight);
      SettledNext(Settled(trace), settled, |tasks|);
      ghost var before := trace;
      if !(codes[settled] != 0 && !tasks[settled].advisory) {
        SettleKeepsRunning(tasks, codes, limit, trace, next, inflight, settled);
      }
      trace := trace + [Settle(settled)];
      inflight := inflight - {settled};
      WarningsSnoc(tasks, codes, Settled(before), settled);
      if codes[settled] != 0 && tasks[settled].advisory {
        warnings := warnings + [settled];
      } else if codes[settled] != 0 {
        firstFailure := Some(settled);
        assert trace[..|trace| - 1] == before;
        return;
      }
      next, inflight, trace := Fill(tasks, codes, limit, next, inflight, trace);
      RunningMeans(tasks, codes, limit, trace, next, inflight);
    }
    RunningMeans(tasks, codes, limit, trace, next, inflight);
    if limit >= 1 {
      AllSettled(trace, |tasks|);
      forall i | 0 <= i < |tasks|
        ensures !Blocks(tasks, codes, i)
      {
        FailureReported(tasks, codes, Settled(trace), i);
      }
    }
  }
}

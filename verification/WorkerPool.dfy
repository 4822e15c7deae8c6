/** The smoke tests' pool: a few workers share one counter, each claims the next index, waits for its
    item, stores the result and claims again, in any interleaving. */
module WorkerPool {
  import opened Wrappers

  datatype Worker = Ready | Busy(index: nat) | Done

  /** The shared counter, the workers, the results so far, and the indices claimed, in order. */
  datatype Pool<R> = Pool(next: nat, workers: seq<Worker>, results: seq<Option<R>>, claims: seq<nat>)

  /** One worker takes a turn: claims the next index, or finishes the item it holds. */
  datatype Turn = Claim(worker: nat) | Finish(worker: nat)

  function Width(concurrency: int, count: nat): nat {
    var most := if count == 0 then 1 else count;
    var wanted := if concurrency < most then concurrency else most;
    if wanted < 1 then 1 else wanted
  }

  /** There is at least one worker, at most as many as are asked for and as there are items, and no fewer
      than both allow. */
  lemma WidthMeans(concurrency: int, count: nat)
    ensures
      var width := Width(concurrency, count);
      && width >= 1
      && (width > 1 ==> width <= concurrency && width <= count)
      && (width >= concurrency || width >= count)
  {
  }

  function Opening<R>(concurrency: int, count: nat): Pool<R> {
    Pool(0, seq(Width(concurrency, count), _ => Ready), seq(count, _ => None), [])
  }

  predicate Possible<R>(pool: Pool<R>, turn: Turn) {
    match turn
    case Claim(w) => w < |pool.workers| && pool.workers[w].Ready?
    case Finish(w) => w < |pool.workers| && pool.workers[w].Busy? && pool.workers[w].index < |pool.results|
  }

  /** An absent item is skipped: its claim is spent and its result stays empty. A worker never waits for
      an absent item (TurnIsDefined). */
  function Act<T, R>(pool: Pool<R>, items: seq<Option<T>>, work: (T, nat) -> R, turn: Turn): Pool<R>
    requires Possible(pool, turn) && |items| == |pool.results|
  {
    match turn
    case Claim(w) =>
      var i := pool.next;
      if i >= |items| then pool.(next := i + 1, workers := pool.workers[w := Done])
      else pool.(next := i + 1, claims := pool.claims + [i],
                 workers := if items[i].Some? then pool.workers[w := Busy(i)] else pool.workers)
    case Finish(w) =>
      var i := pool.workers[w].index;
      pool.(results := if items[i].Some? then pool.results[i := Some(work(items[i].value, i))] else pool.results,
            workers := pool.workers[w := Ready])
  }

  ghost predicate Holds<R>(pool: Pool<R>, i: nat) {
    exists w :: 0 <= w < |pool.workers| && pool.workers[w] == Busy(i)
  }

  function DoneCount(workers: seq<Worker>): nat {
    if workers == [] then 0 else DoneCount(workers[..|workers| - 1]) + if workers[|workers| - 1] == Done then 1 else 0
  }

  /** Claims count up from zero; an index below the counter is absent, held by one worker, or stored
      with its own result. */
  ghost predicate Orderly<T, R>(pool: Pool<R>, items: seq<Option<T>>, work: (T, nat) -> R, width: nat) {
    && |pool.workers| == width && |pool.results| == |items|
    && (forall i :: 0 <= i < |pool.claims| ==> pool.claims[i] == i)
    && |pool.claims| == (if pool.next < |items| then pool.next else |items|)
    && (forall w :: 0 <= w < width && pool.workers[w].Busy? ==>
          pool.workers[w].index < |items| && pool.workers[w].index < pool.next
          && items[pool.workers[w].index].Some? && pool.results[pool.workers[w].index] == None)
    && (forall v, w :: 0 <= v < w < width && pool.workers[v].Busy? && pool.workers[w].Busy? ==>
          pool.workers[v].index != pool.workers[w].index)
    && (forall w :: 0 <= w < width && pool.workers[w] == Done ==> pool.next >= |items|)
    && (forall i :: 0 <= i < |items| ==>
          (pool.results[i].Some? ==> items[i].Some? && pool.results[i] == Some(work(items[i].value, i)))
          && (i >= pool.next ==> pool.results[i] == None)
          && (i < pool.next && items[i].Some? && pool.results[i] == None ==> Holds(pool, i)))
    && pool.next <= |items| + DoneCount(pool.workers)
  }

  function BusyCount(workers: seq<Worker>): nat {
    if workers == [] then 0 else BusyCount(workers[..|workers| - 1]) + if workers[|workers| - 1].Busy? then 1 else 0
  }

  lemma {:induction false} CountsAfter(workers: seq<Worker>, w: nat, worker: Worker)
    requires w < |workers|
    ensures DoneCount(workers[w := worker])
         == DoneCount(workers) - (if workers[w] == Done then 1 else 0) + if worker == Done then 1 else 0
    ensures BusyCount(workers[w := worker])
         == BusyCount(workers) - (if workers[w].Busy? then 1 else 0) + if worker.Busy? then 1 else 0
  {
    var front := workers[..|workers| - 1];
    if w == |workers| - 1 {
      assert workers[w := worker][..|workers| - 1] == front;
    } else {
      CountsAfter(front, w, worker);
      assert workers[w := worker][..|workers| - 1] == front[w := worker];
    }
  }

  lemma {:induction false} CountsBounded(workers: seq<Worker>)
    ensures DoneCount(workers) + BusyCount(workers) <= |workers|
    ensures DoneCount(workers) == |workers| <==> forall w :: 0 <= w < |workers| ==> workers[w] == Done
  {
    if workers == [] {
    } else {
      CountsBounded(workers[..|workers| - 1]);
    }
  }

  /** A possible turn that ends a wait ends it with an item that is there and a result that is not. */
  lemma TurnIsDefined<T, R>(pool: Pool<R>, items: seq<Option<T>>, work: (T, nat) -> R, width: nat, turn: Turn)
    requires Orderly(pool, items, work, width) && Possible(pool, turn)
    ensures turn.Finish? ==>
              var i := pool.workers[turn.worker].index;
              items[i].Some? && pool.results[i] == None
  {
  }

  lemma StillHeld<R>(pool: Pool<R>, next: Pool<R>, i: nat, w: nat)
    requires Holds(pool, i) && |next.workers| == |pool.workers| && w < |pool.workers|
    requires pool.workers[w] != Busy(i)
    requires forall v :: 0 <= v < |pool.workers| && v != w ==> next.workers[v] == pool.workers[v]
    ensures Holds(next, i)
  {
    var v :| 0 <= v < |pool.workers| && pool.workers[v] == Busy(i);
    assert next.workers[v] == Busy(i);
  }

  lemma HeldBy<R>(pool: Pool<R>, w: nat, i: nat)
    requires w < |pool.workers| && pool.workers[w] == Busy(i)
    ensures Holds(pool, i)
  {
  }

  /** Past the last index a claim sends the worker home. */
  lemma LateClaimKeepsOrder<T, R>(pool: Pool<R>, items: seq<Option<T>>, work: (T, nat) -> R, width: nat, w: nat)
    requires Orderly(pool, items, work, width) && Possible(pool, Claim(w)) && pool.next >= |items|
    ensures Orderly(Act(pool, items, work, Claim(w)), items, work, width)
  {
    hide DoneCount, Holds;
    var next := Act(pool, items, work, Claim(w));
    CountsAfter(pool.workers, w, Done);
    forall i | 0 <= i < |items| && items[i].Some? && next.results[i] == None
      ensures Holds(next, i)
    {
      StillHeld(pool, next, i, w);
    }
  }

  lemma EarlyClaimKeepsOrder<T, R>(pool: Pool<R>, items: seq<Option<T>>, work: (T, nat) -> R, width: nat, w: nat)
    requires Orderly(pool, items, work, width) && Possible(pool, Claim(w)) && pool.next < |items|
    ensures Orderly(Act(pool, items, work, Claim(w)), items, work, width)
  {
    hide DoneCount, Holds;
    var next := Act(pool, items, work, Claim(w));
    CountsAfter(pool.workers, w, Busy(pool.next));
    forall i | 0 <= i < next.next && items[i].Some? && next.results[i] == None
      ensures Holds(next, i)
    {
      if i == pool.next {
        HeldBy(next, w, i);
      } else {
        StillHeld(pool, next, i, w);
      }
    }
  }

  lemma ClaimKeepsOrder<T, R>(pool: Pool<R>, items: seq<Option<T>>, work: (T, nat) -> R, width: nat, w: nat)
    requires Orderly(pool, items, work, width) && Possible(pool, Claim(w))
    ensures Orderly(Act(pool, items, work, Claim(w)), items, work, width)
  {
    hide Act;
    if pool.next < |items| {
      EarlyClaimKeepsOrder(pool, items, work, width, w);
    } else {
      LateClaimKeepsOrder(pool, items, work, width, w);
    }
  }

  lemma FinishKeepsOrder<T, R>(pool: Pool<R>, items: seq<Option<T>>, work: (T, nat) -> R, width: nat, w: nat)
    requires Orderly(pool, items, work, width) && Possible(pool, Finish(w))
    ensures Orderly(Act(pool, items, work, Finish(w)), items, work, width)
  {
    hide DoneCount, Holds;
    TurnIsDefined(pool, items, work, width, Finish(w));
    var next := Act(pool, items, work, Finish(w));
    CountsAfter(pool.workers, w, Ready);
    forall i | 0 <= i < |items| && i < next.next && items[i].Some? && next.results[i] == None
      ensures Holds(next, i)
    {
      StillHeld(pool, next, i, w);
    }
  }

  predicate Run<T, R>(pool: Pool<R>, items: seq<Option<T>>, work: (T, nat) -> R, turns: seq<Turn>)
    requires |items| == |pool.results|
    decreases |turns|
  {
    turns == []
    || (Possible(pool, turns[0])
        && Run(Act(pool, items, work, turns[0]), items, work, turns[1..]))
  }

  function After<T, R>(pool: Pool<R>, items: seq<Option<T>>, work: (T, nat) -> R, turns: seq<Turn>): Pool<R>
    requires |items| == |pool.results| && Run(pool, items, work, turns)
    decreases |turns|
  {
    if turns == [] then pool else After(Act(pool, items, work, turns[0]), items, work, turns[1..])
  }

  /** Turns that are left: two for each index not yet claimed and each worker not yet sent home, and one
      for each item being waited for. */
  function Remaining<R>(pool: Pool<R>): int {
    2 * (|pool.results| + |pool.workers| - pool.next) + BusyCount(pool.workers)
  }

  lemma {:induction false} RunKeepsOrder<T, R>(
    pool: Pool<R>, items: seq<Option<T>>, work: (T, nat) -> R, width: nat, turns: seq<Turn>)
    requires |items| == |pool.results| && Orderly(pool, items, work, width) && Run(pool, items, work, turns)
    ensures |After(pool, items, work, turns).results| == |items|
    ensures Orderly(After(pool, items, work, turns), items, work, width)
    ensures |turns| + Remaining(After(pool, items, work, turns)) <= Remaining(pool)
    decreases |turns|
  {
    hide Orderly, DoneCount, BusyCount;
    if turns == [] {
    } else {
      var next := Act(pool, items, work, turns[0]);
      match turns[0] {
        case Claim(w) =>
          ClaimKeepsOrder(pool, items, work, width, w);
          CountsAfter(pool.workers, w, Done);
          CountsAfter(pool.workers, w, Busy(pool.next));
        case Finish(w) =>
          FinishKeepsOrder(pool, items, work, width, w);
          CountsAfter(pool.workers, w, Ready);
      }
      RunKeepsOrder(next, items, work, width, turns[1..]);
    }
  }

  lemma {:induction false} NobodyBusy(workers: seq<Worker>)
    requires forall w :: 0 <= w < |workers| ==> workers[w] == Ready
    ensures BusyCount(workers) == 0
  {
    if workers == [] {
    } else {
      NobodyBusy(workers[..|workers| - 1]);
    }
  }

  lemma OpeningIsOrderly<T, R>(items: seq<Option<T>>, work: (T, nat) -> R, concurrency: int)
    ensures |Opening<R>(concurrency, |items|).results| == |items|
    ensures Orderly(Opening(concurrency, |items|), items, work, Width(concurrency, |items|))
    ensures BusyCount(Opening<R>(concurrency, |items|).workers) == 0
  {
    NobodyBusy(Opening<R>(concurrency, |items|).workers);
  }

  /** Over every interleaving: each index is claimed once and in order, at most `width` items are being
      worked on, a stored result is the result of its own item, and no run is longer than two turns for
      every item and worker. */
  lemma EveryRunIsOrderly<T, R>(items: seq<Option<T>>, work: (T, nat) -> R, concurrency: int, turns: seq<Turn>)
    requires |Opening<R>(concurrency, |items|).results| == |items|
    requires Run(Opening(concurrency, |items|), items, work, turns)
    ensures
      var pool := After(Opening(concurrency, |items|), items, work, turns);
      && |pool.results| == |items|
      && (forall i :: 0 <= i < |pool.claims| ==> pool.claims[i] == i)
      && BusyCount(pool.workers) <= Width(concurrency, |items|)
      && (forall i :: 0 <= i < |items| && pool.results[i].Some? ==>
            items[i].Some? && pool.results[i] == Some(work(items[i].value, i)))
      && |turns| <= 2 * (|items| + Width(concurrency, |items|))
  {
    hide BusyCount;
    var start := Opening<R>(concurrency, |items|);
    OpeningIsOrderly(items, work, concurrency);
    RunKeepsOrder(start, items, work, Width(concurrency, |items|), turns);
    var pool := After(start, items, work, turns);
    CountsBounded(pool.workers);
  }

  /** When every worker is done, every index has been claimed and every item that is present has its
      own result in its own place. */
  lemma AllDoneMeansAllStored<T, R>(items: seq<Option<T>>, work: (T, nat) -> R, concurrency: int, turns: seq<Turn>)
    requires |Opening<R>(concurrency, |items|).results| == |items|
    requires Run(Opening(concurrency, |items|), items, work, turns)
    requires
      var pool := After(Opening(concurrency, |items|), items, work, turns);
      forall w :: 0 <= w < |pool.workers| ==> pool.workers[w] == Done
    ensures
      var pool := After(Opening(concurrency, |items|), items, work, turns);
      && |pool.claims| == |items| == |pool.results|
      && forall i :: 0 <= i < |items| ==>
           pool.results[i] == if items[i].Some? then Some(work(items[i].value, i)) else None
  {
    hide BusyCount, DoneCount;
    var start := Opening<R>(concurrency, |items|);
    OpeningIsOrderly(items, work, concurrency);
    RunKeepsOrder(start, items, work, Width(concurrency, |items|), turns);
    var pool := After(start, items, work, turns);
    assert pool.workers[0] == Done;
    forall i | 0 <= i < |items|
      ensures pool.results[i] == if items[i].Some? then Some(work(items[i].value, i)) else None
    {
      assert !Holds(pool, i);
    }
  }

  lemma {:induction false} RunSnoc<T, R>(
    pool: Pool<R>, items: seq<Option<T>>, work: (T, nat) -> R, turns: seq<Turn>, turn: Turn)
    requires |items| == |pool.results| && Run(pool, items, work, turns)
    requires Possible(After(pool, items, work, turns), turn)
    ensures Run(pool, items, work, turns + [turn])
    decreases |turns|
  {
    if turns == [] {
      assert [turn][1..] == [];
    } else {
      RunSnoc(Act(pool, items, work, turns[0]), items, work, turns[1..], turn);
      assert (turns + [turn])[1..] == turns[1..] + [turn];
    }
  }

  /** Every run can be made longer by some turn until every worker is done. */
  lemma SomeTurnIsPossible<T, R>(items: seq<Option<T>>, work: (T, nat) -> R, concurrency: int, turns: seq<Turn>)
    returns (turn: Turn)
    requires |Opening<R>(concurrency, |items|).results| == |items|
    requires Run(Opening(concurrency, |items|), items, work, turns)
    requires
      var pool := After(Opening(concurrency, |items|), items, work, turns);
      exists w :: 0 <= w < |pool.workers| && pool.workers[w] != Done
    ensures Run(Opening(concurrency, |items|), items, work, turns + [turn])
  {
    hide Run, Act;
    var start := Opening<R>(concurrency, |items|);
    var pool := After(start, items, work, turns);
    OpeningIsOrderly(items, work, concurrency);
    RunKeepsOrder(start, items, work, Width(concurrency, |items|), turns);
    var w :| 0 <= w < |pool.workers| && pool.workers[w] != Done;
    turn := if pool.workers[w].Ready? then Claim(w) else Finish(w);
    RunSnoc(start, items, work, turns, turn);
  }
}

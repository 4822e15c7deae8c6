/** The limiter as the shared object it is: one map, updated in place under a lock by checks and by
    the sweeper. The ghost history ties the map to the run that produced it. */
module LimiterObject {
  import opened Wrappers
  import opened Integers
  import opened RateLimit
  import opened LimiterRuns

  class Limiter {
    const cap: nat
    var windows: Windows
    ghost var history: seq<Event>

    ghost predicate Valid()
      reads this
    {
      Runnable(history) && windows == Replay(cap, history).windows
    }

    constructor (cap: nat)
      ensures Valid() && this.cap == cap && history == [] && windows == map[]
    {
      this.cap := cap;
      windows := map[];
      history := [];
    }

    /** Prune, and clear outright when pruning does not make room. Afterwards there is room, nothing that
        stayed has changed or lapsed unless there was room all along, and a live window is lost only if
        they all are. */
    method Bound(now: int)
      modifies `windows
      ensures cap >= 1 ==> |windows| < cap
      ensures forall b :: b in windows ==> b in old(windows) && windows[b] == old(windows)[b]
      ensures |old(windows)| >= cap ==> forall b :: b in windows ==> now < windows[b].expires
      ensures windows == map[] || forall b :: b in old(windows) && now < old(windows)[b].expires ==> b in windows
      ensures |old(windows)| < cap ==> windows == old(windows)
      ensures windows == Bounded(old(windows), now, cap)
    {
      if |windows| < cap {
        return;
      }
      windows := map b | b in windows && now < windows[b].expires :: windows[b];
      if |windows| >= cap {
        windows := map[];
      }
    }

    /** The first pass: make or reset every window, and find out whether all have room. */
    method Open(limits: seq<Limit>, now: int) returns (allowed: bool)
      requires Positive(limits)
      modifies `windows
      ensures (windows, allowed) == OpenAll(old(windows), limits, |limits|, now)
    {
      hide Expiry;
      allowed := true;
      var i := 0;
      while i < |limits|
        invariant 0 <= i <= |limits|
        invariant (windows, allowed) == OpenAll(old(windows), limits, i, now)
      {
        var limit := limits[i];
        var expires := Expiry(now, limit.window);
        if limit.bucket !in windows || windows[limit.bucket].expires != expires {
          windows := windows[limit.bucket := Window(expires, 0)];
        }
        if windows[limit.bucket].count >= limit.ceiling {
          allowed := false;
        }
        i := i + 1;
      }
    }

    /** The second pass: charge every window if the request is allowed, and report each limit. */
    method Charge(limits: seq<Limit>, allowed: bool) returns (decisions: seq<Decision>)
      requires forall i :: 0 <= i < |limits| ==> limits[i].bucket in windows
      modifies `windows
      ensures (windows, decisions) == ChargeAll(old(windows), limits, |limits|, allowed)
    {
      decisions := [];
      var i := 0;
      while i < |limits|
        invariant 0 <= i <= |limits|
        invariant (windows, decisions) == ChargeAll(old(windows), limits, i, allowed)
      {
        var limit := limits[i];
        var window := windows[limit.bucket];
        var refused := window.count >= limit.ceiling;
        if allowed {
          window := Window(window.expires, SaturatingU32(window.count + 1));
        }
        windows := windows[limit.bucket := window];
        decisions := decisions
          + [Decision(!refused, limit.ceiling, SaturatingSub(limit.ceiling, window.count), window.expires)];
        i := i + 1;
      }
    }

    /** One request. Whatever the map went through before, and in whatever order the clock was read, a
        request that the log of admitted requests has room for is allowed; and while the map was never
        cleared outright and the check is on time for its buckets, no other request is. */
    method CheckAll(limits: seq<Limit>, now: int) returns (outcome: Outcome)
      requires Valid() && limits != [] && Positive(limits)
      modifies this
      ensures Valid() && history == old(history) + [Checked(limits, now)]
      ensures outcome == CheckOutcome(old(windows), limits, now, cap)
      ensures windows == CheckWindows(old(windows), limits, now, cap)
      ensures Proper(history) && UnderCeilings(Replay(cap, old(history)).admitted, limits, now) ==> outcome.allowed
      ensures Proper(history) && OnTime(cap, old(history), Checked(limits, now)) && Replay(cap, history).clears == 0 ==>
                (outcome.allowed <==> UnderCeilings(Replay(cap, old(history)).admitted, limits, now))
      ensures Proper(history) && cap >= 1 ==> |windows| <= cap + 2
    {
      hide OpenAll, ChargeAll, Bounded, Replay, Proper, OnTime, UnderCeilings, Runnable;
      CheckedIsNext(cap, history, limits, now);
      if Proper(history + [Checked(limits, now)]) {
        CheckedHistory(cap, history, limits, now);
      }
      Bound(now);
      var allowed := Open(limits, now);
      var decisions := Charge(limits, allowed);
      outcome := Outcome(allowed, decisions[0], FirstRefused(decisions));
      history := history + [Checked(limits, now)];
    }

    method Sweep(now: int)
      requires Valid()
      modifies this
      ensures Valid() && history == old(history) + [Swept(now)]
      ensures windows == Retained(old(windows), now)
    {
      windows := map b | b in windows && now < windows[b].expires :: windows[b];
      history := history + [Swept(now)];
      ReplaySnoc(cap, old(history), Swept(now));
    }

    method Tracked() returns (n: nat)
      ensures n == |windows|
    {
      n := |windows|;
    }
  }
}

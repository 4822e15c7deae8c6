/** Runs of the limiter: checks and sweeps in the order in which they take the lock, each with the clock
    reading its caller took beforehand. Requests wait between reading the clock and being checked, so
    the readings need not be in order. */
module LimiterRuns {
  import opened Wrappers
  import opened Integers
  import opened Collections
  import opened RateLimit

  datatype Event = Checked(limits: seq<Limit>, now: int) | Swept(now: int)

  datatype Admission = Admission(limits: seq<Limit>, now: int)

  /** The limiter's map together with what has happened to it: every admitted request, the ones
      admitted since the map was last cleared, and how often it was cleared and checked. */
  datatype Ledger = Ledger(
    windows: Windows, admitted: seq<Admission>, epoch: seq<Admission>, clears: nat, checks: nat)

  const FRESH := Ledger(map[], [], [], 0, 0)

  predicate Admits(windows: Windows, event: Event, cap: nat)
    requires event.Checked? ==> Positive(event.limits)
  {
    event.Checked? && OpenAll(Bounded(windows, event.now, cap), event.limits, |event.limits|, event.now).1
  }

  function Step(ledger: Ledger, event: Event, cap: nat): Ledger
    requires event.Checked? ==> Positive(event.limits)
  {
    match event
    case Swept(now) => ledger.(windows := Retained(ledger.windows, now))
    case Checked(limits, now) =>
      var cleared := Clears(ledger.windows, now, cap);
      var entry := if Admits(ledger.windows, event, cap) then [Admission(limits, now)] else [];
      Ledger(CheckWindows(ledger.windows, limits, now, cap),
             ledger.admitted + entry,
             (if cleared then [] else ledger.epoch) + entry,
             ledger.clears + (if cleared then 1 else 0),
             ledger.checks + 1)
  }

  predicate Runnable(events: seq<Event>) {
    forall i :: 0 <= i < |events| && events[i].Checked? ==> Positive(events[i].limits)
  }

  function Replay(cap: nat, events: seq<Event>): Ledger
    requires Runnable(events)
  {
    if events == [] then FRESH
    else Step(Replay(cap, events[..|events| - 1]), events[|events| - 1], cap)
  }

  /** Limits as LimitsFor builds them, and a clock that has not reached its last i64 instant. */
  predicate Genuine(event: Event) {
    && I64_MIN <= event.now < I64_MAX
    && (event.Checked? ==> WellFormed(event.limits))
  }

  /** A run as the admission layer and the sweeper produce it, with clock readings in any order. */
  predicate Proper(events: seq<Event>) {
    forall i :: 0 <= i < |events| ==> Genuine(events[i])
  }

  lemma ProperPrefix(events: seq<Event>)
    requires Proper(events) && events != []
    ensures Proper(events[..|events| - 1]) && Genuine(events[|events| - 1])
    ensures Runnable(events) && Runnable(events[..|events| - 1])
  {
    assert forall i :: 0 <= i < |events| ==> Genuine(events[i]);
  }

  lemma ReplaySnoc(cap: nat, events: seq<Event>, last: Event)
    requires Runnable(events) && (last.Checked? ==> Positive(last.limits))
    ensures Runnable(events + [last])
    ensures Replay(cap, events + [last]) == Step(Replay(cap, events), last, cap)
  {
    assert (events + [last])[..|events|] == events;
  }

  // ---------------------------------------------------------------------------------------------
  // The log of admitted requests

  /** How many admitted requests share this bucket and this window index. */
  function Uses(log: seq<Admission>, bucket: Bucket, index: int): nat {
    if log == [] then 0
    else
      var last := log[|log| - 1];
      Uses(log[..|log| - 1], bucket, index)
      + if bucket in Named(last.limits, |last.limits|) && Index(last.now, bucket) == index then 1 else 0
  }

  predicate UnderCeilings(log: seq<Admission>, limits: seq<Limit>, now: int) {
    forall i :: 0 <= i < |limits| ==>
      Uses(log, limits[i].bucket, Index(now, limits[i].bucket)) < limits[i].ceiling
  }

  /** The limiter the code stands for: no windows, no sweeping, only the log of admitted requests. */
  function Reference(events: seq<Event>): seq<Admission> {
    if events == [] then []
    else
      var log := Reference(events[..|events| - 1]);
      var last := events[|events| - 1];
      if last.Checked? && UnderCeilings(log, last.limits, last.now)
      then log + [Admission(last.limits, last.now)] else log
  }

  lemma UsesAppend(log: seq<Admission>, entry: Admission, bucket: Bucket, index: int)
    ensures Uses(log + [entry], bucket, index) == Uses(log, bucket, index)
              + if bucket in Named(entry.limits, |entry.limits|) && Index(entry.now, bucket) == index then 1 else 0
  {
    assert (log + [entry])[..|log|] == log;
  }

  lemma UsesOfEmpty(bucket: Bucket, index: int)
    ensures Uses([], bucket, index) == 0
  {
  }

  predicate Names(event: Event, bucket: Bucket) {
    event.Checked? && bucket in Named(event.limits, |event.limits|)
  }

  /** What an event adds to a bucket's uses of one window. */
  function Hit(event: Event, admitted: bool, bucket: Bucket, index: int): nat {
    if admitted && Names(event, bucket) && Index(event.now, bucket) == index then 1 else 0
  }

  lemma UsesStep(ledger: Ledger, event: Event, cap: nat, bucket: Bucket, index: int)
    requires event.Checked? ==> Positive(event.limits)
    ensures
      var next := Step(ledger, event, cap);
      var hit := Hit(event, Admits(ledger.windows, event, cap), bucket, index);
      && Uses(next.admitted, bucket, index) == Uses(ledger.admitted, bucket, index) + hit
      && Uses(next.epoch, bucket, index)
         == (if next.clears > ledger.clears then 0 else Uses(ledger.epoch, bucket, index)) + hit
  {
    hide Uses, Admits, Clears, CheckWindows;
    UsesOfEmpty(bucket, index);
    if event.Checked? {
      var entry := Admission(event.limits, event.now);
      UsesAppend(ledger.admitted, entry, bucket, index);
      UsesAppend(ledger.epoch, entry, bucket, index);
      var none: seq<Admission> := [];
      UsesAppend(none, entry, bucket, index);
      assert none + [] == none;
      assert ledger.admitted + [] == ledger.admitted && ledger.epoch + [] == ledger.epoch;
    }
  }

  // ---------------------------------------------------------------------------------------------
  // One bucket at a time

  function Found(windows: Windows, bucket: Bucket): Option<Window> {
    if bucket in windows then Some(windows[bucket]) else None
  }

  /** What a window counts towards an index. */
  function CountIn(window: Option<Window>, bucket: Bucket, index: int): nat {
    if window.Some? && window.value.expires == End(bucket, index) then window.value.count else 0
  }

  lemma LiveIsCount(windows: Windows, bucket: Bucket, now: int)
    ensures Live(windows, bucket, now) == CountIn(Found(windows, bucket), bucket, Index(now, bucket))
  {
    ExpiryIsEnd(now, bucket);
  }

  /** What making room does: nothing, drop what has lapsed, or drop everything. */
  datatype Room = Ample | Pruned | Cleared

  function RoomFor(windows: Windows, event: Event, cap: nat): Room {
    if event.Swept? then Pruned
    else if |windows| < cap then Ample
    else if Clears(windows, event.now, cap) then Cleared
    else Pruned
  }

  function Spared(window: Option<Window>, room: Room, now: int): Option<Window> {
    if room.Cleared? || (room.Pruned? && window.Some? && now >= window.value.expires) then None else window
  }

  function StepOne(window: Option<Window>, bucket: Bucket, event: Event, room: Room, admitted: bool): Option<Window> {
    var spared := Spared(window, room, event.now);
    if Names(event, bucket) then
      var index := Index(event.now, bucket);
      Some(Window(End(bucket, index),
                  SaturatingU32(CountIn(spared, bucket, index) + if admitted then 1 else 0)))
    else spared
  }

  lemma BoundSpares(windows: Windows, event: Event, cap: nat, bucket: Bucket)
    requires event.Checked?
    ensures Found(Bounded(windows, event.now, cap), bucket)
         == Spared(Found(windows, bucket), RoomFor(windows, event, cap), event.now)
  {
  }

  /** What one check does to a bucket: a named one gets the current window, with one more use if the
      request is allowed; any other stays as it is. */
  lemma CheckedBucket(windows: Windows, limits: seq<Limit>, now: int, bucket: Bucket)
    requires WellFormed(limits)
    ensures Positive(limits)
    ensures
      var (primed, allowed) := OpenAll(windows, limits, |limits|, now);
      && (forall i :: 0 <= i < |limits| ==> limits[i].bucket in primed)
      && Found(ChargeAll(primed, limits, |limits|, allowed).0, bucket)
         == if bucket in Named(limits, |limits|)
            then var count := CountIn(Found(windows, bucket), bucket, Index(now, bucket));
                 Some(Window(End(bucket, Index(now, bucket)), SaturatingU32(count + if allowed then 1 else 0)))
            else Found(windows, bucket)
  {
    hide OpenAll, ChargeAll, Expiry, End, Index, Live;
    var (primed, allowed) := OpenAll(windows, limits, |limits|, now);
    NamedArePrimed(windows, limits, now);
    OpenAllAt(windows, limits, |limits|, now, bucket);
    LiveIsCount(windows, bucket, now);
    ExpiryIsEnd(now, bucket);
    if bucket in primed {
      ChargeAllAt(primed, limits, |limits|, allowed, bucket);
    }
  }

  /** A step does to each bucket what it does to one. */
  lemma StepIsOne(ledger: Ledger, event: Event, cap: nat, bucket: Bucket)
    requires Genuine(event)
    ensures event.Checked? ==> Positive(event.limits)
    ensures Found(Step(ledger, event, cap).windows, bucket)
         == StepOne(Found(ledger.windows, bucket), bucket, event, RoomFor(ledger.windows, event, cap),
                    Admits(ledger.windows, event, cap))
  {
    hide OpenAll, ChargeAll, Bounded, Expiry, End, Index, WindowOf, Clears;
    if event.Checked? {
      var bounded := Bounded(ledger.windows, event.now, cap);
      BoundSpares(ledger.windows, event, cap, bucket);
      CheckedBucket(bounded, event.limits, event.now, bucket);
    }
  }

  // ---------------------------------------------------------------------------------------------
  // How far a bucket has got, and which checks come late for it

  /** Whether an event can change what the map holds for a bucket. */
  predicate Touches(event: Event, bucket: Bucket, room: Room) {
    Names(event, bucket) || !room.Ample?
  }

  function NextFront(front: int, bucket: Bucket, event: Event, room: Room): int {
    if Touches(event, bucket, room) && Index(event.now, bucket) > front then Index(event.now, bucket) else front
  }

  /** The latest window index at which something has touched the bucket. */
  function Front(cap: nat, events: seq<Event>, bucket: Bucket): int
    requires Runnable(events)
  {
    if events == [] then Index(I64_MIN, bucket)
    else
      var before, last := events[..|events| - 1], events[|events| - 1];
      NextFront(Front(cap, before, bucket), bucket, last, RoomFor(Replay(cap, before).windows, last, cap))
  }

  /** A check of the bucket whose window index is behind the front. */
  predicate IsLate(front: int, bucket: Bucket, event: Event) {
    Names(event, bucket) && Index(event.now, bucket) < front
  }

  /** How many checks of the bucket came late. */
  function Lates(cap: nat, events: seq<Event>, bucket: Bucket): nat
    requires Runnable(events)
  {
    if events == [] then 0
    else
      var before, last := events[..|events| - 1], events[|events| - 1];
      Lates(cap, before, bucket) + if IsLate(Front(cap, before, bucket), bucket, last) then 1 else 0
  }

  /** No check of any bucket came late. */
  ghost predicate Punctual(cap: nat, events: seq<Event>)
    requires Runnable(events)
  {
    forall bucket :: Lates(cap, events, bucket) == 0
  }

  lemma FrontSnoc(cap: nat, events: seq<Event>, last: Event, bucket: Bucket)
    requires Runnable(events) && (last.Checked? ==> Positive(last.limits))
    ensures Runnable(events + [last])
    ensures Front(cap, events + [last], bucket)
         == NextFront(Front(cap, events, bucket), bucket, last, RoomFor(Replay(cap, events).windows, last, cap))
    ensures Lates(cap, events + [last], bucket)
         == Lates(cap, events, bucket) + if IsLate(Front(cap, events, bucket), bucket, last) then 1 else 0
  {
    assert (events + [last])[..|events|] == events;
  }

  /** The window indices of a bucket never go back along the run. */
  predicate InOrder(events: seq<Event>, bucket: Bucket) {
    forall i, j :: 0 <= i < j < |events| ==> Index(events[i].now, bucket) <= Index(events[j].now, bucket)
  }

  /** In a run whose indices never go back for a bucket, no check of it comes late. */
  lemma {:induction false} InOrderIsNeverLate(cap: nat, events: seq<Event>, bucket: Bucket)
    requires Proper(events) && Runnable(events) && InOrder(events, bucket)
    ensures Lates(cap, events, bucket) == 0
    ensures Front(cap, events, bucket)
         <= if events == [] then Index(I64_MIN, bucket) else Index(events[|events| - 1].now, bucket)
  {
    hide Replay, RoomFor;
    if events == [] {
    } else {
      ProperPrefix(events);
      var before, last := events[..|events| - 1], events[|events| - 1];
      InOrderIsNeverLate(cap, before, bucket);
      if before != [] {
        assert before[|before| - 1] == events[|events| - 2];
      } else {
        ExpiryIdentifiesWindow(I64_MIN, last.now, bucket);
      }
    }
  }

  /** So a run whose clock readings are in order is punctual. */
  lemma OrderedIsPunctual(cap: nat, events: seq<Event>)
    requires Proper(events) && Runnable(events)
    requires forall i, j :: 0 <= i < j < |events| ==> events[i].now <= events[j].now
    ensures Punctual(cap, events)
  {
    forall bucket
      ensures Lates(cap, events, bucket) == 0
    {
      forall i, j | 0 <= i < j < |events|
        ensures Index(events[i].now, bucket) <= Index(events[j].now, bucket)
      {
        assert Genuine(events[i]) && Genuine(events[j]);
        ExpiryIdentifiesWindow(events[i].now, events[j].now, bucket);
      }
      InOrderIsNeverLate(cap, events, bucket);
    }
  }

  // ---------------------------------------------------------------------------------------------
  // The front is ahead of the map and of the log

  lemma FrontStep(window: Option<Window>, bucket: Bucket, event: Event, room: Room, admitted: bool, front: int)
    requires Genuine(event) && Shown(bucket, front)
    requires window.Some? ==> window.value.expires <= End(bucket, front)
    ensures
      var next, later := StepOne(window, bucket, event, room, admitted), NextFront(front, bucket, event, room);
      && front <= later && Shown(bucket, later)
      && (next.Some? ==> next.value.expires <= End(bucket, later))
  {
    hide End, Index;
    AliveUntilEnd(bucket, event.now, front);
    var later := NextFront(front, bucket, event, room);
    EndsGrow(bucket, front, later);
    EndsGrow(bucket, Index(event.now, bucket), later);
  }

  lemma FrontBegins(bucket: Bucket)
    ensures Shown(bucket, Index(I64_MIN, bucket))
  {
  }

  lemma {:induction false} NothingBeyondFront(cap: nat, events: seq<Event>, bucket: Bucket, index: int)
    requires Proper(events) && Runnable(events)
    ensures Shown(bucket, Front(cap, events, bucket))
    ensures
      var window := Found(Replay(cap, events).windows, bucket);
      window.Some? ==> window.value.expires <= End(bucket, Front(cap, events, bucket))
    ensures index > Front(cap, events, bucket) ==>
              && Uses(Replay(cap, events).admitted, bucket, index) == 0
              && Uses(Replay(cap, events).epoch, bucket, index) == 0
  {
    hide StepOne, End, Step, Admits, RoomFor, Uses, Index, Genuine;
    if events == [] {
      FrontBegins(bucket);
      UsesOfEmpty(bucket, index);
    } else {
      ProperPrefix(events);
      var before, last := events[..|events| - 1], events[|events| - 1];
      NothingBeyondFront(cap, before, bucket, index);
      var ledger := Replay(cap, before);
      FrontStep(Found(ledger.windows, bucket), bucket, last, RoomFor(ledger.windows, last, cap),
                Admits(ledger.windows, last, cap), Front(cap, before, bucket));
      StepIsOne(ledger, last, cap, bucket);
      UsesStep(ledger, last, cap, bucket, index);
    }
  }

  lemma ClearsByRoom(ledger: Ledger, event: Event, cap: nat)
    requires event.Checked? ==> Positive(event.limits)
    ensures Step(ledger, event, cap).clears
         == ledger.clears + if RoomFor(ledger.windows, event, cap).Cleared? then 1 else 0
  {
  }

  /** The limiter never counts more than the log, so it never refuses what the log would admit: this half
      needs no order of the clock readings and no absence of clears. */
  lemma {:induction false} NeverOvercounts(cap: nat, events: seq<Event>, bucket: Bucket, index: int)
    requires Proper(events) && Runnable(events) && Shown(bucket, index)
    ensures CountIn(Found(Replay(cap, events).windows, bucket), bucket, index)
         <= Uses(Replay(cap, events).epoch, bucket, index) <= Uses(Replay(cap, events).admitted, bucket, index)
  {
    hide End, Step, Admits, Uses, Index, Genuine, Shown;
    if events == [] {
      UsesOfEmpty(bucket, index);
    } else {
      ProperPrefix(events);
      var before, last := events[..|events| - 1], events[|events| - 1];
      NeverOvercounts(cap, before, bucket, index);
      var ledger := Replay(cap, before);
      StepIsOne(ledger, last, cap, bucket);
      UsesStep(ledger, last, cap, bucket, index);
      ClearsByRoom(ledger, last, cap);
      AliveUntilEnd(bucket, last.now, index);
      EndsGrow(bucket, Index(last.now, bucket), index);
    }
  }

  // ---------------------------------------------------------------------------------------------
  // A bucket that no check comes late for agrees with the log

  /** An admitted request found room in every bucket it names. */
  lemma AdmittedBelow(windows: Windows, event: Event, cap: nat, bucket: Bucket) returns (i: nat)
    requires Genuine(event) && Names(event, bucket)
    requires Positive(event.limits) && Admits(windows, event, cap)
    ensures i < |event.limits| && event.limits[i].bucket == bucket
    ensures CountIn(Spared(Found(windows, bucket), RoomFor(windows, event, cap), event.now), bucket,
                    Index(event.now, bucket)) < event.limits[i].ceiling
  {
    hide OpenAll, Bounded, Index, Clears, CountIn;
    var limits := event.limits;
    var bounded := Bounded(windows, event.now, cap);
    i := NamedIndex(limits, |limits|, bucket);
    OpenAllVerdict(bounded, limits, |limits|, event.now);
    BoundSpares(windows, event, cap, bucket);
    LiveIsCount(bounded, bucket, event.now);
  }

  /** Making room leaves the count of the current window alone, unless it clears everything. */
  lemma SparedCount(window: Option<Window>, bucket: Bucket, room: Room, now: int, index: int)
    requires I64_MIN <= now < I64_MAX && Shown(bucket, index) && Index(now, bucket) <= index
    ensures CountIn(Spared(window, room, now), bucket, index)
         == if room.Cleared? then 0 else CountIn(window, bucket, index)
  {
    AliveUntilEnd(bucket, now, index);
  }

  lemma AgreeStep(window: Option<Window>, bucket: Bucket, event: Event, room: Room, admitted: bool, front: int)
    requires Genuine(event) && Shown(bucket, front) && !IsLate(front, bucket, event)
    requires window.Some? ==> window.value.expires <= End(bucket, front)
    requires admitted && Names(event, bucket) ==>
               CountIn(Spared(window, room, event.now), bucket, Index(event.now, bucket)) < U32_MAX
    ensures
      var later := NextFront(front, bucket, event, room);
      CountIn(StepOne(window, bucket, event, room, admitted), bucket, later)
      == (if room.Cleared? || later > front then 0 else CountIn(window, bucket, front))
         + Hit(event, admitted, bucket, later)
  {
    hide End, Index;
    var later := NextFront(front, bucket, event, room);
    AliveUntilEnd(bucket, event.now, front);
    EndsGrow(bucket, front, later);
    if Touches(event, bucket, room) {
      SparedCount(window, bucket, room, event.now, later);
    }
  }

  lemma NothingFound(bucket: Bucket, index: int)
    ensures CountIn(Found(FRESH.windows, bucket), bucket, index) == 0 == Uses([], bucket, index)
  {
  }

  /** While no check of a bucket has come late, what the map holds for it at the front and beyond is what
      the log since the last clear holds. */
  lemma {:induction false} FrontAgrees(cap: nat, events: seq<Event>, bucket: Bucket)
    requires Proper(events) && Runnable(events) && Lates(cap, events, bucket) == 0
    ensures
      var front := Front(cap, events, bucket);
      CountIn(Found(Replay(cap, events).windows, bucket), bucket, front)
      == Uses(Replay(cap, events).epoch, bucket, front)
  {
    hide StepOne, End, Step, Admits, RoomFor, Uses, Index, Genuine, CountIn, NextFront, IsLate, Hit;
    if events == [] {
      NothingFound(bucket, Front(cap, events, bucket));
    } else {
      ProperPrefix(events);
      var before, last := events[..|events| - 1], events[|events| - 1];
      var ledger, front := Replay(cap, before), Front(cap, before, bucket);
      var window, room := Found(ledger.windows, bucket), RoomFor(ledger.windows, last, cap);
      var later := Front(cap, events, bucket);
      FrontAgrees(cap, before, bucket);
      NothingBeyondFront(cap, before, bucket, later);
      if Admits(ledger.windows, last, cap) && Names(last, bucket) {
        var i := AdmittedBelow(ledger.windows, last, cap, bucket);
      }
      FrontStep(window, bucket, last, room, Admits(ledger.windows, last, cap), front);
      AgreeStep(window, bucket, last, room, Admits(ledger.windows, last, cap), front);
      StepIsOne(ledger, last, cap, bucket);
      UsesStep(ledger, last, cap, bucket, later);
      ClearsByRoom(ledger, last, cap);
    }
  }

  lemma AgreesAhead(cap: nat, events: seq<Event>, bucket: Bucket, index: int)
    requires Proper(events) && Runnable(events) && Lates(cap, events, bucket) == 0
    requires Shown(bucket, index) && index >= Front(cap, events, bucket)
    ensures CountIn(Found(Replay(cap, events).windows, bucket), bucket, index)
         == Uses(Replay(cap, events).epoch, bucket, index)
  {
    hide End, Uses, Replay, Front, Shown;
    var front := Front(cap, events, bucket);
    FrontAgrees(cap, events, bucket);
    NothingBeyondFront(cap, events, bucket, index);
    EndsGrow(bucket, front, index);
  }

  function EpochAt(ledger: Ledger, now: int, cap: nat): seq<Admission> {
    if Clears(ledger.windows, now, cap) then [] else ledger.epoch
  }

  lemma RoomClears(windows: Windows, event: Event, cap: nat)
    requires event.Checked?
    ensures RoomFor(windows, event, cap).Cleared? <==> Clears(windows, event.now, cap)
  {
  }

  /** What a check finds for a bucket that it is not late for. */
  lemma CheckFinds(cap: nat, events: seq<Event>, event: Event, bucket: Bucket)
    requires Proper(events) && Runnable(events) && Genuine(event) && event.Checked?
    requires Lates(cap, events, bucket) == 0 && Index(event.now, bucket) >= Front(cap, events, bucket)
    ensures Live(Bounded(Replay(cap, events).windows, event.now, cap), bucket, event.now)
         == Uses(EpochAt(Replay(cap, events), event.now, cap), bucket, Index(event.now, bucket))
  {
    hide End, Uses, Replay, Front, Index, CountIn, Spared, Bounded, Live, Clears;
    var ledger, index := Replay(cap, events), Index(event.now, bucket);
    AliveUntilEnd(bucket, event.now, Index(I64_MIN, bucket)) by {
      FrontBegins(bucket);
    }
    AgreesAhead(cap, events, bucket, index);
    BoundSpares(ledger.windows, event, cap, bucket);
    LiveIsCount(Bounded(ledger.windows, event.now, cap), bucket, event.now);
    SparedCount(Found(ledger.windows, bucket), bucket, RoomFor(ledger.windows, event, cap), event.now, index);
    UsesOfEmpty(bucket, index);
    RoomClears(ledger.windows, event, cap);
  }

  /** The check comes late for none of the buckets it names, and none did before. */
  ghost predicate OnTime(cap: nat, events: seq<Event>, event: Event)
    requires Runnable(events)
  {
    forall bucket :: Names(event, bucket) ==>
      Lates(cap, events, bucket) == 0 && Index(event.now, bucket) >= Front(cap, events, bucket)
  }

  /** Over any run, whatever sweeping, pruning and clearing did before it and whatever order other buckets
      were checked in, a check that is on time for its own buckets is admitted exactly when each of its
      limits has fewer than `ceiling` uses in the log since the last clear. */
  lemma AdmittedIffUnderCeilings(cap: nat, events: seq<Event>, limits: seq<Limit>, now: int)
    requires Proper(events) && Runnable(events) && Genuine(Checked(limits, now)) && Positive(limits)
    requires OnTime(cap, events, Checked(limits, now))
    ensures Admits(Replay(cap, events).windows, Checked(limits, now), cap)
       <==> UnderCeilings(EpochAt(Replay(cap, events), now, cap), limits, now)
  {
    hide OpenAll, Bounded, Live, Uses, Replay, Front, Lates, Index, EpochAt, Clears;
    var event := Checked(limits, now);
    OpenAllVerdict(Bounded(Replay(cap, events).windows, now, cap), limits, |limits|, now);
    forall i | 0 <= i < |limits|
      ensures Live(Bounded(Replay(cap, events).windows, now, cap), limits[i].bucket, now)
           == Uses(EpochAt(Replay(cap, events), now, cap), limits[i].bucket, Index(now, limits[i].bucket))
    {
      assert Names(event, limits[i].bucket);
      CheckFinds(cap, events, event, limits[i].bucket);
    }
  }

  lemma LiveAtMostUses(cap: nat, events: seq<Event>, limits: seq<Limit>, now: int, bucket: Bucket)
    requires Proper(events) && Runnable(events) && Genuine(Checked(limits, now))
    ensures Live(Bounded(Replay(cap, events).windows, now, cap), bucket, now)
         <= Uses(Replay(cap, events).admitted, bucket, Index(now, bucket))
  {
    hide End, Uses, Replay, Index, CountIn, Bounded, Live, Spared, Clears;
    var ledger, index := Replay(cap, events), Index(now, bucket);
    AliveUntilEnd(bucket, now, Index(I64_MIN, bucket)) by {
      FrontBegins(bucket);
    }
    NeverOvercounts(cap, events, bucket, index);
    BoundSpares(ledger.windows, Checked(limits, now), cap, bucket);
    LiveIsCount(Bounded(ledger.windows, now, cap), bucket, now);
    SparedCount(Found(ledger.windows, bucket), bucket, RoomFor(ledger.windows, Checked(limits, now), cap), now, index);
  }

  /** Over any run at all, a request that the log of admitted requests has room for is admitted. */
  lemma NeverRefusedInVain(cap: nat, events: seq<Event>, limits: seq<Limit>, now: int)
    requires Proper(events) && Runnable(events) && Genuine(Checked(limits, now)) && Positive(limits)
    requires UnderCeilings(Replay(cap, events).admitted, limits, now)
    ensures Admits(Replay(cap, events).windows, Checked(limits, now), cap)
  {
    hide OpenAll, Bounded, Live, Uses, Replay, Index, Clears;
    OpenAllVerdict(Bounded(Replay(cap, events).windows, now, cap), limits, |limits|, now);
    forall i | 0 <= i < |limits|
      ensures Live(Bounded(Replay(cap, events).windows, now, cap), limits[i].bucket, now)
           <= Uses(Replay(cap, events).admitted, limits[i].bucket, Index(now, limits[i].bucket))
    {
      LiveAtMostUses(cap, events, limits, now, limits[i].bucket);
    }
  }

  // ---------------------------------------------------------------------------------------------
  // The refinement

  /** Clears, lates and fronts only grow along a run. */
  lemma {:induction false} RunsOnlyGrow(cap: nat, events: seq<Event>, n: nat, bucket: Bucket)
    requires Runnable(events) && n <= |events|
    ensures Runnable(events[..n])
    ensures Replay(cap, events[..n]).clears <= Replay(cap, events).clears
    ensures Lates(cap, events[..n], bucket) <= Lates(cap, events, bucket)
    ensures Front(cap, events[..n], bucket) <= Front(cap, events, bucket)
  {
    hide Clears, CheckWindows, Admits, RoomFor, IsLate, Touches;
    if n == |events| {
      assert events[..n] == events;
    } else {
      RunsOnlyGrow(cap, events[..|events| - 1], n, bucket);
      assert events[..|events| - 1][..n] == events[..n];
    }
  }

  /** A log grows along a run, so uses do. */
  lemma {:induction false} UsesOnlyGrow(cap: nat, events: seq<Event>, n: nat, bucket: Bucket, index: int)
    requires Runnable(events) && n <= |events|
    ensures Runnable(events[..n])
    ensures Uses(Replay(cap, events[..n]).admitted, bucket, index) <= Uses(Replay(cap, events).admitted, bucket, index)
  {
    hide Step, Uses, Admits, Hit;
    if n == |events| {
      assert events[..n] == events;
    } else {
      var before, last := events[..|events| - 1], events[|events| - 1];
      UsesOnlyGrow(cap, before, n, bucket, index);
      assert before[..n] == events[..n];
      UsesStep(Replay(cap, before), last, cap, bucket, index);
    }
  }

  /** While nothing was cleared the epoch is the whole log. */
  lemma {:induction false} EpochIsLog(cap: nat, events: seq<Event>)
    requires Runnable(events) && Replay(cap, events).clears == 0
    ensures Replay(cap, events).epoch == Replay(cap, events).admitted
  {
    hide Admits, Clears, CheckWindows;
    if events == [] {
    } else {
      EpochIsLog(cap, events[..|events| - 1]);
    }
  }

  /** The last event of a run that nothing came late in is on time. */
  lemma LastIsOnTime(cap: nat, events: seq<Event>, last: Event)
    requires Runnable(events) && (last.Checked? ==> Positive(last.limits)) && Runnable(events + [last])
    requires forall bucket :: Names(last, bucket) ==> Lates(cap, events + [last], bucket) == 0
    ensures OnTime(cap, events, last)
  {
    hide Names, Front, Lates, Index;
    forall bucket | Names(last, bucket)
      ensures Lates(cap, events, bucket) == 0 && Index(last.now, bucket) >= Front(cap, events, bucket)
    {
      FrontSnoc(cap, events, last, bucket);
    }
  }

  /** While the map is never cleared outright, a check that is on time is decided by the bare log of
      admitted requests. */
  lemma VerdictOfTheLog(cap: nat, events: seq<Event>, limits: seq<Limit>, now: int)
    requires Proper(events) && Runnable(events) && Genuine(Checked(limits, now)) && Positive(limits)
    requires OnTime(cap, events, Checked(limits, now))
    requires Step(Replay(cap, events), Checked(limits, now), cap).clears == 0
    ensures Admits(Replay(cap, events).windows, Checked(limits, now), cap)
       <==> UnderCeilings(Replay(cap, events).admitted, limits, now)
  {
    hide Admits, UnderCeilings, OnTime, Clears, CheckWindows, Proper;
    EpochIsLog(cap, events);
    AdmittedIffUnderCeilings(cap, events, limits, now);
  }

  lemma LatesBefore(cap: nat, events: seq<Event>)
    requires Runnable(events) && events != [] && Punctual(cap, events)
    ensures Runnable(events[..|events| - 1]) && Punctual(cap, events[..|events| - 1])
    ensures OnTime(cap, events[..|events| - 1], events[|events| - 1])
  {
    hide Lates, Front;
    var before, last := events[..|events| - 1], events[|events| - 1];
    assert before + [last] == events;
    forall bucket
      ensures Lates(cap, before, bucket) == 0
    {
      RunsOnlyGrow(cap, events, |events| - 1, bucket);
    }
    LastIsOnTime(cap, before, last);
  }

  lemma SweepAdmitsNothing(windows: Windows, event: Event, cap: nat)
    requires event.Swept?
    ensures !Admits(windows, event, cap)
  {
  }

  /** The refinement: while the map is never cleared outright and no check comes late, the limiter admits
      exactly what the bare count of admitted requests admits. Lazy reset, sweeping and pruning are
      invisible, and a refused request leaves no trace. */
  lemma {:induction false} RefinesCounting(cap: nat, events: seq<Event>)
    requires Proper(events) && Runnable(events) && Punctual(cap, events)
    requires Replay(cap, events).clears == 0
    ensures Replay(cap, events).admitted == Reference(events)
  {
    hide Admits, UnderCeilings, OnTime, Punctual, Clears, CheckWindows, Genuine, Proper;
    if events == [] {
    } else {
      ProperPrefix(events);
      var before, last := events[..|events| - 1], events[|events| - 1];
      LatesBefore(cap, events);
      RefinesCounting(cap, before);
      if last.Checked? {
        VerdictOfTheLog(cap, before, last.limits, last.now);
      } else {
        SweepAdmitsNothing(Replay(cap, before).windows, last, cap);
      }
    }
  }

  // ---------------------------------------------------------------------------------------------
  // What this means for a caller

  /** A request adds to the buckets it is counted in, and to no other. */
  lemma NamedMeans(caller: Option<Caller>, address: Option<string>, anon: U32, bucket: Bucket)
    ensures
      var limits := LimitsFor(caller, address, anon);
      bucket in Named(limits, |limits|) <==> exists ceiling :: CountsIn(caller, address, anon, bucket, ceiling)
  {
    hide LimitsFor, CountsIn;
    var limits := LimitsFor(caller, address, anon);
    if bucket in Named(limits, |limits|) {
      var i := NamedIndex(limits, |limits|, bucket);
      assert Asks(limits, bucket, limits[i].ceiling);
      LimitsMean(caller, address, anon, bucket, limits[i].ceiling);
    }
    if ceiling :| CountsIn(caller, address, anon, bucket, ceiling) {
      LimitsMean(caller, address, anon, bucket, ceiling);
      var i :| 0 <= i < |limits| && limits[i].bucket == bucket && limits[i].ceiling == ceiling;
    }
  }

  /** There is room in the log wherever the caller is counted. */
  ghost predicate HasRoom(log: seq<Admission>, caller: Option<Caller>, address: Option<string>, anon: U32, now: int) {
    forall bucket, ceiling :: CountsIn(caller, address, anon, bucket, ceiling) ==>
      Uses(log, bucket, Index(now, bucket)) < ceiling
  }

  lemma RoomIsUnderCeilings(
    log: seq<Admission>, caller: Option<Caller>, address: Option<string>, anon: U32, now: int)
    ensures UnderCeilings(log, LimitsFor(caller, address, anon), now) <==> HasRoom(log, caller, address, anon, now)
  {
    hide LimitsFor, CountsIn, Uses, Index;
    var limits := LimitsFor(caller, address, anon);
    if UnderCeilings(log, limits, now) {
      forall bucket, ceiling | CountsIn(caller, address, anon, bucket, ceiling)
        ensures Uses(log, bucket, Index(now, bucket)) < ceiling
      {
        LimitsMean(caller, address, anon, bucket, ceiling);
        var i :| 0 <= i < |limits| && limits[i].bucket == bucket && limits[i].ceiling == ceiling;
      }
    }
    if HasRoom(log, caller, address, anon, now) {
      forall i | 0 <= i < |limits|
        ensures Uses(log, limits[i].bucket, Index(now, limits[i].bucket)) < limits[i].ceiling
      {
        assert Asks(limits, limits[i].bucket, limits[i].ceiling);
        LimitsMean(caller, address, anon, limits[i].bucket, limits[i].ceiling);
      }
    }
  }

  /** Over any run a caller with room wherever it is counted is admitted; and if nothing was cleared and the
      check is on time, only such a caller is. */
  lemma CallerVerdict(
    cap: nat, events: seq<Event>, caller: Option<Caller>, address: Option<string>, anon: U32, now: int)
    requires Proper(events) && Runnable(events) && I64_MIN <= now < I64_MAX
    ensures
      var event := Checked(LimitsFor(caller, address, anon), now);
      && Positive(event.limits)
      && (HasRoom(Replay(cap, events).admitted, caller, address, anon, now) ==>
            Admits(Replay(cap, events).windows, event, cap))
      && (OnTime(cap, events, event) && Step(Replay(cap, events), event, cap).clears == 0 ==>
            (Admits(Replay(cap, events).windows, event, cap)
             <==> HasRoom(Replay(cap, events).admitted, caller, address, anon, now)))
  {
    hide Admits, UnderCeilings, HasRoom, OnTime, Proper, Clears, CheckWindows, LimitsFor;
    var limits := LimitsFor(caller, address, anon);
    LimitsForIsWellFormed(caller, address, anon);
    RoomIsUnderCeilings(Replay(cap, events).admitted, caller, address, anon, now);
    if UnderCeilings(Replay(cap, events).admitted, limits, now) {
      NeverRefusedInVain(cap, events, limits, now);
    }
    if OnTime(cap, events, Checked(limits, now)) && Step(Replay(cap, events), Checked(limits, now), cap).clears == 0 {
      VerdictOfTheLog(cap, events, limits, now);
    }
  }

  /** So strangers cannot use up an anonymous visitor's allowance: a request from an address is admitted
      while fewer than `anon` were admitted at that address in the hour. */
  lemma AnonymousIsAdmitted(cap: nat, events: seq<Event>, a: string, anon: U32, now: int)
    requires Proper(events) && Runnable(events) && I64_MIN <= now < I64_MAX
    requires Uses(Replay(cap, events).admitted, Ip(a), HourOf(now)) < anon
    ensures Positive(LimitsFor(None, Some(a), anon))
    ensures Admits(Replay(cap, events).windows, Checked(LimitsFor(None, Some(a), anon), now), cap)
  {
    hide Admits, Replay, Uses, Proper;
    CallerVerdict(cap, events, None, Some(a), anon, now);
  }

  // ---------------------------------------------------------------------------------------------
  // What clearing and coming late cost

  predicate CeilingsAtMost(events: seq<Event>, bucket: Bucket, most: nat) {
    forall i, k ::
      0 <= i < |events| && events[i].Checked? && 0 <= k < |events[i].limits| ==>
      events[i].limits[k].bucket == bucket ==> events[i].limits[k].ceiling <= most
  }

  /** k times m, by repeated addition. */
  function Times(k: nat, m: nat): nat {
    if k == 0 then 0 else Times(k - 1, m) + m
  }

  lemma {:induction false} TimesIsProduct(k: nat, m: nat)
    ensures Times(k, m) == k * m
  {
    if k == 0 {
    } else {
      TimesIsProduct(k - 1, m);
      assert (k - 1) * m + m == k * m;
    }
  }

  /** What a bucket may still be admitted in a window beyond what has been paid for: what the map counts
      for it, nothing if it has not got beyond that window, or a whole ceiling if only a late check could
      open the window again. */
  function Slack(window: Option<Window>, bucket: Bucket, front: int, index: int, most: nat): nat {
    if window.Some? && window.value.expires == End(bucket, index) then window.value.count
    else if front <= index then 0
    else most
  }

  lemma SlackStep(window: Option<Window>, bucket: Bucket, event: Event, room: Room, admitted: bool, front: int,
                  index: int, most: nat)
    requires Genuine(event) && Shown(bucket, front) && Shown(bucket, index)
    requires window.Some? ==> window.value.expires <= End(bucket, front)
    requires CountIn(window, bucket, index) <= most
    requires admitted && Names(event, bucket) ==>
               && CountIn(Spared(window, room, event.now), bucket, Index(event.now, bucket)) < most
               && CountIn(Spared(window, room, event.now), bucket, Index(event.now, bucket)) < U32_MAX
    ensures
      var next, later := StepOne(window, bucket, event, room, admitted), NextFront(front, bucket, event, room);
      && CountIn(next, bucket, index) <= most
      && Hit(event, admitted, bucket, index) + Slack(window, bucket, front, index, most)
         <= (if room.Cleared? then most else 0) + (if IsLate(front, bucket, event) then most else 0)
            + Slack(next, bucket, later, index, most)
  {
    hide End, Index, Shown;
    AliveUntilEnd(bucket, event.now, index);
    EndsGrow(bucket, front, index);
    EndsGrow(bucket, Index(event.now, bucket), index);
  }

  lemma CeilingOfLast(cap: nat, events: seq<Event>, bucket: Bucket, most: nat)
    requires Proper(events) && Runnable(events) && CeilingsAtMost(events, bucket, most) && events != []
    requires Runnable(events[..|events| - 1])
    requires
      var ledger, last := Replay(cap, events[..|events| - 1]), events[|events| - 1];
      Admits(ledger.windows, last, cap) && Names(last, bucket)
    ensures
      var ledger, last := Replay(cap, events[..|events| - 1]), events[|events| - 1];
      var count := CountIn(Spared(Found(ledger.windows, bucket), RoomFor(ledger.windows, last, cap), last.now), bucket,
                           Index(last.now, bucket));
      count < most && count < U32_MAX
  {
    hide Admits, CountIn, Spared, RoomFor, Index, Replay;
    var last := events[|events| - 1];
    ProperPrefix(events);
    var i := AdmittedBelow(Replay(cap, events[..|events| - 1]).windows, last, cap, bucket);
    assert events[|events| - 1].limits[i].bucket == bucket;
  }

  /** Each clear and each late check can hand a bucket its ceiling once more, and no more than that. */
  lemma {:induction false} ForgettingCostsOneCeiling(
    cap: nat, events: seq<Event>, bucket: Bucket, index: int, most: nat)
    requires Proper(events) && Runnable(events) && CeilingsAtMost(events, bucket, most) && Shown(bucket, index)
    ensures
      var ledger := Replay(cap, events);
      var window := Found(ledger.windows, bucket);
      && CountIn(window, bucket, index) <= most
      && Uses(ledger.admitted, bucket, index)
         <= Times(ledger.clears + Lates(cap, events, bucket), most)
            + Slack(window, bucket, Front(cap, events, bucket), index, most)
  {
    hide StepOne, End, Step, Admits, RoomFor, Uses, Index, Genuine, CountIn, NextFront, IsLate, Hit, Slack, Spared,
      Names;
    if events == [] {
      NothingFound(bucket, index);
      UsesOfEmpty(bucket, index);
    } else {
      ProperPrefix(events);
      var before, last := events[..|events| - 1], events[|events| - 1];
      var ledger, front := Replay(cap, before), Front(cap, before, bucket);
      var window, room := Found(ledger.windows, bucket), RoomFor(ledger.windows, last, cap);
      var admitted := Admits(ledger.windows, last, cap);
      ForgettingCostsOneCeiling(cap, before, bucket, index, most);
      NothingBeyondFront(cap, before, bucket, index);
      if admitted && Names(last, bucket) {
        CeilingOfLast(cap, events, bucket, most);
      }
      SlackStep(window, bucket, last, room, admitted, front, index, most);
      StepIsOne(ledger, last, cap, bucket);
      UsesStep(ledger, last, cap, bucket, index);
      ClearsByRoom(ledger, last, cap);
    }
  }

  /** Over any run, with clock readings in any order, a bucket is admitted in one window at most (clears +
      late checks of the bucket + 1) times its largest ceiling. */
  lemma ForgettingBound(cap: nat, events: seq<Event>, bucket: Bucket, index: int, most: nat)
    requires Proper(events) && Runnable(events) && CeilingsAtMost(events, bucket, most) && Shown(bucket, index)
    ensures Uses(Replay(cap, events).admitted, bucket, index)
         <= (Replay(cap, events).clears + Lates(cap, events, bucket) + 1) * most
  {
    hide Uses, Replay, Lates, CeilingsAtMost;
    ForgettingCostsOneCeiling(cap, events, bucket, index, most);
    TimesIsProduct(Replay(cap, events).clears + Lates(cap, events, bucket) + 1, most);
  }

  lemma RetainedSize(windows: Windows, now: int)
    ensures |Retained(windows, now)| <= |windows|
  {
    SubsetSize(Retained(windows, now).Keys, windows.Keys);
  }

  /** The map before and after one check: a clear needs a full map and leaves at most three entries. */
  lemma CheckSize(ledger: Ledger, limits: seq<Limit>, now: int, cap: nat)
    requires cap >= 1 && WellFormed(limits) && Positive(limits)
    ensures
      var after := Step(ledger, Checked(limits, now), cap);
      && |after.windows| <= cap + 2
      && (if Clears(ledger.windows, now, cap)
          then |ledger.windows| >= cap && |after.windows| <= 3 && after.clears == ledger.clears + 1
          else |after.windows| <= |ledger.windows| + 3 && after.clears == ledger.clears)
  {
    var bounded := Bounded(ledger.windows, now, cap);
    RetainedSize(ledger.windows, now);
    OpenAllSize(bounded, limits, |limits|, now);
    var (primed, allowed) := OpenAll(bounded, limits, |limits|, now);
    assert |ChargeAll(primed, limits, |limits|, allowed).0.Keys| == |primed.Keys|;
  }

  function ChecksIn(events: seq<Event>): nat {
    if events == [] then 0
    else ChecksIn(events[..|events| - 1]) + if events[|events| - 1].Checked? then 1 else 0
  }

  lemma {:induction false} ChecksAreCounted(cap: nat, events: seq<Event>)
    requires Runnable(events)
    ensures Replay(cap, events).checks == ChecksIn(events) <= |events|
  {
    hide CheckWindows, Admits, Clears;
    if events == [] {
    } else {
      ChecksAreCounted(cap, events[..|events| - 1]);
    }
  }

  predicate AllWellFormed(events: seq<Event>) {
    forall i :: 0 <= i < |events| && events[i].Checked? ==> WellFormed(events[i].limits)
  }

  lemma {:induction false} ClearsArePaidFor(cap: nat, events: seq<Event>)
    requires cap >= 1 && AllWellFormed(events) && Runnable(events)
    ensures Times(Replay(cap, events).clears, cap) + |Replay(cap, events).windows|
         <= 3 * Replay(cap, events).checks
    ensures |Replay(cap, events).windows| <= cap + 2
  {
    hide CheckWindows, Admits, Bounded, Clears;
    if events == [] {
    } else {
      var before, last := events[..|events| - 1], events[|events| - 1];
      ClearsArePaidFor(cap, before);
      var ledger := Replay(cap, before);
      match last {
        case Checked(limits, now) => CheckSize(ledger, limits, now, cap);
        case Swept(now) => RetainedSize(ledger.windows, now);
      }
    }
  }

  /** Clears are paid for by insertions, at most three to a check, and the map stays bounded, whatever the
      clock readings. */
  lemma ClearsAreRare(cap: nat, events: seq<Event>)
    requires cap >= 1 && AllWellFormed(events) && Runnable(events)
    ensures Replay(cap, events).clears * cap <= 3 * ChecksIn(events)
    ensures |Replay(cap, events).windows| <= cap + 2
  {
    ChecksAreCounted(cap, events);
    ClearsArePaidFor(cap, events);
    TimesIsProduct(Replay(cap, events).clears, cap);
  }

  lemma ProperIsWellFormed(events: seq<Event>)
    requires Proper(events)
    ensures AllWellFormed(events)
  {
    assert forall i :: 0 <= i < |events| ==> Genuine(events[i]);
  }

  /** So a run of fewer than cap/3 checks never clears, and counting is exact for it if no check is late. */
  lemma ShortRunsCountExactly(cap: nat, events: seq<Event>)
    requires Proper(events) && Runnable(events) && Punctual(cap, events)
    requires 3 * ChecksIn(events) < cap
    ensures Replay(cap, events).admitted == Reference(events)
  {
    ChecksAreCounted(cap, events);
    ProperIsWellFormed(events);
    ClearsArePaidFor(cap, events);
    RefinesCounting(cap, events);
  }

  const LIMIT_A := Limit(Ip("a"), 1, WINDOW_SECONDS)
  const LIMIT_B := Limit(Ip("b"), 1, WINDOW_SECONDS)

  /** Two requests of one address with another address's request between them, all in one second. */
  const TRIO := [Checked([LIMIT_A], 0), Checked([LIMIT_B], 0), Checked([LIMIT_A], 0)]

  lemma TrioIsProper()
    ensures Proper(TRIO) && Runnable(TRIO) && CeilingsAtMost(TRIO, Ip("a"), 1)
  {
  }

  lemma UsesOfTrio(a: Admission, b: Admission)
    requires a.now == b.now == 0
    requires |a.limits| == |b.limits| == 1 && a.limits[0].bucket == Ip("a") && b.limits[0].bucket == Ip("b")
    ensures Uses([] + [a] + [b] + [a], Ip("a"), 0) == 2
  {
    assert Named(a.limits, 1) == {Ip("a")} && Named(b.limits, 1) == {Ip("b")};
    UsesAppend([], a, Ip("a"), 0);
    UsesAppend([] + [a], b, Ip("a"), 0);
    UsesAppend([] + [a] + [b], a, Ip("a"), 0);
  }

  /** With room for one bucket, one check of a fresh limit leaves one live window and one log entry,
      provided the map is empty or full of windows that have not lapsed. */
  lemma SingleCheck(ledger: Ledger, limit: Limit, now: int)
    requires limit.window == WINDOW_SECONDS && limit.ceiling >= 1 && !limit.bucket.UserBurst?
    requires ledger.windows == map[] || Clears(ledger.windows, now, 1)
    requires I64_MIN <= now < I64_MAX
    ensures
      var after := Step(ledger, Checked([limit], now), 1);
      && after.windows == map[limit.bucket := Window(Expiry(now, WINDOW_SECONDS), 1)]
      && after.admitted == ledger.admitted + [Admission([limit], now)]
      && Clears(after.windows, now, 1)
  {
    var bounded := Bounded(ledger.windows, now, 1);
    assert bounded == map[];
    assert OpenAll(bounded, [limit], 0, now) == (map[], true);
    ExpiryIsAhead(now, WINDOW_SECONDS);
    var after := Step(ledger, Checked([limit], now), 1);
    var (primed, allowed) := OpenAll(bounded, [limit], 1, now);
    assert primed == map[limit.bucket := Window(Expiry(now, WINDOW_SECONDS), 0)] && allowed;
    assert ChargeAll(primed, [limit], 0, true) == (primed, []);
    assert Retained(after.windows, now) == after.windows;
  }

  /** Without the clears the bound is false: with room for one bucket, a second address clears the map and
      the first is admitted again inside the same window. */
  lemma ClearingForgets()
    ensures Proper(TRIO) && Runnable(TRIO) && CeilingsAtMost(TRIO, Ip("a"), 1)
    ensures Uses(Replay(1, TRIO).admitted, Ip("a"), 0) == 2
  {
    hide Step, Clears, Uses, Expiry, Named, Proper, CeilingsAtMost, WellFormed;
    TrioIsProper();
    var one, two := [TRIO[0]], [TRIO[0]] + [TRIO[1]];
    assert [] + [TRIO[0]] == one && two + [TRIO[2]] == TRIO;
    ReplaySnoc(1, [], TRIO[0]);
    SingleCheck(FRESH, LIMIT_A, 0);
    ReplaySnoc(1, one, TRIO[1]);
    SingleCheck(Replay(1, one), LIMIT_B, 0);
    ReplaySnoc(1, two, TRIO[2]);
    SingleCheck(Replay(1, two), LIMIT_A, 0);
    UsesOfTrio(Admission([LIMIT_A], 0), Admission([LIMIT_B], 0));
  }

  lemma AmpleSpares(window: Option<Window>, now: int)
    ensures Spared(window, Ample, now) == window
  {
  }

  /** A check whose buckets have no live count is admitted if its ceilings allow one request at all. */
  lemma FreshCheck(ledger: Ledger, event: Event, cap: nat)
    requires Genuine(event) && event.Checked? && Positive(event.limits) && |ledger.windows| < cap
    requires forall i :: 0 <= i < |event.limits| ==>
               && event.limits[i].ceiling >= 1
               && CountIn(Found(ledger.windows, event.limits[i].bucket), event.limits[i].bucket,
                          Index(event.now, event.limits[i].bucket)) == 0
    ensures Admits(ledger.windows, event, cap)
    ensures
      var next := Step(ledger, event, cap);
      && (forall i :: 0 <= i < |event.limits| ==>
            Found(next.windows, event.limits[i].bucket)
            == Some(Window(End(event.limits[i].bucket, Index(event.now, event.limits[i].bucket)), 1)))
      && |next.windows| <= |ledger.windows| + 3 && next.clears == ledger.clears
  {
    hide OpenAll, Index, End, CheckWindows, Live, Spared;
    assert Bounded(ledger.windows, event.now, cap) == ledger.windows;
    OpenAllVerdict(ledger.windows, event.limits, |event.limits|, event.now);
    forall i | 0 <= i < |event.limits|
      ensures Live(ledger.windows, event.limits[i].bucket, event.now) < event.limits[i].ceiling
    {
      LiveIsCount(ledger.windows, event.limits[i].bucket, event.now);
    }
    forall i | 0 <= i < |event.limits|
      ensures Found(Step(ledger, event, cap).windows, event.limits[i].bucket)
           == Some(Window(End(event.limits[i].bucket, Index(event.now, event.limits[i].bucket)), 1))
    {
      StepIsOne(ledger, event, cap, event.limits[i].bucket);
      AmpleSpares(Found(ledger.windows, event.limits[i].bucket), event.now);
    }
    CheckSize(ledger, event.limits, event.now, cap);
  }

  /** Three requests with one user's key, whose plan allows one request an hour. The second read the clock
      a second before the hour and was looked up for longer than the others. */
  const KEYED := LimitsFor(Some(Caller(7, 1, 1, 10, None)), None, 60)
  const LATE_TRIO := [Checked(KEYED, 3600), Checked(KEYED, 3599), Checked(KEYED, 3600)]

  lemma KeyedLimits()
    ensures KEYED == [Limit(User(1), 1, 3600), Limit(UserBurst(1), 10, 1)] && WellFormed(KEYED) && Positive(KEYED)
    ensures Named(KEYED, 2) == {User(1), UserBurst(1)}
    ensures Proper(LATE_TRIO) && Runnable(LATE_TRIO) && CeilingsAtMost(LATE_TRIO, User(1), 1)
  {
    assert KEYED[0] == Limit(User(1), 1, 3600) && KEYED[1] == Limit(UserBurst(1), 10, 1);
    assert Named(KEYED, 1) == {User(1)};
  }

  /** One of the three checks: the windows it leaves, and what it adds for the user. */
  lemma KeyedCheck(events: seq<Event>, now: int)
    requires 3599 <= now <= 3600 && Runnable(events) && |Replay(10, events).windows| <= 6
    requires
      var windows := Replay(10, events).windows;
      && CountIn(Found(windows, User(1)), User(1), now / 3600) == 0
      && CountIn(Found(windows, UserBurst(1)), UserBurst(1), now) == 0
    ensures Runnable(events + [Checked(KEYED, now)])
    ensures
      var before, after := Replay(10, events), Replay(10, events + [Checked(KEYED, now)]);
      && Found(after.windows, User(1)) == Some(Window(3600 * (now / 3600) + 3600, 1))
      && Found(after.windows, UserBurst(1)) == Some(Window(now + 1, 1))
      && |after.windows| <= |before.windows| + 3 && after.clears == before.clears
      && Uses(after.admitted, User(1), 1) == Uses(before.admitted, User(1), 1) + (if now == 3600 then 1 else 0)
    ensures Front(10, events + [Checked(KEYED, now)], User(1))
         == if now / 3600 > Front(10, events, User(1)) then now / 3600 else Front(10, events, User(1))
    ensures Lates(10, events + [Checked(KEYED, now)], User(1))
         == Lates(10, events, User(1)) + if now / 3600 < Front(10, events, User(1)) then 1 else 0
  {
    hide Step, Uses, Admits, Replay, Front, Lates, Named, RoomFor, CountIn;
    var event := Checked(KEYED, now);
    KeyedLimits();
    ReplaySnoc(10, events, event);
    FrontSnoc(10, events, event, User(1));
    assert KEYED[0].bucket == User(1) && KEYED[1].bucket == UserBurst(1);
    FreshCheck(Replay(10, events), event, 10);
    UsesStep(Replay(10, events), event, 10, User(1), 1);
  }

  lemma NothingYet(cap: nat, bucket: Bucket)
    ensures Replay(cap, []) == FRESH && Lates(cap, [], bucket) == 0
    ensures Front(cap, [], bucket) == Index(I64_MIN, bucket)
    ensures forall index :: Uses([], bucket, index) == 0
  {
  }

  /** Without the late checks the bound is false, and with them it is met: a check that read the clock in
      the hour before resets the user's hour, so two requests pass a ceiling of one, though the map was
      never cleared and no clock ran backwards. */
  lemma LateCheckForgets()
    ensures Proper(LATE_TRIO) && Runnable(LATE_TRIO) && CeilingsAtMost(LATE_TRIO, User(1), 1)
    ensures Replay(10, LATE_TRIO).clears == 0 && Lates(10, LATE_TRIO, User(1)) == 1
    ensures Uses(Replay(10, LATE_TRIO).admitted, User(1), 1) == 2
  {
    hide Step, Uses, Replay, Front, Lates, KEYED;
    KeyedLimits();
    NothingYet(10, User(1));
    var none: seq<Event> := [];
    var one, two := none + [LATE_TRIO[0]], none + [LATE_TRIO[0]] + [LATE_TRIO[1]];
    assert two + [LATE_TRIO[2]] == LATE_TRIO;
    KeyedCheck(none, 3600);
    KeyedCheck(one, 3599);
    KeyedCheck(two, 3600);
  }

  // ---------------------------------------------------------------------------------------------
  // Refusals

  lemma RefusesReset(decision: Decision, limit: Limit, now: int)
    requires limit.window > 0 && Refuses(decision, limit, now)
    ensures decision.reset == Expiry(now, limit.window)
  {
  }

  /** The n-th event was a check, and it was refused with this decision. */
  predicate RefusedAt(cap: nat, events: seq<Event>, n: nat, decision: Decision)
    requires Runnable(events)
  {
    && n < |events| && events[n].Checked? && events[n].limits != [] && Runnable(events[..n])
    && CheckOutcome(Replay(cap, events[..n]).windows, events[n].limits, events[n].now, cap).refused == Some(decision)
  }

  /** The i-th limit of the n-th check is behind the decision: its bucket had used up its ceiling. */
  predicate FullAt(cap: nat, events: seq<Event>, n: nat, i: nat, decision: Decision) {
    && n < |events| && events[n].Checked? && Runnable(events[..n])
    && i < |events[n].limits| && events[n].limits[i].window == WindowOf(events[n].limits[i].bucket)
    && Refuses(decision, events[n].limits[i], events[n].now)
    && Uses(Replay(cap, events[..n]).admitted, events[n].limits[i].bucket,
            Index(events[n].now, events[n].limits[i].bucket)) >= events[n].limits[i].ceiling
  }

  /** No refusal is in vain: over any run, with clock readings in any order, the limit behind a refusal is
      full in the log of admitted requests. */
  lemma RefusalIsFull(cap: nat, events: seq<Event>, n: nat, decision: Decision) returns (i: nat)
    requires Proper(events) && Runnable(events) && RefusedAt(cap, events, n, decision)
    ensures FullAt(cap, events, n, i, decision)
  {
    hide CheckOutcome, CheckWindows, Live, Bounded, Uses, Index, Refuses, Replay;
    var before, limits, now := events[..n], events[n].limits, events[n].now;
    assert Genuine(events[n]);
    RefusalIsTruthful(Replay(cap, before).windows, limits, now, cap);
    i :| 0 <= i < |limits| && Refuses(decision, limits[i], now)
         && Live(Bounded(Replay(cap, before).windows, now, cap), limits[i].bucket, now) >= limits[i].ceiling;
    LiveAtMostUses(cap, before, limits, now, limits[i].bucket);
  }

  lemma NotClearing(ledger: Ledger, event: Event, cap: nat)
    requires event.Checked? && Positive(event.limits) && Step(ledger, event, cap).clears == 0
    ensures ledger.clears == 0 && EpochAt(ledger, event.now, cap) == ledger.epoch
  {
  }

  /** The front is at least where any check of the bucket has been. */
  lemma FrontReaches(cap: nat, events: seq<Event>, n: nat, bucket: Bucket)
    requires Runnable(events) && n < |events| && Names(events[n], bucket)
    ensures Front(cap, events, bucket) >= Index(events[n].now, bucket)
  {
    hide Index, Names, Replay, RoomFor;
    assert events[..n + 1] == events[..n] + [events[n]];
    assert Runnable(events[..n]);
    FrontSnoc(cap, events[..n], events[n], bucket);
    RunsOnlyGrow(cap, events, n + 1, bucket);
  }

  /** An instant that is neither behind the refused check's window nor past its Retry-After is in it. */
  lemma SameWindow(cap: nat, events: seq<Event>, n: nat, i: nat, decision: Decision, t: int)
    requires Proper(events) && Runnable(events) && FullAt(cap, events, n, i, decision)
    requires I64_MIN <= t < I64_MAX && t < events[n].now + RetryAfter(decision, events[n].now)
    requires Index(t, events[n].limits[i].bucket) >= Front(cap, events, events[n].limits[i].bucket)
    ensures Index(t, events[n].limits[i].bucket) == Index(events[n].now, events[n].limits[i].bucket)
  {
    hide Uses, Replay, Front, Index, Refuses, RetryAfter, Expiry;
    var now, bucket := events[n].now, events[n].limits[i].bucket;
    assert Genuine(events[n]);
    FrontReaches(cap, events, n, bucket);
    RefusesReset(decision, events[n].limits[i], now);
    if t >= now {
      RetryAfterIsExact(decision, now, t, bucket);
    } else {
      ExpiryIdentifiesWindow(t, now, bucket);
    }
  }

  /** Coming back early is useless: a limit that is full refuses every check that carries it, at its
      ceiling or a lower one, until the Retry-After of the refusal has passed, whatever happens in between
      short of a clear or a late check of that bucket. */
  lemma RefusedUntilReset(cap: nat, events: seq<Event>, n: nat, i: nat, decision: Decision,
                          limits: seq<Limit>, j: nat, t: int)
    requires Proper(events) && Runnable(events) && Genuine(Checked(limits, t)) && Positive(limits)
    requires FullAt(cap, events, n, i, decision)
    requires j < |limits| && limits[j].bucket == events[n].limits[i].bucket
    requires limits[j].ceiling <= events[n].limits[i].ceiling
    requires Step(Replay(cap, events), Checked(limits, t), cap).clears == 0
    requires Lates(cap, events, limits[j].bucket) == 0
    requires Index(t, limits[j].bucket) >= Front(cap, events, limits[j].bucket)
    requires t < events[n].now + RetryAfter(decision, events[n].now)
    ensures !Admits(Replay(cap, events).windows, Checked(limits, t), cap)
  {
    hide OpenAll, Bounded, Live, Uses, Replay, Front, Lates, Index, Clears, CheckWindows, Refuses, EpochAt;
    var bucket := limits[j].bucket;
    SameWindow(cap, events, n, i, decision, t);
    UsesOnlyGrow(cap, events, n, bucket, Index(t, bucket));
    CheckFinds(cap, events, Checked(limits, t), bucket);
    EpochIsLog(cap, events);
    NotClearing(Replay(cap, events), Checked(limits, t), cap);
    OpenAllVerdict(Bounded(Replay(cap, events).windows, t, cap), limits, |limits|, t);
  }

  /** One more check belongs to the run that it extends. */
  lemma CheckedIsNext(cap: nat, events: seq<Event>, limits: seq<Limit>, now: int)
    requires Runnable(events) && limits != [] && Positive(limits)
    ensures
      var event := Checked(limits, now);
      && Runnable(events + [event])
      && Replay(cap, events + [event]).windows == CheckWindows(Replay(cap, events).windows, limits, now, cap)
      && CheckOutcome(Replay(cap, events).windows, limits, now, cap).allowed
         == Admits(Replay(cap, events).windows, event, cap)
  {
    hide Clears, OpenAll, ChargeAll, Bounded;
    ReplaySnoc(cap, events, Checked(limits, now));
  }

  /** What one more check means for a run. */
  lemma CheckedHistory(cap: nat, events: seq<Event>, limits: seq<Limit>, now: int)
    requires Runnable(events) && limits != [] && Positive(limits)
    requires Proper(events + [Checked(limits, now)]) && Runnable(events + [Checked(limits, now)])
    ensures UnderCeilings(Replay(cap, events).admitted, limits, now) ==>
              Admits(Replay(cap, events).windows, Checked(limits, now), cap)
    ensures OnTime(cap, events, Checked(limits, now)) && Replay(cap, events + [Checked(limits, now)]).clears == 0 ==>
              (Admits(Replay(cap, events).windows, Checked(limits, now), cap)
               <==> UnderCeilings(Replay(cap, events).admitted, limits, now))
    ensures cap >= 1 ==> |Replay(cap, events + [Checked(limits, now)]).windows| <= cap + 2
  {
    hide UnderCeilings, Clears, OnTime, OpenAll, ChargeAll, Bounded, Admits;
    var event := Checked(limits, now);
    var all := events + [event];
    ReplaySnoc(cap, events, event);
    ProperPrefix(all);
    assert all[..|events|] == events && all[|events|] == event;
    if cap >= 1 {
      ProperIsWellFormed(all);
      ClearsAreRare(cap, all);
    }
    if UnderCeilings(Replay(cap, events).admitted, limits, now) {
      NeverRefusedInVain(cap, events, limits, now);
    }
    if OnTime(cap, events, event) && Replay(cap, all).clears == 0 {
      VerdictOfTheLog(cap, events, limits, now);
    }
  }
}

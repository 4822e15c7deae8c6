/** The admission layer: a request reads the clock, waits for its key to be looked up, is checked by the
    limiter with the reading it took, and, if it is keyed and admitted, is recorded as usage a moment
    later, while other requests, sweeps and flushes go on. Readings reach the limiter in any order. */
module Admission {
  import opened Wrappers
  import opened Integers
  import opened Collections
  import opened RateLimit
  import opened LimiterRuns
  import opened Usage

  /** The limiter's run so far, the admitted keyed requests that have yet to be recorded, and the
      usage books. */
  datatype Desk = Desk(events: seq<Event>, waiting: seq<Slot>, books: Books)

  const OPEN_DESK := Desk([], [], OPENING)

  /** `Arrive` is the moment a request is checked; `now` is what it read before its lookup. */
  datatype Move =
    | Arrive(caller: Option<Caller>, address: Option<string>, anon: U32, now: int)
    | Sweep(now: int)
    | RecordWaiting(i: nat)
    | Flush(action: Action)

  predicate Allowed(desk: Desk, move: Move) {
    && Runnable(desk.events)
    && match move
       case Arrive(_, _, _, now) => I64_MIN <= now <= I64_MAX
       case Sweep(now) => I64_MIN <= now <= I64_MAX
       case RecordWaiting(i) => i < |desk.waiting| && Recordable(desk.waiting[i])
       case Flush(action) => !action.Record? && Possible(desk.books, action)
  }

  function Happen(cap: nat, desk: Desk, move: Move): Desk
    requires Allowed(desk, move)
  {
    match move
    case Arrive(caller, address, anon, now) =>
      var limits := LimitsFor(caller, address, anon);
      LimitsForIsWellFormed(caller, address, anon);
      var outcome := CheckOutcome(Replay(cap, desk.events).windows, limits, now, cap);
      desk.(events := desk.events + [Checked(limits, now)],
            waiting := desk.waiting
              + if outcome.allowed && caller.Some? then [Slot(caller.value.keyId, HourOf(now))] else [])
    case Sweep(now) => desk.(events := desk.events + [Swept(now)])
    case RecordWaiting(i) =>
      desk.(waiting := desk.waiting[..i] + desk.waiting[i + 1..],
            books := Act(desk.books, Record(desk.waiting[i])))
    case Flush(action) => desk.(books := Act(desk.books, action))
  }

  predicate Owns(owner: map<int, int>, user: int, key: int) {
    key in owner && owner[key] == user
  }

  /** What the accounts database guarantees of a resolved caller: its key belongs to its user for good,
      and its hourly ceiling comes from an integer column. */
  predicate Owned(owner: map<int, int>, move: Move) {
    move.Arrive? && move.caller.Some? ==>
      && Owns(owner, move.caller.value.userId, move.caller.value.keyId)
      && move.caller.value.requests <= I32_MAX
  }

  predicate Playable(cap: nat, owner: map<int, int>, desk: Desk, moves: seq<Move>)
    decreases |moves|
  {
    moves == []
    || (Allowed(desk, moves[0]) && Owned(owner, moves[0])
        && Playable(cap, owner, Happen(cap, desk, moves[0]), moves[1..]))
  }

  function Play(cap: nat, owner: map<int, int>, desk: Desk, moves: seq<Move>): Desk
    requires Playable(cap, owner, desk, moves)
    decreases |moves|
  {
    if moves == [] then desk else Play(cap, owner, Happen(cap, desk, moves[0]), moves[1..])
  }

  lemma {:induction false} PlayGoesOn(cap: nat, owner: map<int, int>, desk: Desk, moves: seq<Move>, move: Move)
    requires Playable(cap, owner, desk, moves) && Allowed(Play(cap, owner, desk, moves), move) && Owned(owner, move)
    ensures Playable(cap, owner, desk, moves + [move])
    ensures Play(cap, owner, desk, moves + [move]) == Happen(cap, Play(cap, owner, desk, moves), move)
    decreases |moves|
  {
    hide Allowed, Owned, Happen;
    if moves == [] {
      assert [move][1..] == [];
    } else {
      PlayGoesOn(cap, owner, Happen(cap, desk, moves[0]), moves[1..], move);
      assert (moves + [move])[1..] == moves[1..] + [move];
    }
  }

  /** Every arrival is checked and every sweep is made, in the order of the moves; a keyed request that is
      admitted waits to be recorded in the hour it read, and nothing else does. */
  lemma MovesReachTheLimiter(cap: nat, desk: Desk, move: Move)
    requires Allowed(desk, move)
    ensures
      var next := Happen(cap, desk, move);
      match move
      case Arrive(caller, address, anon, now) =>
        var event := Checked(LimitsFor(caller, address, anon), now);
        && next.events == desk.events + [event] && next.books == desk.books && Positive(event.limits)
        && next.waiting == desk.waiting
             + if Admits(Replay(cap, desk.events).windows, event, cap) && caller.Some?
               then [Slot(caller.value.keyId, now / 3600)] else []
      case Sweep(now) => next == desk.(events := desk.events + [Swept(now)])
      case RecordWaiting(i) =>
        next.events == desk.events && next.books.recorded == desk.books.recorded + [desk.waiting[i]]
        && multiset(next.waiting) == multiset(desk.waiting) - multiset{desk.waiting[i]}
      case Flush(_) => next.events == desk.events && next.waiting == desk.waiting
  {
    hide OpenAll, ChargeAll, Bounded;
    if move.RecordWaiting? {
      WithoutOne(desk.waiting, move.i);
    }
  }

  /** How many of these slots are a user's in one hour. */
  function UserCount(owner: map<int, int>, slots: seq<Slot>, user: int, hour: int): nat {
    if slots == [] then 0
    else
      var last := slots[|slots| - 1];
      UserCount(owner, slots[..|slots| - 1], user, hour)
      + if Owns(owner, user, last.keyId) && last.hour == hour then 1 else 0
  }

  lemma UserCountAppend(owner: map<int, int>, slots: seq<Slot>, last: Slot, user: int, hour: int)
    ensures UserCount(owner, slots + [last], user, hour)
         == UserCount(owner, slots, user, hour) + if Owns(owner, user, last.keyId) && last.hour == hour then 1 else 0
  {
    assert (slots + [last])[..|slots|] == slots;
  }

  lemma {:induction false} UserCountWithout(owner: map<int, int>, slots: seq<Slot>, i: nat, user: int, hour: int)
    requires i < |slots|
    ensures UserCount(owner, slots, user, hour)
         == UserCount(owner, slots[..i] + slots[i + 1..], user, hour)
            + if Owns(owner, user, slots[i].keyId) && slots[i].hour == hour then 1 else 0
  {
    var n := |slots| - 1;
    if i == n {
      assert slots[..i] + slots[i + 1..] == slots[..n];
    } else {
      UserCountWithout(owner, slots[..n], i, user, hour);
      assert slots[..n][..i] + slots[..n][i + 1..] + [slots[n]] == slots[..i] + slots[i + 1..];
      UserCountAppend(owner, slots[..n][..i] + slots[..n][i + 1..], slots[n], user, hour);
    }
  }

  lemma UserIsNamed(caller: Option<Caller>, address: Option<string>, anon: U32, user: int)
    ensures
      var limits := LimitsFor(caller, address, anon);
      User(user) in Named(limits, |limits|) <==> caller.Some? && caller.value.userId == user
  {
    var limits := LimitsFor(caller, address, anon);
    if User(user) in Named(limits, |limits|) {
      var i := NamedIndex(limits, |limits|, User(user));
    }
    if caller.Some? {
      assert limits[0].bucket == User(caller.value.userId);
    }
  }

  /** The log of admitted requests and the usage that came of them never part: what was admitted for a
      user in an hour is what was recorded for the user's keys plus what is waiting. */
  ghost predicate InStep(cap: nat, owner: map<int, int>, desk: Desk, user: int, hour: int)
    requires Runnable(desk.events)
  {
    Uses(Replay(cap, desk.events).admitted, User(user), hour)
    == UserCount(owner, desk.waiting, user, hour) + UserCount(owner, desk.books.recorded, user, hour)
  }

  lemma ArrivalKeepsStep(cap: nat, owner: map<int, int>, desk: Desk, move: Move, user: int, hour: int)
    requires move.Arrive? && Allowed(desk, move) && Owned(owner, move) && InStep(cap, owner, desk, user, hour)
    ensures Runnable(Happen(cap, desk, move).events)
    ensures InStep(cap, owner, Happen(cap, desk, move), user, hour)
  {
    hide OpenAll, ChargeAll, Bounded, CheckWindows, Clears, Uses, UserCount, Replay, Runnable;
    var limits := LimitsFor(move.caller, move.address, move.anon);
    var event := Checked(limits, move.now);
    LimitsForIsWellFormed(move.caller, move.address, move.anon);
    ReplaySnoc(cap, desk.events, event);
    UsesStep(Replay(cap, desk.events), event, cap, User(user), hour);
    UserIsNamed(move.caller, move.address, move.anon, user);
    assert desk.waiting + [] == desk.waiting;
    if move.caller.Some? {
      UserCountAppend(owner, desk.waiting, Slot(move.caller.value.keyId, HourOf(move.now)), user, hour);
    }
  }

  lemma OtherMovesKeepStep(cap: nat, owner: map<int, int>, desk: Desk, move: Move, user: int, hour: int)
    requires !move.Arrive? && Allowed(desk, move) && InStep(cap, owner, desk, user, hour)
    ensures Runnable(Happen(cap, desk, move).events)
    ensures InStep(cap, owner, Happen(cap, desk, move), user, hour)
  {
    hide Uses, UserCount, Replay, Runnable;
    match move {
      case Sweep(now) => ReplaySnoc(cap, desk.events, Swept(now));
      case RecordWaiting(i) =>
        UserCountWithout(owner, desk.waiting, i, user, hour);
        UserCountAppend(owner, desk.books.recorded, desk.waiting[i], user, hour);
      case Flush(action) =>
    }
  }

  /** Over every interleaving, in whatever order the clock readings arrive and whatever the map forgets. */
  lemma {:induction false} PlayKeepsStep(
    cap: nat, owner: map<int, int>, desk: Desk, moves: seq<Move>, user: int, hour: int)
    requires Playable(cap, owner, desk, moves) && Runnable(desk.events) && InStep(cap, owner, desk, user, hour)
    ensures Runnable(Play(cap, owner, desk, moves).events)
    ensures InStep(cap, owner, Play(cap, owner, desk, moves), user, hour)
    decreases |moves|
  {
    hide InStep, Happen, Allowed, Owned, Runnable;
    if moves == [] {
    } else {
      if moves[0].Arrive? {
        ArrivalKeepsStep(cap, owner, desk, moves[0], user, hour);
      } else {
        OtherMovesKeepStep(cap, owner, desk, moves[0], user, hour);
      }
      PlayKeepsStep(cap, owner, Happen(cap, desk, moves[0]), moves[1..], user, hour);
    }
  }

  lemma {:induction false} PlayKeepsBooks(cap: nat, owner: map<int, int>, desk: Desk, moves: seq<Move>, slot: Slot)
    requires Playable(cap, owner, desk, moves) && Recordable(slot)
    requires Balanced(desk.books, slot) && Sound(desk.books, slot)
    ensures Balanced(Play(cap, owner, desk, moves).books, slot) && Sound(Play(cap, owner, desk, moves).books, slot)
    decreases |moves|
  {
    hide Balanced, Sound, Act, Recordable, Runnable;
    if moves == [] {
    } else {
      match moves[0] {
        case RecordWaiting(i) =>
          ActKeepsBalance(desk.books, Record(desk.waiting[i]), slot);
          ActKeepsSound(desk.books, Record(desk.waiting[i]), slot);
        case Flush(action) =>
          ActKeepsBalance(desk.books, action, slot);
          ActKeepsSound(desk.books, action, slot);
        case Arrive(_, _, _, _) =>
        case Sweep(_) =>
      }
      PlayKeepsBooks(cap, owner, Happen(cap, desk, moves[0]), moves[1..], slot);
    }
  }

  lemma {:induction false} PlayKeepsCeilings(
    cap: nat, owner: map<int, int>, desk: Desk, moves: seq<Move>, user: int)
    requires Playable(cap, owner, desk, moves)
    requires CeilingsAtMost(desk.events, User(user), I32_MAX)
    ensures CeilingsAtMost(Play(cap, owner, desk, moves).events, User(user), I32_MAX)
    decreases |moves|
  {
    if moves == [] {
    } else {
      PlayKeepsCeilings(cap, owner, Happen(cap, desk, moves[0]), moves[1..], user);
    }
  }

  // ---------------------------------------------------------------------------------------------
  // Per user and per key

  ghost predicate KeysOf(owner: map<int, int>, user: int, keys: seq<int>) {
    && (forall key :: key in keys <==> Owns(owner, user, key))
    && (forall i, j :: 0 <= i < j < |keys| ==> keys[i] != keys[j])
  }

  function CountOver(log: seq<Slot>, keys: seq<int>, hour: int): nat {
    if keys == [] then 0
    else CountOver(log, keys[..|keys| - 1], hour) + Count(log, Slot(keys[|keys| - 1], hour))
  }

  lemma {:induction false} CountOverAppend(log: seq<Slot>, last: Slot, keys: seq<int>, hour: int)
    requires forall i, j :: 0 <= i < j < |keys| ==> keys[i] != keys[j]
    ensures CountOver(log + [last], keys, hour)
         == CountOver(log, keys, hour) + if last.keyId in keys && last.hour == hour then 1 else 0
  {
    if keys == [] {
    } else {
      var front, key := keys[..|keys| - 1], keys[|keys| - 1];
      CountOverAppend(log, last, front, hour);
      CountAppend(log, last, Slot(key, hour));
      assert keys == front + [key] && key !in front;
    }
  }

  lemma {:induction false} CountOverNothing(keys: seq<int>, hour: int)
    ensures CountOver([], keys, hour) == 0
  {
    if keys == [] {
    } else {
      CountOverNothing(keys[..|keys| - 1], hour);
    }
  }

  /** A user's usage is the sum over the user's keys. */
  lemma {:induction false} UserIsSumOfKeys(
    owner: map<int, int>, log: seq<Slot>, user: int, keys: seq<int>, hour: int)
    requires KeysOf(owner, user, keys)
    ensures UserCount(owner, log, user, hour) == CountOver(log, keys, hour)
  {
    if log == [] {
      CountOverNothing(keys, hour);
    } else {
      var front, last := log[..|log| - 1], log[|log| - 1];
      UserIsSumOfKeys(owner, front, user, keys, hour);
      CountOverAppend(front, last, keys, hour);
      assert log == front + [last];
    }
  }

  /** Where a slot's records are: pending, in flight, in the table, or lost with a failed insert. */
  function Held(books: Books, slot: Slot): int {
    At(books.pending, slot) + Total(books.inflight, slot) + At(books.stored, RowOf(slot)) + Total(books.lost, slot)
  }

  function HeldOver(books: Books, keys: seq<int>, hour: int): int {
    if keys == [] then 0
    else HeldOver(books, keys[..|keys| - 1], hour) + Held(books, Slot(keys[|keys| - 1], hour))
  }

  lemma {:induction false} HeldIsRecorded(books: Books, keys: seq<int>, hour: int)
    requires forall i :: 0 <= i < |keys| ==>
               Balanced(books, Slot(keys[i], hour)) && Sound(books, Slot(keys[i], hour))
    requires CountOver(books.recorded, keys, hour) <= I32_MAX
    ensures HeldOver(books, keys, hour) == CountOver(books.recorded, keys, hour)
  {
    if keys == [] {
    } else {
      var n := |keys| - 1;
      assert Balanced(books, Slot(keys[n], hour)) && Sound(books, Slot(keys[n], hour));
      forall i | 0 <= i < n
        ensures Balanced(books, Slot(keys[..n][i], hour)) && Sound(books, Slot(keys[..n][i], hour))
      {
        assert Balanced(books, Slot(keys[i], hour)) && Sound(books, Slot(keys[i], hour));
      }
      HeldIsRecorded(books, keys[..n], hour);
    }
  }

  lemma InitialBooks(slot: Slot)
    ensures Balanced(OPENING, slot) && Sound(OPENING, slot)
  {
  }

  lemma InitialDesk(cap: nat, owner: map<int, int>, user: int, hour: int)
    ensures InStep(cap, owner, OPEN_DESK, user, hour) && CeilingsAtMost(OPEN_DESK.events, User(user), I32_MAX)
  {
  }

  /** What was admitted for a user in an hour is what is pending, in flight, stored or lost for the user's
      keys in that hour plus what is waiting to be recorded, as long as fewer than 2^31 were recorded. */
  lemma AdmittedIsHeld(
    cap: nat, owner: map<int, int>, moves: seq<Move>, user: int, keys: seq<int>, now: int)
    requires Playable(cap, owner, OPEN_DESK, moves) && KeysOf(owner, user, keys) && I64_MIN <= now <= I64_MAX
    requires UserCount(owner, Play(cap, owner, OPEN_DESK, moves).books.recorded, user, HourOf(now)) <= I32_MAX
    ensures
      var desk := Play(cap, owner, OPEN_DESK, moves);
      && Runnable(desk.events)
      && Uses(Replay(cap, desk.events).admitted, User(user), HourOf(now))
         == UserCount(owner, desk.waiting, user, HourOf(now)) + HeldOver(desk.books, keys, HourOf(now))
  {
    hide Balanced, Sound, CeilingsAtMost, HeldOver, Held, Playable, Play, Replay, Uses;
    var desk := Play(cap, owner, OPEN_DESK, moves);
    var hour := HourOf(now);
    InitialDesk(cap, owner, user, hour);
    PlayKeepsStep(cap, owner, OPEN_DESK, moves, user, hour);
    UserIsSumOfKeys(owner, desk.books.recorded, user, keys, hour);
    forall i | 0 <= i < |keys|
      ensures Balanced(desk.books, Slot(keys[i], hour)) && Sound(desk.books, Slot(keys[i], hour))
    {
      EveryInstantIsRecordable(keys[i], now);
      InitialBooks(Slot(keys[i], hour));
      PlayKeepsBooks(cap, owner, OPEN_DESK, moves, Slot(keys[i], hour));
    }
    HeldIsRecorded(desk.books, keys, hour);
  }

  /** The limiter and the usage table tell one story: over any interleaving of requests, sweeps, late
      records and flushes in which the map is never cleared and no check of this user comes late for the
      hour, the user's count in an hour that nothing has gone beyond is what is pending, in flight, stored
      or lost for the user's keys in that hour, plus the admitted requests that are still waiting to be
      recorded. Other users and other windows may be checked in any order. */
  lemma LimiterAgreesWithUsage(
    cap: nat, owner: map<int, int>, moves: seq<Move>, user: int, keys: seq<int>, now: int)
    requires Playable(cap, owner, OPEN_DESK, moves) && KeysOf(owner, user, keys) && I64_MIN <= now < I64_MAX
    requires
      var events := Play(cap, owner, OPEN_DESK, moves).events;
      && Proper(events) && Runnable(events) && Replay(cap, events).clears == 0
      && Lates(cap, events, User(user)) == 0 && Index(now, User(user)) >= Front(cap, events, User(user))
    ensures
      var desk := Play(cap, owner, OPEN_DESK, moves);
      Live(Replay(cap, desk.events).windows, User(user), now)
      == UserCount(owner, desk.waiting, user, HourOf(now)) + HeldOver(desk.books, keys, HourOf(now))
  {
    hide CeilingsAtMost, HeldOver, Playable, Play, Replay, Uses, Lates, Front, Live, Proper;
    var desk := Play(cap, owner, OPEN_DESK, moves);
    var hour := HourOf(now);
    InitialDesk(cap, owner, user, hour);
    PlayKeepsStep(cap, owner, OPEN_DESK, moves, user, hour);
    PlayKeepsCeilings(cap, owner, OPEN_DESK, moves, user);
    FrontBegins(User(user));
    AliveUntilEnd(User(user), now, Index(I64_MIN, User(user)));
    ForgettingBound(cap, desk.events, User(user), hour, I32_MAX);
    AgreesAhead(cap, desk.events, User(user), hour);
    LiveIsCount(Replay(cap, desk.events).windows, User(user), now);
    EpochIsLog(cap, desk.events);
    AdmittedIsHeld(cap, owner, moves, user, keys, now);
  }

  /** Whatever the order of the readings and whatever is cleared, the limiter never counts more than the
      usage books and the waiting requests hold. */
  lemma LimiterNeverExceedsUsage(
    cap: nat, owner: map<int, int>, moves: seq<Move>, user: int, keys: seq<int>, now: int)
    requires Playable(cap, owner, OPEN_DESK, moves) && KeysOf(owner, user, keys) && I64_MIN <= now < I64_MAX
    requires UserCount(owner, Play(cap, owner, OPEN_DESK, moves).books.recorded, user, HourOf(now)) <= I32_MAX
    requires Proper(Play(cap, owner, OPEN_DESK, moves).events)
    ensures
      var desk := Play(cap, owner, OPEN_DESK, moves);
      && Runnable(desk.events)
      && Live(Replay(cap, desk.events).windows, User(user), now)
         <= UserCount(owner, desk.waiting, user, HourOf(now)) + HeldOver(desk.books, keys, HourOf(now))
  {
    hide HeldOver, Playable, Play, Replay, Uses, Live, Proper;
    var desk := Play(cap, owner, OPEN_DESK, moves);
    AdmittedIsHeld(cap, owner, moves, user, keys, now);
    FrontBegins(User(user));
    AliveUntilEnd(User(user), now, Index(I64_MIN, User(user)));
    NeverOvercounts(cap, desk.events, User(user), HourOf(now));
    LiveIsCount(Replay(cap, desk.events).windows, User(user), now);
  }
}

/** The API-key cache: answers of the accounts database live for a minute, failed lookups for five
    seconds, and any number of requests look up, wait and store at the same time. */
module KeyCache {
  import opened Wrappers
  import opened Integers
  import opened RateLimit

  const TTL_SECONDS := 60
  const MISS_TTL_SECONDS := 5
  const MAX_ENTRIES := 10_000

  datatype Entry = Entry(record: Option<Caller>, storedAt: int, ttl: int)

  type Entries = map<string, Entry>

  predicate Expired(entry: Entry, now: int) {
    SaturatingI64(now - entry.storedAt) >= entry.ttl
  }

  function Fetched(entries: Entries, raw: string, now: int): Option<Option<Caller>> {
    if raw in entries && !Expired(entries[raw], now) then Some(entries[raw].record) else None
  }

  function Inserted(entries: Entries, raw: string, entry: Entry): Entries {
    (if |entries| >= MAX_ENTRIES then map[] else entries)[raw := entry]
  }

  /** One entry is written; the others stay while there is room, and are all dropped when there is not. */
  ghost predicate Writes(before: Entries, after: Entries, raw: string, entry: Entry) {
    && raw in after && after[raw] == entry
    && (forall other :: other != raw ==>
          (other in after <==> other in before && |before| < MAX_ENTRIES)
          && (other in after ==> after[other] == before[other]))
  }

  class Cache {
    var entries: Entries

    constructor ()
      ensures entries == map[]
    {
      entries := map[];
    }

    /** Tells an answer for as long as it lives, and for no longer. The age is saturated, which only the
        least lifetime of an i64 can notice: nothing lives that short. */
    method Get(raw: string, now: int) returns (cached: Option<Option<Caller>>)
      ensures cached.Some? ==> raw in entries && cached.value == entries[raw].record
      ensures raw in entries && I64_MIN < entries[raw].ttl <= I64_MAX ==>
                (cached.Some? <==> now - entries[raw].storedAt < entries[raw].ttl)
      ensures raw !in entries || entries[raw].ttl <= I64_MIN ==> cached.None?
      ensures cached == Fetched(entries, raw, now)
    {
      if raw !in entries {
        return None;
      }
      var entry := entries[raw];
      if Expired(entry, now) {
        return None;
      }
      return Some(entry.record);
    }

    method Insert(raw: string, record: Option<Caller>, now: int, ttl: int)
      modifies this
      ensures entries == Inserted(old(entries), raw, Entry(record, now, ttl))
      ensures Writes(old(entries), entries, raw, Entry(record, now, ttl))
      ensures |old(entries)| <= MAX_ENTRIES ==> |entries| <= MAX_ENTRIES
    {
      if |entries| >= MAX_ENTRIES {
        entries := map[];
      }
      entries := entries[raw := Entry(record, now, ttl)];
    }

    method Store(raw: string, record: Option<Caller>, now: int)
      modifies this
      ensures entries == Inserted(old(entries), raw, Entry(record, now, TTL_SECONDS))
      ensures Writes(old(entries), entries, raw, Entry(record, now, TTL_SECONDS))
      ensures |old(entries)| <= MAX_ENTRIES ==> |entries| <= MAX_ENTRIES
    {
      Insert(raw, record, now, TTL_SECONDS);
    }

    method StoreFailure(raw: string, now: int)
      modifies this
      ensures entries == Inserted(old(entries), raw, Entry(None, now, MISS_TTL_SECONDS))
      ensures Writes(old(entries), entries, raw, Entry(None, now, MISS_TTL_SECONDS))
      ensures |old(entries)| <= MAX_ENTRIES ==> |entries| <= MAX_ENTRIES
    {
      Insert(raw, None, now, MISS_TTL_SECONDS);
    }
  }

  // ---------------------------------------------------------------------------------------------
  // The cache against the bare log of what was stored

  datatype Put = Put(raw: string, entry: Entry)

  /** The map after these stores, the last one last. */
  function AfterPuts(log: seq<Put>): Entries {
    if log == [] then map[]
    else Inserted(AfterPuts(log[..|log| - 1]), log[|log| - 1].raw, log[|log| - 1].entry)
  }

  /** What was last stored for a key. */
  function LastPut(log: seq<Put>, raw: string): Option<Entry> {
    if log == [] then None
    else if log[|log| - 1].raw == raw then Some(log[|log| - 1].entry)
    else LastPut(log[..|log| - 1], raw)
  }

  function Alive(entry: Option<Entry>, now: int): Option<Option<Caller>> {
    if entry.Some? && !Expired(entry.value, now) then Some(entry.value.record) else None
  }

  lemma PutSize(entries: Entries, raw: string, entry: Entry)
    ensures |Inserted(entries, raw, entry)| <= |entries| + 1
  {
    assert entries[raw := entry].Keys == entries.Keys + {raw};
  }

  /** Whatever is read is what was last stored and has not expired; and with no more stores than there is
      room for, whatever was last stored and has not expired is read. */
  lemma {:induction false} ReadsTheLastPut(log: seq<Put>, raw: string, now: int)
    ensures Fetched(AfterPuts(log), raw, now) in {None, Alive(LastPut(log, raw), now)}
    ensures |log| <= MAX_ENTRIES ==>
              && |AfterPuts(log)| <= |log|
              && Fetched(AfterPuts(log), raw, now) == Alive(LastPut(log, raw), now)
  {
    hide Expired;
    if log == [] {
    } else {
      var before, last := log[..|log| - 1], log[|log| - 1];
      ReadsTheLastPut(before, raw, now);
      PutSize(AfterPuts(before), last.raw, last.entry);
    }
  }

  // ---------------------------------------------------------------------------------------------
  // Concurrent requests

  /** The accounts database at one instant: who each active key resolves to. */
  datatype Moment = Moment(time: int, keys: map<string, Caller>)

  function Answer(moment: Moment, raw: string): Option<Caller> {
    if raw in moment.keys then Some(moment.keys[raw]) else None
  }

  /** Where a request's record came from: a lookup that succeeded, its own or a cached one, or the
      failed lookup of the request that began at the given time. */
  datatype Source = FromLookup | FromFailure(at: int)

  /** One request in `resolve`: it has read the clock, it is waiting for the database, it holds the
      database's answer (or failure) and has yet to store it, or it is done. */
  datatype Call =
    | Reading(raw: string, now: int)
    | Waiting(raw: string, now: int)
    | Holding(raw: string, now: int, answer: Option<Option<Caller>>)
    | Done(raw: string, now: int, record: Option<Caller>, source: Source)

  /** The database's past up to the present, the shared cache, the requests, and the lookups that
      failed, each by its key and the time its request began. */
  datatype World = World(
    past: seq<Moment>, entries: Entries, calls: map<nat, Call>, failures: set<(string, int)>)

  datatype Move =
    | Tick(moment: Moment)
    | Begin(id: nat, raw: string)
    | Look(id: nat)
    | Reply(id: nat)
    | Break(id: nat)
    | Write(id: nat)

  function Present(world: World): Moment
    requires world.past != []
  {
    world.past[|world.past| - 1]
  }

  predicate Possible(world: World, move: Move) {
    && world.past != []
    && match move
       case Tick(moment) => Present(world).time <= moment.time <= I64_MAX
       case Begin(id, _) => id !in world.calls
       case Look(id) => id in world.calls && world.calls[id].Reading?
       case Reply(id) => id in world.calls && world.calls[id].Waiting?
       case Break(id) => id in world.calls && world.calls[id].Waiting?
       case Write(id) => id in world.calls && world.calls[id].Holding?
  }

  function Looked(entries: Entries, call: Call): Call
    requires call.Reading?
  {
    match Fetched(entries, call.raw, call.now)
    case Some(record) =>
      Done(call.raw, call.now, record,
           if entries[call.raw].ttl == TTL_SECONDS then FromLookup else FromFailure(entries[call.raw].storedAt))
    case None => Waiting(call.raw, call.now)
  }

  function Written(call: Call): (Entry, Call)
    requires call.Holding?
  {
    match call.answer
    case Some(record) => (Entry(record, call.now, TTL_SECONDS), Done(call.raw, call.now, record, FromLookup))
    case None => (Entry(None, call.now, MISS_TTL_SECONDS), Done(call.raw, call.now, None, FromFailure(call.now)))
  }

  function Act(world: World, move: Move): World
    requires Possible(world, move)
  {
    match move
    case Tick(moment) => world.(past := world.past + [moment])
    case Begin(id, raw) => world.(calls := world.calls[id := Reading(raw, Present(world).time)])
    case Look(id) => world.(calls := world.calls[id := Looked(world.entries, world.calls[id])])
    case Reply(id) =>
      var call := world.calls[id];
      world.(calls := world.calls[id := Holding(call.raw, call.now, Some(Answer(Present(world), call.raw)))])
    case Break(id) =>
      var call := world.calls[id];
      world.(calls := world.calls[id := Holding(call.raw, call.now, None)],
             failures := world.failures + {(call.raw, call.now)})
    case Write(id) =>
      var call := world.calls[id];
      var (entry, done) := Written(call);
      world.(entries := Inserted(world.entries, call.raw, entry), calls := world.calls[id := done])
  }

  predicate Run(world: World, moves: seq<Move>)
    decreases |moves|
  {
    moves == [] || (Possible(world, moves[0]) && Run(Act(world, moves[0]), moves[1..]))
  }

  function After(world: World, moves: seq<Move>): World
    requires Run(world, moves)
    decreases |moves|
  {
    if moves == [] then world else After(Act(world, moves[0]), moves[1..])
  }

  function Start(moment: Moment): World {
    World([moment], map[], map[], {})
  }

  // ---------------------------------------------------------------------------------------------
  // The invariant

  /** The database gave this answer at some instant after `since`. */
  ghost predicate AnsweredSince(past: seq<Moment>, raw: string, record: Option<Caller>, since: int) {
    exists i :: 0 <= i < |past| && past[i].time > since && Answer(past[i], raw) == record
  }

  ghost predicate GoodEntry(world: World, raw: string, entry: Entry) {
    || (entry.ttl == TTL_SECONDS && AnsweredSince(world.past, raw, entry.record, entry.storedAt - 1))
    || (entry.ttl == MISS_TTL_SECONDS && entry.record == None && (raw, entry.storedAt) in world.failures)
  }

  /** What a request that is done may have been told. */
  ghost predicate GoodRecord(world: World, raw: string, now: int, record: Option<Caller>, source: Source) {
    match source
    case FromLookup => AnsweredSince(world.past, raw, record, now - TTL_SECONDS)
    case FromFailure(at) => record == None && (raw, at) in world.failures && now - at < MISS_TTL_SECONDS
  }

  ghost predicate GoodCall(world: World, call: Call)
    requires world.past != []
  {
    match call
    case Reading(_, now) => now <= Present(world).time
    case Waiting(_, now) => now <= Present(world).time
    case Holding(raw, now, Some(record)) => AnsweredSince(world.past, raw, record, now - 1)
    case Holding(raw, now, None) => (raw, now) in world.failures
    case Done(raw, now, record, source) => GoodRecord(world, raw, now, record, source)
  }

  ghost predicate Chronological(past: seq<Moment>) {
    && past != []
    && (forall i, j :: 0 <= i < j < |past| ==> past[i].time <= past[j].time)
  }

  ghost predicate Invariant(world: World) {
    && Chronological(world.past)
    && (forall raw :: raw in world.entries ==> GoodEntry(world, raw, world.entries[raw]))
    && (forall id :: id in world.calls ==> GoodCall(world, world.calls[id]))
    && |world.entries| <= MAX_ENTRIES
  }

  /** `later` knows everything `earlier` knew. */
  ghost predicate Extends(earlier: World, later: World) {
    && earlier.past <= later.past && earlier.failures <= later.failures
    && Chronological(earlier.past) && Chronological(later.past)
  }

  lemma AnswersLast(earlier: World, later: World, raw: string, record: Option<Caller>, since: int)
    requires Extends(earlier, later) && AnsweredSince(earlier.past, raw, record, since)
    ensures AnsweredSince(later.past, raw, record, since)
  {
    var i :| 0 <= i < |earlier.past| && earlier.past[i].time > since && Answer(earlier.past[i], raw) == record;
    assert later.past[i] == earlier.past[i];
  }

  lemma EntriesLast(earlier: World, later: World, raw: string, entry: Entry)
    requires Extends(earlier, later) && GoodEntry(earlier, raw, entry)
    ensures GoodEntry(later, raw, entry)
  {
    if entry.ttl == TTL_SECONDS {
      AnswersLast(earlier, later, raw, entry.record, entry.storedAt - 1);
    }
  }

  lemma CallsLast(earlier: World, later: World, call: Call)
    requires Extends(earlier, later) && GoodCall(earlier, call)
    ensures GoodCall(later, call)
  {
    match call {
      case Reading(_, _) =>
        assert later.past[|earlier.past| - 1] == Present(earlier);
      case Waiting(_, _) =>
        assert later.past[|earlier.past| - 1] == Present(earlier);
      case Holding(raw, now, Some(record)) => AnswersLast(earlier, later, raw, record, now - 1);
      case Holding(_, _, None) =>
      case Done(raw, now, record, FromLookup) => AnswersLast(earlier, later, raw, record, now - TTL_SECONDS);
      case Done(_, _, _, FromFailure(_)) =>
    }
  }

  lemma LookIsGood(world: World, call: Call)
    requires Invariant(world) && call.Reading? && GoodCall(world, call)
    ensures GoodCall(world, Looked(world.entries, call))
  {
    if call.raw in world.entries && !Expired(world.entries[call.raw], call.now) {
      var entry := world.entries[call.raw];
      assert GoodEntry(world, call.raw, entry);
      assert call.now - entry.storedAt < entry.ttl;
      if entry.ttl == TTL_SECONDS {
        var i :| 0 <= i < |world.past| && world.past[i].time > entry.storedAt - 1
                 && Answer(world.past[i], call.raw) == entry.record;
        assert world.past[i].time > call.now - TTL_SECONDS;
      }
    }
  }

  lemma WriteIsGood(world: World, call: Call)
    requires Invariant(world) && call.Holding? && GoodCall(world, call)
    ensures GoodEntry(world, call.raw, Written(call).0) && GoodCall(world, Written(call).1)
  {
    match call.answer {
      case Some(record) =>
        var i :| 0 <= i < |world.past| && world.past[i].time > call.now - 1
                 && Answer(world.past[i], call.raw) == record;
        assert world.past[i].time > call.now - TTL_SECONDS;
      case None =>
    }
  }

  lemma InsertedSize(entries: Entries, raw: string, entry: Entry)
    requires |entries| <= MAX_ENTRIES
    ensures |Inserted(entries, raw, entry)| <= MAX_ENTRIES
  {
    var base := if |entries| >= MAX_ENTRIES then map[] else entries;
    assert Inserted(entries, raw, entry).Keys == base.Keys + {raw};
  }

  lemma PastStaysChronological(world: World, move: Move)
    requires Invariant(world) && Possible(world, move)
    ensures Extends(world, Act(world, move))
  {
  }

  /** The call a move leaves behind for its own request is good, if it changes one. */
  lemma MovedCallIsGood(world: World, move: Move, id: nat)
    requires Invariant(world) && Possible(world, move) && id in Act(world, move).calls
    ensures GoodCall(Act(world, move), Act(world, move).calls[id])
  {
    var next := Act(world, move);
    assert Extends(world, next) by {
      PastStaysChronological(world, move);
    }
    if id in world.calls && next.calls[id] == world.calls[id] {
      CallsLast(world, next, world.calls[id]);
    } else {
      match move {
        case Look(_) =>
          LookIsGood(world, world.calls[id]);
          CallsLast(world, next, next.calls[id]);
        case Write(_) =>
          WriteIsGood(world, world.calls[id]);
          CallsLast(world, next, next.calls[id]);
        case Reply(_) =>
          assert GoodCall(world, world.calls[id]);
          assert next.past[|next.past| - 1] == Present(world);
        case Break(_) =>
        case Begin(_, _) =>
      }
    }
  }

  lemma ExtendedIsChronological(earlier: World, later: World)
    requires Extends(earlier, later)
    ensures Chronological(later.past)
  {
  }

  lemma MovedEntryIsGood(world: World, move: Move, raw: string)
    requires Invariant(world) && Possible(world, move) && raw in Act(world, move).entries
    ensures GoodEntry(Act(world, move), raw, Act(world, move).entries[raw])
  {
    hide GoodEntry, GoodCall, Extends, Looked, Written, Chronological;
    var next := Act(world, move);
    PastStaysChronological(world, move);
    if move.Write? && raw == world.calls[move.id].raw {
      WriteIsGood(world, world.calls[move.id]);
      EntriesLast(world, next, raw, next.entries[raw]);
    } else {
      EntriesLast(world, next, raw, world.entries[raw]);
    }
  }

  lemma ActKeepsInvariant(world: World, move: Move)
    requires Invariant(world) && Possible(world, move)
    ensures Invariant(Act(world, move))
  {
    hide GoodEntry, GoodCall, Extends, Looked, Written, Chronological;
    var next := Act(world, move);
    PastStaysChronological(world, move);
    ExtendedIsChronological(world, next);
    forall id | id in next.calls
      ensures GoodCall(next, next.calls[id])
    {
      MovedCallIsGood(world, move, id);
    }
    forall raw | raw in next.entries
      ensures GoodEntry(next, raw, next.entries[raw])
    {
      MovedEntryIsGood(world, move, raw);
    }
    if move.Write? {
      InsertedSize(world.entries, world.calls[move.id].raw, Written(world.calls[move.id]).0);
    }
  }

  lemma {:induction false} RunKeepsInvariant(world: World, moves: seq<Move>)
    requires Invariant(world) && Run(world, moves)
    ensures Invariant(After(world, moves))
    decreases |moves|
  {
    hide Invariant, Possible, Act;
    if moves == [] {
    } else {
      ActKeepsInvariant(world, moves[0]);
      RunKeepsInvariant(Act(world, moves[0]), moves[1..]);
    }
  }

  // ---------------------------------------------------------------------------------------------
  // What a request may be told

  /** Over every interleaving of any number of requests, clock ticks and changes to the database: a
      record that stems from a successful lookup was the database's answer at some instant less than a
      minute before the request began, or later; a failed lookup is told as "no such key" only to
      requests that begin less than five seconds after the one that failed; and the cache keeps to its
      size. */
  lemma RecordsAreFresh(first: Moment, moves: seq<Move>, id: nat)
    requires Run(Start(first), moves)
    requires id in After(Start(first), moves).calls && After(Start(first), moves).calls[id].Done?
    ensures
      var world := After(Start(first), moves);
      var call := world.calls[id];
      && (match call.source
          case FromLookup =>
            exists i :: 0 <= i < |world.past| && world.past[i].time > call.now - 60
                        && Answer(world.past[i], call.raw) == call.record
          case FromFailure(at) => call.record == None && (call.raw, at) in world.failures && call.now - at < 5)
      && |world.entries| <= 10_000
  {
    RunKeepsInvariant(Start(first), moves);
    var world := After(Start(first), moves);
    assert GoodCall(world, world.calls[id]);
  }

  /** A change takes hold within a minute: if from moment m on the database gives one answer for a key
      (a revoked key gives none), every request that begins at least a minute after m and is not served
      a failure is told that answer. */
  lemma ChangesTakeHold(first: Moment, moves: seq<Move>, id: nat, m: nat, settled: Option<Caller>)
    requires Run(Start(first), moves)
    requires id in After(Start(first), moves).calls && After(Start(first), moves).calls[id].Done?
    requires m < |After(Start(first), moves).past|
    requires
      var world := After(Start(first), moves);
      forall i :: m <= i < |world.past| ==> Answer(world.past[i], world.calls[id].raw) == settled
    requires
      var world := After(Start(first), moves);
      world.calls[id].now >= world.past[m].time + 60
    ensures
      var call := After(Start(first), moves).calls[id];
      call.record == settled || (call.record == None && call.source.FromFailure?)
  {
    RunKeepsInvariant(Start(first), moves);
    var world := After(Start(first), moves);
    var call := world.calls[id];
    assert GoodCall(world, call);
    if call.source.FromLookup? {
      var i :| 0 <= i < |world.past| && world.past[i].time > call.now - TTL_SECONDS
               && Answer(world.past[i], call.raw) == call.record;
      assert i >= m;
    }
  }

  // ---------------------------------------------------------------------------------------------
  // What the cache saves

  /** A request that finds a live entry is told its record at once; any other goes to the database. */
  lemma LookingUp(world: World, id: nat)
    requires Possible(world, Look(id))
    ensures
      var call, next := world.calls[id], Act(world, Look(id)).calls[id];
      var live := call.raw in world.entries && !Expired(world.entries[call.raw], call.now);
      if live then next.Done? && next.record == world.entries[call.raw].record
      else next == Waiting(call.raw, call.now)
  {
  }

  predicate NoWrites(moves: seq<Move>) {
    forall i :: 0 <= i < |moves| ==> !moves[i].Write?
  }

  lemma {:induction false} EntriesStay(world: World, moves: seq<Move>)
    requires Run(world, moves) && NoWrites(moves) && world.past != []
    ensures After(world, moves).entries == world.entries && After(world, moves).past != []
    decreases |moves|
  {
    if moves == [] {
      assert After(world, moves) == world;
    } else {
      EntriesStay(Act(world, moves[0]), moves[1..]);
    }
  }

  /** How long what a lookup yielded is told: a minute for an answer, five seconds for a failure. */
  function Lifetime(answer: Option<Option<Caller>>): int {
    if answer.Some? then TTL_SECONDS else MISS_TTL_SECONDS
  }

  /** What one request has stored serves the others without another lookup: while nothing else is stored, a
      request for the same key that read the clock less than a lifetime after the first is told the same
      record, or that there is none if the lookup failed; a later one goes to the database. */
  lemma StoredServesOthers(world: World, id: nat, moves: seq<Move>, other: nat)
    requires Possible(world, Write(id)) && Run(Act(world, Write(id)), moves) && NoWrites(moves)
    requires
      var later := After(Act(world, Write(id)), moves);
      Possible(later, Look(other)) && later.calls[other].raw == world.calls[id].raw
    ensures
      var first, later := world.calls[id], After(Act(world, Write(id)), moves);
      var second, next := later.calls[other], Act(later, Look(other)).calls[other];
      if second.now - first.now < Lifetime(first.answer)
      then next.Done? && next.record == (if first.answer.Some? then first.answer.value else None)
      else next == Waiting(second.raw, second.now)
  {
    EntriesStay(Act(world, Write(id)), moves);
    LookingUp(After(Act(world, Write(id)), moves), other);
  }

  lemma {:induction false} OnlyTicks(world: World, moves: seq<Move>)
    requires Run(world, moves) && world.past != [] && forall i :: 0 <= i < |moves| ==> moves[i].Tick?
    ensures After(world, moves).calls == world.calls && After(world, moves).past != []
    decreases |moves|
  {
    if moves == [] {
    } else {
      OnlyTicks(Act(world, moves[0]), moves[1..]);
    }
  }

  /** A request's own lookup is what it is told: the database's answer at the moment of the reply, or no
      record if the lookup broke. */
  lemma OwnLookupIsTold(world: World, id: nat, moves: seq<Move>, broken: bool)
    requires Possible(world, if broken then Break(id) else Reply(id))
    requires
      var asked := Act(world, if broken then Break(id) else Reply(id));
      Run(asked, moves) && (forall i :: 0 <= i < |moves| ==> moves[i].Tick?)
    ensures
      var asked := Act(world, if broken then Break(id) else Reply(id));
      var later := After(asked, moves);
      && Possible(later, Write(id))
      && var done := Act(later, Write(id)).calls[id];
         done.Done? && done.record == if broken then None else Answer(Present(world), world.calls[id].raw)
  {
    OnlyTicks(Act(world, if broken then Break(id) else Reply(id)), moves);
  }

  /** A run goes on with any move that is possible where it has got to. */
  lemma {:induction false} RunGoesOn(world: World, moves: seq<Move>, move: Move)
    requires Run(world, moves) && Possible(After(world, moves), move)
    ensures Run(world, moves + [move]) && After(world, moves + [move]) == Act(After(world, moves), move)
    decreases |moves|
  {
    hide Possible, Act;
    if moves == [] {
      assert [move][1..] == [];
    } else {
      RunGoesOn(Act(world, moves[0]), moves[1..], move);
      assert (moves + [move])[1..] == moves[1..] + [move];
    }
  }

  /** Nothing holds a request up: at any moment a new one can begin, any that is not done has a next step, a
      lookup can be answered or break, and the database can change with or without the clock. */
  lemma NothingHoldsUp(world: World, id: nat, raw: string, keys: map<string, Caller>)
    requires world.past != [] && Present(world).time <= I64_MAX
    ensures id !in world.calls ==> Possible(world, Begin(id, raw))
    ensures id in world.calls ==>
              match world.calls[id]
              case Reading(_, _) => Possible(world, Look(id))
              case Waiting(_, _) => Possible(world, Reply(id)) && Possible(world, Break(id))
              case Holding(_, _, _) => Possible(world, Write(id))
              case Done(_, _, _, _) => true
    ensures forall time :: Present(world).time <= time <= I64_MAX ==> Possible(world, Tick(Moment(time, keys)))
  {
  }

  /** A change of the database is there from then on, until the next. */
  lemma ChangesAreSeen(world: World, moment: Moment)
    requires Possible(world, Tick(moment))
    ensures
      var next := Act(world, Tick(moment));
      next.past == world.past + [moment] && Present(next) == moment
      && next.entries == world.entries && next.calls == world.calls
  {
  }

  /** A key that the database knows answers with its caller, and no other key does. */
  lemma AnswerMeans(moment: Moment, raw: string, caller: Caller)
    ensures Answer(moment, raw) == Some(caller) <==> raw in moment.keys && moment.keys[raw] == caller
  {
  }
}

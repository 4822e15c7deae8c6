/** The usage recorder: counts per key and hour pile up in memory, are drained in batches, and each
    batch is either added to the usage table or lost. Batches are in flight while requests go on. */
module Usage {
  import opened Integers
  import opened RateLimit

  datatype Slot = Slot(keyId: int, hour: int)

  /** A row key of the usage table: the hour is stored as a timestamp in seconds. */
  datatype Row = Row(keyId: int, stamp: int)

  type Counts = map<Slot, U32>

  function At<K(==)>(counts: map<K, int>, key: K): int {
    if key in counts then counts[key] else 0
  }

  /** The hours that an i64 clock can show. */
  predicate Recordable(slot: Slot) {
    HourOf(I64_MIN) <= slot.hour <= HourOf(I64_MAX)
  }

  lemma EveryInstantIsRecordable(key: int, now: int)
    requires I64_MIN <= now <= I64_MAX
    ensures Recordable(Slot(key, HourOf(now)))
  {
  }

  function RowOf(slot: Slot): Row {
    Row(slot.keyId, SaturatingI64(slot.hour * SECONDS_PER_HOUR))
  }

  /** The hour a timestamp of the table belongs to. */
  function SlotOf(row: Row): Slot {
    Slot(row.keyId, HourOf(row.stamp))
  }

  /** Saturation never merges two hours of the clock: the row still names its hour. */
  lemma RowNamesItsHour(slot: Slot)
    requires Recordable(slot)
    ensures SlotOf(RowOf(slot)) == slot
  {
    assert HourOf(I64_MIN) == -2562047788015216 && HourOf(I64_MAX) == 2562047788015215;
  }

  /** Rust's `u32::cast_signed`: reinterpret the bits as an i32. */
  function CastSigned(n: U32): int {
    if n <= I32_MAX then n else n - TWO_TO_THE_32
  }

  // ---------------------------------------------------------------------------------------------
  // The recorder object

  function Recorded(pending: Counts, slot: Slot): Counts {
    pending[slot := SaturatingU32(At(pending, slot) + 1)]
  }

  /** A drained batch lists every pending count exactly once, in some order. */
  ghost predicate Lists(batch: seq<(Slot, U32)>, counts: Counts) {
    && (forall i :: 0 <= i < |batch| ==> batch[i].0 in counts && counts[batch[i].0] == batch[i].1)
    && (forall slot :: slot in counts ==> exists i :: 0 <= i < |batch| && batch[i].0 == slot)
    && (forall i, j :: 0 <= i < j < |batch| ==> batch[i].0 != batch[j].0)
  }

  class UsageRecorder {
    var pending: Counts

    constructor ()
      ensures pending == map[]
    {
      pending := map[];
    }

    method Record(keyId: int, hour: int)
      modifies this
      ensures pending == Recorded(old(pending), Slot(keyId, hour))
    {
      var slot := Slot(keyId, hour);
      if slot !in pending {
        pending := pending[slot := 0];
      }
      var count: nat := pending[slot];
      pending := pending[slot := SaturatingU32(count + 1)];
    }

    method Drain() returns (batch: seq<(Slot, U32)>)
      modifies this
      ensures pending == map[] && Lists(batch, old(pending))
    {
      batch := [];
      while pending != map[]
        invariant forall slot :: slot in pending ==> slot in old(pending) && pending[slot] == old(pending)[slot]
        invariant forall i :: 0 <= i < |batch| ==>
                    batch[i].0 in old(pending) && old(pending)[batch[i].0] == batch[i].1
        invariant forall i :: 0 <= i < |batch| ==> batch[i].0 !in pending
        invariant forall slot :: slot in old(pending) ==>
                    slot in pending || exists i :: 0 <= i < |batch| && batch[i].0 == slot
        invariant forall i, j :: 0 <= i < j < |batch| ==> batch[i].0 != batch[j].0
        decreases |pending|
      {
        var slot :| slot in pending;
        ghost var before := batch;
        batch := batch + [(slot, pending[slot])];
        pending := pending - {slot};
        assert batch[|before|].0 == slot;
        assert forall i :: 0 <= i < |before| ==> batch[i] == before[i];
      }
    }
  }

  // ---------------------------------------------------------------------------------------------
  // The books over a run

  /** Everything a recorded request can be: still pending, in a batch on its way to the table, in the
      table, or in a batch whose insert failed. `recorded` logs the record calls, `dropped` the ones
      that met a counter at its u32 ceiling, and `accepted` the batches the table took. */
  datatype Books = Books(
    recorded: seq<Slot>,
    pending: Counts,
    inflight: seq<Counts>,
    stored: map<Row, int>,
    lost: seq<Counts>,
    dropped: seq<Slot>,
    accepted: seq<Counts>)

  const OPENING := Books([], map[], [], map[], [], [], [])

  /** Draining puts all pending counts in flight; settling ends one batch, well or badly. */
  datatype Action =
    | Record(slot: Slot)
    | Drain
    | Settle(batch: nat, success: bool)

  function Count(log: seq<Slot>, slot: Slot): nat {
    if log == [] then 0 else Count(log[..|log| - 1], slot) + if log[|log| - 1] == slot then 1 else 0
  }

  function Total(batches: seq<Counts>, slot: Slot): nat {
    if batches == [] then 0 else Total(batches[..|batches| - 1], slot) + At(batches[|batches| - 1], slot)
  }

  /** How many batches hold a count for this slot that does not survive the cast to i32. */
  function Wraps(batches: seq<Counts>, slot: Slot): nat {
    if batches == [] then 0
    else Wraps(batches[..|batches| - 1], slot) + if At(batches[|batches| - 1], slot) > I32_MAX then 1 else 0
  }

  /** The upsert: each count of the batch is cast and added to the table's row, or inserted. */
  function Upserted(stored: map<Row, int>, batch: Counts): map<Row, int> {
    map row | row in stored.Keys + (set slot | slot in batch :: RowOf(slot)) ::
      At(stored, row) + if SlotOf(row) in batch && RowOf(SlotOf(row)) == row then CastSigned(batch[SlotOf(row)]) else 0
  }

  /** The table's integer column refuses a sum that does not fit. */
  predicate Fits(stored: map<Row, int>) {
    forall row :: row in stored ==> I32_MIN <= stored[row] <= I32_MAX
  }

  predicate Possible(books: Books, action: Action) {
    match action
    case Record(slot) => Recordable(slot)
    case Drain => true
    case Settle(batch, _) => batch < |books.inflight|
  }

  function Act(books: Books, action: Action): Books
    requires Possible(books, action)
  {
    match action
    case Record(slot) =>
      books.(recorded := books.recorded + [slot],
             pending := Recorded(books.pending, slot),
             dropped := if At(books.pending, slot) == U32_MAX then books.dropped + [slot] else books.dropped)
    case Drain =>
      books.(pending := map[], inflight := books.inflight + [books.pending])
    case Settle(i, success) =>
      var batch := books.inflight[i];
      var rest := books.inflight[..i] + books.inflight[i + 1..];
      if success && Fits(Upserted(books.stored, batch))
      then books.(inflight := rest, stored := Upserted(books.stored, batch), accepted := books.accepted + [batch])
      else books.(inflight := rest, lost := books.lost + [batch])
  }

  predicate Run(books: Books, actions: seq<Action>)
    decreases |actions|
  {
    actions == [] || (Possible(books, actions[0]) && Run(Act(books, actions[0]), actions[1..]))
  }

  function After(books: Books, actions: seq<Action>): Books
    requires Run(books, actions)
    decreases |actions|
  {
    if actions == [] then books else After(Act(books, actions[0]), actions[1..])
  }

  // ---------------------------------------------------------------------------------------------
  // Conservation

  lemma CountAppend(log: seq<Slot>, last: Slot, slot: Slot)
    ensures Count(log + [last], slot) == Count(log, slot) + if last == slot then 1 else 0
  {
    assert (log + [last])[..|log|] == log;
  }

  lemma TotalAppend(batches: seq<Counts>, last: Counts, slot: Slot)
    ensures Total(batches + [last], slot) == Total(batches, slot) + At(last, slot)
    ensures Wraps(batches + [last], slot) == Wraps(batches, slot) + if At(last, slot) > I32_MAX then 1 else 0
  {
    assert (batches + [last])[..|batches|] == batches;
  }

  lemma {:induction false} TotalWithout(batches: seq<Counts>, i: nat, slot: Slot)
    requires i < |batches|
    ensures Total(batches, slot) == Total(batches[..i] + batches[i + 1..], slot) + At(batches[i], slot)
  {
    var n := |batches| - 1;
    if i == n {
      assert batches[..i] + batches[i + 1..] == batches[..n];
    } else {
      TotalWithout(batches[..n], i, slot);
      assert batches[..n][..i] + batches[..n][i + 1..] + [batches[n]] == batches[..i] + batches[i + 1..];
      TotalAppend(batches[..n][..i] + batches[..n][i + 1..], batches[n], slot);
    }
  }

  /** Where every recorded request of a slot is, with the two defects of fixed-width counters made
      explicit: a record dropped at the ceiling, and 2^32 lost whenever a cast wraps. */
  ghost predicate Balanced(books: Books, slot: Slot) {
    Count(books.recorded, slot)
    == At(books.pending, slot) + Total(books.inflight, slot) + At(books.stored, RowOf(slot))
       + Total(books.lost, slot) + Count(books.dropped, slot) + TWO_TO_THE_32 * Wraps(books.accepted, slot)
  }

  lemma UpsertAt(stored: map<Row, int>, batch: Counts, slot: Slot)
    requires Recordable(slot)
    ensures At(Upserted(stored, batch), RowOf(slot)) == At(stored, RowOf(slot)) + CastSigned(At(batch, slot))
  {
    RowNamesItsHour(slot);
  }

  lemma RecordedAt(pending: Counts, s: Slot, slot: Slot)
    ensures At(Recorded(pending, s), slot)
         == At(pending, slot) + if s == slot && At(pending, s) != U32_MAX then 1 else 0
  {
  }

  lemma RecordKeepsBalance(books: Books, s: Slot, slot: Slot)
    requires Recordable(s) && Balanced(books, slot)
    ensures Balanced(Act(books, Record(s)), slot)
  {
    hide At, Count, Total, Wraps, Recorded, RowOf;
    RecordedAt(books.pending, s, slot);
    CountAppend(books.recorded, s, slot);
    CountAppend(books.dropped, s, slot);
  }

  lemma DrainKeepsBalance(books: Books, slot: Slot)
    requires Balanced(books, slot)
    ensures Balanced(Act(books, Drain), slot)
  {
    hide Count, Total, Wraps, RowOf;
    TotalAppend(books.inflight, books.pending, slot);
  }

  lemma CastLoses(batch: Counts, slot: Slot)
    ensures CastSigned(At(batch, slot)) == At(batch, slot) - if At(batch, slot) > I32_MAX then TWO_TO_THE_32 else 0
  {
  }

  lemma SettleKeepsBalance(books: Books, i: nat, success: bool, slot: Slot)
    requires i < |books.inflight| && Recordable(slot) && Balanced(books, slot)
    ensures Balanced(Act(books, Settle(i, success)), slot)
  {
    hide At, Count, Total, Wraps, Upserted, Fits, RowOf, CastSigned;
    var batch := books.inflight[i];
    TotalWithout(books.inflight, i, slot);
    TotalAppend(books.accepted, batch, slot);
    TotalAppend(books.lost, batch, slot);
    UpsertAt(books.stored, batch, slot);
    CastLoses(batch, slot);
  }

  lemma ActKeepsBalance(books: Books, action: Action, slot: Slot)
    requires Possible(books, action) && Recordable(slot) && Balanced(books, slot)
    ensures Balanced(Act(books, action), slot)
  {
    hide Balanced, Act, Recordable;
    match action {
      case Record(s) => RecordKeepsBalance(books, s, slot);
      case Drain => DrainKeepsBalance(books, slot);
      case Settle(i, success) => SettleKeepsBalance(books, i, success, slot);
    }
  }

  /** Conservation over every run of records, drains and settlements in any order. */
  lemma {:induction false} EveryRunBalances(books: Books, actions: seq<Action>, slot: Slot)
    requires Run(books, actions) && Recordable(slot) && Balanced(books, slot)
    ensures Balanced(After(books, actions), slot)
    decreases |actions|
  {
    if actions == [] {
    } else {
      ActKeepsBalance(books, actions[0], slot);
      EveryRunBalances(Act(books, actions[0]), actions[1..], slot);
    }
  }

  /** The plain law: every record is pending, in flight, stored or lost. */
  ghost predicate Conserved(books: Books, slot: Slot) {
    Count(books.recorded, slot)
    == At(books.pending, slot) + Total(books.inflight, slot) + At(books.stored, RowOf(slot))
       + Total(books.lost, slot)
  }

  /** It holds exactly while no record met a full counter and no accepted count wrapped. */
  lemma ConservedIffNoDefect(actions: seq<Action>, slot: Slot)
    requires Run(OPENING, actions) && Recordable(slot)
    ensures
      var books := After(OPENING, actions);
      Conserved(books, slot) <==> Count(books.dropped, slot) == 0 && Wraps(books.accepted, slot) == 0
  {
    EveryRunBalances(OPENING, actions, slot);
  }

  /** One slot with fewer than 2^31 records behind it has met neither defect. */
  ghost predicate Sound(books: Books, slot: Slot) {
    Count(books.recorded, slot) <= I32_MAX ==>
      && Count(books.dropped, slot) == 0 && Wraps(books.accepted, slot) == 0
      && At(books.stored, RowOf(slot)) >= 0
  }

  lemma RecordKeepsSound(books: Books, s: Slot, slot: Slot)
    requires Recordable(s) && Balanced(books, slot) && Sound(books, slot)
    ensures Sound(Act(books, Record(s)), slot)
  {
    hide Total, Wraps, RowOf;
    CountAppend(books.recorded, s, slot);
    CountAppend(books.dropped, s, slot);
  }

  lemma SettleKeepsSound(books: Books, i: nat, success: bool, slot: Slot)
    requires i < |books.inflight| && Recordable(slot) && Balanced(books, slot) && Sound(books, slot)
    ensures Sound(Act(books, Settle(i, success)), slot)
  {
    hide Count, Total, Wraps, Upserted, Fits, RowOf;
    var batch := books.inflight[i];
    TotalWithout(books.inflight, i, slot);
    TotalAppend(books.accepted, batch, slot);
    UpsertAt(books.stored, batch, slot);
  }

  lemma ActKeepsSound(books: Books, action: Action, slot: Slot)
    requires Possible(books, action) && Recordable(slot) && Balanced(books, slot) && Sound(books, slot)
    ensures Sound(Act(books, action), slot)
  {
    match action {
      case Record(s) => RecordKeepsSound(books, s, slot);
      case Drain =>
      case Settle(i, success) => SettleKeepsSound(books, i, success, slot);
    }
  }

  lemma {:induction false} EveryRunIsSound(books: Books, actions: seq<Action>, slot: Slot)
    requires Run(books, actions) && Recordable(slot) && Balanced(books, slot) && Sound(books, slot)
    ensures Sound(After(books, actions), slot)
    decreases |actions|
  {
    if actions == [] {
    } else {
      ActKeepsBalance(books, actions[0], slot);
      ActKeepsSound(books, actions[0], slot);
      EveryRunIsSound(Act(books, actions[0]), actions[1..], slot);
    }
  }

  /** So usage is conserved for every key and hour with fewer than 2^31 recorded requests. */
  lemma UsageIsConserved(actions: seq<Action>, slot: Slot)
    requires Run(OPENING, actions) && Recordable(slot)
    requires Count(After(OPENING, actions).recorded, slot) <= I32_MAX
    ensures Conserved(After(OPENING, actions), slot)
  {
    EveryRunBalances(OPENING, actions, slot);
    EveryRunIsSound(OPENING, actions, slot);
  }

  /** What settling a batch does: an insert that succeeds and fits adds each count to its row, and loses
      nothing; any other leaves the table alone and loses the batch. */
  lemma SettleStores(books: Books, i: nat, success: bool, slot: Slot)
    requires i < |books.inflight| && Recordable(slot)
    ensures
      var next, batch := Act(books, Settle(i, success)), books.inflight[i];
      if success && Fits(Upserted(books.stored, batch))
      then next.lost == books.lost
           && At(next.stored, RowOf(slot)) == At(books.stored, RowOf(slot)) + CastSigned(At(batch, slot))
      else next.lost == books.lost + [batch] && next.stored == books.stored
  {
    hide Upserted, RowOf, Fits;
    UpsertAt(books.stored, books.inflight[i], slot);
  }

  predicate AllSucceed(actions: seq<Action>) {
    forall i :: 0 <= i < |actions| && actions[i].Settle? ==> actions[i].success
  }

  /** Every count belongs to an hour that the clock can show, and so does every row. */
  ghost predicate Dated(books: Books) {
    && (forall slot :: slot in books.pending ==> Recordable(slot))
    && (forall i, slot :: 0 <= i < |books.inflight| && slot in books.inflight[i] ==> Recordable(slot))
    && (forall row :: row in books.stored ==> Recordable(SlotOf(row)) && RowOf(SlotOf(row)) == row)
  }

  ghost predicate AllBalanced(books: Books) {
    forall slot :: Recordable(slot) ==> Balanced(books, slot) && Sound(books, slot)
  }

  lemma {:induction false} CountAtMost(log: seq<Slot>, slot: Slot)
    ensures Count(log, slot) <= |log|
  {
    if log == [] {
    } else {
      CountAtMost(log[..|log| - 1], slot);
    }
  }

  /** What is stored for a slot and in one batch together is at most what was recorded. */
  lemma BatchIsSmall(books: Books, i: nat, slot: Slot)
    requires Recordable(slot) && Balanced(books, slot) && Sound(books, slot) && i < |books.inflight|
    requires Count(books.recorded, slot) <= I32_MAX
    ensures CastSigned(At(books.inflight[i], slot)) == At(books.inflight[i], slot)
    ensures 0 <= At(books.stored, RowOf(slot)) + At(books.inflight[i], slot) <= Count(books.recorded, slot)
  {
    TotalWithout(books.inflight, i, slot);
  }

  /** A batch of a table with few records behind it fits, row by row. */
  lemma RowFits(books: Books, i: nat, row: Row)
    requires Dated(books) && AllBalanced(books) && |books.recorded| <= I32_MAX && i < |books.inflight|
    requires row in Upserted(books.stored, books.inflight[i])
    ensures Recordable(SlotOf(row)) && RowOf(SlotOf(row)) == row
    ensures I32_MIN <= Upserted(books.stored, books.inflight[i])[row] <= I32_MAX
  {
    hide Balanced, RowOf, SlotOf, Recordable, Total, Count, CastSigned;
    var batch := books.inflight[i];
    if row !in books.stored {
      var s :| s in batch && RowOf(s) == row;
      RowNamesItsHour(s);
    }
    var slot := SlotOf(row);
    UpsertAt(books.stored, batch, slot);
    CountAtMost(books.recorded, slot);
    BatchIsSmall(books, i, slot);
  }

  lemma FitsWhenFew(books: Books, i: nat)
    requires Dated(books) && AllBalanced(books) && |books.recorded| <= I32_MAX && i < |books.inflight|
    ensures Fits(Upserted(books.stored, books.inflight[i]))
    ensures Dated(Act(books, Settle(i, true)))
  {
    hide Upserted, RowOf, SlotOf, Recordable, Balanced, Sound;
    var upserted := Upserted(books.stored, books.inflight[i]);
    forall row | row in upserted
      ensures Recordable(SlotOf(row)) && RowOf(SlotOf(row)) == row
      ensures I32_MIN <= upserted[row] <= I32_MAX
    {
      RowFits(books, i, row);
    }
  }

  lemma ActLosesNothing(books: Books, action: Action)
    requires Possible(books, action) && (action.Settle? ==> action.success)
    requires Dated(books) && AllBalanced(books) && books.lost == []
    requires |Act(books, action).recorded| <= I32_MAX
    ensures Dated(Act(books, action)) && AllBalanced(Act(books, action)) && Act(books, action).lost == []
  {
    hide Balanced, Sound, Upserted, RowOf, SlotOf, Recordable;
    match action {
      case Record(_) =>
      case Drain =>
      case Settle(i, _) => FitsWhenFew(books, i);
    }
    forall slot | Recordable(slot)
      ensures Balanced(Act(books, action), slot) && Sound(Act(books, action), slot)
    {
      ActKeepsBalance(books, action, slot);
      ActKeepsSound(books, action, slot);
    }
  }

  lemma {:induction false} RecordsOnlyGrow(books: Books, actions: seq<Action>)
    requires Run(books, actions)
    ensures |books.recorded| <= |After(books, actions).recorded|
    decreases |actions|
  {
    if actions == [] {
    } else {
      RecordsOnlyGrow(Act(books, actions[0]), actions[1..]);
    }
  }

  lemma {:induction false} RunLosesNothing(books: Books, actions: seq<Action>)
    requires Run(books, actions) && AllSucceed(actions)
    requires Dated(books) && AllBalanced(books) && books.lost == []
    requires |After(books, actions).recorded| <= I32_MAX
    ensures AllBalanced(After(books, actions)) && After(books, actions).lost == []
    decreases |actions|
  {
    hide Dated, AllBalanced, Act, Possible;
    if actions == [] {
    } else {
      RecordsOnlyGrow(Act(books, actions[0]), actions[1..]);
      ActLosesNothing(books, actions[0]);
      RunLosesNothing(Act(books, actions[0]), actions[1..]);
    }
  }

  /** Usage reaches the table: over any run whose inserts all succeed, with at most 2^31 - 1 records in all,
      nothing is lost, and every record is in the table unless its batch has yet to be drained or
      inserted. */
  lemma EveryRecordIsStored(actions: seq<Action>, slot: Slot)
    requires Run(OPENING, actions) && AllSucceed(actions) && Recordable(slot)
    requires |After(OPENING, actions).recorded| <= I32_MAX
    ensures
      var books := After(OPENING, actions);
      && books.lost == []
      && At(books.stored, RowOf(slot)) + At(books.pending, slot) + Total(books.inflight, slot)
         == Count(books.recorded, slot)
  {
    hide Recordable, RowOf;
    RunLosesNothing(OPENING, actions);
    CountAtMost(After(OPENING, actions).recorded, slot);
    assert Balanced(After(OPENING, actions), slot) && Sound(After(OPENING, actions), slot);
  }

  /** The bound cannot be dropped: a drained count of 2^31 enters the table as a negative number. */
  lemma CastWraps()
    ensures CastSigned(0x8000_0000) == I32_MIN
    ensures forall n: U32 :: CastSigned(n) == n <==> n <= I32_MAX
  {
  }

  /** A run goes on with any action that is possible where it has got to. */
  lemma {:induction false} RunGoesOn(books: Books, actions: seq<Action>, action: Action)
    requires Run(books, actions) && Possible(After(books, actions), action)
    ensures Run(books, actions + [action]) && After(books, actions + [action]) == Act(After(books, actions), action)
    decreases |actions|
  {
    hide Possible, Act;
    if actions == [] {
      assert [action][1..] == [];
    } else {
      RunGoesOn(Act(books, actions[0]), actions[1..], action);
      assert (actions + [action])[1..] == actions[1..] + [action];
    }
  }

  lemma FlushedBalance(books: Books, slot: Slot)
    requires Balanced(books, slot) && Sound(books, slot) && Count(books.recorded, slot) <= I32_MAX
    requires books.pending == map[] && books.inflight == [] && books.lost == []
    ensures At(books.stored, RowOf(slot)) == Count(books.recorded, slot)
  {
  }

  /** Every record reaches the table if the recorder is drained and each batch is inserted: nothing is
      pending or in flight then, and every count is stored. */
  lemma FlushedIsStored(books: Books, slot: Slot)
    requires Recordable(slot) && Dated(books) && AllBalanced(books) && books.lost == []
    requires books.inflight == [] && |books.recorded| <= I32_MAX
    ensures
      var flushed := Act(Act(books, Drain), Settle(0, true));
      && At(flushed.stored, RowOf(slot)) == Count(books.recorded, slot)
      && flushed.pending == map[] && flushed.inflight == [] && flushed.lost == []
  {
    hide Balanced, Sound, Upserted, RowOf, SlotOf, Recordable, Dated;
    ActLosesNothing(books, Drain);
    var drained := Act(books, Drain);
    ActLosesNothing(drained, Settle(0, true));
    var flushed := Act(drained, Settle(0, true));
    CountAtMost(books.recorded, slot);
    assert Balanced(flushed, slot) && Sound(flushed, slot);
    FlushedBalance(flushed, slot);
  }
}

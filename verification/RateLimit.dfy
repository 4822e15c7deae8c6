/** The fixed-window request limiter: several buckets are checked and charged together, and the map
    of windows is reset lazily, swept, pruned when it grows, and cleared outright when pruning does
    not help. */
module RateLimit {
  import opened Wrappers
  import opened Integers
  import opened Collections

  const SECONDS_PER_HOUR := 3600
  const WINDOW_SECONDS := 3600
  const BURST_WINDOW_SECONDS := 1

  datatype Bucket =
    | User(id: int)
    | UserBurst(id: int)
    | KeyedIp(address: string)
    | Ip(address: string)
    | Unknown

  datatype Limit = Limit(bucket: Bucket, ceiling: U32, window: int)

  datatype Decision = Decision(allowed: bool, limit: U32, remaining: nat, reset: int)

  datatype Outcome = Outcome(allowed: bool, sustained: Decision, refused: Option<Decision>)

  datatype Window = Window(expires: int, count: U32)

  type Windows = map<Bucket, Window>

  datatype Caller = Caller(keyId: int, userId: int, requests: U32, burst: U32, ipCeiling: Option<U32>)

  // ---------------------------------------------------------------------------------------------
  // The window an instant falls in

  function HourOf(now: int): int {
    now / SECONDS_PER_HOUR
  }

  function Expiry(now: int, window: int): int
    requires window > 0
  {
    SaturatingI64(SaturatingI64(now / window + 1) * window)
  }

  /** The window length that every limit on a bucket carries. */
  function WindowOf(bucket: Bucket): int {
    if bucket.UserBurst? then BURST_WINDOW_SECONDS else WINDOW_SECONDS
  }

  /** Which window of a bucket an instant falls in. */
  function Index(now: int, bucket: Bucket): int {
    if bucket.UserBurst? then now / BURST_WINDOW_SECONDS else now / WINDOW_SECONDS
  }

  function LimitsFor(caller: Option<Caller>, address: Option<string>, anon: U32): seq<Limit> {
    match caller
    case None =>
      [Limit(if address.Some? then Ip(address.value) else Unknown, anon, WINDOW_SECONDS)]
    case Some(c) =>
      [Limit(User(c.userId), c.requests, WINDOW_SECONDS),
       Limit(UserBurst(c.userId), c.burst, BURST_WINDOW_SECONDS)]
      + if address.Some? && c.ipCeiling.Some?
        then [Limit(KeyedIp(address.value), c.ipCeiling.value, WINDOW_SECONDS)]
        else []
  }

  /** What the admission layer hands to the limiter: a sustained limit first, no bucket twice, at
      most three buckets, and one window length per bucket. */
  predicate WellFormed(limits: seq<Limit>) {
    && 0 < |limits| <= 3
    && (forall i :: 0 <= i < |limits| ==> limits[i].window == WindowOf(limits[i].bucket))
    && (forall i, j :: 0 <= i < j < |limits| ==> limits[i].bucket != limits[j].bucket)
  }

  lemma LimitsForIsWellFormed(caller: Option<Caller>, address: Option<string>, anon: U32)
    ensures WellFormed(LimitsFor(caller, address, anon))
    ensures LimitsFor(caller, address, anon)[0].window == WINDOW_SECONDS
  {
  }

  /** One of these limits is on this bucket, with this ceiling. */
  predicate Asks(limits: seq<Limit>, bucket: Bucket, ceiling: nat) {
    exists i :: 0 <= i < |limits| && limits[i].bucket == bucket && limits[i].ceiling == ceiling
  }

  /** Who is counted where. An anonymous caller: at its address, or with all others whose address is
      unknown. A keyed caller: as its user, by the hour and by the second, and at its address exactly when
      the plan caps addresses and the address is known. */
  predicate CountsIn(caller: Option<Caller>, address: Option<string>, anon: U32, bucket: Bucket, ceiling: nat) {
    match bucket
    case User(id) => caller.Some? && id == caller.value.userId && ceiling == caller.value.requests
    case UserBurst(id) => caller.Some? && id == caller.value.userId && ceiling == caller.value.burst
    case KeyedIp(a) => caller.Some? && address == Some(a) && caller.value.ipCeiling == Some(ceiling)
    case Ip(a) => caller.None? && address == Some(a) && ceiling == anon
    case Unknown => caller.None? && address.None? && ceiling == anon
  }

  lemma LimitsMean(caller: Option<Caller>, address: Option<string>, anon: U32, bucket: Bucket, ceiling: nat)
    ensures Asks(LimitsFor(caller, address, anon), bucket, ceiling)
       <==> CountsIn(caller, address, anon, bucket, ceiling)
  {
    var limits := LimitsFor(caller, address, anon);
    match caller {
      case None =>
        assert |limits| == 1 && limits[0].ceiling == anon;
      case Some(c) =>
        assert limits[0] == Limit(User(c.userId), c.requests, WINDOW_SECONDS);
        assert limits[1] == Limit(UserBurst(c.userId), c.burst, BURST_WINDOW_SECONDS);
        if address.Some? && c.ipCeiling.Some? {
          assert limits[2] == Limit(KeyedIp(address.value), c.ipCeiling.value, WINDOW_SECONDS);
        }
    }
  }

  /** The limit that the headers report is the hourly one of the user or of the anonymous caller. */
  lemma SustainedLimit(caller: Option<Caller>, address: Option<string>, anon: U32)
    ensures
      var first := LimitsFor(caller, address, anon)[0];
      && CountsIn(caller, address, anon, first.bucket, first.ceiling)
      && !first.bucket.UserBurst? && !first.bucket.KeyedIp?
  {
  }

  /** Whom a request shares an allowance with: the anonymous with the anonymous of the same address, the
      keyed with the same user's keys and with capped users at the same address. */
  predicate ShareAllowance(
    caller: Option<Caller>, address: Option<string>, other: Option<Caller>, elsewhere: Option<string>)
  {
    match (caller, other)
    case (None, None) => address == elsewhere
    case (Some(c), Some(d)) =>
      c.userId == d.userId || (address.Some? && address == elsewhere && c.ipCeiling.Some? && d.ipCeiling.Some?)
    case (_, _) => false
  }

  ghost predicate HaveBucketInCommon(limits: seq<Limit>, others: seq<Limit>) {
    exists i, j :: 0 <= i < |limits| && 0 <= j < |others| && limits[i].bucket == others[j].bucket
  }

  lemma TogetherMeansShared(
    caller: Option<Caller>, address: Option<string>, other: Option<Caller>, elsewhere: Option<string>, anon: U32,
    bucket: Bucket, ceiling: nat, least: nat)
    requires CountsIn(caller, address, anon, bucket, ceiling) && CountsIn(other, elsewhere, anon, bucket, least)
    ensures ShareAllowance(caller, address, other, elsewhere)
  {
  }

  lemma SharedBucket(
    caller: Option<Caller>, address: Option<string>, other: Option<Caller>, elsewhere: Option<string>, anon: U32)
    returns (bucket: Bucket, ceiling: nat, least: nat)
    requires ShareAllowance(caller, address, other, elsewhere)
    ensures CountsIn(caller, address, anon, bucket, ceiling) && CountsIn(other, elsewhere, anon, bucket, least)
  {
    if caller.None? {
      bucket := if address.Some? then Ip(address.value) else Unknown;
      ceiling, least := anon, anon;
    } else if caller.value.userId == other.value.userId {
      bucket, ceiling, least := User(caller.value.userId), caller.value.requests, other.value.requests;
    } else {
      bucket := KeyedIp(address.value);
      ceiling, least := caller.value.ipCeiling.value, other.value.ipCeiling.value;
    }
  }

  /** Two requests are counted in a bucket together exactly when they share an allowance. */
  lemma BucketsKeepCallersApart(
    caller: Option<Caller>, address: Option<string>, other: Option<Caller>, elsewhere: Option<string>, anon: U32)
    ensures HaveBucketInCommon(LimitsFor(caller, address, anon), LimitsFor(other, elsewhere, anon))
       <==> ShareAllowance(caller, address, other, elsewhere)
  {
    hide LimitsFor, CountsIn;
    var limits, others := LimitsFor(caller, address, anon), LimitsFor(other, elsewhere, anon);
    if HaveBucketInCommon(limits, others) {
      var i, j :| 0 <= i < |limits| && 0 <= j < |others| && limits[i].bucket == others[j].bucket;
      assert Asks(limits, limits[i].bucket, limits[i].ceiling) && Asks(others, others[j].bucket, others[j].ceiling);
      LimitsMean(caller, address, anon, limits[i].bucket, limits[i].ceiling);
      LimitsMean(other, elsewhere, anon, others[j].bucket, others[j].ceiling);
      TogetherMeansShared(caller, address, other, elsewhere, anon, limits[i].bucket, limits[i].ceiling,
                          others[j].ceiling);
    }
    if ShareAllowance(caller, address, other, elsewhere) {
      var bucket, ceiling, least := SharedBucket(caller, address, other, elsewhere, anon);
      LimitsMean(caller, address, anon, bucket, ceiling);
      LimitsMean(other, elsewhere, anon, bucket, least);
      var i :| 0 <= i < |limits| && limits[i].bucket == bucket && limits[i].ceiling == ceiling;
      var j :| 0 <= j < |others| && others[j].bucket == bucket && others[j].ceiling == least;
    }
  }

  /** The header `reset` is honest for every instant but the very last one of an i64 clock: there the
      saturated expiry is the instant itself. */
  lemma ExpiryIsAhead(now: int, window: int)
    requires I64_MIN <= now <= I64_MAX
    requires window == WINDOW_SECONDS || window == BURST_WINDOW_SECONDS
    ensures now < Expiry(now, window) <==> now < I64_MAX
    ensures Expiry(now, window) <= now + window
  {
    if window == WINDOW_SECONDS {
      assert now / WINDOW_SECONDS * WINDOW_SECONDS <= now;
    }
  }

  lemma HourlyExpiry(t: int)
    requires I64_MIN <= t <= I64_MAX
    ensures Expiry(t, WINDOW_SECONDS) == SaturatingI64(3600 * (t / WINDOW_SECONDS) + 3600)
    ensures 3600 * (t / WINDOW_SECONDS) <= t < 3600 * (t / WINDOW_SECONDS) + 3600
  {
  }

  lemma BurstExpiry(t: int)
    requires I64_MIN <= t < I64_MAX
    ensures Expiry(t, BURST_WINDOW_SECONDS) == t + 1 && t / BURST_WINDOW_SECONDS == t
  {
  }

  /** Two instants share an expiry exactly when they share a window index, and expiries grow with the
      clock. */
  lemma ExpiryIdentifiesWindow(s: int, t: int, bucket: Bucket)
    requires I64_MIN <= s <= t < I64_MAX
    ensures Expiry(s, WindowOf(bucket)) <= Expiry(t, WindowOf(bucket))
    ensures Expiry(s, WindowOf(bucket)) == Expiry(t, WindowOf(bucket))
       <==> Index(s, bucket) == Index(t, bucket)
    ensures Index(s, bucket) <= Index(t, bucket)
    ensures t < Expiry(s, WindowOf(bucket)) <==> Index(s, bucket) == Index(t, bucket)
  {
    hide Expiry;
    if bucket.UserBurst? {
      BurstExpiry(s);
      BurstExpiry(t);
    } else {
      HourlyExpiry(s);
      HourlyExpiry(t);
    }
  }

  /** When the window of this index ends. */
  function End(bucket: Bucket, index: int): int {
    SaturatingI64(SaturatingI64(index + 1) * WindowOf(bucket))
  }

  /** The indices that an i64 clock shows before its last instant. */
  predicate Shown(bucket: Bucket, index: int) {
    Index(I64_MIN, bucket) <= index <= Index(I64_MAX - 1, bucket)
  }

  lemma ExpiryIsEnd(now: int, bucket: Bucket)
    ensures Expiry(now, WindowOf(bucket)) == End(bucket, Index(now, bucket))
  {
  }

  /** Later windows end later. */
  lemma EndsGrow(bucket: Bucket, v: int, w: int)
    requires Shown(bucket, v) && Shown(bucket, w)
    ensures End(bucket, v) < End(bucket, w) <==> v < w
    ensures End(bucket, v) == End(bucket, w) <==> v == w
  {
  }

  /** An instant lies before the end of a window exactly when it lies in it or in an earlier one. */
  lemma AliveUntilEnd(bucket: Bucket, now: int, w: int)
    requires I64_MIN <= now < I64_MAX && Shown(bucket, w)
    ensures Shown(bucket, Index(now, bucket))
    ensures now < End(bucket, w) <==> Index(now, bucket) <= w
  {
  }

  /** At the last instant the burst window merges with the second before it. */
  lemma LastInstantMergesWindows()
    ensures Expiry(I64_MAX, BURST_WINDOW_SECONDS) == Expiry(I64_MAX - 1, BURST_WINDOW_SECONDS)
    ensures I64_MAX / BURST_WINDOW_SECONDS != (I64_MAX - 1) / BURST_WINDOW_SECONDS
  {
  }

  // ---------------------------------------------------------------------------------------------
  // One call, on values

  function Retained(windows: Windows, now: int): Windows {
    map b | b in windows && now < windows[b].expires :: windows[b]
  }

  predicate Clears(windows: Windows, now: int, cap: nat) {
    |windows| >= cap && |Retained(windows, now)| >= cap
  }

  function Bounded(windows: Windows, now: int, cap: nat): Windows {
    if |windows| < cap then windows
    else if Clears(windows, now, cap) then map[]
    else Retained(windows, now)
  }

  function Opened(windows: Windows, limit: Limit, now: int): Windows
    requires limit.window > 0
  {
    var expires := Expiry(now, limit.window);
    if limit.bucket in windows && windows[limit.bucket].expires == expires then windows
    else windows[limit.bucket := Window(expires, 0)]
  }

  predicate Positive(limits: seq<Limit>) {
    forall i :: 0 <= i < |limits| ==> limits[i].window > 0
  }

  /** The first pass over the first n limits: every window is opened or reset, and the request is
      allowed while no ceiling has been met. */
  function OpenAll(windows: Windows, limits: seq<Limit>, n: nat, now: int): (r: (Windows, bool))
    requires n <= |limits| && Positive(limits)
    ensures forall i :: 0 <= i < n ==> limits[i].bucket in r.0
  {
    if n == 0 then (windows, true)
    else
      var (before, allowed) := OpenAll(windows, limits, n - 1, now);
      var after := Opened(before, limits[n - 1], now);
      (after, allowed && after[limits[n - 1].bucket].count < limits[n - 1].ceiling)
  }

  function Charged(window: Window, allowed: bool): Window {
    if allowed then window.(count := SaturatingU32(window.count + 1)) else window
  }

  function Decided(window: Window, limit: Limit, allowed: bool): Decision {
    Decision(window.count < limit.ceiling, limit.ceiling,
             SaturatingSub(limit.ceiling, Charged(window, allowed).count), window.expires)
  }

  /** The second pass over the first n limits: an allowed request is charged to every window, and
      each limit reports. */
  function ChargeAll(windows: Windows, limits: seq<Limit>, n: nat, allowed: bool): (r: (Windows, seq<Decision>))
    requires n <= |limits|
    requires forall i :: 0 <= i < n ==> limits[i].bucket in windows
    ensures r.0.Keys == windows.Keys && |r.1| == n
  {
    if n == 0 then (windows, [])
    else
      var (before, decisions) := ChargeAll(windows, limits, n - 1, allowed);
      var window := before[limits[n - 1].bucket];
      (before[limits[n - 1].bucket := Charged(window, allowed)],
       decisions + [Decided(window, limits[n - 1], allowed)])
  }

  function FirstRefused(decisions: seq<Decision>): (r: Option<Decision>)
    ensures r.None? <==> forall i :: 0 <= i < |decisions| ==> decisions[i].allowed
    ensures r.Some? ==>
              exists i :: 0 <= i < |decisions| && decisions[i] == r.value && !decisions[i].allowed
                          && forall j :: 0 <= j < i ==> decisions[j].allowed
  {
    if decisions == [] then None
    else if !decisions[0].allowed then Some(decisions[0])
    else
      var rest := FirstRefused(decisions[1..]);
      assert forall i :: 1 <= i < |decisions| ==> decisions[i] == decisions[1..][i - 1];
      rest
  }

  function CheckOutcome(windows: Windows, limits: seq<Limit>, now: int, cap: nat): Outcome
    requires limits != [] && Positive(limits)
  {
    var (primed, allowed) := OpenAll(Bounded(windows, now, cap), limits, |limits|, now);
    var decisions := ChargeAll(primed, limits, |limits|, allowed).1;
    Outcome(allowed, decisions[0], FirstRefused(decisions))
  }

  function CheckWindows(windows: Windows, limits: seq<Limit>, now: int, cap: nat): Windows
    requires Positive(limits)
  {
    var (primed, allowed) := OpenAll(Bounded(windows, now, cap), limits, |limits|, now);
    ChargeAll(primed, limits, |limits|, allowed).0
  }

  function RetryAfter(decision: Decision, now: int): int {
    var wait := SaturatingI64(decision.reset - now);
    if wait >= 1 then wait else 1
  }

  // ---------------------------------------------------------------------------------------------
  // The two passes, window by window

  /** What the map holds for a bucket in the window that contains `now`. */
  function Live(windows: Windows, bucket: Bucket, now: int): U32 {
    if bucket in windows && windows[bucket].expires == Expiry(now, WindowOf(bucket))
    then windows[bucket].count else 0
  }

  /** The buckets that the first n limits name. */
  function Named(limits: seq<Limit>, n: nat): (r: set<Bucket>)
    requires n <= |limits|
    ensures forall i :: 0 <= i < n ==> limits[i].bucket in r
  {
    if n == 0 then {} else Named(limits, n - 1) + {limits[n - 1].bucket}
  }

  lemma {:induction false} NamedIndex(limits: seq<Limit>, n: nat, bucket: Bucket) returns (i: nat)
    requires n <= |limits| && bucket in Named(limits, n)
    ensures i < n && limits[i].bucket == bucket
  {
    if limits[n - 1].bucket == bucket {
      i := n - 1;
    } else {
      i := NamedIndex(limits, n - 1, bucket);
    }
  }

  lemma NextIsNew(limits: seq<Limit>, n: nat)
    requires n < |limits| && WellFormed(limits)
    ensures limits[n].bucket !in Named(limits, n)
  {
    if limits[n].bucket in Named(limits, n) {
      var i := NamedIndex(limits, n, limits[n].bucket);
    }
  }

  predicate BelowCeilings(windows: Windows, limits: seq<Limit>, n: nat, now: int)
    requires n <= |limits|
  {
    forall i :: 0 <= i < n ==> Live(windows, limits[i].bucket, now) < limits[i].ceiling
  }

  /** The first pass gives each named bucket the current window, keeping a live count and dropping a
      lapsed one; other buckets keep what they had. */
  lemma {:induction false} OpenAllAt(windows: Windows, limits: seq<Limit>, n: nat, now: int, b: Bucket)
    requires n <= |limits| && WellFormed(limits)
    ensures Positive(limits)
    ensures b in OpenAll(windows, limits, n, now).0 <==> b in windows || b in Named(limits, n)
    ensures b in Named(limits, n) ==>
              OpenAll(windows, limits, n, now).0[b] == Window(Expiry(now, WindowOf(b)), Live(windows, b, now))
    ensures b in windows && b !in Named(limits, n) ==> OpenAll(windows, limits, n, now).0[b] == windows[b]
  {
    if n == 0 {
    } else {
      OpenAllAt(windows, limits, n - 1, now, b);
    }
  }

  lemma {:induction false} OpenAllVerdict(windows: Windows, limits: seq<Limit>, n: nat, now: int)
    requires n <= |limits| && WellFormed(limits)
    ensures Positive(limits)
    ensures OpenAll(windows, limits, n, now).1 <==> BelowCeilings(windows, limits, n, now)
  {
    if n == 0 {
    } else {
      OpenAllVerdict(windows, limits, n - 1, now);
      OpenAllAt(windows, limits, n, now, limits[n - 1].bucket);
    }
  }

  lemma OpenedSize(windows: Windows, limit: Limit, now: int)
    requires limit.window > 0
    ensures |Opened(windows, limit, now)| <= |windows| + 1
  {
    assert Opened(windows, limit, now).Keys == windows.Keys + {limit.bucket};
  }

  lemma {:induction false} OpenAllSize(windows: Windows, limits: seq<Limit>, n: nat, now: int)
    requires n <= |limits| && Positive(limits)
    ensures |OpenAll(windows, limits, n, now).0| <= |windows| + n
  {
    if n == 0 {
    } else {
      OpenAllSize(windows, limits, n - 1, now);
      OpenedSize(OpenAll(windows, limits, n - 1, now).0, limits[n - 1], now);
    }
  }

  /** The second pass charges each named window once. */
  lemma {:induction false} ChargeAllAt(windows: Windows, limits: seq<Limit>, n: nat, allowed: bool, b: Bucket)
    requires n <= |limits| && WellFormed(limits) && Named(limits, n) <= windows.Keys
    requires b in windows
    ensures ChargeAll(windows, limits, n, allowed).0[b]
         == if b in Named(limits, n) then Charged(windows[b], allowed) else windows[b]
  {
    if n == 0 {
    } else {
      ChargeAllAt(windows, limits, n - 1, allowed, b);
      NextIsNew(limits, n - 1);
    }
  }

  /** Every limit reports on its window as it stood before the charge. */
  lemma {:induction false} ChargeAllDecision(windows: Windows, limits: seq<Limit>, n: nat, allowed: bool, i: nat)
    requires i < n <= |limits| && WellFormed(limits) && Named(limits, n) <= windows.Keys
    ensures ChargeAll(windows, limits, n, allowed).1[i]
         == Decided(windows[limits[i].bucket], limits[i], allowed)
  {
    if i < n - 1 {
      ChargeAllDecision(windows, limits, n - 1, allowed, i);
    } else {
      ChargeAllAt(windows, limits, n - 1, allowed, limits[i].bucket);
      NextIsNew(limits, n - 1);
    }
  }

  // ---------------------------------------------------------------------------------------------
  // The headers

  lemma NamedArePrimed(windows: Windows, limits: seq<Limit>, now: int)
    requires WellFormed(limits)
    ensures Positive(limits)
    ensures Named(limits, |limits|) <= OpenAll(windows, limits, |limits|, now).0.Keys
  {
    forall b | b in Named(limits, |limits|)
      ensures b in OpenAll(windows, limits, |limits|, now).0
    {
      OpenAllAt(windows, limits, |limits|, now, b);
    }
  }

  /** A refusal by this limit: nothing remains and its window is the one that contains `now`. */
  predicate Refuses(decision: Decision, limit: Limit, now: int)
    requires limit.window > 0
  {
    && !decision.allowed && decision.remaining == 0
    && decision.limit == limit.ceiling && decision.reset == Expiry(now, limit.window)
  }

  /** What each limit decides, from the map as it stands after making room. */
  lemma DecisionAt(windows: Windows, limits: seq<Limit>, now: int, i: nat)
    requires WellFormed(limits) && i < |limits|
    ensures Positive(limits)
    ensures
      var (primed, allowed) := OpenAll(windows, limits, |limits|, now);
      && (forall k :: 0 <= k < |limits| ==> limits[k].bucket in primed)
      && (allowed <==> BelowCeilings(windows, limits, |limits|, now))
      && ChargeAll(primed, limits, |limits|, allowed).1[i]
         == Decided(Window(Expiry(now, limits[i].window), Live(windows, limits[i].bucket, now)), limits[i], allowed)
  {
    hide OpenAll, ChargeAll, Expiry, Live, Decided, BelowCeilings;
    var (primed, allowed) := OpenAll(windows, limits, |limits|, now);
    OpenAllVerdict(windows, limits, |limits|, now);
    NamedArePrimed(windows, limits, now);
    OpenAllAt(windows, limits, |limits|, now, limits[i].bucket);
    ChargeAllDecision(primed, limits, |limits|, allowed, i);
  }

  /** What the first limit's window counts after the call. */
  lemma SustainedAfter(windows: Windows, limits: seq<Limit>, now: int)
    requires WellFormed(limits)
    ensures Positive(limits)
    ensures
      var (primed, allowed) := OpenAll(windows, limits, |limits|, now);
      && (forall k :: 0 <= k < |limits| ==> limits[k].bucket in primed)
      && Live(ChargeAll(primed, limits, |limits|, allowed).0, limits[0].bucket, now)
         == SaturatingU32(Live(windows, limits[0].bucket, now) + if allowed then 1 else 0)
  {
    hide OpenAll, ChargeAll, Expiry;
    var (primed, allowed) := OpenAll(windows, limits, |limits|, now);
    NamedArePrimed(windows, limits, now);
    OpenAllAt(windows, limits, |limits|, now, limits[0].bucket);
    ChargeAllAt(primed, limits, |limits|, allowed, limits[0].bucket);
  }

  /** The refusal reported is that of the first limit at its ceiling, if there is one. */
  lemma FirstRefusal(windows: Windows, limits: seq<Limit>, now: int)
    requires WellFormed(limits)
    ensures Positive(limits)
    ensures
      var (primed, allowed) := OpenAll(windows, limits, |limits|, now);
      && (forall k :: 0 <= k < |limits| ==> limits[k].bucket in primed)
      && var refused := FirstRefused(ChargeAll(primed, limits, |limits|, allowed).1);
         && (allowed <==> refused.None?)
         && (refused.Some? ==>
               !refused.value.allowed && refused.value.remaining == 0
               && exists i :: 0 <= i < |limits| && Refuses(refused.value, limits[i], now)
                              && Live(windows, limits[i].bucket, now) >= limits[i].ceiling
                              && BelowCeilings(windows, limits, i, now))
  {
    hide OpenAll, ChargeAll, Expiry, Live;
    var n := |limits|;
    DecisionAt(windows, limits, now, 0);
    var (primed, allowed) := OpenAll(windows, limits, n, now);
    var decisions := ChargeAll(primed, limits, n, allowed).1;
    forall i | 0 <= i < n
      ensures decisions[i].allowed <==> Live(windows, limits[i].bucket, now) < limits[i].ceiling
      ensures decisions[i]
           == Decided(Window(Expiry(now, limits[i].window), Live(windows, limits[i].bucket, now)), limits[i], allowed)
    {
      DecisionAt(windows, limits, now, i);
    }
    var refused := FirstRefused(decisions);
    if refused.Some? {
      var i :| 0 <= i < n && decisions[i] == refused.value && !decisions[i].allowed
               && forall j :: 0 <= j < i ==> decisions[j].allowed;
      assert Refuses(refused.value, limits[i], now);
    }
  }

  /** What the response headers say is so: a request is let through exactly when no limit refused it, and
      the sustained limit reports what is left after the call and when the current window ends. */
  lemma OutcomeIsTruthful(windows: Windows, limits: seq<Limit>, now: int, cap: nat)
    requires WellFormed(limits) && Positive(limits) && I64_MIN <= now <= I64_MAX
    ensures CheckOutcome(windows, limits, now, cap).allowed <==> CheckOutcome(windows, limits, now, cap).refused.None?
    ensures CheckOutcome(windows, limits, now, cap).sustained.limit == limits[0].ceiling
    ensures CheckOutcome(windows, limits, now, cap).sustained.reset == Expiry(now, limits[0].window)
    ensures CheckOutcome(windows, limits, now, cap).sustained.remaining
         == SaturatingSub(limits[0].ceiling, Live(CheckWindows(windows, limits, now, cap), limits[0].bucket, now))
  {
    hide OpenAll, ChargeAll, Expiry, Live, Bounded, BelowCeilings, Refuses;
    var bounded := Bounded(windows, now, cap);
    DecisionAt(bounded, limits, now, 0);
    SustainedAfter(bounded, limits, now);
    FirstRefusal(bounded, limits, now);
  }

  /** A refusal that is reported is that of the first limit at its ceiling, and has nothing remaining. */
  lemma RefusalIsTruthful(windows: Windows, limits: seq<Limit>, now: int, cap: nat)
    requires WellFormed(limits) && Positive(limits) && I64_MIN <= now <= I64_MAX
    requires CheckOutcome(windows, limits, now, cap).refused.Some?
    ensures
      var refused := CheckOutcome(windows, limits, now, cap).refused.value;
      && !refused.allowed && refused.remaining == 0
      && exists i :: 0 <= i < |limits| && Refuses(refused, limits[i], now)
                     && Live(Bounded(windows, now, cap), limits[i].bucket, now) >= limits[i].ceiling
                     && BelowCeilings(Bounded(windows, now, cap), limits, i, now)
  {
    hide OpenAll, ChargeAll, Expiry, Live, Bounded, BelowCeilings, Refuses;
    FirstRefusal(Bounded(windows, now, cap), limits, now);
  }

  /** Whatever is asked, Retry-After is at least a second, and just that once the reset has passed. */
  lemma RetryAfterIsPositive(decision: Decision, now: int)
    ensures RetryAfter(decision, now) >= 1
    ensures decision.reset <= now ==> RetryAfter(decision, now) == 1
    ensures now < decision.reset <= now + I64_MAX ==> now + RetryAfter(decision, now) == decision.reset
  {
  }

  /** Retry-After is exact: it lies between one second and one window, every instant before it has
      passed is in the refused window, and the instant it names is in the next one. */
  lemma RetryAfterIsExact(decision: Decision, now: int, t: int, bucket: Bucket)
    requires I64_MIN <= now <= t < I64_MAX
    requires decision.reset == Expiry(now, WindowOf(bucket))
    ensures 1 <= RetryAfter(decision, now) <= WindowOf(bucket)
    ensures Index(t, bucket) == Index(now, bucket) <==> t < now + RetryAfter(decision, now)
  {
    ExpiryIsAhead(now, WindowOf(bucket));
    ExpiryIdentifiesWindow(now, t, bucket);
  }
}

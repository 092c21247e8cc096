/** The stored trade statistics (`VolumeStatisticsCounter`), kept equal to what the trade log says. */
module VolumeCounter {
  import opened Arith
  import opened Results
  import opened ExchangeRatios
  import opened RatioOrder
  import opened VolumeSpec
  import RateBounds
  import FixedPoint

  const MS_IN_HOUR: nat := 3_600_000
  const MS_IN_DAY: nat := 86_400_000
  const MAX_HOURLY_RETENTION: nat := 25
  const MAX_DAILY_RETENTION: nat := 31

  datatype VolumeResponse = VolumeResponse(left: nat, right: nat, fromMs: nat, toMs: nat)

  /** Rates are raw decimals. */
  datatype RateResponse = RateResponse(low: nat, high: nat, avg: nat, fromMs: nat, toMs: nat)

  /** The average rate; a zero left total is reported as the largest decimal. */
  function AverageRate(left: nat, right: nat): nat {
    FixedPoint.FromRatio(right, left).GetOr(U128_MAX)
  }

  function Decimals(e: U32): nat {
    ToDecimalIsTotal(e);
    ToDecimal(e).value
  }

  /** The rates reported for some aggregate. */
  function RatesOf(s: Stats, fromMs: nat, toMs: nat): RateResponse {
    RateResponse(Decimals(s.low), Decimals(s.high), AverageRate(s.left, s.right), fromMs, toMs)
  }

  /** With no trade on record the pool's balances stand in. */
  function FallbackRates(left: nat, right: nat, fromMs: nat, toMs: nat): RateResponse {
    var rate := AverageRate(left, right);
    RateResponse(rate, rate, rate, fromMs, toMs)
  }

  // ---- Walking the deque backwards ----

  lemma StartBack(buckets: seq<TradingVolume>, from: int, to: int)
    requires buckets != []
    ensures BucketStats(buckets[|buckets| - 1..], from, to)
         == if from <= Last(buckets).fromTime < to then OfBucket(Last(buckets)) else NO_TRADES
  {
    var tail := buckets[|buckets| - 1..];
    assert Init(tail) == [];
    MergeLaws(OfBucket(Last(buckets)), NO_TRADES, NO_TRADES);
  }

  /** No bucket of the tail is older than the tail's first. */
  lemma {:induction false} FirstOfTail(buckets: seq<TradingVolume>, from: int, to: int)
    requires StrictlyIncreasing(buckets) && buckets != []
    ensures var s := BucketStats(buckets, from, to); s.first.Some? ==> buckets[0].fromTime <= s.first.value
  {
    if |buckets| > 1 {
      FirstOfTail(Init(buckets), from, to);
    } else {
      assert Init(buckets) == [];
    }
  }

  lemma StepBack(buckets: seq<TradingVolume>, i: nat, from: int, to: int)
    requires StrictlyIncreasing(buckets) && 0 < i < |buckets| && Last(buckets).fromTime <= to
    requires from <= buckets[i - 1].fromTime
    ensures BucketStats(buckets[i - 1..], from, to)
         == Merge(BucketStats(buckets[i..], from, to), OfBucket(buckets[i - 1]))
    ensures BucketStats(buckets[i - 1..], from, to).first == Some(buckets[i - 1].fromTime)
  {
    assert buckets[i - 1..] == [buckets[i - 1]] + buckets[i..];
    TakeFront(buckets[i - 1], buckets[i..], from, to);
    FirstOfTail(buckets[i..], from, to);
  }

  lemma StopBack(buckets: seq<TradingVolume>, i: nat, from: int, to: int)
    requires StrictlyIncreasing(buckets) && i < |buckets|
    requires 0 < i ==> buckets[i - 1].fromTime < from
    ensures BucketStats(buckets[i..], from, to) == BucketStats(buckets, from, to)
  {
    DropOld(buckets, i, from, to);
  }

  /**
   The loop shared by the windowed queries: from the newest record back to the first one older than
   the window.  Only the newest record is checked against the window's end.
   */
  method WalkBack(records: seq<TradingVolume>, from: nat, to: nat) returns (s: Stats)
    requires StrictlyIncreasing(records) && records != [] && Last(records).fromTime <= to
    ensures s == BucketStats(records, from, to)
  {
    s := NO_TRADES;
    var i := |records| - 1;
    StartBack(records, from, to);
    if records[i].fromTime < to && records[i].fromTime >= from {
      s := OfBucket(records[i]);
    }
    while i > 0
      invariant 0 <= i < |records|
      invariant s == BucketStats(records[i..], from, to)
    {
      var record := records[i - 1];
      if record.fromTime < from {
        break;
      }
      StepBack(records, i, from, to);
      s := Stats(SatAdd(s.left, record.left), SatAdd(s.right, record.right),
                 SetIfLess(s.low, record.rateLow), SetIfGreater(s.high, record.rateHigh),
                 Some(record.fromTime));
      i := i - 1;
    }
    StopBack(records, i, from, to);
  }

  /** What the log says of the `span` whole units before the current one. */
  function PastStats(log: Log, unit: nat, nowMs: nat, span: nat): Stats
    requires 0 < unit
  {
    LogStats(InUnits(log, unit), Quot(nowMs, unit) - span, Quot(nowMs, unit))
  }

  /** The oldest bucket a deque limited to `cap` still holds. */
  function OldestKept(units: Log, cap: nat): nat {
    var kept := Retained(units, cap);
    if kept == [] then 0 else kept[0].fromTime
  }

  /** The same from the oldest bucket still held, which is all that can be known. */
  function SeenStats(log: Log, unit: nat, cap: nat, nowMs: nat, span: nat): Stats
    requires 0 < unit
  {
    var units, now := InUnits(log, unit), Quot(nowMs, unit);
    LogStats(units, Max(now - span, OldestKept(units, cap)), now)
  }

  lemma LatestBucket(log: Log, unit: nat, cap: nat, records: seq<TradingVolume>, nowMs: nat)
    requires Chronological(log) && 0 < unit && 0 < cap
    requires log != [] ==> Last(log).time <= nowMs
    requires records == Retained(InUnits(log, unit), cap)
    ensures Chronological(InUnits(log, unit)) && StrictlyIncreasing(records) && (records == [] <==> log == [])
    ensures log != [] ==> Last(records).fromTime == Last(InUnits(log, unit)).time == Quot(Last(log).time, unit)
                                                 <= Quot(nowMs, unit)
  {
    InUnitsChronological(log, unit);
    RetainedShape(InUnits(log, unit), cap);
    if log != [] {
      DivMono(Last(log).time, nowMs, unit);
    }
  }

  lemma PastIs(log: Log, unit: nat, nowMs: nat, span: nat, now: nat)
    requires 0 < unit && now == Quot(nowMs, unit)
    ensures PastStats(log, unit, nowMs, span) == LogStats(InUnits(log, unit), now - span, now)
  {
  }

  lemma SeenIs(log: Log, unit: nat, cap: nat, nowMs: nat, span: nat, now: nat)
    requires 0 < unit && now == Quot(nowMs, unit)
    ensures SeenStats(log, unit, cap, nowMs, span)
         == LogStats(InUnits(log, unit), Max(now - span, OldestKept(InUnits(log, unit), cap)), now)
  {
  }

  lemma WindowIs(units: Log, cap: nat, records: seq<TradingVolume>, span: nat, now: nat, s: Stats)
    requires Chronological(units) && 0 < span < cap
    requires units != [] ==> Last(units).time <= now
    requires records == Retained(units, cap) && s == LogStats(units, now - span, now)
    ensures BucketStats(records, now - span, now) == s
  {
    RetainedMatchesLog(units, records, cap, now, span);
  }

  lemma AnyWindowIs(units: Log, cap: nat, records: seq<TradingVolume>, from: int, now: nat, start: int)
    requires Chronological(units) && 0 < cap && records == Retained(units, cap) && (records == [] ==> units == [])
    requires start == Max(from, OldestKept(units, cap))
    ensures BucketStats(records, from, now) == LogStats(units, start, now)
  {
    if records != [] {
      RetainedSees(units, records, cap, from, now);
    }
  }

  /** The facts every windowed query needs about its deque. */
  lemma DequeFacts(log: Log, unit: nat, cap: nat, records: seq<TradingVolume>, nowMs: nat, span: nat, now: nat)
    requires Chronological(log) && 0 < unit && 0 < span && 0 < cap && now == Quot(nowMs, unit)
    requires log != [] ==> Last(log).time <= nowMs
    requires records == Retained(InUnits(log, unit), cap)
    ensures BucketStats(records, now - span, now) == SeenStats(log, unit, cap, nowMs, span)
    ensures span < cap ==> BucketStats(records, now - span, now) == PastStats(log, unit, nowMs, span)
  {
    LatestBucket(log, unit, cap, records, nowMs);
    SeenIs(log, unit, cap, nowMs, span, now);
    AnyWindowIs(InUnits(log, unit), cap, records, now - span, now,
                Max(now - span, OldestKept(InUnits(log, unit), cap)));
    if span < cap {
      PastIs(log, unit, nowMs, span, now);
      WindowIs(InUnits(log, unit), cap, records, span, now, PastStats(log, unit, nowMs, span));
    }
  }

  /** The window's bounds (`None` is the underflow of the subtraction) and the walk over the deque, if there is one. */
  method Window(records: seq<TradingVolume>, current: nat, span: nat) returns (s: Option<Stats>)
    requires StrictlyIncreasing(records) && (records != [] ==> Last(records).fromTime <= current)
    ensures s.None? <==> current < span
    ensures s.Some? ==> s.value == BucketStats(records, current - span, current)
  {
    if current < span {
      return None;
    }
    if records == [] {
      return Some(NO_TRADES);
    }
    var found := WalkBack(records, current - span, current);
    return Some(found);
  }

  /**
   The part all four windowed queries share: it gives what the log says from the oldest bucket still held,
   which over fewer units than the deque has buckets is all of it; and the deque is empty exactly when
   nothing was ever traded.
   */
  method PastWindow(records: seq<TradingVolume>, ghost log: Log, unit: nat, ghost cap: nat, nowMs: nat, span: nat)
    returns (s: Option<Stats>)
    requires Chronological(log) && 0 < unit && 0 < span && 0 < cap
    requires log != [] ==> Last(log).time <= nowMs
    requires records == Retained(InUnits(log, unit), cap)
    ensures s.None? <==> Quot(nowMs, unit) < span
    ensures s.Some? ==> s.value == SeenStats(log, unit, cap, nowMs, span)
    ensures span < cap ==> SeenStats(log, unit, cap, nowMs, span) == PastStats(log, unit, nowMs, span)
    ensures records == [] <==> log == []
    ensures log != [] ==> Last(records).fromTime == Quot(Last(log).time, unit)
  {
    LatestBucket(log, unit, cap, records, nowMs);
    var current := Quot(nowMs, unit);
    s := Window(records, current, span);
    DequeFacts(log, unit, cap, records, nowMs, span, current);
  }

  // ---- Appending to the log ----

  lemma RetainedAppend(log: Log, t: Trade, unit: nat, cap: nat)
    requires 0 < unit
    ensures Retained(InUnits(log + [t], unit), cap)
         == Trim(Push(Retained(InUnits(log, unit), cap), t.(time := Quot(t.time, unit))), cap)
  {
    InUnitsAppend(log, t, unit);
    assert Init(InUnits(log + [t], unit)) == InUnits(log, unit);
  }

  lemma BucketOfAppend(log: Log, t: Trade)
    ensures RateBounds.BucketOf(log + [t]) == if log == [] then Opened(t) else Added(RateBounds.BucketOf(log), t)
  {
    assert Init(log + [t]) == log;
  }

  lemma AllTimeStats(log: Log, record: TradingVolume, nowMs: nat)
    requires Chronological(log) && log != [] && record == RateBounds.BucketOf(log)
    ensures var s := LogStats(log, 0, Last(log).time + 1);
            && VolumeResponse(s.left, s.right, log[0].time, nowMs)
               == VolumeResponse(record.left, record.right, record.fromTime, nowMs)
            && RatesOf(s, log[0].time, nowMs) == RatesOf(OfBucket(record), record.fromTime, nowMs)
  {
    RateBounds.BucketIsWindow(log, 0, Last(log).time + 1);
  }

  /** The store's contents are what the log calls for. */
  ghost predicate Agrees(log: Log, hourly: seq<TradingVolume>, daily: seq<TradingVolume>, allTime: Option<TradingVolume>) {
    && Chronological(log) && Genuine(log)
    && hourly == Retained(InUnits(log, MS_IN_HOUR), MAX_HOURLY_RETENTION)
    && daily == Retained(InUnits(log, MS_IN_DAY), MAX_DAILY_RETENTION)
    && allTime == (if log == [] then None else Some(RateBounds.BucketOf(log)))
  }

  lemma ChronologicalAppend(log: Log, t: Trade)
    requires Chronological(log) && (log != [] ==> Last(log).time <= t.time)
    ensures Chronological(log + [t])
  {
    forall i, j | 0 <= i < j < |log + [t]|
      ensures (log + [t])[i].time <= (log + [t])[j].time
    {
      assert log[i].time <= Last(log).time;
    }
  }

  lemma GenuineAppend(log: Log, t: Trade)
    requires Genuine(log) && t.rate == Encode(t.right, t.left)
    ensures Genuine(log + [t])
  {
    forall i | 0 <= i < |log + [t]|
      ensures (log + [t])[i].rate == Encode((log + [t])[i].right, (log + [t])[i].left)
    {
      if i < |log| {
        assert (log + [t])[i] == log[i];
      }
    }
  }

  lemma AgreesAppend(log: Log, t: Trade, hourly: seq<TradingVolume>, daily: seq<TradingVolume>,
                     allTime: Option<TradingVolume>)
    requires Agrees(log, hourly, daily, allTime) && t.rate == Encode(t.right, t.left)
    requires log != [] ==> Last(log).time <= t.time
    ensures Agrees(log + [t],
                   Trim(Push(hourly, t.(time := Quot(t.time, MS_IN_HOUR))), MAX_HOURLY_RETENTION),
                   Trim(Push(daily, t.(time := Quot(t.time, MS_IN_DAY))), MAX_DAILY_RETENTION),
                   Some(if allTime.None? then Opened(t) else Added(allTime.value, t)))
  {
    ChronologicalAppend(log, t);
    GenuineAppend(log, t);
    RetainedAppend(log, t, MS_IN_HOUR, MAX_HOURLY_RETENTION);
    RetainedAppend(log, t, MS_IN_DAY, MAX_DAILY_RETENTION);
    BucketOfAppend(log, t);
  }

  // ---- Building records ----

  /** `TradingVolume::new`. */
  method NewVolume(fromTime: nat, left: U128, right: U128, outputIsLeft: bool) returns (record: TradingVolume)
    ensures record == Opened(TradeOf(fromTime, left, right, outputIsLeft))
  {
    var exchangeRatio := FromRatio(right, left);
    record := TradingVolume(fromTime, exchangeRatio, exchangeRatio, left, right,
                            if outputIsLeft then left else SatDouble(right));
  }

  /** `TradingVolume::add_volume` on the caller's copy of the record. */
  method AddVolume(record: TradingVolume, time: nat, left: U128, right: U128, outputIsLeft: bool)
    returns (updated: TradingVolume)
    ensures updated == Added(record, TradeOf(time, left, right, outputIsLeft))
  {
    var exchangeRatio := FromRatio(right, left);
    updated := record;
    updated := updated.(left := SatAdd(updated.left, left));
    updated := updated.(right := SatAdd(updated.right, right));
    updated := updated.(rateLow := SetIfLess(updated.rateLow, exchangeRatio));
    updated := updated.(rateHigh := SetIfGreater(updated.rateHigh, exchangeRatio));
    updated := updated.(outputNormalized := SatAdd(updated.right, if outputIsLeft then left else SatDouble(right)));
  }

  /** One deque's part of `update_volumes`. */
  method Record(records: seq<TradingVolume>, time: nat, left: U128, right: U128, outputIsLeft: bool, max: nat)
    returns (updated: seq<TradingVolume>)
    requires 0 < max
    ensures updated == Trim(Push(records, TradeOf(time, left, right, outputIsLeft)), max)
  {
    updated := records;
    if updated != [] {
      var latest := updated[|updated| - 1];
      if latest.fromTime < time {
        var record := NewVolume(time, left, right, outputIsLeft);
        updated := updated + [record];
      } else {
        latest := AddVolume(latest, time, left, right, outputIsLeft);
        updated := updated[..|updated| - 1] + [latest];
      }
      if |updated| > max {
        updated := updated[1..];
      }
    } else {
      var record := NewVolume(time, left, right, outputIsLeft);
      updated := updated + [record];
    }
  }

  class VolumeStatisticsCounter {
    var hourly: seq<TradingVolume>
    var daily: seq<TradingVolume>
    var allTime: Option<TradingVolume>
    /** Every trade ever recorded, with millisecond times. */
    ghost var log: Log

    ghost predicate Valid()
      reads this
    {
      Agrees(log, hourly, daily, allTime)
    }

    /** Block time does not run backwards: nothing happens before the last trade. */
    ghost predicate NotBeforeLastTrade(nowMs: nat)
      reads this
    {
      log != [] ==> Last(log).time <= nowMs
    }

    constructor ()
      ensures Valid() && log == []
    {
      hourly, daily, allTime, log := [], [], None, [];
    }

    method UpdateVolumes(timestampMs: nat, left: U128, right: U128, outputIsLeft: bool)
      requires Valid() && NotBeforeLastTrade(timestampMs)
      modifies this
      ensures Valid() && log == old(log) + [TradeOf(timestampMs, left, right, outputIsLeft)]
    {
      ghost var trade := TradeOf(timestampMs, left, right, outputIsLeft);
      AgreesAppend(log, trade, hourly, daily, allTime);
      var timestampHour := Quot(timestampMs, MS_IN_HOUR);
      var timestampDay := Quot(timestampMs, MS_IN_DAY);
      hourly := Record(hourly, timestampHour, left, right, outputIsLeft, MAX_HOURLY_RETENTION);
      daily := Record(daily, timestampDay, left, right, outputIsLeft, MAX_DAILY_RETENTION);
      var record;
      if allTime.Some? {
        record := AddVolume(allTime.value, timestampMs, left, right, outputIsLeft);
      } else {
        record := NewVolume(timestampMs, left, right, outputIsLeft);
      }
      allTime := Some(record);
      log := log + [trade];
    }

    /** Everything since the first trade. */
    method GetVolumeAllTime(nowMs: nat) returns (r: VolumeResponse)
      requires Valid()
      ensures log == [] ==> r == VolumeResponse(0, 0, 0, nowMs)
      ensures log != [] ==> var s := LogStats(log, 0, Last(log).time + 1);
                            r == VolumeResponse(s.left, s.right, log[0].time, nowMs)
    {
      if allTime.None? {
        return VolumeResponse(0, 0, 0, nowMs);
      }
      var record := allTime.value;
      AllTimeStats(log, record, nowMs);
      r := VolumeResponse(record.left, record.right, record.fromTime, nowMs);
    }

    /** Extremes and average over everything, as soon as there is a trade. */
    method GetExchangeRateAllTime(nowMs: nat, fallbackLeft: nat, fallbackRight: nat) returns (r: RateResponse)
      requires Valid()
      ensures log == [] ==> r == FallbackRates(fallbackLeft, fallbackRight, 0, nowMs)
      ensures log != [] ==> r == RatesOf(LogStats(log, 0, Last(log).time + 1), log[0].time, nowMs)
    {
      if allTime.None? {
        return FallbackRates(fallbackLeft, fallbackRight, 0, nowMs);
      }
      var record := allTime.value;
      AllTimeStats(log, record, nowMs);
      r := RateResponse(Decimals(record.rateLow), Decimals(record.rateHigh),
                        AverageRate(record.left, record.right), record.fromTime, nowMs);
      assert r == RatesOf(OfBucket(record), record.fromTime, nowMs);
    }

    /**
     The trades of the past `hours` whole hours, as far back as they are still held: the saturating sum over
     the log, which up to 24 hours is complete, and the earliest trade's hour.
     */
    method GetVolumePerHours(nowMs: nat, hours: nat) returns (r: Option<VolumeResponse>)
      requires Valid() && NotBeforeLastTrade(nowMs) && 0 < hours
      ensures r.None? <==> Quot(nowMs, 3_600_000) < hours
      ensures hours <= 24 ==>
                SeenStats(log, 3_600_000, 25, nowMs, hours) == PastStats(log, 3_600_000, nowMs, hours)
      ensures r.Some? ==>
                var s := SeenStats(log, 3_600_000, 25, nowMs, hours);
                var toMs := Quot(nowMs, 3_600_000) * 3_600_000;
                r.value == if log == [] then VolumeResponse(0, 0, toMs, toMs)
                           else VolumeResponse(s.left, s.right, s.first.GetOr(0) * 3_600_000, toMs)
    {
      var window := PastWindow(hourly, log, MS_IN_HOUR, MAX_HOURLY_RETENTION, nowMs, hours);
      if window.None? {
        return None;
      }
      var s, toMs := window.value, Quot(nowMs, MS_IN_HOUR) * MS_IN_HOUR;
      if hourly == [] {
        return Some(VolumeResponse(0, 0, toMs, toMs));
      }
      r := Some(VolumeResponse(s.left, s.right, s.first.GetOr(0) * MS_IN_HOUR, toMs));
    }

    /**
     The trades of the past `days` whole days, likewise, complete up to 30 days; the reported start is
     not the earliest trade's day but the day of the latest trade on record, whenever there is any to report.
     */
    method GetVolumePerDays(nowMs: nat, days: nat) returns (r: Option<VolumeResponse>)
      requires Valid() && NotBeforeLastTrade(nowMs) && 0 < days
      ensures r.None? <==> Quot(nowMs, 86_400_000) < days
      ensures days <= 30 ==>
                SeenStats(log, 86_400_000, 31, nowMs, days) == PastStats(log, 86_400_000, nowMs, days)
      ensures r.Some? ==>
                var s := SeenStats(log, 86_400_000, 31, nowMs, days);
                var toMs := Quot(nowMs, 86_400_000) * 86_400_000;
                r.value == if log == [] then VolumeResponse(0, 0, toMs, toMs)
                           else VolumeResponse(s.left, s.right, ReportedDay(log, s) * 86_400_000, toMs)
    {
      var window := PastWindow(daily, log, MS_IN_DAY, MAX_DAILY_RETENTION, nowMs, days);
      if window.None? {
        return None;
      }
      var s, toMs := window.value, Quot(nowMs, MS_IN_DAY) * MS_IN_DAY;
      if daily == [] {
        return Some(VolumeResponse(0, 0, toMs, toMs));
      }
      // each record taken in sets the start to the newest record's day, not to its own
      var earliestDay := if s.first.Some? then daily[|daily| - 1].fromTime else 0;
      r := Some(VolumeResponse(s.left, s.right, earliestDay * MS_IN_DAY, toMs));
    }

    /** Rates over the past `hours` whole hours: extremes and average of exactly the logged trades. */
    method GetExchangeRatePerHours(nowMs: nat, hours: nat, fallbackLeft: nat, fallbackRight: nat)
      returns (r: Option<RateResponse>)
      requires Valid() && NotBeforeLastTrade(nowMs) && 0 < hours
      ensures r.None? <==> Quot(nowMs, 3_600_000) < hours
      ensures hours <= 24 ==>
                SeenStats(log, 3_600_000, 25, nowMs, hours) == PastStats(log, 3_600_000, nowMs, hours)
      ensures r.Some? ==>
                var s := SeenStats(log, 3_600_000, 25, nowMs, hours);
                var toMs := Quot(nowMs, 3_600_000) * 3_600_000;
                r.value == if log == [] then FallbackRates(fallbackLeft, fallbackRight, toMs, toMs)
                           else RatesOf(s, s.first.GetOr(0) * 3_600_000, toMs)
    {
      var window := PastWindow(hourly, log, MS_IN_HOUR, MAX_HOURLY_RETENTION, nowMs, hours);
      if window.None? {
        return None;
      }
      var s, toMs := window.value, Quot(nowMs, MS_IN_HOUR) * MS_IN_HOUR;
      if hourly == [] {
        return Some(FallbackRates(fallbackLeft, fallbackRight, toMs, toMs));
      }
      r := Some(RatesOf(s, s.first.GetOr(0) * MS_IN_HOUR, toMs));
    }

    /** Rates over the past `days` whole days; the reported start has the same slip as the volume's. */
    method GetExchangeRatePerDays(nowMs: nat, days: nat, fallbackLeft: nat, fallbackRight: nat)
      returns (r: Option<RateResponse>)
      requires Valid() && NotBeforeLastTrade(nowMs) && 0 < days
      ensures r.None? <==> Quot(nowMs, 86_400_000) < days
      ensures days <= 30 ==>
                SeenStats(log, 86_400_000, 31, nowMs, days) == PastStats(log, 86_400_000, nowMs, days)
      ensures r.Some? ==>
                var s := SeenStats(log, 86_400_000, 31, nowMs, days);
                var toMs := Quot(nowMs, 86_400_000) * 86_400_000;
                r.value == if log == [] then FallbackRates(fallbackLeft, fallbackRight, toMs, toMs)
                           else RatesOf(s, ReportedDay(log, s) * 86_400_000, toMs)
    {
      var window := PastWindow(daily, log, MS_IN_DAY, MAX_DAILY_RETENTION, nowMs, days);
      if window.None? {
        return None;
      }
      var s, toMs := window.value, Quot(nowMs, MS_IN_DAY) * MS_IN_DAY;
      if daily == [] {
        return Some(FallbackRates(fallbackLeft, fallbackRight, toMs, toMs));
      }
      var earliestDay := if s.first.Some? then daily[|daily| - 1].fromTime else 0;
      r := Some(RatesOf(s, earliestDay * MS_IN_DAY, toMs));
    }
  }

  /** The day the daily queries report as their start. */
  function ReportedDay(log: Log, s: Stats): nat
    requires log != []
  {
    if s.first.None? then 0 else Quot(Last(log).time, MS_IN_DAY)
  }

  /**
   Over any window the reported day is the earliest exactly when the window is empty or its earliest day is
   the day of the last trade on record, so that it holds a single day.
   */
  lemma ReportedDayIsEarliest(log: Log, from: int, to: int)
    requires Chronological(log) && log != []
    ensures var s := LogStats(InUnits(log, MS_IN_DAY), from, to);
            ReportedDay(log, s) == s.first.GetOr(0) <==>
              forall i :: 0 <= i < |log| && Inside(InUnits(log, MS_IN_DAY)[i], from, to)
                ==> Quot(log[i].time, MS_IN_DAY) == Quot(Last(log).time, MS_IN_DAY)
  {
    var units := InUnits(log, MS_IN_DAY);
    var s := LogStats(units, from, to);
    InUnitsChronological(log, MS_IN_DAY);
    if s.first.Some? {
      var low, high, first := LogAttained(units, from, to);
      forall i | 0 <= i < |units| && Inside(units[i], from, to)
        ensures s.first.value <= units[i].time <= units[|log| - 1].time
      {
        LogBounds(units, from, to, i);
      }
    } else {
      forall i | 0 <= i < |units| && Inside(units[i], from, to)
        ensures false
      {
        LogBounds(units, from, to, i);
      }
    }
  }

  /** Any two trades on successive days, asked about from the day after: the reported start is the later of them. */
  lemma ReportedDayCanBeLater(first: Trade, second: Trade, day: nat)
    requires Quot(first.time, MS_IN_DAY) == day && Quot(second.time, MS_IN_DAY) == day + 1
    ensures var log, nowMs := [first, second], (day + 2) * MS_IN_DAY;
            var s := PastStats(log, MS_IN_DAY, nowMs, 2);
            && Chronological(log) && second.time <= nowMs && Quot(nowMs, MS_IN_DAY) == day + 2
            && s.first == Some(day) && ReportedDay(log, s) == day + 1
  {
    var log, nowMs := [first, second], (day + 2) * MS_IN_DAY;
    DivBounds(first.time, MS_IN_DAY);
    DivBounds(second.time, MS_IN_DAY);
    DivModIs(nowMs, MS_IN_DAY, day + 2, 0);
    var units := InUnits(log, MS_IN_DAY);
    assert Init(units) == [units[0]] && Init([units[0]]) == [];
    assert LogStats([units[0]], day, day + 2).first == Some(day);
  }
}

/**
 What the statistics store means: the full trade log, the hour and day buckets folded from it, and
 the aggregate of a time window, read off the log or off the buckets.
 */
module VolumeSpec {
  import opened Arith
  import opened Results
  import opened ExchangeRatios
  import opened RatioOrder

  /**
   A logged trade and its encoded rate; the time counts milliseconds, or hours or days once brought to
   that unit.
   */
  datatype Trade = Trade(time: nat, left: U128, right: U128, outputIsLeft: bool, rate: U32)

  function TradeOf(time: nat, left: U128, right: U128, outputIsLeft: bool): Trade {
    Trade(time, left, right, outputIsLeft, Encode(right, left))
  }

  /** Every logged rate is the encoding of its own amounts. */
  ghost predicate Genuine(log: Log) {
    forall i {:trigger log[i].rate} :: 0 <= i < |log| ==> log[i].rate == Encode(log[i].right, log[i].left)
  }

  type Log = seq<Trade>

  /** The log with its times floored to a coarser unit: each trade's bucket time. */
  function InUnits(log: Log, unit: nat): Log
    requires 0 < unit
  {
    seq(|log|, i requires 0 <= i < |log| => log[i].(time := Quot(log[i].time, unit)))
  }

  lemma InUnitsAppend(log: Log, t: Trade, unit: nat)
    requires 0 < unit
    ensures InUnits(log + [t], unit) == InUnits(log, unit) + [t.(time := Quot(t.time, unit))]
  {
  }

  lemma InUnitsChronological(log: Log, unit: nat)
    requires 0 < unit && Chronological(log)
    ensures Chronological(InUnits(log, unit))
  {
    forall i, j | 0 <= i < j < |log|
      ensures InUnits(log, unit)[i].time <= InUnits(log, unit)[j].time
    {
      DivMono(log[i].time, log[j].time, unit);
    }
  }

  /** One bucket of trades. */
  datatype TradingVolume = TradingVolume(
    fromTime: nat,
    rateLow: U32,
    rateHigh: U32,
    left: U128,
    right: U128,
    outputNormalized: U128
  )

  function SatDouble(a: nat): U128 {
    SatAdd(a, a)
  }

  /** `TradingVolume::new`. */
  function Opened(t: Trade): TradingVolume {
    TradingVolume(t.time, t.rate, t.rate, t.left, t.right, if t.outputIsLeft then t.left else SatDouble(t.right))
  }

  /** `TradingVolume::add_volume`; the normalized output restarts from the right-hand total. */
  function Added(b: TradingVolume, t: Trade): TradingVolume {
    var right := SatAdd(b.right, t.right);
    TradingVolume(b.fromTime, SetIfLess(b.rateLow, t.rate), SetIfGreater(b.rateHigh, t.rate),
                  SatAdd(b.left, t.left), right,
                  SatAdd(right, if t.outputIsLeft then t.left else SatDouble(t.right)))
  }

  // ---- Buckets ----

  function Last<T>(s: seq<T>): T
    requires s != []
  {
    s[|s| - 1]
  }

  function Init<T>(s: seq<T>): seq<T>
    requires s != []
  {
    s[..|s| - 1]
  }

  /** Records a trade, merging it into the latest bucket when that is not older. */
  function Push(buckets: seq<TradingVolume>, t: Trade): (r: seq<TradingVolume>)
    ensures r != []
  {
    if buckets == [] || Last(buckets).fromTime < t.time then buckets + [Opened(t)]
    else Init(buckets) + [Added(Last(buckets), t)]
  }

  function Trim<T>(s: seq<T>, cap: nat): seq<T> {
    if |s| > cap then s[1..] else s
  }

  /** Every bucket the log ever had. */
  function Full(log: Log): seq<TradingVolume>
  {
    if log == [] then [] else Push(Full(Init(log)), Last(log))
  }

  /** The buckets a deque limited to `cap` still holds. */
  function Retained(log: Log, cap: nat): seq<TradingVolume>
  {
    if log == [] then [] else Trim(Push(Retained(Init(log), cap), Last(log)), cap)
  }

  function Suffix<T>(s: seq<T>, cap: nat): seq<T> {
    if |s| > cap then s[|s| - cap..] else s
  }

  lemma TrimAppend<T>(all: seq<T>, x: T, cap: nat)
    requires 0 < cap
    ensures Trim(Suffix(all, cap) + [x], cap) == Suffix(all + [x], cap)
  {
  }

  lemma TrimReplace<T>(all: seq<T>, x: T, cap: nat)
    requires 0 < cap && all != []
    ensures Suffix(all, cap) != [] && Last(Suffix(all, cap)) == Last(all)
    ensures Trim(Init(Suffix(all, cap)) + [x], cap) == Suffix(Init(all) + [x], cap)
  {
  }

  lemma PushOntoSuffix(all: seq<TradingVolume>, t: Trade, cap: nat)
    requires 0 < cap
    ensures Trim(Push(Suffix(all, cap), t), cap) == Suffix(Push(all, t), cap)
  {
    TrimAppend(all, Opened(t), cap);
    if all != [] {
      TrimReplace(all, Added(Last(all), t), cap);
    }
  }

  /** Trimming after each trade keeps exactly the newest `cap` buckets. */
  lemma {:induction false} RetainedIsSuffix(log: Log, cap: nat)
    requires 0 < cap
    ensures Retained(log, cap) == Suffix(Full(log), cap)
  {
    if log != [] {
      RetainedIsSuffix(Init(log), cap);
      PushOntoSuffix(Full(Init(log)), Last(log), cap);
    }
  }

  ghost predicate Chronological(log: Log) {
    forall i, j :: 0 <= i < j < |log| ==> log[i].time <= log[j].time
  }

  ghost predicate StrictlyIncreasing(buckets: seq<TradingVolume>) {
    forall i, j :: 0 <= i < j < |buckets| ==> buckets[i].fromTime < buckets[j].fromTime
  }

  lemma ChronologicalInit(log: Log)
    requires Chronological(log) && log != []
    ensures Chronological(Init(log))
    ensures Init(log) != [] ==> Last(Init(log)).time <= Last(log).time
  {
  }

  /** For chronological logs each bucket covers its own unit of time and the last one is current. */
  lemma {:induction false} FullIsIncreasing(log: Log)
    requires Chronological(log)
    ensures StrictlyIncreasing(Full(log))
    ensures log == [] <==> Full(log) == []
    ensures log != [] ==> Last(Full(log)).fromTime == Last(log).time
  {
    if log != [] {
      ChronologicalInit(log);
      FullIsIncreasing(Init(log));
      PushIsIncreasing(Full(Init(log)), Last(log));
    }
  }

  lemma PushIsIncreasing(full: seq<TradingVolume>, t: Trade)
    requires StrictlyIncreasing(full)
    requires full != [] ==> Last(full).fromTime <= t.time
    ensures StrictlyIncreasing(Push(full, t)) && Last(Push(full, t)).fromTime == t.time
  {
  }

  // ---- Aggregates ----

  /** Totals, lowest and highest rate and first bucket time of some trades. */
  datatype Stats = Stats(left: U128, right: U128, low: U32, high: U32, first: Option<nat>)

  /** Of no trades: the rates start at the far ends of the order. */
  const NO_TRADES: Stats := Stats(0, 0, MAX_RATIO, MIN_RATIO, None)

  function Earliest(a: Option<nat>, b: Option<nat>): Option<nat> {
    if a.None? then b else if b.None? || a.value <= b.value then a else b
  }

  function Merge(a: Stats, b: Stats): Stats {
    Stats(SatAdd(a.left, b.left), SatAdd(a.right, b.right), SetIfLess(a.low, b.low), SetIfGreater(a.high, b.high),
          Earliest(a.first, b.first))
  }

  function OfTrade(t: Trade): Stats
  {
    Stats(t.left, t.right, t.rate, t.rate, Some(t.time))
  }

  function OfBucket(b: TradingVolume): Stats {
    Stats(b.left, b.right, b.rateLow, b.rateHigh, Some(b.fromTime))
  }

  /** The aggregate of all logged trades whose bucket lies in [from, to). */
  function LogStats(log: Log, from: int, to: int): Stats
  {
    if log == [] then NO_TRADES else
      var rest := LogStats(Init(log), from, to);
      if from <= Last(log).time < to then Merge(rest, OfTrade(Last(log))) else rest
  }

  /** The aggregate of the buckets in [from, to). */
  function BucketStats(buckets: seq<TradingVolume>, from: int, to: int): Stats {
    if buckets == [] then NO_TRADES else
      var rest := BucketStats(Init(buckets), from, to);
      if from <= Last(buckets).fromTime < to then Merge(rest, OfBucket(Last(buckets))) else rest
  }

  lemma MergeLaws(a: Stats, b: Stats, c: Stats)
    ensures Merge(a, NO_TRADES) == a == Merge(NO_TRADES, a)
    ensures Merge(a, b) == Merge(b, a)
    ensures Merge(Merge(a, b), c) == Merge(a, Merge(b, c))
  {
    RateLaws(a.low, b.low, c.low);
    RateLaws(a.high, b.high, c.high);
  }

  lemma RateLaws(e: U32, f: U32, g: U32)
    ensures SetIfLess(e, MAX_RATIO) == e == SetIfLess(MAX_RATIO, e)
    ensures SetIfGreater(e, MIN_RATIO) == e == SetIfGreater(MIN_RATIO, e)
    ensures SetIfLess(e, f) == SetIfLess(f, e) && SetIfGreater(e, f) == SetIfGreater(f, e)
    ensures SetIfLess(SetIfLess(e, f), g) == SetIfLess(e, SetIfLess(f, g))
    ensures SetIfGreater(SetIfGreater(e, f), g) == SetIfGreater(e, SetIfGreater(f, g))
  {
  }

  lemma MergeIntoBucket(b: TradingVolume, t: Trade)
    requires b.fromTime <= t.time
    ensures OfBucket(Added(b, t)) == Merge(OfBucket(b), OfTrade(t))
  {
  }

  /** Pushing a trade that is not older than the last bucket adds it to every window it lies in. */
  lemma PushStats(full: seq<TradingVolume>, t: Trade, from: int, to: int)
    requires full != [] ==> Last(full).fromTime <= t.time
    ensures BucketStats(Push(full, t), from, to)
         == if from <= t.time < to then Merge(BucketStats(full, from, to), OfTrade(t))
            else BucketStats(full, from, to)
  {
    var pushed := Push(full, t);
    if full == [] || Last(full).fromTime < t.time {
      assert Init(pushed) == full;
    } else {
      assert Init(pushed) == Init(full);
      MergeIntoBucket(Last(full), t);
      MergeLaws(BucketStats(Init(full), from, to), OfBucket(Last(full)), OfTrade(t));
    }
  }

  /** Bucketing loses nothing a window can see: the buckets' aggregate is the log's, for every window. */
  lemma {:induction false} BucketsMatchLog(log: Log, from: int, to: int)
    requires Chronological(log)
    ensures BucketStats(Full(log), from, to) == LogStats(log, from, to)
  {
    if log != [] {
      ChronologicalInit(log);
      BucketsMatchLog(Init(log), from, to);
      FullIsIncreasing(Init(log));
      PushStats(Full(Init(log)), Last(log), from, to);
    }
  }

  /** Buckets older than the window do not matter, wherever the deque was cut. */
  lemma {:induction false} DropOld(buckets: seq<TradingVolume>, k: nat, from: int, to: int)
    requires k <= |buckets|
    requires forall i :: 0 <= i < k ==> buckets[i].fromTime < from
    ensures BucketStats(buckets[k..], from, to) == BucketStats(buckets, from, to)
  {
    if k == |buckets| && k > 0 {
      DropOld(Init(buckets), k - 1, from, to);
      assert Init(buckets)[k - 1..] == [];
    } else if buckets != [] {
      DropOld(Init(buckets), k, from, to);
      assert Init(buckets[k..]) == Init(buckets)[k..];
    }
  }

  /** Buckets can equally be taken in from the front. */
  lemma {:induction false} TakeFront(b: TradingVolume, rest: seq<TradingVolume>, from: int, to: int)
    ensures BucketStats([b] + rest, from, to)
         == if from <= b.fromTime < to then Merge(BucketStats(rest, from, to), OfBucket(b))
            else BucketStats(rest, from, to)
  {
    var all := [b] + rest;
    if rest == [] {
      assert Init(all) == [];
      MergeLaws(NO_TRADES, OfBucket(b), NO_TRADES);
    } else {
      assert Init(all) == [b] + Init(rest);
      TakeFront(b, Init(rest), from, to);
      MergeLaws(BucketStats(Init(rest), from, to), OfBucket(b), OfBucket(Last(rest)));
      MergeLaws(BucketStats(Init(rest), from, to), OfBucket(Last(rest)), OfBucket(b));
      MergeLaws(OfBucket(b), OfBucket(Last(rest)), NO_TRADES);
    }
  }

  lemma SuffixShape(full: seq<TradingVolume>, kept: seq<TradingVolume>, cap: nat)
    requires StrictlyIncreasing(full) && 0 < cap && kept == Suffix(full, cap)
    ensures StrictlyIncreasing(kept) && |kept| <= cap
    ensures kept == [] <==> full == []
    ensures full != [] ==> Last(kept) == Last(full)
  {
  }

  /** The deque is never longer than its limit, its buckets strictly increase, and the last is current. */
  lemma RetainedShape(log: Log, cap: nat)
    requires Chronological(log) && 0 < cap
    ensures StrictlyIncreasing(Retained(log, cap)) && |Retained(log, cap)| <= cap
    ensures log == [] <==> Retained(log, cap) == []
    ensures log != [] ==> Last(Retained(log, cap)).fromTime == Last(log).time
  {
    RetainedIsSuffix(log, cap);
    FullIsIncreasing(log);
    SuffixShape(Full(log), Retained(log, cap), cap);
  }

  /** Starting a window before its first bucket makes no difference. */
  lemma {:induction false} StartAtFirst(buckets: seq<TradingVolume>, first: nat, from: int, to: int)
    requires forall i :: 0 <= i < |buckets| ==> first <= buckets[i].fromTime
    ensures BucketStats(buckets, from, to) == BucketStats(buckets, Max(from, first), to)
  {
    if buckets != [] {
      assert first <= Last(buckets).fromTime;
      StartAtFirst(Init(buckets), first, from, to);
    }
  }

  lemma SuffixSees(full: seq<TradingVolume>, kept: seq<TradingVolume>, cap: nat, from: int, to: int)
    requires StrictlyIncreasing(full) && 0 < cap && kept == Suffix(full, cap) && kept != []
    ensures BucketStats(kept, from, to) == BucketStats(full, Max(from, kept[0].fromTime), to)
  {
    var first, k := kept[0].fromTime, |full| - |kept|;
    assert kept == full[k..] && full[k] == kept[0];
    StartAtFirst(kept, first, from, to);
    DropOld(full, k, Max(from, first), to);
  }

  /**
   Over any window whatever, the retained deque gives the log's aggregate from its oldest bucket on: what
   has been evicted is missing, and nothing else.
   */
  lemma RetainedSees(log: Log, kept: seq<TradingVolume>, cap: nat, from: int, to: int)
    requires Chronological(log) && 0 < cap && kept == Retained(log, cap) && kept != []
    ensures BucketStats(kept, from, to) == LogStats(log, Max(from, kept[0].fromTime), to)
  {
    RetainedIsSuffix(log, cap);
    FullIsIncreasing(log);
    SuffixSees(Full(log), kept, cap, from, to);
    BucketsMatchLog(log, Max(from, kept[0].fromTime), to);
  }

  lemma SuffixSeesWindow(full: seq<TradingVolume>, kept: seq<TradingVolume>, cap: nat, now: nat, span: nat)
    requires StrictlyIncreasing(full) && 0 < span < cap && kept == Suffix(full, cap)
    requires full != [] ==> Last(full).fromTime <= now
    ensures BucketStats(kept, now - span, now) == BucketStats(full, now - span, now)
  {
    if |full| > cap {
      var k := |full| - cap;
      forall i | 0 <= i < k
        ensures full[i].fromTime < now - span
      {
        Spread(full, i, |full| - 1);
      }
      DropOld(full, k, now - span, now);
    }
  }

  /**
   The retained deque answers every window that reaches back fewer units than it has buckets, as long
   as the query is not made before the last trade: merging and eviction are invisible.
   */
  lemma RetainedMatchesLog(log: Log, kept: seq<TradingVolume>, cap: nat, now: nat, span: nat)
    requires Chronological(log) && 0 < span < cap && kept == Retained(log, cap)
    requires log != [] ==> Last(log).time <= now
    ensures BucketStats(kept, now - span, now) == LogStats(log, now - span, now)
  {
    RetainedIsSuffix(log, cap);
    SuffixMatchesLog(log, kept, Full(log), cap, now, span);
  }

  lemma SuffixMatchesLog(log: Log, kept: seq<TradingVolume>, full: seq<TradingVolume>, cap: nat, now: nat, span: nat)
    requires Chronological(log) && 0 < span < cap && full == Full(log) && kept == Suffix(full, cap)
    requires log != [] ==> Last(log).time <= now
    ensures BucketStats(kept, now - span, now) == LogStats(log, now - span, now)
  {
    var from := now - span;
    FullIsIncreasing(log);
    SuffixSeesWindow(full, kept, cap, now, span);
    assert BucketStats(kept, from, now) == BucketStats(full, from, now);
    BucketsMatchLog(log, from, now);
  }

  /** Strictly increasing times are at least as far apart as their positions. */
  lemma {:induction false} Spread(buckets: seq<TradingVolume>, i: nat, j: nat)
    requires StrictlyIncreasing(buckets) && i <= j < |buckets|
    ensures buckets[i].fromTime + (j - i) <= buckets[j].fromTime
    decreases j
  {
    if i < j {
      Spread(buckets, i, j - 1);
    }
  }

  // ---- What the aggregate of a log says ----

  predicate Inside(t: Trade, from: int, to: int) {
    from <= t.time < to
  }

  /** The plain, unsaturated sums over the window. */
  function SumLeft(log: Log, from: int, to: int): nat {
    if log == [] then 0 else
      SumLeft(Init(log), from, to) + if Inside(Last(log), from, to) then Last(log).left else 0
  }

  function SumRight(log: Log, from: int, to: int): nat {
    if log == [] then 0 else
      SumRight(Init(log), from, to) + if Inside(Last(log), from, to) then Last(log).right else 0
  }

  /** Saturating step by step only cuts the true sums off at 128 bits. */
  lemma {:induction false} LogTotals(log: Log, from: int, to: int)
    ensures LogStats(log, from, to).left == Min(SumLeft(log, from, to), U128_MAX)
    ensures LogStats(log, from, to).right == Min(SumRight(log, from, to), U128_MAX)
  {
    if log != [] {
      LogTotals(Init(log), from, to);
    }
  }

  /** Low, high and first time bound every trade in the window. */
  lemma {:induction false} LogBounds(log: Log, from: int, to: int, i: nat)
    requires i < |log| && Inside(log[i], from, to)
    ensures var s := LogStats(log, from, to);
            && Cmp(s.low, log[i].rate) != Greater
            && Cmp(log[i].rate, s.high) != Greater
            && s.first.Some? && s.first.value <= log[i].time
  {
    var r, last := LogStats(Init(log), from, to), Last(log);
    if i < |log| - 1 {
      LogBounds(Init(log), from, to, i);
    }
    CmpLaws(r.low, last.rate, log[i].rate);
    CmpLaws(r.high, last.rate, log[i].rate);
  }

  lemma CmpLaws(e: U32, f: U32, g: U32)
    ensures Cmp(e, g) != Greater || Cmp(f, g) != Greater ==> Cmp(SetIfLess(e, f), g) != Greater
    ensures Cmp(g, e) != Greater || Cmp(g, f) != Greater ==> Cmp(g, SetIfGreater(e, f)) != Greater
    ensures Cmp(e, e) == Equal
  {
  }

  /** Each bound is attained by a trade in the window, so it is the minimum or the maximum. */
  lemma {:induction false} LogAttained(log: Log, from: int, to: int) returns (low: nat, high: nat, first: nat)
    requires LogStats(log, from, to).first.Some?
    ensures low < |log| && Inside(log[low], from, to) && LogStats(log, from, to).low == log[low].rate
    ensures high < |log| && Inside(log[high], from, to) && LogStats(log, from, to).high == log[high].rate
    ensures first < |log| && Inside(log[first], from, to) && LogStats(log, from, to).first == Some(log[first].time)
  {
    var n, last := |log| - 1, Last(log);
    var r := LogStats(Init(log), from, to);
    if r.first.Some? {
      low, high, first := LogAttained(Init(log), from, to);
      if Inside(last, from, to) {
        low := if SetIfLess(r.low, last.rate) == r.low then low else n;
        high := if SetIfGreater(r.high, last.rate) == r.high then high else n;
        first := if r.first.value <= last.time then first else n;
      }
    } else {
      NoneInside(Init(log), from, to);
      MergeLaws(OfTrade(last), NO_TRADES, NO_TRADES);
      low, high, first := n, n, n;
    }
  }

  lemma {:induction false} NoneInside(log: Log, from: int, to: int)
    requires LogStats(log, from, to).first.None?
    ensures LogStats(log, from, to) == NO_TRADES
  {
    if log != [] {
      NoneInside(Init(log), from, to);
    }
  }
}

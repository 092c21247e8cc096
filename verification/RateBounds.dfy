/** The average rate of a window, or of a single bucket, against the low and high stored for it. */
module RateBounds {
  import opened Arith
  import opened ExchangeRatios
  import opened RatioOrder
  import opened VolumeSpec

  /** If every trade in the window is dearer than right:left, so is their sum (the mediant inequality). */
  lemma {:induction false} AllDearer(log: Log, from: int, to: int, left: nat, right: nat)
    requires forall i :: 0 <= i < |log| && Inside(log[i], from, to) ==> right * log[i].left < left * log[i].right
    ensures right * SumLeft(log, from, to) <= left * SumRight(log, from, to)
    ensures LogStats(log, from, to).first.Some? ==> right * SumLeft(log, from, to) < left * SumRight(log, from, to)
  {
    if log != [] {
      AllDearer(Init(log), from, to, left, right);
      Distribute(SumLeft(Init(log), from, to), Last(log).left, right);
      Distribute(SumRight(Init(log), from, to), Last(log).right, left);
    }
  }

  lemma {:induction false} AllCheaper(log: Log, from: int, to: int, left: nat, right: nat)
    requires forall i :: 0 <= i < |log| && Inside(log[i], from, to) ==> left * log[i].right < right * log[i].left
    ensures left * SumRight(log, from, to) <= right * SumLeft(log, from, to)
    ensures LogStats(log, from, to).first.Some? ==> left * SumRight(log, from, to) < right * SumLeft(log, from, to)
  {
    if log != [] {
      AllCheaper(Init(log), from, to, left, right);
      Distribute(SumLeft(Init(log), from, to), Last(log).left, right);
      Distribute(SumRight(Init(log), from, to), Last(log).right, left);
    }
  }

  /** Some trade is at most as dear as the whole window... */
  lemma FindCheap(log: Log, from: int, to: int, left: nat, right: nat) returns (cheap: nat)
    requires LogStats(log, from, to).first.Some?
    requires left == SumLeft(log, from, to) && right == SumRight(log, from, to)
    ensures cheap < |log| && Inside(log[cheap], from, to)
    ensures log[cheap].right * left <= right * log[cheap].left
  {
    if forall i :: 0 <= i < |log| && Inside(log[i], from, to) ==> right * log[i].left < left * log[i].right {
      AllDearer(log, from, to, left, right);
      assert false;
    }
    cheap :| 0 <= cheap < |log| && Inside(log[cheap], from, to)
             && left * log[cheap].right <= right * log[cheap].left;
  }

  /** ...and some trade at least. */
  lemma FindDear(log: Log, from: int, to: int, left: nat, right: nat) returns (dear: nat)
    requires LogStats(log, from, to).first.Some?
    requires left == SumLeft(log, from, to) && right == SumRight(log, from, to)
    ensures dear < |log| && Inside(log[dear], from, to)
    ensures right * log[dear].left <= log[dear].right * left
  {
    if forall i :: 0 <= i < |log| && Inside(log[i], from, to) ==> left * log[i].right < right * log[i].left {
      AllCheaper(log, from, to, left, right);
      assert false;
    }
    dear :| 0 <= dear < |log| && Inside(log[dear], from, to)
            && right * log[dear].left <= left * log[dear].right;
  }

  lemma {:induction false} PartsOfSum(log: Log, from: int, to: int, i: nat)
    requires i < |log| && Inside(log[i], from, to)
    ensures log[i].left <= SumLeft(log, from, to) && log[i].right <= SumRight(log, from, to)
  {
    if i < |log| - 1 {
      PartsOfSum(Init(log), from, to, i);
    }
  }

  /** What one trade adds to the normalized output: its left amount, or twice its right. */
  function Normalized(t: Trade): nat {
    if t.outputIsLeft then t.left else Min(2 * t.right, U128_MAX)
  }

  /**
   A bucket's normalized output is not the sum of its trades': from the second trade on it is the right-hand
   total so far and what the last trade adds.
   */
  lemma NormalizedRestarts(log: Log)
    requires log != []
    ensures var last := log[|log| - 1];
            BucketOf(log).outputNormalized
            == if |log| == 1 then Normalized(last) else Min(BucketOf(log).right + Normalized(last), U128_MAX)
  {
    if |log| == 1 {
      assert Init(log) == [];
    }
  }

  lemma CmpTransitive(e: U32, f: U32, g: U32)
    requires Cmp(e, f) != Greater && Cmp(f, g) != Greater
    ensures Cmp(e, g) != Greater
  {
    CmpIsTotalOrder(e, f);
    CmpIsTotalOrder(f, g);
    CmpIsTotalOrder(e, g);
  }

  /**
   Over any window whose sums fit 128 bits, with the smaller sum below 2^97, the encoded average rate
   is at least the low as soon as no trade was exactly 1:1, and at most the high as soon as the average
   itself is not.
   */
  lemma AverageWithinBounds(log: Log, from: int, to: int)
    requires Genuine(log) && LogStats(log, from, to).first.Some?
    requires forall i :: 0 <= i < |log| && Inside(log[i], from, to) ==> 0 < log[i].left + log[i].right
    requires SumLeft(log, from, to) <= U128_MAX && SumRight(log, from, to) <= U128_MAX
    requires Min(SumRight(log, from, to), SumLeft(log, from, to)) < TWO_97
    ensures var s := LogStats(log, from, to);
            var average := Encode(s.right, s.left);
            && ((forall i :: 0 <= i < |log| && Inside(log[i], from, to) ==> log[i].left != log[i].right) ==>
                 Cmp(s.low, average) != Greater)
            && (s.left != s.right ==> Cmp(average, s.high) != Greater)
  {
    LogTotals(log, from, to);
    LowBelowAverage(log, from, to, SumLeft(log, from, to), SumRight(log, from, to));
    HighAboveAverage(log, from, to, SumLeft(log, from, to), SumRight(log, from, to));
  }

  lemma LowBelowAverage(log: Log, from: int, to: int, left: U128, right: U128)
    requires Genuine(log) && LogStats(log, from, to).first.Some?
    requires left == SumLeft(log, from, to) && right == SumRight(log, from, to) && Min(right, left) < TWO_97
    requires forall i :: 0 <= i < |log| && Inside(log[i], from, to) ==> 0 < log[i].left + log[i].right
    ensures (forall i :: 0 <= i < |log| && Inside(log[i], from, to) ==> log[i].left != log[i].right) ==>
              Cmp(LogStats(log, from, to).low, Encode(right, left)) != Greater
  {
    var cheap := FindCheap(log, from, to, left, right);
    PartsOfSum(log, from, to, cheap);
    LogBounds(log, from, to, cheap);
    ExactlyMonotone(log[cheap].right, log[cheap].left, right, left);
    if log[cheap].right != log[cheap].left {
      CmpTransitive(LogStats(log, from, to).low, log[cheap].rate, Encode(right, left));
    }
  }

  lemma HighAboveAverage(log: Log, from: int, to: int, left: U128, right: U128)
    requires Genuine(log) && LogStats(log, from, to).first.Some?
    requires left == SumLeft(log, from, to) && right == SumRight(log, from, to) && Min(right, left) < TWO_97
    requires forall i :: 0 <= i < |log| && Inside(log[i], from, to) ==> 0 < log[i].left + log[i].right
    ensures left != right ==> Cmp(Encode(right, left), LogStats(log, from, to).high) != Greater
  {
    var dear := FindDear(log, from, to, left, right);
    PartsOfSum(log, from, to, dear);
    LogBounds(log, from, to, dear);
    ExactlyMonotone(right, left, log[dear].right, log[dear].left);
    if right != left {
      CmpTransitive(Encode(right, left), log[dear].rate, LogStats(log, from, to).high);
    }
  }

  // ---- A single bucket ----

  /** The bucket a run of trades is merged into; the all-time record is one of these. */
  function BucketOf(log: Log): TradingVolume
    requires log != []
  {
    if |log| == 1 then Opened(log[0]) else Added(BucketOf(Init(log)), Last(log))
  }

  /** A bucket is the aggregate of its trades over any window holding them all. */
  lemma {:induction false} BucketIsWindow(log: Log, from: int, to: int)
    requires log != [] && Chronological(log)
    requires forall i :: 0 <= i < |log| ==> Inside(log[i], from, to)
    ensures OfBucket(BucketOf(log)) == LogStats(log, from, to)
    ensures BucketOf(log).fromTime == log[0].time
  {
    if |log| == 1 {
      assert Init(log) == [];
      MergeLaws(OfTrade(log[0]), NO_TRADES, NO_TRADES);
    } else {
      BucketIsWindow(Init(log), from, to);
      MergeIntoBucket(BucketOf(Init(log)), Last(log));
    }
  }

  /** Hence every unsaturated bucket's average lies between its own low and high. */
  lemma BucketAverageWithinBounds(log: Log, from: int, to: int)
    requires log != [] && Chronological(log) && Genuine(log)
    requires forall i :: 0 <= i < |log| ==>
               Inside(log[i], from, to) && 0 < log[i].left + log[i].right && log[i].left != log[i].right
    requires SumLeft(log, from, to) <= U128_MAX && SumRight(log, from, to) <= U128_MAX
    requires Min(SumRight(log, from, to), SumLeft(log, from, to)) < TWO_97
    ensures var b := BucketOf(log);
            var average := Encode(b.right, b.left);
            && Cmp(b.rateLow, average) != Greater
            && (b.left != b.right ==> Cmp(average, b.rateHigh) != Greater)
  {
    BucketIsWindow(log, from, to);
    AverageWithinBounds(log, from, to);
  }
}

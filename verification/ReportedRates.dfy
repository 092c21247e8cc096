/**
 The decimals a client sees: low and high are converted from their encodings, the average is divided anew.
 Encodings below 1:1 round down and those above round up, so the average can leave the reported range.
 */
module ReportedRates {
  import opened Arith
  import opened Results
  import opened ExchangeRatios
  import opened RatioOrder
  import opened VolumeSpec
  import opened VolumeCounter
  import opened RateBounds
  import FixedPoint

  /** A decimal is at most an average exactly when it is so before the average is rounded down. */
  lemma AverageAtLeast(rate: nat, left: nat, right: nat)
    requires rate <= U128_MAX
    ensures rate <= AverageRate(left, right) <==> left == 0 || rate * left <= right * FixedPoint.ONE
  {
    if 0 < left {
      DivGe(right * FixedPoint.ONE, left, rate);
    }
  }

  lemma AveragesInOrder(n: nat, d: nat, m: nat, e: nat)
    requires 0 < n + d && 0 < m + e && n * e <= m * d
    ensures AverageRate(d, n) <= AverageRate(e, m)
  {
    if 0 < d && 0 < e {
      DivRatioMono(n, d, m, e, FixedPoint.ONE);
    } else if d == 0 && 0 < e {
      MulStrict(0, n, e);
    }
  }

  lemma DecimalOf(e: U32)
    ensures Decimals(e) == DecimalAt(Rank(e)) && 0 <= DecimalAt(Rank(e)) <= U128_MAX
  {
    ToDecimalIsTotal(e);
    if Rank(e) < U32_SPAN - 1 {
      DecimalStrict(Rank(e), U32_SPAN - 1);
    }
    if 0 < Rank(e) {
      DecimalStrict(0, Rank(e));
    }
  }

  lemma DecimalsInOrder(r: nat, s: nat)
    requires r <= s < U32_SPAN
    ensures DecimalAt(r) <= DecimalAt(s)
  {
    if r < s {
      DecimalStrict(r, s);
    }
  }

  // ---- One rate ----

  lemma CrossAtMost(x: nat, p: nat, y: nat, q: nat, u: nat, v: nat)
    requires 0 < u && x * u <= y * v && v * p <= u * q
    ensures x * p <= y * q
  {
    MulMono(x * u, y * v, p);
    MulMono(v * p, u * q, y);
    Assoc(x, u, p);
    Assoc(y, v, p);
    Assoc(y, u, q);
    MulCancel(x * p, y * q, u);
  }

  /** Below 1:1, with q = floor(n * 2^31 / d): the exact decimal lies from the one of q up to the one of q + 1. */
  lemma AtLeastBelow(n: nat, d: nat, q: nat)
    requires n < d && q == n * HIGH_BIT / d < HIGH_BIT
    ensures DecimalAt(q) <= AverageRate(d, n)
  {
    var low := q * FixedPoint.ONE / HIGH_BIT;
    DivBounds(n * HIGH_BIT, d);
    DivBounds(q * FixedPoint.ONE, HIGH_BIT);
    CrossAtMost(low, d, FixedPoint.ONE, n, HIGH_BIT, q);
    AverageAtLeast(low, d, n);
  }

  lemma AtMostBelow(n: nat, d: nat, q: nat, average: nat)
    requires n < d && q == n * HIGH_BIT / d < HIGH_BIT && average == AverageRate(d, n)
    ensures average <= DecimalAt(q + 1) && average <= FixedPoint.ONE
  {
    var one := FixedPoint.ONE;
    AverageAtLeast(average, d, n);
    MulMono(n, d, one);
    MulCancel(average, one, d);
    if q + 1 < HIGH_BIT {
      DivBounds(n * HIGH_BIT, d);
      Distribute(q, 1, d);
      CrossAtMost(average, HIGH_BIT, one, q + 1, d, n);
      DivGe((q + 1) * one, HIGH_BIT, average);
    } else {
      DivGe(HIGH_BIT * one, HIGH_BIT - 1, one);
    }
  }

  lemma BelowOne(n: nat, d: nat)
    requires IsExact(n, d) && n < d
    ensures var r := Rank(Encode(n, d));
            r < HIGH_BIT && DecimalAt(r) <= AverageRate(d, n) <= DecimalAt(r + 1)
    ensures AverageRate(d, n) <= FixedPoint.ONE
  {
    var q := n * HIGH_BIT / d;
    ExactRank(n, d);
    AtLeastBelow(n, d, q);
    AtMostBelow(n, d, q, AverageRate(d, n));
  }

  /** Above it, with q = floor(d * 2^31 / n): from the one of q + 1 up to the one of q. */
  lemma AtMostAbove(n: nat, d: nat, q: nat, average: nat)
    requires d < n && q == d * HIGH_BIT / n < HIGH_BIT && average == AverageRate(d, n)
    ensures average <= DecimalAt(U32_SPAN - 1 - q)
  {
    if 0 < q {
      DivBounds(d * HIGH_BIT, n);
      if d == 0 {
        DivModIs(0, n, 0, 0);
      }
      AverageAtLeast(average, d, n);
      CrossAtMost(average, q, FixedPoint.ONE, HIGH_BIT, d, n);
      DivGe(HIGH_BIT * FixedPoint.ONE, q, average);
    }
  }

  lemma AtLeastAbove(n: nat, d: nat, q: nat)
    requires d < n && q == d * HIGH_BIT / n < HIGH_BIT
    ensures DecimalAt(U32_SPAN - 2 - q) <= AverageRate(d, n)
    ensures FixedPoint.ONE <= AverageRate(d, n)
  {
    var one := FixedPoint.ONE;
    AverageAtLeast(one, d, n);
    MulMono(d, n, one);
    if q + 1 < HIGH_BIT {
      var below := HIGH_BIT * one / (q + 1);
      DivBounds(HIGH_BIT * one, q + 1);
      DivBounds(d * HIGH_BIT, n);
      Distribute(q, 1, n);
      CrossAtMost(below, d, one, n, q + 1, HIGH_BIT);
      DecimalsInOrder(U32_SPAN - 2 - q, U32_SPAN - 1);
      AverageAtLeast(below, d, n);
    } else {
      DivLt((HIGH_BIT - 1) * one, HIGH_BIT, one);
    }
  }

  lemma AboveOne(n: nat, d: nat)
    requires IsExact(n, d) && d < n
    ensures var r := Rank(Encode(n, d));
            r >= HIGH_BIT && AverageRate(d, n) <= DecimalAt(r) && DecimalAt(r - 1) <= AverageRate(d, n)
    ensures FixedPoint.ONE <= AverageRate(d, n)
  {
    var q := d * HIGH_BIT / n;
    ExactRank(n, d);
    AtMostAbove(n, d, q, AverageRate(d, n));
    AtLeastAbove(n, d, q);
  }

  // ---- A window ----

  /** The trades of the window are exactly encoded and their sums fit. */
  ghost predicate Plain(log: Log, from: int, to: int) {
    && Genuine(log) && LogStats(log, from, to).first.Some?
    && (forall i :: 0 <= i < |log| && Inside(log[i], from, to) ==> IsExact(log[i].right, log[i].left))
    && SumLeft(log, from, to) <= U128_MAX && SumRight(log, from, to) <= U128_MAX
  }

  lemma RankBounds(log: Log, from: int, to: int, i: nat)
    requires i < |log| && Inside(log[i], from, to)
    ensures var s := LogStats(log, from, to); Rank(s.low) <= Rank(log[i].rate) <= Rank(s.high)
  {
    var s := LogStats(log, from, to);
    LogBounds(log, from, to, i);
    CmpIsTotalOrder(s.low, log[i].rate);
    CmpIsTotalOrder(log[i].rate, s.high);
  }

  /** The reported low is at most the decimal of any trade of the window, the high at least. */
  lemma ReportedBounds(log: Log, from: int, to: int, i: nat)
    requires i < |log| && Inside(log[i], from, to)
    ensures var s := LogStats(log, from, to); Decimals(s.low) <= Decimals(log[i].rate) <= Decimals(s.high)
  {
    var s := LogStats(log, from, to);
    RankBounds(log, from, to, i);
    DecimalOf(s.low);
    DecimalOf(s.high);
    DecimalOf(log[i].rate);
    DecimalsInOrder(Rank(s.low), Rank(log[i].rate));
    DecimalsInOrder(Rank(log[i].rate), Rank(s.high));
  }

  /** Some trade of the window is at most as dear as the average, and on the same side of 1:1 as any one below it... */
  lemma CheapTrade(log: Log, from: int, to: int) returns (cheap: nat)
    requires Plain(log, from, to)
    ensures cheap < |log| && Inside(log[cheap], from, to)
    ensures var s := LogStats(log, from, to);
            && AverageRate(log[cheap].left, log[cheap].right) <= AverageRate(s.left, s.right)
            && (log[cheap].left <= log[cheap].right ==> s.left <= s.right && 0 < s.right)
  {
    var left, right := SumLeft(log, from, to), SumRight(log, from, to);
    LogTotals(log, from, to);
    cheap := FindCheap(log, from, to, left, right);
    var c := log[cheap];
    PartsOfSum(log, from, to, cheap);
    AveragesInOrder(c.right, c.left, right, left);
    if c.left <= c.right {
      SideOf(c.right, c.left, right, left);
    }
  }

  /** ...and some at least, likewise. */
  lemma DearTrade(log: Log, from: int, to: int) returns (dear: nat)
    requires Plain(log, from, to)
    ensures dear < |log| && Inside(log[dear], from, to)
    ensures var s := LogStats(log, from, to);
            && AverageRate(s.left, s.right) <= AverageRate(log[dear].left, log[dear].right)
            && (log[dear].right < log[dear].left ==> s.right <= s.left && 0 < s.left)
  {
    var left, right := SumLeft(log, from, to), SumRight(log, from, to);
    LogTotals(log, from, to);
    dear := FindDear(log, from, to, left, right);
    var c := log[dear];
    PartsOfSum(log, from, to, dear);
    AveragesInOrder(right, left, c.right, c.left);
    if c.right < c.left {
      SideBelow(c.right, c.left, right, left);
    }
  }

  /** What is at least n:d, and n:d at or above 1:1, is at or above 1:1. */
  lemma SideOf(n: nat, d: nat, m: nat, e: nat)
    requires d <= n && 0 < n && n * e <= m * d
    ensures e <= m
  {
    MulMono(d, n, m);
    MulCancel(e, m, n);
  }

  lemma SideBelow(n: nat, d: nat, m: nat, e: nat)
    requires n <= d && 0 < d && m * d <= n * e
    ensures m <= e
  {
    MulMono(n, d, e);
    MulCancel(m, e, d);
  }

  lemma AcrossOne(n: nat, d: nat, m: nat, e: nat)
    requires n <= d && e <= m && 0 < d && 0 < m
    ensures AverageRate(d, n) <= AverageRate(e, m)
  {
    MulMono(n, d, e);
    MulMono(e, m, d);
    AveragesInOrder(n, d, m, e);
  }

  /** The low is at most the average as soon as some trade was below 1:1. */
  lemma LowIsBelowAverage(log: Log, from: int, to: int, t: nat)
    requires Plain(log, from, to)
    requires t < |log| && Inside(log[t], from, to) && log[t].right < log[t].left
    ensures var s := LogStats(log, from, to); Decimals(s.low) <= AverageRate(s.left, s.right)
  {
    var s := LogStats(log, from, to);
    var cheap := CheapTrade(log, from, to);
    if log[cheap].right < log[cheap].left {
      LowFrom(log, from, to, cheap);
    } else {
      AcrossOne(log[t].right, log[t].left, s.right, s.left);
      LowFrom(log, from, to, t);
    }
  }

  lemma LowFrom(log: Log, from: int, to: int, i: nat)
    requires Plain(log, from, to) && i < |log| && Inside(log[i], from, to) && log[i].right < log[i].left
    ensures Decimals(LogStats(log, from, to).low) <= AverageRate(log[i].left, log[i].right)
  {
    ReportedBounds(log, from, to, i);
    BelowOne(log[i].right, log[i].left);
    DecimalOf(log[i].rate);
  }

  /** The average is at most the high as soon as some trade was at or above 1:1. */
  lemma HighIsAboveAverage(log: Log, from: int, to: int, t: nat)
    requires Plain(log, from, to)
    requires t < |log| && Inside(log[t], from, to) && log[t].left <= log[t].right
    ensures var s := LogStats(log, from, to); AverageRate(s.left, s.right) <= Decimals(s.high)
  {
    var s := LogStats(log, from, to);
    var dear := DearTrade(log, from, to);
    if log[dear].left <= log[dear].right {
      HighFrom(log, from, to, dear);
    } else {
      AcrossOne(s.right, s.left, log[t].right, log[t].left);
      HighFrom(log, from, to, t);
    }
  }

  lemma HighFrom(log: Log, from: int, to: int, i: nat)
    requires Plain(log, from, to) && i < |log| && Inside(log[i], from, to) && log[i].left <= log[i].right
    ensures AverageRate(log[i].left, log[i].right) <= Decimals(LogStats(log, from, to).high)
  {
    ReportedBounds(log, from, to, i);
    DecimalOf(log[i].rate);
    if log[i].left < log[i].right {
      AboveOne(log[i].right, log[i].left);
    } else {
      ExactRank(log[i].right, log[i].left);
    }
  }

  /** Otherwise too the average is never more than one encoding outside the reported range, 1:1 aside. */
  lemma AverageWithinOneStep(log: Log, from: int, to: int)
    requires Plain(log, from, to)
    requires forall i :: 0 <= i < |log| && Inside(log[i], from, to) ==> log[i].left != log[i].right
    ensures var s := LogStats(log, from, to);
            && (0 < Rank(s.low) ==> DecimalAt(Rank(s.low) - 1) <= AverageRate(s.left, s.right))
            && (Rank(s.high) < Rank(MAX_RATIO) ==> AverageRate(s.left, s.right) <= DecimalAt(Rank(s.high) + 1))
  {
    LowWithinOneStep(log, from, to, LogStats(log, from, to));
    HighWithinOneStep(log, from, to, LogStats(log, from, to));
  }

  predicate OffOne(t: Trade) {
    t.left != t.right && IsExact(t.right, t.left) && t.rate == Encode(t.right, t.left)
  }

  lemma LowWithinOneStep(log: Log, from: int, to: int, s: Stats)
    requires Plain(log, from, to) && s == LogStats(log, from, to)
    requires forall i :: 0 <= i < |log| && Inside(log[i], from, to) ==> log[i].left != log[i].right
    ensures 0 < Rank(s.low) ==> DecimalAt(Rank(s.low) - 1) <= AverageRate(s.left, s.right)
  {
    var cheap := CheapTrade(log, from, to);
    RankBounds(log, from, to, cheap);
    LowStep(log[cheap], s.low, AverageRate(s.left, s.right));
  }

  lemma LowStep(t: Trade, low: U32, average: nat)
    requires OffOne(t) && Rank(low) <= Rank(t.rate) && AverageRate(t.left, t.right) <= average
    ensures 0 < Rank(low) ==> DecimalAt(Rank(low) - 1) <= average
  {
    if 0 < Rank(low) {
      StepBelow(t.right, t.left, Rank(low));
    }
  }

  lemma HighWithinOneStep(log: Log, from: int, to: int, s: Stats)
    requires Plain(log, from, to) && s == LogStats(log, from, to)
    requires forall i :: 0 <= i < |log| && Inside(log[i], from, to) ==> log[i].left != log[i].right
    ensures Rank(s.high) < Rank(MAX_RATIO) ==> AverageRate(s.left, s.right) <= DecimalAt(Rank(s.high) + 1)
  {
    var dear := DearTrade(log, from, to);
    RankBounds(log, from, to, dear);
    HighStep(log[dear], s.high, AverageRate(s.left, s.right));
  }

  lemma HighStep(t: Trade, high: U32, average: nat)
    requires OffOne(t) && Rank(t.rate) <= Rank(high) && average <= AverageRate(t.left, t.right)
    ensures Rank(high) < Rank(MAX_RATIO) ==> average <= DecimalAt(Rank(high) + 1)
  {
    if Rank(high) < Rank(MAX_RATIO) {
      StepAbove(t.right, t.left, Rank(high));
    }
  }

  lemma StepBelow(n: nat, d: nat, rank: nat)
    requires IsExact(n, d) && n != d && 0 < rank <= Rank(Encode(n, d)) < U32_SPAN
    ensures DecimalAt(rank - 1) <= AverageRate(d, n)
  {
    var r := Rank(Encode(n, d));
    DecimalsInOrder(rank - 1, r - 1);
    if n < d {
      BelowOne(n, d);
      DecimalsInOrder(r - 1, r);
    } else {
      AboveOne(n, d);
    }
  }

  lemma StepAbove(n: nat, d: nat, rank: nat)
    requires IsExact(n, d) && n != d && 0 <= Rank(Encode(n, d)) <= rank < U32_SPAN - 1
    ensures AverageRate(d, n) <= DecimalAt(rank + 1)
  {
    var r := Rank(Encode(n, d));
    DecimalsInOrder(r + 1, rank + 1);
    if n < d {
      BelowOne(n, d);
    } else {
      AboveOne(n, d);
      DecimalsInOrder(r, r + 1);
    }
  }

  // ---- The responses ----

  /** The raw decimal of right over left, rounded down; the largest one if it does not fit or left is nothing. */
  predicate IsAverage(avg: nat, left: nat, right: nat) {
    var scaled, span := right * 1_000_000_000_000_000_000, 0x1_0000_0000_0000_0000_0000_0000_0000_0000;
    if 0 < left && scaled < left * span then avg * left <= scaled < (avg + 1) * left else avg == span - 1
  }

  lemma AverageIs(left: nat, right: nat)
    ensures IsAverage(AverageRate(left, right), left, right)
  {
    if 0 < left {
      DivBounds(right * FixedPoint.ONE, left);
      DivLt(right * FixedPoint.ONE, left, U128_MAX + 1);
      Distribute(right * FixedPoint.ONE / left, 1, left);
    }
  }

  /** The raw decimal of an encoding: of e / 2^31 below the high bit, of 2^31 over the rest above it. */
  lemma DecimalValue(e: U32)
    ensures ToDecimal(e).Some?
    ensures var d, v := ToDecimal(e).value, e - 0x8000_0000;
            if v < 0 then d * 0x8000_0000 <= e * 1_000_000_000_000_000_000 < (d + 1) * 0x8000_0000
            else if v == 0 then d == 0xFFFF_FFFF_FFFF_FFFF_FFFF_FFFF_FFFF_FFFF
            else d * v <= 0x8000_0000 * 1_000_000_000_000_000_000 < (d + 1) * v
  {
    ToDecimalIsTotal(e);
    if e < HIGH_BIT {
      DivBounds(e * FixedPoint.ONE, HIGH_BIT);
    } else if HIGH_BIT < e {
      DivBounds(HIGH_BIT * FixedPoint.ONE, e - HIGH_BIT);
      Distribute(HIGH_BIT * FixedPoint.ONE / (e - HIGH_BIT), 1, e - HIGH_BIT);
    }
  }

  /**
   What a rate query answers for a window with trades: as low the least and as high the greatest decimal of any
   trade's rate, each of them some trade's, and as average that of the window's totals, cut off at 128 bits.
   */
  lemma RatesAnswered(log: Log, from: int, to: int, fromMs: nat, toMs: nat) returns (low: nat, high: nat)
    requires LogStats(log, from, to).first.Some?
    ensures var r := RatesOf(LogStats(log, from, to), fromMs, toMs);
            && low < |log| && Inside(log[low], from, to) && ToDecimal(log[low].rate) == Some(r.low)
            && high < |log| && Inside(log[high], from, to) && ToDecimal(log[high].rate) == Some(r.high)
            && (forall i :: 0 <= i < |log| && Inside(log[i], from, to) ==>
                  ToDecimal(log[i].rate).Some? && r.low <= ToDecimal(log[i].rate).value <= r.high)
            && IsAverage(r.avg, Min(SumLeft(log, from, to), U128_MAX), Min(SumRight(log, from, to), U128_MAX))
            && r.fromMs == fromMs && r.toMs == toMs
  {
    var first;
    low, high, first := LogAttained(log, from, to);
    LogTotals(log, from, to);
    AverageIs(LogStats(log, from, to).left, LogStats(log, from, to).right);
    DecimalAnswered(log[low].rate);
    DecimalAnswered(log[high].rate);
    forall i | 0 <= i < |log| && Inside(log[i], from, to)
      ensures ToDecimal(log[i].rate).Some?
      ensures Decimals(LogStats(log, from, to).low) <= ToDecimal(log[i].rate).value
                                                    <= Decimals(LogStats(log, from, to).high)
    {
      DecimalAnswered(log[i].rate);
      ReportedBounds(log, from, to, i);
    }
  }

  lemma DecimalAnswered(e: U32)
    ensures ToDecimal(e) == Some(Decimals(e))
  {
    ToDecimalIsTotal(e);
  }

  /** With no trade on record all three are the average of the balances that stand in. */
  lemma FallbackAnswered(left: nat, right: nat, fromMs: nat, toMs: nat)
    ensures var r := FallbackRates(left, right, fromMs, toMs);
            && IsAverage(r.avg, left, right) && r.low == r.avg && r.high == r.avg
            && r.fromMs == fromMs && r.toMs == toMs
  {
    AverageIs(left, right);
  }

  // ---- Both ends can be passed ----

  lemma ThreeToOne()
    ensures Decimals(Encode(3, 1)) > AverageRate(1, 3) && Decimals(Encode(1, 3)) < AverageRate(3, 1)
  {
    assert 1 * HIGH_BIT / 3 == 715_827_882;
    ExactRank(3, 1);
    ExactRank(1, 3);
    DecimalOf(Encode(3, 1));
    DecimalOf(Encode(1, 3));
  }

  lemma OneTrade(t: Trade)
    ensures LogStats([t], t.time, t.time + 1) == OfTrade(t)
  {
    assert Init([t]) == [];
    MergeLaws(OfTrade(t), NO_TRADES, NO_TRADES);
  }

  /** One trade at 3:1 alone: the reported low is above the average. */
  lemma LowCanBeAboveAverage(time: nat)
    ensures var s := LogStats([TradeOf(time, 1, 3, false)], time, time + 1);
            AverageRate(s.left, s.right) < Decimals(s.low)
  {
    OneTrade(TradeOf(time, 1, 3, false));
    ThreeToOne();
  }

  /** One trade at 1:3 alone: the reported high is below it. */
  lemma HighCanBeBelowAverage(time: nat)
    ensures var s := LogStats([TradeOf(time, 3, 1, false)], time, time + 1);
            Decimals(s.high) < AverageRate(s.left, s.right)
  {
    OneTrade(TradeOf(time, 3, 1, false));
    ThreeToOne();
  }
}

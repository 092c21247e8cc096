/**
 The 32-bit encoding of an exchange ratio (pool-pair/src/state.rs).  Ratios up to 1:1 are stored as
 floor(ratio * 2^31); larger ones store their inverse with the high bit set.
 */
module ExchangeRatios {
  import opened Arith

  const HIGH_BIT: nat := 0x8000_0000
  const U32_SPAN: nat := 0x1_0000_0000

  type U32 = n: nat | n < U32_SPAN

  /** Operands from here on overflow 128 bits when multiplied by 2^31. */
  const TWO_97: nat := 0x2_0000_0000_0000_0000_0000_0000
  const TWO_128: nat := U128_MAX + 1

  /** The least and greatest encodings for the order below. */
  const MIN_RATIO: U32 := 0
  const MAX_RATIO: U32 := HIGH_BIT

  predicate IsU128(n: nat) {
    n <= U128_MAX
  }

  function Pow2(k: nat): (p: nat)
    ensures 0 < p
  {
    if k == 0 then 1 else 2 * Pow2(k - 1)
  }

  lemma {:induction false} Pow2Add(j: nat, k: nat)
    ensures Pow2(j + k) == Pow2(j) * Pow2(k)
  {
    if j > 0 {
      Pow2Add(j - 1, k);
      assert Pow2(j) * Pow2(k) == 2 * (Pow2(j - 1) * Pow2(k));
    }
  }

  lemma Pow2Of31()
    ensures Pow2(31) == HIGH_BIT && Pow2(30) == HIGH_BIT / 2
  {
    assert Pow2(6) == 0x40;
    assert Pow2(12) == 0x1000;
    assert Pow2(18) == 0x4_0000;
    assert Pow2(24) == 0x100_0000;
    assert Pow2(30) == 0x4000_0000;
  }

  function ILog2(v: nat): (k: nat)
    requires 0 < v
    ensures Pow2(k) <= v < Pow2(k + 1)
  {
    if v == 1 then 0 else 1 + ILog2(v / 2)
  }

  lemma {:induction false} Pow2Mono(j: nat, k: nat)
    requires j <= k
    ensures Pow2(j) <= Pow2(k)
    decreases k
  {
    if j < k {
      Pow2Mono(j, k - 1);
    }
  }

  // ---- Rotations of a word of `span` values, by the positions the bits end up in ----

  function RotateLeft(x: nat, p: nat, span: nat): nat
    requires 0 < span
  {
    var shifted: nat := x * p;
    shifted % span + shifted / span
  }

  function RotateRight(x: nat, p: nat, span: nat): nat
    requires 0 < p
  {
    Quot(x, p) + (x % p) * Quot(span, p)
  }

  function SetHighBit(v: nat): nat {
    if v < HIGH_BIT then v + HIGH_BIT else v
  }

  // ---- What the encoding is, arithmetically ----

  /** How many low bits of both operands are given up so that n * 2^31 fits. */
  function Shift(n: nat): (s: nat)
    ensures IsU128(n) ==> s <= 31
    ensures n < TWO_97 ==> s == 0
    ensures TWO_97 <= n ==> 0 < s && Pow2(s - 1) <= n / TWO_97 < Pow2(s)
  {
    if n / TWO_97 == 0 then 0 else
      var s := ILog2(n / TWO_97) + 1;
      assert IsU128(n) ==> s <= 31 by {
        Pow2Of31();
        if IsU128(n) && 31 < s {
          Pow2Mono(31, s - 1);
        }
      }
      s
  }

  /** The numerator times what the shift leaves of 2^31. */
  function Scaled(n: nat, s: nat): nat
    requires s <= 31
  {
    n * Pow2(31 - s)
  }

  /** The quotient after giving up `s` bits; a denominator that vanishes stands for infinity. */
  function EncodeWith(n: nat, d: nat, s: nat): nat
    requires s <= 31
  {
    var c := Quot(d, Pow2(s));
    if c == 0 then HIGH_BIT else Quot(Scaled(n, s), c)
  }

  function EncodeBelow(n: nat, d: nat): nat
    requires IsU128(n) && n <= d
  {
    EncodeWith(n, d, Shift(n))
  }

  function Encode(n: U128, d: U128): U32 {
    EncodeIsU32(Min(n, d), Max(n, d));
    if n <= d then EncodeBelow(n, d) else SetHighBit(EncodeBelow(d, n))
  }

  /**
   A word of `half * low` values, multiplied by `half` with a left rotation: the carried-out bits land
   in the low part, and they are the quotient by `low`.
   */
  lemma RotateOut(n: nat, half: nat, low: nat)
    requires 0 < half && 0 < low && n < half * low
    ensures n / low < half
    ensures RotateLeft(n, half, half * low) == (n % low) * half + n / low
    ensures RotateLeft(n, half, half * low) % half == n / low
    ensures n < low ==> RotateLeft(n, half, half * low) == n * half
  {
    var over, rest := n / low, n % low;
    DivLt(n, low, half);
    RotatedWord(n, half, low, over, rest);
    if n < low {
      DivModIs(n, low, 0, n);
    }
  }

  lemma RotatedWord(n: nat, half: nat, low: nat, over: nat, rest: nat)
    requires 0 < half && 0 < low && n == over * low + rest && rest < low && over < half
    ensures RotateLeft(n, half, half * low) == rest * half + over
    ensures (rest * half + over) % half == over
  {
    var word, span := rest * half, half * low;
    MulMono(rest + 1, low, half);
    assert n * half == over * span + word;
    DivModIs(n * half, span, over, word);
    DivModIs(word + over, half, rest, over);
  }

  /** Rotating back by no fewer bits than were carried out undoes them exactly. */
  lemma RotateBack(rest: nat, over: nat, p: nat, m: nat, low: nat)
    requires 0 < p && 0 < m && over < p
    ensures RotateRight(rest * (m * p) + over, p, (m * p) * low) == (over * low + rest) * m
  {
    var r, span, a, b := rest * (m * p) + over, (m * p) * low, rest * m, m * low;
    Assoc(rest, m, p);
    DivModIs(r, p, a, over);
    Assoc(m, p, low);
    DivModIs(span, p, b, 0);
    Assoc(over, low, m);
    assert over * b + a == (over * low + rest) * m;
  }

  lemma ShiftedNumerator(n: nat, s: nat)
    requires s <= 31
    ensures Pow2(31 - s) * Pow2(s) == HIGH_BIT
    ensures Scaled(n, s) * Pow2(s) == n * HIGH_BIT
  {
    Pow2Of31();
    Pow2Add(31 - s, s);
    Assoc(n, Pow2(31 - s), Pow2(s));
  }

  /** The 128-bit instance of the two lemmas above, for the shift the encoding uses. */
  lemma Rotations(n: nat)
    requires IsU128(n)
    ensures var w, s := RotateLeft(n, HIGH_BIT, TWO_128), Shift(n);
            && w % HIGH_BIT == n / TWO_97
            && (s == 0 ==> w == n * HIGH_BIT)
            && (0 < s ==> RotateRight(w, Pow2(s), TWO_128) == Scaled(n, s))
  {
    var s := Shift(n);
    var rest, over := n % TWO_97, n / TWO_97;
    RotateOut(n, HIGH_BIT, TWO_97);
    if 0 < s {
      var p, m := Pow2(s), Pow2(31 - s);
      ShiftedNumerator(n, s);
      RotateBack(rest, over, p, m, TWO_97);
    }
  }

  /** A shift is safe when the denominator survives it with bits to spare. */
  predicate SafeShift(d: nat, s: nat) {
    && s <= 31
    && 0 < Quot(d, Pow2(s))
    && (0 < s ==> (HIGH_BIT + 2) * Pow2(s) <= d)
  }

  /** The denominator never vanishes: whenever bits are dropped both operands are at least 2^97. */
  lemma ShiftIsSafe(n: nat, d: nat)
    requires IsU128(n) && n <= d && 0 < d
    ensures SafeShift(d, Shift(n))
  {
    var s := Shift(n);
    if 0 < s {
      Pow2Of31();
      Pow2Mono(s, 31);
      MulMono(Pow2(s), HIGH_BIT, HIGH_BIT + 2);
      DivGe(d, Pow2(s), 1);
    } else {
      DivModIs(d, 1, d, 0);
    }
  }

  /**
   What a safe shift yields is the exact floor or one more, and it is the floor exactly when the bits
   dropped from the denominator, counted once per unit of the quotient and once more, do not reach the
   next multiple.
   */
  lemma EncodingError(n: nat, d: nat, s: nat)
    requires n <= d && 0 < d && SafeShift(d, s)
    ensures var q, r := n * HIGH_BIT / d, (n * HIGH_BIT) % d;
            && q <= EncodeWith(n, d, s) <= q + 1
            && (EncodeWith(n, d, s) == q <==> (q + 1) * (d % Pow2(s)) < d - r)
  {
    var m, p, full := Scaled(n, s), Pow2(s), n * HIGH_BIT;
    assert m * p == full by {
      ShiftedNumerator(n, s);
    }
    assert full / d <= HIGH_BIT by {
      FullRatio(n, d);
    }
    TrimmedQuotient(m, p, full, d, 0 < s);
  }

  /** The rotate/ilog2/shift code yields the exact floor or one more. */
  lemma EncodingWithinOne(n: nat, d: nat)
    requires IsU128(n) && IsU128(d) && n <= d && 0 < d
    ensures n * HIGH_BIT / d <= EncodeBelow(n, d) <= n * HIGH_BIT / d + 1
    ensures EncodeBelow(n, d) <= HIGH_BIT + 1
  {
    ShiftIsSafe(n, d);
    EncodingError(n, d, Shift(n));
    FullRatio(n, d);
  }

  /** Below 2^97 nothing is dropped and the floor is exact. */
  lemma EncodingExact(n: nat, d: nat)
    requires IsU128(n) && IsU128(d) && n <= d && 0 < d && n < TWO_97
    ensures EncodeBelow(n, d) == n * HIGH_BIT / d
  {
    Pow2Of31();
    assert Pow2(0) == 1;
    DivModIs(d, 1, d, 0);
  }

  lemma FullRatio(n: nat, d: nat)
    requires n <= d && 0 < d
    ensures n * HIGH_BIT / d <= HIGH_BIT
    ensures n < d ==> n * HIGH_BIT / d < HIGH_BIT
  {
    MulMono(n, d, HIGH_BIT);
    DivLt(n * HIGH_BIT, d, HIGH_BIT + 1);
    if n < d {
      MulStrict(n, d, HIGH_BIT);
      DivLt(n * HIGH_BIT, d, HIGH_BIT);
    }
  }

  /** Dividing by `d` after both operands lost the factor `p`, the numerator exactly and `d` by rounding. */
  lemma ShiftedQuotient(m: nat, c: nat, p: nat, d: nat, q: nat, r: nat, lost: nat, dropped: bool)
    requires 0 < c && 0 < p && r < d && m * p == q * d + r && d == c * p + lost && lost < p
    requires q <= HIGH_BIT
    requires dropped ==> (HIGH_BIT + 2) * p <= d
    requires !dropped ==> p == 1
    ensures q <= m / c <= q + 1
    ensures m / c == q <==> (q + 1) * lost < d - r
  {
    QuotientOfShifted(m, c, p, d, q, r, lost);
    if dropped {
      MulMono(q + 2, HIGH_BIT + 2, p);
      OneMoreAtMost(m, c, p, d, q, r, lost);
    } else {
      DivModIs(m, c, q, r);
    }
  }

  lemma TrimmedQuotient(m: nat, p: nat, full: nat, d: nat, dropped: bool)
    requires 0 < p && 0 < d && 0 < Quot(d, p) && m * p == full
    requires full / d <= HIGH_BIT
    requires dropped ==> (HIGH_BIT + 2) * p <= d
    requires !dropped ==> p == 1
    ensures full / d <= Quot(m, Quot(d, p)) <= full / d + 1
    ensures Quot(m, Quot(d, p)) == full / d <==> (full / d + 1) * (d % p) < d - full % d
  {
    DivMod(full, d);
    DivMod(d, p);
    ShiftedQuotient(m, Quot(d, p), p, d, full / d, full % d, d % p, dropped);
  }

  lemma TimesShifted(k: nat, c: nat, p: nat, lost: nat, d: nat)
    requires d == c * p + lost
    ensures k * d == (k * c) * p + k * lost
  {
    Assoc(k, c, p);
  }

  lemma ScaleIff(x: nat, y: nat, p: nat)
    requires 0 < p
    ensures x <= y <==> x * p <= y * p
  {
    if x <= y {
      MulMono(x, y, p);
    } else {
      MulStrict(y, x, p);
    }
  }

  /** A quotient by the rounded denominator, compared in the scale of the full one. */
  lemma QuotientAtLeast(m: nat, c: nat, p: nat, d: nat, lost: nat, k: nat)
    requires 0 < c && 0 < p && d == c * p + lost
    ensures k <= m / c <==> k * d - k * lost <= m * p
  {
    DivGe(m, c, k);
    ScaleIff(k * c, m, p);
    TimesShifted(k, c, p, lost, d);
  }

  lemma QuotientOfShifted(m: nat, c: nat, p: nat, d: nat, q: nat, r: nat, lost: nat)
    requires 0 < c && 0 < p && r < d && m * p == q * d + r && d == c * p + lost && lost < p
    ensures q <= m / c
    ensures q + 1 <= m / c <==> d - r <= (q + 1) * lost
  {
    QuotientAtLeast(m, c, p, d, lost, q);
    QuotientAtLeast(m, c, p, d, lost, q + 1);
    Distribute(q, 1, d);
  }

  lemma OneMoreAtMost(m: nat, c: nat, p: nat, d: nat, q: nat, r: nat, lost: nat)
    requires 0 < c && 0 < p && r < d && m * p == q * d + r && d == c * p + lost && lost < p
    requires (q + 2) * p <= d
    ensures m / c <= q + 1
  {
    QuotientAtLeast(m, c, p, d, lost, q + 2);
    MulMono(lost, p, q + 2);
    Distribute(q, 2, d);
  }

  /** The error is real: two different 128-bit amounts can encode as the reserved 2^31 ("infinity"). */
  lemma EncodingCanOvershoot()
    ensures var n, d := U128_MAX - 1, U128_MAX;
            n * HIGH_BIT / d == HIGH_BIT - 1 && EncodeBelow(n, d) == HIGH_BIT
  {
    Pow2Of31();
    var n, d := U128_MAX - 1, U128_MAX;
    assert n / TWO_97 == HIGH_BIT - 1;
    if Shift(n) <= 30 {
      Pow2Mono(Shift(n), 30);
      assert false;
    }
    assert n * HIGH_BIT / d == HIGH_BIT - 1;
    assert EncodeBelow(n, d) == n / (d / HIGH_BIT);
  }

  // ---- The source's loop-free but reassigning implementation ----

  /** `ExchangeRatio::from_ratio`: computes the arithmetic encoding with 128-bit rotations and shifts. */
  method FromRatio(numeratorIn: U128, denominatorIn: U128) returns (encoded: U32)
    ensures encoded == Encode(numeratorIn, denominatorIn)
    decreases numeratorIn > denominatorIn
  {
    var numerator: nat, denominator: nat := numeratorIn, denominatorIn;
    if numerator <= denominator {
      Rotations(numerator);
      EncodeIsU32(numeratorIn, denominatorIn);
      Pow2Of31();
      numerator := RotateLeft(numerator, Pow2(31), TWO_128);
      var numeratorOverflow := numerator % HIGH_BIT;
      if numeratorOverflow > 0 {
        var shiftRight := ILog2(numeratorOverflow) + 1;
        numerator := RotateRight(numerator, Pow2(shiftRight), TWO_128);
        denominator := Quot(denominator, Pow2(shiftRight));
      }
      ghost var s := Shift(numeratorIn);
      assert numerator == Scaled(numeratorIn, s) by {
        ShiftedNumerator(numeratorIn, s);
      }
      assert denominator == Quot(denominatorIn, Pow2(s)) by {
        DivModIs(denominatorIn, 1, denominatorIn, 0);
      }
      if denominator == 0 {
        encoded := HIGH_BIT;
      } else {
        encoded := Quot(numerator, denominator) % U32_SPAN;
      }
      assert encoded == EncodeWith(numeratorIn, denominatorIn, s);
    } else {
      encoded := FromRatio(denominator, numerator);
      encoded := SetHighBit(encoded);
    }
  }

  /** The `as u32` cast never drops a bit. */
  lemma EncodeIsU32(n: nat, d: nat)
    requires IsU128(n) && IsU128(d) && n <= d
    ensures EncodeBelow(n, d) <= HIGH_BIT + 1
  {
    if 0 < d {
      EncodingWithinOne(n, d);
    } else {
      DivModIs(d, Pow2(Shift(n)), 0, 0);
    }
  }
}

/**
Uniswap V3's square-root price at a tick, as the UI computes it: a fixed-point product of twenty constants chosen by
the bits of the tick, inverted for positive ticks and rounded up from 128 to 96 fractional bits.
*/
module TickMath {
  import opened Common
  import Radix

  const MAX_TICK: nat := 887272
  const Q32: nat := 0x1_0000_0000
  const Q64: nat := 0x1_0000_0000_0000_0000
  const Q96: nat := 0x1_0000_0000_0000_0000_0000_0000
  const Q128: nat := 0x1_0000_0000_0000_0000_0000_0000_0000_0000
  const MAX_U256: nat := Q128 * Q128 - 1

  /** The constant for bit `i` of the tick: the inverse square root of 1.0001 to the power of 2^i, in 128 bits. */
  function Factor(i: nat): nat {
    match i
    case 0 => 0xfffcb933bd6fad37aa2d162d1a594001
    case 1 => 0xfff97272373d413259a46990580e213a
    case 2 => 0xfff2e50f5f656932ef12357cf3c7fdcc
    case 3 => 0xffe5caca7e10e4e61c3624eaa0941cd0
    case 4 => 0xffcb9843d60f6159c9db58835c926644
    case 5 => 0xff973b41fa98c081472e6896dfb254c0
    case 6 => 0xff2ea16466c96a3843ec78b326b52861
    case 7 => 0xfe5dee046a99a2a811c461f1969c3053
    case 8 => 0xfcbe86c7900a88aedcffc83b479aa3a4
    case 9 => 0xf987a7253ac413176f2b074cf7815e54
    case 10 => 0xf3392b0822b70005940c7a398e4b70f3
    case 11 => 0xe7159475a2c29b7443b29c7fa6e889d9
    case 12 => 0xd097f3bdfd2022b8845ad8f792aa5825
    case 13 => 0xa9f746462d870fdf8a65dc1f90e061e5
    case 14 => 0x70d869a156d2a1b890bb3df62baf32f7
    case 15 => 0x31be135f97d08fd981231505542fcfa6
    case 16 => 0x9aa508b5b7a84e1c677de54f3e99bc9
    case 17 => 0x5d6af8dedb81196699c329225ee604
    case 18 => 0x2216e584f5fa1ea926041bedfe98
    case _ => 0x48a170391f7dc42444e8fa2
  }

  function Pow2(n: nat): (p: nat)
    ensures p > 0
  {
    if n == 0 then 1 else 2 * Pow2(n - 1)
  }

  predicate Bit(a: nat, i: nat) { a / Pow2(i) % 2 == 1 }

  /** The product of the constants for the low `i` bits of the tick. */
  function RatioBy(factor: nat -> nat, a: nat, i: nat): nat {
    if i == 0 then Q128
    else if Bit(a, i - 1) then RatioBy(factor, a, i - 1) * factor(i - 1) / Q128
    else RatioBy(factor, a, i - 1)
  }

  function Ratio(a: nat, i: nat): nat { RatioBy(Factor, a, i) }

  // ----- the ratio stays between zero and one

  lemma FactorBelowOne(i: nat)
    ensures 0 < Factor(i) < Q128
  {
  }

  /** A bound below every product of the first `i` constants: a little more than the next constant. */
  function Lower(i: nat): int { Factor(i) + Factor(i) / 65536 - 8 * i }

  lemma LowerFalls(i: nat)
    requires i < 19
    ensures Lower(i) * Factor(i) / Q128 >= Lower(i + 1) && Lower(i) >= Lower(i + 1)
  {
  }

  lemma LowerEnds()
    ensures Lower(0) <= Q128 && Lower(19) * Factor(19) / Q128 > 0
  {
  }

  lemma MulDown(r: nat, f: nat)
    requires r <= Q128 && f <= Q128
    ensures r * f / Q128 <= r
  {
    Radix.Scale(r, f, Q128);
  }

  lemma MulMonotone(l: nat, r: nat, f: nat)
    requires l <= r
    ensures l * f / Q128 <= r * f / Q128
  {
    Radix.Scale(f, l, r);
  }

  lemma LowerPositive(i: nat)
    requires i < 20
    ensures Lower(i) > 0
  {
  }

  /** `lower` bounds the products from below, one constant at a time. */
  ghost predicate Bounds(factor: nat -> nat, lower: nat -> nat, n: nat) {
    && lower(0) <= Q128
    && forall i {:trigger lower(i)} | 0 <= i < n ::
         factor(i) <= Q128 && lower(i) * factor(i) / Q128 >= lower(i + 1) && lower(i) >= lower(i + 1)
  }

  lemma {:induction false} RatioAtLeast(factor: nat -> nat, lower: nat -> nat, n: nat, a: nat, i: nat)
    requires Bounds(factor, lower, n) && i <= n
    ensures lower(i) <= RatioBy(factor, a, i) <= Q128
  {
    if i > 0 {
      RatioAtLeast(factor, lower, n, a, i - 1);
      assert lower(i - 1) >= lower(i - 1 + 1);
      MulMonotone(lower(i - 1), RatioBy(factor, a, i - 1), factor(i - 1));
      MulDown(RatioBy(factor, a, i - 1), factor(i - 1));
    }
  }

  /** `Lower` as far as it goes, and then at least one. */
  function LowerOrOne(i: nat): nat { if i < 20 && Lower(i) > 0 then Lower(i) else if i == 20 then 1 else 0 }

  lemma LowerBounds()
    ensures Bounds(Factor, LowerOrOne, 20)
  {
    LowerEnds();
    forall i: nat | i < 20
      ensures Factor(i) <= Q128 && LowerOrOne(i) * Factor(i) / Q128 >= LowerOrOne(i + 1)
      ensures LowerOrOne(i) >= LowerOrOne(i + 1)
    {
      FactorBelowOne(i);
      LowerPositive(i);
      if i < 19 {
        LowerFalls(i);
        LowerPositive(i + 1);
      }
    }
  }

  /** Every intermediate ratio is positive and at most one, in 128 bits. */
  lemma RatioInRange(a: nat, i: nat)
    requires i <= 20
    ensures 0 < Ratio(a, i) <= Q128
  {
    LowerBounds();
    RatioAtLeast(Factor, LowerOrOne, 20, a, i);
    if i < 20 {
      LowerPositive(i);
    }
  }

  lemma FactorSquares(i: nat)
    requires i < 19
    ensures -2 * Q128 <= Factor(i + 1) * Q128 - Factor(i) * Factor(i) <= 2 * Q128
  {
  }

  // ----- the price at a tick

  function Abs(tick: int): nat { if tick < 0 then -tick else tick }

  const TWO32: int := 0x1_0000_0000

  /** JavaScript's `x | 0` of an integer: the number of 32 bits that it is congruent to. */
  function ToInt32(x: int): (r: int)
    ensures -0x8000_0000 <= r < 0x8000_0000 && (x - r) % TWO32 == 0
    ensures -0x8000_0000 <= x < 0x8000_0000 ==> r == x
  {
    var low := x % TWO32;
    if low >= 0x8000_0000 then low - TWO32 else low
  }

  /** From 128 to 96 fractional bits, rounding up. */
  function RoundUp(ratio: nat): nat { ratio / Q32 + if ratio % Q32 != 0 then 1 else 0 }

  /** The price for a tick in range. */
  function SqrtRatio(tick: int): nat {
    var r := Ratio(Abs(tick), 20);
    RatioInRange(Abs(tick), 20);
    RoundUp(if tick > 0 then MAX_U256 / r else r)
  }

  lemma RatioUnfolds(factor: nat -> nat, a: nat, j: nat)
    ensures RatioBy(factor, a, j + 1) ==
            if Bit(a, j) then RatioBy(factor, a, j) * factor(j) / Q128 else RatioBy(factor, a, j)
  {
  }

  lemma BitTest(a: nat, i: nat, p: nat)
    requires p == Pow2(i)
    ensures Bit(a, i) <==> a / p % 2 != 0
  {
  }

  /** The twenty conditional steps. */
  method Multiply(factor: nat -> nat, absTick: nat) returns (ratio: nat)
    ensures ratio == RatioBy(factor, absTick, 20)
  {
    ratio := if absTick % 2 != 0 then factor(0) else Q128;
    FirstBit(factor, absTick);
    var bit := 2;
    for i := 1 to 20
      invariant ratio == RatioBy(factor, absTick, i) && bit == Pow2(i)
    {
      RatioUnfolds(factor, absTick, i);
      BitTest(absTick, i, bit);
      if absTick / bit % 2 != 0 {
        ratio := ratio * factor(i) / Q128;
      }
      bit := 2 * bit;
    }
  }

  function PriceAt(number: int): Option<nat> {
    var tick := ToInt32(number);
    if Abs(tick) > MAX_TICK then None else Some(SqrtRatio(tick))
  }

  /** In range the price is the tick's own; a whole number of 2^32 off, it is the same price. */
  lemma PriceWraps(tick: int, k: int)
    requires Abs(tick) <= MAX_TICK
    ensures PriceAt(tick + k * TWO32) == Some(SqrtRatio(tick))
  {
    WrapsTo(tick, k);
  }

  lemma WrapsTo(tick: int, k: int)
    requires Abs(tick) <= MAX_TICK
    ensures ToInt32(tick + k * TWO32) == tick
  {
    var x := tick + k * TWO32;
    if tick >= 0 {
      assert x % TWO32 == tick;
    } else {
      assert x == (k - 1) * TWO32 + (tick + TWO32);
      assert x % TWO32 == tick + TWO32;
    }
  }

  /** A tick beyond 32 bits is wrapped, not refused; one beyond the range then is. */
  method GetSqrtRatioAtTick(number: int) returns (sqrtP: Option<nat>)
    ensures sqrtP == PriceAt(number)
  {
    var tick := ToInt32(number);
    var absTick := if tick < 0 then -tick else tick;
    if absTick > MAX_TICK {
      return None;
    }
    var ratio := Multiply(Factor, absTick);
    RatioInRange(absTick, 20);
    if tick > 0 {
      ratio := MAX_U256 / ratio;
    }
    var p := ratio / Q32;
    if ratio % Q32 != 0 {
      p := p + 1;
    }
    return Some(p);
  }

  lemma FirstBit(factor: nat -> nat, a: nat)
    ensures Pow2(0) == 1 && Pow2(1) == 2
    ensures RatioBy(factor, a, 1) == if a % 2 != 0 then factor(0) else Q128
  {
    assert Bit(a, 0) <==> a % 2 == 1;
    Cancel(factor(0), Q128);
  }

  lemma Cancel(f: nat, q: nat)
    requires q > 0
    ensures q * f / q == f
  {
    Radix.DivModUnique(f, q, 0);
  }

  // ----- opposite ticks

  lemma RoundedUp(ratio: nat)
    ensures Q32 * RoundUp(ratio) - Q32 < ratio <= Q32 * RoundUp(ratio)
  {
  }

  lemma Square(s: nat, a: nat, b: nat)
    ensures (s * a) * (s * b) == (s * s) * (a * b)
  {
  }

  lemma Rest(r: nat, x: nat, q: nat, y: nat)
    ensures (r + x) * (q + y) == r * q + x * q + y * (r + x)
  {
  }

  lemma Within(s: nat, x: nat, q: nat, b: nat)
    requires x <= s && q <= s * b
    ensures 0 <= x * q <= (s * s) * b
  {
    Radix.Scale(q, x, s);
    Radix.Scale(s, q, s * b);
    Radix.Scale(q, 0, x);
  }

  lemma Expand(s: nat, a: nat, b: nat, x: nat, y: nat, r: nat, q: nat)
    requires r == s * a - x && q == s * b - y && x <= s && y <= s
    ensures (s * s) * (a * b) == r * q + x * q + y * (s * a)
    ensures 0 <= x * q <= (s * s) * b && 0 <= y * (s * a) <= (s * s) * a
  {
    Square(s, a, b);
    Rest(r, x, q, y);
    Within(s, x, q, b);
    Within(s, y, s * a, a);
  }

  lemma Sign(m: nat, k: int)
    requires m > 0
    ensures m * k > 0 - m ==> k >= 0
    ensures m * k < 0 ==> k < 0
  {
    if k < 0 {
      Radix.Scale(m, k, -1);
    } else {
      Radix.Scale(m, 0, k);
    }
  }

  /** Of products near `m` times `w`, the rounded factors' product is near `w`. */
  lemma Near(m: nat, w: nat, t: nat, ab: int, a: nat, b: nat, p: int, u: nat, v: nat)
    requires m > 0 && m * ab == p + u + v && u <= m * b && v <= m * a
    requires m * w - 1 - m * t < p <= m * w - 1
    ensures 0 - t <= ab - w <= a + b
  {
    assert m * (ab - w + t) == m * ab - m * w + m * t;
    assert m * (ab - w - a - b) == m * ab - m * w - m * a - m * b;
    Sign(m, ab - w + t);
    Sign(m, ab - w - a - b);
  }

  lemma DivideNear(n: nat, r: nat)
    requires r > 0
    ensures n - r < r * (n / r) <= n
  {
    Radix.DivMod(n, r);
  }

  lemma Sizes()
    ensures Q32 * Q32 == Q64 && MAX_U256 == Q64 * (Q96 * Q96) - 1 && Q128 == Q64 * Q64
  {
  }

  lemma OppositeRatios(r: nat, q: nat, a: nat, b: nat, s: nat, m: nat, w: nat)
    requires s * s == m && m > 0 && 0 < r <= m * m && q == (m * w - 1) / r && m * w > 0
    requires s * a - s < r <= s * a && s * b - s < q <= s * b
    ensures 0 - m <= a * b - w <= a + b
  {
    DivideNear(m * w - 1, r);
    Expand(s, a, b, s * a - r, s * b - q, r, q);
    Near(m, w, m, a * b, a, b, r * q, (s * a - r) * q, (s * b - q) * (s * a));
  }

  lemma {:induction false} ZeroTick(factor: nat -> nat, i: nat)
    ensures RatioBy(factor, 0, i) == Q128
  {
    if i > 0 {
      ZeroTick(factor, i - 1);
      assert 0 / Pow2(i - 1) == 0;
    }
  }

  /** Two prices whose product is one, in 96 bits each, within what rounding up costs. */
  ghost predicate Inverse(a: nat, b: nat) { 0 - Q64 <= a * b - Q96 * Q96 <= a + b }

  lemma OppositeRounded(r: nat, a: nat, b: nat)
    requires 0 < r <= Q128 && a == RoundUp(r) && b == RoundUp(MAX_U256 / r)
    ensures Inverse(a, b) && Inverse(b, a)
  {
    RoundedUp(r);
    RoundedUp(MAX_U256 / r);
    Sizes();
    OppositeRatios(r, MAX_U256 / r, a, b, Q32, Q64, Q96 * Q96);
  }

  lemma PriceAtZero()
    ensures SqrtRatio(0) == Q96
  {
    ZeroTick(Factor, 20);
  }

  /** Opposite ticks have inverse prices. */
  lemma OppositeTicks(tick: int)
    ensures Inverse(SqrtRatio(tick), SqrtRatio(0 - tick))
  {
    if tick == 0 {
      PriceAtZero();
    } else {
      var t: int := Abs(tick);
      RatioInRange(t, 20);
      OppositeRounded(Ratio(t, 20), SqrtRatio(0 - t), SqrtRatio(t));
    }
  }

  // ----- the price is the power it stands for

  /** Powers of the inverse square root of 1.0001, which the caller supplies as `h`. */
  function RPow(h: real, n: nat): real { if n == 0 then 1.0 else h * RPow(h, n - 1) }

  ghost predicate IsRoot(h: real) { 0.0 < h && h * h * 10001.0 == 10000.0 }

  lemma RScale(b: real, x: real, y: real)
    requires b >= 0.0 && x <= y
    ensures b * x <= b * y
  {
    assert b * (y - x) >= 0.0;
    assert b * (y - x) == b * y - b * x;
  }

  lemma Fraction(b: real, x: real)
    requires 0.0 <= b && 0.0 <= x <= 1.0
    ensures 0.0 <= b * x <= b
  {
    assert b * (1.0 - x) >= 0.0;
    assert b * (1.0 - x) == b - b * x;
  }

  lemma RCancel(q: real, k: real, m: real)
    requires q > 0.0
    ensures q * k <= q * m ==> k <= m
  {
    if k > m {
      assert q * (k - m) > 0.0;
      assert q * (k - m) == q * k - q * m;
    }
  }

  lemma Positive(x: real, y: real)
    requires x > 0.0 && y > 0.0
    ensures x * y > 0.0
  {
  }

  lemma RootOrder(x: real, y: real)
    requires 0.0 <= x && 0.0 <= y
    ensures x * x <= y * y ==> x <= y
  {
    if x > y {
      Positive(x - y, x + y);
      assert (x - y) * (x + y) == x * x - y * y;
    }
  }

  lemma RootBelowOne(h: real)
    requires IsRoot(h)
    ensures h <= 1.0
  {
    RootOrder(h, 1.0);
  }

  lemma {:induction false} RPowUnit(h: real, n: nat)
    requires 0.0 <= h <= 1.0
    ensures 0.0 <= RPow(h, n) <= 1.0
  {
    if n > 0 {
      RPowUnit(h, n - 1);
      Fraction(h, RPow(h, n - 1));
    }
  }

  lemma RAssoc(x: real, y: real, z: real)
    ensures (x * y) * z == x * (y * z)
  {
  }

  lemma {:induction false} RPowAdd(h: real, m: nat, n: nat)
    ensures RPow(h, m + n) == RPow(h, m) * RPow(h, n)
  {
    if m > 0 {
      RPowAdd(h, m - 1, n);
      RAssoc(h, RPow(h, m - 1), RPow(h, n));
    }
  }

  /** A weight between zero and one does not make an error larger. */
  lemma Weighted(w: real, d: real, e: real)
    requires 0.0 <= w <= 1.0 && 0.0 - e <= d <= e
    ensures 0.0 - e <= w * d <= e
  {
    Fraction(e, w);
    assert w * (e - d) >= 0.0 && w * (e + d) >= 0.0;
    assert w * (e - d) == e * w - w * d && w * (e + d) == e * w + w * d;
  }

  lemma ErrorProduct(d: real, e: real, f: real, g: real)
    requires 0.0 - f <= d <= f && 0.0 - g <= e <= g
    ensures 0.0 - f * g <= d * e <= f * g
  {
    assert (f - d) * (g + e) >= 0.0 && (f + d) * (g - e) >= 0.0;
    assert (f - d) * (g - e) >= 0.0 && (f + d) * (g + e) >= 0.0;
    assert (f - d) * (g + e) + (f + d) * (g - e) == 2.0 * (f * g) - 2.0 * (d * e);
    assert (f - d) * (g - e) + (f + d) * (g + e) == 2.0 * (f * g) + 2.0 * (d * e);
  }

  /** `c` is `q` times `x`, up to an error of `e`. */
  ghost predicate Close(q: real, c: real, x: real, e: real) { 0.0 - e <= c - q * x <= e }

  lemma Quotient(q: real, a: real, w: real)
    requires q > 0.0 && q * w == a
    ensures a / q == w
  {
  }

  lemma Over(q: real, a: real)
    requires q > 0.0
    ensures q * (a / q) == a
  {
  }

  lemma Sums(q: real, a: real, b: real, c: real)
    ensures q * (a + b + c) == q * a + q * b + q * c
  {
  }

  lemma ProductExpands(q: real, x: real, y: real, d: real, e: real)
    ensures (q * x + e) * (q * y + d) == q * (q * (x * y)) + q * (x * d + y * e) + e * d
  {
    var u, v := q * x, q * y;
    Sums(q, x * d, y * e, 0.0);
    assert (u + e) * (v + d) == u * v + u * d + e * v + e * d;
    assert u * v == q * (q * (x * y)) by { RAssoc(q, x, v); RAssoc(x, q, y); RAssoc(q, x, y); }
    assert u * d == q * (x * d) by { RAssoc(q, x, d); }
    assert e * v == q * (y * e) by { RAssoc(q, y, e); }
  }

  /** The product of two approximations, in units of `q`: the exact product and three error terms. */
  lemma ProductOver(q: real, x: real, y: real, d: real, e: real)
    requires q > 0.0
    ensures (q * x + e) * (q * y + d) / q == q * (x * y) + (x * d + y * e) + e * d / q
  {
    var a, b, c := q * (x * y), x * d + y * e, e * d / q;
    ProductExpands(q, x, y, d, e);
    Over(q, e * d);
    Sums(q, a, b, c);
    Quotient(q, (q * x + e) * (q * y + d), a + b + c);
  }

  lemma OverOne(q: real, a: real)
    requires q > 0.0 && 0.0 - q <= a <= q
    ensures -1.0 <= a / q <= 1.0
  {
    Over(q, a);
    RCancel(q, a / q, 1.0);
    RCancel(q, -1.0, a / q);
  }

  lemma ErrorTerms(q: real, x: real, y: real, dc: real, er: real, d: real, e: real)
    requires q > 0.0 && e * d <= q
    requires 0.0 <= x <= 1.0 && 0.0 <= y <= 1.0 && 0.0 - d <= dc <= d && 0.0 - e <= er <= e
    ensures 0.0 - (e + d) <= x * dc + y * er <= e + d
    ensures -1.0 <= er * dc / q <= 1.0
  {
    Weighted(x, dc, d);
    Weighted(y, er, e);
    ErrorProduct(er, dc, e, d);
    OverOne(q, er * dc);
  }

  lemma Assemble(v: real, z: real, linear: real, small: real, bound: real)
    requires v == z + linear + small && 0.0 - bound <= linear <= bound && -1.0 <= small <= 1.0
    ensures 0.0 - (bound + 1.0) <= v - z <= bound + 1.0
  {
  }

  lemma CloseTerms(q: real, x: real, y: real, dc: real, er: real, e: real, d: real, v: real)
    requires q > 0.0 && 0.0 <= x <= 1.0 && 0.0 <= y <= 1.0 && e * d <= q
    requires 0.0 - d <= dc <= d && 0.0 - e <= er <= e && v == (q * x + er) * (q * y + dc) / q
    ensures Close(q, v, x * y, e + d + 1.0)
  {
    ProductOver(q, x, y, dc, er);
    ErrorTerms(q, x, y, dc, er, d, e);
    Assemble(v, q * (x * y), x * dc + y * er, er * dc / q, e + d);
  }

  lemma SameProduct(r: real, c: real, r': real, c': real, q: real)
    requires r == r' && c == c' && q > 0.0
    ensures r * c / q == r' * c' / q
  {
  }

  /** Multiplying approximations of numbers up to one adds their errors, and one unit. */
  lemma CloseProduct(q: real, x: real, y: real, r: real, c: real, e: real, d: real, v: real)
    requires q > 0.0 && 0.0 <= x <= 1.0 && 0.0 <= y <= 1.0 && Close(q, r, x, e) && Close(q, c, y, d) && e * d <= q
    requires v == r * c / q
    ensures Close(q, v, x * y, e + d + 1.0)
  {
    SameProduct(r, c, q * x + (r - q * x), q * y + (c - q * y), q);
    CloseTerms(q, x, y, c - q * y, r - q * x, e, d, v);
  }

  lemma CastProduct(a: int, b: int)
    ensures (a * b) as real == a as real * b as real
  {
  }

  lemma CastRange(a: int, b: int, k: int)
    requires 0 - k <= b - a <= k
    ensures 0.0 - k as real <= b as real - a as real <= k as real
  {
  }

  /** An integer within `k` of a quotient, multiplied out. */
  lemma NearQuotient(a: int, p: int, q: nat, k: int, v: real)
    requires q > 0 && 0 - k * q <= p * q - a <= k * q && v == a as real / q as real
    ensures 0.0 - k as real <= p as real - v <= k as real
  {
    CastRange(a, p * q, k * q);
    CastProduct(p, q);
    CastProduct(k, q);
    Over(q as real, a as real);
    NearBy(q as real, p as real, v, k as real);
  }

  lemma NearBy(q: real, p: real, v: real, k: real)
    requires q > 0.0 && 0.0 - k * q <= p * q - q * v <= k * q
    ensures 0.0 - k <= p - v <= k
  {
    assert q * (p - v) == p * q - q * v && q * (0.0 - k) == 0.0 - k * q && q * k == k * q;
    RCancel(q, p - v, k);
    RCancel(q, 0.0 - k, p - v);
  }

  lemma CloseBy(q: real, v: real, p: real, x: real, e: real, k: real)
    requires Close(q, v, x, e) && 0.0 - k <= p - v <= k
    ensures Close(q, p, x, e + k)
  {
  }

  // ----- the constants

  /** The error of the constant for bit `i`, in units of the last place. */
  function FactorError(i: nat): real { 4.0 * Pow2(i) as real - 3.0 }

  lemma FirstClose(q: real, h: real)
    requires IsRoot(h) && q == Q128 as real
    ensures Close(q, Factor(0) as real, h, 1.0)
  {
    var c := Factor(0) as real;
    var z := q * h;
    assert z * z == (q * q) * (h * h);
    assert (q * q) * (h * h * 10001.0) == (q * q) * 10000.0;
    assert 10001.0 * ((c - 1.0) * (c - 1.0)) <= 10000.0 * (q * q) <= 10001.0 * ((c + 1.0) * (c + 1.0));
    RootOrder(c - 1.0, z);
    RootOrder(z, c + 1.0);
  }

  lemma SmallErrors(e: real, d: real, q: real)
    requires 0.0 <= e <= 4194304.0 && 0.0 <= d <= 4194304.0 && q == Q128 as real
    ensures e * d <= q
  {
    RScale(e, d, 4194304.0);
    RScale(4194304.0, e, 4194304.0);
  }

  lemma {:induction false} Pow2Grows(i: nat, j: nat)
    requires i <= j
    ensures Pow2(i) <= Pow2(j)
    decreases j
  {
    if i < j {
      Pow2Grows(i, j - 1);
    }
  }

  lemma ErrorRange(i: nat)
    requires i < 20
    ensures 0.0 <= FactorError(i) <= 4194304.0
  {
    Pow2Grows(i, 20);
    assert Pow2(5) == 32 && Pow2(10) == 32 * Pow2(5) && Pow2(15) == 32 * Pow2(10) && Pow2(20) == 32 * Pow2(15);
  }

  lemma Squared(q: nat, c: nat, c': nat, y: real, e: real)
    requires q == Q128 && 0.0 <= y <= 1.0 && 0.0 <= e <= 4194304.0 && Close(q as real, c as real, y, e)
    requires 0 - 2 * q <= c' * q - c * c <= 2 * q
    ensures Close(q as real, c' as real, y * y, 2.0 * e + 3.0)
  {
    var v := c as real * c as real / q as real;
    SmallErrors(e, e, q as real);
    CloseProduct(q as real, y, y, c as real, c as real, e, e, v);
    CastProduct(c, c);
    NearQuotient(c * c, c', q, 2, v);
    CloseBy(q as real, v, c' as real, y * y, e + e + 1.0, 2.0);
  }

  /** The constant for a bit is the square of the one before it, within two units. */
  ghost predicate Squares(factor: nat -> nat, i: nat) {
    0 - 2 * Q128 <= factor(i + 1) * Q128 - factor(i) * factor(i) <= 2 * Q128
  }

  lemma NextClose(factor: nat -> nat, h: real, i: nat, y: real, e: real)
    requires 0.0 <= h <= 1.0 && y == RPow(h, Pow2(i)) && 0.0 <= e <= 4194304.0 && Squares(factor, i)
    requires Close(Q128 as real, factor(i) as real, y, e)
    ensures Close(Q128 as real, factor(i + 1) as real, RPow(h, Pow2(i + 1)), 2.0 * e + 3.0)
  {
    RPowUnit(h, Pow2(i));
    Squared(Q128, factor(i), factor(i + 1), y, e);
    RPowAdd(h, Pow2(i), Pow2(i));
  }

  lemma {:induction false} PowersClose(factor: nat -> nat, h: real, i: nat)
    requires 0.0 <= h <= 1.0 && i < 20 && Close(Q128 as real, factor(0) as real, h, 1.0)
    requires forall j: nat | j < 19 :: Squares(factor, j)
    ensures Close(Q128 as real, factor(i) as real, RPow(h, Pow2(i)), FactorError(i))
  {
    if i == 0 {
      assert RPow(h, 1) == h * RPow(h, 0);
    } else {
      PowersClose(factor, h, i - 1);
      ErrorRange(i - 1);
      NextClose(factor, h, i - 1, RPow(h, Pow2(i - 1)), FactorError(i - 1));
    }
  }

  /** Each constant is the power of the inverse square root of 1.0001 that it stands for. */
  lemma FactorClose(h: real, i: nat)
    requires IsRoot(h) && i < 20
    ensures Close(Q128 as real, Factor(i) as real, RPow(h, Pow2(i)), FactorError(i))
  {
    RootBelowOne(h);
    FirstClose(Q128 as real, h);
    forall j: nat | j < 19
      ensures Squares(Factor, j)
    {
      FactorSquares(j);
    }
    PowersClose(Factor, h, i);
  }

  // ----- the product over a tick's bits

  lemma ModOf(a: nat, q: nat, k: nat, r: nat)
    requires r < q && a == k * q + r
    ensures a % q == r
  {
    Radix.DivModUnique(k, q, r);
  }

  lemma HalfSum(k: nat, p: nat, r: nat)
    ensures k * 2 * p + r == k * (2 * p) + r
    ensures (k * 2 + 1) * p + r == k * (2 * p) + (p + r)
  {
  }

  lemma HalfBits(a: nat, p: nat)
    requires p > 0
    ensures a % (2 * p) == a % p + if a / p % 2 == 1 then p else 0
  {
    var d, r := a / p, a % p;
    Radix.DivMod(a, p);
    HalfCases(a, p, d, r);
  }

  lemma HalfCases(a: nat, p: nat, d: nat, r: nat)
    requires r < p && a == d * p + r
    ensures a % (2 * p) == r + if d % 2 == 1 then p else 0
  {
    var k := d / 2;
    HalfSum(k, p, r);
    if d % 2 == 1 {
      assert d == k * 2 + 1;
      ModOf(a, 2 * p, k, p + r);
    } else {
      assert d == k * 2;
      ModOf(a, 2 * p, k, r);
    }
  }

  lemma LowBits(a: nat, i: nat)
    ensures a % Pow2(i + 1) == a % Pow2(i) + if Bit(a, i) then Pow2(i) else 0
  {
    HalfBits(a, Pow2(i));
  }

  /** The error of the product over the low `i` bits. */
  function RatioError(i: nat): real { 4.0 * Pow2(i) as real - 4.0 - i as real }

  lemma FloorNear(a: nat, q: nat)
    requires q > 0
    ensures 0 - 1 * q <= a / q * q - a <= 1 * q
  {
    Radix.DivMod(a, q);
  }

  lemma Multiplied(r: nat, c: nat, x: real, y: real, e: real, d: real)
    requires 0.0 <= x <= 1.0 && 0.0 <= y <= 1.0 && 0.0 <= e <= 4194304.0 && 0.0 <= d <= 4194304.0
    requires Close(Q128 as real, r as real, x, e) && Close(Q128 as real, c as real, y, d)
    ensures Close(Q128 as real, (r * c / Q128) as real, x * y, e + d + 2.0)
  {
    var q := Q128 as real;
    var v := r as real * c as real / q;
    SmallErrors(e, d, q);
    CloseProduct(q, x, y, r as real, c as real, e, d, v);
    CastProduct(r, c);
    FloorNear(r * c, Q128);
    NearQuotient(r * c, r * c / Q128, Q128, 1, v);
    CloseBy(q, v, (r * c / Q128) as real, x * y, e + d + 1.0, 1.0);
  }

  lemma RatioErrorRange(i: nat)
    requires i <= 20
    ensures 0.0 <= RatioError(i) <= 4194304.0
    ensures i < 20 ==> RatioError(i + 1) == RatioError(i) + FactorError(i) + 2.0
  {
    Pow2Grows(i, 20);
    Pow2AtLeast(i);
    assert Pow2(5) == 32 && Pow2(10) == 32 * Pow2(5) && Pow2(15) == 32 * Pow2(10) && Pow2(20) == 32 * Pow2(15);
  }

  lemma {:induction false} Pow2AtLeast(i: nat)
    ensures Pow2(i) >= i + 1
  {
    if i > 0 {
      Pow2AtLeast(i - 1);
    }
  }

  lemma Widened(q: real, c: real, x: real, e: real, e': real)
    requires Close(q, c, x, e) && e <= e'
    ensures Close(q, c, x, e')
  {
  }

  lemma PowSum(h: real, m: nat, n: nat, x: real, y: real)
    requires 0.0 <= h <= 1.0 && x == RPow(h, m) && y == RPow(h, n)
    ensures 0.0 <= x <= 1.0 && 0.0 <= y <= 1.0 && RPow(h, m + n) == x * y
  {
    RPowUnit(h, m);
    RPowUnit(h, n);
    RPowAdd(h, m, n);
  }

  lemma RenamedClose(q: real, c: real, x: real, x': real, e: real)
    requires Close(q, c, x, e) && x == x'
    ensures Close(q, c, x', e)
  {
  }

  /** One more bit, set: both the ratio and the power take another factor. */
  lemma BitTaken(c: nat, h: real, r: nat, low: nat, p: nat, e: real, d: real)
    requires 0.0 <= h <= 1.0 && 0.0 <= e <= 4194304.0 && 0.0 <= d <= 4194304.0
    requires Close(Q128 as real, c as real, RPow(h, p), d) && Close(Q128 as real, r as real, RPow(h, low), e)
    ensures Close(Q128 as real, (r * c / Q128) as real, RPow(h, low + p), e + d + 2.0)
  {
    PowSum(h, low, p, RPow(h, low), RPow(h, p));
    FactorTaken(c, r, RPow(h, low), RPow(h, p), RPow(h, low + p), e, d);
  }

  lemma FactorTaken(c: nat, r: nat, x: real, y: real, z: real, e: real, d: real)
    requires 0.0 <= x <= 1.0 && 0.0 <= y <= 1.0 && z == x * y
    requires 0.0 <= e <= 4194304.0 && 0.0 <= d <= 4194304.0
    requires Close(Q128 as real, c as real, y, d) && Close(Q128 as real, r as real, x, e)
    ensures Close(Q128 as real, (r * c / Q128) as real, z, e + d + 2.0)
  {
    Multiplied(r, c, x, y, e, d);
    RenamedClose(Q128 as real, (r * c / Q128) as real, x * y, z, e + d + 2.0);
  }

  lemma BitClose(h: real, r: nat, c: nat, r': nat, low: nat, p: nat, low': nat, bit: bool, j: nat)
    requires 0.0 <= h <= 1.0 && j < 20
    requires Close(Q128 as real, c as real, RPow(h, p), FactorError(j))
    requires Close(Q128 as real, r as real, RPow(h, low), RatioError(j))
    requires r' == (if bit then r * c / Q128 else r) && low' == low + if bit then p else 0
    ensures Close(Q128 as real, r' as real, RPow(h, low'), RatioError(j + 1))
  {
    RatioErrorRange(j);
    ErrorRange(j);
    if bit {
      BitTaken(c, h, r, low, p, RatioError(j), FactorError(j));
    } else {
      Widened(Q128 as real, r as real, RPow(h, low), RatioError(j), RatioError(j + 1));
    }
  }

  lemma {:induction false} RatioClose(factor: nat -> nat, h: real, a: nat, i: nat)
    requires 0.0 <= h <= 1.0 && i <= 20
    requires forall j: nat | j < 20 :: Close(Q128 as real, factor(j) as real, RPow(h, Pow2(j)), FactorError(j))
    ensures Close(Q128 as real, RatioBy(factor, a, i) as real, RPow(h, a % Pow2(i)), RatioError(i))
  {
    if i > 0 {
      var j := i - 1;
      RatioClose(factor, h, a, j);
      LowBits(a, j);
      RatioUnfolds(factor, a, j);
      BitClose(h, RatioBy(factor, a, j), factor(j), RatioBy(factor, a, i), a % Pow2(j), Pow2(j), a % Pow2(i), Bit(a, j), j);
    } else {
      NoBits(h, a);
    }
  }

  lemma NoBits(h: real, a: nat)
    ensures a % Pow2(0) == 0 && RPow(h, 0) == 1.0 && RatioError(0) == 0.0
  {
  }

  lemma TickRatioClose(h: real, t: nat)
    requires IsRoot(h) && t <= MAX_TICK
    ensures Close(Q128 as real, Ratio(t, 20) as real, RPow(h, t), 4194304.0)
  {
    RootBelowOne(h);
    forall j: nat | j < 20
      ensures Close(Q128 as real, Factor(j) as real, RPow(h, Pow2(j)), FactorError(j))
    {
      FactorClose(h, j);
    }
    RatioClose(Factor, h, t, 20);
    RatioErrorRange(20);
    SmallTick(t);
  }

  lemma SmallTick(t: nat)
    requires t <= MAX_TICK
    ensures t % Pow2(20) == t
  {
    assert Pow2(5) == 32 && Pow2(10) == 32 * Pow2(5) && Pow2(15) == 32 * Pow2(10) && Pow2(20) == 32 * Pow2(15);
  }

  /** A price within two units of `x`, in 96 fractional bits. */
  ghost predicate WithinTwo(s: nat, x: real) { -2.0 < s as real - Q96 as real * x < 2.0 }

  lemma RoundedClose(r: nat, s: nat, x: real)
    requires Q32 * s - Q32 < r <= Q32 * s && Close(Q128 as real, r as real, x, 4194304.0)
    ensures WithinTwo(s, x)
  {
    var q, g := Q32 as real, Q96 as real;
    assert Q128 as real * x == q * (g * x);
    assert (Q32 * s) as real == q * s as real;
    assert q * (s as real - g * x) == q * s as real - q * (g * x);
  }

  /** For every tick up to zero the price is 1.0001 to half the tick, in 96 fractional bits, within two units. */
  lemma PriceIsPower(h: real, t: nat)
    requires IsRoot(h) && t <= MAX_TICK
    ensures WithinTwo(SqrtRatio(0 - t), RPow(h, t))
  {
    TickRatioClose(h, t);
    RoundedUp(Ratio(t, 20));
    RoundedClose(Ratio(t, 20), SqrtRatio(0 - t), RPow(h, t));
  }

  /** A price which, multiplied by `x`, is one in 96 fractional bits, within units of the two prices. */
  ghost predicate InvertsWithin(up: nat, down: nat, x: real) {
    var slack := 3.0 * up as real + down as real + Q64 as real;
    0.0 - slack <= up as real * (Q96 as real * x) - (Q96 * Q96) as real <= slack
  }

  lemma NonNegative(x: real, y: real)
    requires x >= 0.0 && y >= 0.0
    ensures x * y >= 0.0
  {
  }

  lemma PowerProduct(a: real, b: real, z: real, w: real, slack: real)
    requires a >= 0.0 && -2.0 < b - z < 2.0 && 0.0 - slack <= a * b - w <= slack
    ensures 0.0 - slack - 2.0 * a <= a * z - w <= slack + 2.0 * a
  {
    NonNegative(a, 2.0 - (b - z));
    NonNegative(a, 2.0 + (b - z));
    assert a * (2.0 - (b - z)) == 2.0 * a - a * b + a * z;
    assert a * (2.0 + (b - z)) == 2.0 * a + a * b - a * z;
  }

  lemma ProductAsReal(a: nat, b: nat)
    requires Inverse(a, b)
    ensures var slack := a as real + b as real + Q64 as real;
            0.0 - slack <= a as real * b as real - (Q96 * Q96) as real <= slack
  {
    CastProduct(a, b);
    CastRange(Q96 * Q96, a * b, a + b + Q64);
  }

  lemma InversePower(a: nat, b: nat, x: real)
    requires Inverse(a, b) && WithinTwo(b, x)
    ensures InvertsWithin(a, b, x)
  {
    ProductAsReal(a, b);
    PowerProduct(a as real, b as real, Q96 as real * x, (Q96 * Q96) as real, a as real + b as real + Q64 as real);
  }

  /** For every tick from zero on the price is the inverse of the power. */
  lemma PriceIsInversePower(h: real, t: nat)
    requires IsRoot(h) && t <= MAX_TICK
    ensures InvertsWithin(SqrtRatio(t), SqrtRatio(0 - t), RPow(h, t))
  {
    PriceIsPower(h, t);
    OppositeTicks(t);
    InversePower(SqrtRatio(t), SqrtRatio(0 - t), RPow(h, t));
  }
}

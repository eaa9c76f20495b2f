/**
Uniswap V3 amounts and quotes as the UI computes them, on unbounded integers: liquidity from amounts and back, the
mint helper, and the swap quote within one tick. A division by zero, which throws, is None.
*/
module V3Math {
  import opened Common
  import opened TickMath
  import Radix

  function Div(a: nat, b: nat): Option<nat> { if b == 0 then None else Some(a / b) }

  /** a * b / d, as the on-chain library's `mulDiv` without its overflow. */
  function MulDiv(a: nat, b: nat, d: nat): nat
    requires d > 0
  {
    NatQuotient(a * b, d);
    a * b / d
  }

  lemma NatQuotient(n: nat, d: nat)
    requires d > 0
    ensures n / d >= 0
  {
  }

  function Min(a: nat, b: nat): nat { if a < b then a else b }

  function Max(a: nat, b: nat): nat { if a > b then a else b }

  // ----- liquidity and amounts

  /** For prices in either order. */
  function LiquidityForAmount0(a: nat, b: nat, amount0: nat): Option<nat> {
    var (lo, hi) := (Min(a, b), Max(a, b));
    Div(amount0 * MulDiv(lo, hi, Q96), hi - lo)
  }

  function LiquidityForAmount1(a: nat, b: nat, amount1: nat): Option<nat> {
    var (lo, hi) := (Min(a, b), Max(a, b));
    Div(amount1 * Q96, hi - lo)
  }

  function LiquidityForAmounts(p: nat, a: nat, b: nat, amount0: nat, amount1: nat): Option<nat> {
    var (lo, hi) := (Min(a, b), Max(a, b));
    if p <= lo then LiquidityForAmount0(lo, hi, amount0)
    else if p < hi then
      var l0 := LiquidityForAmount0(p, hi, amount0);
      var l1 := LiquidityForAmount1(lo, p, amount1);
      if l0.None? || l1.None? then None else Some(Min(l0.value, l1.value))
    else LiquidityForAmount1(lo, hi, amount1)
  }

  function Amount0ForLiquidity(a: nat, b: nat, l: nat): Option<nat> {
    var (lo, hi) := (Min(a, b), Max(a, b));
    if hi == 0 then None else Div(MulDiv(l * Q96, hi - lo, hi), lo)
  }

  function Amount1ForLiquidity(a: nat, b: nat, l: nat): nat {
    var (lo, hi) := (Min(a, b), Max(a, b));
    MulDiv(l, hi - lo, Q96)
  }

  function AmountsForLiquidity(p: nat, a: nat, b: nat, l: nat): Option<(nat, nat)> {
    var (lo, hi) := (Min(a, b), Max(a, b));
    if p <= lo then
      var a0 := Amount0ForLiquidity(lo, hi, l);
      if a0.None? then None else Some((a0.value, 0))
    else if p < hi then
      var a0 := Amount0ForLiquidity(p, hi, l);
      if a0.None? then None else Some((a0.value, Amount1ForLiquidity(lo, p, l)))
    else Some((0, Amount1ForLiquidity(lo, hi, l)))
  }

  lemma DivAtMost(n: nat, d: nat, bound: nat)
    requires d > 0 && n <= bound * d
    ensures n / d <= bound
  {
    Radix.DivMod(n, d);
    if n / d > bound {
      Radix.Scale(d, bound + 1, n / d);
    }
  }

  lemma DivTimes(n: nat, d: nat)
    requires d > 0
    ensures n / d * d <= n < n / d * d + d
  {
    Radix.DivMod(n, d);
  }

  /** Token 0 for at most the liquidity that `amount0` bought costs at most `amount0`. */
  lemma Amount0NotExceeded(lo: nat, hi: nat, amount0: nat, l: nat, q: nat)
    requires 0 < lo < hi && q > 0 && l <= amount0 * (lo * hi / q) / (hi - lo)
    ensures l * q * (hi - lo) / hi / lo <= amount0
  {
    var i, w := lo * hi / q, hi - lo;
    DivTimes(amount0 * i, w);
    Radix.Scale(w, l, amount0 * i / w);
    assert l * w <= amount0 * i;
    DivTimes(lo * hi, q);
    Radix.Scale(q, l * w, amount0 * i);
    Radix.Scale(amount0, i * q, lo * hi);
    Bought0(l, q, w, amount0, i, lo, hi);
    DivAtMost(l * q * w, hi, amount0 * lo);
    DivAtMost(l * q * w / hi, lo, amount0);
  }

  lemma Bought0(l: nat, q: nat, w: nat, amount0: nat, i: nat, lo: nat, hi: nat)
    requires q * (l * w) <= q * (amount0 * i) && amount0 * (i * q) <= amount0 * (lo * hi)
    ensures l * q * w <= amount0 * lo * hi
  {
    assert l * q * w == q * (l * w);
    assert q * (amount0 * i) == amount0 * (i * q);
    assert amount0 * (lo * hi) == amount0 * lo * hi;
  }

  lemma Amount1NotExceeded(w: nat, amount1: nat, l: nat, q: nat)
    requires w > 0 && q > 0 && l <= amount1 * q / w
    ensures l * w / q <= amount1
  {
    DivTimes(amount1 * q, w);
    Radix.Scale(w, l, amount1 * q / w);
    DivAtMost(l * w, q, amount1);
  }

  /**
   In all three price regions, and for the range's ends in either order, the amounts recomputed from the derived
   liquidity are defined and never exceed the amounts supplied.
   */
  lemma AmountsNotExceeded(p: nat, a: nat, b: nat, amount0: nat, amount1: nat)
    requires a != b && 0 < a && 0 < b
    ensures var l := LiquidityForAmounts(p, a, b, amount0, amount1);
            && l.Some?
            && AmountsForLiquidity(p, a, b, l.value).Some?
            && var (a0, a1) := AmountsForLiquidity(p, a, b, l.value).value;
               a0 <= amount0 && a1 <= amount1
  {
    var lo, hi, l := Min(a, b), Max(a, b), LiquidityForAmounts(p, a, b, amount0, amount1).value;
    if p <= lo {
      Amount0NotExceeded(lo, hi, amount0, l, Q96);
    } else if p < hi {
      Amount0NotExceeded(p, hi, amount0, l, Q96);
      Amount1NotExceeded(p - lo, amount1, l, Q96);
    } else {
      Amount1NotExceeded(hi - lo, amount1, l, Q96);
    }
  }

  /** Token 1: the liquidity is the largest that the amount covers, and its amount the exact one rounded down. */
  lemma LiquidityForAmount1IsLargest(a: nat, b: nat, amount1: nat, l: nat)
    requires a != b
    ensures var w := Max(a, b) - Min(a, b);
            && LiquidityForAmount1(a, b, amount1).Some?
            && (l <= LiquidityForAmount1(a, b, amount1).value <==> l * w <= amount1 * Q96)
            && Amount1ForLiquidity(a, b, l) * Q96 <= l * w < (Amount1ForLiquidity(a, b, l) + 1) * Q96
  {
    var w := Max(a, b) - Min(a, b);
    Galois(amount1 * Q96, w, l);
    DivTimes(l * w, Q96);
  }

  lemma Galois(n: nat, d: nat, l: nat)
    requires d > 0
    ensures l <= n / d <==> l * d <= n
  {
    DivTimes(n, d);
    if l <= n / d {
      Radix.Scale(d, l, n / d);
    } else {
      Radix.Scale(d, n / d + 1, l);
    }
  }

  lemma DivGalois(amount: nat, rate: nat, d: nat, l: nat)
    requires d > 0
    ensures Div(amount * rate, d).Some? && (l <= Div(amount * rate, d).value <==> l * d <= amount * rate)
  {
    Galois(amount * rate, d, l);
  }

  /** Dividing twice, rounding down both times, is dividing once by the product. */
  lemma NestedFloor(n: nat, d: nat, e: nat)
    requires d > 0 && e > 0
    ensures d * e > 0 && n / d / e == n / (d * e)
  {
    Radix.Scale(d, 1, e);
    var k := n / d / e;
    NatQuotient(n, d);
    DivTimes(n, d);
    DivTimes(n / d, e);
    Galois(n / d, e, k);
    Galois(n, d, k * e);
    Galois(n / d, e, k + 1);
    Galois(n, d, (k + 1) * e);
    assert k * e * d == k * (d * e) && (k + 1) * e * d == (k + 1) * (d * e);
    Galois(n, d * e, k);
    Galois(n, d * e, k + 1);
  }

  /** Token 0: the same, with the product of the two prices rounded down first. */
  lemma LiquidityForAmount0IsLargest(a: nat, b: nat, amount0: nat, l: nat)
    requires a != b
    ensures var lo, hi := Min(a, b), Max(a, b);
            && LiquidityForAmount0(a, b, amount0).Some?
            && (l <= LiquidityForAmount0(a, b, amount0).value <==> l * (hi - lo) <= amount0 * MulDiv(lo, hi, Q96))
  {
    var lo, hi := Min(a, b), Max(a, b);
    DivGalois(amount0, MulDiv(lo, hi, Q96), hi - lo, l);
  }

  /**
  Rounding that product costs less liquidity than one unit and the amount's share of the range: a liquidity that the
  amount covers exactly is above the derived one by no more.
  */
  lemma LiquidityLoss(a: nat, b: nat, amount0: nat, l: nat)
    requires a != b
    ensures var lo, hi := Min(a, b), Max(a, b);
            var derived := LiquidityForAmount0(a, b, amount0).value;
            && (l <= derived ==> l * Q96 * (hi - lo) <= amount0 * (lo * hi))
            && (l * Q96 * (hi - lo) <= amount0 * (lo * hi) ==> (l - derived - 1) * (hi - lo) < amount0 || l <= derived)
  {
    var lo, hi := Min(a, b), Max(a, b);
    var w, i, derived := hi - lo, MulDiv(lo, hi, Q96), LiquidityForAmount0(a, b, amount0).value;
    DivTimes(amount0 * i, w);
    DivTimes(lo * hi, Q96);
    Covered(amount0, i, lo * hi, Q96, w, derived, l);
    if l <= derived {
      Affordable(amount0, i, lo * hi, Q96, w, derived, l);
    }
  }

  lemma Affordable(amount: nat, i: nat, product: nat, q: nat, w: nat, derived: nat, l: nat)
    requires i * q <= product && derived * w <= amount * i && l <= derived
    ensures l * q * w <= amount * product
  {
    Radix.Scale(w, l, derived);
    Radix.Scale(q, l * w, amount * i);
    Radix.Scale(amount, i * q, product);
    assert l * q * w == q * (l * w) && q * (amount * i) == amount * (i * q);
  }

  lemma Covered(amount: nat, i: nat, product: nat, q: nat, w: nat, derived: nat, l: nat)
    requires q > 0 && product < i * q + q && amount * i < derived * w + w
    ensures l * q * w <= amount * product ==> (l - derived - 1) * w < amount || l <= derived
  {
    if l * q * w <= amount * product && amount > 0 {
      Radix.Scale(amount, product + 1, i * q + q);
      assert amount * (i * q + q) == q * (amount * i + amount) && l * q * w == q * (l * w);
      CancelLess(q, l * w, amount * i + amount);
      assert (l - derived - 1) * w == l * w - derived * w - w;
    } else if l * q * w <= amount * product {
      assert amount * product == 0 && amount * i == 0;
      ZeroAmount(q, w, derived, l);
    }
  }

  lemma CancelLess(q: nat, x: int, y: int)
    requires q > 0 && q * x < q * y
    ensures x < y
  {
    if x >= y {
      Radix.Scale(q, y, x);
    }
  }

  lemma ZeroAmount(q: nat, w: nat, derived: nat, l: nat)
    requires q > 0 && l * q * w <= 0 && 0 < derived * w + w
    ensures l <= derived
  {
    if l > 0 {
      Radix.Scale(q, 1, l);
      Radix.Scale(l * q, 1, w);
    }
  }

  /** Between the least two prices an amount that covers liquidity two is derived none. */
  lemma LossAtLeastPrices()
    ensures LiquidityForAmount0(1, 2, Q96) == Some(0)
    ensures 2 * Q96 * (2 - 1) <= Q96 * (1 * 2)
  {
  }

  /** The two roundings of token 0's amount come to one: it is the exact amount rounded down. */
  lemma Amount0IsExact(a: nat, b: nat, l: nat)
    requires 0 < a && 0 < b
    ensures var lo, hi := Min(a, b), Max(a, b);
            hi * lo > 0 && Amount0ForLiquidity(a, b, l) == Some(MulDiv(l * Q96, hi - lo, hi * lo))
  {
    var lo, hi := Min(a, b), Max(a, b);
    NestedFloor(l * Q96 * (hi - lo), hi, lo);
  }

  function Clamp(p: nat, lo: nat, hi: nat): nat { if p <= lo then lo else if p < hi then p else hi }

  lemma Amount0Bounds(a: nat, b: nat, l: nat)
    requires 0 < a <= b
    ensures var a0 := Amount0ForLiquidity(a, b, l);
            a0.Some? && a0.value * (b * a) <= l * Q96 * (b - a) < (a0.value + 1) * (b * a)
  {
    Amount0IsExact(a, b, l);
    DivTimes(l * Q96 * (b - a), b * a);
  }

  lemma Amount1Bounds(a: nat, b: nat, l: nat)
    requires a <= b
    ensures var a1 := Amount1ForLiquidity(a, b, l); a1 * Q96 <= l * (b - a) < (a1 + 1) * Q96
  {
    DivTimes(l * (b - a), Q96);
  }

  lemma NoAmount0(l: nat, hi: nat)
    requires hi > 0
    ensures 0 * (hi * hi) <= l * Q96 * (hi - hi) < (0 + 1) * (hi * hi)
  {
    Radix.Scale(hi, 1, hi);
  }

  /** The amounts by region, at the price moved into the range. */
  lemma AmountsByRegion(p: nat, lo: nat, hi: nat, l: nat)
    requires 0 < lo <= hi
    ensures var at := Clamp(p, lo, hi);
            AmountsForLiquidity(p, lo, hi, l) ==
            var a0 := if p < hi || p <= lo then Amount0ForLiquidity(at, hi, l) else Some(0);
            if a0.None? then None else Some((a0.value, if p > lo then Amount1ForLiquidity(lo, at, l) else 0))
  {
  }

  /**
  Both amounts of a liquidity are the exact ones rounded down, wherever the price stands: token 0 for the part of the
  range above the price, token 1 for the part below it.
  */
  lemma AmountsAreExact(p: nat, a: nat, b: nat, l: nat)
    requires 0 < a && 0 < b
    ensures AmountsForLiquidity(p, a, b, l).Some?
    ensures var (lo, hi) := if a <= b then (a, b) else (b, a);
            var at := Clamp(p, lo, hi);
            var (a0, a1) := AmountsForLiquidity(p, a, b, l).value;
            && a0 * (hi * at) <= l * Q96 * (hi - at) < (a0 + 1) * (hi * at)
            && a1 * Q96 <= l * (at - lo) < (a1 + 1) * Q96
  {
    var (lo, hi) := if a <= b then (a, b) else (b, a);
    assert AmountsForLiquidity(p, a, b, l) == AmountsForLiquidity(p, lo, hi, l);
    OrderedAmountsAreExact(p, lo, hi, l);
  }

  lemma OrderedAmountsAreExact(p: nat, lo: nat, hi: nat, l: nat)
    requires 0 < lo <= hi
    ensures AmountsForLiquidity(p, lo, hi, l).Some?
    ensures var at := Clamp(p, lo, hi);
            var (a0, a1) := AmountsForLiquidity(p, lo, hi, l).value;
            && a0 * (hi * at) <= l * Q96 * (hi - at) < (a0 + 1) * (hi * at)
            && a1 * Q96 <= l * (at - lo) < (a1 + 1) * Q96
  {
    var at := Clamp(p, lo, hi);
    AmountsByRegion(p, lo, hi, l);
    Amount0Bounds(at, hi, l);
    Amount1Bounds(lo, at, l);
    NoAmount0(l, hi);
  }

  /** The liquidity of two amounts is the largest that both cover, each for its part of the range. */
  lemma LiquidityIsLargest(p: nat, a: nat, b: nat, amount0: nat, amount1: nat, l: nat)
    requires a != b
    ensures LiquidityForAmounts(p, a, b, amount0, amount1).Some?
    ensures var (lo, hi) := if a <= b then (a, b) else (b, a);
            var at := Clamp(p, lo, hi);
            l <= LiquidityForAmounts(p, a, b, amount0, amount1).value <==>
              && (at < hi ==> l * (hi - at) <= amount0 * MulDiv(at, hi, Q96))
              && (at > lo ==> l * (at - lo) <= amount1 * Q96)
  {
    var (lo, hi) := if a <= b then (a, b) else (b, a);
    var at := Clamp(p, lo, hi);
    if at < hi {
      LiquidityForAmount0IsLargest(at, hi, amount0, l);
    }
    if at > lo {
      LiquidityForAmount1IsLargest(lo, at, amount1, l);
    }
  }

  // ----- quotes

  const FEE_NUM: nat := 997000
  const FEE_DEN: nat := 1000000

  datatype Quote = Quote(amountOut: nat, next: nat)

  function AfterFee(amountIn: int): int
    requires amountIn >= 0
  {
    amountIn * FEE_NUM / FEE_DEN
  }

  function CeilDiv(a: nat, b: nat): nat
    requires b > 0
  {
    NatQuotient(a + b - 1, b);
    (a + b - 1) / b
  }

  method QuoteSingleTick(sqrtP: nat, liquidity: int, amountIn: int, zeroForOne: bool) returns (r: Option<Quote>)
    ensures r == Quoted(sqrtP, liquidity, amountIn, zeroForOne)
  {
    if liquidity <= 0 || amountIn <= 0 {
      return Some(Quote(0, sqrtP));
    }
    var fed := AfterFee(amountIn);
    if fed <= 0 {
      return Some(Quote(0, sqrtP));
    }
    var next, out: nat;
    if zeroForOne {
      Denominator(liquidity, fed, sqrtP, Q96);
      next := CeilDiv(liquidity * sqrtP * Q96, liquidity * Q96 + fed * sqrtP);
      if next >= sqrtP {
        next := sqrtP;
      }
      out := MulDiv(liquidity, sqrtP - next, Q96);
    } else {
      next := sqrtP + MulDiv(fed, Q96, liquidity);
      if next * sqrtP == 0 {
        return None;
      }
      out := MulDiv(liquidity * Q96, next - sqrtP, next * sqrtP);
    }
    return Some(Quote(out, next));
  }

  lemma Denominator(l: nat, a: nat, p: nat, q: nat)
    requires l > 0 && q > 0
    ensures l * q + a * p > 0
  {
    Radix.Scale(l, 1, q);
    Radix.Scale(a, 0, p);
  }

  /** Token 0 in: the price falls to the least one that covers the input, rounded up. */
  function ZeroForOne(p: nat, l: nat, a: nat, q: nat): Quote
    requires l > 0 && q > 0
  {
    Denominator(l, a, p, q);
    var n := CeilDiv(l * p * q, l * q + a * p);
    var next := if n >= p then p else n;
    Quote(MulDiv(l, p - next, q), next)
  }

  /** Token 1 in: the price rises by what the input buys, rounded down. */
  function OneForZero(p: nat, l: nat, a: nat, q: nat): Option<Quote>
    requires l > 0
  {
    var next := p + MulDiv(a, q, l);
    if next * p == 0 then None else Some(Quote(MulDiv(l * q, next - p, next * p), next))
  }

  function Quoted(p: nat, l: int, amountIn: int, zeroForOne: bool): Option<Quote> {
    if l <= 0 || amountIn <= 0 || AfterFee(amountIn) <= 0 then Some(Quote(0, p))
    else if zeroForOne then Some(ZeroForOne(p, l, AfterFee(amountIn), Q96))
    else OneForZero(p, l, AfterFee(amountIn), Q96)
  }

  lemma CeilTimes(n: nat, d: nat)
    requires d > 0
    ensures n <= CeilDiv(n, d) * d < n + d
  {
    Radix.DivMod(n + d - 1, d);
  }

  /**
   After a trade of `a` of token 0 the pool still holds the virtual reserves of its new price: token 0 grew to at least
   l*q/next and token 1 shrank to no less than l*next/q.
   */
  lemma FallCovered(p: nat, l: nat, a: nat, q: nat)
    requires l > 0 && q > 0
    ensures var r := ZeroForOne(p, l, a, q);
            && r.next <= p && (p > 0 ==> r.next > 0)
            && l * p * q <= r.next * (l * q + a * p)
            && r.amountOut * q + l * r.next <= l * p
  {
    Denominator(l, a, p, q);
    var den := l * q + a * p;
    CeilTimes(l * p * q, den);
    var r := ZeroForOne(p, l, a, q);
    DivTimes(l * (p - r.next), q);
    Kept(p, l, a, q);
    assert l * (p - r.next) == l * p - l * r.next;
    if p > 0 {
      Grown(l, p, q);
    }
  }

  lemma Kept(p: nat, l: nat, a: nat, q: nat)
    ensures l * p * q <= p * (l * q + a * p)
  {
    assert p * (l * q + a * p) == l * p * q + p * (a * p);
    Radix.Scale(a, 0, p);
    Radix.Scale(p, 0, a * p);
  }

  lemma Grown(l: nat, p: nat, q: nat)
    requires l > 0 && p > 0 && q > 0
    ensures l * p * q > 0
  {
    Radix.Scale(l, 1, p);
    Radix.Scale(l * p, 1, q);
  }

  /** After a trade of `a` of token 1: token 1 grew to at least l*next/q and token 0 shrank to no less than l*q/next. */
  lemma RiseCovered(p: nat, l: nat, a: nat, q: nat)
    requires l > 0 && p > 0
    ensures OneForZero(p, l, a, q).Some?
    ensures var r := OneForZero(p, l, a, q).value;
            && p <= r.next
            && l * r.next <= l * p + a * q
            && r.amountOut * (r.next * p) <= l * q * (r.next - p)
  {
    var next := p + MulDiv(a, q, l);
    Radix.Scale(next, 1, p);
    DivTimes(a * q, l);
    assert l * next == l * p + MulDiv(a, q, l) * l;
    DivTimes(l * q * (next - p), next * p);
  }

  /** The price falls to the least that covers the input, and all that it leaves over is paid out. */
  lemma FallIsBest(p: nat, l: nat, a: nat, q: nat, next: nat, out: nat)
    requires l > 0 && q > 0 && next <= p
    ensures var r := ZeroForOne(p, l, a, q);
            && (r.next <= next <==> l * p * q <= next * (l * q + a * p))
            && (out <= r.amountOut <==> out * q + l * r.next <= l * p)
  {
    Denominator(l, a, p, q);
    var den, r := l * q + a * p, ZeroForOne(p, l, a, q);
    FallCovered(p, l, a, q);
    CeilTimes(l * p * q, den);
    CeilLeast(l * p * q, den, next);
    Galois(l * (p - r.next), q, out);
    assert l * (p - r.next) == l * p - l * r.next;
  }

  lemma CeilLeast(n: nat, d: nat, k: nat)
    requires d > 0
    ensures CeilDiv(n, d) <= k <==> n <= k * d
  {
    CeilTimes(n, d);
    if CeilDiv(n, d) <= k {
      Radix.Scale(d, CeilDiv(n, d), k);
    } else {
      Radix.Scale(d, k + 1, CeilDiv(n, d));
    }
  }

  /** The price rises to the greatest that the input pays for, and all that it leaves over is paid out. */
  lemma RiseIsBest(p: nat, l: nat, a: nat, q: nat, next: nat, out: nat)
    requires l > 0 && p > 0 && p <= next
    ensures OneForZero(p, l, a, q).Some?
    ensures var r := OneForZero(p, l, a, q).value;
            && (next <= r.next <==> l * next <= l * p + a * q)
            && (out <= r.amountOut <==> out * (r.next * p) <= l * q * (r.next - p))
  {
    RiseCovered(p, l, a, q);
    var r := OneForZero(p, l, a, q).value;
    Galois(a * q, l, next - p);
    assert (next - p) * l == l * next - l * p;
    Radix.Scale(r.next, 1, p);
    Galois(l * q * (r.next - p), r.next * p, out);
  }

  lemma FeeTaken(amountIn: nat, a: nat)
    requires 1000000 * a <= 997000 * amountIn < 1000000 * (a + 1)
    ensures AfterFee(amountIn) == a
  {
  }

  lemma PriceUnmoved(p: nat, l: nat, q: nat, next: nat)
    requires l > 0 && q > 0
    ensures p <= next <==> l * p * q <= next * (l * q)
    ensures next <= p <==> l * next <= l * p
  {
    Radix.Scale(l, 1, q);
    Regroup(l, p, q, next);
    CancelBoth(l * q, p, next);
    CancelBoth(l, next, p);
  }

  lemma Regroup(l: nat, p: nat, q: nat, next: nat)
    ensures l * p * q == (l * q) * p && next * (l * q) == (l * q) * next
  {
  }

  lemma CancelBoth(d: nat, x: int, y: int)
    requires d > 0
    ensures d * x <= d * y <==> x <= y
  {
    ScaleLess(d, x, y);
    if x <= y {
      Radix.Scale(d, x, y);
    }
  }

  lemma NothingOut(p: nat, q: nat, out: nat)
    requires q > 0
    ensures out * q <= 0 <==> out == 0
    ensures p > 0 ==> (out * (p * p) <= 0 <==> out == 0)
  {
    CancelBoth(q, out, 0);
    if p > 0 {
      Radix.Scale(p, 1, p);
      CancelBoth(p * p, out, 0);
    }
  }

  /**
  Token 0 in, of which `a` is left after the fee of three thousandths, rounded down: the price falls to the least that
  covers it, and all that it leaves over is paid out.
  */
  lemma FallQuoteIsBest(p: nat, l: nat, amountIn: nat, a: nat, next: nat, out: nat)
    requires l > 0 && 1000000 * a <= 997000 * amountIn < 1000000 * (a + 1)
    ensures Quoted(p, l, amountIn, true).Some?
    ensures var r := Quoted(p, l, amountIn, true).value;
            && r.next <= p
            && (next <= p ==> (r.next <= next <==> l * p * Q96 <= next * (l * Q96 + a * p)))
            && (out <= r.amountOut <==> out * Q96 + l * r.next <= l * p)
  {
    FeeTaken(amountIn, a);
    if a == 0 {
      PriceUnmoved(p, l, Q96, next);
      NothingOut(p, Q96, out);
    } else {
      FallIsBest(p, l, a, Q96, if next <= p then next else p, out);
    }
  }

  /** Token 1 in: the price rises to the greatest that it pays for, and all that it leaves over is paid out. */
  lemma RiseQuoteIsBest(p: nat, l: nat, amountIn: nat, a: nat, next: nat, out: nat)
    requires l > 0 && 1000000 * a <= 997000 * amountIn < 1000000 * (a + 1)
    ensures Quoted(p, l, amountIn, false).None? <==> p == 0 && a > 0
    ensures p > 0 ==>
              var r := Quoted(p, l, amountIn, false).value;
              && p <= r.next
              && (p <= next ==> (next <= r.next <==> l * next <= l * p + a * Q96))
              && (out <= r.amountOut <==> out * (r.next * p) <= l * Q96 * (r.next - p))
  {
    FeeTaken(amountIn, a);
    if p > 0 && a == 0 {
      NothingRises(p, l, next, out);
    } else if p > 0 {
      RiseIsBest(p, l, a, Q96, if p <= next then next else p, out);
    }
  }

  lemma NothingRises(p: nat, l: nat, next: nat, out: nat)
    requires l > 0 && p > 0
    ensures next <= p <==> l * next <= l * p + 0 * Q96
    ensures out <= 0 <==> out * (p * p) <= l * Q96 * (p - p)
  {
    PriceUnmoved(p, l, Q96, next);
    NothingOut(p, Q96, out);
  }

  /** Without liquidity, or without an input, nothing moves. */
  lemma NothingQuoted(p: nat, l: int, amountIn: int, zeroForOne: bool)
    requires l <= 0 || amountIn <= 0
    ensures Quoted(p, l, amountIn, zeroForOne) == Some(Quote(0, p))
  {
  }

  lemma ProductOf(x: nat, y: int, x': nat, y': nat)
    requires x' <= x && 0 <= y' <= y
    ensures x' * y' <= x * y
  {
    Radix.Scale(y', x', x);
    Radix.Scale(x, y', y);
  }

  lemma Shuffle(l: nat, p: nat, q: nat)
    ensures l * (l * p * q) == l * l * p * q
  {
    Times3(l, p, q);
    Times3(l * l, p, q);
    Times3(l, l, p * q);
  }

  lemma Times3(a: nat, b: nat, c: nat)
    ensures a * b * c == a * (b * c)
  {
  }

  lemma FallProduct(p: nat, l: nat, a: nat, q: nat, amountIn: nat, next: nat, out: nat)
    requires a <= amountIn && l * p * q <= next * (l * q + a * p) && out * q + l * next <= l * p
    ensures (l * q + amountIn * p) * (l * p - out * q) >= l * l * p * q
  {
    Radix.Scale(p, a, amountIn);
    ProductOf(l * q + amountIn * p, l * p - out * q, l * q + a * p, l * next);
    Radix.Scale(l, l * p * q, next * (l * q + a * p));
    assert (l * q + a * p) * (l * next) == l * (next * (l * q + a * p));
    Shuffle(l, p, q);
  }

  /** From out * (next * p) <= l*q*(next - p): what is left of token 0 still covers the new price. */
  lemma LeftOver(p: nat, lq: nat, next: nat, out: nat)
    requires next > 0 && out * (next * p) <= lq * (next - p)
    ensures lq * p <= next * (lq - out * p)
    ensures 0 <= lq - out * p
  {
    assert next * (lq - out * p) == lq * next - out * (next * p);
    assert lq * (next - p) == lq * next - lq * p;
    Radix.Scale(lq, 0, p);
    if lq - out * p < 0 {
      Radix.Scale(next, lq - out * p, -1);
    }
  }

  lemma RiseProduct(p: nat, l: nat, a: nat, q: nat, amountIn: nat, next: nat, out: nat)
    requires a <= amountIn && next > 0 && l * next <= l * p + a * q && out * (next * p) <= l * q * (next - p)
    ensures (l * p + amountIn * q) * (l * q - out * p) >= l * l * p * q
  {
    LeftOver(p, l * q, next, out);
    Radix.Scale(q, a, amountIn);
    ProductOf(l * p + amountIn * q, l * q - out * p, l * next, l * q - out * p);
    Radix.Scale(l, l * q * p, next * (l * q - out * p));
    assert (l * next) * (l * q - out * p) == l * (next * (l * q - out * p));
    assert l * q * p == l * p * q;
    Shuffle(l, p, q);
  }

  lemma FeeWithin(amountIn: nat)
    ensures 0 <= AfterFee(amountIn) <= amountIn
  {
  }

  lemma IdleProduct(p: nat, l: nat, q: nat, amountIn: nat)
    ensures (l * q + amountIn * p) * (l * p) >= l * l * p * q
    ensures (l * p + amountIn * q) * (l * q) >= l * l * p * q
  {
    Radix.Scale(p, 0, amountIn);
    Radix.Scale(q, 0, amountIn);
    ProductOf(l * q + amountIn * p, l * p, l * q, l * p);
    ProductOf(l * p + amountIn * q, l * q, l * p, l * q);
    assert (l * q) * (l * p) == l * (l * p * q);
    Shuffle(l, p, q);
  }

  /**
   Neither direction lowers the product of the virtual reserves l*q/p and l*p/q, here multiplied out by p*q: token 0
   in with token 1 out, and the other way round.
   */
  lemma ProductNeverFalls(p: nat, l: nat, amountIn: nat, zeroForOne: bool)
    requires l > 0 && Quoted(p, l, amountIn, zeroForOne).Some?
    ensures var out := Quoted(p, l, amountIn, zeroForOne).value.amountOut;
            if zeroForOne then (l * Q96 + amountIn * p) * (l * p - out * Q96) >= l * l * p * Q96
            else (l * p + amountIn * Q96) * (l * Q96 - out * p) >= l * l * p * Q96
  {
    var a, r := AfterFee(amountIn), Quoted(p, l, amountIn, zeroForOne).value;
    FeeWithin(amountIn);
    if amountIn == 0 || a <= 0 {
      IdleProduct(p, l, Q96, amountIn);
    } else if zeroForOne {
      FallCovered(p, l, a, Q96);
      FallProduct(p, l, a, Q96, amountIn, r.next, r.amountOut);
    } else {
      RiseProduct2(p, l, a, amountIn, r);
    }
  }

  lemma RiseProduct2(p: nat, l: nat, a: nat, amountIn: nat, r: Quote)
    requires l > 0 && a <= amountIn && OneForZero(p, l, a, Q96) == Some(r)
    ensures (l * p + amountIn * Q96) * (l * Q96 - r.amountOut * p) >= l * l * p * Q96
  {
    if p > 0 {
      RiseCovered(p, l, a, Q96);
      RiseProduct(p, l, a, Q96, amountIn, r.next, r.amountOut);
    }
  }

  // ----- out and straight back

  lemma ScaleLess(d: nat, x: int, y: int)
    requires d > 0
    ensures d * x <= d * y ==> x <= y
  {
    if x > y {
      Radix.Scale(d, y + 1, x);
    }
  }

  /** Linear in z: below zero at both ends, so below zero in between. */
  lemma Between(lq: nat, ap: nat, p1: nat, z: nat, p: nat)
    requires p1 <= z <= p && lq * (p - p1) <= ap * p
    ensures lq * (z - p1) <= ap * z
  {
    var k := lq - ap;
    assert lq * (p - p1) - ap * p == k * p - lq * p1;
    assert lq * (z - p1) - ap * z == k * z - lq * p1;
    if k >= 0 {
      Radix.Scale(k, z, p);
    } else {
      Radix.Scale(z, k, 0);
      Radix.Scale(lq, 0, p1);
    }
  }

  /** Down from p to p1 and back up to p2: no more token 0 comes out than went in. */
  lemma DownAndUp(p: nat, l: nat, q: nat, a: nat, p1: nat, out1: nat, a2: nat, p2: nat, out2: nat)
    requires l > 0 && 0 < p1 <= p2 && a2 <= out1
    requires l * p * q <= p1 * (l * q + a * p) && out1 * q + l * p1 <= l * p
    requires l * p2 <= l * p1 + a2 * q && out2 * (p2 * p1) <= l * q * (p2 - p1)
    ensures out2 <= a
  {
    Radix.Scale(q, a2, out1);
    ScaleLess(l, p2, p);
    assert l * q * (p - p1) == l * p * q - p1 * (l * q);
    assert p1 * (l * q + a * p) == p1 * (l * q) + (a * p1) * p;
    Between(l * q, a * p1, p1, p2, p);
    assert (a * p1) * p2 == (p2 * p1) * a;
    Radix.Scale(p1, 1, p2);
    ScaleLess(p2 * p1, out2, a);
  }

  /** Up from p to p1 and back down to p2: no more token 1 comes out than went in. */
  lemma UpAndDown(p: nat, l: nat, q: nat, a: nat, p1: nat, out1: nat, a2: nat, p2: nat, out2: nat)
    requires l > 0 && q > 0 && 0 < p <= p1 && a2 <= out1
    requires l * p1 <= l * p + a * q && out1 * (p1 * p) <= l * q * (p1 - p)
    requires l * p1 * q <= p2 * (l * q + a2 * p1) && out2 * q + l * p2 <= l * p1
    ensures out2 <= a
  {
    var d := l * q + a2 * p1;
    Denominator(l, a2, p1, q);
    Radix.Scale(p1 * p, a2, out1);
    assert l * q * (p1 - p) == l * p1 * q - p * (l * q);
    assert d * p == p * (l * q) + a2 * (p1 * p);
    ScaleLess(d, p, p2);
    Radix.Scale(l, p, p2);
    ScaleLess(q, out2, a);
  }

  /** What a quote guarantees of a fall or rise, whether or not it moved the price. */
  ghost predicate Fell(p: nat, l: nat, a: nat, r: Quote) {
    && r.next <= p && (p > 0 ==> r.next > 0)
    && l * p * Q96 <= r.next * (l * Q96 + a * p) && r.amountOut * Q96 + l * r.next <= l * p
  }

  ghost predicate Rose(p: nat, l: nat, a: nat, r: Quote) {
    && p <= r.next
    && l * r.next <= l * p + a * Q96 && r.amountOut * (r.next * p) <= l * Q96 * (r.next - p)
  }

  lemma QuoteMoves(p: nat, l: nat, amountIn: nat, zeroForOne: bool) returns (a: nat)
    requires l > 0 && p > 0
    ensures Quoted(p, l, amountIn, zeroForOne).Some? && a <= amountIn
    ensures var r := Quoted(p, l, amountIn, zeroForOne).value;
            if zeroForOne then Fell(p, l, a, r) else Rose(p, l, a, r)
  {
    a := AfterFee(amountIn);
    FeeWithin(amountIn);
    if a == 0 {
      IdleMoves(p, l);
    } else if zeroForOne {
      FallCovered(p, l, a, Q96);
    } else {
      RiseCovered(p, l, a, Q96);
    }
  }

  lemma IdleMoves(p: nat, l: nat)
    ensures Fell(p, l, 0, Quote(0, p)) && Rose(p, l, 0, Quote(0, p))
  {
    assert p * (l * Q96 + 0 * p) == l * p * Q96;
  }

  /** Swapping out and straight back at the returned price never yields more than was put in. */
  lemma NoGainFromRoundTrip(p: nat, l: int, amountIn: nat, zeroForOne: bool)
    requires Quoted(p, l, amountIn, zeroForOne).Some?
    ensures var there := Quoted(p, l, amountIn, zeroForOne).value;
            var back := Quoted(there.next, l, there.amountOut, !zeroForOne);
            back.Some? && back.value.amountOut <= amountIn
  {
    var there := Quoted(p, l, amountIn, zeroForOne).value;
    if l > 0 && p > 0 {
      var a := QuoteMoves(p, l, amountIn, zeroForOne);
      var a2 := QuoteMoves(there.next, l, there.amountOut, !zeroForOne);
      var back := Quoted(there.next, l, there.amountOut, !zeroForOne).value;
      if zeroForOne {
        DownAndUp(p, l, Q96, a, there.next, there.amountOut, a2, back.next, back.amountOut);
      } else {
        UpAndDown(p, l, Q96, a, there.next, there.amountOut, a2, back.next, back.amountOut);
      }
    } else if l > 0 {
      NothingAtZero(l, amountIn, zeroForOne);
    }
  }

  /** At price zero there is nothing to take out. */
  lemma NothingAtZero(l: nat, amountIn: nat, zeroForOne: bool)
    requires l > 0 && Quoted(0, l, amountIn, zeroForOne).Some?
    ensures Quoted(0, l, amountIn, zeroForOne).value.amountOut == 0
  {
    var a := AfterFee(amountIn);
    if zeroForOne && a > 0 {
      FallCovered(0, l, a, Q96);
    }
  }

  // ----- the mint helper

  datatype Kind = Token0Only | Token1Only | Both

  datatype Provided = Provided(amount0: Option<nat>, amount1: Option<nat>)

  datatype Mint = Mint(liquidity: nat, amount0: nat, amount1: nat, kind: Kind)

  /** The side the liquidity is derived from, for ends `a` and `b` as given. */
  function Needs(p: nat, a: nat, b: nat): Kind {
    if p <= a then Token0Only else if p >= b then Token1Only else Both
  }

  function Minted(p: nat, a: nat, b: nat, l: Option<nat>, kind: Kind): Option<Mint> {
    if l.None? then None
    else
      var amounts := AmountsForLiquidity(p, a, b, l.value);
      if amounts.None? then None else Some(Mint(l.value, amounts.value.0, amounts.value.1, kind))
  }

  function MintBetween(p: nat, a: nat, b: nat, give: Provided): Option<Mint> {
    match Needs(p, a, b)
    case Token0Only =>
      if give.amount0.None? then Some(Mint(0, 0, 0, Token0Only))
      else Minted(p, a, b, LiquidityForAmount0(a, b, give.amount0.value), Token0Only)
    case Token1Only =>
      if give.amount1.None? then Some(Mint(0, 0, 0, Token1Only))
      else Minted(p, a, b, LiquidityForAmount1(a, b, give.amount1.value), Token1Only)
    case Both =>
      if give.amount0.Some? then Minted(p, a, b, LiquidityForAmount0(p, b, give.amount0.value), Both)
      else if give.amount1.Some? then Minted(p, a, b, LiquidityForAmount1(a, p, give.amount1.value), Both)
      else Some(Mint(0, 0, 0, Both))
  }

  method ComputeMint(sqrtP: nat, tickLower: int, tickUpper: int, give: Provided) returns (r: Option<Mint>)
    ensures r == if PriceAt(tickLower).None? || PriceAt(tickUpper).None? then None
                 else MintBetween(sqrtP, PriceAt(tickLower).value, PriceAt(tickUpper).value, give)
  {
    var lower := GetSqrtRatioAtTick(tickLower);
    if lower.None? {
      return None;
    }
    var upper := GetSqrtRatioAtTick(tickUpper);
    if upper.None? {
      return None;
    }
    var a, b := lower.value, upper.value;
    var l: Option<nat>, kind;
    if sqrtP <= a {
      kind := Token0Only;
      if give.amount0.None? {
        return Some(Mint(0, 0, 0, kind));
      }
      l := LiquidityForAmount0(a, b, give.amount0.value);
    } else if sqrtP >= b {
      kind := Token1Only;
      if give.amount1.None? {
        return Some(Mint(0, 0, 0, kind));
      }
      l := LiquidityForAmount1(a, b, give.amount1.value);
    } else {
      kind := Both;
      if give.amount0.Some? {
        l := LiquidityForAmount0(sqrtP, b, give.amount0.value);
      } else if give.amount1.Some? {
        l := LiquidityForAmount1(a, sqrtP, give.amount1.value);
      } else {
        return Some(Mint(0, 0, 0, kind));
      }
    }
    if l.None? {
      return None;
    }
    var amounts := AmountsForLiquidity(sqrtP, a, b, l.value);
    return if amounts.None? then None else Some(Mint(l.value, amounts.value.0, amounts.value.1, kind));
  }

  /** A narrower range above `p` costs no more token 0. */
  lemma Amount0Narrower(lo: nat, p: nat, hi: nat, lq: nat, amount0: nat)
    requires 0 < lo <= p <= hi && lq * (hi - lo) / hi / lo <= amount0
    ensures lq * (hi - p) / hi / p <= amount0
  {
    Radix.Scale(lq, hi - p, hi - lo);
    Radix.Scale(lq, 0, hi - p);
    DivMonotone(lq * (hi - p), lq * (hi - lo), hi, hi);
    DivMonotone(lq * (hi - p) / hi, lq * (hi - lo) / hi, lo, p);
  }

  lemma DivMonotone(m: nat, n: nat, d: nat, e: nat)
    requires m <= n && 0 < d <= e
    ensures 0 <= m / e <= n / d
  {
    DivTimes(n, d);
    DivTimes(m, e);
    if m / e > n / d {
      Radix.Scale(d, n / d + 1, m / e);
      Radix.Scale(m / e, d, e);
    }
  }

  /** The amount the liquidity was derived from. */
  function Basis(kind: Kind, give: Provided): Option<(Kind, nat)> {
    if kind == Token0Only || (kind == Both && give.amount0.Some?) then
      if give.amount0.None? then None else Some((Token0Only, give.amount0.value))
    else if give.amount1.None? then None else Some((Token1Only, give.amount1.value))
  }

  /** The amounts quoted for a mint never exceed the amount it was derived from, even for a range given upside down. */
  lemma MintWithinProvided(p: nat, a: nat, b: nat, give: Provided)
    requires 0 < a && 0 < b && MintBetween(p, a, b, give).Some?
    ensures var m := MintBetween(p, a, b, give).value;
            match Basis(m.kind, give)
            case None => m.liquidity == 0 && m.amount0 == 0 && m.amount1 == 0
            case Some((Token0Only, given)) => m.amount0 <= given
            case Some((_, given)) => m.amount1 <= given
  {
    var m, lo, hi := MintBetween(p, a, b, give).value, Min(a, b), Max(a, b);
    if Basis(m.kind, give).Some? {
      if m.kind == Token0Only {
        Amount0NotExceeded(lo, hi, give.amount0.value, m.liquidity, Q96);
        if lo < p < hi {
          Amount0Narrower(lo, p, hi, m.liquidity * Q96, give.amount0.value);
        }
      } else if m.kind == Token1Only {
        Amount1NotExceeded(hi - lo, give.amount1.value, m.liquidity, Q96);
      } else if give.amount0.Some? {
        Amount0NotExceeded(p, b, give.amount0.value, m.liquidity, Q96);
      } else {
        Amount1NotExceeded(p - a, give.amount1.value, m.liquidity, Q96);
      }
    }
  }

  /** A mint has no answer exactly when the range is empty and the amount it needs is given. */
  lemma MintDefined(p: nat, a: nat, b: nat, give: Provided)
    requires 0 < a && 0 < b
    ensures MintBetween(p, a, b, give).None? <==> a == b && (if p <= a then give.amount0 else give.amount1).Some?
  {
  }

  /**
  What a mint is: below the range token 0 alone, above it token 1 alone, inside it both; no liquidity without the amount
  it is derived from, and otherwise the largest that this amount covers, token 0 deciding when both are given; and for
  that liquidity both amounts exactly, rounded down. In a range upside down the ends decide the side as they are given.
  */
  lemma MintIs(p: nat, a: nat, b: nat, give: Provided, l: nat)
    requires 0 < a && 0 < b && a != b
    ensures MintBetween(p, a, b, give).Some?
    ensures var m := MintBetween(p, a, b, give).value;
            var (lo, hi) := if a < b then (a, b) else (b, a);
            var inside := a < p < b;
            && m.kind == (if p <= a then Token0Only else if inside then Both else Token1Only)
            && (if (p <= a || inside) && give.amount0.Some? then
                  var from := if inside then p else lo;
                  l <= m.liquidity <==> l * (hi - from) <= give.amount0.value * MulDiv(from, hi, Q96)
                else if p > a && give.amount1.Some? then
                  var till := if inside then p else hi;
                  l <= m.liquidity <==> l * (till - lo) <= give.amount1.value * Q96
                else m.liquidity == 0)
            && AmountsForLiquidity(p, a, b, m.liquidity) == Some((m.amount0, m.amount1))
  {
    MintDefined(p, a, b, give);
    if a < p < b {
      InsideMint(p, a, b, give, l);
    } else {
      OutsideMint(p, a, b, give, l);
    }
  }

  lemma InsideMint(p: nat, a: nat, b: nat, give: Provided, l: nat)
    requires 0 < a < p < b && MintBetween(p, a, b, give).Some?
    ensures var m := MintBetween(p, a, b, give).value;
            && m.kind == Both && AmountsForLiquidity(p, a, b, m.liquidity) == Some((m.amount0, m.amount1))
            && (if give.amount0.Some? then l <= m.liquidity <==> l * (b - p) <= give.amount0.value * MulDiv(p, b, Q96)
                else if give.amount1.Some? then l <= m.liquidity <==> l * (p - a) <= give.amount1.value * Q96
                else m.liquidity == 0)
  {
    if give.amount0.Some? {
      LiquidityForAmount0IsLargest(p, b, give.amount0.value, l);
    } else if give.amount1.Some? {
      LiquidityForAmount1IsLargest(a, p, give.amount1.value, l);
    } else {
      NothingCosts(p, a, b);
    }
  }

  lemma OutsideMint(p: nat, a: nat, b: nat, give: Provided, l: nat)
    requires 0 < a && 0 < b && a != b && !(a < p < b) && MintBetween(p, a, b, give).Some?
    ensures var m := MintBetween(p, a, b, give).value;
            var (lo, hi) := if a < b then (a, b) else (b, a);
            && m.kind == (if p <= a then Token0Only else Token1Only)
            && AmountsForLiquidity(p, a, b, m.liquidity) == Some((m.amount0, m.amount1))
            && (if p <= a && give.amount0.Some? then
                  l <= m.liquidity <==> l * (hi - lo) <= give.amount0.value * MulDiv(lo, hi, Q96)
                else if p > a && give.amount1.Some? then
                  l <= m.liquidity <==> l * (hi - lo) <= give.amount1.value * Q96
                else m.liquidity == 0)
  {
    if p <= a && give.amount0.Some? {
      LiquidityForAmount0IsLargest(a, b, give.amount0.value, l);
    } else if p > a && give.amount1.Some? {
      LiquidityForAmount1IsLargest(a, b, give.amount1.value, l);
    } else {
      NothingCosts(p, a, b);
    }
  }

  lemma NothingCosts(p: nat, a: nat, b: nat)
    requires 0 < a && 0 < b
    ensures AmountsForLiquidity(p, a, b, 0) == Some((0, 0))
  {
    AmountsAreExact(p, a, b, 0);
    var (a0, a1) := AmountsForLiquidity(p, a, b, 0).value;
    var (lo, hi) := if a <= b then (a, b) else (b, a);
    var at := Clamp(p, lo, hi);
    Radix.Scale(hi, 1, at);
    ScaleLess(hi * at, a0, 0);
    ScaleLess(Q96, a1, 0);
  }

  lemma PricePositive(tick: int)
    ensures SqrtRatio(tick) > 0
  {
    var r := Ratio(Abs(tick), 20);
    RatioInRange(Abs(tick), 20);
    RoundedUp(r);
    RoundedUp(MAX_U256 / r);
    DivTimes(MAX_U256, r);
  }

  /** The same for the prices of any two ticks. */
  lemma TickMintWithinProvided(p: nat, tickLower: int, tickUpper: int, give: Provided)
    requires MintBetween(p, SqrtRatio(tickLower), SqrtRatio(tickUpper), give).Some?
    ensures var m := MintBetween(p, SqrtRatio(tickLower), SqrtRatio(tickUpper), give).value;
            match Basis(m.kind, give)
            case None => m.liquidity == 0 && m.amount0 == 0 && m.amount1 == 0
            case Some((Token0Only, given)) => m.amount0 <= given
            case Some((_, given)) => m.amount1 <= given
  {
    PricePositive(tickLower);
    PricePositive(tickUpper);
    MintWithinProvided(p, SqrtRatio(tickLower), SqrtRatio(tickUpper), give);
  }
}

/** Positional notation: values, minimal digit sequences and change of base, most significant digit first. */
module Radix {

  predicate IsDigits(b: nat, s: seq<nat>) {
    forall i :: 0 <= i < |s| ==> s[i] < b
  }

  /** No leading zero digit. */
  predicate Minimal(s: seq<nat>) {
    s == [] || s[0] != 0
  }

  function Value(b: nat, s: seq<nat>): nat {
    if s == [] then 0 else Value(b, s[..|s| - 1]) * b + s[|s| - 1]
  }

  function Digits(b: nat, n: nat): seq<nat>
    requires b >= 2
  {
    if n == 0 then []
    else
      Smaller(n, b);
      Digits(b, n / b) + [n % b]
  }

  function LeadingZeros(s: seq<nat>): (z: nat)
    ensures z <= |s| && (z < |s| ==> s[z] != 0)
    ensures forall i :: 0 <= i < z ==> s[i] == 0
  {
    if s == [] || s[0] != 0 then 0 else 1 + LeadingZeros(s[1..])
  }

  function Zeros(n: nat): seq<nat> { seq(n, _ => 0) }

  function Reversed<T>(s: seq<T>): (r: seq<T>)
    ensures |r| == |s| && forall i :: 0 <= i < |s| ==> r[i] == s[|s| - 1 - i]
  {
    seq(|s|, i requires 0 <= i < |s| => s[|s| - 1 - i])
  }

  function Pow(b: nat, k: nat): nat {
    if k == 0 then 1 else b * Pow(b, k - 1)
  }

  /** The digits in base `to` of the number `s` writes in base `from`, its leading zeros kept one for one. */
  function Recode(from: nat, to: nat, s: seq<nat>): seq<nat>
    requires to >= 2
  {
    Zeros(LeadingZeros(s)) + Digits(to, Value(from, s))
  }

  // ----- division facts

  lemma Scale(b: nat, x: int, y: int)
    requires x <= y
    ensures b * x <= b * y
  {
  }

  lemma Smaller(n: nat, b: nat)
    requires b >= 2 && n > 0
    ensures n / b < n
  {
    Scale(n / b, 2, b);
  }

  lemma DivMod(n: nat, b: nat)
    requires b > 0
    ensures n == (n / b) * b + n % b && n % b < b && (n / b == 0 ==> n % b == n)
  {
  }

  lemma DivModUnique(q: nat, b: nat, r: nat)
    requires r < b
    ensures (q * b + r) / b == q && (q * b + r) % b == r
  {
    var n := q * b + r;
    var d := n / b;
    if d < q {
      Scale(b, d + 1, q);
    } else {
      Scale(b, q, d);
      Scale(b, q + 1, d + 1);
      if d > q {
        Scale(b, q + 1, d);
      }
    }
  }

  // ----- values and digits

  lemma ValueAppend(b: nat, s: seq<nat>, x: nat)
    ensures Value(b, s + [x]) == Value(b, s) * b + x
  {
    assert (s + [x])[..|s|] == s;
  }

  lemma {:induction false} DigitsWellFormed(b: nat, n: nat)
    requires b >= 2
    ensures IsDigits(b, Digits(b, n)) && Minimal(Digits(b, n)) && Value(b, Digits(b, n)) == n
    decreases n
  {
    if n > 0 {
      Smaller(n, b);
      DigitsWellFormed(b, n / b);
      ValueAppend(b, Digits(b, n / b), n % b);
      DivMod(n, b);
    }
  }

  lemma {:induction false} ValuePositive(b: nat, s: seq<nat>)
    requires b >= 2 && s != [] && s[0] != 0
    ensures Value(b, s) > 0
  {
    if |s| > 1 {
      ValuePositive(b, s[..|s| - 1]);
      assert Value(b, s[..|s| - 1]) * b > 0;
    } else {
      assert Value(b, s[..0]) == 0;
    }
  }

  lemma {:induction false} DigitsOfValue(b: nat, s: seq<nat>)
    requires b >= 2 && IsDigits(b, s) && Minimal(s)
    ensures Digits(b, Value(b, s)) == s
  {
    if s != [] {
      var front, last := s[..|s| - 1], s[|s| - 1];
      DigitsOfValue(b, front);
      ValuePositive(b, s);
      DivModUnique(Value(b, front), b, last);
      assert s == front + [last];
    }
  }

  lemma {:induction false} ValueZeros(b: nat, z: nat, s: seq<nat>)
    ensures Value(b, Zeros(z) + s) == Value(b, s)
  {
    var all := Zeros(z) + s;
    if s != [] {
      assert all[..|all| - 1] == Zeros(z) + s[..|s| - 1];
      ValueZeros(b, z, s[..|s| - 1]);
    } else if z > 0 {
      assert all[..|all| - 1] == Zeros(z - 1) + [];
      ValueZeros(b, z - 1, []);
    }
  }

  lemma {:induction false} ValueCons(b: nat, x: nat, s: seq<nat>)
    ensures Value(b, [x] + s) == x * Pow(b, |s|) + Value(b, s)
  {
    var all := [x] + s;
    if s == [] {
      assert all[..0] == [];
      assert Value(b, all) == Value(b, []) * b + x;
    } else {
      var front := s[..|s| - 1];
      assert all[..|all| - 1] == [x] + front;
      ValueCons(b, x, front);
      assert (x * Pow(b, |front|) + Value(b, front)) * b == x * (b * Pow(b, |front|)) + Value(b, front) * b;
    }
  }

  /** Changing the base and back is the identity on digit sequences, leading zeros included. */
  lemma RecodeRoundTrip(from: nat, to: nat, s: seq<nat>)
    requires from >= 2 && to >= 2 && IsDigits(from, s)
    ensures IsDigits(to, Recode(from, to, s))
    ensures LeadingZeros(Recode(from, to, s)) == LeadingZeros(s)
    ensures Recode(to, from, Recode(from, to, s)) == s
  {
    var z := LeadingZeros(s);
    var tail, n := s[z..], Value(from, s);
    assert s == Zeros(z) + tail;
    ValueZeros(from, z, tail);
    DigitsOfValue(from, tail);
    DigitsWellFormed(to, n);
    var r := Recode(from, to, s);
    ValueZeros(to, z, Digits(to, n));
    LeadingZerosUnique(r, z);
  }

  lemma {:induction false} LeadingZerosUnique(s: seq<nat>, z: nat)
    requires z <= |s| && (z < |s| ==> s[z] != 0) && forall i :: 0 <= i < z ==> s[i] == 0
    ensures LeadingZeros(s) == z
  {
  }

  lemma ReversedSnoc<T>(p: seq<T>, x: T)
    ensures Reversed(p + [x]) == [x] + Reversed(p)
  {
  }

  /** A little-endian number with one more digit on top. */
  lemma ReversedValue(b: nat, p: seq<nat>, x: nat)
    ensures Value(b, Reversed(p + [x])) == x * Pow(b, |p|) + Value(b, Reversed(p))
  {
    ReversedSnoc(p, x);
    ValueCons(b, x, Reversed(p));
  }

  lemma BoundStep(b: nat, v: nat, p: nat, d: nat)
    requires v < p && d < b
    ensures v * b + d < b * p
  {
    Scale(b, v + 1, p);
    assert b * (v + 1) == v * b + b;
  }

  lemma {:induction false} ValueBound(b: nat, s: seq<nat>)
    requires b >= 2 && IsDigits(b, s)
    ensures Value(b, s) < Pow(b, |s|)
  {
    if s != [] {
      ValueBound(b, s[..|s| - 1]);
      BoundStep(b, Value(b, s[..|s| - 1]), Pow(b, |s| - 1), s[|s| - 1]);
    }
  }

  lemma {:induction false} DigitsLength(b: nat, n: nat, k: nat)
    requires b >= 2 && n < Pow(b, k)
    ensures |Digits(b, n)| <= k
    decreases k
  {
    if n > 0 {
      DivMod(n, b);
      if n / b >= Pow(b, k - 1) {
        Scale(b, Pow(b, k - 1), n / b);
      }
      DigitsLength(b, n / b, k - 1);
    }
  }

  lemma {:induction false} PowMonotone(b: nat, i: nat, j: nat)
    requires b >= 1 && i <= j
    ensures 1 <= Pow(b, i) <= Pow(b, j)
  {
    if i < j {
      PowMonotone(b, i, j - 1);
      Scale(Pow(b, j - 1), 1, b);
    } else if i > 0 {
      PowMonotone(b, i - 1, j - 1);
      Scale(Pow(b, j - 1), 1, b);
    }
  }
}

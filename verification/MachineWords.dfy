/** Bytes and 64-bit words as bit sequences, least significant bit first, and the C++ operators
    on them. Shifts drop what leaves the word. */
module MachineWords {

  type Bits = seq<bool>

  predicate IsByte(b: Bits) { |b| == 8 }

  predicate IsWord(w: Bits) { |w| == 64 }

  function Zeros(n: nat): (r: Bits)
    ensures |r| == n && forall k :: 0 <= k < n ==> !r[k]
  {
    seq(n, _ => false)
  }

  function Shl(w: Bits, s: nat): (r: Bits)
    ensures |r| == |w| && forall k :: 0 <= k < |w| ==> r[k] == (k >= s && w[k - s])
  {
    seq(|w|, k requires 0 <= k < |w| => k >= s && w[k - s])
  }

  function Shr(w: Bits, s: nat): (r: Bits)
    ensures |r| == |w| && forall k :: 0 <= k < |w| ==> r[k] == (k + s < |w| && w[k + s])
  {
    seq(|w|, k requires 0 <= k < |w| => k + s < |w| && w[k + s])
  }

  function And(a: Bits, b: Bits): (r: Bits)
    requires |a| == |b|
    ensures |r| == |a| && forall k :: 0 <= k < |a| ==> r[k] == (a[k] && b[k])
  {
    seq(|a|, k requires 0 <= k < |a| => a[k] && b[k])
  }

  function Or(a: Bits, b: Bits): (r: Bits)
    requires |a| == |b|
    ensures |r| == |a| && forall k :: 0 <= k < |a| ==> r[k] == (a[k] || b[k])
  {
    seq(|a|, k requires 0 <= k < |a| => a[k] || b[k])
  }

  function Not(a: Bits): (r: Bits)
    ensures |r| == |a| && forall k :: 0 <= k < |a| ==> r[k] == !a[k]
  {
    seq(|a|, k requires 0 <= k < |a| => !a[k])
  }

  /** One shifted left by k, at the given width. */
  function OneAt(k: nat, width: nat): (r: Bits)
    ensures |r| == width && forall j :: 0 <= j < width ==> r[j] == (j == k)
  {
    seq(width, j => j == k)
  }

  /** The n low bits set: one shifted left by n, minus one. */
  function LowMask(n: nat, width: nat): (r: Bits)
    ensures |r| == width && forall j :: 0 <= j < width ==> r[j] == (j < n)
  {
    seq(width, j => j < n)
  }

  /** Conversion of a byte to a word, and of a word to its low byte. */
  function Widen(b: Bits): (r: Bits)
    requires IsByte(b)
    ensures IsWord(r) && forall k :: 0 <= k < 64 ==> r[k] == (k < 8 && b[k])
  {
    b + Zeros(56)
  }

  function LowByte(w: Bits): (r: Bits)
    requires IsWord(w)
    ensures IsByte(r) && forall k :: 0 <= k < 8 ==> r[k] == w[k]
  {
    w[..8]
  }

  /** The number a bit sequence stands for. */
  function Value(b: Bits): nat {
    if b == [] then 0 else (if b[0] then 1 else 0) + 2 * Value(b[1..])
  }

  function Power(n: nat): (p: nat)
    ensures p > 0
  {
    if n == 0 then 1 else 2 * Power(n - 1)
  }

  lemma {:induction false} ValueBound(b: Bits)
    ensures Value(b) < Power(|b|)
  {
    if b != [] { ValueBound(b[1..]); }
  }

  lemma {:induction false} ValueSplit(a: Bits, b: Bits)
    ensures Value(a + b) == Value(a) + Power(|a|) * Value(b)
  {
    if a == [] {
      assert a + b == b;
    } else {
      ValueSplit(a[1..], b);
      assert (a + b)[1..] == a[1..] + b;
      Twice(Power(|a| - 1), Value(b));
    }
  }

  lemma Twice(p: nat, v: nat)
    ensures 2 * (p * v) == (2 * p) * v
  {
  }

  lemma {:induction false} ZerosAreZero(n: nat)
    ensures Value(Zeros(n)) == 0
  {
    if n > 0 {
      ZerosAreZero(n - 1);
      assert Zeros(n)[1..] == Zeros(n - 1);
    }
  }

  /** Shifting right is division; shifting left is multiplication modulo the word. */
  lemma ShrIsDivision(w: Bits, s: nat)
    requires s <= |w|
    ensures Value(Shr(w, s)) == Value(w) / Power(s)
  {
    assert w == w[..s] + w[s..];
    ValueSplit(w[..s], w[s..]);
    ValueBound(w[..s]);
    assert Shr(w, s) == w[s..] + Zeros(s);
    ValueSplit(w[s..], Zeros(s));
    ZerosAreZero(s);
    Quotient(Value(w), Power(s), Value(w[s..]), Value(w[..s]));
  }

  lemma ShlIsMultiplication(w: Bits, s: nat)
    requires s <= |w|
    ensures Value(Shl(w, s)) == Value(w) * Power(s) % Power(|w|)
  {
    var n := |w| - s;
    assert w == w[..n] + w[n..];
    ValueSplit(w[..n], w[n..]);
    assert Shl(w, s) == Zeros(s) + w[..n];
    ValueSplit(Zeros(s), w[..n]);
    ZerosAreZero(s);
    ValueBound(w[..n]);
    PowerSum(n, s);
    Remainder(Power(n), Power(s), Value(w[..n]), Value(w[n..]));
  }

  lemma {:induction false} PowerSum(a: nat, b: nat)
    ensures Power(a + b) == Power(a) * Power(b)
  {
    if a > 0 {
      PowerSum(a - 1, b);
      Twice(Power(a - 1), Power(b));
    }
  }

  lemma Quotient(v: nat, p: nat, q: nat, r: nat)
    requires p > 0 && v == r + p * q && r < p
    ensures v / p == q
  {
    if v / p < q { Scale(v / p + 1, q, p); } else if v / p > q { Scale(q + 1, v / p, p); }
  }

  lemma Scale(a: nat, b: nat, p: nat)
    requires a <= b
    ensures a * p <= b * p
  {
  }

  lemma Remainder(pn: nat, ps: nat, low: nat, high: nat)
    requires pn > 0 && ps > 0 && low < pn
    ensures pn * ps > 0 && (low + pn * high) * ps % (pn * ps) == ps * low
  {
    var m, x := pn * ps, (low + pn * high) * ps;
    Spread(low, pn, high, ps);
    assert x == ps * low + m * high;
    Scale(low + 1, pn, ps);
    Quotient(x, m, high, ps * low);
  }

  lemma Spread(low: nat, pn: nat, high: nat, ps: nat)
    ensures (low + pn * high) * ps == ps * low + (pn * ps) * high
  {
  }

  lemma {:induction false} LowMaskIsPowerMinusOne(n: nat, width: nat)
    requires n <= width
    ensures Value(LowMask(n, width)) == Power(n) - 1
    decreases n
  {
    if n > 0 {
      LowMaskIsPowerMinusOne(n - 1, width - 1);
      assert LowMask(n, width)[1..] == LowMask(n - 1, width - 1);
    } else {
      assert LowMask(0, width) == Zeros(width);
      ZerosAreZero(width);
    }
  }
}

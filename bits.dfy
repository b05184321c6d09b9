/** Fixed-width unsigned integers and the power-of-two arithmetic that the
    shifts and masks of the library reduce to: `x >> k` is `x / Pow2(k)`,
    `x << k` is `x * Pow2(k)`, `x & (2^k - 1)` is `x % Pow2(k)`. */
module Bits {

  type U8 = x: nat | x < 0x100
  type U16 = x: nat | x < 0x1_0000
  type U32 = x: nat | x < 0x1_0000_0000
  type U64 = x: nat | x < 0x1_0000_0000_0000_0000

  function Pow2(n: nat): (r: nat)
    ensures r > 0
  {
    if n == 0 then 1 else 2 * Pow2(n - 1)
  }

  /** Division whose result is a `nat` by its type, so that callers dividing
      by a power of two need not prove it. */
  function Div(x: nat, d: nat): nat
    requires d > 0
  {
    x / d
  }

  lemma Pow2Small()
    ensures Pow2(1) == 2 && Pow2(2) == 4
  {
  }

  /** The powers of two of a byte and of a 16-bit chunk. */
  lemma Pow2Chunk()
    ensures Pow2(8) == 0x100 && Pow2(16) == 0x1_0000
  {
    Pow2Narrow();
  }

  lemma Pow2Narrow()
    ensures Pow2(1) == 2 && Pow2(2) == 4 && Pow2(4) == 16 && Pow2(8) == 0x100
    ensures Pow2(16) == 0x1_0000 && Pow2(22) == 0x40_0000 && Pow2(23) == 0x80_0000
    ensures Pow2(24) == 0x100_0000
  {
    assert Pow2(4) == 16 by { assert Pow2(3) == 8; }
    assert Pow2(8) == 0x100 by { Pow2Add(4, 4); }
    assert Pow2(16) == 0x1_0000 by { Pow2Add(8, 8); }
    assert Pow2(20) == 0x10_0000 by { Pow2Add(16, 4); }
    assert Pow2(22) == 0x40_0000 by { Pow2Add(20, 2); }
    assert Pow2(23) == 0x80_0000 by { Pow2Add(22, 1); }
    assert Pow2(24) == 0x100_0000 by { Pow2Add(16, 8); }
  }

  lemma Pow2Wide()
    ensures Pow2(32) == 0x1_0000_0000 && Pow2(44) == 0x1000_0000_0000
    ensures Pow2(48) == 0x1_0000_0000_0000 && Pow2(64) == 0x1_0000_0000_0000_0000
  {
    Pow2Word();
    assert Pow2(44) == 0x1000_0000_0000 by { Pow2Narrow(); Pow2Add(22, 22); }
    assert Pow2(48) == 0x1_0000_0000_0000 by { Pow2Narrow(); Pow2Add(24, 24); }
    assert Pow2(64) == 0x1_0000_0000_0000_0000 by { Pow2Add(32, 32); }
  }

  lemma Pow2Word()
    ensures Pow2(32) == 0x1_0000_0000
  {
    Pow2Chunk();
    Pow2Add(16, 16);
  }

  lemma {:induction false} Pow2Add(a: nat, b: nat)
    ensures Pow2(a + b) == Pow2(a) * Pow2(b)
  {
    if a > 0 {
      Pow2Add(a - 1, b);
      MulAssoc2(Pow2(a - 1), Pow2(b));
    }
  }

  lemma MulAssoc2(x: int, y: int)
    ensures 2 * (x * y) == (2 * x) * y
  {
  }

  lemma Pow2Mono(a: nat, b: nat)
    requires a <= b
    ensures Pow2(a) <= Pow2(b)
  {
    var d := b - a;
    Pow2Add(a, d);
    PosMul(Pow2(a), Pow2(d));
  }

  lemma ZeroMod(m: int)
    requires m > 0
    ensures 0 % m == 0
  {
  }

  lemma MulOne(a: int, b: int)
    requires b == 1
    ensures a * b == a
  {
  }

  lemma PosMul(x: nat, y: nat)
    requires y > 0
    ensures x <= x * y
  {
  }

  lemma MulMono(a: nat, b: nat, m: nat)
    requires a <= b
    ensures a * m <= b * m
  {
  }

  /** Appending the digits of `b` below those of `a`. */
  lemma MulAddAssoc(a: int, b: int, y: int, wa: int, wb: int, w: int)
    requires w == wa * wb
    ensures a * w + (b * wb + y) == (a * wa + b) * wb + y
  {
    calc {
      (a * wa + b) * wb + y;
      (a * wa) * wb + b * wb + y;
      a * (wa * wb) + b * wb + y;
      a * w + b * wb + y;
    }
  }

  /** `MulAddAssoc`, with the digits `a * wa + b` already joined into `c`. */
  lemma DigitsShift(a: int, b: int, c: int, y: int, wa: int, wb: int, w: int)
    requires w == wa * wb && c == a * wa + b
    ensures a * w + (b * wb + y) == c * wb + y
  {
    MulAddAssoc(a, b, y, wa, wb, w);
  }

  lemma DivMod(x: nat, m: nat)
    requires m > 0
    ensures x == (x / m) * m + x % m
  {
  }

  /** Euclidean division is determined by quotient and remainder. */
  lemma DivModUnique(x: int, m: int, q: int, r: int)
    requires m > 0 && 0 <= r < m && x == q * m + r
    ensures x / m == q && x % m == r
  {
    var d := q - x / m;
    assert d * m == x % m - r;
    assert d == 0;
  }

  /** A value below `k * m` has a quotient by `m` below `k`. */
  lemma DivBelow(x: nat, m: nat, k: nat)
    requires m > 0 && x < k * m
    ensures x / m < k
  {
  }

  /** Splitting a number into a low part of weight `a` and a high part of weight `b`. */
  lemma DivModNested(x: nat, a: nat, b: nat)
    requires a > 0 && b > 0
    ensures x / (a * b) == (x / a) / b
    ensures (x % (a * b)) / a == (x / a) % b
    ensures (x % (a * b)) % a == x % a
  {
    var q, r := x / a, x % a;
    var q2, r2 := q / b, q % b;
    assert x == q2 * (a * b) + (r2 * a + r) by {
      assert x == q * a + r;
      assert q == q2 * b + r2;
    }
    assert r2 * a + r < a * b by {
      MulMono(r2, b - 1, a);
    }
    DivModUnique(x, a * b, q2, r2 * a + r);
    DivModUnique(r2 * a + r, a, r2, r);
  }

  lemma Pow2Nested(x: nat, lo: nat, hi: nat)
    ensures x / Pow2(lo + hi) == (x / Pow2(lo)) / Pow2(hi)
    ensures (x % Pow2(lo + hi)) / Pow2(lo) == (x / Pow2(lo)) % Pow2(hi)
    ensures (x % Pow2(lo + hi)) % Pow2(lo) == x % Pow2(lo)
  {
    Pow2Add(lo, hi);
    DivModNested(x, Pow2(lo), Pow2(hi));
  }

  /** Complementing within `lo + hi` bits complements the high and the low part. */
  lemma ComplementSplit(v: nat, lo: nat, hi: nat)
    requires v < Pow2(lo + hi)
    ensures (Pow2(lo + hi) - 1 - v) / Pow2(lo) == Pow2(hi) - 1 - v / Pow2(lo)
    ensures (Pow2(lo + hi) - 1 - v) % Pow2(lo) == Pow2(lo) - 1 - v % Pow2(lo)
  {
    Pow2Add(lo, hi);
    ComplementDigits(v, Pow2(lo), Pow2(hi), Pow2(lo + hi));
  }

  lemma ComplementDigits(v: nat, a: nat, b: nat, w: nat)
    requires a > 0 && b > 0 && w == a * b && v < w
    ensures (w - 1 - v) / a == b - 1 - v / a
    ensures (w - 1 - v) % a == a - 1 - v % a
  {
    var q, r := v / a, v % a;
    DivBelow(v, a, b);
    assert w - 1 - v == (b - 1 - q) * a + (a - 1 - r);
    DivModUnique(w - 1 - v, a, b - 1 - q, a - 1 - r);
  }

  /** The digit of weight `Pow2(n)` of a value below `Pow2(n + 1)`. */
  lemma TopDigit(x: nat, n: nat)
    requires x < Pow2(n + 1)
    ensures x / Pow2(n) < 2
    ensures x == (x / Pow2(n)) * Pow2(n) + x % Pow2(n)
  {
    DivBelow(x, Pow2(n), 2);
  }

  /** `x % Pow2(n)` on an `int`: the value an `n`-bit wrapping operation keeps. */
  function Wrap(v: int, n: nat): (r: nat)
    ensures r < Pow2(n)
  {
    v % Pow2(n)
  }

  /** Wrapping leaves a value that fits alone. */
  lemma WrapSmall(v: int, n: nat)
    requires 0 <= v < Pow2(n)
    ensures Wrap(v, n) == v
  {
    DivModUnique(v, Pow2(n), 0, v);
  }

  /** Wrapping to `n` bits leaves the low `k <= n` bits alone. */
  lemma WrapLow(v: int, k: nat, n: nat)
    requires k <= n
    ensures Wrap(v, n) % Pow2(k) == v % Pow2(k)
  {
    var j := n - k;
    assert Pow2(n) == Pow2(j) * Pow2(k) by { Pow2Add(k, j); }
    assert Wrap(v, n) == v % Pow2(n);
    ModOfMod(v, Pow2(k), Pow2(j), Pow2(n));
  }

  lemma ModOfMod(v: int, a: int, b: int, w: int)
    requires a > 0 && b > 0 && w == b * a
    ensures (v % w) % a == v % a
  {
    var q, r := v / w, v % w;
    var q1, r1 := r / a, r % a;
    MulAddAssoc(q, q1, r1, b, a, w);
    DivModUnique(v, a, q * b + q1, r1);
  }

  /** Complementing a value within `k` bits, `2^k - 1 - v`, keeps only its low `k` bits. */
  lemma ComplementLow(v: int, k: nat)
    ensures (Pow2(k) - 1 - v) % Pow2(k) == Pow2(k) - 1 - v % Pow2(k)
  {
    var q, r := v / Pow2(k), v % Pow2(k);
    assert Pow2(k) - 1 - v == (-q) * Pow2(k) + (Pow2(k) - 1 - r);
    DivModUnique(Pow2(k) - 1 - v, Pow2(k), -q, Pow2(k) - 1 - r);
  }

  /** Bitwise exclusive or, one bit at a time from the least significant. */
  function Xor(a: nat, b: nat): (r: nat)
    ensures r % 2 == (a + b) % 2
    decreases a + b
  {
    if a == 0 then b
    else if b == 0 then a
    else 2 * Xor(a / 2, b / 2) + (a + b) % 2
  }
}

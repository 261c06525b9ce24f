/**
 * Fixed-width unsigned integers and the bit operations the index code applies to them.
 * C++ `uint64_t` arithmetic wraps modulo 2^64; the shift, add and mask operators are
 * written out on unbounded integers so that the wrap-around is explicit.
 */
module BitOps {

  const Word: nat := 0x1_0000_0000_0000_0000

  type uint32 = x: int | 0 <= x < 0x1_0000_0000
  type uint64 = x: int | 0 <= x < 0x1_0000_0000_0000_0000

  function Pow2(k: nat): (r: nat)
    ensures r >= 1
  {
    if k == 0 then 1 else 2 * Pow2(k - 1)
  }

  /** `x << k` on `uint64_t`: bits shifted past bit 63 are lost. */
  function Shl(x: uint64, k: nat): uint64
  {
    (x * Pow2(k)) % Word
  }

  /** `x >> k` on `uint64_t`. */
  function Shr(x: uint64, k: nat): uint64
  {
    var p := Pow2(k);
    DivAtMost(x, p);
    x / p
  }

  lemma DivAtMost(x: nat, d: nat)
    requires d >= 1
    ensures 0 <= x / d <= x
  {
    var q := x / d;
    assert x == d * q + x % d;
    MulMonotone(1, d, q);
  }

  /** `a + b` on `uint64_t`. */
  function Add(a: uint64, b: uint64): uint64
  {
    (a + b) % Word
  }

  /** Bitwise `a & b`, bit by bit from the least significant one. */
  function BitAnd(a: nat, b: nat): (r: nat)
    ensures r <= a
  {
    if a == 0 || b == 0 then 0 else 2 * BitAnd(a / 2, b / 2) + (a % 2) * (b % 2)
  }

  /** `succinct::broadword::msb`: index of the most significant set bit (undefined for 0). */
  function Msb(x: nat): nat
    requires x >= 1
  {
    if x == 1 then 0 else 1 + Msb(x / 2)
  }

  lemma Pow2Monotone(a: nat, b: nat)
    requires a <= b
    ensures Pow2(a) <= Pow2(b)
  {
    if a < b {
      Pow2Monotone(a, b - 1);
    }
  }

  lemma {:induction false} MsbOfPow2(k: nat)
    ensures Msb(Pow2(k)) == k
  {
    if k > 0 {
      assert Pow2(k) / 2 == Pow2(k - 1);
      MsbOfPow2(k - 1);
    }
  }

  lemma MulMonotone(a: int, b: int, c: nat)
    requires a <= b
    ensures a * c <= b * c
  {
  }

  /** A shift that loses no bit is a multiplication. */
  lemma ShlExact(x: uint64, k: nat)
    requires x * Pow2(k) < Word
    ensures Shl(x, k) == x * Pow2(k)
  {
  }

  /** An addition that does not reach 2^64 does not wrap. */
  lemma AddExact(a: uint64, b: uint64)
    requires a + b < Word
    ensures Add(a, b) == a + b
  {
  }

  /** Euclidean division is unique: any decomposition v == d*q + r with 0 <= r < d is v's. */
  lemma DivModUnique(v: nat, d: nat, q: nat, r: nat)
    requires d > 0 && 0 <= r < d && v == d * q + r
    ensures v / d == q && v % d == r
  {
    var q', r' := v / d, v % d;
    assert v == d * q' + r';
    if q' < q {
      MulMonotone(q' + 1, q, d);
      assert false;
    } else if q < q' {
      MulMonotone(q + 1, q', d);
      assert false;
    }
  }

  /** DivModUnique for a value written as quotient times divisor plus remainder. */
  lemma DivModOfExact(v: nat, d: nat, q: nat, r: nat)
    requires d > 0 && 0 <= r < d && v == q * d + r
    ensures v / d == q && v % d == r
  {
    DivModUnique(v, d, q, r);
  }

  /** Splitting off the lowest bit: v mod 2q is twice (v/2 mod q) plus v's lowest bit. */
  lemma ModOfDouble(v: nat, q: nat)
    requires q > 0
    ensures v % (2 * q) == 2 * ((v / 2) % q) + v % 2
  {
    var h, a, b := v / 2, (v / 2) / q, (v / 2) % q;
    assert v == 2 * h + v % 2;
    assert h == q * a + b;
    assert v == (2 * q) * a + (2 * b + v % 2);
    DivModUnique(v, 2 * q, a, 2 * b + v % 2);
  }

  /** ANDing with an odd mask keeps the lowest bit and ANDs the rest. */
  lemma BitAndOddMask(a: nat, m: nat)
    requires a > 0 && m % 2 == 1
    ensures BitAnd(a, m) == 2 * BitAnd(a / 2, m / 2) + a % 2
  {
    assert (a % 2) * (m % 2) == a % 2;
  }

  /** Masking with 2^k - 1 keeps the low k bits: `v & (2^k - 1) == v mod 2^k`. */
  lemma {:induction false} MaskIsMod(v: nat, k: nat)
    ensures BitAnd(v, Pow2(k) - 1) == v % Pow2(k)
  {
    var p := Pow2(k);
    if k == 0 {
      assert p == 1;
    } else if v == 0 {
      DivModUnique(0, p, 0, 0);
    } else {
      var q := Pow2(k - 1);
      var m := p - 1;
      assert p == 2 * q;
      assert m / 2 == q - 1 && m % 2 == 1;
      BitAndOddMask(v, m);
      MaskIsMod(v / 2, k - 1);
      assert BitAnd(v / 2, q - 1) == (v / 2) % q;
      ModOfDouble(v, q);
      assert BitAnd(v, m) == v % (2 * q);
    }
  }
}

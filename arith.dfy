/**
 * Fixed-width integer arithmetic shared by the prefetcher model.
 *
 * Dafny integers are unbounded; the C++ source works on `uint64_t` addresses,
 * `int32_t` index values and `int64_t` target values. Every wrap-around the
 * source relies on is written out here: unsigned values are reduced modulo
 * 2^n, signed values are mapped to the two's complement range of n bits.
 */
module Arith {

  const U32: int := 0x1_0000_0000
  const U64: int := 0x1_0000_0000_0000_0000
  const I64Max: int := 0x7fff_ffff_ffff_ffff

  /** An 8-bit unsigned value (`uint8_t`, `unsigned char`). */
  type Byte = x: int | 0 <= x < 256

  /** `std::min`. */
  function Min(a: int, b: int): int
  {
    if a < b then a else b
  }

  /** 2^n */
  function Pow2(n: nat): (r: nat)
    ensures r >= 1
  {
    if n == 0 then 1 else 2 * Pow2(n - 1)
  }

  lemma {:induction false} Pow2Add(a: nat, b: nat)
    ensures Pow2(a + b) == Pow2(a) * Pow2(b)
  {
    if a > 0 {
      Pow2Add(a - 1, b);
      assert Pow2(a + b) == 2 * Pow2(a - 1 + b);
    }
  }

  lemma {:induction false} Pow2Monotone(a: nat, b: nat)
    requires a <= b
    ensures Pow2(a) <= Pow2(b)
    decreases b
  {
    if a < b {
      Pow2Monotone(a, b - 1);
    }
  }

  /** One more byte multiplies the range by 256. */
  lemma Pow2Byte(n: nat)
    ensures Pow2(8 * n + 8) == 256 * Pow2(8 * n)
  {
    Pow2Add(8 * n, 8);
    assert Pow2(8) == 256;
  }

  lemma Pow2Values()
    ensures Pow2(32) == U32 && Pow2(64) == U64 && Pow2(31) * 2 == U32
  {
    assert Pow2(8) == 256;
    assert Pow2(16) == 65536 by { Pow2Add(8, 8); }
    assert Pow2(32) == U32 by { Pow2Add(16, 16); }
    assert Pow2(64) == U64 by { Pow2Add(32, 32); }
  }

  /** Two's complement reading of the low `bits` bits of x (a C cast to a signed type of that width). */
  function Signed(x: int, bits: nat): (r: int)
    requires bits >= 1
    ensures -(Pow2(bits - 1) as int) <= r < Pow2(bits - 1)
  {
    var m := Pow2(bits);
    var h := Pow2(bits - 1);
    assert m == 2 * h;
    (x + h) % m - h
  }

  /** The value of x reduced modulo 2^bits (a C cast to an unsigned type of that width). */
  function Unsigned(x: int, bits: nat): (r: nat)
    ensures r < Pow2(bits)
  {
    x % Pow2(bits)
  }

  /** Euclidean remainder facts Dafny needs spelled out. */
  lemma ModShift(x: int, m: int)
    requires m > 0
    ensures 0 <= x % m < m
    ensures (x % m - x) % m == 0
  {
    var q := x / m;
    assert x == q * m + x % m;
    assert x % m - x == (-q) * m;
    MultipleMod(-q, m);
  }

  lemma MultipleMod(k: int, m: int)
    requires m > 0
    ensures (k * m) % m == 0
  {
    DivModUnique(k * m, m, k, 0);
  }

  /** Floor division of a non-negative value by a positive one. */
  lemma DivFacts(a: int, b: int)
    requires a >= 0 && b > 0
    ensures a / b >= 0
    ensures (a / b) * b <= a < (a / b) * b + b
    ensures a % b == a - (a / b) * b
  {
    var q := a / b;
    assert a == q * b + a % b;
    if q < 0 {
      MulAtLeast(-q, b);
    }
  }

  /** A positive multiple of m is at least m. */
  lemma MulAtLeast(a: int, m: int)
    requires a >= 1 && m > 0
    ensures a * m >= m
  {
    assert a * m == (a - 1) * m + m;
    NonNegProduct(a - 1, m);
  }

  lemma Distribute(x: int, y: int, m: int)
    ensures (x + y) * m == x * m + y * m
  {
  }

  lemma NonNegProduct(a: int, b: int)
    requires a >= 0 && b >= 0
    ensures a * b >= 0
  {
  }

  /** Adding to a value before or after reducing it modulo m gives the same remainder. */
  lemma ModAddLeft(a: int, b: int, m: int)
    requires m > 0
    ensures (a % m + b) % m == (a + b) % m
  {
    var q := a / m;
    var r := a % m;
    assert a == q * m + r;
    var q2 := (r + b) / m;
    var r2 := (r + b) % m;
    assert r + b == q2 * m + r2;
    assert a + b == (q + q2) * m + r2 by { Distribute(q, q2, m); }
    DivModUnique(a + b, m, q + q2, r2);
  }

  lemma DivModUnique(x: int, m: int, q: int, r: int)
    requires m > 0 && 0 <= r < m && x == q * m + r
    ensures x % m == r && x / m == q
  {
    var q0 := x / m;
    var r0 := x % m;
    assert x == q0 * m + r0;
    assert q * m - q0 * m == r0 - r;
    assert (q - q0) * m == q * m - q0 * m;
    if q > q0 {
      MulAtLeast(q - q0, m);
    } else if q < q0 {
      MulAtLeast(q0 - q, m);
    }
  }

  /** A signed value already in range reads back as itself. */
  lemma SignedInRange(x: int, bits: nat)
    requires bits >= 1
    requires -(Pow2(bits - 1) as int) <= x < Pow2(bits - 1)
    ensures Signed(x, bits) == x
  {
    var m := Pow2(bits);
    var h := Pow2(bits - 1);
    DivModUnique(x + h, m, 0, x + h);
  }

  /** Reading an unsigned value of `bits` bits as signed and back loses nothing. */
  lemma UnsignedOfSigned(x: int, bits: nat)
    requires bits >= 1 && 0 <= x < Pow2(bits)
    ensures Unsigned(Signed(x, bits), bits) == x
  {
    var m := Pow2(bits);
    var h := Pow2(bits - 1);
    assert m == 2 * h;
    if x < h {
      SignedInRange(x, bits);
      DivModUnique(x, m, 0, x);
    } else {
      SignedInRange(x - m, bits);
      SignedPeriodic(x - m, bits);
      DivModUnique(x - m, m, -1, x);
    }
  }

  /** The signed reading depends only on the value modulo 2^bits. */
  lemma SignedPeriodic(x: int, bits: nat)
    requires bits >= 1
    ensures Signed(x + Pow2(bits), bits) == Signed(x, bits)
  {
    var m := Pow2(bits);
    var h := Pow2(bits - 1);
    ModPeriod(x + h, m);
    assert x + m + h == (x + h) + m;
  }

  /** Adding the modulus does not change the remainder. */
  lemma ModPeriod(a: int, m: int)
    requires m > 0
    ensures (a + m) % m == a % m
  {
    ModAddLeft(a, m, m);
    DivModUnique(a % m + m, m, 1, a % m);
  }

  /** Subtracting step by step in the narrow type equals subtracting once and narrowing at the end. */
  lemma SignedSubtract(x: int, d: int, bits: nat)
    requires bits >= 1
    ensures Signed(Signed(x, bits) - d, bits) == Signed(x - d, bits)
  {
    var m := Pow2(bits);
    var h := Pow2(bits - 1);
    assert Signed(x, bits) - d + h == (x + h) % m + -d;
    assert x - d + h == (x + h) + -d;
    ModAddLeft(x + h, -d, m);
  }

  /** Advancing a cursor modulo n one step at a time. */
  lemma ModSucc(x: nat, n: nat)
    requires n > 0
    ensures ((x % n) + 1) % n == (x + 1) % n
  {
    var q := x / n;
    DivFacts(x, n);
    assert x + 1 == q * n + (x % n + 1);
    if x % n + 1 < n {
      DivModUnique(x + 1, n, q, x % n + 1);
      DivModUnique(x % n + 1, n, 0, x % n + 1);
    } else {
      assert x + 1 == (q + 1) * n + 0;
      DivModUnique(x + 1, n, q + 1, 0);
      DivModUnique(x % n + 1, n, 1, 0);
    }
  }

  /** An arithmetic right shift of a signed value (floor division by 2^s). */
  function ShiftRight(x: int, s: nat): (r: int)
    ensures r * Pow2(s) <= x < (r + 1) * Pow2(s)
    ensures x >= 0 ==> 0 <= r <= x
  {
    var p := Pow2(s);
    assert x == (x / p) * p + x % p;
    assert x >= 0 ==> 0 <= x / p <= x by {
      if x >= 0 {
        DivFacts(x, p);
        if x / p >= 1 {
          MulAtLeast(p, x / p);
        }
      }
    }
    x / p
  }
}

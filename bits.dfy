/**
 * Unsigned machine integers as bounded naturals, and the bit operations the
 * solver applies to them: the `&` with a low mask, the `|` with a single bit,
 * and the `>>` and `<<` shifts of a 256-bit integer.
 */
module Bits {

  const TWO_8: nat := 0x100
  const TWO_31: nat := 0x8000_0000
  const TWO_32: nat := 0x1_0000_0000
  const TWO_64: nat := 0x1_0000_0000_0000_0000
  const TWO_160: nat := 0x1_0000_0000_0000_0000_0000_0000_0000_0000_0000_0000
  const TWO_192: nat := 0x1_0000_0000_0000_0000_0000_0000_0000_0000_0000_0000_0000_0000
  const TWO_224: nat := 0x1_0000_0000_0000_0000_0000_0000_0000_0000_0000_0000_0000_0000_0000_0000
  const TWO_225: nat := 0x2_0000_0000_0000_0000_0000_0000_0000_0000_0000_0000_0000_0000_0000_0000
  const TWO_256: nat := 0x1_0000_0000_0000_0000_0000_0000_0000_0000_0000_0000_0000_0000_0000_0000_0000_0000

  /** Rust's `u64`. */
  type U64 = x: nat | x < TWO_64

  /** The 256-bit unsigned integer of the EVM word (`U256`). */
  type U256 = x: nat | x < TWO_256

  /** `u64::MAX`. */
  const U64_MAX: U64 := TWO_64 - 1

  function Pow2(n: nat): (r: nat)
    ensures r > 0
  {
    if n == 0 then 1 else 2 * Pow2(n - 1)
  }

  lemma {:induction false} Pow2Add(a: nat, b: nat)
    ensures Pow2(a + b) == Pow2(a) * Pow2(b)
  {
    if b > 0 {
      Pow2Add(a, b - 1);
      assert Pow2(a + b) == 2 * Pow2(a + b - 1);
    }
  }

  lemma Pow2Of8()
    ensures Pow2(8) == TWO_8
  {
    assert Pow2(1) == 2;
    assert Pow2(2) == 4;
    assert Pow2(3) == 8;
    assert Pow2(4) == 16;
    assert Pow2(5) == 32;
    assert Pow2(6) == 64;
    assert Pow2(7) == 128;
  }

  lemma Pow2Of16()
    ensures Pow2(16) == 0x1_0000
  {
    Pow2Of8();
    Pow2Add(8, 8);
  }

  lemma Pow2Of32()
    ensures Pow2(32) == 0x1_0000_0000
  {
    Pow2Of16();
    Pow2Add(16, 16);
  }

  lemma Pow2Of64()
    ensures Pow2(64) == TWO_64
  {
    Pow2Of32();
    Pow2Add(32, 32);
  }

  lemma Pow2Of128()
    ensures Pow2(128) == 0x1_0000_0000_0000_0000_0000_0000_0000_0000
  {
    Pow2Of64();
    Pow2Add(64, 64);
  }

  lemma Pow2Of160()
    ensures Pow2(160) == TWO_160
  {
    Pow2Of128();
    Pow2Of32();
    Pow2Add(128, 32);
  }

  lemma Pow2Of224()
    ensures Pow2(224) == TWO_224 && Pow2(225) == TWO_225
  {
    Pow2Of160();
    Pow2Of64();
    Pow2Add(160, 64);
    assert Pow2(225) == 2 * Pow2(224);
  }

  lemma Pow2Of256()
    ensures Pow2(256) == TWO_256
  {
    Pow2Of128();
    Pow2Add(128, 128);
  }

  /** The powers of two that the word layout uses, as literals. */
  lemma Pow2Constants()
    ensures Pow2(8) == TWO_8 && Pow2(64) == TWO_64 && Pow2(160) == TWO_160
    ensures Pow2(224) == TWO_224 && Pow2(225) == TWO_225 && Pow2(256) == TWO_256
  {
    Pow2Of8();
    Pow2Of64();
    Pow2Of160();
    Pow2Of224();
    Pow2Of256();
  }

  /** Each further byte multiplies the range of a big-endian number by 256. */
  lemma Pow2NextByte(n: nat)
    ensures Pow2(8 * (n + 1)) == TWO_8 * Pow2(8 * n)
  {
    Pow2Of8();
    Pow2Add(8 * n, 8);
  }

  lemma MulAssoc(a: int, b: int, c: int)
    ensures (a * b) * c == a * (b * c)
  {
  }

  lemma MulLe(a: int, b: int, d: nat)
    requires a <= b
    ensures a * d <= b * d
  {
    assert b * d - a * d == (b - a) * d;
  }

  /** Euclidean division has one quotient and one remainder. */
  lemma DivModUnique(x: int, d: int, q: int, r: int)
    requires d > 0 && 0 <= r < d && x == q * d + r
    ensures x / d == q && x % d == r
  {
    var q', r' := x / d, x % d;
    assert x == q' * d + r';
    if q' > q {
      MulLe(q + 1, q', d);
      assert false;
    } else if q' < q {
      MulLe(q' + 1, q, d);
      assert false;
    }
  }

  lemma DivDiv(x: nat, a: nat, b: nat)
    requires a > 0 && b > 0
    ensures x / a / b == x / (a * b)
  {
    var q, r := x / a, x % a;
    var q2, r2 := q / b, q % b;
    assert q == b * q2 + r2;
    assert a * q == a * (b * q2) + a * r2;
    assert a * (b * q2) == (a * b) * q2;
    MulLe(r2, b - 1, a);
    assert (b - 1) * a == a * b - a;
    DivModUnique(x, a * b, q2, a * r2 + r);
  }

  lemma ModDouble(x: nat, p: nat)
    requires p > 0
    ensures x % (2 * p) == 2 * ((x / 2) % p) + x % 2
  {
    var q, r := (x / 2) / p, (x / 2) % p;
    assert x == (2 * p) * q + (2 * r + x % 2);
    DivModUnique(x, 2 * p, q, 2 * r + x % 2);
  }

  /** Bit `k` of `x`, counted from the least significant bit. */
  predicate Bit(x: nat, k: nat)
  {
    if k == 0 then x % 2 == 1 else Bit(x / 2, k - 1)
  }

  lemma {:induction false} BitIsDivMod(x: nat, k: nat)
    ensures Bit(x, k) == ((x / Pow2(k)) % 2 == 1)
  {
    if k > 0 {
      BitIsDivMod(x / 2, k - 1);
      DivDiv(x, 2, Pow2(k - 1));
    }
  }

  /** The bitwise `&` of two unsigned integers. */
  function And(a: nat, b: nat): (r: nat)
    decreases a
  {
    if a == 0 || b == 0 then 0
    else 2 * And(a / 2, b / 2) + (if a % 2 == 1 && b % 2 == 1 then 1 else 0)
  }

  /** The bitwise `|` of two unsigned integers. */
  function Or(a: nat, b: nat): (r: nat)
    decreases a
  {
    if a == 0 then b
    else if b == 0 then a
    else 2 * Or(a / 2, b / 2) + (if a % 2 == 1 || b % 2 == 1 then 1 else 0)
  }

  /** The logical `>>` of an unsigned integer. */
  function Shr(x: nat, n: nat): (r: nat)
  {
    var d := Pow2(n);
    DivOfNat(x, d);
    x / d
  }

  lemma DivOfNat(x: nat, d: int)
    requires d > 0
    ensures x / d >= 0
  {
  }

  /** The `<<` of a `U256`: bits shifted past bit 255 are dropped. */
  function Shl(x: U256, n: nat): (r: U256)
  {
    (x * Pow2(n)) % TWO_256
  }

  /** A shift that pushes no bit past bit 255 is a multiplication. */
  lemma ShlNoWrap(x: U256, n: nat)
    requires x * Pow2(n) < TWO_256
    ensures Shl(x, n) == x * Pow2(n)
  {
    DivModUnique(x * Pow2(n), TWO_256, 0, x * Pow2(n));
  }

  /** `x & (2^n - 1)` keeps exactly the low `n` bits. */
  lemma {:induction false} AndLowMask(x: nat, n: nat)
    ensures And(x, Pow2(n) - 1) == x % Pow2(n)
  {
    if n == 0 {
      assert Pow2(n) == 1;
    } else if x == 0 {
      DivModUnique(0, Pow2(n), 0, 0);
    } else {
      var p := Pow2(n - 1);
      var m := Pow2(n) - 1;
      assert Pow2(n) == 2 * p;
      assert m / 2 == p - 1 && m % 2 == 1;
      assert And(x, m) == 2 * And(x / 2, p - 1) + x % 2;
      AndLowMask(x / 2, n - 1);
      ModDouble(x, p);
      assert x % Pow2(n) == x % (2 * p);
    }
  }

  /** `x | 2^k` adds `2^k` exactly when bit `k` of `x` is clear. */
  lemma {:induction false} OrSingleBit(x: nat, k: nat)
    ensures Or(x, Pow2(k)) == if Bit(x, k) then x else x + Pow2(k)
  {
    if x > 0 && k > 0 {
      OrSingleBit(x / 2, k - 1);
    }
    if x == 0 {
      NoBitsOfZero(k);
    }
  }

  lemma {:induction false} NoBitsOfZero(k: nat)
    ensures !Bit(0, k)
  {
    if k > 0 {
      NoBitsOfZero(k - 1);
    }
  }

  /** Adding `2^k` to a number whose bit `k` is clear sets that bit and no other. */
  lemma {:induction false} AddPow2Bits(x: nat, k: nat, j: nat)
    requires !Bit(x, k)
    ensures Bit(x + Pow2(k), j) == (j == k || Bit(x, j))
  {
    if k == 0 {
      if j > 0 {
        assert (x + 1) / 2 == x / 2;
      }
    } else {
      assert (x + Pow2(k)) / 2 == x / 2 + Pow2(k - 1);
      if j > 0 {
        AddPow2Bits(x / 2, k - 1, j - 1);
      }
    }
  }

  /** Setting a clear bit below bit `n` keeps a number below `2^n`. */
  lemma {:induction false} AddPow2Below(x: nat, k: nat, n: nat)
    requires k < n && x < Pow2(n) && !Bit(x, k)
    ensures x + Pow2(k) < Pow2(n)
  {
    var h, p := x / 2, Pow2(n - 1);
    assert Pow2(n) == 2 * p;
    assert x == 2 * h + x % 2;
    assert h < p;
    if k == 0 {
      assert x % 2 == 0;
    } else {
      assert Pow2(k) == 2 * Pow2(k - 1);
      AddPow2Below(h, k - 1, n - 1);
    }
  }
}

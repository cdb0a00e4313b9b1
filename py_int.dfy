/**
 * Python's integer shift and bitwise operators, on unbounded integers.
 *
 * Python integers have no width: `x >> n` is floor division by 2^n, `x << n`
 * multiplication by 2^n, and `&`, `|` act on an infinite two's-complement bit
 * string. The driver only ever masks with non-negative constants and ORs
 * non-negative values, so `And` takes a non-negative mask and `Or` two
 * non-negative operands; the value being masked may be any integer.
 *
 * `Bit` is the reference view: every lemma below describes an operator bit by
 * bit, and `BitsDetermine` turns agreement on every bit back into equality.
 */
module PyInt {

  /** 2 to the power n. */
  function Pow2(n: nat): (r: nat)
    ensures r >= 1
  {
    if n == 0 then 1 else 2 * Pow2(n - 1)
  }

  /** The powers of two the MCP9801 driver's masks and shifts are made of. */
  lemma Pow2Values()
    ensures Pow2(2) == 4 && Pow2(5) == 32 && Pow2(8) == 0x100
    ensures Pow2(15) == 0x8000 && Pow2(16) == 0x10000
  {
    assert Pow2(8) == 0x100;
    assert Pow2(12) == 0x1000 by {
      assert Pow2(9) == 2 * Pow2(8);
      assert Pow2(10) == 2 * Pow2(9);
      assert Pow2(11) == 2 * Pow2(10);
    }
    assert Pow2(15) == 0x8000 by {
      assert Pow2(13) == 2 * Pow2(12);
      assert Pow2(14) == 2 * Pow2(13);
    }
    assert Pow2(16) == 2 * Pow2(15);
  }

  /** Python `x << n`: shifting keeps the sign, and only zero shifts to zero. */
  function Shl(x: int, n: nat): (r: int)
    ensures x >= 0 ==> r >= 0
    ensures x < 0 ==> r < 0
    ensures r == 0 <==> x == 0
  {
    x * Pow2(n)
  }

  /**
   * Python `x >> n`: Dafny's `/` by a positive divisor rounds down, as Python
   * does, so the result is the largest r with r * 2^n at most x.
   */
  function Shr(x: int, n: nat): (r: int)
    ensures r * Pow2(n) <= x < (r + 1) * Pow2(n)
    ensures x >= 0 ==> r >= 0
  {
    FloorDivision(x, Pow2(n));
    x / Pow2(n)
  }

  /** Division by a positive divisor rounds down. */
  lemma FloorDivision(x: int, d: int)
    requires d > 0
    ensures (x / d) * d <= x < (x / d + 1) * d
    ensures x >= 0 ==> x / d >= 0
  {
    assert x == (x / d) * d + x % d;
  }

  /** Bit i of x, counting from the least significant bit; negative x has infinitely many 1 bits on top. */
  function Bit(x: int, i: nat): (b: nat)
    ensures b <= 1
    decreases i
  {
    if i == 0 then x % 2 else Bit(x / 2, i - 1)
  }

  /**
   * Python `x & m` for a non-negative mask m: the result never exceeds the
   * mask, nor x when x is non-negative.
   */
  function And(x: int, m: nat): (r: nat)
    ensures r <= m
    ensures x >= 0 ==> r <= x
    decreases m
  {
    if m == 0 then 0
    else 2 * And(x / 2, m / 2) + (if x % 2 == 1 && m % 2 == 1 then 1 else 0)
  }

  /** Python `x | y` for non-negative x and y: at least each operand, at most their sum. */
  function Or(x: nat, y: nat): (r: nat)
    ensures x <= r && y <= r && r <= x + y
    decreases x + y
  {
    if x == 0 && y == 0 then 0
    else 2 * Or(x / 2, y / 2) + (if x % 2 == 1 || y % 2 == 1 then 1 else 0)
  }

  lemma {:induction false} BitOfZero(i: nat)
    ensures Bit(0, i) == 0
  {
    if i > 0 {
      BitOfZero(i - 1);
    }
  }

  /** Bit i of `x & m` is set exactly when bit i is set in both x and m. */
  lemma {:induction false} AndBit(x: int, m: nat, i: nat)
    ensures Bit(And(x, m), i) == 1 <==> Bit(x, i) == 1 && Bit(m, i) == 1
    decreases m
  {
    if m == 0 {
      BitOfZero(i);
    } else if i > 0 {
      AndBit(x / 2, m / 2, i - 1);
    }
  }

  /** Bit i of `x | y` is set exactly when bit i is set in x or in y. */
  lemma {:induction false} OrBit(x: nat, y: nat, i: nat)
    ensures Bit(Or(x, y), i) == 1 <==> Bit(x, i) == 1 || Bit(y, i) == 1
    decreases x + y
  {
    if x == 0 && y == 0 {
      BitOfZero(i);
    } else if i > 0 {
      OrBit(x / 2, y / 2, i - 1);
    }
  }

  /** Bit i of `x & m` as a value: 1 when bit i is set in both x and m, 0 otherwise. */
  lemma AndBitValue(x: int, m: nat, i: nat)
    ensures Bit(And(x, m), i) == if Bit(x, i) == 1 && Bit(m, i) == 1 then 1 else 0
  {
    AndBit(x, m, i);
    BitBothOf(Bit(And(x, m), i), Bit(x, i), Bit(m, i));
  }

  /** Bits are 0 or 1, so "set exactly when both bits are set" pins a bit's value. */
  lemma BitBothOf(z: nat, x: nat, y: nat)
    requires z <= 1 && x <= 1 && y <= 1
    requires z == 1 <==> x == 1 && y == 1
    ensures z == if x == 1 && y == 1 then 1 else 0
  {
  }

  /** Bits are 0 or 1, so "set exactly when one of two bits is set" pins a bit's value. */
  lemma BitEitherOf(z: nat, x: nat, y: nat)
    requires z <= 1 && x <= 1 && y <= 1
    requires z == 1 <==> x == 1 || y == 1
    ensures z == if x == 1 || y == 1 then 1 else 0
  {
  }

  /** Two non-negative integers that agree on every bit are equal. */
  lemma {:induction false} BitsDetermine(x: nat, y: nat)
    requires forall i: nat :: Bit(x, i) == Bit(y, i)
    ensures x == y
    decreases x + y
  {
    if x != 0 || y != 0 {
      assert Bit(x, 0) == Bit(y, 0);
      forall i: nat
        ensures Bit(x / 2, i) == Bit(y / 2, i)
      {
        assert Bit(x, i + 1) == Bit(y, i + 1);
      }
      BitsDetermine(x / 2, y / 2);
    }
  }

  /**
   * The bits of `hi * 2^n + lo`, with lo below 2^n: lo supplies bits 0 .. n-1
   * and hi, whatever its sign, supplies the bits from n upwards.
   */
  lemma {:induction false} BitOfConcat(hi: int, lo: nat, n: nat, i: nat)
    requires lo < Pow2(n)
    ensures Bit(hi * Pow2(n) + lo, i) == if i < n then Bit(lo, i) else Bit(hi, i - n)
    decreases n
  {
    if n > 0 {
      var k := hi * Pow2(n - 1);
      assert hi * Pow2(n) == 2 * k by {
        assert Pow2(n) == 2 * Pow2(n - 1);
      }
      var x := 2 * k + lo;
      assert x % 2 == lo % 2;
      if i > 0 {
        assert x / 2 == k + lo / 2;
        BitOfConcat(hi, lo / 2, n - 1, i - 1);
      }
    }
  }

  /** Reducing x modulo 2^n keeps its n low bits. */
  lemma ModPow2Bit(x: int, n: nat, i: nat)
    requires i < n
    ensures Bit(x % Pow2(n), i) == Bit(x, i)
  {
    var p := Pow2(n);
    assert x == (x / p) * p + x % p;
    BitOfConcat(x / p, x % p, n, i);
  }

  /** A value below 2^n has no bit set at position n or above. */
  lemma {:induction false} BitAbove(x: nat, n: nat, i: nat)
    requires x < Pow2(n) && n <= i
    ensures Bit(x, i) == 0
    decreases n
  {
    if n == 0 {
      BitOfZero(i);
    } else {
      BitAbove(x / 2, n - 1, i - 1);
    }
  }

  /** A value below 2^(n+1) whose bit n is clear is below 2^n. */
  lemma {:induction false} BelowWhenTopBitClear(x: nat, n: nat)
    requires x < Pow2(n + 1) && Bit(x, n) == 0
    ensures x < Pow2(n)
    decreases n
  {
    if n > 0 {
      BelowWhenTopBitClear(x / 2, n - 1);
    }
  }

  /** The OR of two values below 2^n stays below 2^n. */
  lemma {:induction false} OrBelow(x: nat, y: nat, n: nat)
    requires x < Pow2(n) && y < Pow2(n)
    ensures Or(x, y) < Pow2(n)
    decreases n
  {
    if n > 0 && (x != 0 || y != 0) {
      OrBelow(x / 2, y / 2, n - 1);
    }
  }

  /** Shifting a value below 2^k left by n gives a value below 2^(k+n). */
  lemma {:induction false} ShlBelow(x: nat, n: nat, k: nat)
    requires x < Pow2(k)
    ensures Shl(x, n) < Pow2(k + n)
    decreases n
  {
    if n > 0 {
      ShlBelow(x, n - 1, k);
      assert Shl(x, n) == 2 * Shl(x, n - 1) by {
        assert Pow2(n) == 2 * Pow2(n - 1);
      }
    }
  }

  /** Bit i of a shifted value: zero below the shift, the original bits above it. */
  lemma ShlBit(x: int, n: nat, i: nat)
    ensures Bit(Shl(x, n), i) == if i < n then 0 else Bit(x, i - n)
  {
    BitOfConcat(x, 0, n, i);
    if i < n {
      BitOfZero(i);
    }
  }

  /** `Pow2(n) - 1` is the mask of the n low bits. */
  lemma {:induction false} LowMaskBit(n: nat, i: nat)
    ensures Bit(Pow2(n) - 1, i) == if i < n then 1 else 0
    decreases n
  {
    if n == 0 {
      BitOfZero(i);
    } else if i > 0 {
      LowMaskBit(n - 1, i - 1);
    }
  }

  /** Python `x >> n` moves bit i + n of x down to bit i. */
  lemma ShrBit(x: int, n: nat, i: nat)
    ensures Bit(Shr(x, n), i) == Bit(x, i + n)
  {
    var p := Pow2(n);
    assert x == (x / p) * p + x % p;
    BitOfConcat(x / p, x % p, n, i + n);
  }

  /** 2^n has exactly one bit set, bit n. */
  lemma {:induction false} Pow2Bit(n: nat, i: nat)
    ensures Bit(Pow2(n), i) == if i == n then 1 else 0
    decreases n
  {
    if n == 0 {
      if i > 0 {
        BitOfZero(i - 1);
      }
    } else if i > 0 {
      Pow2Bit(n - 1, i - 1);
    }
  }

  /** Masking with the single bit 2^n gives 2^n when bit n of x is set and 0 otherwise. */
  lemma AndPow2(x: int, n: nat)
    ensures And(x, Pow2(n)) == if Bit(x, n) == 1 then Pow2(n) else 0
  {
    var r := if Bit(x, n) == 1 then Pow2(n) else 0;
    forall i: nat
      ensures Bit(And(x, Pow2(n)), i) == Bit(r, i)
    {
      AndBit(x, Pow2(n), i);
      Pow2Bit(n, i);
      BitOfZero(i);
    }
    BitsDetermine(And(x, Pow2(n)), r);
  }

  /** For a value below 2^(n+1), masking with 2^n is non-zero exactly when the value is at least 2^n. */
  lemma AndTopBit(x: nat, n: nat)
    requires x < Pow2(n + 1)
    ensures And(x, Pow2(n)) != 0 <==> x >= Pow2(n)
  {
    AndPow2(x, n);
    if Bit(x, n) == 1 {
      if x < Pow2(n) {
        BitAbove(x, n, n);
      }
    } else {
      BelowWhenTopBitClear(x, n);
    }
  }

  /** Masking with the n low bits keeps x modulo 2^n, for negative x as well. */
  lemma AndLowMask(x: int, n: nat)
    ensures And(x, Pow2(n) - 1) == x % Pow2(n)
  {
    var p := Pow2(n);
    assert x == (x / p) * p + x % p;
    forall i: nat
      ensures Bit(And(x, p - 1), i) == Bit(x % p, i)
    {
      AndBit(x, p - 1, i);
      LowMaskBit(n, i);
      if i < n {
        BitOfConcat(x / p, x % p, n, i);
      } else {
        BitAbove(x % p, n, i);
      }
    }
    BitsDetermine(And(x, p - 1), x % p);
  }
}

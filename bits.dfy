/**
 * Machine-word semantics the MAX31855 driver relies on, stated over
 * integers: Rust's `u8`, `u16` and `i16`, the `<<` and `|` operators on
 * `u16`, the `bit_field` crate's `get_bit` and `get_bits`, the `u16 as i16`
 * reinterpretation and Rust's truncating `/` on `i16`.
 *
 * Each machine type is a newtype over the integers with the type's range,
 * and each operation spells out the wrap-around or truncation Rust applies.
 */
module Bits {

  /** Rust `u8`. */
  newtype u8 = x: int | 0 <= x < 0x100

  /** Rust `u16`. */
  newtype u16 = x: int | 0 <= x < 0x1_0000

  /** Rust `i16`: a 16-bit two's-complement integer. */
  newtype i16 = x: int | -0x8000 <= x < 0x8000

  function Pow2(n: nat): (r: nat)
    ensures r >= 1
  {
    if n == 0 then 1 else 2 * Pow2(n - 1)
  }

  lemma Powers()
    ensures Pow2(0) == 1 && Pow2(1) == 2 && Pow2(2) == 4 && Pow2(4) == 16 && Pow2(8) == 0x100
    ensures Pow2(11) == 0x800 && Pow2(12) == 0x1000 && Pow2(13) == 0x2000 && Pow2(14) == 0x4000
    ensures Pow2(15) == 0x8000 && Pow2(16) == 0x1_0000 && Pow2(18) == 0x4_0000
  {
  }

  /** A power of two of a sum is the product of the powers. */
  lemma {:induction false} Pow2Add(a: nat, b: nat)
    ensures Pow2(a + b) == Pow2(a) * Pow2(b)
  {
    if a > 0 {
      Pow2Add(a - 1, b);
      assert Pow2(a + b) == 2 * Pow2(a - 1 + b);
      assert 2 * (Pow2(a - 1) * Pow2(b)) == (2 * Pow2(a - 1)) * Pow2(b);
    }
  }

  /**
   * Bitwise or of two naturals, one bit at a time from the least
   * significant. The result has every bit of either operand, so it is at
   * least each of them, and it is at most their sum.
   */
  function Or(a: nat, b: nat): (r: nat)
    ensures a <= r && b <= r && r <= a + b
    decreases a + b
  {
    if a == 0 then b
    else if b == 0 then a
    else 2 * Or(a / 2, b / 2) + (if a % 2 == 1 || b % 2 == 1 then 1 else 0)
  }

  /** The low three bits are all clear exactly when none of the low one, two and three bits reach their top bit. */
  lemma LowThreeBits(x: nat)
    ensures x % 8 == 0 <==> x % 2 < 1 && x % 4 < 2 && x % 8 < 4
  {
    var k, m := x / 8, x % 8;
    assert x == 8 * k + m;
    DivModUnique(x, 2, 4 * k + m / 2, m % 2);
    DivModUnique(x, 4, 2 * k + m / 4, m % 4);
  }

  /** Bit i of a natural, counting from the least significant bit 0. */
  predicate Bit(x: nat, i: nat) {
    (x / Pow2(i)) % 2 == 1
  }

  /** Bit i of the bitwise or is set exactly when bit i of either operand is. */
  lemma {:induction false} OrBit(a: nat, b: nat, i: nat)
    ensures Bit(Or(a, b), i) <==> Bit(a, i) || Bit(b, i)
  {
    if a == 0 || b == 0 {
      ZeroBit(i);
    } else if i == 0 {
      OrHalves(a, b);
      assert Pow2(0) == 1;
    } else {
      OrHalves(a, b);
      HalveDiv(Or(a, b), i);
      HalveDiv(a, i);
      HalveDiv(b, i);
      OrBit(a / 2, b / 2, i - 1);
    }
  }

  /** For nonzero operands, the or's lowest bit is either lowest bit, and the rest is the or of the halves. */
  lemma OrHalves(a: nat, b: nat)
    requires a != 0 && b != 0
    ensures Or(a, b) / 2 == Or(a / 2, b / 2)
    ensures Or(a, b) % 2 == 1 <==> a % 2 == 1 || b % 2 == 1
  {
    var o, c := Or(a / 2, b / 2), if a % 2 == 1 || b % 2 == 1 then 1 else 0;
    assert Or(a, b) == 2 * o + c;
    DivModUnique(Or(a, b), 2, o, c);
  }

  lemma ZeroBit(i: nat)
    ensures !Bit(0, i)
  {
    DivModUnique(0, Pow2(i), 0, 0);
  }

  /** Dropping the lowest bit first, then i - 1 more, drops i bits. */
  lemma HalveDiv(x: nat, i: nat)
    requires i >= 1
    ensures x / Pow2(i) == (x / 2) / Pow2(i - 1)
  {
    var p := Pow2(i - 1);
    var q, r := (x / 2) / p, (x / 2) % p;
    assert x / 2 == q * p + r && 0 <= r < p;
    assert x == q * (2 * p) + (2 * r + x % 2) by {
      assert x == 2 * (x / 2) + x % 2;
      assert 2 * (q * p) == q * (2 * p);
    }
    DivModUnique(x, 2 * p, q, 2 * r + x % 2);
  }

  /** Or-ing a value into bits that are all zero adds it. */
  lemma {:induction false} OrDisjoint(x: nat, lo: nat, k: nat)
    requires lo < Pow2(k)
    ensures Or(x * Pow2(k), lo) == x * Pow2(k) + lo
  {
    var a := x * Pow2(k);
    if k == 0 || lo == 0 || a == 0 {
    } else {
      var p := Pow2(k - 1);
      assert a == 2 * (x * p);
      assert a % 2 == 0 && a / 2 == x * p;
      OrDisjoint(x, lo / 2, k - 1);
    }
  }

  /**
   * Rust `<<` on `u16`: bits shifted past bit 15 are dropped. Rust rejects a
   * shift of 16 or more. What is kept is the low 16 - s bits of w, moved up
   * by s places.
   */
  function Shl(w: u16, s: nat): (r: u16)
    requires s < 16
    ensures r as int == (w as int % Pow2(16 - s)) * Pow2(s)
  {
    ShlValue(w as int, s);
    ((w as int * Pow2(s)) % 0x1_0000) as u16
  }

  lemma ShlValue(w: nat, s: nat)
    requires s <= 16
    ensures (w * Pow2(s)) % 0x1_0000 == (w % Pow2(16 - s)) * Pow2(s)
  {
    var p, q := Pow2(s), Pow2(16 - s);
    Pow2Add(16 - s, s);
    Powers();
    var k, m := w / q, w % q;
    ScaleQuotient(w, q, p, k, m);
    MulLess(m, q, p);
    DivModUnique(w * p, q * p, k, m * p);
  }

  /** Scaling w == k * q + m by p scales each part. */
  lemma ScaleQuotient(w: int, q: int, p: int, k: int, m: int)
    requires w == k * q + m
    ensures w * p == k * (q * p) + m * p
  {
    calc {
      w * p;
      (k * q + m) * p;
      (k * q) * p + m * p;
      k * (q * p) + m * p;
    }
  }

  lemma MulSubDistrib(x: int, y: int, p: int)
    ensures (x - y) * p == x * p - y * p
  {
  }

  /** A smaller natural times the same positive factor is smaller. */
  lemma MulLess(m: nat, q: nat, p: nat)
    requires m < q && p >= 1
    ensures 0 <= m * p < q * p
  {
    MulAtLeast(q - m, p);
    assert q * p == m * p + (q - m) * p;
  }

  /**
   * `(hi as u16) << 8 | (lo as u16)`: two bytes as a big-endian word. The
   * shifted high byte and the low byte occupy disjoint bits, so the word is
   * hi * 256 + lo.
   */
  function Word(hi: u8, lo: u8): (w: u16)
    ensures w as int == hi as int * 0x100 + lo as int
  {
    Powers();
    OrDisjoint(hi as nat, lo as nat, 8);
    Or(Shl(hi as u16, 8) as nat, lo as nat) as u16
  }

  /**
   * `u8::get_bit(i)`; the crate panics for an index past the width. Bit i
   * is set exactly when the low i + 1 bits are worth at least 2^i.
   */
  predicate ByteBit(b: u8, i: nat)
    requires i < 8
    ensures ByteBit(b, i) <==> b as int % Pow2(i + 1) >= Pow2(i)
  {
    BitTest(b as int, Pow2(i));
    Bit(b as int, i)
  }

  /**
   * `u16::get_bit(i)`; the crate panics for an index past the width. Bit i
   * is set exactly when the low i + 1 bits are worth at least 2^i.
   */
  predicate GetBit(w: u16, i: nat)
    requires i < 16
    ensures GetBit(w, i) <==> w as int % Pow2(i + 1) >= Pow2(i)
  {
    BitTest(w as int, Pow2(i));
    Bit(w as int, i)
  }

  /** Testing the bit worth p by shifting it down agrees with testing the remainder. */
  lemma BitTest(x: nat, p: nat)
    requires p >= 1
    ensures (x / p) % 2 == 1 <==> x % (2 * p) >= p
  {
    var q, m := x / (2 * p), x % (2 * p);
    var h, l := m / p, m % p;
    BitSplit(x, p, q, m, h, l);
    DivModUnique(x, p, 2 * q + h, l);
  }

  /** x == q * 2p + m and m == h * p + l, with both remainders in range, give x == (2q + h) * p + l with h a single bit. */
  lemma BitSplit(x: int, p: int, q: int, m: int, h: int, l: int)
    requires p >= 1 && x == q * (2 * p) + m && 0 <= m < 2 * p
    requires m == h * p + l && 0 <= l < p
    ensures 0 <= h < 2 && (h == 1 <==> m >= p)
    ensures x == (2 * q + h) * p + l
  {
    if h >= 2 {
      MulLe(2, h, p);
    } else if h < 0 {
      MulLe(h, -1, p);
    }
    assert q * (2 * p) == (2 * q) * p;
    assert (2 * q + h) * p == (2 * q) * p + h * p;
  }

  /** Multiplying by a non-negative factor keeps the order. */
  lemma MulLe(x: int, y: int, p: int)
    requires x <= y && p >= 0
    ensures x * p <= y * p
  {
    if x < y && p > 0 {
      MulAtLeast(y - x, p);
      assert y * p == x * p + (y - x) * p;
    }
  }

  /**
   * `u16::get_bits(lo..=hi)`: bits lo through hi, moved down to bit 0.
   * Moved back up by lo places, the result is exactly the part of w that
   * bits lo..hi contribute: w below bit hi + 1, less w below bit lo.
   */
  function GetBits(w: u16, lo: nat, hi: nat): (r: u16)
    requires lo <= hi < 16
    ensures r as int < Pow2(hi - lo + 1)
    ensures r as int <= w as int
    ensures r as int * Pow2(lo) == w as int % Pow2(hi + 1) - w as int % Pow2(lo)
  {
    FieldBound(w as int, Pow2(lo), Pow2(hi - lo + 1));
    FieldValue(w as int, Pow2(lo), Pow2(hi - lo + 1));
    Pow2Add(lo, hi - lo + 1);
    ((w as int / Pow2(lo)) % Pow2(hi - lo + 1)) as u16
  }

  /** The field of width m above the lowest p-place, moved back up, is the remainder by p * m less the remainder by p. */
  lemma FieldValue(x: nat, p: nat, m: nat)
    requires p >= 1 && m >= 1
    ensures ((x / p) % m) * p == x % (p * m) - x % p
  {
    var q, r := x / (p * m), x % (p * m);
    var t, u := r / p, r % p;
    FieldSplit(x, p, m, q, r, t, u);
    DivModUnique(x, p, q * m + t, u);
    DivModUnique(x / p, m, q, t);
  }

  /** x == q * pm + r and r == t * p + u, with both remainders in range, give x == (q * m + t) * p + u with t below m. */
  lemma FieldSplit(x: int, p: int, m: int, q: int, r: int, t: int, u: int)
    requires p >= 1 && m >= 1 && x == q * (p * m) + r && 0 <= r < p * m
    requires r == t * p + u && 0 <= u < p
    ensures 0 <= t < m
    ensures x == (q * m + t) * p + u
  {
    assert p * m == m * p;
    if t >= m {
      MulLe(m, t, p);
    } else if t < 0 {
      MulLe(t, -1, p);
    }
    assert (q * m + t) * p == q * (p * m) + t * p;
  }

  lemma FieldBound(x: nat, p: nat, m: nat)
    requires p >= 1 && m >= 1
    ensures (x / p) % m < m && (x / p) % m <= x
  {
    DivAtMost(x, p);
    ModAtMost(x / p, m);
  }

  lemma DivAtMost(x: nat, m: nat)
    requires m >= 1
    ensures x / m <= x
  {
    var q := x / m;
    assert q * m + x % m == x && x % m >= 0;
    if q >= 1 {
      MulAtLeast(m, q);
    }
  }

  lemma ModAtMost(x: nat, m: nat)
    requires m >= 1
    ensures x % m <= x
  {
    if x < m {
      assert x % m == x;
    }
  }

  /**
   * `w as i16`: the same 16 bits read as two's complement. The result is
   * congruent to w modulo 2^16 and is negative exactly when bit 15 is set.
   */
  function ToI16(w: u16): (r: i16)
    ensures (r as int - w as int) % 0x1_0000 == 0
    ensures r < 0 <==> w >= 0x8000
  {
    if w < 0x8000 then w as int as i16 else (w as int - 0x1_0000) as i16
  }
  /**
   * Rust's `/` on signed integers: the quotient is truncated toward zero.
   * Its magnitude is the whole number of times |d| fits in |a|, and a
   * nonzero quotient is negative exactly when the operands' signs differ.
   */
  function TruncDiv(a: int, d: int): (r: int)
    requires d != 0
    ensures Abs(r) == Abs(a) / Abs(d)
    ensures r != 0 ==> (r < 0 <==> (a < 0) != (d < 0))
  {
    var x, y := Abs(a), Abs(d);
    DivNat(x, y);
    var q := x / y;
    if (a < 0) == (d < 0) then q else -q
  }

  lemma DivNat(x: nat, y: nat)
    requires y >= 1
    ensures x / y >= 0
  {
  }

  function Abs(x: int): (r: nat)
    ensures r == x || r == -x
  {
    if x < 0 then -x else x
  }

  /** Where the remainder is zero, truncating and Euclidean division agree. */
  lemma ExactDivision(a: int, d: int)
    requires d > 0 && a % d == 0
    ensures TruncDiv(a, d) == a / d
  {
    var q := a / d;
    assert a == q * d;
    if a < 0 {
      assert -a == (-q) * d;
      DivOfMultiple(-a, -q, d);
    }
  }

  /** Quotient and remainder are unique: a == k * d + r with 0 <= r < d fixes both. */
  lemma DivModUnique(a: int, d: int, k: int, r: int)
    requires d > 0 && a == k * d + r && 0 <= r < d
    ensures a / d == k && a % d == r
  {
    var k', r' := a / d, a % d;
    assert a == k' * d + r' && 0 <= r' < d;
    assert (k - k') * d == r' - r;
    if k - k' >= 1 {
      MulAtLeast(k - k', d);
    } else if k' - k >= 1 {
      MulAtLeast(k' - k, d);
    }
  }

  lemma DivOfMultiple(a: int, q: int, d: int)
    requires d > 0 && a == q * d
    ensures a / d == q
  {
    var k, r := a / d, a % d;
    assert a == k * d + r && 0 <= r < d;
    assert (k - q) * d == -r;
    if k - q >= 1 {
      MulAtLeast(k - q, d);
    } else if k - q <= -1 {
      MulAtLeast(q - k, d);
    }
  }

  lemma MulAtLeast(x: int, d: int)
    requires x >= 1 && d >= 1
    ensures x * d >= d
  {
    assert x * d == (x - 1) * d + d;
  }

  /** Rust's `i16` division cannot leave the `i16` range except for `-32768 / -1`. */
  lemma TruncDivRange(a: int, d: int)
    requires -0x8000 <= a < 0x8000 && d != 0
    requires !(a == -0x8000 && d == -1)
    ensures -0x8000 <= TruncDiv(a, d) < 0x8000
  {
    var x, y := Abs(a), Abs(d);
    var q := x / y;
    assert q * y + x % y == x && 0 <= x % y;
    if y >= 2 {
      assert q * y >= q * 2 by { MulMono(q, y); }
      assert q <= x / 2 + 1;
      assert q < 0x8000;
    } else {
      assert q == x;
    }
  }

  lemma MulMono(q: nat, y: nat)
    requires y >= 2
    ensures q * y >= q * 2
  {
    assert q * y == q * 2 + q * (y - 2);
  }

  /**
   * The sign extension the driver performs, for any field width: when a
   * field of `len` bits is shifted up to fill 16 bits, read as `i16` and
   * divided by 2^shift, a set top bit gives field - 2^len, and a clear top
   * bit lets the field be read as `i16` unchanged.
   */
  lemma SignExtend(bits: u16, len: nat, shift: nat)
    requires 1 <= len <= 16 && len + shift == 16
    requires bits as int < Pow2(len)
    ensures GetBit(bits, len - 1) <==> bits as int >= Pow2(len - 1)
    ensures bits as int >= Pow2(len - 1) ==> TruncDiv(ToI16(Shl(bits, shift)) as int, Pow2(shift)) == bits as int - Pow2(len)
    ensures bits as int < Pow2(len - 1) ==> ToI16(bits) as int == bits as int
  {
    var b, top, p := bits as int, Pow2(len - 1), Pow2(shift);
    Powers();
    assert Pow2(len) == 2 * top;
    DivModUnique(b, Pow2(len), 0, b);
    Pow2Add(len - 1, shift);
    Pow2Add(len, shift);
    if b >= top {
      SignExtendNegative(bits, len, shift);
    } else {
      MulLe(1, p, top);
    }
  }

  /** SignExtend, for the case where the shift fills the 16 bits and the field fits its width. */
  lemma SignExtendWhenFilled(bits: u16, len: nat, shift: nat)
    requires 1 <= len <= 16 && shift < 16
    ensures bits as int < Pow2(len) && len + shift == 16 ==>
      && (GetBit(bits, len - 1) <==> bits as int >= Pow2(len - 1))
      && (bits as int >= Pow2(len - 1) ==> TruncDiv(ToI16(Shl(bits, shift)) as int, Pow2(shift)) == bits as int - Pow2(len))
      && (bits as int < Pow2(len - 1) ==> ToI16(bits) as int == bits as int)
  {
    if bits as int < Pow2(len) && len + shift == 16 {
      SignExtend(bits, len, shift);
    }
  }

  lemma SignExtendNegative(bits: u16, len: nat, shift: nat)
    requires 1 <= len <= 16 && len + shift == 16
    requires Pow2(len - 1) <= bits as int < Pow2(len)
    requires Pow2(len - 1) * Pow2(shift) == 0x8000 && Pow2(len) * Pow2(shift) == 0x1_0000
    ensures TruncDiv(ToI16(Shl(bits, shift)) as int, Pow2(shift)) == bits as int - Pow2(len)
  {
    var b, full, p := bits as int, Pow2(len), Pow2(shift);
    var neg := ToI16(Shl(bits, shift)) as int;
    assert neg == (b - full) * p by {
      DivModUnique(b, full, 0, b);
      assert Shl(bits, shift) as int == b * p;
      MulLe(Pow2(len - 1), b, p);
      assert neg == b * p - 0x1_0000;
      MulSubDistrib(b, full, p);
    }
    assert neg % p == 0 && neg / p == b - full by {
      DivModUnique(neg, p, b - full, 0);
    }
    ExactDivision(neg, p);
  }
}

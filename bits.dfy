/**
 * The integer bit operations the drivers use, on non-negative integers of
 * any size as in Python (and as in C where the operands fit): `BitAnd` is
 * `&`, `BitOr` is `|`, `Shl` is `<<` and `Shr` is `>>`. The lemmas connect
 * masks and shifts with arithmetic.
 */
module Bits {
  /** An unsigned 8-bit value. */
  type byte = x: int | 0 <= x < 0x100

  /** `a & b` */
  function BitAnd(a: nat, b: nat): (r: nat)
    ensures r <= a && r <= b
  {
    if a == 0 || b == 0 then 0
    else 2 * BitAnd(a / 2, b / 2) + (if a % 2 == 1 && b % 2 == 1 then 1 else 0)
  }

  /** `a | b` */
  function BitOr(a: nat, b: nat): (r: nat)
    ensures r >= a && r >= b
    decreases a + b
  {
    if a == 0 then b
    else if b == 0 then a
    else 2 * BitOr(a / 2, b / 2) + (if a % 2 == 1 || b % 2 == 1 then 1 else 0)
  }

  /** `a << k`: `a` doubled `k` times. */
  function Shl(a: nat, k: nat): (r: nat)
    ensures r >= a && (r == 0 <==> a == 0)
  {
    if k == 0 then a else 2 * Shl(a, k - 1)
  }

  /** `a >> k`: `a` halved `k` times. */
  function Shr(a: nat, k: nat): (r: nat)
    ensures r <= a
  {
    if k == 0 then a else Shr(a / 2, k - 1)
  }

  /** `(1 << k) - 1`: the low `k` bits set. */
  function Mask(k: nat): (r: nat)
    ensures r + 1 == Shl(1, k)
  {
    if k == 0 then 0 else 2 * Mask(k - 1) + 1
  }

  /** The shifts the drivers use, as multiplications. */
  lemma ShlConstants(x: nat)
    ensures Shl(x, 3) == 8 * x && Shl(x, 4) == 16 * x && Shl(x, 7) == 128 * x && Shl(x, 8) == 256 * x
  {
    assert Shl(x, 1) == 2 * x;
    assert Shl(x, 2) == 4 * x;
    assert Shl(x, 3) == 8 * x;
    assert Shl(x, 4) == 16 * x;
    assert Shl(x, 5) == 32 * x;
    assert Shl(x, 6) == 64 * x;
    assert Shl(x, 7) == 128 * x;
  }

  /** Masking with the low `k` bits keeps exactly what `a >> k` drops. */
  lemma {:induction false} AndLowMask(a: nat, k: nat)
    ensures BitAnd(a, Mask(k)) + Shl(Shr(a, k), k) == a
  {
    if k > 0 {
      var h, m := a / 2, Mask(k - 1);
      AndLowMask(h, k - 1);
      var q := Shr(h, k - 1);
      assert Shr(a, k) == q && Shl(q, k) == 2 * Shl(q, k - 1);
      if a > 0 {
        assert Mask(k) / 2 == m && Mask(k) % 2 == 1;
        assert BitAnd(a, Mask(k)) == 2 * BitAnd(h, m) + a % 2;
      }
    }
  }

  /** An even mask drops the lowest bit and halves the rest. */
  lemma AndEven(a: nat, mask: nat)
    ensures BitAnd(a, 2 * mask) == 2 * BitAnd(a / 2, mask)
  {
    if a != 0 && mask != 0 {
      assert (2 * mask) / 2 == mask && (2 * mask) % 2 == 0;
    }
  }

  /** A mask shifted left by `k` selects the bits of `a >> k`, shifted back. */
  lemma {:induction false} AndShiftedMask(a: nat, m: nat, k: nat)
    ensures BitAnd(a, Shl(m, k)) == Shl(BitAnd(Shr(a, k), m), k)
  {
    if k > 0 {
      AndShiftedMask(a / 2, m, k - 1);
      AndEven(a, Shl(m, k - 1));
    }
  }

  /** Or-ing a number of at most `k` bits into a number shifted left by `k` is addition. */
  lemma {:induction false} OrShifted(a: nat, b: nat, k: nat)
    requires b <= Mask(k)
    ensures BitOr(Shl(a, k), b) == Shl(a, k) + b
  {
    if k > 0 && a != 0 && b != 0 {
      OrShifted(a, b / 2, k - 1);
    }
  }

  /** `b & 0x0F` is the low four bits of `b`, and `b >> 4` the rest. */
  lemma LowNibble(b: nat)
    ensures BitAnd(b, 0x0F) == b % 16 && Shr(b, 4) == b / 16
  {
    assert Mask(4) == 15;
    AndLowMask(b, 4);
    ShlConstants(Shr(b, 4));
    SplitSixteen(b, Shr(b, 4), BitAnd(b, 0x0F));
  }

  /** `b & 0xF0` is `b` with its low four bits cleared. */
  lemma HighNibble(b: byte)
    ensures BitAnd(b, 0xF0) == b - b % 16
  {
    var q := b / 16;
    assert Shl(15, 4) == 0xF0;
    AndShiftedMask(b, 15, 4);
    LowNibble(b);
    LowNibble(q);
    assert q < 16 && q % 16 == q;
    ShlConstants(q);
    assert 16 * q == b - b % 16;
  }

  /** `b & 0xF0` and `b & 0x0F`, the two nibbles of a byte. */
  lemma Nibbles(b: byte)
    ensures BitAnd(b, 0xF0) == b - b % 16 && BitAnd(b, 0x0F) == b % 16
  {
    LowNibble(b);
    HighNibble(b);
  }

  /** A split `b == 16 * q + r` with `r < 16` is the division by 16. */
  lemma SplitSixteen(b: nat, q: nat, r: nat)
    requires b == 16 * q + r && r < 16
    ensures b / 16 == q && b % 16 == r
  {
  }

  /** A split `c == 256 * q + r` with `r < 256` is the division by 256. */
  lemma SplitByte(c: nat, q: nat, r: nat)
    requires c == 256 * q + r && r < 256
    ensures c / 256 == q && c % 256 == r
  {
  }
}

/** Bytes, and the exclusive or of unsigned numbers, bit by bit from the lowest. */
module Bits {
  import opened Arithmetic

  newtype Byte = x: int | 0 <= x < 256

  function Pow2(width: nat): nat { if width == 0 then 1 else 2 * Pow2(width - 1) }

  function Xor(x: nat, y: nat, width: nat): (r: nat)
    ensures r < Pow2(width)
  {
    if width == 0 then 0 else (x % 2 + y % 2) % 2 + 2 * Xor(x / 2, y / 2, width - 1)
  }

  lemma BitTwice(a: nat, b: nat)
    requires a < 2 && b < 2
    ensures ((a + b) % 2 + b) % 2 == a
  {
  }

  lemma Halves(bit: nat, half: nat)
    requires bit < 2
    ensures (bit + 2 * half) % 2 == bit && (bit + 2 * half) / 2 == half
  {
  }

  /** Bit k of a number. */
  function Bit(x: nat, k: nat): nat { if k == 0 then x % 2 else Bit(x / 2, k - 1) }

  lemma {:induction false} BitIs(x: nat, k: nat)
    ensures Pow2(k) > 0 && Bit(x, k) == x / Pow2(k) % 2
  {
    if k > 0 {
      BitIs(x / 2, k - 1);
      HalfThenDivide(x, Pow2(k - 1));
    }
  }

  lemma HalfThenDivide(x: nat, m: nat)
    requires m > 0
    ensures x / (2 * m) == x / 2 / m
  {
    var q, r := x / 2 / m, x / 2 % m;
    assert x / 2 == q * m + r;
    DivIs(x, 2 * m, q, 2 * r + x % 2);
  }

  lemma {:induction false} XorBits(x: nat, y: nat, width: nat, k: nat)
    requires k < width
    ensures Bit(Xor(x, y, width), k) == (Bit(x, k) + Bit(y, k)) % 2
  {
    Halves((x % 2 + y % 2) % 2, Xor(x / 2, y / 2, width - 1));
    if k > 0 {
      XorBits(x / 2, y / 2, width - 1, k - 1);
    }
  }

  /** Each bit of the exclusive or is the sum, modulo two, of the bits at its place. */
  lemma XorBit(x: nat, y: nat, width: nat, k: nat)
    requires k < width
    ensures Pow2(k) > 0
    ensures Xor(x, y, width) / Pow2(k) % 2 == (x / Pow2(k) % 2 + y / Pow2(k) % 2) % 2
  {
    BitIs(x, k);
    BitIs(y, k);
    BitIs(Xor(x, y, width), k);
    XorBits(x, y, width, k);
  }

  lemma {:induction false} XorZero(x: nat, width: nat)
    requires x < Pow2(width)
    ensures Xor(x, 0, width) == x
  {
    if width > 0 {
      XorZero(x / 2, width - 1);
    }
  }

  /** Exclusive or with the same number twice changes nothing. */
  lemma {:induction false} XorTwice(x: nat, y: nat, width: nat)
    requires x < Pow2(width)
    ensures Xor(Xor(x, y, width), y, width) == x
  {
    if width > 0 {
      var bit, half := (x % 2 + y % 2) % 2, Xor(x / 2, y / 2, width - 1);
      Halves(bit, half);
      BitTwice(x % 2, y % 2);
      XorTwice(x / 2, y / 2, width - 1);
      assert Xor(bit + 2 * half, y, width) == (bit + y % 2) % 2 + 2 * Xor(half, y / 2, width - 1);
    }
  }

  lemma {:induction false} XorCommutes(x: nat, y: nat, width: nat)
    ensures Xor(x, y, width) == Xor(y, x, width)
  {
    if width > 0 {
      XorCommutes(x / 2, y / 2, width - 1);
    }
  }

  lemma NextByte(width: nat)
    ensures Pow2(width + 8) == 256 * Pow2(width)
  {
    assert Pow2(width + 4) == 16 * Pow2(width) by {
      assert Pow2(width + 2) == 4 * Pow2(width);
    }
    assert Pow2(width + 6) == 64 * Pow2(width);
  }

  lemma ByteRange()
    ensures Pow2(8) == 256
  {
    NextByte(0);
  }
}

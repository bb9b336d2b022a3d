/**
  C's bitwise operators on non-negative integers, defined bit by bit, and the
  arithmetic facts that let the codecs reason about them: a low mask keeps a
  remainder, a single-bit mask tests one bit, and OR of non-overlapping bit
  ranges is addition.
 */
module Bits {
  import opened Machine
  import opened Arith

  /** a & b */
  function And(a: nat, b: nat): nat
    decreases a
  {
    if a == 0 || b == 0 then 0
    else 2 * And(a / 2, b / 2) + (if a % 2 == 1 && b % 2 == 1 then 1 else 0)
  }

  /** a | b */
  function Or(a: nat, b: nat): nat
    decreases a + b
  {
    if a == 0 then b
    else if b == 0 then a
    else 2 * Or(a / 2, b / 2) + (if a % 2 == 1 || b % 2 == 1 then 1 else 0)
  }

  /** x << s on a non-negative int that does not overflow. */
  function ShiftLeft(x: nat, s: nat): nat
  {
    x * Pow2(s)
  }

  /** x << s on uint32_t: the bits pushed past bit 31 are lost. */
  function ShiftLeft32(x: u32, s: nat): u32
  {
    AsU32(x * Pow2(s))
  }

  /**
    aux.bytes[j] for the union of a uint32_t with a uint8_t[4] on a
    little-endian host: bits 8j .. 8j+7 of x.
   */
  function ByteAt(x: u32, j: nat): (b: u8)
    ensures j >= 4 ==> b == 0
  {
    HighBytes(x, j);
    (x / Pow2(8 * j)) % 256
  }

  /** A uint32_t has no bits at or above bit 32. */
  lemma HighBytes(x: u32, j: nat)
    ensures j >= 4 ==> x / Pow2(8 * j) == 0
  {
    if j >= 4 {
      Pow2Monotone(32, 8 * j);
      Pow2Values();
      DivModUnique(x, Pow2(8 * j), 0, x);
    }
  }

  /** The first k bytes of the union, read back as a number, lowest byte first. */
  function Reassemble(x: u32, k: nat): nat
  {
    if k == 0 then 0 else Reassemble(x, k - 1) + ByteAt(x, k - 1) * Pow2(8 * (k - 1))
  }

  /** The first k bytes of the union carry exactly the low 8k bits of the integer. */
  lemma {:induction false} ReassembleLow(x: u32, k: nat)
    ensures Reassemble(x, k) == x % Pow2(8 * k)
  {
    if k > 0 {
      ReassembleLow(x, k - 1);
      Pow2Add(8 * (k - 1), 8);
      Pow2Values();
      ModSplit(x, Pow2(8 * (k - 1)), 256);
    }
  }

  /** The four bytes of the union, little-endian, make up the whole uint32_t. */
  lemma UnionBytes(x: u32)
    ensures x == ByteAt(x, 0) + ByteAt(x, 1) * 0x100 + ByteAt(x, 2) * 0x1_0000 + ByteAt(x, 3) * 0x100_0000
  {
    assert x == Reassemble(x, 4) by {
      ReassembleLow(x, 4);
      Pow2Values();
      DivModUnique(x, Pow2(32), 0, x);
    }
    assert Reassemble(x, 4) == Reassemble(x, 3) + ByteAt(x, 3) * Pow2(24);
    assert Reassemble(x, 3) == Reassemble(x, 2) + ByteAt(x, 2) * Pow2(16);
    assert Reassemble(x, 2) == ByteAt(x, 0) + ByteAt(x, 1) * Pow2(8) by {
      assert Reassemble(x, 1) == ByteAt(x, 0) * Pow2(0);
    }
    assert Pow2(8) == 0x100 && Pow2(16) == 0x1_0000 && Pow2(24) == 0x100_0000 by {
      Pow2Values();
      Pow2Add(8, 8);
      Pow2Add(16, 8);
    }
  }

  /** x & (2^k - 1) keeps the low k bits. */
  lemma {:induction false} AndLowMask(x: nat, k: nat)
    ensures And(x, Pow2(k) - 1) == x % Pow2(k)
  {
    if k == 0 {
      assert Pow2(0) - 1 == 0 && x % 1 == 0;
    } else if x == 0 {
      assert 0 % Pow2(k) == 0;
    } else {
      var p := Pow2(k - 1);
      var h := x / 2;
      assert Pow2(k) == 2 * p;
      assert And(x, 2 * p - 1) == 2 * And(h, p - 1) + x % 2 by {
        assert (2 * p - 1) % 2 == 1 && (2 * p - 1) / 2 == p - 1;
      }
      assert And(h, p - 1) == h % p by {
        AndLowMask(h, k - 1);
      }
      assert x % (2 * p) == 2 * (h % p) + x % 2 by {
        DivHalf(x, p);
      }
    }
  }

  /** x & 2^k isolates bit k. */
  lemma {:induction false} AndSingleBit(x: nat, k: nat)
    ensures And(x, Pow2(k)) == ((x / Pow2(k)) % 2) * Pow2(k)
  {
    if x == 0 {
    } else if k == 0 {
      assert Pow2(0) == 1;
      assert x / 1 == x;
      assert And(x / 2, 0) == 0;
      assert And(x, 1) == 2 * And(x / 2, 0) + x % 2;
    } else {
      var p := Pow2(k - 1);
      var h := x / 2;
      var t := (x / (2 * p)) % 2;
      assert Pow2(k) == 2 * p;
      assert And(x, 2 * p) == 2 * And(h, p) by {
        assert (2 * p) / 2 == p && (2 * p) % 2 == 0;
      }
      assert And(h, p) == ((h / p) % 2) * p by {
        AndSingleBit(h, k - 1);
      }
      assert h / p == x / (2 * p) by {
        DivHalf(x, p);
      }
      assert 2 * (t * p) == t * (2 * p);
    }
  }

  /** OR of a value below 2^k with a multiple of 2^k is their sum. */
  lemma {:induction false} OrDisjoint(a: nat, b: nat, k: nat)
    requires a < Pow2(k)
    ensures Or(a, b * Pow2(k)) == a + b * Pow2(k)
  {
    if a == 0 || b == 0 {
    } else {
      assert k > 0;
      var p := Pow2(k - 1);
      var c := b * p;
      assert b * Pow2(k) == 2 * c by {
        assert Pow2(k) == 2 * p;
      }
      assert Or(a, 2 * c) == 2 * Or(a / 2, c) + a % 2 by {
        assert (2 * c) / 2 == c && (2 * c) % 2 == 0;
      }
      assert Or(a / 2, c) == a / 2 + c by {
        assert a / 2 < p;
        OrDisjoint(a / 2, b, k - 1);
      }
    }
  }

  /** Bytes: `b & 0x7F` is the low seven bits. */
  lemma AndPayloadMask(b: nat)
    ensures And(b, 0x7F) == b % 128
  {
    assert Pow2(7) == 128;
    AndLowMask(b, 7);
  }

  /** The low seven bits of the low byte of x are the low seven bits of x. */
  lemma PayloadOfByte(x: nat)
    ensures And(x % 256, 0x7F) == x % 128
  {
    AndPayloadMask(x % 256);
    ModMod(x, 128, 2);
  }

  /** Bytes: `(b & 0x80) == 0` exactly when the high bit of a byte is clear. */
  lemma AndContinueMask(b: u8)
    ensures And(b, 0x80) == 0 <==> b < 128
  {
    assert Pow2(7) == 128;
    AndSingleBit(b, 7);
  }

  /** Bytes: `b | 0x80` on a byte whose high bit is clear sets it. */
  lemma OrContinueMask(b: nat)
    requires b < 128
    ensures Or(b, 0x80) == b + 128
  {
    assert Pow2(7) == 128;
    OrDisjoint(b, 1, 7);
  }
}

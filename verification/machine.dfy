/**
  Fixed-width C integers (uint8_t, uint32_t, int32_t) modelled on Dafny's
  unbounded integers. Every place where the C code would overflow is written
  out as an explicit reduction modulo 2^32 (two's-complement wrap-around).
 */
module Machine {

  const U32_LIMIT: int := 0x1_0000_0000
  const U32_MAX: int := 0xFFFF_FFFF
  const I32_MIN: int := -0x8000_0000
  const I32_MAX: int := 0x7FFF_FFFF

  type u8 = x: int | 0 <= x < 0x100
  type u32 = x: int | 0 <= x < 0x1_0000_0000
  type i32 = x: int | -0x8000_0000 <= x < 0x8000_0000

  /** 2^n */
  function Pow2(n: nat): (p: nat)
    ensures p >= 1
  {
    if n == 0 then 1 else 2 * Pow2(n - 1)
  }

  lemma {:induction false} Pow2Add(a: nat, b: nat)
    ensures Pow2(a + b) == Pow2(a) * Pow2(b)
  {
    if a > 0 {
      Pow2Add(a - 1, b);
      assert Pow2(a + b) == 2 * Pow2(a - 1 + b);
    }
  }

  lemma {:induction false} Pow2Monotone(a: nat, b: nat)
    requires a <= b
    ensures Pow2(a) <= Pow2(b)
  {
    if a < b {
      Pow2Monotone(a, b - 1);
    }
  }

  lemma Pow2Values()
    ensures Pow2(7) == 0x80 && Pow2(8) == 0x100 && Pow2(14) == 0x4000
    ensures Pow2(21) == 0x20_0000 && Pow2(28) == 0x1000_0000 && Pow2(32) == U32_LIMIT
  {
  }

  /** Two integers that the same 32-bit register cannot tell apart. */
  predicate Congruent(a: int, b: int)
  {
    (a - b) % U32_LIMIT == 0
  }

  lemma CongruentEqual(a: int, b: int, lo: int)
    requires lo <= a < lo + U32_LIMIT && lo <= b < lo + U32_LIMIT
    requires Congruent(a, b)
    ensures a == b
  {
  }

  lemma CongruentTrans(a: int, b: int, c: int)
    requires Congruent(a, b) && Congruent(b, c)
    ensures Congruent(a, c)
  {
    var k := (a - b) / U32_LIMIT;
    var l := (b - c) / U32_LIMIT;
    assert a - c == (k + l) * U32_LIMIT;
  }

  lemma CongruentAdd(a: int, b: int, c: int)
    requires Congruent(a, b)
    ensures Congruent(a + c, b + c)
  {
    assert (a + c) - (b + c) == a - b;
  }

  lemma CongruentDouble(a: int, b: int)
    requires Congruent(a, b)
    ensures Congruent(2 * a, 2 * b)
  {
    var k := (a - b) / U32_LIMIT;
    assert 2 * a - 2 * b == (2 * k) * U32_LIMIT;
  }

  /**
    The int32 value a C signed operation leaves behind when its exact result
    is x: the unique int32 congruent to x modulo 2^32.
   */
  function WrapI32(x: int): (r: i32)
    ensures Congruent(r, x)
    ensures I32_MIN <= x <= I32_MAX ==> r == x
  {
    (x - I32_MIN) % U32_LIMIT + I32_MIN
  }

  /** Conversion of any integer to uint32_t (C11 6.3.1.3: reduction modulo 2^32). */
  function AsU32(x: int): (r: u32)
    ensures Congruent(r, x)
    ensures 0 <= x <= U32_MAX ==> r == x
  {
    x % U32_LIMIT
  }

  /** Conversion of a uint32_t value to int32_t on a two's-complement target. */
  function AsI32(x: u32): (r: i32)
    ensures Congruent(r, x)
    ensures x <= I32_MAX ==> r == x
    ensures x > I32_MAX ==> r == x - U32_LIMIT
  {
    if x <= I32_MAX then x else x - U32_LIMIT
  }

  /** Wrapping depends only on the residue modulo 2^32. */
  lemma WrapI32Congruent(x: int, y: int)
    requires Congruent(x, y)
    ensures WrapI32(x) == WrapI32(y)
  {
    CongruentTrans(WrapI32(x), x, y);
    assert Congruent(y, WrapI32(y)) by {
      assert y - WrapI32(y) == -(WrapI32(y) - y);
    }
    CongruentTrans(WrapI32(x), y, WrapI32(y));
    CongruentEqual(WrapI32(x), WrapI32(y), I32_MIN);
  }

  /** The wrapped sum of a wrapped value and another equals the wrapped exact sum. */
  lemma WrapI32AddLeft(a: int, b: int)
    ensures WrapI32(WrapI32(a) + b) == WrapI32(a + b)
  {
    CongruentAdd(WrapI32(a), a, b);
    WrapI32Congruent(WrapI32(a) + b, a + b);
  }

  lemma AsU32Congruent(x: int, y: int)
    requires Congruent(x, y)
    ensures AsU32(x) == AsU32(y)
  {
    CongruentTrans(AsU32(x), x, y);
    assert Congruent(y, AsU32(y)) by {
      assert y - AsU32(y) == -(AsU32(y) - y);
    }
    CongruentTrans(AsU32(x), y, AsU32(y));
    CongruentEqual(AsU32(x), AsU32(y), 0);
  }

  /** Subtracting a wrapped running value recovers the wrapped increment. */
  lemma WrapI32Difference(s: int, d: i32)
    ensures WrapI32(WrapI32(s + d) as int - WrapI32(s)) == d
  {
    var a: int := WrapI32(s + d);
    var b: int := WrapI32(s);
    CongruentAdd(a, s + d, -b);
    CongruentAdd(s, b, d);
    CongruentTrans(a - b, s + d - b, d);
    WrapI32Congruent(a - b, d);
  }
}

/**
  Corrected definitions for the three defects of the coders, with the
  properties the interface documentation promises proved about them:

  - zigzag decoding that computes `-(int32_t)(in >> 1) - 1` for odd codes,
    which cannot overflow, so every int32 round-trips;
  - a variable-length encoder that emits groups until the remaining value is
    zero (up to five bytes, the LEB128 layout), so every uint32 round-trips
    through the reference decoder;
  - the chain built from these two, which gives back every int32 series.

  The reference decoder DecodeFrom already accumulates into a uint32_t. A C
  decoder for five-byte groups must shift the payload as a uint32_t: a fifth
  byte whose payload is 8 or more overflows an int at `<< 28`, and a sixth
  byte would shift past an int's width.
 */
module Corrected {
  import opened Machine
  import opened Arith
  import opened Delta
  import opened Zigzag
  import opened Varint
  import opened VarintProperties

  /** Zigzag decoding without the wrapping `in + 1`: the inverse of the encoder on every code. */
  function CorrectZigzagDecodeValue(v: u32): (n: i32)
    ensures ZigzagEncodeValue(n) == v
  {
    if v % 2 == 0 then v / 2 else -(v / 2) - 1
  }

  /** Every int32, the most negative one included, survives encoding and corrected decoding. */
  lemma CorrectZigzagRoundTrip(n: i32)
    ensures CorrectZigzagDecodeValue(ZigzagEncodeValue(n)) == n
  {
    var v := ZigzagEncodeValue(n);
    var m := CorrectZigzagDecodeValue(v);
    ZigzagEncodeBijective(m, n, v);
  }

  /** The correction changes the result for the code 0xFFFFFFFF only. */
  lemma CorrectZigzagAgrees(v: u32)
    ensures CorrectZigzagDecodeValue(v) == ZigzagDecodeValue(v) <==> v != U32_MAX
  {
  }

  function CorrectZigzagDecodeSeq(vs: seq<u32>): seq<i32>
  {
    seq(|vs|, i requires 0 <= i < |vs| => CorrectZigzagDecodeValue(vs[i]))
  }

  lemma CorrectZigzagSeqRoundTrip(xs: seq<i32>)
    ensures CorrectZigzagDecodeSeq(ZigzagEncodeSeq(xs)) == xs
  {
    forall i | 0 <= i < |xs|
      ensures CorrectZigzagDecodeSeq(ZigzagEncodeSeq(xs))[i] == xs[i]
    {
      CorrectZigzagRoundTrip(xs[i]);
    }
  }

  /** The number of seven-bit groups up to and including the highest non-zero one (one for zero). */
  function LebLength(v: u32): (k: nat)
    ensures 1 <= k <= 5
    ensures v < Pow2(7 * k)
    ensures k > 1 ==> v >= Pow2(7 * (k - 1))
  {
    Pow2Values();
    Pow2Add(28, 7);
    if v < 0x80 then 1
    else if v < 0x4000 then 2
    else if v < 0x20_0000 then 3
    else if v < 0x1000_0000 then 4
    else 5
  }

  /** The code of one value: every group up to the highest non-zero one. */
  function LebEncodeValue(v: u32): (bs: seq<u8>)
    ensures 1 <= |bs| <= 5
    ensures IsCode(bs)
  {
    CodeOf(v, LebLength(v))
  }

  function LebEncode(vs: seq<u32>): (bs: seq<u8>)
    ensures |vs| <= |bs| <= 5 * |vs|
  {
    if |vs| == 0 then [] else LebEncodeValue(vs[0]) + LebEncode(vs[1..])
  }

  /** The groups of the code of v hold all of v. */
  lemma LebGroupValue(v: u32)
    ensures GroupValue(LebEncodeValue(v)) == v
  {
    var k := LebLength(v);
    GroupValueCodeOf(v, k, k);
    assert CodeOf(v, k)[..k] == CodeOf(v, k);
    DivModUnique(v, Pow2(7 * k), 0, v);
  }

  /** The code of v, whatever follows it, decodes to v itself. */
  lemma LebDecodeValue(v: u32, rest: seq<u8>)
    ensures DecodeFrom(LebEncodeValue(v) + rest, []) == [v] + DecodeFrom(rest, [])
  {
    var c := LebEncodeValue(v);
    DecodeCode(c, rest, []);
    assert [] + c == c;
    LebGroupValue(v);
  }

  /** The reference decoder gives back every uint32 sequence the corrected encoder writes. */
  lemma {:induction false} LebRoundTrip(vs: seq<u32>)
    ensures VarintDecode(LebEncode(vs)) == vs
  {
    if |vs| > 0 {
      LebDecodeValue(vs[0], LebEncode(vs[1..]));
      LebRoundTrip(vs[1..]);
      assert vs == [vs[0]] + vs[1..];
    }
  }

  /** No code ends in a zero byte unless it is the single byte of the value zero: each code is the shortest. */
  lemma LebShortest(v: u32)
    ensures var bs := LebEncodeValue(v); |bs| > 1 ==> bs[|bs| - 1] != 0
  {
    var k := LebLength(v);
    if k > 1 {
      var p := Pow2(7 * (k - 1));
      var q := v / p;
      DivModUnique(v, p, q, v % p);
      assert q >= 1 by {
        DivBounds(v, p);
      }
      Pow2Add(7 * (k - 1), 7);
      Pow2Values();
      DivLess(v, p, 128);
      assert Group(v, k - 1) == q;
    }
  }

  /** Below 2^14 the corrected encoder writes the same bytes as the original one. */
  lemma LebAgreesBelow14Bits(v: u32)
    requires v < 0x4000
    ensures LebEncodeValue(v) == EncodeValue(v)
  {
    Pow2Values();
    DivLess(v, 128, 128);
    assert Window(v, 1) == v / 128;
    assert Window(v, 2) == 0;
  }

  function CorrectCompress(xs: seq<i32>): seq<u8>
  {
    LebEncode(ZigzagEncodeSeq(DeltaEncode(xs)))
  }

  function CorrectDecompress(bs: seq<u8>): seq<i32>
  {
    DeltaDecode(CorrectZigzagDecodeSeq(VarintDecode(bs)))
  }

  /** With both corrections the chain gives back every int32 series, with no bound on the steps. */
  lemma CorrectPipelineRoundTrip(xs: seq<i32>)
    ensures CorrectDecompress(CorrectCompress(xs)) == xs
  {
    var ds := DeltaEncode(xs);
    LebRoundTrip(ZigzagEncodeSeq(ds));
    CorrectZigzagSeqRoundTrip(ds);
    DeltaDecodeEncode(xs);
  }
}

/**
  The zigzag mapper: signed 32-bit values become unsigned 32-bit codes so
  that values of small magnitude get small codes whatever their sign
  (0, -1, 1, -2, 2, ... map to 0, 1, 2, 3, 4, ...).

  Encoding follows the C expressions `in << 1` and `((~in + 1) << 1) - 1` in
  int32 arithmetic with wrap-around, then the conversion to uint32_t.
  Decoding follows `in >> 1` and `-((in + 1) >> 1)` in uint32 arithmetic,
  then the conversion to int32_t. Because `in + 1` wraps for 0xFFFFFFFF, that
  code decodes to 0, and the most negative int32 does not survive a round trip.
 */
module Zigzag {
  import opened Machine
  import opened CompressorTypes

  /** ~x on int32_t. */
  function BitNot32(x: i32): i32
  {
    -(x as int) - 1
  }

  /** -x on uint32_t. */
  function NegU32(x: u32): u32
  {
    AsU32(-(x as int))
  }

  /** One element of zigzag_encoding. */
  function ZigzagEncodeValue(n: i32): (z: u32)
    ensures n == 0 ==> z == 0
    ensures n > 0 ==> z == 2 * n
    ensures n < 0 ==> z == 2 * -(n as int) - 1
  {
    if n == 0 then AsU32(n)
    else if n > 0 then
      PositiveCode(n);
      AsU32(WrapI32(n as int * 2))
    else
      NegativeCode(n);
      AsU32(WrapI32(WrapI32(WrapI32(BitNot32(n) as int + 1) as int * 2) as int - 1))
  }

  lemma PositiveCode(n: int)
    requires 0 < n <= I32_MAX
    ensures AsU32(WrapI32(n * 2)) == 2 * n
  {
    AsU32Congruent(WrapI32(n * 2), n * 2);
  }

  /** ~n + 1 overflows for the most negative n; the wrapped result still has the right low 32 bits. */
  lemma NegativeCode(n: int)
    requires I32_MIN <= n < 0
    ensures AsU32(WrapI32(WrapI32(WrapI32(-n - 1 + 1) as int * 2) as int - 1)) == 2 * -n - 1
  {
    var t: int := WrapI32(-n - 1 + 1);
    var u: int := WrapI32(t * 2);
    var w: int := WrapI32(u - 1);
    CongruentDouble(t, -n);
    CongruentTrans(u, 2 * t, 2 * -n);
    CongruentAdd(u, 2 * -n, -1);
    CongruentTrans(w, u - 1, 2 * -n - 1);
    AsU32Congruent(w, 2 * -n - 1);
  }

  /** One element of zigzag_decoding. */
  function ZigzagDecodeValue(v: u32): (n: i32)
    ensures v % 2 == 0 ==> n == v / 2
    ensures v % 2 == 1 && v < U32_MAX ==> n == -((v + 1) / 2)
    ensures v == U32_MAX ==> n == 0
  {
    if v == 0 then 0
    else if v % 2 == 0 then AsI32(v / 2)
    else AsI32(NegU32(AsU32(v + 1) / 2))
  }

  /** Decoding undoes encoding for every int32 except the most negative one. */
  lemma ZigzagDecodeEncode(n: i32)
    ensures ZigzagDecodeValue(ZigzagEncodeValue(n)) == n <==> n != I32_MIN
  {
  }

  /** The most negative int32 is encoded as 0xFFFFFFFF, which decodes to 0. */
  lemma ZigzagIntMinLost()
    ensures ZigzagEncodeValue(I32_MIN) == U32_MAX
    ensures ZigzagDecodeValue(U32_MAX) == 0
  {
  }

  /** Encoding undoes decoding for every code except 0xFFFFFFFF. */
  lemma ZigzagEncodeDecode(v: u32)
    ensures ZigzagEncodeValue(ZigzagDecodeValue(v)) == v <==> v != U32_MAX
  {
  }

  /** Encoding is one-to-one and reaches every uint32 code. */
  lemma ZigzagEncodeBijective(a: i32, b: i32, v: u32)
    ensures ZigzagEncodeValue(a) == ZigzagEncodeValue(b) ==> a == b
    ensures exists n: i32 :: ZigzagEncodeValue(n) == v
  {
    var n: i32 := if v % 2 == 0 then v / 2 else -((v + 1) / 2);
    assert ZigzagEncodeValue(n) == v;
  }

  function Abs(n: int): nat
  {
    if n < 0 then -n else n
  }

  /** Smaller magnitude gives a smaller code, whatever the signs; equal magnitudes put the negative value first. */
  lemma ZigzagOrdering(a: i32, b: i32)
    ensures Abs(a) < Abs(b) ==> ZigzagEncodeValue(a) < ZigzagEncodeValue(b)
    ensures Abs(a) == Abs(b) && a < b ==> ZigzagEncodeValue(a) + 1 == ZigzagEncodeValue(b)
  {
  }

  /** The example table of the interface documentation. */
  lemma ZigzagDocumentedTable()
    ensures ZigzagEncodeValue(0) == 0 && ZigzagEncodeValue(-1) == 1 && ZigzagEncodeValue(1) == 2
    ensures ZigzagEncodeValue(-2) == 3 && ZigzagEncodeValue(2) == 4
    ensures ZigzagEncodeValue(-3) == 5 && ZigzagEncodeValue(3) == 6
  {
  }

  /** The codes below 2^14 are exactly the images of -8192 .. 8191. */
  lemma ZigzagBelow14Bits(n: i32)
    ensures ZigzagEncodeValue(n) < 0x4000 <==> -0x2000 <= n < 0x2000
  {
  }

  /** zigzag_encoding on a whole sequence: the low bit of each code carries the sign of its value. */
  function ZigzagEncodeSeq(xs: seq<i32>): (zs: seq<u32>)
    ensures |zs| == |xs|
    ensures forall i :: 0 <= i < |xs| ==> (zs[i] % 2 == 1 <==> xs[i] < 0)
  {
    seq(|xs|, i requires 0 <= i < |xs| => ZigzagEncodeValue(xs[i]))
  }

  /** zigzag_decoding on a whole sequence: no code decodes to the most negative int32. */
  function ZigzagDecodeSeq(vs: seq<u32>): (ns: seq<i32>)
    ensures |ns| == |vs|
    ensures forall i :: 0 <= i < |vs| ==> ns[i] != I32_MIN
  {
    seq(|vs|, i requires 0 <= i < |vs| => ZigzagDecodeValue(vs[i]))
  }

  /** Element-wise round trip over a whole sequence that avoids the most negative int32. */
  lemma ZigzagSeqRoundTrip(xs: seq<i32>)
    requires forall i :: 0 <= i < |xs| ==> xs[i] != I32_MIN
    ensures ZigzagDecodeSeq(ZigzagEncodeSeq(xs)) == xs
  {
    var r := ZigzagDecodeSeq(ZigzagEncodeSeq(xs));
    forall i | 0 <= i < |xs|
      ensures r[i] == xs[i]
    {
      ZigzagDecodeEncode(xs[i]);
    }
  }

  /**
    zigzag_encoding: NULL input or output gives ERROR_NULL_POINTER, then a
    zero length gives ERROR_INVALID_LENGTH, and neither writes anything. On
    success exactly out[0..len) receives the codes of in[0..len).
   */
  method ZigzagEncoding(inp: Buffer<i32>, out: Buffer<u32>, len: nat)
    returns (rc: RetCode, written: Buffer<u32>)
    requires inp.Buf? && out.Buf? && len >= 1 ==> Spans(inp, len) && Spans(out, len)
    ensures rc == ErrorNullPointer <==> inp.Null? || out.Null?
    ensures rc == ErrorInvalidLength <==> inp.Buf? && out.Buf? && len == 0
    ensures rc == Success <==> inp.Buf? && out.Buf? && len >= 1
    ensures rc != Success ==> written == out
    ensures rc == Success ==>
      written.Buf? && written.cells == ZigzagEncodeSeq(inp.cells[..len]) + out.cells[len..]
  {
    if inp.Null? || out.Null? {
      return ErrorNullPointer, out;
    }
    if len < 1 {
      return ErrorInvalidLength, out;
    }
    ghost var want := ZigzagEncodeSeq(inp.cells[..len]);
    var src := inp.cells;
    var dst := out.cells;
    var i := 0;
    while i < len
      invariant 0 <= i <= len
      invariant |dst| == |out.cells|
      invariant forall k :: 0 <= k < i ==> dst[k] == want[k]
      invariant dst[len..] == out.cells[len..]
    {
      dst := dst[i := ZigzagEncodeValue(src[i])];
      i := i + 1;
    }
    assert dst == want + out.cells[len..];
    return Success, Buf(dst);
  }

  /**
    zigzag_decoding: only the output is checked for NULL. The input is read
    without a check, so a caller must supply it whenever elements are read.
   */
  method ZigzagDecoding(inp: Buffer<u32>, out: Buffer<i32>, len: nat)
    returns (rc: RetCode, written: Buffer<i32>)
    requires out.Buf? && len >= 1 ==> inp.Buf? && Spans(inp, len) && Spans(out, len)
    ensures rc == ErrorNullPointer <==> out.Null?
    ensures rc == ErrorInvalidLength <==> out.Buf? && len == 0
    ensures rc == Success <==> out.Buf? && len >= 1
    ensures rc != Success ==> written == out
    ensures rc == Success ==>
      inp.Buf? && written.Buf? && written.cells == ZigzagDecodeSeq(inp.cells[..len]) + out.cells[len..]
  {
    if out.Null? {
      return ErrorNullPointer, out;
    }
    if len < 1 {
      return ErrorInvalidLength, out;
    }
    ghost var want := ZigzagDecodeSeq(inp.cells[..len]);
    var src := inp.cells;
    var dst := out.cells;
    var i := 0;
    while i < len
      invariant 0 <= i <= len
      invariant |dst| == |out.cells|
      invariant forall k :: 0 <= k < i ==> dst[k] == want[k]
      invariant dst[len..] == out.cells[len..]
    {
      dst := dst[i := ZigzagDecodeValue(src[i])];
      i := i + 1;
    }
    assert dst == want + out.cells[len..];
    return Success, Buf(dst);
  }

  /**
    zigzag_decoding checks out before it reads in, so a NULL out is rejected
    whatever in holds: here an empty array claimed to hold one value.
   */
  method NullOutUnreadInput() returns (rc: RetCode, written: Buffer<i32>)
    ensures rc == ErrorNullPointer && written == Null
  {
    rc, written := ZigzagDecoding(Buf([]), Null, 1);
  }
}

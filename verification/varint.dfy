/**
  The variable-length coder for uint32 values, as the C code implements it.

  Each value is written as groups of seven payload bits, least significant
  group first, one byte per group; every byte of a value except its last has
  the continuation bit 0x80 set. The encoder always emits group 0 and then
  emits group j (j = 1, 2, 3) only while the 8-bit window of bits 7j .. 7j+7 is
  non-zero; it never emits a fifth group. So a value takes one to four bytes,
  and a value whose window is zero below a higher set bit, or that uses bits
  28 .. 31, loses those bits.

  The decoder ORs each byte's payload into an accumulator at the current
  shift, and emits the accumulator at every byte whose continuation bit is
  clear; bytes after the last such byte are dropped.
 */
module Varint {
  import opened Machine
  import opened Arith
  import opened Bits
  import opened CompressorTypes

  /** CONTINUE_BIT_MASK */
  const CONTINUE_BIT_MASK: nat := 0x80
  /** PAYLOAD_MASK */
  const PAYLOAD_MASK: nat := 0x7F

  /** v >> 7j: the bits of v from bit 7j upwards. */
  function Above(v: u32, j: nat): nat
  {
    DivBounds(v, Pow2(7 * j));
    v / Pow2(7 * j)
  }

  /** Bits 7j .. 7j+7 of v: the byte the encoder tests before it emits group j. */
  function Window(v: u32, j: nat): nat
  {
    Above(v, j) % 256
  }

  /** Bits 7j .. 7j+6 of v: the payload of group j. */
  function Group(v: u32, j: nat): nat
  {
    Above(v, j) % 128
  }

  /**
    The number of bytes the encoder emits for v: group 0, then one more for
    each leading non-zero window among windows 1, 2 and 3.
   */
  function ByteCount(v: u32): (k: nat)
    ensures 1 <= k <= 4
    ensures forall j :: 1 <= j < k ==> Window(v, j) != 0
    ensures k < 4 ==> Window(v, k) == 0
  {
    if Window(v, 1) == 0 then 1
    else if Window(v, 2) == 0 then 2
    else if Window(v, 3) == 0 then 3
    else 4
  }

  /** Byte i of a k-byte code of v: the payload of group i, with the continuation bit unless it is the last. */
  function CodeByte(v: u32, k: nat, i: nat): u8
  {
    Group(v, i) + (if i + 1 < k then CONTINUE_BIT_MASK else 0)
  }

  /** The first k groups of v as a complete k-byte code. */
  function CodeOf(v: u32, k: nat): seq<u8>
  {
    seq(k, i requires 0 <= i < k => CodeByte(v, k, i))
  }

  /** Emitting one more group sets the continuation bit on the previous last byte. */
  lemma CodeOfExtend(v: u32, k: nat)
    requires k >= 1
    ensures CodeOf(v, k + 1) == CodeOf(v, k)[k - 1 := CodeOf(v, k)[k - 1] + CONTINUE_BIT_MASK] + [Group(v, k)]
  {
  }

  /** The bytes emitted for one value. */
  function EncodeValue(v: u32): (bs: seq<u8>)
    ensures 1 <= |bs| <= 4
    ensures bs[0] % 128 == v % 128
    ensures forall i :: 0 <= i < |bs| - 1 ==> bs[i] >= 128
    ensures bs[|bs| - 1] < 128
  {
    CodeShape(v, ByteCount(v));
    CodeOf(v, ByteCount(v))
  }

  /** A k-byte code: continuation bits on all but the last byte, and group 0 in the first. */
  lemma CodeShape(v: u32, k: nat)
    requires k >= 1
    ensures CodeOf(v, k)[0] % 128 == v % 128
    ensures forall i :: 0 <= i < k - 1 ==> CodeOf(v, k)[i] >= 128
    ensures CodeOf(v, k)[k - 1] < 128
  {
    assert Group(v, 0) == v % 128 by {
      assert Pow2(0) == 1;
    }
  }

  /** A byte whose continuation bit is clear: it ends a value. */
  predicate IsLast(b: u8)
  {
    b < 128
  }

  /** The number of bytes that end a value. */
  function Terminators(bs: seq<u8>): nat
  {
    if |bs| == 0 then 0 else (if IsLast(bs[0]) then 1 else 0) + Terminators(bs[1..])
  }

  /** The encoding of a sequence: the codes of its values, one after the other. */
  function VarintEncode(vs: seq<u32>): (bs: seq<u8>)
    ensures |vs| <= |bs| <= 4 * |vs|
  {
    if |vs| == 0 then [] else EncodeValue(vs[0]) + VarintEncode(vs[1..])
  }

  /** Each value's code holds exactly one terminator, so the encoding of n values holds n. */
  lemma {:induction false} EncodeTerminators(vs: seq<u32>)
    ensures Terminators(VarintEncode(vs)) == |vs|
  {
    if |vs| > 0 {
      EncodeTerminators(vs[1..]);
      TerminatorsAppend(EncodeValue(vs[0]), VarintEncode(vs[1..]));
      OneTerminator(EncodeValue(vs[0]));
    }
  }

  lemma {:induction false} TerminatorsAppend(a: seq<u8>, b: seq<u8>)
    ensures Terminators(a + b) == Terminators(a) + Terminators(b)
  {
    if |a| > 0 {
      assert (a + b)[1..] == a[1..] + b;
      TerminatorsAppend(a[1..], b);
    } else {
      assert a + b == b;
    }
  }

  /** A single value's code holds exactly one terminator, its last byte. */
  lemma {:induction false} OneTerminator(c: seq<u8>)
    requires |c| >= 1
    requires forall i :: 0 <= i < |c| - 1 ==> c[i] >= 128
    requires c[|c| - 1] < 128
    ensures Terminators(c) == 1
  {
    if |c| > 1 {
      OneTerminator(c[1..]);
    } else {
      assert c[1..] == [];
    }
  }

  /** The encoding of a sequence extended by one value is extended by that value's code. */
  lemma {:induction false} VarintEncodeSnoc(vs: seq<u32>, v: u32)
    ensures VarintEncode(vs + [v]) == VarintEncode(vs) + EncodeValue(v)
  {
    if |vs| == 0 {
      assert vs + [v] == [v];
      assert [v][1..] == [];
    } else {
      assert (vs + [v])[1..] == vs[1..] + [v];
      VarintEncodeSnoc(vs[1..], v);
    }
  }

  /** The value of a group of bytes: payload i weighs 2^(7i). */
  function GroupValue(g: seq<u8>): (v: nat)
    ensures v < Pow2(7 * |g|)
  {
    if |g| == 0 then 0
    else
      var n := |g| - 1;
      GroupValueStep(GroupValue(g[..n]), g[n] % 128, n);
      GroupValue(g[..n]) + (g[n] % 128) * Pow2(7 * n)
  }

  lemma GroupValueStep(low: nat, p: nat, n: nat)
    requires low < Pow2(7 * n) && p < 128
    ensures low + p * Pow2(7 * n) < Pow2(7 * (n + 1))
  {
    Pow2Add(7 * n, 7);
    Pow2Values();
    assert p * Pow2(7 * n) <= 127 * Pow2(7 * n);
  }

  /**
    The reference decoder: the values of the complete groups of bs, where
    `pending` holds the bytes already read of a group not yet ended, each
    stored into a uint32_t. An unterminated group at the end contributes
    nothing.
   */
  function DecodeFrom(bs: seq<u8>, pending: seq<u8>): (vs: seq<u32>)
    ensures |vs| <= |bs|
    decreases |bs|
  {
    if |bs| == 0 then []
    else if IsLast(bs[0]) then [AsU32(GroupValue(pending + [bs[0]]))] + DecodeFrom(bs[1..], [])
    else DecodeFrom(bs[1..], pending + [bs[0]])
  }

  /** varuint_decoding on a whole byte stream: at most one value per byte. */
  function VarintDecode(bs: seq<u8>): (vs: seq<u32>)
    ensures |vs| <= |bs|
  {
    DecodeFrom(bs, [])
  }

  /**
    No byte is read at a shift above 21: with `pending` continuation bytes of
    the current group already read, every group stays within four bytes, ended
    or not. This keeps the C shift `payload << bit_shifting` defined.
   */
  predicate GroupsFit(bs: seq<u8>, pending: nat): (fits: bool)
    ensures fits && |bs| > 0 ==> pending <= 3
    ensures fits && |bs| > 0 && Terminators(bs) == 0 ==> pending + |bs| <= 4
    decreases |bs|
  {
    |bs| == 0 ||
    (pending <= 3 && GroupsFit(bs[1..], if IsLast(bs[0]) then 0 else pending + 1))
  }

  /** The 8-bit window the C code reads as `aux.bytes[j]` after j left shifts of `aux`. */
  lemma ShiftedByte(v: u32, j: nat)
    requires 1 <= j <= 3
    ensures ByteAt(AsU32(v * Pow2(j)), j) == Window(v, j)
  {
    var a := Pow2(8 * j);
    var r := Pow2(32 - 8 * j);
    var x := v * Pow2(j);
    Pow2Add(8 * j, 32 - 8 * j);
    Pow2Values();
    assert AsU32(x) == x % (a * r);
    ModDiv(x, a, r);
    Pow2Add(8, 24 - 8 * j);
    DivBounds(x, a);
    ModMod(x / a, 256, Pow2(24 - 8 * j));
    Pow2Add(j, 7 * j);
    DivCancel(v, Pow2(j), Pow2(7 * j));
  }

  /** `aux.integer <<= 1` keeps aux equal to v shifted left j times, modulo 2^32. */
  lemma ShiftAgain(v: u32, j: nat)
    ensures ShiftLeft32(AsU32(v * Pow2(j)), 1) == AsU32(v * Pow2(j + 1))
  {
    var x := v * Pow2(j);
    assert Pow2(1) == 2;
    CongruentDouble(AsU32(x), x);
    assert v * Pow2(j + 1) == 2 * x;
    AsU32Congruent(AsU32(x) * 2, 2 * x);
  }

  /** `b & PAYLOAD_MASK` on the window byte is the group payload. */
  lemma WindowPayload(v: u32, j: nat)
    ensures And(Window(v, j), PAYLOAD_MASK) == Group(v, j)
  {
    PayloadOfByte(Above(v, j));
  }

  /** The effect of one pass of the inner loop on the code written so far. */
  lemma EmitStep(v: u32, j: nat, res: seq<u8>, base: nat)
    requires 1 <= j && base + j < |res|
    requires res[base..base + j] == CodeOf(v, j)
    ensures var res' := res[base + j - 1 := res[base + j - 1] + CONTINUE_BIT_MASK][base + j := Group(v, j)];
      && res'[..base] == res[..base]
      && res'[base..base + j + 1] == CodeOf(v, j + 1)
      && res'[base + j + 1..] == res[base + j + 1..]
  {
    var res' := res[base + j - 1 := res[base + j - 1] + CONTINUE_BIT_MASK][base + j := Group(v, j)];
    CodeOfExtend(v, j);
    assert res'[base..base + j + 1] == res[base..base + j][j - 1 := res[base + j - 1] + CONTINUE_BIT_MASK] + [Group(v, j)];
  }

  /**
    The body of the inner loop of varuint_encoding once the window `aux.bytes[j]`
    is known to be non-zero: set the continuation bit of the previous byte and
    write the payload of group j after it.
   */
  method EmitGroup(v: u32, j: nat, aux: u32, res: seq<u8>, base: nat) returns (res': seq<u8>)
    requires 1 <= j <= 3 && base + j < |res|
    requires aux == AsU32(v * Pow2(j))
    requires res[base..base + j] == CodeOf(v, j)
    ensures |res'| == |res|
    ensures res'[..base] == res[..base]
    ensures res'[base..base + j + 1] == CodeOf(v, j + 1)
    ensures res'[base + j + 1..] == res[base + j + 1..]
  {
    var next := base + j;
    ShiftedByte(v, j);
    assert res[next - 1] == CodeOf(v, j)[j - 1];
    OrContinueMask(res[next - 1]);
    res' := res[next - 1 := Or(res[next - 1], CONTINUE_BIT_MASK)];
    WindowPayload(v, j);
    res' := res'[next := And(ByteAt(aux, j), PAYLOAD_MASK)];
    EmitStep(v, j, res, base);
  }

  /**
    One pass of the outer loop of varuint_encoding: group 0 is written at
    `base`, then groups 1 .. 3 while the window of `aux` tested by the inner
    loop is non-zero, each setting the continuation bit of the byte before it.
   */
  method EmitValue(v: u32, dst: seq<u8>, base: nat) returns (res: seq<u8>, next: nat)
    requires base + 4 <= |dst|
    ensures next == base + ByteCount(v)
    ensures |res| == |dst|
    ensures res[..base] == dst[..base]
    ensures res[base..next] == EncodeValue(v)
    ensures res[next..] == dst[next..]
  {
    var aux: u32 := v;
    assert Pow2(0) == 1 && Pow2(8 * 0) == 1;
    PayloadOfByte(v);
    assert ByteAt(aux, 0) == v % 256 && Group(v, 0) == v % 128;
    res := dst[base := And(ByteAt(aux, 0), PAYLOAD_MASK)];
    assert res[base..base + 1] == CodeOf(v, 1);
    ShiftAgain(v, 0);
    aux := ShiftLeft32(aux, 1);
    next := base + 1;
    var j := 1;
    while j < 4
      invariant 1 <= j <= 4 && j <= ByteCount(v)
      invariant next == base + j
      invariant aux == AsU32(v * Pow2(j))
      invariant |res| == |dst|
      invariant res[..base] == dst[..base]
      invariant res[base..next] == CodeOf(v, j)
      invariant res[next..] == dst[next..]
    {
      ShiftedByte(v, j);
      if ByteAt(aux, j) != 0 {
        res := EmitGroup(v, j, aux, res, base);
        ShiftAgain(v, j);
        aux := ShiftLeft32(aux, 1);
        next := next + 1;
        j := j + 1;
      } else {
        break;
      }
    }
  }

  /**
    varuint_encoding: no check of any kind, always SUCCESS. For every input
    value the code bytes are appended to out, and *out_len receives their
    total. The output buffer must hold four bytes per input value.
   */
  method VaruintEncoding(inp: Buffer<u32>, inLen: nat, out: Buffer<u8>)
    returns (rc: RetCode, written: Buffer<u8>, outLen: nat)
    requires inLen > 0 ==> inp.Buf? && inLen <= |inp.cells| && out.Buf? && 4 * inLen <= |out.cells|
    ensures rc == Success
    ensures inLen <= outLen <= 4 * inLen
    ensures inLen == 0 ==> written == out && outLen == 0
    ensures inLen > 0 ==> outLen == |VarintEncode(inp.cells[..inLen])|
    ensures inLen > 0 ==>
      written.Buf? && written.cells == VarintEncode(inp.cells[..inLen]) + out.cells[outLen..]
  {
    if inLen == 0 {
      // the loop body never runs; *out_len = 0
      return Success, out, 0;
    }
    var src := inp.cells;
    var dst := out.cells;
    var outIndex := 0;
    var i := 0;
    while i < inLen
      invariant 0 <= i <= inLen
      invariant |dst| == |out.cells|
      invariant i <= outIndex <= 4 * i
      invariant dst[..outIndex] == VarintEncode(src[..i])
      invariant forall k :: outIndex <= k < |dst| ==> dst[k] == out.cells[k]
    {
      ghost var before := dst;
      ghost var base := outIndex;
      dst, outIndex := EmitValue(src[i], dst, outIndex);
      EncodeStep(src[..i], src[i], before, dst, base, outIndex);
      assert src[..i + 1] == src[..i] + [src[i]];
      i := i + 1;
    }
    assert src[..inLen] == src[..i];
    assert dst == dst[..outIndex] + out.cells[outIndex..];
    return Success, Buf(dst), outIndex;
  }

  /** Writing the code of v right after the encoding of `done` gives the encoding of done + [v]. */
  lemma EncodeStep(done: seq<u32>, v: u32, before: seq<u8>, after: seq<u8>, base: nat, next: nat)
    requires base <= next <= |after| && |after| == |before|
    requires before[..base] == VarintEncode(done)
    requires after[..base] == before[..base] && after[base..next] == EncodeValue(v)
    ensures after[..next] == VarintEncode(done + [v])
  {
    VarintEncodeSnoc(done, v);
    assert after[..next] == after[..base] + after[base..next];
  }

  lemma GroupValueSnoc(g: seq<u8>, b: u8)
    ensures GroupValue(g + [b]) == GroupValue(g) + (b % 128) * Pow2(7 * |g|)
  {
    assert (g + [b])[..|g|] == g;
  }

  /**
    `decoded_value |= (in[i] & PAYLOAD_MASK) << bit_shifting` with `pending`
    the bytes of the current group already read: the payload lands on bits
    that are still clear, the int shift does not overflow, and the
    accumulator becomes the value of the group extended by the byte.
   */
  method Accumulate(decoded: u32, bitShifting: nat, ghost pending: seq<u8>, b: u8) returns (d: u32)
    requires |pending| <= 3
    requires bitShifting == 7 * |pending| && decoded == GroupValue(pending)
    ensures d == GroupValue(pending + [b])
  {
    AccumulateStep(pending, b);
    d := Or(decoded, ShiftLeft(And(b, PAYLOAD_MASK), bitShifting));
  }

  lemma AccumulateStep(pending: seq<u8>, b: u8)
    requires |pending| <= 3
    ensures ShiftLeft(And(b, PAYLOAD_MASK), 7 * |pending|) <= I32_MAX
    ensures Or(GroupValue(pending), ShiftLeft(And(b, PAYLOAD_MASK), 7 * |pending|)) == GroupValue(pending + [b])
    ensures GroupValue(pending + [b]) < 0x1000_0000
  {
    var n := |pending|;
    var p := b % 128;
    var low := GroupValue(pending);
    assert ShiftLeft(And(b, PAYLOAD_MASK), 7 * n) == p * Pow2(7 * n) by {
      AndPayloadMask(b);
    }
    assert p * Pow2(7 * n) <= I32_MAX by {
      Pow2Monotone(7 * n, 21);
      Pow2Values();
      MulMonotone(p, Pow2(7 * n), 127, Pow2(21));
    }
    assert Or(low, p * Pow2(7 * n)) == low + p * Pow2(7 * n) by {
      OrDisjoint(low, p, 7 * n);
    }
    assert GroupValue(pending + [b]) == low + p * Pow2(7 * n) by {
      GroupValueSnoc(pending, b);
    }
    assert GroupValue(pending + [b]) < 0x1000_0000 by {
      assert |pending + [b]| == n + 1;
      Pow2Monotone(7 * (n + 1), 28);
      Pow2Values();
    }
  }

  /** Reading one more byte: how the reference decoder and the terminator count advance. */
  lemma DecodeStep(bs: seq<u8>, pending: seq<u8>)
    requires |bs| > 0
    ensures IsLast(bs[0]) ==>
      DecodeFrom(bs, pending) == [AsU32(GroupValue(pending + [bs[0]]))] + DecodeFrom(bs[1..], [])
    ensures !IsLast(bs[0]) ==> DecodeFrom(bs, pending) == DecodeFrom(bs[1..], pending + [bs[0]])
    ensures Terminators(bs) == (if IsLast(bs[0]) then 1 else 0) + Terminators(bs[1..])
    ensures GroupsFit(bs, |pending|) ==>
      |pending| <= 3 && GroupsFit(bs[1..], if IsLast(bs[0]) then 0 else |pending| + 1)
  {
  }

  /** Storing the value of a completed group keeps the decoded prefix in step with the reference decoder. */
  lemma StoreStep(dst: seq<u32>, outIndex: nat, rest: seq<u8>, pending: seq<u8>, want: seq<u32>)
    requires outIndex < |dst| && |rest| > 0 && IsLast(rest[0])
    requires dst[..outIndex] + DecodeFrom(rest, pending) == want
    ensures var d := AsU32(GroupValue(pending + [rest[0]]));
      dst[outIndex := d][..outIndex + 1] + DecodeFrom(rest[1..], []) == want
  {
    var d := AsU32(GroupValue(pending + [rest[0]]));
    DecodeStep(rest, pending);
    assert dst[outIndex := d][..outIndex + 1] == dst[..outIndex] + [d];
  }

  /**
    One pass of the loop of varuint_decoding on the byte b = rest[0], where
    `pending` holds the bytes of the current group read so far: the payload is
    ORed in, and a terminator stores the value into the next out slot and
    starts a new group. The values stored so far followed by what the
    reference decoder makes of the unread bytes stay equal to `want`.
   */
  method DecodeByte(b: u8, dst: seq<u32>, outIndex: nat, decoded: u32, bitShifting: nat,
                    ghost pending: seq<u8>, ghost rest: seq<u8>, ghost want: seq<u32>)
    returns (dst': seq<u32>, outIndex': nat, decoded': u32, bitShifting': nat, ghost pending': seq<u8>)
    requires |rest| > 0 && rest[0] == b && GroupsFit(rest, |pending|)
    requires bitShifting == 7 * |pending| && decoded == GroupValue(pending)
    requires outIndex + Terminators(rest) <= |dst|
    requires dst[..outIndex] + DecodeFrom(rest, pending) == want
    ensures |dst'| == |dst| && outIndex <= outIndex'
    ensures GroupsFit(rest[1..], |pending'|)
    ensures bitShifting' == 7 * |pending'| && decoded' == GroupValue(pending')
    ensures outIndex' + Terminators(rest[1..]) == outIndex + Terminators(rest)
    ensures dst'[..outIndex'] + DecodeFrom(rest[1..], pending') == want
    ensures forall k :: outIndex' <= k < |dst| ==> dst'[k] == dst[k]
  {
    DecodeStep(rest, pending);
    decoded' := Accumulate(decoded, bitShifting, pending, b);
    bitShifting' := bitShifting + 7;
    AndContinueMask(b);
    if And(b, CONTINUE_BIT_MASK) == 0 {
      StoreStep(dst, outIndex, rest, pending, want);
      dst' := dst[outIndex := decoded'];
      outIndex' := outIndex + 1;
      bitShifting' := 0;
      decoded' := 0;
      pending' := [];
    } else {
      dst', outIndex' := dst, outIndex;
      pending' := pending + [b];
    }
  }

  /** After the last byte the values stored are all the reference decoder yields, and the rest of out is untouched. */
  lemma DecodeDone(dst: seq<u32>, cells0: seq<u32>, outIndex: nat, want: seq<u32>, pending: seq<u8>)
    requires outIndex <= |dst| == |cells0|
    requires dst[..outIndex] + DecodeFrom([], pending) == want
    requires forall k :: outIndex <= k < |dst| ==> dst[k] == cells0[k]
    ensures dst == want + cells0[outIndex..]
  {
    assert dst == dst[..outIndex] + cells0[outIndex..];
  }

  /**
    varuint_decoding: no check of any kind, always SUCCESS. Each byte's payload
    is ORed into the accumulator at the current shift; a byte with the
    continuation bit clear stores the accumulator into out and resets the
    accumulator and the shift. *out_len receives the number of values stored,
    and the bytes after the last terminator are dropped.
   */
  method VaruintDecoding(inp: Buffer<u8>, inLen: nat, out: Buffer<u32>)
    returns (rc: RetCode, written: Buffer<u32>, outLen: nat)
    requires inLen > 0 ==> inp.Buf? && inLen <= |inp.cells| && GroupsFit(inp.cells[..inLen], 0)
    requires inLen > 0 ==> Terminators(inp.cells[..inLen]) <= Capacity(out)
    ensures rc == Success
    ensures inLen == 0 ==> outLen == 0
    ensures inLen > 0 ==> outLen == Terminators(inp.cells[..inLen])
    ensures outLen == 0 ==> written == out
    ensures outLen > 0 ==>
      written.Buf? && written.cells == VarintDecode(inp.cells[..inLen]) + out.cells[outLen..]
  {
    if inLen == 0 {
      // the loop body never runs; *out_len = 0
      return Success, out, 0;
    }
    var src := inp.cells;
    ghost var cells0: seq<u32> := if out.Buf? then out.cells else [];
    var dst: seq<u32> := if out.Buf? then out.cells else [];
    ghost var all := src[..inLen];
    var outIndex := 0;
    var bitShifting: nat := 0;
    var decoded: u32 := 0;
    ghost var pending: seq<u8> := [];
    var i := 0;
    assert all[0..] == all;
    while i < inLen
      invariant 0 <= i <= inLen
      invariant |dst| == |cells0|
      invariant GroupsFit(all[i..], |pending|)
      invariant bitShifting == 7 * |pending| && decoded == GroupValue(pending)
      invariant outIndex + Terminators(all[i..]) == Terminators(all)
      invariant dst[..outIndex] + DecodeFrom(all[i..], pending) == VarintDecode(all)
      invariant forall k :: outIndex <= k < |dst| ==> dst[k] == cells0[k]
    {
      assert all[i..][1..] == all[i + 1..];
      dst, outIndex, decoded, bitShifting, pending :=
        DecodeByte(src[i], dst, outIndex, decoded, bitShifting, pending, all[i..], VarintDecode(all));
      i := i + 1;
    }
    if outIndex == 0 {
      // nothing was stored; out is untouched
      return Success, out, 0;
    }
    DecodeDone(dst, cells0, outIndex, VarintDecode(all), pending);
    return Success, Buf(dst), outIndex;
  }
}

/**
  What the variable-length coder guarantees, and where it falls short: one
  value per terminator byte, a cut-off last group is dropped, a value's code
  decodes to the value reduced to the bits the code carries, and only values
  whose code carries all of their bits come back unchanged.
 */
module VarintProperties {
  import opened Machine
  import opened Arith
  import opened Varint

  /** Every terminator byte yields exactly one value. */
  lemma {:induction false} DecodeLength(bs: seq<u8>, pending: seq<u8>)
    ensures |DecodeFrom(bs, pending)| == Terminators(bs)
    decreases |bs|
  {
    if |bs| > 0 {
      DecodeLength(bs[1..], if IsLast(bs[0]) then [] else pending + [bs[0]]);
    }
  }

  /** Bytes that all carry the continuation bit yield nothing. */
  lemma {:induction false} DecodeNoTerminator(bs: seq<u8>, pending: seq<u8>)
    requires forall i :: 0 <= i < |bs| ==> !IsLast(bs[i])
    ensures DecodeFrom(bs, pending) == []
    decreases |bs|
  {
    if |bs| > 0 {
      DecodeNoTerminator(bs[1..], pending + [bs[0]]);
    }
  }

  /** Continuation bytes after the last terminator are dropped along with the group they start. */
  lemma {:induction false} DecodeDropsTail(bs: seq<u8>, tail: seq<u8>, pending: seq<u8>)
    requires forall i :: 0 <= i < |tail| ==> !IsLast(tail[i])
    ensures DecodeFrom(bs + tail, pending) == DecodeFrom(bs, pending)
    decreases |bs|
  {
    if |bs| == 0 {
      assert bs + tail == tail;
      DecodeNoTerminator(tail, pending);
    } else {
      assert (bs + tail)[0] == bs[0];
      assert (bs + tail)[1..] == bs[1..] + tail;
      DecodeDropsTail(bs[1..], tail, if IsLast(bs[0]) then [] else pending + [bs[0]]);
    }
  }

  /** The shape of one value's code: continuation bytes, then one terminator. */
  predicate IsCode(c: seq<u8>)
  {
    |c| >= 1 && IsLast(c[|c| - 1]) && forall i :: 0 <= i < |c| - 1 ==> !IsLast(c[i])
  }

  /** A code followed by more bytes decodes to the value of its group, then whatever the rest decodes to. */
  lemma {:induction false} DecodeCode(c: seq<u8>, rest: seq<u8>, pending: seq<u8>)
    requires IsCode(c)
    ensures DecodeFrom(c + rest, pending) == [AsU32(GroupValue(pending + c))] + DecodeFrom(rest, [])
    decreases |c|
  {
    assert (c + rest)[0] == c[0];
    assert (c + rest)[1..] == c[1..] + rest;
    if |c| == 1 {
      assert c[1..] + rest == rest;
      assert pending + c == pending + [c[0]];
    } else {
      assert IsCode(c[1..]);
      DecodeCode(c[1..], rest, pending + [c[0]]);
      assert pending + [c[0]] + c[1..] == pending + c;
    }
  }

  /** The first m bytes of a code of v carry exactly the low 7m bits of v. */
  lemma {:induction false} GroupValueCodeOf(v: u32, k: nat, m: nat)
    requires m <= k
    ensures GroupValue(CodeOf(v, k)[..m]) == v % Pow2(7 * m)
  {
    var c := CodeOf(v, k);
    if m == 0 {
      assert Pow2(0) == 1;
    } else {
      var n := m - 1;
      var a := Pow2(7 * n);
      assert GroupValue(c[..m]) == GroupValue(c[..n]) + Group(v, n) * a by {
        assert c[..m][..n] == c[..n];
        assert c[n] % 128 == Group(v, n);
      }
      assert GroupValue(c[..n]) == v % a by {
        GroupValueCodeOf(v, k, n);
      }
      assert Pow2(7 * m) == a * 128 by {
        Pow2Add(7 * n, 7);
        Pow2Values();
        assert 7 * m == 7 * n + 7;
      }
      assert v % (a * 128) == v % a + Group(v, n) * a by {
        ModSplit(v, a, 128);
      }
    }
  }

  /** The value the decoder returns for v: v without the bits at or above bit 7 * ByteCount(v). */
  function Kept(v: u32): (r: u32)
    ensures r <= v && r < 0x1000_0000
  {
    DivBounds(v, Pow2(7 * ByteCount(v)));
    Pow2Monotone(7 * ByteCount(v), 28);
    Pow2Values();
    v % Pow2(7 * ByteCount(v))
  }

  function KeptSeq(vs: seq<u32>): seq<u32>
  {
    seq(|vs|, i requires 0 <= i < |vs| => Kept(vs[i]))
  }

  /** The code of v, whatever follows it, decodes to Kept(v). */
  lemma DecodeValue(v: u32, rest: seq<u8>)
    ensures DecodeFrom(EncodeValue(v) + rest, []) == [Kept(v)] + DecodeFrom(rest, [])
  {
    var k := ByteCount(v);
    var c := EncodeValue(v);
    assert DecodeFrom(c + rest, []) == [AsU32(GroupValue(c))] + DecodeFrom(rest, []) by {
      assert IsCode(c);
      DecodeCode(c, rest, []);
      assert [] + c == c;
    }
    assert GroupValue(c) == Kept(v) by {
      GroupValueCodeOf(v, k, k);
      assert CodeOf(v, k)[..k] == c;
    }
  }

  /** Decoding an encoding gives back, position by position, the bits each code carried. */
  lemma {:induction false} VarintRoundTrip(vs: seq<u32>)
    ensures VarintDecode(VarintEncode(vs)) == KeptSeq(vs)
  {
    if |vs| > 0 {
      DecodeValue(vs[0], VarintEncode(vs[1..]));
      VarintRoundTrip(vs[1..]);
      assert KeptSeq(vs) == [Kept(vs[0])] + KeptSeq(vs[1..]);
    }
  }

  /** Values below 2^14 lose nothing. */
  lemma KeptSmall(v: u32)
    requires v < 0x4000
    ensures Kept(v) == v
  {
    Pow2Values();
    if ByteCount(v) == 1 {
      DivLess(v, 128, 128);
      assert Window(v, 1) == v / 128;
    } else {
      Pow2Monotone(14, 7 * ByteCount(v));
    }
  }

  /** The round trip is exact for sequences of values below 2^14. */
  lemma VarintRoundTripSmall(vs: seq<u32>)
    requires forall i :: 0 <= i < |vs| ==> vs[i] < 0x4000
    ensures VarintDecode(VarintEncode(vs)) == vs
  {
    VarintRoundTrip(vs);
    forall i | 0 <= i < |vs|
      ensures KeptSeq(vs)[i] == vs[i]
    {
      KeptSmall(vs[i]);
    }
  }

  /** The codes of the values below 2^14: one byte below 128, else low group with the continuation bit, then the high group. */
  lemma EncodeSmallValues(v: u32)
    ensures v < 0x80 ==> EncodeValue(v) == [v]
    ensures 0x80 <= v < 0x4000 ==> EncodeValue(v) == [v % 0x80 + 0x80, v / 0x80]
  {
    if v < 0x80 {
      EncodeOneByte(v);
    } else if v < 0x4000 {
      EncodeTwoBytes(v);
    }
  }

  lemma EncodeOneByte(v: u32)
    requires v < 0x80
    ensures EncodeValue(v) == [v]
  {
    assert Window(v, 1) == 0 && Group(v, 0) == v by {
      Pow2Values();
      assert Pow2(0) == 1;
    }
    assert ByteCount(v) == 1;
  }

  lemma EncodeTwoBytes(v: u32)
    requires 0x80 <= v < 0x4000
    ensures EncodeValue(v) == [v % 0x80 + 0x80, v / 0x80]
  {
    assert Window(v, 1) == v / 0x80 && Window(v, 2) == 0 by {
      Pow2Values();
      DivLess(v, 128, 128);
    }
    assert ByteCount(v) == 2;
    assert Group(v, 0) == v % 0x80 && Group(v, 1) == v / 0x80 by {
      Pow2Values();
      assert Pow2(0) == 1;
    }
  }

  /** 2^15 has an all-zero window 1 below its only set bit: it is written as the single byte 0 and comes back as 0. */
  lemma ZeroWindowStopsEarly()
    ensures EncodeValue(0x8000) == [0]
    ensures VarintDecode(VarintEncode([0x8000])) == [0]
  {
    Pow2Values();
    assert Pow2(0) == 1;
    assert Window(0x8000, 1) == 0;
    VarintRoundTrip([0x8000]);
  }

  /** The bit fields of the largest uint32: every window and every group below bit 28 is full. */
  lemma MaxFields()
    ensures Window(U32_MAX, 1) == 0xFF && Window(U32_MAX, 2) == 0xFF && Window(U32_MAX, 3) == 0xFF
    ensures Group(U32_MAX, 0) == 0x7F && Group(U32_MAX, 1) == 0x7F
    ensures Group(U32_MAX, 2) == 0x7F && Group(U32_MAX, 3) == 0x7F
  {
    Pow2Values();
    assert Pow2(0) == 1;
  }

  /** The largest uint32 fills four bytes and comes back without its bits 28 .. 31. */
  lemma HighBitsDropped()
    ensures EncodeValue(U32_MAX) == [0xFF, 0xFF, 0xFF, 0x7F]
    ensures VarintDecode(VarintEncode([U32_MAX])) == [0x0FFF_FFFF]
  {
    MaxFields();
    assert ByteCount(U32_MAX) == 4;
    assert Kept(U32_MAX) == 0x0FFF_FFFF by {
      Pow2Values();
    }
    VarintRoundTrip([U32_MAX]);
  }

  /** Bytes whose payloads are all zero add nothing to a group's value. */
  lemma {:induction false} ZeroPayloads(g: seq<u8>)
    requires forall i :: 0 <= i < |g| ==> g[i] % 128 == 0
    ensures GroupValue(g) == 0
  {
    if |g| > 0 {
      ZeroPayloads(g[..|g| - 1]);
    }
  }

  /**
    A five-byte group whose last payload is 7 decodes to 0x70000000: the C
    shift `7 << 28` still fits an int. The four-byte bound on groups that the
    decoder's contract asks for excludes it all the same.
   */
  lemma FiveByteGroup(bs: seq<u8>)
    requires bs == [0x80, 0x80, 0x80, 0x80, 0x07]
    ensures VarintDecode(bs) == [0x7000_0000]
    ensures !GroupsFit(bs, 0)
  {
    assert IsCode(bs);
    assert DecodeFrom(bs, []) == [AsU32(GroupValue(bs))] + DecodeFrom([], []) by {
      DecodeCode(bs, [], []);
      assert bs + [] == bs && [] + bs == bs;
    }
    assert GroupValue(bs) == 0x7000_0000 by {
      ZeroPayloads(bs[..4]);
      Pow2Values();
    }
    assert AsU32(0x7000_0000) == 0x7000_0000;
    assert VarintDecode(bs) == [0x7000_0000];
    assert !GroupsFit(bs[4..], 4);
    assert bs[1..][1..] == bs[2..] && bs[2..][1..] == bs[3..] && bs[3..][1..] == bs[4..];
    assert GroupsFit(bs, 0) == GroupsFit(bs[1..], 1) == GroupsFit(bs[2..], 2);
    assert GroupsFit(bs[2..], 2) == GroupsFit(bs[3..], 3) == GroupsFit(bs[4..], 4);
  }

  /** The encoding of a concatenation is the concatenation of the encodings: values are coded independently. */
  lemma {:induction false} VarintEncodeAppend(a: seq<u32>, b: seq<u32>)
    ensures VarintEncode(a + b) == VarintEncode(a) + VarintEncode(b)
  {
    if |a| == 0 {
      assert a + b == b;
    } else {
      assert (a + b)[0] == a[0];
      assert (a + b)[1..] == a[1..] + b;
      VarintEncodeAppend(a[1..], b);
    }
  }

  /** Values below 128 are their own one-byte codes, so a sequence of them is encoded as itself. */
  lemma {:induction false} VarintEncodeBytes(vs: seq<u32>)
    requires forall i :: 0 <= i < |vs| ==> vs[i] < 0x80
    ensures VarintEncode(vs) == vs
  {
    if |vs| > 0 {
      EncodeSmallValues(vs[0]);
      VarintEncodeBytes(vs[1..]);
      assert vs == [vs[0]] + vs[1..];
    }
  }

  /** A code no longer than the room left in the current group keeps every group within four bytes. */
  lemma {:induction false} GroupsFitCode(c: seq<u8>, rest: seq<u8>, pending: nat)
    requires IsCode(c) && pending + |c| <= 4
    requires GroupsFit(rest, 0)
    ensures GroupsFit(c + rest, pending)
    decreases |c|
  {
    assert (c + rest)[0] == c[0];
    assert (c + rest)[1..] == c[1..] + rest;
    if |c| == 1 {
      assert c[1..] + rest == rest;
    } else {
      assert IsCode(c[1..]);
      GroupsFitCode(c[1..], rest, pending + 1);
    }
  }

  /** The encoder's output meets the decoder's requirement. */
  lemma {:induction false} EncodeFits(vs: seq<u32>)
    ensures GroupsFit(VarintEncode(vs), 0)
  {
    if |vs| > 0 {
      EncodeFits(vs[1..]);
      assert IsCode(EncodeValue(vs[0]));
      GroupsFitCode(EncodeValue(vs[0]), VarintEncode(vs[1..]), 0);
    } else {
      assert VarintEncode(vs) == [];
    }
  }

  /** With groups of at most four bytes no decoded value reaches bit 28. */
  lemma {:induction false} DecodeBelow28Bits(bs: seq<u8>, pending: seq<u8>)
    requires GroupsFit(bs, |pending|)
    ensures forall i :: 0 <= i < |DecodeFrom(bs, pending)| ==> DecodeFrom(bs, pending)[i] < 0x1000_0000
    decreases |bs|
  {
    if |bs| > 0 {
      DecodeBelow28Bits(bs[1..], if IsLast(bs[0]) then [] else pending + [bs[0]]);
      if IsLast(bs[0]) {
        Pow2Monotone(7 * (|pending| + 1), 28);
        Pow2Values();
      }
    }
  }
}

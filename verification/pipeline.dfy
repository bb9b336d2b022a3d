/**
  The three transforms chained as the test program chains them: delta code,
  zigzag code, variable-length bytes, and back in the reverse order. The
  chain gives back its input exactly when every zigzag code of the delta
  code is carried whole by its variable-length code; neighbouring values
  less than 8192 apart are enough.
 */
module Pipeline {
  import opened Machine
  import opened CompressorTypes
  import opened Delta
  import opened Zigzag
  import opened Varint
  import opened VarintProperties

  function Compress(xs: seq<i32>): seq<u8>
  {
    VarintEncode(ZigzagEncodeSeq(DeltaEncode(xs)))
  }

  function Decompress(bs: seq<u8>): seq<i32>
  {
    DeltaDecode(ZigzagDecodeSeq(VarintDecode(bs)))
  }

  /** Every zigzag code of the delta code of xs survives the variable-length coder. */
  predicate Recoverable(xs: seq<i32>)
  {
    var zs := ZigzagEncodeSeq(DeltaEncode(xs));
    forall i :: 0 <= i < |zs| ==> Kept(zs[i]) == zs[i]
  }

  /** The anchor and every difference of neighbours (wrapped to int32) lie in -8192 .. 8191. */
  predicate SmallSteps(xs: seq<i32>)
  {
    var ds := DeltaEncode(xs);
    forall i :: 0 <= i < |ds| ==> -0x2000 <= ds[i] < 0x2000
  }

  /** Decompression returns the input exactly when the input is recoverable. */
  lemma PipelineRoundTrip(xs: seq<i32>)
    ensures Decompress(Compress(xs)) == xs <==> Recoverable(xs)
  {
    if Recoverable(xs) {
      RecoverableRoundTrip(xs);
    }
    if Decompress(Compress(xs)) == xs {
      RoundTripRecoverable(xs);
    }
  }

  /** After the variable-length coder, what comes back is the zigzag decoding of the kept bits. */
  lemma DecompressCompress(xs: seq<i32>)
    ensures Decompress(Compress(xs)) == DeltaDecode(ZigzagDecodeSeq(KeptSeq(ZigzagEncodeSeq(DeltaEncode(xs)))))
  {
    VarintRoundTrip(ZigzagEncodeSeq(DeltaEncode(xs)));
  }

  lemma RecoverableRoundTrip(xs: seq<i32>)
    requires Recoverable(xs)
    ensures Decompress(Compress(xs)) == xs
  {
    var ds := DeltaEncode(xs);
    var zs := ZigzagEncodeSeq(ds);
    DecompressCompress(xs);
    assert KeptSeq(zs) == zs;
    forall i | 0 <= i < |ds|
      ensures ds[i] != I32_MIN
    {
      assert zs[i] < 0x1000_0000;
    }
    ZigzagSeqRoundTrip(ds);
    DeltaDecodeEncode(xs);
  }

  lemma RoundTripRecoverable(xs: seq<i32>)
    requires Decompress(Compress(xs)) == xs
    ensures Recoverable(xs)
  {
    var ds := DeltaEncode(xs);
    var zs := ZigzagEncodeSeq(ds);
    var back := ZigzagDecodeSeq(KeptSeq(zs));
    DecompressCompress(xs);
    DeltaEncodeDecode(back);
    assert back == ds;
    forall i | 0 <= i < |zs|
      ensures Kept(zs[i]) == zs[i]
    {
      assert ZigzagDecodeValue(Kept(zs[i])) == ds[i];
      ZigzagEncodeDecode(Kept(zs[i]));
    }
  }

  /** Differences below 2^13 in magnitude are enough: their zigzag codes fit in two bytes. */
  lemma SmallStepsRecoverable(xs: seq<i32>)
    requires SmallSteps(xs)
    ensures Recoverable(xs)
    ensures Decompress(Compress(xs)) == xs
  {
    var ds := DeltaEncode(xs);
    var zs := ZigzagEncodeSeq(ds);
    forall i | 0 <= i < |zs|
      ensures Kept(zs[i]) == zs[i]
    {
      ZigzagBelow14Bits(ds[i]);
      KeptSmall(zs[i]);
    }
    PipelineRoundTrip(xs);
  }

  /**
    The six transforms called in the order of the full round trip, each on
    the buffer the previous one wrote: int32 scratch, uint32 scratch (reused
    by the decoder), a byte buffer of four bytes per value, and the output.
    `rcs` holds the six statuses in call order: every call succeeds, and the
    output holds the input again.
   */
  method FullEncodeDecode(original: seq<i32>) returns (rcs: seq<RetCode>, restored: seq<i32>)
    requires |original| >= 2 && Recoverable(original)
    ensures rcs == [Success, Success, Success, Success, Success, Success]
    ensures restored == original
  {
    var n := |original|;
    var auxI32: Buffer<i32> := Buf(seq(n, _ => 0));
    var auxU32: Buffer<u32> := Buf(seq(n, _ => 0));
    var auxU8: Buffer<u8> := Buf(seq(4 * n, _ => 0));
    var outI32: Buffer<i32> := Buf(seq(n, _ => 0));
    assert original[..n] == original;

    var r1: RetCode;
    r1, auxI32 := DeltaEncoding(Buf(original), auxI32, n);
    ghost var ds := DeltaEncode(original);
    assert auxI32.cells[..n] == ds;

    var r2: RetCode;
    r2, auxU32 := ZigzagEncoding(auxI32, auxU32, n);
    ghost var zs := ZigzagEncodeSeq(ds);
    assert auxU32.cells == zs;

    var encLen: nat;
    ghost var bs := VarintEncode(zs);
    ghost var room := auxU8.cells;
    assert auxU32.cells[..n] == zs;
    var r3: RetCode;
    r3, auxU8, encLen := VaruintEncoding(auxU32, n, auxU8);
    assert auxU8.cells == bs + room[encLen..];
    assert auxU8.cells[..encLen] == bs;
    EncodeFits(zs);
    EncodeTerminators(zs);
    VarintRoundTrip(zs);
    assert KeptSeq(zs) == zs;

    var decLen: nat;
    var r4: RetCode;
    r4, auxU32, decLen := VaruintDecoding(auxU8, encLen, auxU32);
    assert decLen == n;
    assert auxU32.cells == zs;

    var r5: RetCode;
    r5, auxI32 := ZigzagDecoding(auxU32, auxI32, decLen);
    assert auxI32.cells == ZigzagDecodeSeq(zs);

    var r6: RetCode;
    r6, outI32 := DeltaDecoding(auxI32, outI32, decLen);
    RecoverableRoundTrip(original);
    rcs := [r1, r2, r3, r4, r5, r6];
    restored := outI32.cells[..decLen];
  }
}

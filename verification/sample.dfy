/**
  The sample series of the test program, worked through the model: its delta
  code, its zigzag code and the bytes of each code are the ones the test
  expects, and the chain gives the series back.
 */
module Sample {
  import opened Machine
  import opened Delta
  import opened Zigzag
  import opened Varint
  import opened VarintProperties
  import opened Pipeline

  /** The sample series of the test program, its delta code and its zigzag code. */
  const SAMPLE: seq<i32> := [-100, -10, 0, 20, 200, 101, 102, 103, 104, 105]
  const SAMPLE_DELTA: seq<i32> := [-100, 90, 10, 20, 180, -99, 1, 1, 1, 1]
  const SAMPLE_ZIGZAG: seq<u32> := [199, 180, 20, 40, 360, 197, 2, 2, 2, 2]
  /** The byte stream the test program expects for the sample's zigzag code. */
  const SAMPLE_VARINT: seq<u8> := [0xC7, 0x01, 0xB4, 0x01, 0x14, 0x28, 0xE8, 0x02, 0xC5, 0x01, 0x02, 0x02, 0x02, 0x02]

  lemma SampleDelta()
    ensures DeltaEncode(SAMPLE) == SAMPLE_DELTA
  {
  }

  lemma SampleZigzag()
    ensures ZigzagEncodeSeq(SAMPLE_DELTA) == SAMPLE_ZIGZAG
  {
  }

  /** The code of each sample value: its low seven bits, with 0x80 when a second byte of bits 7 .. 13 follows. */
  lemma SampleCodes()
    ensures EncodeValue(199) == [0xC7, 0x01] && EncodeValue(180) == [0xB4, 0x01]
    ensures EncodeValue(20) == [0x14] && EncodeValue(40) == [0x28]
    ensures EncodeValue(360) == [0xE8, 0x02] && EncodeValue(197) == [0xC5, 0x01]
    ensures EncodeValue(2) == [0x02]
  {
    EncodeSmallValues(199);
    EncodeSmallValues(180);
    EncodeSmallValues(20);
    EncodeSmallValues(40);
    EncodeSmallValues(360);
    EncodeSmallValues(197);
    EncodeSmallValues(2);
  }

  /** A pair of values whose codes are known is encoded as those two codes. */
  lemma PairCode(a: u32, b: u32, ca: seq<u8>, cb: seq<u8>)
    requires EncodeValue(a) == ca && EncodeValue(b) == cb
    ensures VarintEncode([a, b]) == ca + cb
  {
    assert [a, b][1..] == [b];
    assert [b][1..] == [];
  }

  // SamplePairCodes, SampleTailCode, ZigzagPieces and StreamPieces take their
  // literal sequences as parameters fixed by requires. That keeps the literals
  // out of SampleStream's own proof, where the verifier would otherwise try to
  // evaluate the encoder on them.

  /** The codes of each pair of sample values and of the final 2s. */
  lemma SamplePairCodes(a: seq<u32>, b: seq<u32>, c: seq<u32>, d: seq<u32>)
    requires a == [199, 180] && b == [20, 40] && c == [360, 197] && d == [2, 2, 2, 2]
    ensures VarintEncode(a) == [0xC7, 0x01] + [0xB4, 0x01] && VarintEncode(b) == [0x14] + [0x28]
    ensures VarintEncode(c) == [0xE8, 0x02] + [0xC5, 0x01] && VarintEncode(d) == [0x02, 0x02, 0x02, 0x02]
  {
    SampleTailCode(d);
    SampleCodes();
    PairCode(199, 180, [0xC7, 0x01], [0xB4, 0x01]);
    PairCode(20, 40, [0x14], [0x28]);
    PairCode(360, 197, [0xE8, 0x02], [0xC5, 0x01]);
  }

  /** The four final 2s are their own codes. */
  lemma SampleTailCode(d: seq<u32>)
    requires d == [2, 2, 2, 2]
    ensures VarintEncode(d) == [0x02, 0x02, 0x02, 0x02]
  {
    VarintEncodeBytes(d);
  }

  /** Encoding a sequence cut in four pieces gives the four encodings one after another. */
  lemma EncodeFourPieces(all: seq<u32>, a: seq<u32>, b: seq<u32>, c: seq<u32>, d: seq<u32>)
    requires all == a + b + c + d
    ensures VarintEncode(all) == VarintEncode(a) + VarintEncode(b) + VarintEncode(c) + VarintEncode(d)
  {
    VarintEncodeAppend(a, b);
    VarintEncodeAppend(a + b, c);
    VarintEncodeAppend(a + b + c, d);
  }

  /** The sample's zigzag code, cut into pairs of values and the four final 2s. */
  lemma ZigzagPieces(a: seq<u32>, b: seq<u32>, c: seq<u32>, d: seq<u32>)
    requires a == [199, 180] && b == [20, 40] && c == [360, 197] && d == [2, 2, 2, 2]
    ensures SAMPLE_ZIGZAG == a + b + c + d
  {
  }

  /** The expected stream, cut at the pairs of sample values. */
  lemma StreamPieces(a: seq<u8>, b: seq<u8>, c: seq<u8>, d: seq<u8>)
    requires a == [0xC7, 0x01] + [0xB4, 0x01] && b == [0x14] + [0x28]
    requires c == [0xE8, 0x02] + [0xC5, 0x01] && d == [0x02, 0x02, 0x02, 0x02]
    ensures a + b + c + d == SAMPLE_VARINT
  {
  }

  /** The whole byte stream of the sample's zigzag code is the one the test program lists. */
  lemma SampleStream()
    ensures VarintEncode(SAMPLE_ZIGZAG) == SAMPLE_VARINT
  {
    var a: seq<u32>, b: seq<u32>, c: seq<u32>, d: seq<u32> := [199, 180], [20, 40], [360, 197], [2, 2, 2, 2];
    ZigzagPieces(a, b, c, d);
    EncodeFourPieces(SAMPLE_ZIGZAG, a, b, c, d);
    SamplePairCodes(a, b, c, d);
    StreamPieces(VarintEncode(a), VarintEncode(b), VarintEncode(c), VarintEncode(d));
  }

  /** The byte stream of the sample's zigzag code is fourteen bytes long: more than its ten values. */
  lemma SampleStreamLength()
    ensures |VarintEncode(SAMPLE_ZIGZAG)| == 14
  {
    SampleStream();
  }

  /** The whole chain on the sample series, as the full round trip of the test program expects. */
  lemma SampleSeries()
    ensures Decompress(Compress(SAMPLE)) == SAMPLE
  {
    assert SmallSteps(SAMPLE) by {
      SampleDelta();
    }
    SmallStepsRecoverable(SAMPLE);
  }
}

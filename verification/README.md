# delta_compression core, modelled in Dafny

The C library `delta_compression` compresses series of 32-bit signed integers in
three stages:

- **Delta coding.** The first value is kept as an anchor and each later value is
  replaced by its int32 difference from the one before.
- **Zigzag mapping.** Signed values become unsigned codes, so that values of
  small magnitude get small codes whatever their sign.
- **Variable-length coding.** Each uint32 code is written as 7-bit groups,
  least significant first, with the continuation bit 0x80 on every byte but
  the last.

Decompression runs the three inverse transforms in reverse order. Every
transform returns a `RetCode`.

This project models the six transforms of `src/compressor.c`, the masks and
the `sample_t` union they use, and the `RetCode` enum of `inc/compressor.h`:

- `Machine`, `Arith` and `Bits` hold the machine arithmetic and C's bitwise
  operators:
  - int32/uint32 wrap-around is written out as reduction modulo 2^32;
  - `&` and `|` are defined bit by bit;
  - `aux.bytes[j]` is bits 8j .. 8j+7 of `aux.integer`.
- `CompressorTypes` holds `RetCode` and caller buffers that may be NULL. A
  transform takes the current contents of its output buffer and returns the
  new contents.
- `Delta` and `Zigzag` model the two element-wise coders:
  - a pure function per element or sequence;
  - the C loop as a method, with its NULL and length checks in the order the
    code makes them;
  - the round-trip lemmas.
- `Varint` has the encoder and decoder as the C code runs them, on the union
  bytes and the shift accumulator. `VarintProperties` relates them through a
  reference definition:
  - `EncodeValue` gives the bytes of one value;
  - `DecodeFrom` gives the values ended by each terminator byte.
- `Pipeline` chains the six calls as the full round-trip test of the
  repository does. `Sample` works the test's sample series through the model.
- `Corrected` holds the corrected zigzag decoder and variable-length encoder,
  with the round trips the interface promises proved for them.

The interface is meant to round-trip every series exactly. Three defects
prevent this:

- the most negative int32 does not survive the zigzag decoder;
- the variable-length encoder never writes more than four bytes per value;
- the encoder stops at the first all-zero 8-bit window.

The model follows the code as written. It proves exactly which series come
back: those whose every zigzag code is carried whole by its bytes
(`Pipeline.PipelineRoundTrip`). The defects are listed under "## Findings".

## Model

| member | source | states |
|---|---|---|
| CompressorTypes.RetCodeValues | inc/compressor.h:21-28 | the enumerators are -3, -2, -1, 0 in declaration order, and two statuses are equal exactly when their values are |
| Bits.ByteAt | src/compressor.c:23-27 | `aux.bytes[j]` of the union is the j-th little-endian byte of `aux.integer`, and a uint32 has no byte beyond the fourth |
| Bits.ReassembleLow | src/compressor.c:23-27 | the first k bytes of the union, read lowest first, carry exactly the low 8k bits of `aux.integer` |
| Bits.UnionBytes | src/compressor.c:23-27 | `bytes[0] + bytes[1]·2^8 + bytes[2]·2^16 + bytes[3]·2^24` is `integer`: the four bytes of the union make up the whole uint32_t |
| Bits.AndPayloadMask | src/compressor.c:21 | `b & PAYLOAD_MASK` keeps the low seven bits of b |
| Bits.AndContinueMask | src/compressor.c:194 | `(b & CONTINUE_BIT_MASK) == 0` holds exactly when the byte is below 128, i.e. it ends a value |
| Bits.OrContinueMask | src/compressor.c:166 | OR-ing CONTINUE_BIT_MASK into a payload byte adds 128 |
| Bits.OrDisjoint | src/compressor.c:191 | OR of a value below 2^k with a multiple of 2^k is their sum, so the decoder's OR-assignment adds each payload at its shift |
| Delta.DeltaEncode | src/compressor.c:43-48 | the delta code has one value per input value and keeps the first value as its anchor |
| Delta.DeltaDecode | src/compressor.c:67-72 | decoding gives one value per code and starts from the anchor unchanged |
| Delta.DeltaDecodePrefixSum | src/compressor.c:67-72 | each decoded value is the exact sum of the codes up to its position, reduced into int32 |
| Delta.DeltaEncodeTelescopes | src/compressor.c:43-48 | the exact sum of the first i+1 delta codes reduces to the i-th input value: the differences telescope even when they wrap |
| Delta.DeltaDecodeEncode | src/compressor.c:29-75 | decoding undoes encoding for every int32 series, overflowing differences included |
| Delta.DeltaEncodeDecode | src/compressor.c:29-75 | encoding undoes decoding: every int32 series is the delta code of exactly one series |
| Delta.DeltaDifferenceOfSums | src/compressor.c:69-72 | neighbouring decoded values differ by the code between them, modulo 2^32 |
| Delta.DeltaDecodeStep | src/compressor.c:71 | each decoded value is the previous decoded value plus the code at its position, wrapped to int32, as the loop computes it |
| Delta.DeltaEncoding | src/compressor.c:29-51 | NULL buffers give ERROR_NULL_POINTER, then lengths below 2 give ERROR_INVALID_LENGTH, neither writing anything; otherwise SUCCESS with out[0..len) the delta code of in[0..len) and the rest of out untouched |
| Delta.NullOutAnyInput | src/compressor.c:32-35 | a NULL out gives ERROR_NULL_POINTER and writes nothing, even beside an in array shorter than the length claimed |
| Delta.ShortLengthAnyBuffers | src/compressor.c:37-40 | a length below two gives ERROR_INVALID_LENGTH and writes nothing, even when the arrays are shorter than the length claimed |
| Delta.DeltaDecoding | src/compressor.c:53-75 | the same checks in the same order; on SUCCESS out[0..len) is the running int32 sum of in[0..len) and the rest of out is untouched |
| Zigzag.PositiveCode | src/compressor.c:101 | `in << 1` on a positive int32, converted to uint32_t, is exactly 2n |
| Zigzag.NegativeCode | src/compressor.c:105 | `((~in + 1) << 1) - 1` on a negative int32, wrapping included, converted to uint32_t, is exactly -2n - 1 |
| Zigzag.ZigzagEncodeValue | src/compressor.c:93-106 | 0 maps to 0, positive n to 2n, negative n to -2n - 1 |
| Zigzag.ZigzagDecodeValue | src/compressor.c:129-142 | even codes map to v/2, odd codes below 0xFFFFFFFF to -((v+1)/2), and 0xFFFFFFFF to 0 because `in + 1` wraps |
| Zigzag.ZigzagEncodeSeq | src/compressor.c:91-108 | one code per value, and a code is odd exactly when its value is negative |
| Zigzag.ZigzagDecodeSeq | src/compressor.c:127-144 | one value per code, and no code decodes to INT32_MIN |
| Zigzag.ZigzagDecodeEncode | src/compressor.c:91-143 | decoding undoes encoding exactly for the int32 values other than INT32_MIN |
| Zigzag.ZigzagEncodeDecode | src/compressor.c:91-143 | encoding undoes decoding exactly for the codes other than 0xFFFFFFFF |
| Zigzag.ZigzagIntMinLost | src/compressor.c:141 | INT32_MIN is encoded as 0xFFFFFFFF, which decodes to 0 |
| Zigzag.ZigzagEncodeBijective | inc/compressor.h:52-60 | the encoder is one-to-one and every uint32 is the code of some int32 |
| Zigzag.ZigzagOrdering | inc/compressor.h:55-58 | a smaller magnitude gives a smaller code whatever the signs, and of two values of equal magnitude the negative one gets the code just below the positive one |
| Zigzag.ZigzagDocumentedTable | inc/compressor.h:60 | 0, -1, 1, -2, 2, -3, 3 are encoded as 0 .. 6, as the documentation's example says |
| Zigzag.ZigzagBelow14Bits | src/compressor.c:93-106 | a code is below 2^14 exactly when the value lies in -8192 .. 8191 |
| Zigzag.ZigzagSeqRoundTrip | src/compressor.c:91-143 | a series without INT32_MIN comes back whole through encoding and decoding |
| Zigzag.ZigzagEncoding | src/compressor.c:77-111 | NULL in or out gives ERROR_NULL_POINTER, then len 0 gives ERROR_INVALID_LENGTH, neither writing anything; otherwise SUCCESS with out[0..len) the codes of in[0..len) and the rest of out untouched |
| Zigzag.ZigzagDecoding | src/compressor.c:113-147 | only out is checked for NULL, then len 0 gives ERROR_INVALID_LENGTH; otherwise SUCCESS with out[0..len) the decoded values of in[0..len) and the rest of out untouched |
| Zigzag.NullOutUnreadInput | src/compressor.c:116-119 | zigzag_decoding rejects a NULL out with ERROR_NULL_POINTER before it reads in, whatever in holds |
| Varint.VarintEncode | src/compressor.c:154-176 | the codes of n values, one after another, take between n and 4n bytes |
| Varint.ByteCount | src/compressor.c:162-175 | a value takes one to four bytes: group 0, then one more for each leading non-zero window among windows 1 .. 3, stopping at the first zero window |
| Varint.EncodeValue | src/compressor.c:156-175 | a value's code has one to four bytes, group 0 in its first byte, the continuation bit on every byte but the last, and a last byte below 128 |
| Varint.EncodeTerminators | src/compressor.c:154-176 | the encoding of n values holds exactly n bytes without the continuation bit |
| Varint.DecodeFrom | src/compressor.c:189-203 | the reference decoder, reading on after a partial group, emits at most one value per byte |
| Varint.VarintDecode | src/compressor.c:189-203 | decoding a byte stream from scratch gives at most one value per byte |
| Varint.GroupsFit | src/compressor.c:189-192 | no group of the stream, the pending one included, exceeds four bytes: a non-empty stream can follow at most three pending bytes, and without a terminator the pending and new bytes number at most four |
| Varint.ShiftedByte | src/compressor.c:156-168 | after j shifts of `aux.integer`, `aux.bytes[j]` is the 8-bit window of bits 7j .. 7j+7 of the input value |
| Varint.ShiftAgain | src/compressor.c:168 | one more `aux.integer <<= 1` keeps aux equal to the input shifted j+1 places, modulo 2^32 |
| Varint.EmitGroup | src/compressor.c:164-169 | a pass of the inner loop on a non-zero window turns the j-byte code of the value into its (j+1)-byte code and writes nothing else |
| Varint.EmitValue | src/compressor.c:156-175 | one pass of the outer loop writes the code of the value at out_index, advances out_index by its length and writes nothing else |
| Varint.VaruintEncoding | src/compressor.c:149-181 | always SUCCESS; out begins with the codes of in[0..in_len) one after another, *out_len is their total length (in_len .. 4 in_len), and the rest of out is untouched |
| Varint.Accumulate | src/compressor.c:191 | OR-ing the payload `(in[i] & PAYLOAD_MASK) << bit_shifting` into decoded_value extends the value of the current group by the new byte's payload |
| Varint.AccumulateStep | src/compressor.c:191-192 | the int shift cannot overflow while groups stay within four bytes, the payload lands on clear bits, and the group value stays below 2^28 |
| Varint.DecodeByte | src/compressor.c:189-201 | one pass of the loop keeps the stored values followed by the reference decoding of the unread bytes equal to the reference decoding of the whole input, and stores one value exactly at a terminator |
| Varint.VaruintDecoding | src/compressor.c:183-206 | always SUCCESS; *out_len is the number of terminator bytes, out begins with the values the reference decoder gives, and the rest of out is untouched |
| VarintProperties.DecodeLength | src/compressor.c:194-197 | the decoder yields exactly one value per terminator byte |
| VarintProperties.DecodeDropsTail | src/compressor.c:189-203 | continuation bytes after the last terminator are dropped without a trace |
| VarintProperties.DecodeCode | src/compressor.c:189-200 | a code followed by more bytes decodes to the value of its group, then whatever the rest decodes to |
| VarintProperties.GroupValueCodeOf | src/compressor.c:158-169 | the first m bytes of a code of v carry exactly the low 7m bits of v |
| VarintProperties.Kept | src/compressor.c:162-175 | what a value's code carries is at most the value and below 2^28 |
| VarintProperties.DecodeValue | src/compressor.c:149-206 | the code of v, whatever follows it, decodes to v without the bits its code does not carry |
| VarintProperties.VarintRoundTrip | src/compressor.c:149-206 | decoding an encoding gives back, position by position, the bits each code carried |
| VarintProperties.VarintRoundTripSmall | src/compressor.c:149-206 | a sequence of values below 2^14 comes back exactly |
| VarintProperties.EncodeSmallValues | src/compressor.c:156-175 | a value below 128 is its own one-byte code; below 2^14 it is the low group with 0x80, then bits 7 .. 13 |
| VarintProperties.ZeroWindowStopsEarly | src/compressor.c:164-174 | 0x8000 is written as the single byte 0 and decodes to 0 |
| VarintProperties.HighBitsDropped | src/compressor.c:162 | 0xFFFFFFFF is written as FF FF FF 7F and decodes to 0x0FFFFFFF |
| VarintProperties.FiveByteGroup | src/compressor.c:189-192 | `80 80 80 80 07` decodes to 0x70000000, since `7 << 28` still fits an int, yet it has a five-byte group and so falls outside the decoder's four-byte bound |
| VarintProperties.VarintEncodeAppend | src/compressor.c:154-176 | the encoding of a concatenation is the concatenation of the encodings |
| VarintProperties.EncodeFits | src/compressor.c:162 | the encoder never writes a group of more than four bytes, so its output keeps the decoder's shifts at or below 21 |
| VarintProperties.DecodeBelow28Bits | src/compressor.c:191-192 | with groups of at most four bytes no decoded value reaches bit 28 |
| Pipeline.PipelineRoundTrip | test/main_test.c:146-158 | the chain gives a series back exactly when every zigzag code of its delta code is carried whole by its bytes |
| Pipeline.SmallStepsRecoverable | test/main_test.c:146-158 | series whose anchor and wrapped differences lie in -8192 .. 8191 come back exactly |
| Pipeline.FullEncodeDecode | test/main_test.c:146-158 | the six calls of the full round-trip test, on buffers of n, n, 4n and n elements, return SUCCESS each, in call order, and give back a recoverable series |
| Sample.SampleDelta | test/main_test.c:13-14 | the delta code of the sample series is the one the test expects |
| Sample.SampleZigzag | test/main_test.c:14-16 | the zigzag code of the sample's delta code is the one the test expects |
| Sample.SampleCodes | test/main_test.c:16-18 | each sample code is written as the bytes the test's varint vector lists |
| Sample.SampleStream | test/main_test.c:16-18 | the whole byte stream of the sample's zigzag code is the fourteen bytes the test's varint vector lists |
| Sample.SampleStreamLength | test/main_test.c:17-35 | the sample's byte stream is 14 bytes long |
| Sample.SampleSeries | test/main_test.c:146-158 | the sample series comes back whole through the chain |
| Corrected.CorrectZigzagDecodeValue | src/compressor.c:135-142 | the corrected decoder's result encodes back to its input, for every code |
| Corrected.CorrectZigzagRoundTrip | inc/compressor.h:72-86 | every int32, INT32_MIN included, comes back through encoding and corrected decoding |
| Corrected.CorrectZigzagAgrees | src/compressor.c:135-142 | the correction changes the decoded value of 0xFFFFFFFF and of no other code |
| Corrected.LebLength | src/compressor.c:162-175 | the corrected encoder uses one to five groups: exactly as many as v needs |
| Corrected.LebEncodeValue | src/compressor.c:156-175 | a corrected code has one to five bytes, each but the last with the continuation bit |
| Corrected.LebRoundTrip | src/compressor.c:149-206 | the decoder gives back every uint32 sequence the corrected encoder writes |
| Corrected.LebShortest | src/compressor.c:162-175 | a corrected code of more than one byte never ends in a zero byte, so no code is longer than it needs to be |
| Corrected.LebAgreesBelow14Bits | src/compressor.c:156-175 | below 2^14 the corrected encoder writes the same bytes as the original |
| Corrected.CorrectPipelineRoundTrip | test/main_test.c:146-158 | with both corrections the chain gives back every int32 series, whatever its steps |

## Left out

- `src/read_csv.c`, file I/O and the test framework are not part of this model.
- Signed overflow is undefined behaviour in C. It is modelled as two's-complement wrap-around:
  - the difference `in[i] - in[i - 1]` and the sum `in[i] + out[i - 1]` of the delta coder;
  - `in << 1` of the zigzag encoder, which overflows for in >= 2^30;
  - `((~in + 1) << 1) - 1` of the zigzag encoder: `~in + 1` overflows at INT32_MIN, the shift overflows for in <= -2^30 and is of a negative value when in is INT32_MIN, and the trailing `- 1` overflows at in == -2^30. Each of the three is wrapped in turn (`Zigzag.NegativeCode`).
- The conversion of out-of-range uint32 values to int32_t is implementation-defined. It is modelled as two's complement.
- The `sample_t` union is read as little-endian: `aux.bytes[j]` is bits 8j .. 8j+7.
- Loop counters are `size_t` and `uint8_t` in C. They are modelled as unbounded naturals, since none can reach its width on the buffers modelled.
- Buffers are sequences of values. A NULL pointer is `Null`, and an array's length is its capacity. An access past the end of a caller's array cannot be expressed. The header defines len as the length of the arrays, so the buffers must hold len elements only when the call gets past both its NULL check and its length check. On the NULL and length error paths any buffer is accepted (`Delta.NullOutAnyInput`, `Delta.ShortLengthAnyBuffers`, `Zigzag.NullOutUnreadInput`).
- Varint.VaruintEncoding: the C function checks neither pointer. The model requires in and out to be non-NULL whenever in_len > 0, and out to hold four bytes per value.
- Varint.VaruintDecoding: requires every group in the input to have at most four bytes. In C, a fifth byte whose payload is 8 or more overflows int at `<< 28`, and a sixth byte shifts by 35, past int's width; both are undefined. The model says nothing about such inputs.
- Varint.VaruintDecoding: a five-byte group whose last payload is below 8 is well defined in C (`80 80 80 80 07` decodes to 0x70000000), but the model's requires excludes it along with the undefined ones (`VarintProperties.FiveByteGroup`).
- Varint.VaruintDecoding: also requires in to be non-NULL whenever in_len > 0, and out to hold one element per terminator byte of the input. A NULL out has room for none, so it is allowed only when the input has no terminator. The C function checks neither pointer.
- Zigzag.ZigzagDecoding: the C function reads `in` without a NULL check. The model requires in to be non-NULL whenever out is non-NULL and len >= 1.
- The C functions take separate in and out arrays, and the model treats them as distinct. Called in place, `delta_encoding` would read an `in[i - 1]` it has already overwritten; the model says nothing about aliased buffers.
- `varuint_encoding` and `varuint_decoding` store through `out_len` without a NULL check. The model returns the length as a value, so a NULL `out_len` is not expressible.
- Pipeline.FullEncodeDecode: requires a recoverable series of at least two values. Other series reach the transforms in the same way, but do not come back; `Pipeline.PipelineRoundTrip` says which ones.
- The model contains no C decoder for five-byte groups. The corrected encoder's output is decoded by the reference decoder `Varint.DecodeFrom`, which accumulates into a uint32_t.

## Findings

| source | as written | input that shows it | evidently intended | confidence | as-written member | corrected member |
|---|---|---|---|---|---|---|
| src/compressor.c:141 | odd codes decode as `-((in + 1) >> 1)` in uint32_t arithmetic, where `in + 1` wraps to 0 for 0xFFFFFFFF | INT32_MIN is encoded as 0xFFFFFFFF, which decodes to 0 | every int32 survives the round trip, with 0xFFFFFFFF decoding to INT32_MIN | not executed | Zigzag.ZigzagIntMinLost | Corrected.CorrectZigzagRoundTrip |
| src/compressor.c:164-174 | the inner loop stops at the first all-zero 8-bit window, even when higher bits are set | 32768 (0x8000) is written as the single byte 0x00 and decodes to 0 | groups are written until the rest of the value is zero | not executed | VarintProperties.ZeroWindowStopsEarly | Corrected.LebRoundTrip |
| src/compressor.c:162 | `j < 4` writes at most four groups, so bits 28 .. 31 are never written | 0xFFFFFFFF is written as FF FF FF 7F and decodes to 0x0FFFFFFF | a fifth byte carries bits 28 .. 31 | not executed | VarintProperties.HighBitsDropped | Corrected.LebRoundTrip |
| test/main_test.c:35 | `aux_u8` holds DATA_LEN = 10 bytes, and `test_full_enc_dec` writes the whole varint stream of the sample into it | the sample's stream is 14 bytes, so varuint_encoding writes 4 bytes past the array | a byte buffer with room for the encoder's worst case, four bytes per value | not executed | Sample.SampleStreamLength | Pipeline.FullEncodeDecode |

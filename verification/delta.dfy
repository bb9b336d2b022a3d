/**
  The delta coder: the first value is kept as an anchor, each later value is
  replaced by its difference from the one before, and decoding is the running
  sum. Both directions use int32 arithmetic, so differences and sums wrap
  around modulo 2^32, and the two directions stay exact inverses.
 */
module Delta {
  import opened Machine
  import opened CompressorTypes

  /** The exact (unbounded) sum of a sequence. */
  function Sum(s: seq<int>): int
    decreases |s|
  {
    if |s| == 0 then 0 else Sum(s[..|s| - 1]) + s[|s| - 1]
  }

  /** Anchor followed by the int32 differences of neighbours. */
  function DeltaEncode(xs: seq<i32>): (ds: seq<i32>)
    ensures |ds| == |xs|
    ensures |xs| > 0 ==> ds[0] == xs[0]
  {
    seq(|xs|, i requires 0 <= i < |xs| => if i == 0 then xs[0] else WrapI32(xs[i] as int - xs[i - 1]))
  }

  /** Running int32 sum: each value is the code at its position added to the value before it. */
  function DeltaDecode(ds: seq<i32>): (xs: seq<i32>)
    ensures |xs| == |ds|
    ensures |ds| > 0 ==> xs[0] == ds[0]
    decreases |ds|
  {
    if |ds| == 0 then []
    else
      var prev := DeltaDecode(ds[..|ds| - 1]);
      prev + [if |prev| == 0 then ds[0] else WrapI32(ds[|ds| - 1] as int + prev[|prev| - 1])]
  }

  /**
    An independent reading of the running sum: each decoded value is the exact
    sum of the codes up to and including its position, reduced into int32.
   */
  lemma {:induction false} DeltaDecodePrefixSum(ds: seq<i32>, i: nat)
    requires i < |ds|
    ensures DeltaDecode(ds)[i] == WrapI32(Sum(ds[..i + 1]))
    decreases |ds|
  {
    var n := |ds| - 1;
    var prev := DeltaDecode(ds[..n]);
    assert DeltaDecode(ds) == prev + [if n == 0 then ds[0] else WrapI32(ds[n] as int + prev[n - 1])];
    SumSnoc(ds, i);
    if i < n {
      DeltaDecodePrefixSum(ds[..n], i);
      assert ds[..n][..i + 1] == ds[..i + 1];
    } else if n == 0 {
      assert ds[..0] == [];
    } else {
      DeltaDecodePrefixSum(ds[..n], n - 1);
      assert ds[..n][..n] == ds[..n];
      WrapI32AddLeft(Sum(ds[..n]), ds[n]);
    }
  }

  lemma {:induction false} SumSnoc(s: seq<int>, i: nat)
    requires i < |s|
    ensures Sum(s[..i + 1]) == Sum(s[..i]) + s[i]
  {
    assert s[..i + 1][..i] == s[..i];
  }

  /** The exact sum of a prefix of the delta code is congruent to the last value of the prefix. */
  lemma {:induction false} DeltaEncodeTelescopes(xs: seq<i32>, i: nat)
    requires i < |xs|
    ensures WrapI32(Sum(DeltaEncode(xs)[..i + 1])) == xs[i]
  {
    var ds := DeltaEncode(xs);
    SumSnoc(ds, i);
    if i == 0 {
      assert ds[..0] == [];
    } else {
      DeltaEncodeTelescopes(xs, i - 1);
      TelescopeStep(Sum(ds[..i]), xs[i - 1], xs[i]);
    }
  }

  /** Adding the wrapped difference x - prev to a sum that wraps to prev gives a sum that wraps to x. */
  lemma TelescopeStep(s: int, prev: i32, x: i32)
    requires WrapI32(s) == prev
    ensures WrapI32(s + WrapI32(x as int - prev)) == x
  {
    var d := x as int - prev;
    assert WrapI32(s + WrapI32(d)) == WrapI32(prev + WrapI32(d)) by {
      WrapI32AddLeft(s, WrapI32(d));
    }
    assert WrapI32(WrapI32(d) + prev) == WrapI32(x as int) by {
      WrapI32AddLeft(d, prev);
    }
  }

  /** Decoding undoes encoding for every int32 sequence, overflow included. */
  lemma {:induction false} DeltaDecodeEncode(xs: seq<i32>)
    ensures DeltaDecode(DeltaEncode(xs)) == xs
  {
    var r := DeltaDecode(DeltaEncode(xs));
    forall i | 0 <= i < |xs|
      ensures r[i] == xs[i]
    {
      DeltaDecodePrefixSum(DeltaEncode(xs), i);
      DeltaEncodeTelescopes(xs, i);
    }
  }

  /** Encoding undoes decoding: every int32 sequence is the delta code of exactly one sequence. */
  lemma {:induction false} DeltaEncodeDecode(ds: seq<i32>)
    ensures DeltaEncode(DeltaDecode(ds)) == ds
  {
    forall i | 0 <= i < |ds|
      ensures DeltaEncode(DeltaDecode(ds))[i] == ds[i]
    {
      DeltaEncodeDecodeAt(ds, i);
    }
  }

  lemma {:induction false} DeltaEncodeDecodeAt(ds: seq<i32>, i: nat)
    requires i < |ds|
    ensures DeltaEncode(DeltaDecode(ds))[i] == ds[i]
  {
    if i > 0 {
      DeltaEncodeAt(DeltaDecode(ds), i);
      DeltaDifferenceOfSums(ds, i);
    } else {
      DeltaDecodeFirst(ds);
    }
  }

  lemma DeltaEncodeAt(xs: seq<i32>, i: nat)
    requires 1 <= i < |xs|
    ensures DeltaEncode(xs)[i] == WrapI32(xs[i] as int - xs[i - 1])
  {
  }

  lemma {:induction false} DeltaDecodeFirst(ds: seq<i32>)
    requires |ds| > 0
    ensures DeltaDecode(ds)[0] == ds[0]
  {
    DeltaDecodePrefixSum(ds, 0);
    SumSnoc(ds, 0);
    assert ds[..0] == [];
  }

  /** Neighbouring running sums differ by the code between them, modulo 2^32. */
  lemma {:induction false} DeltaDifferenceOfSums(ds: seq<i32>, i: nat)
    requires 1 <= i < |ds|
    ensures WrapI32(DeltaDecode(ds)[i] as int - DeltaDecode(ds)[i - 1]) == ds[i]
  {
    DeltaDecodePrefixSum(ds, i);
    DeltaDecodePrefixSum(ds, i - 1);
    SumSnoc(ds, i);
    WrapI32Difference(Sum(ds[..i]), ds[i]);
  }

  /** The value of the n-th difference in terms of the decoded values (the loop of delta_decoding). */
  lemma {:induction false} DeltaDecodeStep(ds: seq<i32>, i: nat)
    requires 1 <= i < |ds|
    ensures DeltaDecode(ds)[i] == WrapI32(ds[i] as int + DeltaDecode(ds)[i - 1])
  {
    DeltaDecodePrefixSum(ds, i);
    DeltaDecodePrefixSum(ds, i - 1);
    SumSnoc(ds, i);
    WrapI32AddLeft(Sum(ds[..i]), ds[i]);
  }

  /**
    delta_encoding: NULL buffers are rejected first, then lengths below two;
    neither failure writes anything. On success exactly out[0..len) is written
    with the delta code of in[0..len).
   */
  method DeltaEncoding(inp: Buffer<i32>, out: Buffer<i32>, len: nat)
    returns (rc: RetCode, written: Buffer<i32>)
    requires inp.Buf? && out.Buf? && len >= 2 ==> Spans(inp, len) && Spans(out, len)
    ensures rc == ErrorNullPointer <==> inp.Null? || out.Null?
    ensures rc == ErrorInvalidLength <==> inp.Buf? && out.Buf? && len < 2
    ensures rc == Success <==> inp.Buf? && out.Buf? && len >= 2
    ensures rc != Success ==> written == out
    ensures rc == Success ==>
      written.Buf? && written.cells == DeltaEncode(inp.cells[..len]) + out.cells[len..]
  {
    if inp.Null? || out.Null? {
      return ErrorNullPointer, out;
    }
    if len < 2 {
      return ErrorInvalidLength, out;
    }
    ghost var want := DeltaEncode(inp.cells[..len]);
    var src := inp.cells;
    var dst := out.cells;
    dst := dst[0 := src[0]];
    var i := 1;
    while i < len
      invariant 1 <= i <= len
      invariant |dst| == |out.cells|
      invariant forall k :: 0 <= k < i ==> dst[k] == want[k]
      invariant dst[len..] == out.cells[len..]
    {
      dst := dst[i := WrapI32(src[i] as int - src[i - 1])];
      i := i + 1;
    }
    assert dst == want + out.cells[len..];
    return Success, Buf(dst);
  }

  /**
    The length check comes before any element is read, so it holds whatever
    the buffers hold: a length of 1 with two empty arrays is rejected.
   */
  method ShortLengthAnyBuffers() returns (rc: RetCode, written: Buffer<i32>)
    ensures rc == ErrorInvalidLength && written == Buf([])
  {
    rc, written := DeltaEncoding(Buf([]), Buf([]), 1);
  }

  /**
    The NULL check comes first and reads nothing, so it holds whatever the
    other buffer holds: a NULL out beside a one-element array claimed to hold
    five is rejected.
   */
  method NullOutAnyInput() returns (rc: RetCode, written: Buffer<i32>)
    ensures rc == ErrorNullPointer && written == Null
  {
    rc, written := DeltaEncoding(Buf([7]), Null, 5);
  }

  /**
    delta_decoding: the same checks as delta_encoding in the same order; on
    success exactly out[0..len) is written with the running sum of in[0..len).
   */
  method DeltaDecoding(inp: Buffer<i32>, out: Buffer<i32>, len: nat)
    returns (rc: RetCode, written: Buffer<i32>)
    requires inp.Buf? && out.Buf? && len >= 2 ==> Spans(inp, len) && Spans(out, len)
    ensures rc == ErrorNullPointer <==> inp.Null? || out.Null?
    ensures rc == ErrorInvalidLength <==> inp.Buf? && out.Buf? && len < 2
    ensures rc == Success <==> inp.Buf? && out.Buf? && len >= 2
    ensures rc != Success ==> written == out
    ensures rc == Success ==>
      written.Buf? && written.cells == DeltaDecode(inp.cells[..len]) + out.cells[len..]
  {
    if inp.Null? || out.Null? {
      return ErrorNullPointer, out;
    }
    if len < 2 {
      return ErrorInvalidLength, out;
    }
    ghost var want := DeltaDecode(inp.cells[..len]);
    var src := inp.cells;
    var dst := out.cells;
    dst := dst[0 := src[0]];
    DeltaDecodeFirst(src[..len]);
    var i := 1;
    while i < len
      invariant 1 <= i <= len
      invariant |dst| == |out.cells|
      invariant forall k :: 0 <= k < i ==> dst[k] == want[k]
      invariant dst[len..] == out.cells[len..]
    {
      DeltaDecodeStep(src[..len], i);
      dst := dst[i := WrapI32(src[i] as int + dst[i - 1])];
      i := i + 1;
    }
    assert dst == want + out.cells[len..];
    return Success, Buf(dst);
  }
}

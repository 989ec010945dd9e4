/** The sparse bitset codec of common/bitutil/compress.go.

    A block of bytes is stored as the encoding of its non-zero bitset followed by its
    non-zero bytes.  The functions say what each level computes, the methods fill the
    buffers in place and are proved to compute the functions, and the lemmas show that
    encoder and decoder undo each other in both directions. */
module BitsetCodec {
  type byte = bv8

  datatype Error = MissingData | UnreferencedData | ExceededTarget | ZeroContent
  datatype Result<+T> = Ok(value: T) | Err(error: Error)
  datatype Decoded = Decoded(out: seq<byte>, size: nat)

  // ---------- bits ----------

  function BitMask(k: nat): byte
    requires k < 8
  {
    (1 as bv8) << (7 - k)
  }

  function WithBit(b: byte, k: nat): byte
    requires k < 8
  {
    b | BitMask(k)
  }

  predicate BitSet(bits: seq<byte>, i: nat)
    requires i < 8 * |bits|
  {
    bits[i / 8] & BitMask(i % 8) != 0
  }

  function Zeros(n: nat): (z: seq<byte>)
    ensures |z| == n && forall i :: 0 <= i < n ==> z[i] == 0
  {
    seq(n, i => 0)
  }

  predicate AllZero(data: seq<byte>) {
    forall i :: 0 <= i < |data| ==> data[i] == 0
  }

  lemma MaskTable()
    ensures BitMask(0) == 0x80 && BitMask(1) == 0x40 && BitMask(2) == 0x20 && BitMask(3) == 0x10
    ensures BitMask(4) == 0x08 && BitMask(5) == 0x04 && BitMask(6) == 0x02 && BitMask(7) == 0x01
  {
  }

  /** Setting bit k leaves every other bit of the byte alone. */
  lemma OrSetsOneBit(a: byte, k: nat, m: nat)
    requires k < 8 && m < 8
    ensures (a | BitMask(k)) & BitMask(m) != 0 <==> k == m || a & BitMask(m) != 0
  {
    MaskTable();
  }

  lemma ByteExtensional(a: byte, b: byte)
    requires forall k :: 0 <= k < 8 ==> (a & BitMask(k) != 0 <==> b & BitMask(k) != 0)
    ensures a == b
  {
    MaskTable();
    assert a & BitMask(0) != 0 <==> b & BitMask(0) != 0;
    assert a & BitMask(1) != 0 <==> b & BitMask(1) != 0;
    assert a & BitMask(2) != 0 <==> b & BitMask(2) != 0;
    assert a & BitMask(3) != 0 <==> b & BitMask(3) != 0;
    assert a & BitMask(4) != 0 <==> b & BitMask(4) != 0;
    assert a & BitMask(5) != 0 <==> b & BitMask(5) != 0;
    assert a & BitMask(6) != 0 <==> b & BitMask(6) != 0;
    assert a & BitMask(7) != 0 <==> b & BitMask(7) != 0;
  }

  /** A bitset is determined by its bits. */
  lemma BitsExtensional(a: seq<byte>, b: seq<byte>)
    requires |a| == |b|
    requires forall i :: 0 <= i < 8 * |a| ==> (BitSet(a, i) <==> BitSet(b, i))
    ensures a == b
  {
    forall j | 0 <= j < |a|
      ensures a[j] == b[j]
    {
      forall k | 0 <= k < 8
        ensures a[j] & BitMask(k) != 0 <==> b[j] & BitMask(k) != 0
      {
        var i := 8 * j + k;
        assert i / 8 == j && i % 8 == k;
        assert BitSet(a, i) <==> BitSet(b, i);
      }
      ByteExtensional(a[j], b[j]);
    }
  }

  lemma ZeroBitset(bits: seq<byte>)
    ensures AllZero(bits) <==> forall i :: 0 <= i < 8 * |bits| ==> !BitSet(bits, i)
  {
    var z := Zeros(|bits|);
    assert forall i :: 0 <= i < 8 * |z| ==> !BitSet(z, i);
    if forall i :: 0 <= i < 8 * |bits| ==> !BitSet(bits, i) {
      BitsExtensional(bits, z);
    }
  }

  // ---------- encoder ----------

  /** The non-zero bitset once the first n bytes have been looked at. */
  function Mark(data: seq<byte>, n: nat): (bits: seq<byte>)
    requires n <= |data|
    ensures |bits| == (|data| + 7) / 8
  {
    if n == 0 then Zeros((|data| + 7) / 8)
    else
      var prev := Mark(data, n - 1);
      if data[n - 1] == 0 then prev
      else prev[(n - 1) / 8 := WithBit(prev[(n - 1) / 8], (n - 1) % 8)]
  }

  lemma MarkStep(prev: seq<byte>, p: nat)
    requires p < 8 * |prev|
    ensures var bits := prev[p / 8 := WithBit(prev[p / 8], p % 8)];
            forall i :: 0 <= i < 8 * |prev| ==> (BitSet(bits, i) <==> i == p || BitSet(prev, i))
  {
    var bits := prev[p / 8 := WithBit(prev[p / 8], p % 8)];
    forall i | 0 <= i < 8 * |prev|
      ensures BitSet(bits, i) <==> i == p || BitSet(prev, i)
    {
      if i / 8 == p / 8 {
        OrSetsOneBit(prev[p / 8], p % 8, i % 8);
      }
    }
  }

  lemma {:induction false} MarkBits(data: seq<byte>, n: nat)
    requires n <= |data|
    ensures forall i :: 0 <= i < 8 * |Mark(data, n)| ==> (BitSet(Mark(data, n), i) <==> i < n && data[i] != 0)
  {
    if n > 0 {
      MarkBits(data, n - 1);
      MarkStep(Mark(data, n - 1), n - 1);
    }
  }

  /** The non-zero bytes among the first n, in order. */
  function Gather(data: seq<byte>, n: nat): seq<byte>
    requires n <= |data|
  {
    if n == 0 then []
    else if data[n - 1] == 0 then Gather(data, n - 1)
    else Gather(data, n - 1) + [data[n - 1]]
  }

  /** What looking at one more byte adds to the gathered bytes and to their marks. */
  lemma GatherNext(data: seq<byte>, n: nat)
    requires n < |data|
    ensures Gather(data, n + 1) == if data[n] == 0 then Gather(data, n) else Gather(data, n) + [data[n]]
  {
  }

  lemma MarkNext(data: seq<byte>, n: nat)
    requires n < |data|
    ensures Mark(data, n + 1) == if data[n] == 0 then Mark(data, n)
              else Mark(data, n)[n / 8 := WithBit(Mark(data, n)[n / 8], n % 8)]
  {
  }

  lemma {:induction false} GatherEmpty(data: seq<byte>, n: nat)
    requires n <= |data|
    ensures Gather(data, n) == [] <==> forall i :: 0 <= i < n ==> data[i] == 0
  {
    if n > 0 { GatherEmpty(data, n - 1); }
  }

  function Encode(data: seq<byte>): seq<byte>
    decreases |data|
  {
    if |data| == 0 then []
    else if |data| == 1 then if data[0] == 0 then [] else data
    else if Gather(data, |data|) == [] then []
    else Encode(Mark(data, |data|)) + Gather(data, |data|)
  }

  function Compress(data: seq<byte>): seq<byte> {
    if |Encode(data)| < |data| then Encode(data) else data
  }

  // ---------- decoder ----------

  /** The bits of a bitset, most significant first. */
  function Bits(bits: seq<byte>): (flags: seq<bool>)
    ensures |flags| == 8 * |bits|
    ensures forall i :: 0 <= i < |flags| ==> flags[i] == BitSet(bits, i)
  {
    seq(8 * |bits|, i requires 0 <= i < 8 * |bits| => BitSet(bits, i))
  }

  /** The distribution loop from flag i on, with ptr bytes of input used and out filled so far. */
  function Scatter(flags: seq<bool>, data: seq<byte>, i: nat, ptr: nat, out: seq<byte>): Result<Decoded>
    decreases |flags| - i
  {
    if i >= |flags| then Ok(Decoded(out, ptr))
    else if !flags[i] then Scatter(flags, data, i + 1, ptr, out)
    else if ptr >= |data| then Err(MissingData)
    else if i >= |out| then Err(ExceededTarget)
    else if data[ptr] == 0 then Err(ZeroContent)
    else Scatter(flags, data, i + 1, ptr + 1, out[i := data[ptr]])
  }

  function DecodePartial(data: seq<byte>, target: nat): Result<Decoded>
    decreases target
  {
    if target == 0 then Ok(Decoded([], 0))
    else if |data| == 0 then Ok(Decoded(Zeros(target), 0))
    else if target == 1 then Ok(Decoded([data[0]], if data[0] != 0 then 1 else 0))
    else
      var bits := DecodePartial(data, (target + 7) / 8);
      if bits.Err? then bits
      else Scatter(Bits(bits.value.out), data, 0, bits.value.size, Zeros(target))
  }

  function Decode(data: seq<byte>, target: nat): Result<seq<byte>> {
    var r := DecodePartial(data, target);
    if r.Err? then Err(r.error)
    else if r.value.size != |data| then Err(UnreferencedData)
    else Ok(r.value.out)
  }

  function Decompress(data: seq<byte>, target: int): Result<seq<byte>> {
    if |data| > target then Err(ExceededTarget)
    else if |data| == target then Ok(data)
    else Decode(data, target)
  }

  lemma NextFlag(flags: seq<bool>, data: seq<byte>, i: nat, ptr: nat, out: seq<byte>)
    ensures Scatter(flags, data, i, ptr, out) ==
            if i >= |flags| then Ok(Decoded(out, ptr))
            else if !flags[i] then Scatter(flags, data, i + 1, ptr, out)
            else if ptr >= |data| then Err(MissingData)
            else if i >= |out| then Err(ExceededTarget)
            else if data[ptr] == 0 then Err(ZeroContent)
            else Scatter(flags, data, i + 1, ptr + 1, out[i := data[ptr]])
  {
  }

  lemma {:induction false} ScatterSize(flags: seq<bool>, data: seq<byte>, i: nat, ptr: nat, out: seq<byte>)
    requires i <= |flags| && ptr <= |data|
    ensures var r := Scatter(flags, data, i, ptr, out);
            r.Ok? ==> |r.value.out| == |out| && ptr <= r.value.size <= |data|
    decreases |flags| - i
  {
    if i == |flags| {
    } else if !flags[i] {
      ScatterSize(flags, data, i + 1, ptr, out);
    } else if ptr < |data| && i < |out| && data[ptr] != 0 {
      ScatterSize(flags, data, i + 1, ptr + 1, out[i := data[ptr]]);
    }
  }

  lemma {:induction false} DecodePartialSize(data: seq<byte>, target: nat, r: Decoded)
    requires DecodePartial(data, target) == Ok(r)
    ensures |r.out| == target && r.size <= |data|
    decreases target
  {
    hide DecodePartial, Scatter, Bits;
    OneLevel(data, target);
    if target >= 2 && |data| > 0 {
      var level := DecodePartial(data, (target + 7) / 8).value;
      DecodePartialSize(data, (target + 7) / 8, level);
      ScatterSize(Bits(level.out), data, 0, level.size, Zeros(target));
    }
  }

  // ---------- decoding undoes encoding ----------

  lemma {:induction false} GatherPrefix(data: seq<byte>, n: nat, m: nat)
    requires n <= m <= |data|
    ensures Gather(data, n) <= Gather(data, m)
    decreases m
  {
    if n < m {
      GatherPrefix(data, n, m - 1);
    }
  }

  /** The flags of d: position i is set exactly where d has a non-zero byte. */
  ghost predicate FlagsOf(flags: seq<bool>, d: seq<byte>) {
    |d| <= |flags| && forall i :: 0 <= i < |flags| ==> (flags[i] <==> i < |d| && d[i] != 0)
  }

  lemma MarkFlags(d: seq<byte>)
    ensures FlagsOf(Bits(Mark(d, |d|)), d)
  {
    MarkBits(d, |d|);
    var flags := Bits(Mark(d, |d|));
    forall i | 0 <= i < |flags|
      ensures flags[i] <==> i < |d| && d[i] != 0
    {
      assert flags[i] == BitSet(Mark(d, |d|), i);
    }
  }

  /** Scattering the gathered bytes of d back along its own flags restores d. */
  lemma {:induction false} ScatterRestores(flags: seq<bool>, d: seq<byte>, data: seq<byte>, start: nat, i: nat,
      out: seq<byte>)
    requires FlagsOf(flags, d) && i <= |flags|
    requires start + |Gather(d, |d|)| <= |data|
    requires data[start..start + |Gather(d, |d|)|] == Gather(d, |d|)
    requires |out| == |d| && forall j :: 0 <= j < |d| ==> out[j] == if j < i then d[j] else 0
    ensures var n := if i < |d| then i else |d|;
            |Gather(d, n)| <= |Gather(d, |d|)|
            && Scatter(flags, data, i, start + |Gather(d, n)|, out) == Ok(Decoded(d, start + |Gather(d, |d|)|))
    decreases |flags| - i
  {
    hide Gather, Mark, Scatter;
    var n := if i < |d| then i else |d|;
    NextFlag(flags, data, i, start + |Gather(d, n)|, out);
    if i == |flags| {
      assert out == d;
    } else if flags[i] {
      GatheredAt(d, data, start, i);
      ScatterRestores(flags, d, data, start, i + 1, out[i := d[i]]);
    } else {
      if i < |d| { GatherNext(d, i); }
      ScatterRestores(flags, d, data, start, i + 1, out);
    }
  }

  /** A non-zero byte is found where the gathered bytes before it end. */
  lemma GatheredAt(d: seq<byte>, data: seq<byte>, start: nat, i: nat)
    requires i < |d| && d[i] != 0 && start + |Gather(d, |d|)| <= |data|
    requires data[start..start + |Gather(d, |d|)|] == Gather(d, |d|)
    ensures |Gather(d, i + 1)| == |Gather(d, i)| + 1 <= |Gather(d, |d|)|
    ensures data[start + |Gather(d, i)|] == d[i]
  {
    hide Gather;
    GatherNext(d, i);
    GatherPrefix(d, i + 1, |d|);
    var g := Gather(d, |d|);
    assert data[start + |Gather(d, i)|] == data[start..start + |g|][|Gather(d, i)|] == d[i];
  }

  lemma MarkAllZero(d: seq<byte>)
    ensures AllZero(Mark(d, |d|)) <==> AllZero(d)
  {
    MarkBits(d, |d|);
    ZeroBitset(Mark(d, |d|));
  }

  /** What decoding does on one level. */
  lemma OneLevel(data: seq<byte>, target: nat)
    ensures DecodePartial(data, target) ==
            if target == 0 then Ok(Decoded([], 0))
            else if |data| == 0 then Ok(Decoded(Zeros(target), 0))
            else if target == 1 then Ok(Decoded([data[0]], if data[0] != 0 then 1 else 0))
            else
              var bits := DecodePartial(data, (target + 7) / 8);
              if bits.Err? then bits else Scatter(Bits(bits.value.out), data, 0, bits.value.size, Zeros(target))
  {
  }

  /** One level: once the bitset of d has been recovered from enc, the level above yields d. */
  lemma DecodeLevel(d: seq<byte>, enc: seq<byte>, rest: seq<byte>)
    requires |d| >= 2 && enc != []
    requires DecodePartial(enc + (Gather(d, |d|) + rest), |Mark(d, |d|)|) == Ok(Decoded(Mark(d, |d|), |enc|))
    ensures DecodePartial(enc + Gather(d, |d|) + rest, |d|) == Ok(Decoded(d, |enc + Gather(d, |d|)|))
  {
    Between(enc, Gather(d, |d|), rest);
    DecodeMarked(d, enc + Gather(d, |d|) + rest, |enc|);
  }

  lemma Between(a: seq<byte>, b: seq<byte>, c: seq<byte>)
    ensures a + b + c == a + (b + c) && (a + b + c)[|a|..|a| + |b|] == b
  {
  }

  lemma DecodeMarked(d: seq<byte>, data: seq<byte>, start: nat)
    requires |d| >= 2 && start + |Gather(d, |d|)| <= |data| && data != []
    requires data[start..start + |Gather(d, |d|)|] == Gather(d, |d|)
    requires DecodePartial(data, |Mark(d, |d|)|) == Ok(Decoded(Mark(d, |d|), start))
    ensures DecodePartial(data, |d|) == Ok(Decoded(d, start + |Gather(d, |d|)|))
  {
    assert Gather(d, 0) == [];
    hide DecodePartial, Scatter, Gather, Mark, Bits;
    MarkFlags(d);
    ScatterRestores(Bits(Mark(d, |d|)), d, data, start, 0, Zeros(|d|));
    OneLevel(data, |d|);
  }

  lemma EncodeSplits(d: seq<byte>)
    requires |d| >= 2 && !AllZero(d)
    ensures Encode(d) == Encode(Mark(d, |d|)) + Gather(d, |d|) && Encode(d) != []
  {
    GatherEmpty(d, |d|);
  }

  lemma DecodePartialEncodeOne(d: seq<byte>, rest: seq<byte>)
    requires |d| == 1 && !AllZero(d)
    ensures Encode(d) == d && DecodePartial(d + rest, 1) == Ok(Decoded(d, 1))
  {
    assert (d + rest)[0] == d[0] && d == [d[0]];
  }

  /** Non-zero data decodes from its encoding whatever bytes follow.  An all-zero block encodes
      to nothing, so this is the form that carries the recursion through the bitset levels. */
  lemma {:induction false} DecodePartialEncode(d: seq<byte>, rest: seq<byte>)
    requires !AllZero(d)
    ensures Encode(d) != []
    ensures DecodePartial(Encode(d) + rest, |d|) == Ok(Decoded(d, |Encode(d)|))
    decreases |d|
  {
    if |d| == 1 {
      DecodePartialEncodeOne(d, rest);
    } else {
      var bits, bytes := Mark(d, |d|), Gather(d, |d|);
      MarkAllZero(d);
      EncodeSplits(d);
      DecodePartialEncode(bits, bytes + rest);
      DecodeLevel(d, Encode(bits), rest);
    }
  }

  lemma EncodeAllZero(d: seq<byte>)
    requires AllZero(d)
    ensures Encode(d) == []
  {
    GatherEmpty(d, |d|);
  }

  lemma DecodeEncode(d: seq<byte>)
    ensures Decode(Encode(d), |d|) == Ok(d)
  {
    if AllZero(d) {
      EncodeAllZero(d);
      assert d == Zeros(|d|);
    } else {
      DecodePartialEncode(d, []);
      assert Encode(d) + [] == Encode(d);
    }
  }

  lemma DecompressCompress(d: seq<byte>)
    ensures Decompress(Compress(d), |d|) == Ok(d)
  {
    DecodeEncode(d);
  }

  // ---------- encoding undoes decoding ----------

  /** A successful distribution wrote exactly at the set flags. */
  lemma {:induction false} ScatterOutput(flags: seq<bool>, data: seq<byte>, i: nat, ptr: nat, out: seq<byte>,
      r: Decoded)
    requires i <= |flags| && ptr <= |data| && |out| <= |flags|
    requires forall j :: i <= j < |out| ==> out[j] == 0
    requires Scatter(flags, data, i, ptr, out) == Ok(r)
    ensures |r.out| == |out| && ptr <= r.size <= |data|
    ensures forall j :: 0 <= j < i && j < |out| ==> r.out[j] == out[j]
    ensures forall j :: i <= j < |flags| ==> (flags[j] <==> j < |out| && r.out[j] != 0)
    decreases |flags| - i
  {
    hide Scatter;
    NextFlag(flags, data, i, ptr, out);
    if i == |flags| {
    } else if !flags[i] {
      ScatterOutput(flags, data, i + 1, ptr, out, r);
    } else {
      ScatterOutput(flags, data, i + 1, ptr + 1, out[i := data[ptr]], r);
    }
  }

  /** The bytes a distribution consumed are the non-zero bytes of what it wrote, in order. */
  lemma {:induction false} ScatterGathers(flags: seq<bool>, data: seq<byte>, i: nat, ptr: nat, out: seq<byte>,
      r: Decoded)
    requires i <= |flags| && ptr <= |data| && |out| <= |flags|
    requires forall j :: i <= j < |out| ==> out[j] == 0
    requires Scatter(flags, data, i, ptr, out) == Ok(r)
    ensures |r.out| == |out| && ptr <= r.size <= |data|
    ensures Gather(r.out, |out|) == Gather(r.out, if i < |out| then i else |out|) + data[ptr..r.size]
    decreases |flags| - i
  {
    hide Scatter, Gather;
    NextFlag(flags, data, i, ptr, out);
    ScatterAt(flags, data, i, ptr, out, r);
    if i < |out| { GatherNext(r.out, i); }
    if i == |flags| {
    } else if !flags[i] {
      ScatterGathers(flags, data, i + 1, ptr, out, r);
    } else {
      ScatterGathers(flags, data, i + 1, ptr + 1, out[i := data[ptr]], r);
      assert data[ptr..r.size] == [data[ptr]] + data[ptr + 1..r.size];
    }
  }

  /** What a distribution writes at the first position it looks at. */
  lemma ScatterAt(flags: seq<bool>, data: seq<byte>, i: nat, ptr: nat, out: seq<byte>, r: Decoded)
    requires i <= |flags| && ptr <= |data| && |out| <= |flags|
    requires forall j :: i <= j < |out| ==> out[j] == 0
    requires Scatter(flags, data, i, ptr, out) == Ok(r)
    ensures |r.out| == |out| && ptr <= r.size <= |data|
    ensures i < |flags| && !flags[i] && i < |out| ==> r.out[i] == 0
    ensures i < |flags| && flags[i] ==> ptr < r.size && i < |out| && r.out[i] == data[ptr] != 0
  {
    hide Scatter;
    NextFlag(flags, data, i, ptr, out);
    if i < |flags| && flags[i] {
      var more := out[i := data[ptr]];
      ScatterOutput(flags, data, i + 1, ptr + 1, more, r);
      assert r.out[i] == more[i];
    } else {
      ScatterOutput(flags, data, i, ptr, out, r);
    }
  }

  /** One level: a recovered bitset is the bitset of the output, and the bytes used up at this
      level are the non-zero bytes of the output. */
  lemma EncodeLevel(data: seq<byte>, target: nat, level: Decoded, r: Decoded)
    requires target >= 2 && data != []
    requires DecodePartial(data, (target + 7) / 8) == Ok(level)
    requires DecodePartial(data, target) == Ok(r)
    ensures |r.out| == target && level.size <= r.size <= |data|
    ensures Gather(r.out, target) == data[level.size..r.size]
    ensures Mark(r.out, target) == level.out
  {
    OneLevel(data, target);
    assert Gather(r.out, 0) == [];
    hide DecodePartial, Scatter, Gather, Mark, Bits, BitSet;
    DecodePartialSize(data, (target + 7) / 8, level);
    ScatterOutput(Bits(level.out), data, 0, level.size, Zeros(target), r);
    ScatterGathers(Bits(level.out), data, 0, level.size, Zeros(target), r);
    MarkBits(r.out, target);
    forall i | 0 <= i < 8 * |level.out|
      ensures BitSet(Mark(r.out, target), i) <==> BitSet(level.out, i)
    {
      assert Bits(level.out)[i] == BitSet(level.out, i);
    }
    BitsExtensional(Mark(r.out, target), level.out);
  }

  /** Whatever the decoder accepts, re-encoding its output gives back the bytes it consumed. */
  lemma {:induction false} EncodeDecodePartial(data: seq<byte>, target: nat)
    requires DecodePartial(data, target).Ok?
    ensures var r := DecodePartial(data, target).value;
            r.size <= |data| && Encode(r.out) == data[..r.size]
    decreases target
  {
    var r := DecodePartial(data, target).value;
    DecodePartialSize(data, target, r);
    if target <= 1 || |data| == 0 {
      if AllZero(r.out) { EncodeAllZero(r.out); }
    } else {
      var level := DecodePartial(data, (target + 7) / 8).value;
      DecodePartialSize(data, (target + 7) / 8, level);
      EncodeDecodePartial(data, (target + 7) / 8);
      EncodeLevel(data, target, level, r);
      EncodeFromLevel(r.out, data, level.size, r.size);
    }
  }

  lemma EncodeFromLevel(out: seq<byte>, data: seq<byte>, a: nat, b: nat)
    requires |out| >= 2 && a <= b <= |data|
    requires Encode(Mark(out, |out|)) == data[..a] && Gather(out, |out|) == data[a..b]
    ensures Encode(out) == data[..b]
  {
    hide Encode, Mark, Gather;
    MarkAllZero(out);
    GatherEmpty(out, |out|);
    if AllZero(out) {
      EncodeAllZero(Mark(out, |out|));
      EncodeAllZero(out);
    } else {
      EncodeSplits(out);
      assert data[..b] == data[..a] + data[a..b];
    }
  }

  lemma EncodeDecode(data: seq<byte>, target: nat)
    requires Decode(data, target).Ok?
    ensures |Decode(data, target).value| == target
    ensures Encode(Decode(data, target).value) == data
  {
    DecodePartialSize(data, target, DecodePartial(data, target).value);
    EncodeDecodePartial(data, target);
    assert data[..|data|] == data;
  }

  /** The accepted inputs for a length are exactly the encodings of data of that length. */
  lemma AcceptedAreEncodings(data: seq<byte>, target: nat)
    ensures Decode(data, target).Ok? <==> exists d :: |d| == target && Encode(d) == data
  {
    if Decode(data, target).Ok? {
      EncodeDecode(data, target);
    }
    forall d | |d| == target && Encode(d) == data
      ensures Decode(data, target).Ok?
    {
      DecodeEncode(d);
    }
  }

  /** Compressing what was decompressed gives the input back exactly when the input is either
      shorter than the target or a raw block that the encoder could not shorten. */
  lemma CompressDecompress(data: seq<byte>, target: int)
    requires Decompress(data, target).Ok?
    ensures Compress(Decompress(data, target).value) == data
            <==> |data| < target || |Encode(data)| >= |data|
  {
    if |data| < target {
      EncodeDecode(data, target);
    }
  }

  /** A raw block that the encoder could have shortened does not come back. */
  lemma RawBlockLost()
    ensures Decompress([0], 1) == Ok([0]) && Compress([0]) == [] && Compress(Decompress([0], 1).value) != [0]
  {
  }

  // ---------- the format ----------

  /** Digit k of a byte in base two, the most significant first, by division. */
  ghost predicate Digit(b: byte, k: nat)
    requires k < 8
  {
    b / [128, 64, 32, 16, 8, 4, 2, 1][k] % 2 == 1
  }

  /** One bit for each byte, the most significant first: whether it is non-zero. */
  ghost predicate IsBitset(bits: seq<byte>, data: seq<byte>) {
    && |bits| == (|data| + 7) / 8
    && forall j, k :: 0 <= j < |bits| && 0 <= k < 8 ==> (Digit(bits[j], k) <==> NonZeroAt(data, 8 * j + k))
  }

  ghost predicate NonZeroAt(data: seq<byte>, i: nat) {
    i < |data| && data[i] != 0
  }

  /** The bytes are the non-zero ones among the first n, from these positions on the way up. */
  ghost predicate Positions(at: seq<nat>, bytes: seq<byte>, data: seq<byte>, n: nat) {
    && |at| == |bytes| && n <= |data|
    && (forall i, j :: 0 <= i < j < |at| ==> at[i] < at[j])
    && (forall i :: 0 <= i < |at| ==> at[i] < n && data[at[i]] == bytes[i] && bytes[i] != 0)
    && (forall p :: 0 <= p < n && data[p] != 0 ==> p in at)
  }

  ghost predicate NonZeroUpTo(bytes: seq<byte>, data: seq<byte>, n: nat) {
    exists at :: Positions(at, bytes, data, n)
  }

  ghost predicate IsNonZero(bytes: seq<byte>, data: seq<byte>) {
    NonZeroUpTo(bytes, data, |data|)
  }

  /** The stored form: nothing for zeros, a byte for itself, and otherwise the stored form of the bitset followed by
      the non-zero bytes. */
  ghost predicate Format(data: seq<byte>, out: seq<byte>)
    decreases |data|
  {
    if AllZero(data) then out == []
    else if |data| == 1 then out == data
    else exists bits, cut: nat :: IsBitset(bits, data) && cut <= |out| && Format(bits, out[..cut])
                                  && IsNonZero(out[cut..], data)
  }

  lemma DigitIs(b: byte, k: nat)
    requires k < 8
    ensures Digit(b, k) <==> b & BitMask(k) != 0
  {
    MaskTable();
  }

  lemma BitsetDigits(bits: seq<byte>, data: seq<byte>)
    requires |bits| == (|data| + 7) / 8
    ensures IsBitset(bits, data) <==> forall i :: 0 <= i < 8 * |bits| ==> (BitSet(bits, i) <==> NonZeroAt(data, i))
  {
    hide Digit, NonZeroAt;
    forall i | 0 <= i < 8 * |bits|
      ensures BitSet(bits, i) <==> Digit(bits[i / 8], i % 8)
    {
      DigitIs(bits[i / 8], i % 8);
    }
    hide BitSet;
    if IsBitset(bits, data) {
      forall i | 0 <= i < 8 * |bits|
        ensures BitSet(bits, i) <==> NonZeroAt(data, i)
      {
        assert 8 * (i / 8) + i % 8 == i;
      }
    }
    if forall i :: 0 <= i < 8 * |bits| ==> (BitSet(bits, i) <==> NonZeroAt(data, i)) {
      forall j, k | 0 <= j < |bits| && 0 <= k < 8
        ensures Digit(bits[j], k) <==> NonZeroAt(data, 8 * j + k)
      {
        var i := 8 * j + k;
        assert i / 8 == j && i % 8 == k;
        assert BitSet(bits, i) <==> NonZeroAt(data, i);
      }
    }
  }

  /** The bitset of the encoder is the only one. */
  lemma MarkIsBitset(bits: seq<byte>, data: seq<byte>)
    ensures IsBitset(bits, data) <==> bits == Mark(data, |data|)
  {
    var mark := Mark(data, |data|);
    MarkBits(data, |data|);
    BitsetDigits(mark, data);
    if IsBitset(bits, data) {
      BitsetDigits(bits, data);
      hide Mark, IsBitset, BitSet;
      BitsExtensional(bits, mark);
    }
  }

  lemma NothingGathered(data: seq<byte>)
    ensures Positions([], Gather(data, 0), data, 0)
  {
  }

  lemma {:induction false} GatherPositions(data: seq<byte>, n: nat) returns (at: seq<nat>)
    requires n <= |data|
    ensures Positions(at, Gather(data, n), data, n)
  {
    hide Positions, Gather;
    if n == 0 {
      NothingGathered(data);
      at := [];
    } else {
      var before := GatherPositions(data, n - 1);
      GatherNext(data, n - 1);
      PositionsNext(before, Gather(data, n - 1), data, n - 1);
      at := if data[n - 1] == 0 then before else before + [n - 1];
    }
  }

  lemma PositionsNext(at: seq<nat>, bytes: seq<byte>, data: seq<byte>, n: nat)
    requires Positions(at, bytes, data, n) && n < |data|
    ensures if data[n] == 0 then Positions(at, bytes, data, n + 1)
            else Positions(at + [n], bytes + [data[n]], data, n + 1)
  {
    var more := at + [n];
    assert more[|at|] == n;
    assert forall p :: p in at ==> p in more;
  }

  lemma SomePosition(at: seq<nat>, bytes: seq<byte>, data: seq<byte>, n: nat)
    requires at != [] && Positions(at, bytes, data, n)
    ensures n > 0
  {
    assert at[0] < n;
  }

  lemma NonZeroNone(bytes: seq<byte>, data: seq<byte>)
    requires NonZeroUpTo(bytes, data, 0)
    ensures bytes == Gather(data, 0)
  {
    var at :| Positions(at, bytes, data, 0);
    if at != [] { SomePosition(at, bytes, data, 0); }
  }

  /** The last non-zero byte comes last. */
  lemma NonZeroLess(bytes: seq<byte>, data: seq<byte>, n: nat)
    requires n < |data| && NonZeroUpTo(bytes, data, n + 1)
    ensures if data[n] == 0 then NonZeroUpTo(bytes, data, n)
            else bytes != [] && bytes[|bytes| - 1] == data[n] && NonZeroUpTo(bytes[..|bytes| - 1], data, n)
  {
    hide Positions;
    var at :| Positions(at, bytes, data, n + 1);
    if data[n] == 0 {
      SamePositions(at, bytes, data, n);
    } else {
      LastPosition(at, bytes, data, n);
      LessPositions(at, bytes, data, n);
    }
  }

  lemma SamePositions(at: seq<nat>, bytes: seq<byte>, data: seq<byte>, n: nat)
    requires n < |data| && data[n] == 0 && Positions(at, bytes, data, n + 1)
    ensures Positions(at, bytes, data, n)
  {
  }

  lemma LastPosition(at: seq<nat>, bytes: seq<byte>, data: seq<byte>, n: nat)
    requires n < |data| && data[n] != 0 && Positions(at, bytes, data, n + 1)
    ensures |at| == |bytes| > 0 && at[|at| - 1] == n && bytes[|at| - 1] == data[n]
  {
    assert n in at;
    var i :| 0 <= i < |at| && at[i] == n;
    var last := |at| - 1;
    assert at[last] <= n && forall i :: 0 <= i < last ==> at[i] < at[last];
  }

  lemma LessPositions(at: seq<nat>, bytes: seq<byte>, data: seq<byte>, n: nat)
    requires Positions(at, bytes, data, n + 1) && at != [] && at[|at| - 1] == n
    ensures Positions(at[..|at| - 1], bytes[..|at| - 1], data, n)
  {
    var last := |at| - 1;
    forall p | 0 <= p < n && data[p] != 0
      ensures p in at[..last]
    {
      assert p in at;
    }
  }

  lemma {:induction false} NonZeroGather(bytes: seq<byte>, data: seq<byte>, n: nat)
    requires n <= |data| && NonZeroUpTo(bytes, data, n)
    ensures bytes == Gather(data, n)
    decreases n
  {
    hide NonZeroUpTo, Positions, Gather;
    if n == 0 {
      NonZeroNone(bytes, data);
    } else {
      NonZeroLess(bytes, data, n - 1);
      GatherNext(data, n - 1);
      if data[n - 1] == 0 {
        NonZeroGather(bytes, data, n - 1);
      } else {
        NonZeroGather(bytes[..|bytes| - 1], data, n - 1);
        assert bytes == bytes[..|bytes| - 1] + [bytes[|bytes| - 1]];
      }
    }
  }

  /** The non-zero bytes the encoder gathers are the only ones. */
  lemma GatherIsNonZero(bytes: seq<byte>, data: seq<byte>)
    ensures IsNonZero(bytes, data) <==> bytes == Gather(data, |data|)
  {
    var at := GatherPositions(data, |data|);
    if IsNonZero(bytes, data) {
      NonZeroGather(bytes, data, |data|);
    }
  }

  /** The encoder writes the format and there is nothing else in it. */
  lemma {:induction false} EncodeFormat(data: seq<byte>, out: seq<byte>)
    ensures Format(data, out) <==> out == Encode(data)
    decreases |data|
  {
    if AllZero(data) {
      EncodeAllZero(data);
    } else if |data| > 1 {
      var mark, gathered := Mark(data, |data|), Gather(data, |data|);
      EncodeSplits(data);
      MarkIsBitset(mark, data);
      GatherIsNonZero(gathered, data);
      hide Encode, Mark, Gather, IsBitset, IsNonZero;
      if out == Encode(data) {
        var cut := |Encode(mark)|;
        EncodeFormat(mark, out[..cut]);
        assert out[..cut] == Encode(mark) && out[cut..] == gathered;
      }
      if Format(data, out) {
        var bits, cut: nat :| IsBitset(bits, data) && cut <= |out| && Format(bits, out[..cut])
                              && IsNonZero(out[cut..], data);
        MarkIsBitset(bits, data);
        GatherIsNonZero(out[cut..], data);
        EncodeFormat(mark, out[..cut]);
        assert out == out[..cut] + out[cut..];
      }
    }
  }

  /** The decoder gives out exactly the data of which its input is the stored form. */
  lemma DecodeFormat(data: seq<byte>, target: nat, out: seq<byte>)
    ensures Decode(data, target) == Ok(out) <==> |out| == target && Format(out, data)
  {
    EncodeFormat(out, data);
    hide Format, Encode, Decode;
    if Decode(data, target) == Ok(out) { EncodeDecode(data, target); }
    DecodeEncode(out);
  }

  /** A part of the input that is decoded is the stored form of the output, and a leading part that is the stored
      form of something other than zeros is decoded to it. */
  lemma DecodePartialFormat(data: seq<byte>, target: nat, out: seq<byte>, size: nat)
    ensures DecodePartial(data, target) == Ok(Decoded(out, size)) ==>
              |out| == target && size <= |data| && Format(out, data[..size])
    ensures |out| == target && size <= |data| && Format(out, data[..size]) && !AllZero(out) ==>
              DecodePartial(data, target) == Ok(Decoded(out, size))
  {
    hide Format, Encode, DecodePartial, AllZero;
    if DecodePartial(data, target) == Ok(Decoded(out, size)) {
      DecodePartialSize(data, target, Decoded(out, size));
      EncodeDecodePartial(data, target);
      EncodeFormat(out, data[..size]);
    }
    if |out| == target && size <= |data| && Format(out, data[..size]) && !AllZero(out) {
      EncodeFormat(out, data[..size]);
      DecodePartialEncode(out, data[size..]);
      assert data[..size] + data[size..] == data;
    }
  }

  /** How many of the first k bits are set. */
  ghost function Ones(bits: seq<byte>, k: nat): nat
    requires k <= 8 * |bits|
  {
    if k == 0 then 0 else Ones(bits, k - 1) + if Digit(bits[(k - 1) / 8], (k - 1) % 8) then 1 else 0
  }

  /** The byte for a set bit is missing, has no place or is zero; the bytes before it belong to the set bits before. */
  ghost predicate Blocked(bits: seq<byte>, data: seq<byte>, start: nat, target: nat, k: nat)
    requires k < 8 * |bits|
  {
    && Digit(bits[k / 8], k % 8)
    && var p := start + Ones(bits, k);
       p >= |data| || k >= target || data[p] == 0
  }

  /** A failure is that of the first blocked bit from i on, which is k; success means that there is none. */
  ghost predicate FailsAtFirst(r: Result<Decoded>, bits: seq<byte>, data: seq<byte>, start: nat, target: nat, i: nat,
      k: nat)
  {
    if r.Ok? then forall j :: i <= j < 8 * |bits| ==> !Blocked(bits, data, start, target, j)
    else
      && i <= k < 8 * |bits| && Blocked(bits, data, start, target, k)
      && (forall j :: i <= j < k ==> !Blocked(bits, data, start, target, j))
      && r.error == if start + Ones(bits, k) >= |data| then MissingData
                    else if k >= target then ExceededTarget else ZeroContent
  }

  lemma OnesNext(bits: seq<byte>, k: nat)
    requires k < 8 * |bits|
    ensures BitSet(bits, k) <==> Digit(bits[k / 8], k % 8)
    ensures Ones(bits, k + 1) == Ones(bits, k) + if BitSet(bits, k) then 1 else 0
  {
    DigitIs(bits[k / 8], k % 8);
    hide Digit;
  }

  lemma {:induction false} ScatterBlocked(bits: seq<byte>, data: seq<byte>, start: nat, i: nat, out: seq<byte>)
      returns (k: nat)
    requires i <= 8 * |bits|
    ensures var r := Scatter(Bits(bits), data, i, start + Ones(bits, i), out);
            FailsAtFirst(r, bits, data, start, |out|, i, k)
    decreases 8 * |bits| - i
  {
    hide Scatter, Ones, Digit, BitSet;
    var ptr := start + Ones(bits, i);
    NextFlag(Bits(bits), data, i, ptr, out);
    k := i;
    if i < 8 * |bits| {
      OnesNext(bits, i);
      if !BitSet(bits, i) {
        k := ScatterBlocked(bits, data, start, i + 1, out);
      } else if ptr < |data| && i < |out| && data[ptr] != 0 {
        k := ScatterBlocked(bits, data, start, i + 1, out[i := data[ptr]]);
      }
    }
  }

  /** The decoder fails where the bitset does, or at the first set bit whose byte is missing, has no place or is
      zero, with the reason for it. */
  lemma DecodeErrors(data: seq<byte>, target: nat) returns (k: nat)
    ensures target < 2 || data == [] ==> DecodePartial(data, target).Ok?
    ensures target >= 2 && data != [] ==>
              var level, r := DecodePartial(data, (target + 7) / 8), DecodePartial(data, target);
              if level.Err? then r == level
              else FailsAtFirst(r, level.value.out, data, level.value.size, target, 0, k)
  {
    OneLevel(data, target);
    hide DecodePartial, Scatter, FailsAtFirst;
    k := 0;
    if target >= 2 && data != [] {
      var level := DecodePartial(data, (target + 7) / 8);
      if level.Ok? {
        var bits, start, zeros := level.value.out, level.value.size, Zeros(target);
        assert start + Ones(bits, 0) == start && |zeros| == target;
        assert DecodePartial(data, target) == Scatter(Bits(bits), data, 0, start + Ones(bits, 0), zeros);
        k := ScatterBlocked(bits, data, start, 0, zeros);
      }
    }
  }

  /** A single byte in front: the first bit of the bitset, then the byte. */
  lemma SparseBlock()
    ensures Compress([5, 0, 0, 0]) == [0x80, 5]
  {
    var data, out: seq<byte> := [5, 0, 0, 0], [0x80, 5];
    assert data[0] != 0 && out[..1][0] != 0;
    assert Positions([0], out[1..], data, 4);
    BlockBitset();
    assert IsBitset([0x80], data) && Format([0x80], out[..1]);
    EncodeFormat(data, out);
  }

  lemma BlockBitset()
    ensures IsBitset([0x80], [5, 0, 0, 0])
  {
    forall k | 0 <= k < 8
      ensures Digit(0x80, k) <==> k == 0
    {
    }
    hide Digit;
  }

  // ---------- the buffers, filled in place ----------

  method EncodeBytes(data: seq<byte>) returns (out: seq<byte>)
    ensures out == Encode(data) && Format(data, out)
    decreases |data|
  {
    EncodeFormat(data, Encode(data));
    hide Format;
    if |data| == 0 { return []; }
    if |data| == 1 {
      if data[0] == 0 { return []; }
      return data;
    }
    var nonZeroBitset, nonZeroBytes := MarkBytes(data);
    if |nonZeroBytes| == 0 { return []; }
    var head := EncodeBytes(nonZeroBitset);
    return head + nonZeroBytes;
  }

  /** Collects the non-zero bytes and marks their positions. */
  method MarkBytes(data: seq<byte>) returns (bits: seq<byte>, nonZeroBytes: seq<byte>)
    ensures bits == Mark(data, |data|) && nonZeroBytes == Gather(data, |data|)
    ensures IsBitset(bits, data) && IsNonZero(nonZeroBytes, data)
  {
    MarkIsBitset(Mark(data, |data|), data);
    GatherIsNonZero(Gather(data, |data|), data);
    hide IsBitset, IsNonZero;
    var nonZeroBitset := new byte[(|data| + 7) / 8](_ => 0);
    nonZeroBytes := [];
    assert nonZeroBitset[..] == Mark(data, 0) && Gather(data, 0) == [];
    hide Mark, Gather, WithBit, Marked;
    for i := 0 to |data|
      invariant Marked(data, i, nonZeroBitset[..], nonZeroBytes)
    {
      ghost var before := nonZeroBitset[..];
      MarkedNext(data, i, before, nonZeroBytes);
      if data[i] != 0 {
        nonZeroBytes := nonZeroBytes + [data[i]];
        nonZeroBitset[i / 8] := WithBit(nonZeroBitset[i / 8], i % 8);
        assert nonZeroBitset[..] == before[i / 8 := WithBit(before[i / 8], i % 8)];
      }
    }
    bits := nonZeroBitset[..];
    MarkedAll(data, bits, nonZeroBytes);
  }

  ghost predicate Marked(data: seq<byte>, n: nat, bits: seq<byte>, bytes: seq<byte>) {
    n <= |data| && bits == Mark(data, n) && bytes == Gather(data, n)
  }

  lemma MarkedNext(data: seq<byte>, n: nat, bits: seq<byte>, bytes: seq<byte>)
    requires n < |data| && Marked(data, n, bits, bytes)
    ensures n / 8 < |bits|
    ensures if data[n] == 0 then Marked(data, n + 1, bits, bytes)
            else Marked(data, n + 1, bits[n / 8 := WithBit(bits[n / 8], n % 8)], bytes + [data[n]])
  {
    GatherNext(data, n);
    MarkNext(data, n);
    hide Mark, Gather, WithBit;
  }

  lemma MarkedAll(data: seq<byte>, bits: seq<byte>, bytes: seq<byte>)
    requires Marked(data, |data|, bits, bytes)
    ensures bits == Mark(data, |data|) && bytes == Gather(data, |data|)
  {
  }

  lemma PartialFormat(data: seq<byte>, target: nat)
    ensures var r := DecodePartial(data, target);
            r.Ok? ==> |r.value.out| == target && r.value.size <= |data| && Format(r.value.out, data[..r.value.size])
    ensures forall out, size :: |out| == target && 0 <= size <= |data| && !AllZero(out) && Format(out, data[..size]) ==>
              DecodePartial(data, target) == Ok(Decoded(out, size))
  {
    hide DecodePartial, Format, AllZero;
    var r := DecodePartial(data, target);
    if r.Ok? { DecodePartialFormat(data, target, r.value.out, r.value.size); }
    forall out, size | |out| == target && 0 <= size <= |data| && !AllZero(out) && Format(out, data[..size])
      ensures DecodePartial(data, target) == Ok(Decoded(out, size))
    {
      DecodePartialFormat(data, target, out, size);
    }
  }

  method DecodePartialBytes(data: seq<byte>, target: nat) returns (r: Result<Decoded>)
    ensures r == DecodePartial(data, target)
    ensures r.Ok? ==> |r.value.out| == target && r.value.size <= |data| && Format(r.value.out, data[..r.value.size])
    ensures forall out, size :: |out| == target && 0 <= size <= |data| && !AllZero(out) && Format(out, data[..size]) ==>
              r == Ok(Decoded(out, size))
    decreases target
  {
    hide DecodePartial, Scatter, Format;
    PartialFormat(data, target);
    OneLevel(data, target);
    if target == 0 { return Ok(Decoded([], 0)); }
    var decomp := new byte[target](_ => 0);
    assert decomp[..] == Zeros(target);
    if |data| == 0 { return Ok(Decoded(decomp[..], 0)); }
    if target == 1 {
      decomp[0] := data[0];
      assert decomp[..] == [data[0]];
      return Ok(Decoded(decomp[..], if data[0] != 0 then 1 else 0));
    }
    var level := DecodePartialBytes(data, (target + 7) / 8);
    if level.Err? { return level; }
    DecodePartialSize(data, (target + 7) / 8, level.value);
    var nonZeroBitset, ptr := level.value.out, level.value.size;
    for i := 0 to 8 * |nonZeroBitset|
      invariant 0 <= ptr <= |data|
      invariant Scatter(Bits(nonZeroBitset), data, i, ptr, decomp[..]) == DecodePartial(data, target)
    {
      NextFlag(Bits(nonZeroBitset), data, i, ptr, decomp[..]);
      if BitSet(nonZeroBitset, i) {
        if ptr >= |data| { return Err(MissingData); }
        if i >= decomp.Length { return Err(ExceededTarget); }
        if data[ptr] == 0 { return Err(ZeroContent); }
        ghost var before := decomp[..];
        decomp[i] := data[ptr];
        assert decomp[..] == before[i := data[ptr]];
        ptr := ptr + 1;
      }
    }
    NextFlag(Bits(nonZeroBitset), data, 8 * |nonZeroBitset|, ptr, decomp[..]);
    return Ok(Decoded(decomp[..], ptr));
  }

  lemma DecodeFormats(data: seq<byte>, target: nat)
    ensures forall out :: Decode(data, target) == Ok(out) <==> |out| == target && Format(out, data)
  {
    hide Decode, Format;
    forall out
      ensures Decode(data, target) == Ok(out) <==> |out| == target && Format(out, data)
    {
      DecodeFormat(data, target, out);
    }
  }

  method DecodeBytes(data: seq<byte>, target: nat) returns (r: Result<seq<byte>>)
    ensures r == Decode(data, target)
    ensures forall out :: r == Ok(out) <==> |out| == target && Format(out, data)
  {
    DecodeFormats(data, target);
    var part := DecodePartialBytes(data, target);
    if part.Err? { return Err(part.error); }
    if part.value.size != |data| { return Err(UnreferencedData); }
    return Ok(part.value.out);
  }

  method CompressBytes(data: seq<byte>) returns (out: seq<byte>)
    ensures |out| <= |data|
    ensures Decompress(out, |data|) == Ok(data)
    ensures out == Compress(data)
    ensures |out| < |data| ==> Format(data, out)
    ensures |out| == |data| ==> out == data && forall enc :: Format(data, enc) ==> |enc| >= |data|
  {
    hide Format;
    forall enc
      ensures Format(data, enc) <==> enc == Encode(data)
    {
      EncodeFormat(data, enc);
    }
    out := EncodeBytes(data);
    if |out| >= |data| { out := data; }
    DecompressCompress(data);
  }

  method DecompressBytes(data: seq<byte>, target: int) returns (r: Result<seq<byte>>)
    ensures r == Decompress(data, target)
    ensures |data| > target ==> r == Err(ExceededTarget)
    ensures |data| == target ==> r == Ok(data)
    ensures |data| < target ==> forall out :: r == Ok(out) <==> |out| == target && Format(out, data)
    ensures r.Ok? ==> |r.value| == target
  {
    hide Format;
    if |data| > target { return Err(ExceededTarget); }
    if |data| == target { return Ok(data); }
    r := DecodeBytes(data, target);
    if r.Ok? { DecodePartialSize(data, target, DecodePartial(data, target).value); }
  }
}

/** `convert_to_mono`: read the interleaved sample bytes as signed
    integers of the sample width in the host's byte order, taken here to be
    little-endian, pair them into (left, right)
    frames, average each frame in float32 and cast back to the integer type,
    which truncates toward zero. For one- and two-byte samples the float32
    sum and halving are exact, so the mix is the integer mean of the two
    samples truncated toward zero. */
module Downmix {
  import opened Bytes

  /** The sample widths, in bytes, for which the mix is computed exactly. */
  type Width = w: int | w == 1 || w == 2 witness 1

  /** Half the number of values of a sample: 2^(8w-1). */
  function Half(w: Width): int
  {
    if w == 1 then 0x80 else 0x8000
  }

  /** The range of numpy's `int8` (w = 1) or `int16` (w = 2). */
  predicate InRange(v: int, w: Width)
  {
    -Half(w) <= v < Half(w)
  }

  /** The bytes of a sample read as an unsigned little-endian number. */
  function Unsigned(b: seq<Byte>): (u: nat)
    requires |b| == 1 || |b| == 2
    ensures u < 2 * Half(|b|)
  {
    if |b| == 1 then b[0] as nat else b[0] as nat + 0x100 * (b[1] as nat)
  }

  /** One sample as `np.frombuffer` reads it on a little-endian host:
      little-endian two's complement. */
  function DecodeSample(b: seq<Byte>): (v: int)
    requires |b| == 1 || |b| == 2
    ensures InRange(v, |b|)
    ensures v == Unsigned(b) || v == Unsigned(b) - 2 * Half(|b|)
  {
    var u := Unsigned(b);
    if u < Half(|b|) then u else u - 2 * Half(|b|)
  }

  /** A sample differs from the unsigned reading of its bytes by a multiple
      of `2 ** (8 * w)`: the two readings agree modulo the word size, which
      with the range fixes the two's-complement value. */
  lemma DecodeSampleCongruent(b: seq<Byte>)
    requires |b| == 1 || |b| == 2
    ensures (DecodeSample(b) - Unsigned(b)) % (2 * Half(|b|)) == 0
    ensures forall v :: InRange(v, |b|) && (v - Unsigned(b)) % (2 * Half(|b|)) == 0 ==>
      v == DecodeSample(b)
  {
  }

  /** The extremes of the two's-complement reading: a set top bit is
      negative, and the bias-128 reading of unsigned 8-bit audio is not
      what is computed. */
  lemma DecodeSampleExamples()
    ensures DecodeSample([0xFF]) == -1 && DecodeSample([0x80]) == -0x80
    ensures DecodeSample([0x7F]) == 0x7F && DecodeSample([0x00]) == 0
    ensures DecodeSample([0x00, 0x80]) == -0x8000 && DecodeSample([0xFF, 0x7F]) == 0x7FFF
    ensures DecodeSample([0xFF, 0xFF]) == -1
  {
  }

  /** One sample as `tobytes` writes it; reading it back gives `v`. */
  function EncodeSample(v: int, w: Width): (b: seq<Byte>)
    requires InRange(v, w)
    ensures |b| == w
    ensures DecodeSample(b) == v
  {
    var u := if v < 0 then v + 2 * Half(w) else v;
    if w == 1 then [u] else [u % 0x100, u / 0x100]
  }

  /** Every byte pattern is the encoding of the sample it decodes to. */
  lemma EncodeDecodeSample(b: seq<Byte>)
    requires |b| == 1 || |b| == 2
    ensures EncodeSample(DecodeSample(b), |b|) == b
  {
    if |b| == 2 {
      var u := (b[0] as int) + 0x100 * (b[1] as int);
      assert u % 0x100 == b[0] && u / 0x100 == b[1];
    }
  }

  /** `np.frombuffer(frames, dtype)`: consecutive `w`-byte samples. */
  function DecodeSamples(b: seq<Byte>, w: Width): (xs: seq<int>)
    requires |b| % w == 0
    ensures |xs| * w == |b|
    ensures forall i :: 0 <= i < |xs| ==> InRange(xs[i], w)
    decreases |b|
  {
    if |b| == 0 then [] else [DecodeSample(b[..w])] + DecodeSamples(b[w..], w)
  }

  /** `tobytes()`: the samples written one after another. */
  function EncodeSamples(xs: seq<int>, w: Width): (b: seq<Byte>)
    requires forall i :: 0 <= i < |xs| ==> InRange(xs[i], w)
    ensures |b| == |xs| * w
  {
    if xs == [] then [] else EncodeSample(xs[0], w) + EncodeSamples(xs[1..], w)
  }

  /** Offsets of sample slots: slot `i` ends no later than slot `n - 1`,
      and slot `i` starts where slot `i - 1` ends. */
  lemma SlotOffsets(i: nat, n: nat, w: Width)
    requires i < n
    ensures i * w + w <= n * w
    ensures i > 0 ==> (i - 1) * w + w == i * w
  {
    if w == 2 {
      assert i * w == 2 * i && n * w == 2 * n;
    }
  }

  /** A buffer of whole samples without its first sample is still whole
      samples, one fewer. */
  lemma WholeSamples(len: nat, w: Width)
    requires len % w == 0
    ensures (len / w) * w == len
    ensures len >= w ==> (len - w) % w == 0 && (len - w) / w == len / w - 1
  {
  }

  /** A slice of the part after a prefix `a` is the same slice of the
      whole, shifted by `|a|`. */
  lemma SliceAfter(a: seq<Byte>, r: seq<Byte>, k: nat, n: nat)
    requires k + n <= |r|
    ensures (a + r)[|a| + k..|a| + k + n] == r[k..k + n]
  {
  }

  /** Sample `i` is read from bytes `i * w` up to `i * w + w`, the samples
      in buffer order. */
  lemma {:induction false} DecodeSamplesAt(b: seq<Byte>, w: Width, i: nat)
    requires |b| % w == 0 && i < |b| / w
    ensures i * w + w <= |b|
    ensures DecodeSamples(b, w)[i] == DecodeSample(b[i * w..i * w + w])
    decreases i
  {
    WholeSamples(|b|, w);
    SlotOffsets(i, |b| / w, w);
    if i == 0 {
      assert b[0..w] == b[..w];
    } else {
      var k, p := (i - 1) * w, i * w;
      assert p == w + k;
      DecodeSamplesAt(b[w..], w, i - 1);
      assert DecodeSamples(b, w)[i] == DecodeSamples(b[w..], w)[i - 1];
      assert b == b[..w] + b[w..];
      SliceAfter(b[..w], b[w..], k, w);
    }
  }

  /** Bytes `i * w` up to `i * w + w` of the written buffer are the
      encoding of sample `i`. */
  lemma {:induction false} EncodeSamplesAt(xs: seq<int>, w: Width, i: nat)
    requires forall j :: 0 <= j < |xs| ==> InRange(xs[j], w)
    requires i < |xs|
    ensures i * w + w <= |EncodeSamples(xs, w)|
    ensures EncodeSamples(xs, w)[i * w..i * w + w] == EncodeSample(xs[i], w)
    decreases i
  {
    SlotOffsets(i, |xs|, w);
    var head, rest := EncodeSample(xs[0], w), EncodeSamples(xs[1..], w);
    assert EncodeSamples(xs, w) == head + rest;
    if i == 0 {
      assert (head + rest)[0..w] == head;
    } else {
      var k, p := (i - 1) * w, i * w;
      assert p == w + k;
      SlotOffsets(i - 1, |xs| - 1, w);
      EncodeSamplesAt(xs[1..], w, i - 1);
      assert xs[1..][i - 1] == xs[i];
      SliceAfter(head, rest, k, w);
    }
  }

  /** Writing samples and reading them back gives the same samples. */
  lemma {:induction false} DecodeEncodeSamples(xs: seq<int>, w: Width)
    requires forall i :: 0 <= i < |xs| ==> InRange(xs[i], w)
    ensures DecodeSamples(EncodeSamples(xs, w), w) == xs
  {
    if xs != [] {
      var b := EncodeSamples(xs, w);
      assert b[..w] == EncodeSample(xs[0], w);
      assert b[w..] == EncodeSamples(xs[1..], w);
      DecodeEncodeSamples(xs[1..], w);
      assert xs == [xs[0]] + xs[1..];
    }
  }

  /** Reading a buffer and writing the samples back gives the same bytes. */
  lemma {:induction false} EncodeDecodeSamples(b: seq<Byte>, w: Width)
    requires |b| % w == 0
    ensures EncodeSamples(DecodeSamples(b, w), w) == b
    decreases |b|
  {
    if |b| != 0 {
      var xs := DecodeSamples(b, w);
      assert xs[0] == DecodeSample(b[..w]);
      assert xs[1..] == DecodeSamples(b[w..], w);
      EncodeDecodeSample(b[..w]);
      EncodeDecodeSamples(b[w..], w);
      assert b == b[..w] + b[w..];
    }
  }

  /** The mean of one frame as `np.mean(..., dtype=np.float32)` followed by
      `astype` computes it: half the sum, truncated toward zero. */
  function TruncMean(l: int, r: int): (m: int)
    ensures l + r >= 0 ==> 0 <= (l + r) - 2 * m <= 1
    ensures l + r < 0 ==> 0 <= 2 * m - (l + r) <= 1
    ensures Min(l, r) <= m <= Max(l, r)
    ensures l == r ==> m == l
  {
    var s := l + r;
    if s >= 0 then s / 2 else -((-s) / 2)
  }

  /** `samples.reshape(-1, 2)` and the mean over each row: one output
      sample per (left, right) frame. */
  function Downmix(xs: seq<int>): (ys: seq<int>)
    requires |xs| % 2 == 0
    ensures |ys| * 2 == |xs|
    decreases |xs|
  {
    if xs == [] then [] else [TruncMean(xs[0], xs[1])] + Downmix(xs[2..])
  }

  /** Output sample `i` is the mean of frame `i`, the samples at `2i` and
      `2i + 1`: the frames keep their order. */
  lemma {:induction false} DownmixAt(xs: seq<int>, i: nat)
    requires |xs| % 2 == 0
    requires i < |xs| / 2
    ensures Downmix(xs)[i] == TruncMean(xs[2 * i], xs[2 * i + 1])
    decreases i
  {
    if i > 0 {
      DownmixAt(xs[2..], i - 1);
      assert xs[2..][2 * (i - 1)] == xs[2 * i];
      assert xs[2..][2 * (i - 1) + 1] == xs[2 * i + 1];
    }
  }

  /** A mix of in-range samples is in range: the mean lies between the two
      samples of its frame. */
  lemma DownmixInRange(xs: seq<int>, w: Width)
    requires |xs| % 2 == 0
    requires forall i :: 0 <= i < |xs| ==> InRange(xs[i], w)
    ensures forall i :: 0 <= i < |Downmix(xs)| ==> InRange(Downmix(xs)[i], w)
  {
    var ys := Downmix(xs);
    forall i | 0 <= i < |ys|
      ensures InRange(ys[i], w)
    {
      DownmixAt(xs, i);
      assert InRange(xs[2 * i], w) && InRange(xs[2 * i + 1], w);
    }
  }

  /** Where `convert_to_mono` raises: numpy has no integer type of that
      width (`int24`, ...), the buffer is not a whole number of samples, or
      the samples do not pair up into frames. */
  datatype MixError = UnknownDtype | BufferNotMultipleOfWidth | OddSampleCount

  datatype Result<T> = Ok(value: T) | Err(error: MixError)

  /** `k` samples of width `w` fill `n` bytes; they pair up into frames
      exactly when the bytes are a whole number of frames. */
  lemma SamplesPairUp(n: nat, k: nat, w: Width)
    requires k * w == n
    ensures k % 2 == 0 <==> n % (2 * w) == 0
  {
    if w == 2 {
      assert n == 2 * k;
    }
  }

  /** A whole number of frames is a whole number of samples. */
  lemma FramesAreSamples(n: nat, w: Width)
    ensures n % (2 * w) == 0 ==> n % w == 0
  {
    if w == 2 && n % 4 == 0 {
      assert n == 2 * (2 * (n / 4));
    }
  }

  /** `convert_to_mono(stereo_frames, sample_width)`. */
  function ConvertToMono(frames: seq<Byte>, sampwidth: nat): (r: Result<seq<Byte>>)
    requires sampwidth >= 1 && sampwidth != 4 && sampwidth != 8
    ensures r == Err(UnknownDtype) <==> sampwidth != 1 && sampwidth != 2
    ensures (sampwidth == 1 || sampwidth == 2) ==>
      (r == Err(BufferNotMultipleOfWidth) <==> |frames| % sampwidth != 0)
    ensures r.Ok? <==> (sampwidth == 1 || sampwidth == 2) && |frames| % (2 * sampwidth) == 0
    ensures r.Ok? ==> |r.value| * 2 == |frames|
    ensures r.Ok? ==>
      DecodeSamples(r.value, sampwidth) == Downmix(DecodeSamples(frames, sampwidth))
  {
    if sampwidth != 1 && sampwidth != 2 then Err(UnknownDtype)
    else if |frames| % sampwidth != 0 then
      FramesAreSamples(|frames|, sampwidth);
      Err(BufferNotMultipleOfWidth)
    else
      var samples := DecodeSamples(frames, sampwidth);
      SamplesPairUp(|frames|, |samples|, sampwidth);
      if |samples| % 2 != 0 then Err(OddSampleCount)
      else
        var mono := Downmix(samples);
        DownmixInRange(samples, sampwidth);
        DecodeEncodeSamples(mono, sampwidth);
        Ok(EncodeSamples(mono, sampwidth))
  }

  /** A mono signal played on both channels: every sample twice in a row. */
  function Duplicate(ys: seq<int>): (xs: seq<int>)
    ensures |xs| == 2 * |ys|
    ensures forall i :: 0 <= i < |xs| ==> xs[i] == ys[i / 2]
  {
    if ys == [] then [] else [ys[0], ys[0]] + Duplicate(ys[1..])
  }

  /** Frames whose two channels agree mix to the shared channel. */
  lemma {:induction false} DownmixDuplicate(ys: seq<int>)
    ensures Downmix(Duplicate(ys)) == ys
  {
    if ys != [] {
      var xs := Duplicate(ys);
      assert xs[2..] == Duplicate(ys[1..]);
      DownmixDuplicate(ys[1..]);
      assert ys == [ys[0]] + ys[1..];
    }
  }

  /** Converting a stereo buffer whose left and right samples agree gives
      back, byte for byte, the mono buffer it was made from. */
  lemma ConvertDuplicated(ys: seq<int>, w: Width)
    requires forall i :: 0 <= i < |ys| ==> InRange(ys[i], w)
    ensures ConvertToMono(EncodeSamples(Duplicate(ys), w), w) == Ok(EncodeSamples(ys, w))
  {
    var frames := EncodeSamples(Duplicate(ys), w);
    DecodeEncodeSamples(Duplicate(ys), w);
    DownmixDuplicate(ys);
    var r := ConvertToMono(frames, w);
    if w == 1 {
      assert |frames| == 2 * |ys|;
    } else {
      assert |frames| == 4 * |ys|;
    }
    assert |frames| % (2 * w) == 0;
    assert r.Ok?;
    EncodeDecodeSamples(r.value, w);
  }
}

/** An ALAC frame as a bit string: what alac_decode_frame makes of it. */
module Frame {
  import opened Words
  import opened Wrappers
  import Rice
  import Fir

  /** The fields that alac_create and alac_set_info leave in the decoder. */
  datatype Config = Config(sampleSize: nat, maxSamples: nat, numChannels: nat,
                           initialHistory: nat, kModifier: nat, historyMult: nat) {

    predicate Valid() {
      && (sampleSize == 16 || sampleSize == 24)
      && maxSamples >= 1 && numChannels >= 1
      && maxSamples * BytesPerSample() <= 0x7FFF_FFFF
    }

    function SampleBytes(): nat {
      sampleSize / 8
    }

    function BytesPerSample(): nat {
      SampleBytes() * numChannels
    }

    /** ricemodifier * setinfo_rice_historymult / 4 and the other three numbers handed to the entropy decoder. */
    function RiceParams(size: nat, riceModifier: nat): Rice.Params {
      Rice.Params(size, initialHistory, kModifier, riceModifier * historyMult / 4)
    }
  }

  /** The entropy decoder's multiplier is a quarter of the product, rounded down; its other numbers are the stream's. */
  lemma QuarterOfProduct(c: Config, size: nat, riceModifier: nat)
    ensures
      var p := c.RiceParams(size, riceModifier);
      && 4 * p.historyMult <= riceModifier * c.historyMult < 4 * p.historyMult + 4
      && p.size == size && p.initialHistory == c.initialHistory && p.kModifier == c.kModifier
    ensures c.RiceParams(size, 4).historyMult == c.historyMult
  {
    DivModIdentity(riceModifier * c.historyMult, 4);
    DivModUnique(4 * c.historyMult, 4, c.historyMult, 0);
  }

  // ----- output bytes -----

  function LowByte(v: int): Byte {
    v % 256
  }

  /** A sample stored little-endian in two or three bytes. */
  function LittleEndian(bytes: nat, v: int): (r: seq<Byte>)
    ensures |r| == bytes
  {
    if bytes == 0 then [] else [LowByte(v)] + LittleEndian(bytes - 1, v / 256)
  }

  /** out with bs written over it at position at. */
  function Put(out: seq<Byte>, at: nat, bs: seq<Byte>): (r: seq<Byte>)
    requires at + |bs| <= |out|
    ensures |r| == |out|
  {
    out[..at] + bs + out[at + |bs|..]
  }

  predicate Room(out: nat, frames: seq<seq<Byte>>, stride: nat) {
    forall i :: 0 <= i < |frames| ==> i * stride + |frames[i]| <= out
  }

  /** out with each frame's bytes written at its place. */
  function PutFrames(out: seq<Byte>, frames: seq<seq<Byte>>, stride: nat): (r: seq<Byte>)
    requires Room(|out|, frames, stride)
    ensures |r| == |out|
  {
    if frames == [] then out
    else
      var n := |frames| - 1;
      assert Room(|out|, frames[..n], stride);
      Put(PutFrames(out, frames[..n], stride), n * stride, frames[n])
  }

  // ----- samples -----

  /** Put split-off low bytes back under a sample. */
  function Join(v: int, low: int, lowBytes: nat): int {
    if lowBytes == 0 then v else Wrap32(v * Pow2(8 * lowBytes)) + low % Pow2(8 * lowBytes)
  }

  /** The weighted share of the difference that was moved from the middle channel. */
  function Share(difference: int, shift: nat, weight: nat): int {
    Wrap32(difference * weight) / Pow2(shift)
  }

  datatype Pair = Pair(left: int, right: int)

  /** The deinterlacing step; an int16_t right channel is cut before it is used for the left one. */
  function Unmix(a: int, b: int, shift: nat, weight: nat, wordSize: nat): Pair
    requires wordSize >= 1
  {
    if weight == 0 then Pair(a, b)
    else
      var right := Signed(a - Share(b, shift, weight), wordSize);
      Pair(Signed(right + b, wordSize), right)
  }

  /** What the decoded channels hold before output. */
  datatype Channels =
    | Mono(a: seq<int>, lowA: seq<int>)
    | Stereo(a: seq<int>, b: seq<int>, lowA: seq<int>, lowB: seq<int>, shift: nat, weight: nat)

  function MonoBytes(c: Config, a: int, low: int, lowBytes: nat): (r: seq<Byte>)
    ensures |r| == c.SampleBytes()
  {
    LittleEndian(c.SampleBytes(), if c.sampleSize == 16 then a else Join(a, low, lowBytes))
  }

  function StereoBytes(c: Config, a: int, b: int, lowA: int, lowB: int, lowBytes: nat, shift: nat, weight: nat)
    : (r: seq<Byte>)
    ensures |r| == 2 * c.SampleBytes()
  {
    if c.sampleSize == 16 then
      var p := Unmix(a, b, shift, weight, 16);
      LittleEndian(c.SampleBytes(), p.left) + LittleEndian(c.SampleBytes(), p.right)
    else
      var p := Unmix(a, b, shift, weight, 32);
      LittleEndian(c.SampleBytes(), Join(p.left, lowA, lowBytes))
      + LittleEndian(c.SampleBytes(), Join(p.right, lowB, lowBytes))
  }

  // ----- reading a frame -----

  /** count numbers of the given width, in order. */
  function ReadValues(s: Bits, pos: nat, count: nat, width: nat): (r: Option<(seq<int>, nat)>)
    ensures r.Some? ==> |r.value.0| == count
    decreases count
  {
    if count == 0 then Some(([], pos))
    else
      var (vs, p) :- ReadValues(s, pos, count - 1, width);
      var (v, p') :- Rice.ReadNum(s, p, width);
      Some((vs + [v], p'))
  }

  /** The 16-bit words of a coefficient table, as int16_t. */
  function AsInt16(vs: seq<int>): (r: seq<int>)
    ensures |r| == |vs|
  {
    seq(|vs|, i requires 0 <= i < |vs| => Signed(vs[i], 16))
  }

  datatype Header = Header(kind: nat, quant: nat, riceModifier: nat, coefs: seq<int>)

  function ReadHeader(s: Bits, pos: nat): (r: Option<(Header, nat)>)
    ensures r.Some? ==> |r.value.0.coefs| <= 31
  {
    var (kind, p1) :- Rice.ReadNum(s, pos, 4);
    var (quant, p2) :- Rice.ReadNum(s, p1, 4);
    var (riceModifier, p3) :- Rice.ReadNum(s, p2, 3);
    var (num, p4) :- Rice.ReadNum(s, p3, 5);
    FiveBits(s, p3);
    var (words, p5) :- ReadValues(s, p4, num, 16);
    Some((Header(kind, quant, riceModifier, AsInt16(words)), p5))
  }

  lemma FiveBits(s: Bits, pos: nat)
    ensures Rice.ReadNum(s, pos, 5).Some? ==> Rice.ReadNum(s, pos, 5).value.0 <= 31
  {
    if Rice.ReadNum(s, pos, 5).Some? {
      NumBound(s[pos..pos + 5]);
      assert Pow2(5) == 32;
    }
  }

  /** The parameters for which the decoder's shifts, buffers and count_leading_zeros are defined. */
  predicate Decodable(c: Config, h: Header, size: int) {
    && h.kind == 0
    && 1 <= size <= 32
    && |h.coefs| <= 31
    && c.RiceParams(size, h.riceModifier).Legal()
    && Fir.Order(|h.coefs|, h.quant, size).Legal()
    && (1 <= |h.coefs| <= 30 ==> |h.coefs| < c.maxSamples)
  }

  /** One channel's residuals and samples. */
  function ReadChannel(c: Config, s: Bits, pos: nat, n: nat, h: Header, size: int): (r: Option<(seq<int>, nat)>)
    ensures r.Some? ==> |r.value.0| == n
  {
    if !Decodable(c, h, size) then None
    else
      var (errs, p) :- Rice.DecodeBlock(s, pos, n, c.initialHistory, 0, c.RiceParams(size, h.riceModifier));
      Some((Fir.Decode(Fir.Order(|h.coefs|, h.quant, size), errs, n, h.coefs).outs, p))
  }

  /** The split-off low bytes, if there are any: one value per sample, channels in turn. */
  function ReadLowBytes(s: Bits, pos: nat, count: nat, lowBytes: nat): (r: Option<(seq<int>, nat)>)
    ensures r.Some? ==> |r.value.0| == if lowBytes == 0 then 0 else count
  {
    if lowBytes == 0 then Some(([], pos)) else ReadValues(s, pos, count, 8 * lowBytes)
  }

  /** Every second value, starting at first. */
  function EverySecond(vs: seq<int>, first: nat): (r: seq<int>)
    requires first < 2 && |vs| % 2 == 0
    ensures |r| == |vs| / 2
    ensures forall i :: 0 <= i < |r| ==> r[i] == vs[2 * i + first]
  {
    seq(|vs| / 2, i requires 0 <= i < |vs| / 2 => vs[2 * i + first])
  }

  lemma NoSecond()
    ensures EverySecond([], 0) == [] && EverySecond([], 1) == []
  {
  }

  /** Words read as sampleSize-bit samples. */
  function AsSamples(vs: seq<int>, sampleSize: nat): (r: seq<int>)
    requires sampleSize >= 1
    ensures |r| == |vs|
  {
    seq(|vs|, i requires 0 <= i < |vs| => Signed(vs[i], sampleSize))
  }

  predicate WellFormed(ch: Channels, n: nat, lowBytes: nat) {
    match ch
    case Mono(a, lowA) => |a| == n && |lowA| == (if lowBytes == 0 then 0 else n)
    case Stereo(a, b, lowA, lowB, _, _) =>
      |a| == |b| == n && |lowA| == |lowB| == (if lowBytes == 0 then 0 else n)
  }

  function ReadMono(c: Config, s: Bits, pos: nat, n: nat, lowBytes: nat): (r: Option<Channels>)
    ensures r.Some? ==> WellFormed(r.value, n, lowBytes)
  {
    var (_, p1) :- Rice.ReadNum(s, pos, 8);
    var (_, p2) :- Rice.ReadNum(s, p1, 8);
    var (h, p3) :- ReadHeader(s, p2);
    var (low, p4) :- ReadLowBytes(s, p3, n, lowBytes);
    var (a, _) :- ReadChannel(c, s, p4, n, h, c.sampleSize - 8 * lowBytes);
    Some(Mono(a, low))
  }

  datatype Mixing = Mixing(shift: nat, weight: nat, headerA: Header, headerB: Header, low: seq<int>)

  function ReadMixing(s: Bits, pos: nat, n: nat, lowBytes: nat): (r: Option<(Mixing, nat)>)
    ensures r.Some? ==> |r.value.0.low| == (if lowBytes == 0 then 0 else 2 * n)
  {
    var (shift, p1) :- Rice.ReadNum(s, pos, 8);
    var (weight, p2) :- Rice.ReadNum(s, p1, 8);
    var (ha, p3) :- ReadHeader(s, p2);
    var (hb, p4) :- ReadHeader(s, p3);
    var (low, p5) :- ReadLowBytes(s, p4, 2 * n, lowBytes);
    Some((Mixing(shift, weight, ha, hb, low), p5))
  }

  function Mixed(m: Mixing, a: seq<int>, b: seq<int>, n: nat, lowBytes: nat): (r: Option<Channels>)
    requires |a| == |b| == n && |m.low| == (if lowBytes == 0 then 0 else 2 * n)
    ensures r.Some? ==> WellFormed(r.value, n, lowBytes)
  {
    if m.weight != 0 && m.shift > 31 then None
    else Some(Stereo(a, b, EverySecond(m.low, 0), EverySecond(m.low, 1), m.shift, m.weight))
  }

  function ReadStereo(c: Config, s: Bits, pos: nat, n: nat, lowBytes: nat): (r: Option<Channels>)
    ensures r.Some? ==> WellFormed(r.value, n, lowBytes)
  {
    hide ReadMixing, ReadChannel, Mixed, WellFormed;
    var (m, p) :- ReadMixing(s, pos, n, lowBytes);
    var size := c.sampleSize - 8 * lowBytes + 1;
    var (a, p1) :- ReadChannel(c, s, p, n, m.headerA, size);
    var (b, _) :- ReadChannel(c, s, p1, n, m.headerB, size);
    Mixed(m, a, b, n, lowBytes)
  }

  function ReadRaw(c: Config, s: Bits, pos: nat, n: nat, stereo: bool): (r: Option<Channels>)
    requires c.Valid()
    ensures r.Some? ==> WellFormed(r.value, n, 0)
  {
    if stereo then
      var (vs, _) :- ReadValues(s, pos, 2 * n, c.sampleSize);
      var samples := AsSamples(vs, c.sampleSize);
      Some(Stereo(EverySecond(samples, 0), EverySecond(samples, 1), [], [], 0, 0))
    else
      var (vs, _) :- ReadValues(s, pos, n, c.sampleSize);
      Some(Mono(AsSamples(vs, c.sampleSize), []))
  }

  function ReadChannels(c: Config, s: Bits, pos: nat, n: nat, lowBytes: nat, raw: bool, stereo: bool)
    : (r: Option<Channels>)
    requires c.Valid()
    ensures r.Some? ==> WellFormed(r.value, n, if raw then 0 else lowBytes)
  {
    if raw then ReadRaw(c, s, pos, n, stereo)
    else if stereo then ReadStereo(c, s, pos, n, lowBytes)
    else ReadMono(c, s, pos, n, lowBytes)
  }

  /** The output bytes of each sample frame. */
  function FrameBytes(c: Config, ch: Channels, n: nat, lowBytes: nat): (r: seq<seq<Byte>>)
    requires WellFormed(ch, n, lowBytes)
    ensures |r| == n
  {
    seq(n, i requires 0 <= i < n =>
      match ch
      case Mono(a, lowA) => MonoBytes(c, a[i], if lowBytes == 0 then 0 else lowA[i], lowBytes)
      case Stereo(a, b, lowA, lowB, shift, weight) =>
        StereoBytes(c, a[i], b[i], if lowBytes == 0 then 0 else lowA[i], if lowBytes == 0 then 0 else lowB[i],
                    lowBytes, shift, weight))
  }

  datatype Decoded = Decoded(outputSize: int, frames: seq<seq<Byte>>)

  datatype Preamble = Preamble(hasSize: bool, lowBytes: nat, raw: bool, count: nat)

  function ReadPreamble(c: Config, s: Bits, pos: nat): Option<(Preamble, nat)> {
    var (_, p1) :- Rice.ReadNum(s, pos, 4);
    var (_, p2) :- Rice.ReadNum(s, p1, 12);
    var (hasSize, p3) :- Rice.ReadNum(s, p2, 1);
    var (lowBytes, p4) :- Rice.ReadNum(s, p3, 2);
    var (raw, p5) :- Rice.ReadNum(s, p4, 1);
    if hasSize == 0 then Some((Preamble(false, lowBytes, raw != 0, c.maxSamples), p5))
    else
      var (n, p6) :- Rice.ReadNum(s, p5, 32);
      Some((Preamble(true, lowBytes, raw != 0, n), p6))
  }

  /** The part of a frame behind the channel count. A sample count of its own may be too much for the output. */
  function ReadBody(c: Config, s: Bits, pos: nat, stereo: bool, allocation: int): (r: Option<Decoded>)
    requires c.Valid()
  {
    var (pre, p) :- ReadPreamble(c, s, pos);
    var n := pre.count;
    var outputSize := if pre.hasSize then Wrap32(Wrap32(n) * c.BytesPerSample()) else n * c.BytesPerSample();
    if pre.hasSize && outputSize > allocation then Some(Decoded(0, []))
    else if n == 0 || n > c.maxSamples || c.numChannels < (if stereo then 2 else 1) then None
    else
      var ch :- ReadChannels(c, s, p, n, pre.lowBytes, pre.raw, stereo);
      Some(Decoded(outputSize, FrameBytes(c, ch, n, if pre.raw then 0 else pre.lowBytes)))
  }

  /** What alac_decode_frame computes: the output size it reports and the bytes of each sample frame it writes.
      None where the C code's behaviour is not defined or not modelled. */
  function ReadFrame(c: Config, s: Bits, allocation: int): Option<Decoded>
    requires c.Valid()
  {
    var (channels, p) :- Rice.ReadNum(s, 0, 3);
    if c.maxSamples * c.BytesPerSample() > allocation then Some(Decoded(0, []))
    else if channels == 0 then ReadBody(c, s, p, false, allocation)
    else if channels == 1 then ReadBody(c, s, p, true, allocation)
    else Some(Decoded(c.maxSamples * c.BytesPerSample(), []))
  }

  lemma FewerFrames(n: nat, m: nat, size: nat)
    requires n <= m
    ensures n * size <= m * size
  {
  }

  /** A count that the decoder's buffers can hold gives a size that fits an int32_t. */
  lemma SizeInWord(c: Config, n: nat)
    requires c.Valid() && n <= c.maxSamples
    ensures Wrap32(Wrap32(n) * c.BytesPerSample()) == n * c.BytesPerSample()
  {
    FewerFrames(n, c.maxSamples, c.BytesPerSample());
    AtLeastItself(n, c.BytesPerSample());
    WrapOfInt32(n);
    WrapOfInt32(n * c.BytesPerSample());
  }

  lemma AtLeastItself(n: nat, size: nat)
    requires size >= 1
    ensures n <= n * size
  {
  }

  lemma BodyWithin(c: Config, s: Bits, pos: nat, stereo: bool, allocation: int)
    requires c.Valid() && 0 <= c.maxSamples * c.BytesPerSample() <= allocation
    requires ReadBody(c, s, pos, stereo, allocation).Some?
    ensures
      var d := ReadBody(c, s, pos, stereo, allocation).value;
      && d.outputSize <= allocation && |d.frames| * c.BytesPerSample() <= allocation
      && (d.frames != [] ==> d.outputSize == |d.frames| * c.BytesPerSample())
  {
    hide ReadPreamble, ReadChannels, FrameBytes, Wrap32, Config.BytesPerSample, Config.Valid;
    var n := ReadPreamble(c, s, pos).value.0.count;
    if n <= c.maxSamples {
      FewerFrames(n, c.maxSamples, c.BytesPerSample());
      SizeInWord(c, n);
    }
  }

  /** Whatever the frame claims, the size reported and the sample frames written stay within the caller's allocation. */
  lemma WithinAllocation(c: Config, s: Bits, allocation: int)
    requires c.Valid() && allocation >= 0 && ReadFrame(c, s, allocation).Some?
    ensures
      var d := ReadFrame(c, s, allocation).value;
      && d.outputSize <= allocation && |d.frames| * c.BytesPerSample() <= allocation
      && (d.frames != [] ==> d.outputSize == |d.frames| * c.BytesPerSample())
  {
    hide ReadBody, Rice.ReadNum;
    FewerFrames(0, c.maxSamples, c.BytesPerSample());
    var (channels, p) := Rice.ReadNum(s, 0, 3).value;
    if c.maxSamples * c.BytesPerSample() <= allocation && channels <= 1 {
      BodyWithin(c, s, p, channels == 1, allocation);
    }
  }

  lemma OwnCount(c: Config, s: Bits)
    requires |s| >= 55 && s[19]
    ensures ReadPreamble(c, s, 3).Some? && ReadPreamble(c, s, 3).value.0.hasSize
    ensures ReadPreamble(c, s, 3).value.0.count == Num(s[23..55])
  {
    hide Num;
    OneBit(s, 19);
  }

  lemma OneBit(s: Bits, pos: nat)
    requires pos < |s|
    ensures Num(s[pos..pos + 1]) == if s[pos] then 1 else 0
  {
  }

  /** The frames that are turned down without a sample written: none at all if the caller has no room for the longest,
      those that claim a count too large for it, and those of more than two channels, whose size alone is reported. */
  lemma NothingWritten(c: Config, s: Bits, allocation: int)
    requires c.Valid() && |s| >= 55
    ensures c.maxSamples * c.BytesPerSample() > allocation ==> ReadFrame(c, s, allocation) == Some(Decoded(0, []))
    ensures c.maxSamples * c.BytesPerSample() <= allocation && Num(s[0..3]) >= 2 ==>
              ReadFrame(c, s, allocation) == Some(Decoded(c.maxSamples * c.BytesPerSample(), []))
    ensures c.maxSamples * c.BytesPerSample() <= allocation && Num(s[0..3]) <= 1
            && s[19] && allocation < Num(s[23..55]) * c.BytesPerSample() <= 0x7FFF_FFFF ==>
              ReadFrame(c, s, allocation) == Some(Decoded(0, []))
  {
    hide Num, Wrap32, ReadPreamble, ReadChannels;
    if s[19] {
      OwnCount(c, s);
      if Num(s[23..55]) * c.BytesPerSample() <= 0x7FFF_FFFF {
        AtLeastItself(Num(s[23..55]), c.BytesPerSample());
        WrapOfInt32(Num(s[23..55]));
        WrapOfInt32(Num(s[23..55]) * c.BytesPerSample());
      }
    }
  }
}

/** The specification encoder for whole frames, and the proof that the decoder undoes it. */
module Encoder {
  import opened Words
  import Rice
  import Fir
  import opened Frame

  /** A block of samples with every free choice of the frame header. A mono block has no right channel. */
  datatype Block = Block(stereo: bool, waiting: int, unknown: int, hasSize: bool, lowBytes: nat, raw: bool,
                         shift: nat, weight: nat, headerA: Header, headerB: Header,
                         left: seq<int>, right: seq<int>)

  // ----- splitting and mixing -----

  function High(x: int, lowBytes: nat): int {
    x / Pow2(8 * lowBytes)
  }

  function Low(x: int, lowBytes: nat): int {
    x % Pow2(8 * lowBytes)
  }

  /** The read size of a compressed channel. */
  function ReadSize(c: Config, f: Block): int {
    c.sampleSize - 8 * f.lowBytes + (if f.stereo then 1 else 0)
  }

  /** The two coded channels of one frame, in the read size. */
  function Mix(l: int, r: int, shift: nat, weight: nat, size: nat): (int, int)
    requires size >= 1
  {
    if weight == 0 then (Signed(l, size), Signed(r, size))
    else
      var difference := Signed(l - r, size);
      (Signed(r + Share(difference, shift, weight), size), difference)
  }

  function ChannelA(c: Config, f: Block): (r: seq<int>)
    requires ReadSize(c, f) >= 1 && (f.stereo ==> |f.right| == |f.left|)
    ensures |r| == |f.left|
  {
    seq(|f.left|, i requires 0 <= i < |f.left| =>
      if f.stereo
      then Mix(High(f.left[i], f.lowBytes), High(f.right[i], f.lowBytes), f.shift, f.weight, ReadSize(c, f)).0
      else Signed(High(f.left[i], f.lowBytes), ReadSize(c, f)))
  }

  function ChannelB(c: Config, f: Block): (r: seq<int>)
    requires ReadSize(c, f) >= 1 && |f.right| == |f.left|
    ensures |r| == |f.left|
  {
    seq(|f.left|, i requires 0 <= i < |f.left| =>
      Mix(High(f.left[i], f.lowBytes), High(f.right[i], f.lowBytes), f.shift, f.weight, ReadSize(c, f)).1)
  }

  function Lows(xs: seq<int>, lowBytes: nat): (r: seq<int>)
    ensures |r| == |xs|
  {
    seq(|xs|, i requires 0 <= i < |xs| => Low(xs[i], lowBytes))
  }

  function Interleave(xs: seq<int>, ys: seq<int>): (r: seq<int>)
    requires |xs| == |ys|
    ensures |r| == 2 * |xs|
    ensures forall i :: 0 <= i < |xs| ==> r[2 * i] == xs[i] && r[2 * i + 1] == ys[i]
  {
    if xs == [] then []
    else Interleave(xs[..|xs| - 1], ys[..|xs| - 1]) + [xs[|xs| - 1], ys[|xs| - 1]]
  }

  // ----- bits -----

  /** Numbers written in a fixed width, each cut to it. */
  function EncodeValues(vs: seq<int>, width: nat): (r: Bits)
    ensures |r| == width * |vs|
  {
    if vs == [] then []
    else EncodeValues(vs[..|vs| - 1], width) + BitsOf(width, vs[|vs| - 1])
  }

  function EncodeHeader(h: Header): Bits {
    BitsOf(4, h.kind) + (BitsOf(4, h.quant) + (BitsOf(3, h.riceModifier)
      + (BitsOf(5, |h.coefs|) + EncodeValues(h.coefs, 16))))
  }

  function EncodeLows(vs: seq<int>, lowBytes: nat): Bits {
    if lowBytes == 0 then [] else EncodeValues(vs, 8 * lowBytes)
  }

  function EncodeChannel(c: Config, xs: seq<int>, h: Header, size: nat): Bits
    requires Decodable(c, h, size)
  {
    Rice.EncodeBlock(Fir.Encode(Fir.Order(|h.coefs|, h.quant, size), xs, |xs|, h.coefs).errs,
                     c.initialHistory, 0, c.RiceParams(size, h.riceModifier))
  }

  function EncodePreamble(f: Block): Bits {
    BitsOf(4, f.waiting) + (BitsOf(12, f.unknown) + (BitsOf(1, if f.hasSize then 1 else 0)
      + (BitsOf(2, f.lowBytes) + (BitsOf(1, if f.raw then 1 else 0)
      + (if f.hasSize then BitsOf(32, |f.left|) else [])))))
  }

  function EncodeMono(c: Config, f: Block): Bits
    requires CompressedLegal(c, f) && !f.stereo
  {
    BitsOf(8, f.shift) + (BitsOf(8, f.weight) + (EncodeHeader(f.headerA)
      + (EncodeLows(Lows(f.left, f.lowBytes), f.lowBytes)
      + EncodeChannel(c, ChannelA(c, f), f.headerA, ReadSize(c, f)))))
  }

  function EncodeMixing(f: Block): Bits
    requires |f.left| == |f.right|
  {
    BitsOf(8, f.shift) + (BitsOf(8, f.weight) + (EncodeHeader(f.headerA) + (EncodeHeader(f.headerB)
      + EncodeLows(Interleave(Lows(f.left, f.lowBytes), Lows(f.right, f.lowBytes)), f.lowBytes))))
  }

  function EncodeStereo(c: Config, f: Block): Bits
    requires CompressedLegal(c, f) && f.stereo
  {
    EncodeMixing(f) + (EncodeChannel(c, ChannelA(c, f), f.headerA, ReadSize(c, f))
      + EncodeChannel(c, ChannelB(c, f), f.headerB, ReadSize(c, f)))
  }

  function EncodeRaw(c: Config, f: Block): Bits
    requires f.stereo ==> |f.left| == |f.right|
  {
    EncodeValues(if f.stereo then Interleave(f.left, f.right) else f.left, c.sampleSize)
  }

  /** The whole frame. */
  function EncodeFrame(c: Config, f: Block): Bits
    requires Legal(c, f)
  {
    BitsOf(3, if f.stereo then 1 else 0) + (EncodePreamble(f)
      + (if f.raw then EncodeRaw(c, f) else if f.stereo then EncodeStereo(c, f) else EncodeMono(c, f)))
  }

  // ----- legal choices -----

  predicate HeaderLegal(c: Config, h: Header, size: int) {
    && Decodable(c, h, size)
    && h.quant < 16 && h.riceModifier < 8
    && forall i :: 0 <= i < |h.coefs| ==> -0x8000 <= h.coefs[i] < 0x8000
  }

  /** The shift is only used, and then has to be one of a 32-bit number, where two channels are mixed with a weight. */
  predicate CompressedLegal(c: Config, f: Block) {
    && (f.stereo ==> |f.left| == |f.right|)
    && f.shift <= 255 && f.weight <= 255 && (f.stereo && f.weight != 0 ==> f.shift <= 31)
    && HeaderLegal(c, f.headerA, ReadSize(c, f))
    && (f.stereo ==> HeaderLegal(c, f.headerB, ReadSize(c, f)))
  }

  /** Everything a frame may say: any split that leaves a positive read size, any mixing weight, any coefficients. */
  predicate Legal(c: Config, f: Block) {
    && c.Valid()
    && 1 <= |f.left| <= c.maxSamples && |f.left| <= 0xFFFF
    && (!f.hasSize ==> |f.left| == c.maxSamples)
    && c.numChannels >= (if f.stereo then 2 else 1)
    && |f.right| == (if f.stereo then |f.left| else 0)
    && f.lowBytes <= 3
    && AllFit(f.left, c.sampleSize) && AllFit(f.right, c.sampleSize)
    && (!f.raw ==> CompressedLegal(c, f))
  }
}

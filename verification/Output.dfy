/** From recovered channels to output bytes: the main losslessness theorem. */
module Output {
  import opened Words
  import opened Wrappers
  import opened Frame
  import opened Encoder
  import opened Lossless

  // ----- modular arithmetic of the output step -----

  /** Stored bytes depend on the residue only. */
  lemma {:induction false} LittleEndianResidue(bytes: nat, v: int, w: int)
    requires Congruent(v, w, 8 * bytes)
    ensures LittleEndian(bytes, v) == LittleEndian(bytes, w)
  {
    if bytes > 0 {
      DropByte(v, w, 8 * (bytes - 1));
      LittleEndianResidue(bytes - 1, v / 256, w / 256);
    }
  }

  lemma DropByte(v: int, w: int, n: nat)
    requires Congruent(v, w, n + 8)
    ensures v % 256 == w % 256 && Congruent(v / 256, w / 256, n)
  {
    hide Pow2;
    var c: int :| v == w + c * Pow2(n + 8);
    Pow2Add(n, 8);
    Pow2Values();
    var p := Pow2(n);
    assert c * (p * 256) == (c * p) * 256;
    DivModIdentity(w, 256);
    DivModUnique(v, 256, w / 256 + c * p, w % 256);
    CongruentBy(v / 256, w / 256, n, c);
  }

  lemma CongruentSigned(v: int, size: nat, m: nat)
    requires 1 <= size && m <= size
    ensures Congruent(Signed(v, size), v, m)
  {
    SignedCongruent(v, size);
    CongruentNarrow(Signed(v, size), v, size, m);
  }

  lemma UnmixResidues(l: int, r: int, d: int, share: int, mid: int, right: int, left: int, m: nat)
    requires Congruent(mid, r + share, m) && Congruent(d, l - r, m)
    requires Congruent(right, mid - share, m) && Congruent(left, right + d, m)
    ensures Congruent(left, l, m) && Congruent(right, r, m)
  {
    hide Congruent;
    CongruentRefl(share, m);
    CongruentSum(mid, r + share, share, share, m);
    CongruentTrans(right, mid - share, r, m);
    CongruentSum(right, r, d, l - r, m);
    CongruentTrans(left, right + d, l, m);
  }

  /** What un-mixing computes: the right channel lies below the middle one by the weighted difference over 2^shift,
      rounded down, and the left one above the right by the difference, each in the word it is done in. */
  lemma UnmixExact(mid: int, difference: int, shift: nat, weight: nat, wordSize: nat, left: int, right: int)
    requires wordSize >= 1 && weight != 0 && Fits(difference * weight, 32)
    requires Pow2(shift) * (mid - right) <= difference * weight < Pow2(shift) * (mid - right + 1)
    requires left - right == difference
    ensures Unmix(mid, difference, shift, weight, wordSize) == Pair(Signed(left, wordSize), Signed(right, wordSize))
  {
    hide Signed, Fits, Pow2;
    SignedOfFit(difference * weight, 32);
    var p, q := Pow2(shift), mid - right;
    RoundedDown(difference * weight, p, q);
    var cut := Signed(right, wordSize);
    SignedCongruent(right, wordSize);
    CongruentRefl(difference, wordSize);
    CongruentSum(cut, right, difference, difference, wordSize);
    SignedOfCongruent(cut + difference, left, wordSize);
  }

  lemma RoundedDown(x: int, p: int, q: int)
    requires p >= 1 && p * q <= x < p * (q + 1)
    ensures x / p == q
  {
    DivModUnique(x, p, q, x - p * q);
  }

  /** Un-mixing recovers both channels modulo the narrower of the read size and the word it is done in,
      for every weight and shift. */
  lemma MixBack(l: int, r: int, shift: nat, weight: nat, size: nat, wordSize: nat, m: nat)
    requires 1 <= size && 1 <= wordSize && m <= size && m <= wordSize
    ensures var ab := Mix(l, r, shift, weight, size);
      var p := Unmix(ab.0, ab.1, shift, weight, wordSize);
      Congruent(p.left, l, m) && Congruent(p.right, r, m)
  {
    hide Signed, Congruent, Share;
    if weight == 0 {
      CongruentSigned(l, size, m);
      CongruentSigned(r, size, m);
    } else {
      var d := Signed(l - r, size);
      var share := Share(d, shift, weight);
      var mid := Signed(r + share, size);
      var right := Signed(mid - share, wordSize);
      CongruentSigned(l - r, size, m);
      CongruentSigned(r + share, size, m);
      CongruentSigned(mid - share, wordSize, m);
      CongruentSigned(right + d, wordSize, m);
      UnmixResidues(l, r, d, share, mid, right, Signed(right + d, wordSize), m);
    }
  }

  /** Putting the low bytes back under a high part known modulo the read size. */
  lemma JoinBack(v: int, x: int, lowBytes: nat, size: nat, m: nat)
    requires m <= 32 && m <= size + 8 * lowBytes && Congruent(v, High(x, lowBytes), size)
    ensures Congruent(Join(v, Low(x, lowBytes), lowBytes), x, m)
  {
    hide Pow2, Signed;
    if lowBytes == 0 {
      NoSplit(x);
      CongruentNarrow(v, x, size, m);
    } else {
      var k := 8 * lowBytes;
      var p := Pow2(k);
      var c: int :| v == High(x, lowBytes) + c * Pow2(size);
      DivModIdentity(x, p);
      DivModUnique(Low(x, lowBytes), p, 0, Low(x, lowBytes));
      Pow2Add(size, k);
      ScaleUp(High(x, lowBytes), c, Pow2(size), p);
      CongruentBy(v * p, High(x, lowBytes) * p, size + k, c);
      CongruentNarrow(v * p, High(x, lowBytes) * p, size + k, m);
      CongruentSigned(v * p, 32, m);
      CongruentTrans(Wrap32(v * p), v * p, High(x, lowBytes) * p, m);
      CongruentRefl(Low(x, lowBytes), m);
      CongruentSum(Wrap32(v * p), High(x, lowBytes) * p, Low(x, lowBytes), Low(x, lowBytes), m);
    }
  }

  lemma NoSplit(x: int)
    ensures High(x, 0) == x && Low(x, 0) == 0
  {
    assert Pow2(0) == 1;
  }

  lemma ScaleUp(h: int, c: int, q: int, p: int)
    ensures (h + c * q) * p == h * p + c * (q * p)
  {
  }

  // ----- the theorem -----

  /** The little-endian bytes of the original samples, frame by frame. */
  function SampleFrames(c: Config, f: Block): (r: seq<seq<Byte>>)
    requires f.stereo ==> |f.right| == |f.left|
    ensures |r| == |f.left|
  {
    seq(|f.left|, i requires 0 <= i < |f.left| =>
      LittleEndian(c.SampleBytes(), f.left[i])
      + (if f.stereo then LittleEndian(c.SampleBytes(), f.right[i]) else []))
  }

  /** Whether the output step looks at the split-off bytes: only the 24-bit one does. */
  predicate LowBytesKept(c: Config, f: Block) {
    c.sampleSize == 24 || f.raw || f.lowBytes == 0
  }

  lemma MonoFrame(c: Config, f: Block, i: nat)
    requires Legal(c, f) && !f.stereo && i < |f.left| && LowBytesKept(c, f) && !f.raw
    ensures MonoBytes(c, ChannelA(c, f)[i], if f.lowBytes == 0 then 0 else Low(f.left[i], f.lowBytes), f.lowBytes)
         == LittleEndian(c.SampleBytes(), f.left[i])
  {
    hide Pow2, Signed, AllFit, CompressedLegal, High, Low, Join;
    ReadSizePositive(c, f);
    var x, size := f.left[i], ReadSize(c, f);
    var v := Signed(High(x, f.lowBytes), size);
    CongruentSigned(High(x, f.lowBytes), size, size);
    NoSplit(x);
    if c.sampleSize == 16 {
      LittleEndianResidue(2, v, x);
    } else {
      JoinBack(v, x, f.lowBytes, size, 24);
      LittleEndianResidue(3, Join(v, Low(x, f.lowBytes), f.lowBytes), x);
    }
  }

  lemma StereoFrame(c: Config, f: Block, i: nat)
    requires Legal(c, f) && f.stereo && i < |f.left| && LowBytesKept(c, f) && !f.raw
    ensures StereoBytes(c, ChannelA(c, f)[i], ChannelB(c, f)[i],
                        if f.lowBytes == 0 then 0 else Low(f.left[i], f.lowBytes),
                        if f.lowBytes == 0 then 0 else Low(f.right[i], f.lowBytes), f.lowBytes, f.shift, f.weight)
         == LittleEndian(c.SampleBytes(), f.left[i]) + LittleEndian(c.SampleBytes(), f.right[i])
  {
    hide Pow2, Signed, AllFit, CompressedLegal, High, Low, Join, Mix, Unmix, LittleEndian, Congruent;
    ReadSizePositive(c, f);
    var size := ReadSize(c, f);
    var x, y := f.left[i], f.right[i];
    var l, r := High(x, f.lowBytes), High(y, f.lowBytes);
    var ab := Mix(l, r, f.shift, f.weight, size);
    NoSplit(x);
    NoSplit(y);
    if c.sampleSize == 16 {
      MixBack(l, r, f.shift, f.weight, size, 16, 16);
      var p := Unmix(ab.0, ab.1, f.shift, f.weight, 16);
      LittleEndianResidue(2, p.left, x);
      LittleEndianResidue(2, p.right, y);
    } else {
      MixBack(l, r, f.shift, f.weight, size, 32, size);
      var p := Unmix(ab.0, ab.1, f.shift, f.weight, 32);
      JoinBack(p.left, x, f.lowBytes, size, 24);
      JoinBack(p.right, y, f.lowBytes, size, 24);
      LittleEndianResidue(3, Join(p.left, Low(x, f.lowBytes), f.lowBytes), x);
      LittleEndianResidue(3, Join(p.right, Low(y, f.lowBytes), f.lowBytes), y);
    }
  }

  lemma OutputExact(c: Config, f: Block)
    requires Legal(c, f) && LowBytesKept(c, f)
    requires WellFormed(Coded(c, f), |f.left|, if f.raw then 0 else f.lowBytes)
    ensures FrameBytes(c, Coded(c, f), |f.left|, if f.raw then 0 else f.lowBytes) == SampleFrames(c, f)
  {
    hide MonoBytes, StereoBytes, LittleEndian, AllFit, CompressedLegal, Low, ChannelA, ChannelB;
    var bytes := FrameBytes(c, Coded(c, f), |f.left|, if f.raw then 0 else f.lowBytes);
    forall i | 0 <= i < |f.left| ensures bytes[i] == SampleFrames(c, f)[i] {
      if f.raw {
        RawFrame(c, f, i);
      } else if f.stereo {
        StereoFrame(c, f, i);
      } else {
        MonoFrame(c, f, i);
      }
    }
  }

  lemma RawFrame(c: Config, f: Block, i: nat)
    requires Legal(c, f) && f.raw && i < |f.left|
    ensures MonoBytes(c, f.left[i], 0, 0) == LittleEndian(c.SampleBytes(), f.left[i])
    ensures f.stereo ==>
              StereoBytes(c, f.left[i], f.right[i], 0, 0, 0, 0, 0)
              == LittleEndian(c.SampleBytes(), f.left[i]) + LittleEndian(c.SampleBytes(), f.right[i])
  {
  }

  /** Losslessness of whole frames: for every mono or stereo block of 16- or 24-bit samples and every legal choice of
      header fields, decoding the encoder's frame reports the block's size and yields exactly the original samples. */
  lemma FrameLossless(s: Bits, c: Config, f: Block, allocation: int)
    requires Legal(c, f) && LowBytesKept(c, f) && c.maxSamples * c.BytesPerSample() <= allocation
    requires At(s, 0, EncodeFrame(c, f)) && |EncodeFrame(c, f)| < |s|
    ensures ReadFrame(c, s, allocation) == Some(Decoded(|f.left| * c.BytesPerSample(), SampleFrames(c, f)))
  {
    hide ReadFrame, FrameBytes, SampleFrames, EncodeFrame, Coded, WellFormed, Legal, At;
    FrameRead(s, c, f, allocation);
    OutputExact(c, f);
  }

  /** A frame with everything in it: two weighted channels of 24 bits, with split-off bytes and adaptive prediction. */
  function ExampleConfig(): Config {
    Config(24, 2, 2, 10, 14, 40)
  }

  function ExampleBlock(): Block {
    var h := Header(0, 9, 4, [160]);
    Block(true, 0, 0, true, 1, false, 2, 3, h, h, [0x1_2345, -0x80_0000], [-7, 0x7F_FFFF])
  }

  lemma ExampleLossless(rest: Bits)
    requires rest != []
    ensures Legal(ExampleConfig(), ExampleBlock()) && LowBytesKept(ExampleConfig(), ExampleBlock())
    ensures ReadFrame(ExampleConfig(), EncodeFrame(ExampleConfig(), ExampleBlock()) + rest, 12)
         == Some(Decoded(12, SampleFrames(ExampleConfig(), ExampleBlock())))
  {
    Pow2Values();
    assert Legal(ExampleConfig(), ExampleBlock());
    hide EncodeFrame, ReadFrame, SampleFrames;
    var frame := EncodeFrame(ExampleConfig(), ExampleBlock());
    assert (frame + rest)[0..|frame|] == frame;
    FrameLossless(frame + rest, ExampleConfig(), ExampleBlock(), 12);
  }
}

/** 16-bit frames with split-off bytes: the decoder reads those bytes and never puts them back, and what comes out of it
    is exactly the original on the frames described here. */
module SplitSixteen {
  import opened Words
  import opened Wrappers
  import opened Frame
  import opened Encoder
  import opened Lossless
  import opened Output

  // ----- what the high parts become -----

  /** The mixings whose channels the read size holds exactly. */
  predicate ExactMixing(f: Block) {
    !f.stereo || f.weight == 0 || (f.lowBytes == 1 && f.weight <= Pow2(f.shift))
  }

  /** The only samples that dropping the low bytes does not change. */
  predicate SignBit(x: int) {
    x == 0 || x == -1
  }

  function HighFrames(c: Config, f: Block): (r: seq<seq<Byte>>)
    requires f.stereo ==> |f.right| == |f.left|
    ensures |r| == |f.left|
  {
    seq(|f.left|, i requires 0 <= i < |f.left| =>
      LittleEndian(2, High(f.left[i], f.lowBytes))
      + (if f.stereo then LittleEndian(2, High(f.right[i], f.lowBytes)) else []))
  }

  lemma HighRange(x: int, lowBytes: nat)
    requires -0x8000 <= x < 0x8000
    ensures lowBytes == 1 ==> High(x, 1) == x / 256 && -128 <= High(x, 1) <= 127
    ensures lowBytes == 2 ==> High(x, 2) == x / 0x1_0000 && -1 <= High(x, 2) <= 0
  {
    Pow2Values();
  }

  lemma ShareBetween(d: int, shift: nat, weight: nat)
    requires -255 <= d <= 255 && weight <= 255 && weight <= Pow2(shift)
    ensures if d >= 0 then 0 <= Share(d, shift, weight) <= d else d <= Share(d, shift, weight) <= 0
  {
    hide Wrap32, Pow2;
    MulMonotone(if d >= 0 then d else -d, 255, weight);
    assert -255 * 255 <= d * weight <= 255 * 255;
    WrapOfInt32(d * weight);
    FloorBetween(d, weight, Pow2(shift));
  }

  lemma FloorBetween(d: int, w: int, p: int)
    requires 0 <= w <= p && p >= 1
    ensures if d >= 0 then 0 <= d * w / p <= d else d <= d * w / p <= 0
  {
    var q := d * w / p;
    assert d * w == q * p + d * w % p;
    if d >= 0 {
      MulMonotone(w, p, d);
      MulMonotone(0, d, w);
      if q > d { MulLess(d, q, p); }
      if q < 0 { MulLess(q, 0, p); }
    } else {
      MulMonotone(w, p, -d);
      MulMonotone(0, -d, w);
      if q < d { MulLess(q, d, p); }
      if q > 0 { MulLess(0, q, p); }
    }
  }

  lemma WeightedExact(l: int, r: int, shift: nat, weight: nat)
    requires -128 <= l <= 127 && -128 <= r <= 127 && weight <= 255 && weight <= Pow2(shift)
    ensures var ab := Mix(l, r, shift, weight, 9);
      Unmix(ab.0, ab.1, shift, weight, 16) == Pair(l, r)
  {
    hide Signed, Share;
    Pow2Values();
    SignedOfFit(l, 9);
    SignedOfFit(r, 9);
    if weight != 0 {
      SignedOfFit(l - r, 9);
      ShareBetween(l - r, shift, weight);
      SignedOfFit(r + Share(l - r, shift, weight), 9);
      SignedOfFit(r, 16);
      SignedOfFit(l, 16);
    }
  }

  lemma BasicExact(l: int, r: int, shift: nat, size: nat)
    requires size >= 1 && Fits(l, size) && Fits(r, size)
    ensures var ab := Mix(l, r, shift, 0, size);
      Unmix(ab.0, ab.1, shift, 0, 16) == Pair(l, r)
  {
    hide Signed;
    SignedOfFit(l, size);
    SignedOfFit(r, size);
  }

  predicate SplitSixteen(c: Config, f: Block) {
    Legal(c, f) && c.sampleSize == 16 && !f.raw && f.lowBytes >= 1
  }

  lemma SplitSizes(c: Config, f: Block)
    requires SplitSixteen(c, f)
    ensures if f.lowBytes == 1 then ReadSize(c, f) == (if f.stereo then 9 else 8)
            else f.lowBytes == 2 && f.stereo && ReadSize(c, f) == 1
    ensures f.weight <= 255
  {
  }

  lemma SplitSampleFits(c: Config, f: Block, x: int)
    requires SplitSixteen(c, f) && -0x8000 <= x < 0x8000
    ensures Fits(High(x, f.lowBytes), ReadSize(c, f))
  {
    SplitSizes(c, f);
    HighRange(x, f.lowBytes);
    Pow2Values();
    assert Pow2(0) == 1;
  }

  lemma SplitFrame(c: Config, f: Block, i: nat)
    requires SplitSixteen(c, f) && ExactMixing(f) && i < |f.left|
    requires WellFormed(Coded(c, f), |f.left|, f.lowBytes)
    ensures FrameBytes(c, Coded(c, f), |f.left|, f.lowBytes)[i] == HighFrames(c, f)[i]
  {
    hide LittleEndian, High, Low, Signed, Mix, Unmix, CompressedLegal, Pow2;
    SplitSizes(c, f);
    Pow2Values();
    SplitSampleFits(c, f, f.left[i]);
    if f.stereo {
      SplitSampleFits(c, f, f.right[i]);
      var l, r := High(f.left[i], f.lowBytes), High(f.right[i], f.lowBytes);
      if f.weight == 0 {
        BasicExact(l, r, f.shift, ReadSize(c, f));
      } else {
        HighRange(f.left[i], 1);
        HighRange(f.right[i], 1);
        WeightedExact(l, r, f.shift, f.weight);
      }
    } else {
      SignedOfFit(High(f.left[i], f.lowBytes), ReadSize(c, f));
    }
  }

  lemma LittleEndianInjective(v: int, w: int)
    requires -0x8000 <= v < 0x8000 && -0x8000 <= w < 0x8000 && LittleEndian(2, v) == LittleEndian(2, w)
    ensures v == w
  {
    assert LittleEndian(2, v)[0] == LowByte(v) && LittleEndian(2, w)[0] == LowByte(w);
    assert LittleEndian(2, v)[1] == LittleEndian(1, v / 256)[0] == LowByte(v / 256);
    assert LittleEndian(2, w)[1] == LittleEndian(1, w / 256)[0] == LowByte(w / 256);
    DivModIdentity(v, 256);
    DivModIdentity(w, 256);
    DivModIdentity(v / 256, 256);
    DivModIdentity(w / 256, 256);
  }

  lemma HighEqual(x: int, lowBytes: nat)
    requires -0x8000 <= x < 0x8000 && 1 <= lowBytes <= 2
    ensures LittleEndian(2, High(x, lowBytes)) == LittleEndian(2, x) <==> SignBit(x)
  {
    hide LittleEndian, Pow2;
    HighRange(x, lowBytes);
    if LittleEndian(2, High(x, lowBytes)) == LittleEndian(2, x) {
      LittleEndianInjective(High(x, lowBytes), x);
    }
  }

  lemma FrameEqual(c: Config, f: Block, i: nat)
    requires SplitSixteen(c, f) && i < |f.left|
    ensures HighFrames(c, f)[i] == SampleFrames(c, f)[i]
       <==> SignBit(f.left[i]) && (f.stereo ==> SignBit(f.right[i]))
  {
    hide LittleEndian, High, CompressedLegal, Pow2;
    Pow2Values();
    SplitSizes(c, f);
    HighEqual(f.left[i], f.lowBytes);
    var a, b := HighFrames(c, f)[i], SampleFrames(c, f)[i];
    if !f.stereo {
      assert a == LittleEndian(2, High(f.left[i], f.lowBytes)) && b == LittleEndian(2, f.left[i]);
    } else {
      HighEqual(f.right[i], f.lowBytes);
      assert a[..2] == LittleEndian(2, High(f.left[i], f.lowBytes)) && b[..2] == LittleEndian(2, f.left[i]);
      assert a[2..] == LittleEndian(2, High(f.right[i], f.lowBytes)) && b[2..] == LittleEndian(2, f.right[i]);
    }
  }

  // ----- mixing in too few bits -----

  /** The share of any difference of the high parts stays far inside 32 bits. */
  lemma ShareBound(d: int, shift: nat, weight: nat)
    requires -255 <= d <= 255 && weight <= 255
    ensures Share(d, shift, weight) == d * weight / Pow2(shift)
    ensures -65025 <= Share(d, shift, weight) <= 65025
    ensures d == 0 ==> Share(d, shift, weight) == 0
  {
    hide Wrap32, Pow2;
    MulMonotone(if d >= 0 then d else -d, 255, weight);
    assert -65025 <= d * weight <= 65025;
    WrapOfInt32(d * weight);
    var p := Pow2(shift);
    FloorShrinks(d * weight, p);
  }

  lemma FloorShrinks(x: int, p: int)
    requires p >= 1
    ensures if x >= 0 then 0 <= x / p <= x else x <= x / p < 0
  {
    var q := x / p;
    DivModIdentity(x, p);
    if q > x && x >= 0 {
      MulLess(x, q, p);
      MulMonotone(1, p, x);
    }
    if q < x && x < 0 {
      MulLess(q, x, p);
      MulMonotone(1, p, -x);
    }
  }

  lemma FloorMinus(w: int, p: int)
    requires w >= 1 && p >= 1
    ensures -w <= -w / p <= -1 && (-w / p == -1 <==> w <= p)
  {
    FloorShrinks(-w, p);
    DivModIdentity(-w, p);
    if w <= p {
      DivModUnique(-w, p, -1, p - w);
    }
  }

  /** A difference of one moves at most the weight, and in its own direction. */
  lemma UnitShare(d: int, shift: nat, weight: nat)
    requires -1 <= d <= 1 && 1 <= weight <= 255
    ensures if d >= 0 then 0 <= Share(d, shift, weight) <= 255 else -255 <= Share(d, shift, weight) <= -1
    ensures d == 0 ==> Share(d, shift, weight) == 0
    ensures d == -1 ==> (Share(d, shift, weight) == -1 <==> weight <= Pow2(shift))
  {
    hide Share, Pow2;
    var w: int := weight;
    if d == -1 {
      ShareIs(-1, shift, weight, -w);
      FloorMinus(weight, Pow2(shift));
    } else if d == 1 {
      ShareIs(1, shift, weight, weight);
      FloorShrinks(weight, Pow2(shift));
    } else {
      ShareIs(0, shift, weight, 0);
      FloorShrinks(0, Pow2(shift));
    }
  }

  lemma ShareIs(d: int, shift: nat, weight: nat, product: int)
    requires product == d * weight && -0x8000_0000 <= product < 0x8000_0000
    ensures Share(d, shift, weight) == product / Pow2(shift)
  {
    hide Wrap32, Pow2;
    WrapOfInt32(product);
  }

  /** One split byte, mixed in nine bits: where the un-mixed channels equal the samples, these are sign bits. The left
      channel follows the right one at the distance of the high parts, and samples that close are next to a multiple of
      256. */
  lemma NineBitsOnlySigns(left: int, right: int, shift: nat, weight: nat)
    requires -0x8000 <= left < 0x8000 && -0x8000 <= right < 0x8000 && 1 <= weight <= 255
    requires
      var ab := Mix(left / 256, right / 256, shift, weight, 9);
      Unmix(ab.0, ab.1, shift, weight, 16) == Pair(left, right)
    ensures SignBit(left) && SignBit(right)
  {
    Pow2Values();
    hide Signed, Share, Pow2;
    var l, r := left / 256, right / 256;
    var d := l - r;
    SignedOfFit(d, 9);
    var share := Share(d, shift, weight);
    ShareBound(d, shift, weight);
    var a := Signed(r + share, 9);
    SignedCongruent(r + share, 9);
    var j: int :| a == r + share + j * 512;
    SignedCongruent(a - share, 16);
    var u: int :| right == a - share + u * 0x1_0000;
    SignedCongruent(right + d, 16);
    var t: int :| left == right + d + t * 0x1_0000;
    CloseSamples(left, right, j, u, t);
    if d == 0 {
      SignedOfFit(r, 9);
      SignedOfFit(r, 16);
    }
  }

  /** The arithmetic of it. */
  lemma CloseSamples(left: int, right: int, j: int, u: int, t: int)
    requires -0x8000 <= left < 0x8000 && -0x8000 <= right < 0x8000
    requires right == right / 256 + j * 512 + u * 0x1_0000
    requires left == right + left / 256 - right / 256 + t * 0x1_0000
    ensures left / 256 == right / 256 || (SignBit(left) && SignBit(right))
  {
    var l, r, x, y := left / 256, right / 256, left % 256, right % 256;
    assert left == 256 * l + x && right == 256 * r + y;
    assert 255 * (l - r) + (x - y) == 0x1_0000 * t;
    assert t == 0;
    assert -1 <= l - r <= 1;
    var k := j + 128 * u;
    assert 255 * r + y == 512 * k;
    if l - r == 1 {
      assert y == 255 && x == 0;
      assert 255 * (r + 1) == 512 * k;
      assert r + 1 == 2 * k;
    } else if l - r == -1 {
      assert x == 255 && y == 0;
      assert r == 2 * k;
    }
  }

  lemma NineBitsExact(left: int, right: int, shift: nat, weight: nat)
    requires SignBit(left) && SignBit(right) && 1 <= weight <= 255
    ensures
      var ab := Mix(left / 256, right / 256, shift, weight, 9);
      Unmix(ab.0, ab.1, shift, weight, 16) == Pair(left, right)
  {
    Pow2Values();
    hide Signed, Share, Pow2;
    assert left / 256 == left && right / 256 == right;
    var d := left - right;
    SignedOfFit(d, 9);
    UnitShare(d, shift, weight);
    SignedOfFit(right + Share(d, shift, weight), 9);
    SignedOfFit(right, 16);
    SignedOfFit(left, 16);
  }

  /** One bit holds nothing but a sign. */
  lemma OneBit(v: int)
    ensures Signed(v, 1) == if v % 2 == 0 then 0 else -1
  {
    assert Pow2(0) == 1 && Pow2(1) == 2;
  }

  /** Two split bytes, mixed in one bit: equal channels come back, and of different ones only -1 and 0 with a weight
      that is at most the unit. */
  predicate OneBitMixing(left: int, right: int, shift: nat, weight: nat) {
    left == right || (left == -1 && right == 0 && weight <= Pow2(shift))
  }

  lemma OneBitMixed(left: int, right: int, shift: nat, weight: nat)
    requires -0x8000 <= left < 0x8000 && -0x8000 <= right < 0x8000 && 1 <= weight <= 255
    ensures
      var ab := Mix(left / 0x1_0000, right / 0x1_0000, shift, weight, 1);
      Unmix(ab.0, ab.1, shift, weight, 16) == Pair(left, right)
      <==> SignBit(left) && SignBit(right) && OneBitMixing(left, right, shift, weight)
  {
    Pow2Values();
    hide Signed, Share, Pow2;
    var l, r := left / 0x1_0000, right / 0x1_0000;
    assert SignBit(l) && SignBit(r) && (l == 0 <==> left >= 0) && (r == 0 <==> right >= 0);
    var d := Signed(l - r, 1);
    OneBit(l - r);
    UnitShare(d, shift, weight);
    var share := Share(d, shift, weight);
    var a := Signed(r + share, 1);
    OneBit(r + share);
    SignedOfFit(a - share, 16);
    SignedOfFit(a - share + d, 16);
  }

  // ----- the theorem -----

  /** What the mixing leaves of one frame: with two split bytes and a weight, one bit has to hold the difference. */
  predicate MixingKept(f: Block, i: nat)
    requires i < |f.left| && (f.stereo ==> i < |f.right|)
  {
    f.stereo && f.weight != 0 && f.lowBytes == 2 ==> OneBitMixing(f.left[i], f.right[i], f.shift, f.weight)
  }

  predicate FrameComesBack(f: Block, i: nat)
    requires i < |f.left| && (f.stereo ==> i < |f.right|)
  {
    SignBit(f.left[i]) && (f.stereo ==> SignBit(f.right[i])) && MixingKept(f, i)
  }

  /** A weighted frame. */
  lemma WeightedFrame(c: Config, f: Block, i: nat)
    requires SplitSixteen(c, f) && f.stereo && f.weight != 0 && i < |f.left|
    requires WellFormed(Coded(c, f), |f.left|, f.lowBytes)
    ensures FrameBytes(c, Coded(c, f), |f.left|, f.lowBytes)[i] == SampleFrames(c, f)[i] <==> FrameComesBack(f, i)
  {
    Pow2Values();
    hide LittleEndian, Signed, Mix, Unmix, CompressedLegal, Pow2, OneBitMixing, SignBit;
    SplitSizes(c, f);
    var left, right, k := f.left[i], f.right[i], ReadSize(c, f);
    var ab := Mix(High(left, f.lowBytes), High(right, f.lowBytes), f.shift, f.weight, k);
    var p := Unmix(ab.0, ab.1, f.shift, f.weight, 16);
    if f.lowBytes == 1 {
      if p == Pair(left, right) {
        NineBitsOnlySigns(left, right, f.shift, f.weight);
      }
      if SignBit(left) && SignBit(right) {
        NineBitsExact(left, right, f.shift, f.weight);
      }
    } else {
      OneBitMixed(left, right, f.shift, f.weight);
    }
    UnmixRange(ab.0, ab.1, f.shift, f.weight);
    PairBytes(p, left, right);
  }

  lemma UnmixRange(a: int, b: int, shift: nat, weight: nat)
    requires weight != 0
    ensures -0x8000 <= Unmix(a, b, shift, weight, 16).left < 0x8000
    ensures -0x8000 <= Unmix(a, b, shift, weight, 16).right < 0x8000
  {
    hide Share;
    Pow2Values();
  }

  lemma PairBytes(p: Pair, left: int, right: int)
    requires -0x8000 <= p.left < 0x8000 && -0x8000 <= p.right < 0x8000
    requires -0x8000 <= left < 0x8000 && -0x8000 <= right < 0x8000
    ensures LittleEndian(2, p.left) + LittleEndian(2, p.right) == LittleEndian(2, left) + LittleEndian(2, right)
       <==> p == Pair(left, right)
  {
    hide LittleEndian;
    var x, y := LittleEndian(2, p.left) + LittleEndian(2, p.right), LittleEndian(2, left) + LittleEndian(2, right);
    assert x[..2] == LittleEndian(2, p.left) && x[2..] == LittleEndian(2, p.right);
    assert y[..2] == LittleEndian(2, left) && y[2..] == LittleEndian(2, right);
    if x == y {
      LittleEndianInjective(p.left, left);
      LittleEndianInjective(p.right, right);
    }
  }

  lemma AnyFrame(c: Config, f: Block, i: nat)
    requires SplitSixteen(c, f) && i < |f.left|
    requires WellFormed(Coded(c, f), |f.left|, f.lowBytes)
    ensures FrameBytes(c, Coded(c, f), |f.left|, f.lowBytes)[i] == SampleFrames(c, f)[i] <==> FrameComesBack(f, i)
  {
    hide FrameBytes, Coded, SampleFrames, CompressedLegal, WellFormed;
    if f.stereo && f.weight != 0 {
      WeightedFrame(c, f, i);
    } else {
      SplitFrame(c, f, i);
      FrameEqual(c, f, i);
    }
  }

  /** A 16-bit frame with split-off bytes comes back exactly if every sample is 0 or -1 and, where two bytes are
      split off and the channels are mixed with a weight, its two samples are equal or are -1 and 0 with a weight of
      at most 2^shift. */
  lemma SixteenBitSplitLossy(s: Bits, c: Config, f: Block, allocation: int)
    requires SplitSixteen(c, f) && c.maxSamples * c.BytesPerSample() <= allocation
    requires At(s, 0, EncodeFrame(c, f)) && |EncodeFrame(c, f)| < |s|
    ensures ReadFrame(c, s, allocation) == Some(Decoded(|f.left| * c.BytesPerSample(), SampleFrames(c, f)))
       <==> forall i: nat :: i < |f.left| ==> FrameComesBack(f, i)
  {
    hide ReadFrame, FrameBytes, SampleFrames, EncodeFrame, Coded, WellFormed, CompressedLegal, At, FrameComesBack;
    FrameRead(s, c, f, allocation);
    var frames := FrameBytes(c, Coded(c, f), |f.left|, f.lowBytes);
    forall i: nat | i < |f.left|
      ensures frames[i] == SampleFrames(c, f)[i] <==> FrameComesBack(f, i)
    {
      AnyFrame(c, f, i);
    }
    if forall i: nat :: i < |f.left| ==> FrameComesBack(f, i) {
      assert frames == SampleFrames(c, f);
    }
  }

  /** Where the mixing is exact, the samples' high parts come out. */
  lemma HighPartsOut(s: Bits, c: Config, f: Block, allocation: int)
    requires SplitSixteen(c, f) && ExactMixing(f) && c.maxSamples * c.BytesPerSample() <= allocation
    requires At(s, 0, EncodeFrame(c, f)) && |EncodeFrame(c, f)| < |s|
    ensures ReadFrame(c, s, allocation) == Some(Decoded(|f.left| * c.BytesPerSample(), HighFrames(c, f)))
  {
    hide ReadFrame, FrameBytes, HighFrames, EncodeFrame, Coded, WellFormed, CompressedLegal, At;
    FrameRead(s, c, f, allocation);
    forall i | 0 <= i < |f.left|
      ensures FrameBytes(c, Coded(c, f), |f.left|, f.lowBytes)[i] == HighFrames(c, f)[i]
    {
      SplitFrame(c, f, i);
    }
    assert FrameBytes(c, Coded(c, f), |f.left|, f.lowBytes) == HighFrames(c, f);
  }

  // ----- a frame of sign bits that does not come back -----

  function SignsConfig(): Config {
    Config(16, 1, 2, 10, 14, 40)
  }

  /** One frame, 0 and -1, two split bytes, weight 1. */
  function SignsBlock(): Block {
    var h := Header(0, 9, 4, []);
    Block(true, 0, 0, false, 2, false, 0, 1, h, h, [0], [-1])
  }

  lemma SignsLegal()
    ensures SplitSixteen(SignsConfig(), SignsBlock())
  {
    Pow2Values();
  }

  /** Sign bits alone are not enough: with whatever bits follow, this frame does not come back. */
  lemma SignsNotEnough(rest: Bits)
    requires rest != []
    ensures SplitSixteen(SignsConfig(), SignsBlock())
    ensures SignBit(SignsBlock().left[0]) && SignBit(SignsBlock().right[0])
    ensures
      var s := EncodeFrame(SignsConfig(), SignsBlock()) + rest;
      && At(s, 0, EncodeFrame(SignsConfig(), SignsBlock()))
      && ReadFrame(SignsConfig(), s, 4) != Some(Decoded(4, SampleFrames(SignsConfig(), SignsBlock())))
  {
    SignsLegal();
    hide EncodeFrame, ReadFrame, SampleFrames;
    var s := EncodeFrame(SignsConfig(), SignsBlock()) + rest;
    assert s[0..|EncodeFrame(SignsConfig(), SignsBlock())|] == EncodeFrame(SignsConfig(), SignsBlock());
    SixteenBitSplitLossy(s, SignsConfig(), SignsBlock(), 4);
    assert !FrameComesBack(SignsBlock(), 0);
  }
}

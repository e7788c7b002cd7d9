/** Decoding the specification encoder's frame writes exactly the original samples. */
module Lossless {
  import opened Words
  import opened Wrappers
  import Rice
  import Fir
  import opened Frame
  import opened Encoder

  // ----- fields -----

  lemma NumRead(s: Bits, pos: nat, n: nat, v: int)
    requires At(s, pos, BitsOf(n, v))
    ensures Rice.ReadNum(s, pos, n) == Some((v % Pow2(n), pos + n))
  {
    hide BitsOf, Num, Pow2;
    BitsOfResidue(n, v);
  }

  lemma FieldRead(s: Bits, pos: nat, n: nat, v: int)
    requires At(s, pos, BitsOf(n, v)) && 0 <= v < Pow2(n)
    ensures Rice.ReadNum(s, pos, n) == Some((v, pos + n))
  {
    hide BitsOf, Num, Pow2;
    NumRead(s, pos, n, v);
    DivModUnique(v, Pow2(n), 0, v);
  }

  function Residues(vs: seq<int>, width: nat): (r: seq<int>)
    ensures |r| == |vs|
  {
    seq(|vs|, i requires 0 <= i < |vs| => vs[i] % Pow2(width))
  }

  lemma {:induction false} ValuesRead(s: Bits, pos: nat, vs: seq<int>, width: nat)
    requires At(s, pos, EncodeValues(vs, width))
    ensures ReadValues(s, pos, |vs|, width) == Some((Residues(vs, width), pos + width * |vs|))
    decreases |vs|
  {
    hide BitsOf, Num, Pow2, Rice.ReadNum, At;
    if vs != [] {
      var n := |vs| - 1;
      AtConcat(s, pos, EncodeValues(vs[..n], width), BitsOf(width, vs[n]));
      ValuesRead(s, pos, vs[..n], width);
      NumRead(s, pos + width * n, width, vs[n]);
      assert Residues(vs, width) == Residues(vs[..n], width) + [vs[n] % Pow2(width)];
      assert width * n + width == width * |vs|;
    }
  }

  lemma WordsBack(vs: seq<int>, width: nat)
    requires width >= 1 && AllFit(vs, width)
    ensures forall i :: 0 <= i < |vs| ==> Signed(vs[i] % Pow2(width), width) == vs[i]
  {
    hide Pow2, Signed;
    forall i | 0 <= i < |vs| ensures Signed(vs[i] % Pow2(width), width) == vs[i] {
      ResidueBack(vs[i], width);
    }
  }

  lemma ResidueBack(v: int, width: nat)
    requires width >= 1 && Fits(v, width)
    ensures Signed(v % Pow2(width), width) == v
  {
    hide Pow2, Signed;
    DivModIdentity(v, Pow2(width));
    var q := v / Pow2(width);
    assert -q * Pow2(width) == -(q * Pow2(width));
    CongruentBy(v % Pow2(width), v, width, -q);
    SignedUnique(v % Pow2(width), v, width);
  }

  lemma HeaderRead(s: Bits, pos: nat, c: Config, h: Header, size: int)
    requires HeaderLegal(c, h, size) && At(s, pos, EncodeHeader(h))
    ensures ReadHeader(s, pos) == Some((h, pos + |EncodeHeader(h)|))
  {
    hide BitsOf, Rice.ReadNum, At, ReadValues, EncodeValues, Signed;
    var v5 := EncodeValues(h.coefs, 16);
    var v4 := BitsOf(5, |h.coefs|) + v5;
    var v3 := BitsOf(3, h.riceModifier) + v4;
    var v2 := BitsOf(4, h.quant) + v3;
    AtConcat(s, pos, BitsOf(4, h.kind), v2);
    AtConcat(s, pos + 4, BitsOf(4, h.quant), v3);
    AtConcat(s, pos + 8, BitsOf(3, h.riceModifier), v4);
    AtConcat(s, pos + 11, BitsOf(5, |h.coefs|), v5);
    SmallPowers();
    FieldRead(s, pos, 4, h.kind);
    FieldRead(s, pos + 4, 4, h.quant);
    FieldRead(s, pos + 8, 3, h.riceModifier);
    FieldRead(s, pos + 11, 5, |h.coefs|);
    ValuesRead(s, pos + 16, h.coefs, 16);
    Pow2Values();
    WordsBack(h.coefs, 16);
    assert AsInt16(Residues(h.coefs, 16)) == h.coefs;
  }

  lemma SmallPowers()
    ensures Pow2(1) == 2 && Pow2(2) == 4 && Pow2(3) == 8 && Pow2(4) == 16 && Pow2(5) == 32
  {
  }

  lemma PreambleRead(s: Bits, pos: nat, c: Config, f: Block)
    requires Legal(c, f) && At(s, pos, EncodePreamble(f))
    ensures ReadPreamble(c, s, pos)
         == Some((Preamble(f.hasSize, f.lowBytes, f.raw, |f.left|), pos + |EncodePreamble(f)|))
  {
    hide BitsOf, Rice.ReadNum, At, AllFit, CompressedLegal, Pow2;
    var hasSize, raw := (if f.hasSize then 1 else 0), (if f.raw then 1 else 0);
    var v6 := if f.hasSize then BitsOf(32, |f.left|) else [];
    var v5 := BitsOf(1, raw) + v6;
    var v4 := BitsOf(2, f.lowBytes) + v5;
    var v3 := BitsOf(1, hasSize) + v4;
    var v2 := BitsOf(12, f.unknown) + v3;
    AtConcat(s, pos, BitsOf(4, f.waiting), v2);
    AtConcat(s, pos + 4, BitsOf(12, f.unknown), v3);
    AtConcat(s, pos + 16, BitsOf(1, hasSize), v4);
    AtConcat(s, pos + 17, BitsOf(2, f.lowBytes), v5);
    AtConcat(s, pos + 19, BitsOf(1, raw), v6);
    SmallPowers();
    NumRead(s, pos, 4, f.waiting);
    NumRead(s, pos + 4, 12, f.unknown);
    FieldRead(s, pos + 16, 1, hasSize);
    FieldRead(s, pos + 17, 2, f.lowBytes);
    FieldRead(s, pos + 19, 1, raw);
    if f.hasSize {
      Pow2Values();
      FieldRead(s, pos + 20, 32, |f.left|);
    }
  }

  // ----- channels -----

  /** Entropy coder and predictor together: a channel's samples come back. */
  lemma ChannelRead(s: Bits, pos: nat, c: Config, xs: seq<int>, h: Header, size: nat)
    requires Decodable(c, h, size) && 1 <= |xs| <= 0xFFFF && AllFit(xs, size)
    requires At(s, pos, EncodeChannel(c, xs, h, size)) && pos + |EncodeChannel(c, xs, h, size)| < |s|
    ensures ReadChannel(c, s, pos, |xs|, h, size) == Some((xs, pos + |EncodeChannel(c, xs, h, size)|))
  {
    hide At, Fits, Rice.DecodeBlock, Rice.EncodeBlock, Fir.Encode, Fir.Decode;
    var o := Fir.Order(|h.coefs|, h.quant, size);
    var errs := Fir.Encode(o, xs, |xs|, h.coefs).errs;
    Fir.ResidualsFit(o, xs, |xs|, h.coefs);
    Rice.BlockRoundTrip(s, pos, errs, c.initialHistory, 0, c.RiceParams(size, h.riceModifier));
    assert errs[..|xs|] == errs;
    Fir.LockStep(o, xs, errs, |xs|, h.coefs);
    assert xs[..|xs|] == xs;
  }

  lemma LowBytesRead(s: Bits, pos: nat, vs: seq<int>, lowBytes: nat)
    requires At(s, pos, EncodeLows(vs, lowBytes))
    ensures ReadLowBytes(s, pos, |vs|, lowBytes)
         == Some((if lowBytes == 0 then [] else Residues(vs, 8 * lowBytes), pos + |EncodeLows(vs, lowBytes)|))
  {
    hide At, ReadValues, EncodeValues, Residues;
    if lowBytes != 0 {
      ValuesRead(s, pos, vs, 8 * lowBytes);
    }
  }

  lemma ChannelsFit(c: Config, f: Block)
    requires ReadSize(c, f) >= 1 && (f.stereo ==> |f.right| == |f.left|)
    ensures AllFit(ChannelA(c, f), ReadSize(c, f))
    ensures f.stereo ==> AllFit(ChannelB(c, f), ReadSize(c, f))
  {
    hide Signed, Share, High;
  }

  lemma LowsBack(xs: seq<int>, lowBytes: nat)
    ensures Residues(Lows(xs, lowBytes), 8 * lowBytes) == Lows(xs, lowBytes)
  {
    hide Pow2;
    forall i | 0 <= i < |xs| ensures Low(xs[i], lowBytes) % Pow2(8 * lowBytes) == Low(xs[i], lowBytes) {
      DivModIdentity(xs[i], Pow2(8 * lowBytes));
      DivModUnique(Low(xs[i], lowBytes), Pow2(8 * lowBytes), 0, Low(xs[i], lowBytes));
    }
  }

  lemma InterleaveBack(xs: seq<int>, ys: seq<int>)
    requires |xs| == |ys|
    ensures EverySecond(Interleave(xs, ys), 0) == xs && EverySecond(Interleave(xs, ys), 1) == ys
  {
  }

  lemma InterleavedLowsBack(xs: seq<int>, ys: seq<int>, lowBytes: nat)
    requires |xs| == |ys|
    ensures Residues(Interleave(Lows(xs, lowBytes), Lows(ys, lowBytes)), 8 * lowBytes)
         == Interleave(Lows(xs, lowBytes), Lows(ys, lowBytes))
  {
    hide Pow2, Low;
    LowsBack(xs, lowBytes);
    LowsBack(ys, lowBytes);
    var l, r := Lows(xs, lowBytes), Lows(ys, lowBytes);
    var vs := Interleave(l, r);
    forall k | 0 <= k < |vs| ensures vs[k] % Pow2(8 * lowBytes) == vs[k] {
      var i := k / 2;
      assert Residues(l, 8 * lowBytes)[i] == l[i] && Residues(r, 8 * lowBytes)[i] == r[i];
      assert k == 2 * i || k == 2 * i + 1;
    }
  }

  /** What the decoder should hold once the entropy coder and the predictor are undone. */
  function Coded(c: Config, f: Block): Channels
    requires Legal(c, f)
  {
    if f.raw then
      if f.stereo then Stereo(f.left, f.right, [], [], 0, 0) else Mono(f.left, [])
    else
      var lowA := if f.lowBytes == 0 then [] else Lows(f.left, f.lowBytes);
      var lowB := if f.lowBytes == 0 then [] else Lows(f.right, f.lowBytes);
      if f.stereo then Stereo(ChannelA(c, f), ChannelB(c, f), lowA, lowB, f.shift, f.weight)
      else Mono(ChannelA(c, f), lowA)
  }

  lemma ReadSizePositive(c: Config, f: Block)
    requires Legal(c, f) && !f.raw
    ensures 1 <= ReadSize(c, f) <= 32
  {
  }

  lemma MonoRead(s: Bits, pos: nat, c: Config, f: Block)
    requires Legal(c, f) && !f.raw && !f.stereo
    requires At(s, pos, EncodeMono(c, f)) && pos + |EncodeMono(c, f)| < |s|
    ensures ReadMono(c, s, pos, |f.left|, f.lowBytes) == Some(Coded(c, f))
  {
    hide BitsOf, Rice.ReadNum, At, EncodeHeader, EncodeChannel, EncodeLows, ChannelA, Lows, ReadHeader, ReadChannel,
      ReadLowBytes, Residues, Decodable, AllFit, Pow2;
    var size := ReadSize(c, f);
    ReadSizePositive(c, f);
    var xs, lows := ChannelA(c, f), Lows(f.left, f.lowBytes);
    var v5 := EncodeChannel(c, xs, f.headerA, size);
    var v4 := EncodeLows(lows, f.lowBytes) + v5;
    var v3 := EncodeHeader(f.headerA) + v4;
    var v2 := BitsOf(8, f.weight) + v3;
    AtConcat(s, pos, BitsOf(8, f.shift), v2);
    AtConcat(s, pos + 8, BitsOf(8, f.weight), v3);
    AtConcat(s, pos + 16, EncodeHeader(f.headerA), v4);
    var pos4 := pos + 16 + |EncodeHeader(f.headerA)|;
    AtConcat(s, pos4, EncodeLows(lows, f.lowBytes), v5);
    NumRead(s, pos, 8, f.shift);
    NumRead(s, pos + 8, 8, f.weight);
    HeaderRead(s, pos + 16, c, f.headerA, size);
    LowBytesRead(s, pos4, lows, f.lowBytes);
    LowsBack(f.left, f.lowBytes);
    ChannelsFit(c, f);
    ChannelRead(s, pos4 + |EncodeLows(lows, f.lowBytes)|, c, xs, f.headerA, size);
  }

  lemma MixingRead(s: Bits, pos: nat, c: Config, f: Block)
    requires Legal(c, f) && !f.raw && f.stereo
    requires At(s, pos, EncodeMixing(f))
    ensures ReadMixing(s, pos, |f.left|, f.lowBytes)
         == Some((Mixing(f.shift, f.weight, f.headerA, f.headerB,
                         if f.lowBytes == 0 then []
                         else Interleave(Lows(f.left, f.lowBytes), Lows(f.right, f.lowBytes))),
                  pos + |EncodeMixing(f)|))
  {
    hide BitsOf, Rice.ReadNum, At, EncodeHeader, EncodeLows, Lows, ReadHeader, Interleave,
      ReadLowBytes, Residues, Decodable, AllFit, Pow2;
    var lows := Interleave(Lows(f.left, f.lowBytes), Lows(f.right, f.lowBytes));
    var v5 := EncodeLows(lows, f.lowBytes);
    var v4 := EncodeHeader(f.headerB) + v5;
    var v3 := EncodeHeader(f.headerA) + v4;
    var v2 := BitsOf(8, f.weight) + v3;
    AtConcat(s, pos, BitsOf(8, f.shift), v2);
    AtConcat(s, pos + 8, BitsOf(8, f.weight), v3);
    AtConcat(s, pos + 16, EncodeHeader(f.headerA), v4);
    var pos3 := pos + 16 + |EncodeHeader(f.headerA)|;
    AtConcat(s, pos3, EncodeHeader(f.headerB), v5);
    Pow2Values();
    FieldRead(s, pos, 8, f.shift);
    FieldRead(s, pos + 8, 8, f.weight);
    HeaderRead(s, pos + 16, c, f.headerA, ReadSize(c, f));
    HeaderRead(s, pos3, c, f.headerB, ReadSize(c, f));
    LowBytesRead(s, pos3 + |EncodeHeader(f.headerB)|, lows, f.lowBytes);
    InterleavedLowsBack(f.left, f.right, f.lowBytes);
  }

  lemma StereoRead(s: Bits, pos: nat, c: Config, f: Block)
    requires Legal(c, f) && !f.raw && f.stereo
    requires At(s, pos, EncodeStereo(c, f)) && pos + |EncodeStereo(c, f)| < |s|
    ensures ReadStereo(c, s, pos, |f.left|, f.lowBytes) == Some(Coded(c, f))
  {
    hide At, EncodeMixing, EncodeChannel, ChannelA, ChannelB, Lows, ReadMixing, ReadChannel,
      Decodable, AllFit, Pow2, Interleave, EverySecond;
    var size := ReadSize(c, f);
    ReadSizePositive(c, f);
    var xa, xb := ChannelA(c, f), ChannelB(c, f);
    var ea, eb := EncodeChannel(c, xa, f.headerA, size), EncodeChannel(c, xb, f.headerB, size);
    AtConcat(s, pos, EncodeMixing(f), ea + eb);
    AtConcat(s, pos + |EncodeMixing(f)|, ea, eb);
    MixingRead(s, pos, c, f);
    ChannelsFit(c, f);
    ChannelRead(s, pos + |EncodeMixing(f)|, c, xa, f.headerA, size);
    ChannelRead(s, pos + |EncodeMixing(f)| + |ea|, c, xb, f.headerB, size);
    InterleaveBack(Lows(f.left, f.lowBytes), Lows(f.right, f.lowBytes));
    InterleaveBack([], []);
    NoSecond();
  }

  lemma RawRead(s: Bits, pos: nat, c: Config, f: Block)
    requires Legal(c, f) && f.raw && At(s, pos, EncodeRaw(c, f))
    ensures ReadRaw(c, s, pos, |f.left|, f.stereo) == Some(Coded(c, f))
  {
    hide At, ReadValues, EncodeValues, Signed, Pow2, Interleave;
    var vs := if f.stereo then Interleave(f.left, f.right) else f.left;
    ValuesRead(s, pos, vs, c.sampleSize);
    WordsBack(f.left, c.sampleSize);
    WordsBack(f.right, c.sampleSize);
    assert AsSamples(Residues(f.left, c.sampleSize), c.sampleSize) == f.left;
    if f.stereo {
      InterleavedSamplesBack(f.left, f.right, c.sampleSize);
      InterleaveBack(f.left, f.right);
    }
  }

  lemma InterleavedSamplesBack(xs: seq<int>, ys: seq<int>, size: nat)
    requires |xs| == |ys| && size >= 1 && AllFit(xs, size) && AllFit(ys, size)
    ensures AsSamples(Residues(Interleave(xs, ys), size), size) == Interleave(xs, ys)
  {
    hide Pow2, Signed, AllFit;
    WordsBack(xs, size);
    WordsBack(ys, size);
    var vs := Interleave(xs, ys);
    forall k | 0 <= k < |vs| ensures Signed(vs[k] % Pow2(size), size) == vs[k] {
      var i := k / 2;
      assert k == 2 * i || k == 2 * i + 1;
      assert Signed(xs[i] % Pow2(size), size) == xs[i] && Signed(ys[i] % Pow2(size), size) == ys[i];
    }
  }

  /** Everything behind the bit stream is recovered: the decoder's channels are the encoder's. */
  lemma FrameRead(s: Bits, c: Config, f: Block, allocation: int)
    requires Legal(c, f) && c.maxSamples * c.BytesPerSample() <= allocation
    requires At(s, 0, EncodeFrame(c, f)) && |EncodeFrame(c, f)| < |s|
    ensures WellFormed(Coded(c, f), |f.left|, if f.raw then 0 else f.lowBytes)
    ensures ReadFrame(c, s, allocation)
         == Some(Decoded(|f.left| * c.BytesPerSample(),
                         FrameBytes(c, Coded(c, f), |f.left|, if f.raw then 0 else f.lowBytes)))
  {
    hide BitsOf, Rice.ReadNum, At, EncodePreamble, EncodeRaw, EncodeStereo, EncodeMono, ReadPreamble, ReadRaw,
      ReadStereo, ReadMono, FrameBytes, AllFit, CompressedLegal, Pow2;
    var body := if f.raw then EncodeRaw(c, f) else if f.stereo then EncodeStereo(c, f) else EncodeMono(c, f);
    AtConcat(s, 0, BitsOf(3, if f.stereo then 1 else 0), EncodePreamble(f) + body);
    AtConcat(s, 3, EncodePreamble(f), body);
    var pos := 3 + |EncodePreamble(f)|;
    SmallPowers();
    FieldRead(s, 0, 3, if f.stereo then 1 else 0);
    PreambleRead(s, 3, c, f);
    if f.raw {
      RawRead(s, pos, c, f);
    } else if f.stereo {
      StereoRead(s, pos, c, f);
    } else {
      MonoRead(s, pos, c, f);
    }
    SizeFits(c, |f.left|);
  }

  lemma SizeFits(c: Config, n: nat)
    requires c.Valid() && n <= c.maxSamples
    ensures Wrap32(Wrap32(n) * c.BytesPerSample()) == n * c.BytesPerSample() <= c.maxSamples * c.BytesPerSample()
  {
    hide Wrap32;
    var b := c.BytesPerSample();
    assert b >= 1;
    MulMonotone(n, c.maxSamples, b);
    MulMonotone(1, b, n);
    WrapOfInt32(n);
    WrapOfInt32(n * b);
  }
}

/** Two short frames, written field by field as the format lays them out, and the bytes they decode to. */
module Vectors {
  import opened Words
  import opened Wrappers
  import opened Rice
  import opened RiceExact
  import Fir
  import FirExact
  import opened Frame
  import opened Output

  /** The width of a frame's own sample count. */
  const COUNT_WIDTH := 32

  /** A field of the frame: its position, its width and the number it holds. */
  ghost predicate Field(s: Bits, pos: nat, width: nat, value: nat) {
    value < Pow2(width) && At(s, pos, BitsOf(width, value))
  }

  lemma FieldRead(s: Bits, pos: nat, width: nat, value: nat)
    requires Field(s, pos, width, value)
    ensures ReadNum(s, pos, width) == Some((value, pos + width))
  {
    ReadNumOf(s, pos, width, value);
  }

  /** The start of a frame: the channel count less one, sixteen unused bits, whether there is a sample count, no low
      bytes, not raw. */
  ghost predicate Start(s: Bits, channels: nat, sized: nat) {
    && Field(s, 0, 3, channels) && Field(s, 3, 4, 0) && Field(s, 7, 12, 0)
    && Field(s, 19, 1, sized) && Field(s, 20, 2, 0) && Field(s, 22, 1, 0)
  }

  lemma StartRead(s: Bits, channels: nat, sized: nat)
    requires Start(s, channels, sized)
    ensures ReadNum(s, 0, 3) == Some((channels, 3))
    ensures ReadNum(s, 3, 4) == Some((0, 7)) && ReadNum(s, 7, 12) == Some((0, 19))
    ensures ReadNum(s, 19, 1) == Some((sized, 20))
    ensures ReadNum(s, 20, 2) == Some((0, 22)) && ReadNum(s, 22, 1) == Some((0, 23))
  {
    hide Field, ReadNum;
    FieldRead(s, 0, 3, channels);
    FieldRead(s, 3, 4, 0);
    FieldRead(s, 7, 12, 0);
    FieldRead(s, 19, 1, sized);
    FieldRead(s, 20, 2, 0);
    FieldRead(s, 22, 1, 0);
  }

  /** A channel's header with one coefficient. */
  ghost predicate HeaderFields(s: Bits, pos: nat, kind: nat, quant: nat, riceModifier: nat, coef: nat) {
    && Field(s, pos, 4, kind) && Field(s, pos + 4, 4, quant) && Field(s, pos + 8, 3, riceModifier)
    && Field(s, pos + 11, 5, 1) && Field(s, pos + 16, 16, coef)
  }

  lemma HeaderOf(s: Bits, pos: nat, kind: nat, quant: nat, riceModifier: nat, coef: nat)
    requires HeaderFields(s, pos, kind, quant, riceModifier, coef)
    ensures ReadHeader(s, pos) == Some((Header(kind, quant, riceModifier, [Signed(coef, 16)]), pos + 32))
  {
    hide Field, ReadNum, Signed;
    FieldRead(s, pos, 4, kind);
    FieldRead(s, pos + 4, 4, quant);
    FieldRead(s, pos + 8, 3, riceModifier);
    FieldRead(s, pos + 11, 5, 1);
    FieldRead(s, pos + 16, 16, coef);
    assert ReadValues(s, pos + 16, 0, 16) == Some(([], pos + 16));
    assert ReadValues(s, pos + 16, 1, 16) == Some(([] + [coef], pos + 32));
    assert AsInt16([] + [coef]) == [Signed(coef, 16)];
  }

  lemma HeaderWithoutTable(s: Bits, pos: nat, quant: nat, riceModifier: nat)
    requires Field(s, pos, 4, 0) && Field(s, pos + 4, 4, quant) && Field(s, pos + 8, 3, riceModifier)
    requires Field(s, pos + 11, 5, 0)
    ensures ReadHeader(s, pos) == Some((Header(0, quant, riceModifier, []), pos + 16))
  {
    hide Field, ReadNum;
    FieldRead(s, pos, 4, 0);
    FieldRead(s, pos + 4, 4, quant);
    FieldRead(s, pos + 8, 3, riceModifier);
    FieldRead(s, pos + 11, 5, 0);
    assert ReadValues(s, pos + 16, 0, 16) == Some(([], pos + 16));
  }

  // ----- one predicted channel -----

  function OneChannel(): Config {
    Config(16, 4, 1, 10, 14, 40)
  }

  /** One channel; a count of its own, 3; no low bytes, not raw; order 1 with quantisation 1, modifier 4 and coefficient
      1; then ten bits of residuals. */
  ghost predicate MonoVector(s: Bits) {
    && Start(s, 0, 1) && Field(s, 23, COUNT_WIDTH, 3)
    && Field(s, 55, 8, 0) && Field(s, 63, 8, 0) && HeaderFields(s, 71, 0, 1, 4, 1)
    && |s| >= 113
    && !s[103] && !s[104] && !s[105] && !s[106] && !s[107] && s[108] && !s[109] && !s[110] && s[111] && !s[112]
  }

  /** The residuals are 0, 1 and 0. The first two samples are their running sums; the third is predicted as
      (2^0 + (1 - 0) * 1) / 2^1 = 1. */
  lemma PredictedSamples()
    ensures Fir.Decode(Fir.Order(1, 1, 16), [0, 1, 0], 3, [1]).outs == [0, 1, 1]
  {
    hide Fir.Decode, Signed;
    var o, errs := Fir.Order(1, 1, 16), [0, 1, 0];
    Pow2Values();
    Fir.FirstSample(o, errs, [1]);
    FirExact.RunningSums(o, errs, 1, [1]);
    assert FirExact.Total(errs, 2) == FirExact.Total(errs, 1) + 1;
    assert FirExact.Total(errs, 1) == FirExact.Total(errs, 0) + 0;
    SignedOfFit(1, 16);
    Fir.DecodePrefix(o, errs, 1, 2, [1]);
    Fir.NoAdaptation(o, errs, 2, [1]);
    var outs := Fir.Decode(o, errs, 2, [1]).outs;
    assert outs[..1] == [0] && outs == outs[..1] + [outs[1]];
    assert FirExact.PastSum(outs, [1], 1) == FirExact.PastSum(outs, [1], 0) + (outs[1] - outs[0]) * 1;
    assert Pow2(1) == 2 && Pow2(0) == 1;
    FirExact.SampleExact(o, errs, 2, [1], 1);
  }

  lemma MonoStart(s: Bits)
    requires Start(s, 0, 1) && Field(s, 23, COUNT_WIDTH, 3)
    ensures ReadNum(s, 0, 3) == Some((0, 3))
    ensures ReadPreamble(OneChannel(), s, 3) == Some((Preamble(true, 0, false, 3), 55))
  {
    hide Field, Start, ReadNum;
    StartRead(s, 0, 1);
    FieldRead(s, 23, COUNT_WIDTH, 3);
  }

  lemma MonoHeader(s: Bits)
    requires HeaderFields(s, 71, 0, 1, 4, 1)
    ensures ReadHeader(s, 71) == Some((Header(0, 1, 4, [1]), 103))
  {
    hide HeaderFields, ReadHeader, Signed;
    HeaderOf(s, 71, 0, 1, 4, 1);
    Pow2Values();
    SignedOfFit(1, 16);
  }

  lemma MonoChannel(s: Bits)
    requires MonoVector(s)
    ensures ReadChannel(OneChannel(), s, 103, 3, Header(0, 1, 4, [1]), 16) == Some(([0, 1, 1], 113))
  {
    hide DecodeBlock, Fir.Decode, Field, HeaderFields;
    var c := OneChannel();
    QuarterOfProduct(c, 16, 4);
    ShortRunsByHand(s, 103);
    PredictedSamples();
  }

  lemma Bytes16(v: int)
    requires 0 <= v < 256
    ensures LittleEndian(2, v) == [v, 0]
  {
    assert v / 256 == 0;
    assert LittleEndian(0, 0) == [];
    assert LittleEndian(1, v / 256) == [0];
  }

  lemma MonoFrameDecoded(s: Bits)
    requires MonoVector(s)
    ensures ReadFrame(OneChannel(), s, 8) == Some(Decoded(6, [[0, 0], [1, 0], [1, 0]]))
  {
    hide ReadNum, ReadPreamble, ReadHeader, ReadChannel, Start, Field, HeaderFields, LittleEndian;
    var c := OneChannel();
    MonoStart(s);
    FieldRead(s, 55, 8, 0);
    FieldRead(s, 63, 8, 0);
    MonoHeader(s);
    MonoChannel(s);
    WrapOfInt32(3);
    WrapOfInt32(6);
    Bytes16(0);
    Bytes16(1);
    assert ReadMono(c, s, 55, 3, 0) == Some(Mono([0, 1, 1], []));
    assert FrameBytes(c, Mono([0, 1, 1], []), 3, 0) == [[0, 0], [1, 0], [1, 0]];
  }

  // ----- two mixed channels -----

  function TwoChannels(): Config {
    Config(16, 1, 2, 10, 14, 40)
  }

  /** Two channels; no count; no low bytes, not raw; shift 1 and weight 1; two headers of order 0 with modifier 4; then
      the residuals of one sample, 2 and -3. */
  ghost predicate StereoVector(s: Bits) {
    && Start(s, 1, 0) && Field(s, 23, 8, 1) && Field(s, 31, 8, 1)
    && Field(s, 39, 4, 0) && Field(s, 43, 4, 1) && Field(s, 47, 3, 4) && Field(s, 50, 5, 0)
    && Field(s, 55, 4, 0) && Field(s, 59, 4, 1) && Field(s, 63, 3, 4) && Field(s, 66, 5, 0)
    && At(s, 71, Ones(4) + [false]) && At(s, 76, Ones(5) + [false])
  }

  lemma StereoParts(s: Bits)
    requires StereoVector(s)
    ensures ReadNum(s, 0, 3) == Some((1, 3))
    ensures ReadPreamble(TwoChannels(), s, 3) == Some((Preamble(false, 0, false, 1), 23))
    ensures ReadMixing(s, 23, 1, 0) == Some((Mixing(1, 1, Header(0, 1, 4, []), Header(0, 1, 4, []), []), 71))
  {
    hide Field, Start, ReadNum, ReadHeader, At;
    StartRead(s, 1, 0);
    FieldRead(s, 23, 8, 1);
    FieldRead(s, 31, 8, 1);
    HeaderWithoutTable(s, 39, 1, 4);
    HeaderWithoutTable(s, 55, 1, 4);
  }

  lemma OneSample(s: Bits, pos: nat, q: nat, e: int)
    requires q <= RICE_THRESHOLD && At(s, pos, Ones(q) + [false])
    requires q == 2 * e || q == -2 * e - 1
    ensures ReadChannel(TwoChannels(), s, pos, 1, Header(0, 1, 4, []), 17) == Some(([e], pos + q + 1))
  {
    hide DecodeBlock, Fir.Decode, At;
    QuarterOfProduct(TwoChannels(), 17, 4);
    OneResidualByHand(s, pos, q, e);
    Fir.FirstSample(Fir.Order(0, 1, 17), [e], []);
  }

  /** A middle of 2 and a difference of -3 are un-mixed to 1 and 4: half of -3, rounded down, is -2. */
  lemma StereoFrameDecoded(s: Bits)
    requires StereoVector(s)
    ensures ReadFrame(TwoChannels(), s, 4) == Some(Decoded(4, [[1, 0, 4, 0]]))
  {
    hide ReadNum, ReadPreamble, ReadMixing, ReadChannel, LittleEndian, At, Ones, Field, Unmix, Signed;
    var c := TwoChannels();
    StereoParts(s);
    OneSample(s, 71, 4, 2);
    OneSample(s, 76, 5, -3);
    Pow2Values();
    assert Pow2(1) == 2;
    UnmixExact(2, -3, 1, 1, 16, 1, 4);
    SignedOfFit(1, 16);
    SignedOfFit(4, 16);
    Bytes16(1);
    Bytes16(4);
    assert EverySecond([], 0) == [] && EverySecond([], 1) == [];
    assert ReadStereo(c, s, 23, 1, 0) == Some(Stereo([2], [-3], [], [], 1, 1));
    assert StereoBytes(c, 2, -3, 0, 0, 0, 1, 1) == [1, 0] + [4, 0] == [1, 0, 4, 0];
    assert FrameBytes(c, Stereo([2], [-3], [], [], 1, 1), 1, 0) == [[1, 0, 4, 0]];
  }
}

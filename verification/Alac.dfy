/** The decoder object of alac.c, imperatively: a bit reader over the input buffer, the entropy decoder, and the frame
    decoder, each proved against the functions that say what it computes. */
module Alac {
  import opened Words
  import opened Wrappers
  import Rice
  import Fir
  import opened Frame
  import Deinterlace

  /** Every bit that a read may start at: the windowed read always looks at three whole bytes. */
  function Payload(input: seq<Byte>): (s: Bits)
    ensures |input| >= 2 ==> |s| == 8 * |input| - 16
  {
    if |input| < 2 then [] else Unpack(input)[..8 * |input| - 16]
  }

  lemma WindowNum(input: seq<Byte>, offset: nat, acc: nat, n: nat)
    requires 1 <= n <= 16 && acc < 8 && 8 * offset + acc + n <= |Payload(input)|
    ensures offset + 3 <= |input|
    ensures Word24(input[offset], input[offset + 1], input[offset + 2]) * Pow2(acc) % Pow2(24) / Pow2(24 - n)
         == Num(Payload(input)[8 * offset + acc..8 * offset + acc + n])
  {
    hide Num, Pow2, Unpack;
    var s := Unpack(input);
    var w := s[8 * offset..8 * offset + 24];
    UnpackWindow(input, offset);
    WindowRead(w, acc, n);
    assert w[acc..acc + n] == Payload(input)[8 * offset + acc..8 * offset + acc + n];
  }

  lemma BitNum(input: seq<Byte>, offset: nat, acc: nat)
    requires acc < 8 && 8 * offset + acc < |Payload(input)|
    ensures offset < |input|
    ensures input[offset] * Pow2(acc) / 128 % 2 == if Payload(input)[8 * offset + acc] then 1 else 0
  {
    hide Num, Pow2, Unpack;
    UnpackByte(input, offset);
    var byte := BitsOf(8, input[offset]);
    assert Payload(input)[8 * offset + acc] == Unpack(input)[8 * offset..8 * offset + 8][acc] == byte[acc];
    ByteBit(input[offset], acc);
  }

  lemma ShiftLeftRight(b: nat, p: int, q: int)
    requires p >= 1 && q >= 1
    ensures b * p / (p * q) == b / q
  {
    DivModIdentity(b, q);
    var h, l := b / q, b % q;
    assert b * p == h * (p * q) + l * p by {
      assert h * q * p == h * (p * q);
    }
    MulLess(l, q, p);
    assert l * p >= 0;
    DivModUnique(b * p, p * q, h, l * p);
  }

  lemma ByteBit(b: Byte, acc: nat)
    requires acc < 8
    ensures b * Pow2(acc) / 128 % 2 == if BitsOf(8, b)[acc] then 1 else 0
  {
    hide Pow2, BitsOf;
    BitOfByte(b, 7 - acc);
    Pow2Values();
    Pow2Add(acc, 7 - acc);
    ShiftLeftRight(b, Pow2(acc), Pow2(7 - acc));
  }

  lemma {:induction false} BitOfBits(n: nat, v: int, k: nat)
    requires k < n && v >= 0
    ensures BitsOf(n, v)[n - 1 - k] <==> v / Pow2(k) % 2 == 1
  {
    if k == 0 {
      assert Pow2(0) == 1;
    } else {
      BitOfBits(n - 1, v / 2, k - 1);
      DivTwice(v, 2, Pow2(k - 1));
    }
  }

  lemma BitOfByte(b: Byte, k: nat)
    requires k < 8
    ensures BitsOf(8, b)[7 - k] <==> b / Pow2(k) % 2 == 1
  {
    BitOfBits(8, b, k);
  }

  /** A shorter list of numbers is there if a longer one is. */
  lemma {:induction false} FewerValues(s: Bits, pos: nat, i: nat, count: nat, width: nat)
    requires i <= count && ReadValues(s, pos, count, width).Some?
    ensures ReadValues(s, pos, i, width).Some?
    decreases count
  {
    hide Rice.ReadNum;
    if i < count {
      FewerValues(s, pos, i, count - 1, width);
    }
  }

  /** The next number of a list that is known to be long enough. */
  lemma NextValue(s: Bits, pos: nat, i: nat, count: nat, width: nat)
    requires i < count && ReadValues(s, pos, count, width).Some?
    ensures ReadValues(s, pos, i, width).Some? && ReadValues(s, pos, i + 1, width).Some?
    ensures var (vs, p) := ReadValues(s, pos, i, width).value;
      && Rice.ReadNum(s, p, width).Some?
      && ReadValues(s, pos, i + 1, width).value
         == (vs + [Rice.ReadNum(s, p, width).value.0], Rice.ReadNum(s, p, width).value.1)
  {
    hide Rice.ReadNum;
    FewerValues(s, pos, i, count, width);
    FewerValues(s, pos, i + 1, count, width);
  }

  lemma NoValues(s: Bits, pos: nat, width: nat)
    ensures ReadValues(s, pos, 0, width) == Some(([], pos))
  {
  }

  lemma EverySecondSnoc(vs: seq<int>, x: int, y: int)
    requires |vs| % 2 == 0
    ensures EverySecond(vs + [x, y], 0) == EverySecond(vs, 0) + [x]
    ensures EverySecond(vs + [x, y], 1) == EverySecond(vs, 1) + [y]
  {
  }

  lemma ReadChannelLegal(c: Config, s: Bits, pos: nat, n: nat, h: Header, size: int)
    requires ReadChannel(c, s, pos, n, h, size).Some?
    ensures 1 <= size <= 32
  {
  }

  lemma AsSamplesSnoc(vs: seq<int>, v: int, sampleSize: nat)
    requires sampleSize >= 1
    ensures AsSamples([], sampleSize) == []
    ensures AsSamples(vs + [v], sampleSize) == AsSamples(vs, sampleSize) + [Signed(v, sampleSize)]
  {
  }

  lemma TwoBits(s: Bits, pos: nat)
    ensures Rice.ReadNum(s, pos, 2).Some? ==> Rice.ReadNum(s, pos, 2).value.0 <= 3
  {
    if Rice.ReadNum(s, pos, 2).Some? {
      NumBound(s[pos..pos + 2]);
      assert Pow2(2) == 4;
    }
  }

  /** The bytes of n sample frames fit an output of n times the frame size. */
  lemma FramesHaveRoom(c: Config, ch: Channels, n: nat, lowBytes: nat, length: nat)
    requires c.Valid() && WellFormed(ch, n, lowBytes) && c.numChannels >= (if ch.Stereo? then 2 else 1)
    requires n * c.BytesPerSample() <= length
    ensures Room(length, FrameBytes(c, ch, n, lowBytes), c.BytesPerSample())
  {
    hide MonoBytes, StereoBytes;
    var frames, b := FrameBytes(c, ch, n, lowBytes), c.BytesPerSample();
    MulMonotone(if ch.Stereo? then 2 else 1, c.numChannels, c.SampleBytes());
    forall i | 0 <= i < n ensures i * b + |frames[i]| <= length {
      MulLess(i, n, b);
    }
  }

  /** A frame that carries on has a usable sample count, and its samples fit the output. */
  lemma BodySize(c: Config, s: Bits, pos: nat, stereo: bool, allocation: int, pre: Preamble, p: nat)
    requires c.Valid() && ReadBody(c, s, pos, stereo, allocation).Some?
    requires ReadPreamble(c, s, pos) == Some((pre, p))
    requires pre.hasSize ==> Wrap32(Wrap32(pre.count) * c.BytesPerSample()) <= allocation
    requires c.maxSamples * c.BytesPerSample() <= allocation
    ensures 1 <= pre.count <= c.maxSamples && c.numChannels >= (if stereo then 2 else 1)
    ensures pre.count * c.BytesPerSample() <= allocation
    ensures ReadChannels(c, s, p, pre.count, pre.lowBytes, pre.raw, stereo).Some?
  {
    hide ReadPreamble, ReadChannels, FrameBytes, Wrap32;
    MulMonotone(pre.count, c.maxSamples, c.BytesPerSample());
  }

  lemma ReadNumSplit(s: Bits, pos: nat, a: nat, b: nat)
    requires Rice.ReadNum(s, pos, a + b).Some?
    ensures Rice.ReadNum(s, pos, a).Some? && Rice.ReadNum(s, pos + a, b).Some?
    ensures Rice.ReadNum(s, pos, a).value.1 == pos + a && Rice.ReadNum(s, pos + a, b).value.1 == pos + a + b
    ensures Rice.ReadNum(s, pos, a + b)
         == Some((Rice.ReadNum(s, pos, a).value.0 * Pow2(b) + Rice.ReadNum(s, pos + a, b).value.0, pos + a + b))
  {
    hide Num, Pow2;
    assert s[pos..pos + (a + b)] == s[pos..pos + a] + s[pos + a..pos + a + b];
    NumConcat(s[pos..pos + a], s[pos + a..pos + a + b]);
  }

  /** The C statements that update the history compute Rice.NextHistory: nothing that survives them overflows. */
  lemma UpdateIsNextHistory(history: nat, decoded: nat, mult: nat)
    requires history <= Rice.HISTORY_MAX && 1 <= mult <= 64
    requires decoded <= 0xFFFF ==> 0 <= Rice.NextHistory(history, decoded, mult) <= Rice.HISTORY_MAX
    ensures history * mult < 0x8000_0000
    ensures decoded <= 0xFFFF ==>
      Wrap32(history + Wrap32(Wrap32(decoded * mult) - Wrap32(history * mult) / 512))
      == Rice.NextHistory(history, decoded, mult)
    ensures decoded > 0xFFFF ==> Rice.NextHistory(history, decoded, mult) == 0xFFFF
  {
    hide Wrap32;
    MulMonotone(history, Rice.HISTORY_MAX, mult);
    MulMonotone(mult, 64, Rice.HISTORY_MAX);
    MulMonotone(0, history, mult);
    WrapOfInt32(history * mult);
    if decoded <= 0xFFFF {
      MulMonotone(decoded, 0xFFFF, mult);
      MulMonotone(0, decoded, mult);
      WrapOfInt32(decoded * mult);
      WrapOfInt32(decoded * mult - history * mult / 512);
      WrapOfInt32(Rice.NextHistory(history, decoded, mult));
    }
  }

  class AlacFile {
    const config: Config

    var input: seq<Byte>
    var offset: nat
    var accumulator: nat

    const predictErrorA: array<int>
    const predictErrorB: array<int>
    const outputSamplesA: array<int>
    const outputSamplesB: array<int>
    const uncompressedA: array<int>
    const uncompressedB: array<int>

    /** Six separate buffers of the size that alac_allocate_buffers gives them. */
    ghost predicate Buffers() {
      && config.Valid()
      && predictErrorA.Length == predictErrorB.Length == outputSamplesA.Length == outputSamplesB.Length
         == uncompressedA.Length == uncompressedB.Length == config.maxSamples
      && predictErrorA !in {outputSamplesA, outputSamplesB, uncompressedA, uncompressedB, predictErrorB}
      && predictErrorB !in {outputSamplesA, outputSamplesB, uncompressedA, uncompressedB}
      && outputSamplesA !in {outputSamplesB, uncompressedA, uncompressedB}
      && outputSamplesB !in {uncompressedA, uncompressedB}
      && uncompressedA != uncompressedB
    }

    ghost function Pos(): nat
      reads this`offset, this`accumulator
    {
      8 * offset + accumulator
    }

    constructor (c: Config)
      requires c.Valid()
      ensures Buffers() && config == c && accumulator == 0
    {
      config := c;
      input, offset, accumulator := [], 0, 0;
      predictErrorA := new int[c.maxSamples];
      predictErrorB := new int[c.maxSamples];
      outputSamplesA := new int[c.maxSamples];
      outputSamplesB := new int[c.maxSamples];
      uncompressedA := new int[c.maxSamples];
      uncompressedB := new int[c.maxSamples];
    }

    // ----- bit reader -----

    /** readbits_16: the value of the next 1 to 16 bits, big-endian, by a 24-bit window. */
    method ReadBits16(bits: nat) returns (result: nat)
      requires 1 <= bits <= 16 && accumulator < 8
      requires Rice.ReadNum(Payload(input), Pos(), bits).Some?
      modifies this`offset, this`accumulator
      ensures accumulator < 8
      ensures Rice.ReadNum(Payload(input), old(Pos()), bits) == Some((result, Pos()))
    {
      hide Num, Pow2, Unpack, Payload;
      WindowNum(input, offset, accumulator, bits);
      var window := Word24(input[offset], input[offset + 1], input[offset + 2]);
      window := window * Pow2(accumulator);
      window := window % Pow2(24);
      result := window / Pow2(24 - bits);
      var newAccumulator := accumulator + bits;
      offset := offset + newAccumulator / 8;
      accumulator := newAccumulator % 8;
    }

    /** readbits: up to 32 bits, as 16 and the rest. */
    method ReadBits(bits: nat) returns (result: nat)
      requires 1 <= bits <= 32 && accumulator < 8
      requires Rice.ReadNum(Payload(input), Pos(), bits).Some?
      modifies this`offset, this`accumulator
      ensures accumulator < 8
      ensures Rice.ReadNum(Payload(input), old(Pos()), bits) == Some((result, Pos()))
    {
      hide Num, Pow2, Unpack, Payload;
      var rest := bits;
      result := 0;
      ghost var s, pos := Payload(input), Pos();
      if rest > 16 {
        rest := rest - 16;
        result := ReadBits16(16);
        result := result * Pow2(rest);
        assert s[pos..pos + bits] == s[pos..pos + 16] + s[pos + 16..pos + bits];
        NumConcat(s[pos..pos + 16], s[pos + 16..pos + bits]);
      }
      var low := ReadBits16(rest);
      result := result + low;
    }

    /** readbit. */
    method ReadBit() returns (bit: nat)
      requires accumulator < 8 && Pos() < |Payload(input)|
      modifies this`offset, this`accumulator
      ensures accumulator < 8 && Pos() == old(Pos()) + 1
      ensures bit == if Payload(input)[old(Pos())] then 1 else 0
    {
      hide Pow2, Unpack, Payload;
      BitNum(input, offset, accumulator);
      bit := input[offset];
      bit := bit * Pow2(accumulator);
      bit := bit / 128 % 2;
      var newAccumulator := accumulator + 1;
      offset := offset + newAccumulator / 8;
      accumulator := newAccumulator % 8;
    }

    /** unreadbits: exactly undoes the reading of the last bits, across byte boundaries too. */
    method UnreadBits(bits: nat)
      requires accumulator < 8 && bits <= Pos()
      modifies this`offset, this`accumulator
      ensures accumulator < 8 && Pos() == old(Pos()) - bits
    {
      var newAccumulator := accumulator - bits;
      offset := offset + newAccumulator / 8;
      accumulator := newAccumulator % 8;
    }
  
    // ----- entropy decoder -----

    /** entropy_decode_value. The mask is given by its width: 32 for 0xFFFFFFFF. */
    method EntropyDecodeValue(size: nat, k: nat, maskWidth: nat) returns (x: nat)
      requires 1 <= size <= 32 && 1 <= k <= 16 && maskWidth >= 1 && accumulator < 8
      requires Rice.DecodeValue(Payload(input), Pos(), size, k, maskWidth).Some?
      modifies this`offset, this`accumulator
      ensures accumulator < 8
      ensures Rice.DecodeValue(Payload(input), old(Pos()), size, k, maskWidth) == Some((x, Pos()))
    {
      hide Num, Pow2, Unpack, Payload, Rice.Multiplier, Rice.CountOnes, Rice.ReadNum;
      ghost var s, start := Payload(input), Pos();
      x := 0;
      var bit := 1;
      while x <= Rice.RICE_THRESHOLD && bit == 1
        invariant x <= Rice.RICE_THRESHOLD + 1 && accumulator < 8
        invariant Rice.CountOnes(s, start, 0)
               == if bit == 1 then Rice.CountOnes(s, Pos(), x) else Some((x, Pos()))
        invariant bit == 0 || bit == 1
        invariant bit == 0 ==> x <= Rice.RICE_THRESHOLD
        decreases bit, Rice.RICE_THRESHOLD + 1 - x
      {
        Rice.CountOnesTurn(s, Pos(), x);
        bit := ReadBit();
        if bit == 1 {
          x := x + 1;
        }
      }
      if x > Rice.RICE_THRESHOLD {
        Rice.CountOnesFull(s, Pos());
        x := ReadBits(size);
      } else if k != 1 {
        var extraBits := ReadBits(k);
        x := x * Rice.Multiplier(k, maskWidth);
        if extraBits > 1 {
          x := x + extraBits - 1;
        } else {
          UnreadBits(1);
        }
      }
    }

    /** The first half of a turn of entropy_rice_decode: one residual, and the history behind it. */
    method DecodeResidual(history: nat, signModifier: nat, p: Rice.Params) returns (finalValue: int, newHistory: int)
      requires p.Legal() && Rice.StateOk(history, signModifier) && accumulator < 8
      requires Rice.DecodeValue(Payload(input), Pos(), p.size, Rice.MainK(history, p.kModifier), 32).Some?
      modifies this`offset, this`accumulator
      ensures accumulator < 8
      ensures var (code, pos) := Rice.DecodeValue(Payload(input), old(Pos()), p.size,
                                                  Rice.MainK(history, p.kModifier), 32).value;
        && Pos() == pos
        && finalValue == Rice.Unzigzag(code + signModifier)
        && newHistory == Rice.NextHistory(history, code + signModifier, p.historyMult)
    {
      hide Unpack, Payload, Rice.DecodeValue, Rice.MainK, Pow2, Rice.NextHistory, Wrap32;
      var k := Rice.MainK(history, p.kModifier);
      var code := EntropyDecodeValue(p.size, k, 32);
      var decodedValue := code + signModifier;
      finalValue := (decodedValue + 1) / 2;
      if decodedValue % 2 == 1 {
        finalValue := -finalValue;
      }
      Rice.NextHistoryRange(history, signModifier, code, p.historyMult);
      UpdateIsNextHistory(history, decodedValue, p.historyMult);
      newHistory := Wrap32(history + Wrap32(Wrap32(decodedValue * p.historyMult)
                                            - Wrap32(history * p.historyMult) / 512));
      if decodedValue > 0xFFFF {
        newHistory := 0xFFFF;
      }
    }

    /** One turn of entropy_rice_decode: a residual, and the zero run behind it if the history is small. */
    method RiceTurn(buffer: array<int>, outputCount: nat, outputSize: nat, history: nat, signModifier: nat,
                    p: Rice.Params) returns (nextCount: nat, newHistory: int, newSignModifier: int)
      requires p.Legal() && Rice.StateOk(history, signModifier) && accumulator < 8
      requires outputCount < outputSize <= buffer.Length
      requires Rice.DecodeBlock(Payload(input), Pos(), outputSize - outputCount, history, signModifier, p).Some?
      modifies this`offset, this`accumulator, buffer
      ensures accumulator < 8 && outputCount < nextCount <= outputSize
      ensures Rice.StateOk(newHistory, newSignModifier)
      ensures buffer[..outputCount] == old(buffer[..outputCount])
      ensures
        var rest := Rice.DecodeBlock(Payload(input), Pos(), outputSize - nextCount, newHistory, newSignModifier, p);
        && rest.Some?
        && Rice.DecodeBlock(Payload(input), old(Pos()), outputSize - outputCount, history, signModifier, p)
           == Some((buffer[outputCount..nextCount] + rest.value.0, rest.value.1))
    {
      hide Unpack, Payload, Rice.DecodeBlock, Rice.DecodeValue, Rice.MainK, Rice.ZeroRunK, Rice.NextHistory, Pow2,
        Rice.Unzigzag;
      ghost var s := Payload(input);
      ghost var start, left := Pos(), outputSize - outputCount;
      Rice.TurnStarts(s, start, left, history, signModifier, p);
      ghost var code := Rice.DecodeValue(s, start, p.size, Rice.MainK(history, p.kModifier), 32).value.0;
      var finalValue;
      finalValue, newHistory := DecodeResidual(history, signModifier, p);
      buffer[outputCount] := finalValue;
      newSignModifier := 0;
      nextCount := outputCount;
      if newHistory < 128 && outputCount + 1 < outputSize {
        newSignModifier := 1;
        Rice.RunTurn(s, start, code, Pos(), left, history, signModifier, p);
        var k := Rice.ZeroRunK(newHistory);
        Rice.ZeroRunBound(s, Pos(), k, p.kModifier);
        var blockSize := EntropyDecodeValue(16, k, p.kModifier);
        if blockSize > 0 {
          forall i | outputCount + 1 <= i < outputCount + 1 + blockSize {
            buffer[i] := 0;
          }
          nextCount := nextCount + blockSize;
        }
        if blockSize > 0xFFFF {
          newSignModifier := 0;
        }
        newHistory := 0;
        assert buffer[outputCount..nextCount + 1] == [finalValue] + Rice.Zeros(blockSize);
      } else {
        Rice.PlainTurn(s, start, code, Pos(), left, history, signModifier, p);
        assert buffer[outputCount..nextCount + 1] == [finalValue];
      }
      nextCount := nextCount + 1;
    }

    /** entropy_rice_decode: fills the first outputSize entries of the buffer. */
    method EntropyRiceDecode(buffer: array<int>, outputSize: nat, p: Rice.Params)
      requires p.Legal() && accumulator < 8 && outputSize <= buffer.Length
      requires Rice.DecodeBlock(Payload(input), Pos(), outputSize, p.initialHistory, 0, p).Some?
      modifies this`offset, this`accumulator, buffer
      ensures accumulator < 8
      ensures Rice.DecodeBlock(Payload(input), old(Pos()), outputSize, p.initialHistory, 0, p)
           == Some((buffer[..outputSize], Pos()))
    {
      hide Unpack, Payload, Rice.DecodeBlock, Pow2;
      ghost var s, start := Payload(input), Pos();
      ghost var all := Rice.DecodeBlock(s, start, outputSize, p.initialHistory, 0, p).value;
      var history, signModifier := p.initialHistory, 0;
      var outputCount := 0;
      assert all.0 == buffer[..0] + all.0;
      while outputCount < outputSize
        invariant outputCount <= outputSize && accumulator < 8
        invariant Rice.StateOk(history, signModifier)
        invariant Rice.DecodeBlock(s, Pos(), outputSize - outputCount, history, signModifier, p).Some?
        invariant var rest := Rice.DecodeBlock(s, Pos(), outputSize - outputCount, history, signModifier, p).value;
          all.0 == buffer[..outputCount] + rest.0 && all.1 == rest.1
      {
        ghost var done := buffer[..outputCount];
        ghost var before := outputCount;
        outputCount, history, signModifier :=
          RiceTurn(buffer, outputCount, outputSize, history, signModifier, p);
        assert buffer[..outputCount] == done + buffer[before..outputCount];
      }
      Rice.DecodeNothing(s, Pos(), history, signModifier, p);
      assert buffer[..outputSize] == buffer[..outputSize] + [];
    }
  
    // ----- frame fields -----

    /** The loop that reads a predictor table. */
    method ReadTable(table: array<int>, num: nat)
      requires accumulator < 8 && num <= table.Length
      requires ReadValues(Payload(input), Pos(), num, 16).Some?
      modifies this`offset, this`accumulator, table
      ensures accumulator < 8
      ensures var (words, pos) := ReadValues(Payload(input), old(Pos()), num, 16).value;
        table[..num] == AsInt16(words) && Pos() == pos
    {
      hide Payload, Rice.ReadNum, Signed, ReadValues;
      ghost var s, start := Payload(input), Pos();
      NoValues(s, start, 16);
      var i := 0;
      while i < num
        invariant 0 <= i <= num && accumulator < 8
        invariant ReadValues(s, start, i, 16).Some?
        invariant table[..i] == AsInt16(ReadValues(s, start, i, 16).value.0)
        invariant Pos() == ReadValues(s, start, i, 16).value.1
      {
        NextValue(s, start, i, num, 16);
        ghost var done := table[..i];
        var word := ReadBits(16);
        table[i] := Signed(word, 16);
        assert table[..i + 1] == done + [table[i]];
        i := i + 1;
      }
    }

    /** A channel's prediction type, quantisation, rice modifier and coefficients. */
    method ReadHeaderFields(table: array<int>) returns (kind: nat, quant: nat, riceModifier: nat, num: nat)
      requires accumulator < 8 && table.Length == 32
      requires ReadHeader(Payload(input), Pos()).Some?
      modifies this`offset, this`accumulator, table
      ensures accumulator < 8 && num <= 31
      ensures ReadHeader(Payload(input), old(Pos()))
           == Some((Header(kind, quant, riceModifier, table[..num]), Pos()))
    {
      hide Payload, Rice.ReadNum, ReadValues, AsInt16;
      kind := ReadBits(4);
      quant := ReadBits(4);
      riceModifier := ReadBits(3);
      FiveBits(Payload(input), Pos());
      num := ReadBits(5);
      ReadTable(table, num);
    }

    /** The split-off low bytes of a mono frame. */
    method ReadLowMono(n: nat, lowBytes: nat)
      requires Buffers() && accumulator < 8 && n <= config.maxSamples && lowBytes <= 3
      requires ReadLowBytes(Payload(input), Pos(), n, lowBytes).Some?
      modifies this`offset, this`accumulator, uncompressedA
      ensures accumulator < 8
      ensures ReadLowBytes(Payload(input), old(Pos()), n, lowBytes)
           == Some((if lowBytes == 0 then [] else uncompressedA[..n], Pos()))
    {
      hide Payload, Rice.ReadNum, ReadValues;
      if lowBytes != 0 {
        ghost var s, start := Payload(input), Pos();
        NoValues(s, start, 8 * lowBytes);
        var li := 0;
        while li < n
          invariant 0 <= li <= n && accumulator < 8
          invariant ReadValues(s, start, li, 8 * lowBytes) == Some((uncompressedA[..li], Pos()))
        {
          NextValue(s, start, li, n, 8 * lowBytes);
          ghost var done := uncompressedA[..li];
          var low := ReadBits(8 * lowBytes);
          uncompressedA[li] := low;
          assert uncompressedA[..li + 1] == done + [low];
          li := li + 1;
        }
      }
    }

    /** The split-off low bytes of a two-channel frame, left and right in turn. */
    method ReadLowStereo(n: nat, lowBytes: nat)
      requires Buffers() && accumulator < 8 && n <= config.maxSamples && 1 <= lowBytes <= 3
      requires ReadValues(Payload(input), Pos(), 2 * n, 8 * lowBytes).Some?
      modifies this`offset, this`accumulator, uncompressedA, uncompressedB
      ensures accumulator < 8
      ensures var (low, pos) := ReadValues(Payload(input), old(Pos()), 2 * n, 8 * lowBytes).value;
        uncompressedA[..n] == EverySecond(low, 0) && uncompressedB[..n] == EverySecond(low, 1) && Pos() == pos
    {
      hide Payload, Rice.ReadNum, ReadValues;
      ghost var s, start := Payload(input), Pos();
      NoValues(s, start, 8 * lowBytes);
      var li := 0;
      while li < n
        invariant 0 <= li <= n && accumulator < 8
        invariant ReadValues(s, start, 2 * li, 8 * lowBytes).Some?
        invariant Pos() == ReadValues(s, start, 2 * li, 8 * lowBytes).value.1
        invariant uncompressedA[..li] == EverySecond(ReadValues(s, start, 2 * li, 8 * lowBytes).value.0, 0)
        invariant uncompressedB[..li] == EverySecond(ReadValues(s, start, 2 * li, 8 * lowBytes).value.0, 1)
      {
        NextValue(s, start, 2 * li, 2 * n, 8 * lowBytes);
        NextValue(s, start, 2 * li + 1, 2 * n, 8 * lowBytes);
        ghost var vs := ReadValues(s, start, 2 * li, 8 * lowBytes).value.0;
        ghost var doneA, doneB := uncompressedA[..li], uncompressedB[..li];
        var lowA := ReadBits(8 * lowBytes);
        var lowB := ReadBits(8 * lowBytes);
        uncompressedA[li] := lowA;
        uncompressedB[li] := lowB;
        assert uncompressedA[..li + 1] == doneA + [lowA] && uncompressedB[..li + 1] == doneB + [lowB];
        EverySecondSnoc(vs, lowA, lowB);
        assert vs + [lowA] + [lowB] == vs + [lowA, lowB];
        li := li + 1;
      }
    }
  
    // ----- channels -----

    /** Entropy decoding and prediction of one channel. */
    method DecodeChannel(predictError: array<int>, outputSamples: array<int>, n: nat, size: nat,
                         ghost h: Header, table: array<int>, num: nat, quant: nat, riceModifier: nat)
      requires Buffers() && accumulator < 8 && 1 <= n <= config.maxSamples
      requires predictError != outputSamples && table !in {predictError, outputSamples}
      requires predictError.Length == outputSamples.Length == config.maxSamples && num <= 31 && table.Length == 32
      requires h.quant == quant && h.riceModifier == riceModifier && h.coefs == table[..num]
      requires ReadChannel(config, Payload(input), Pos(), n, h, size).Some?
      modifies this`offset, this`accumulator, predictError, outputSamples, table
      ensures accumulator < 8
      ensures ReadChannel(config, Payload(input), old(Pos()), n, h, size) == Some((outputSamples[..n], Pos()))
    {
      hide Payload, Rice.DecodeBlock, Fir.Decode;
      EntropyRiceDecode(predictError, n, config.RiceParams(size, riceModifier));
      ghost var o := Fir.Order(num, quant, size);
      ghost var errs := predictError[..n];
      assert predictError[..][..n] == errs == errs[..n];
      Fir.DecodeLocal(o, errs, predictError[..], n, h.coefs);
      Fir.PredictorDecompressFirAdapt(predictError, outputSamples, n, size, table, num, quant);
    }

    /** One sample of an uncompressed frame: read in one piece up to 16 bits, as 16 and the rest above. */
    method ReadRawSample() returns (audiobits: int)
      requires config.Valid() && accumulator < 8
      requires Rice.ReadNum(Payload(input), Pos(), config.sampleSize).Some?
      modifies this`offset, this`accumulator
      ensures accumulator < 8
      ensures var (v, pos) := Rice.ReadNum(Payload(input), old(Pos()), config.sampleSize).value;
        audiobits == Signed(v, config.sampleSize) && Pos() == pos
    {
      hide Payload, Rice.ReadNum, Signed, Wrap32, Pow2;
      if config.sampleSize <= 16 {
        audiobits := ReadBits(16);
        Fir.SignExtendedIsSigned(audiobits, 16);
        audiobits := Fir.SignExtended32(audiobits, 16);
      } else {
        ReadNumSplit(Payload(input), Pos(), 16, 8);
        audiobits := ReadBits(16);
        audiobits := audiobits * Pow2(8);
        var rest := ReadBits(8);
        audiobits := audiobits + rest;
        audiobits := Signed(audiobits, 24);
      }
    }

    /** The easy case of a mono frame. */
    method DecodeRawMono(n: nat)
      requires Buffers() && accumulator < 8 && n <= config.maxSamples
      requires ReadValues(Payload(input), Pos(), n, config.sampleSize).Some?
      modifies this`offset, this`accumulator, outputSamplesA
      ensures accumulator < 8
      ensures var (vs, pos) := ReadValues(Payload(input), old(Pos()), n, config.sampleSize).value;
        outputSamplesA[..n] == AsSamples(vs, config.sampleSize) && Pos() == pos
    {
      hide Payload, Rice.ReadNum, ReadValues, Signed;
      ghost var s, start, width := Payload(input), Pos(), config.sampleSize;
      NoValues(s, start, width);
      var i := 0;
      while i < n
        invariant 0 <= i <= n && accumulator < 8
        invariant ReadValues(s, start, i, width).Some?
        invariant Pos() == ReadValues(s, start, i, width).value.1
        invariant outputSamplesA[..i] == AsSamples(ReadValues(s, start, i, width).value.0, width)
      {
        NextValue(s, start, i, n, width);
        ghost var done := outputSamplesA[..i];
        var audiobits := ReadRawSample();
        outputSamplesA[i] := audiobits;
        assert outputSamplesA[..i + 1] == done + [audiobits];
        i := i + 1;
      }
    }

    /** The easy case of a two-channel frame. */
    method DecodeRawStereo(n: nat)
      requires Buffers() && accumulator < 8 && n <= config.maxSamples
      requires ReadValues(Payload(input), Pos(), 2 * n, config.sampleSize).Some?
      modifies this`offset, this`accumulator, outputSamplesA, outputSamplesB
      ensures accumulator < 8
      ensures var (vs, pos) := ReadValues(Payload(input), old(Pos()), 2 * n, config.sampleSize).value;
        && outputSamplesA[..n] == EverySecond(AsSamples(vs, config.sampleSize), 0)
        && outputSamplesB[..n] == EverySecond(AsSamples(vs, config.sampleSize), 1)
        && Pos() == pos
    {
      hide Payload, Rice.ReadNum, ReadValues, Signed, EverySecond, AsSamples;
      ghost var s, start, width := Payload(input), Pos(), config.sampleSize;
      NoValues(s, start, width);
      NoSecond();
      AsSamplesSnoc([], 0, width);
      var i := 0;
      while i < n
        invariant 0 <= i <= n && accumulator < 8
        invariant ReadValues(s, start, 2 * i, width).Some?
        invariant Pos() == ReadValues(s, start, 2 * i, width).value.1
        invariant outputSamplesA[..i] == EverySecond(AsSamples(ReadValues(s, start, 2 * i, width).value.0, width), 0)
        invariant outputSamplesB[..i] == EverySecond(AsSamples(ReadValues(s, start, 2 * i, width).value.0, width), 1)
      {
        NextValue(s, start, 2 * i, 2 * n, width);
        NextValue(s, start, 2 * i + 1, 2 * n, width);
        ghost var values := ReadValues(s, start, 2 * i, width).value.0;
        ghost var v, v' := ReadValues(s, start, 2 * i + 1, width).value.0[2 * i],
                           ReadValues(s, start, 2 * i + 2, width).value.0[2 * i + 1];
        ghost var doneA, doneB := outputSamplesA[..i], outputSamplesB[..i];
        var audiobitsA := ReadRawSample();
        var audiobitsB := ReadRawSample();
        outputSamplesA[i] := audiobitsA;
        outputSamplesB[i] := audiobitsB;
        assert outputSamplesA[..i + 1] == doneA + [audiobitsA] && outputSamplesB[..i + 1] == doneB + [audiobitsB];
        AsSamplesSnoc(values, v, width);
        AsSamplesSnoc(values + [v], v', width);
        assert AsSamples(values, width) + [audiobitsA] + [audiobitsB]
            == AsSamples(values, width) + [audiobitsA, audiobitsB];
        EverySecondSnoc(AsSamples(values, width), audiobitsA, audiobitsB);
        i := i + 1;
      }
    }

    /** The compressed case of a mono frame. */
    method DecodeMono(n: nat, lowBytes: nat)
      requires Buffers() && accumulator < 8 && 1 <= n <= config.maxSamples && lowBytes <= 3
      requires ReadMono(config, Payload(input), Pos(), n, lowBytes).Some?
      modifies this`offset, this`accumulator, uncompressedA, predictErrorA, outputSamplesA
      ensures accumulator < 8
      ensures ReadMono(config, Payload(input), old(Pos()), n, lowBytes)
           == Some(Mono(outputSamplesA[..n], if lowBytes == 0 then [] else uncompressedA[..n]))
    {
      hide Payload, Rice.ReadNum, ReadHeader, ReadLowBytes, ReadChannel;
      var table := new int[32];
      var skipped := ReadBits(8);
      skipped := ReadBits(8);
      var kind, quant, riceModifier, num := ReadHeaderFields(table);
      ghost var h := Header(kind, quant, riceModifier, table[..num]);
      ReadLowMono(n, lowBytes);
      ReadChannelLegal(config, Payload(input), Pos(), n, h, config.sampleSize - 8 * lowBytes);
      DecodeChannel(predictErrorA, outputSamplesA, n, config.sampleSize - 8 * lowBytes,
                    h, table, num, quant, riceModifier);
    }

    /** The compressed case of a two-channel frame. */
    method DecodeStereo(n: nat, lowBytes: nat) returns (shift: nat, weight: nat)
      requires Buffers() && accumulator < 8 && 1 <= n <= config.maxSamples && lowBytes <= 3
      requires ReadStereo(config, Payload(input), Pos(), n, lowBytes).Some?
      modifies this`offset, this`accumulator, uncompressedA, uncompressedB
      modifies predictErrorA, predictErrorB, outputSamplesA, outputSamplesB
      ensures accumulator < 8 && (weight != 0 ==> shift <= 31)
      ensures ReadStereo(config, Payload(input), old(Pos()), n, lowBytes)
           == Some(Deinterlace.StereoOf(outputSamplesA[..n], outputSamplesB[..n],
                                        uncompressedA[..n], uncompressedB[..n],
                                        lowBytes, shift, weight))
    {
      hide Payload, Rice.ReadNum, ReadHeader, ReadValues, ReadChannel, EverySecond;
      var tableA := new int[32];
      var tableB := new int[32];
      shift := ReadBits(8);
      weight := ReadBits(8);
      var kindA, quantA, riceModifierA, numA := ReadHeaderFields(tableA);
      ghost var ha := Header(kindA, quantA, riceModifierA, tableA[..numA]);
      var kindB, quantB, riceModifierB, numB := ReadHeaderFields(tableB);
      ghost var hb := Header(kindB, quantB, riceModifierB, tableB[..numB]);
      if lowBytes != 0 {
        ReadLowStereo(n, lowBytes);
      }
      var size := config.sampleSize - 8 * lowBytes + 1;
      ReadChannelLegal(config, Payload(input), Pos(), n, ha, size);
      DecodeChannel(predictErrorA, outputSamplesA, n, size, ha, tableA, numA, quantA, riceModifierA);
      DecodeChannel(predictErrorB, outputSamplesB, n, size, hb, tableB, numB, quantB, riceModifierB);
      NoSecond();
    }
  
    // ----- whole frames -----

    /** The flags and the sample count behind the channel count. */
    method ReadPreambleFields() returns (pre: Preamble)
      requires config.Valid() && accumulator < 8
      requires ReadPreamble(config, Payload(input), Pos()).Some?
      modifies this`offset, this`accumulator
      ensures accumulator < 8 && pre.lowBytes <= 3
      ensures ReadPreamble(config, Payload(input), old(Pos())) == Some((pre, Pos()))
    {
      hide Payload, Rice.ReadNum;
      var skipped := ReadBits(4);
      skipped := ReadBits(12);
      var hasSize := ReadBits(1);
      TwoBits(Payload(input), Pos());
      var lowBytes := ReadBits(2);
      var isNotCompressed := ReadBits(1);
      var outputSamples := config.maxSamples;
      if hasSize != 0 {
        outputSamples := ReadBits(32);
      }
      pre := Preamble(hasSize != 0, lowBytes, isNotCompressed != 0, outputSamples);
    }

    /** The samples of a frame, in the channel buffers; shift and weight are 0 unless the frame is mixed. */
    method DecodeChannels(n: nat, lowBytes: nat, raw: bool, stereo: bool) returns (shift: nat, weight: nat)
      requires Buffers() && accumulator < 8 && 1 <= n <= config.maxSamples && lowBytes <= 3
      requires ReadChannels(config, Payload(input), Pos(), n, lowBytes, raw, stereo).Some?
      modifies this`offset, this`accumulator, uncompressedA, uncompressedB
      modifies predictErrorA, predictErrorB, outputSamplesA, outputSamplesB
      ensures accumulator < 8
      ensures ReadChannels(config, Payload(input), old(Pos()), n, lowBytes, raw, stereo)
           == Some(HeldChannels(n, if raw then 0 else lowBytes, stereo, shift, weight))
    {
      hide Payload, ReadValues, ReadMono, ReadStereo, EverySecond, AsSamples;
      shift, weight := 0, 0;
      if raw {
        if stereo {
          DecodeRawStereo(n);
        } else {
          DecodeRawMono(n);
        }
      } else if stereo {
        shift, weight := DecodeStereo(n, lowBytes);
      } else {
        DecodeMono(n, lowBytes);
      }
    }

    /** What the buffers hold for the output step. */
    ghost function HeldChannels(n: nat, lowBytes: nat, stereo: bool, shift: nat, weight: nat): Channels
      requires Buffers() && n <= config.maxSamples
      reads outputSamplesA, outputSamplesB, uncompressedA, uncompressedB
    {
      if stereo then
        Deinterlace.StereoOf(outputSamplesA[..n], outputSamplesB[..n], uncompressedA[..n], uncompressedB[..n],
                             lowBytes, shift, weight)
      else
        Mono(outputSamplesA[..n], if lowBytes == 0 then [] else uncompressedA[..n])
    }

    /** The switch on the sample size that ends either case. */
    method WriteOutput(out: array<Byte>, n: nat, lowBytes: nat, stereo: bool, shift: nat, weight: nat)
      requires Buffers() && n <= config.maxSamples && config.numChannels >= (if stereo then 2 else 1)
      requires WellFormed(HeldChannels(n, lowBytes, stereo, shift, weight), n, lowBytes)
      requires n * config.BytesPerSample() <= out.Length
      modifies out
      ensures Room(out.Length, FrameBytes(config, HeldChannels(n, lowBytes, stereo, shift, weight), n, lowBytes),
                   config.BytesPerSample())
      ensures out[..] == PutFrames(old(out[..]),
                FrameBytes(config, HeldChannels(n, lowBytes, stereo, shift, weight), n, lowBytes),
                config.BytesPerSample())
    {
      FramesHaveRoom(config, HeldChannels(n, lowBytes, stereo, shift, weight), n, lowBytes, out.Length);
      hide WellFormed, Room, FrameBytes, PutFrames;
      if !stereo {
        Deinterlace.OutputMono(config, outputSamplesA, uncompressedA, lowBytes, out, n);
      } else if config.sampleSize == 16 {
        Deinterlace.Deinterlace16(config, outputSamplesA, outputSamplesB, out, n, lowBytes, shift, weight,
                                  uncompressedA[..n], uncompressedB[..n]);
      } else {
        Deinterlace.Deinterlace24(config, outputSamplesA, outputSamplesB, lowBytes, uncompressedA, uncompressedB,
                                  out, n, shift, weight);
      }
    }

    /** The part of alac_decode_frame behind the channel count. */
    method DecodeBody(stereo: bool, out: array<Byte>, allocation: nat) returns (outputSize: int)
      requires Buffers() && accumulator < 8 && config.maxSamples * config.BytesPerSample() <= allocation <= out.Length
      requires ReadBody(config, Payload(input), Pos(), stereo, allocation).Some?
      modifies this`offset, this`accumulator, uncompressedA, uncompressedB
      modifies predictErrorA, predictErrorB, outputSamplesA, outputSamplesB, out
      ensures var d := ReadBody(config, Payload(input), old(Pos()), stereo, allocation).value;
        && outputSize == d.outputSize
        && Room(out.Length, d.frames, config.BytesPerSample())
        && out[..] == PutFrames(old(out[..]), d.frames, config.BytesPerSample())
    {
      hide Payload, ReadPreamble, ReadChannels, FrameBytes, Wrap32, WellFormed;
      var pre := ReadPreambleFields();
      var n := pre.count;
      outputSize := if pre.hasSize then Wrap32(Wrap32(n) * config.BytesPerSample()) else n * config.BytesPerSample();
      if pre.hasSize && outputSize > allocation {
        outputSize := 0;
        return;
      }
      BodySize(config, Payload(input), old(Pos()), stereo, allocation, pre, Pos());
      var shift, weight := DecodeChannels(n, pre.lowBytes, pre.raw, stereo);
      WriteOutput(out, n, if pre.raw then 0 else pre.lowBytes, stereo, shift, weight);
    }

    /** alac_decode_frame: the reported size and the bytes written are those of ReadFrame; nothing else changes. */
    method DecodeFrame(inbuffer: seq<Byte>, out: array<Byte>, allocation: nat) returns (outputSize: int)
      requires Buffers() && allocation <= out.Length
      requires ReadFrame(config, Payload(inbuffer), allocation).Some?
      modifies this, uncompressedA, uncompressedB
      modifies predictErrorA, predictErrorB, outputSamplesA, outputSamplesB, out
      ensures var d := ReadFrame(config, Payload(inbuffer), allocation).value;
        && outputSize == d.outputSize
        && Room(out.Length, d.frames, config.BytesPerSample())
        && out[..] == PutFrames(old(out[..]), d.frames, config.BytesPerSample())
    {
      hide Payload, ReadBody, Rice.ReadNum;
      input, offset, accumulator := inbuffer, 0, 0;
      var channels := ReadBits(3);
      outputSize := config.maxSamples * config.BytesPerSample();
      if outputSize > allocation {
        outputSize := 0;
        return;
      }
      if channels == 0 {
        outputSize := DecodeBody(false, out, allocation);
      } else if channels == 1 {
        outputSize := DecodeBody(true, out, allocation);
      }
    }
  }
}

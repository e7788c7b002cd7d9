/** From bytes to bytes: a packed frame with trailing padding decodes to the original samples, in place. */
module WholeFrame {
  import opened Words
  import opened Wrappers
  import opened Frame
  import opened Encoder
  import Output
  import Alac

  // ----- packing bits into bytes -----

  function ZeroBits(n: nat): (z: Bits)
    ensures |z| == n
  {
    seq(n, _ => false)
  }

  function ByteOf(s: Bits): Byte
    requires |s| == 8
  {
    NumBound(s);
    Pow2Values();
    Num(s)
  }

  /** A bit string as bytes, the last one filled up with zeros. */
  function Pack(s: Bits): (r: seq<Byte>)
    ensures |s| <= 8 * |r| < |s| + 8
  {
    if s == [] then []
    else if |s| < 8 then [ByteOf(s + ZeroBits(8 - |s|))]
    else [ByteOf(s[..8])] + Pack(s[8..])
  }

  lemma {:induction false} BitsOfNum(s: Bits)
    ensures BitsOf(|s|, Num(s)) == s
  {
    if s != [] {
      var front := s[..|s| - 1];
      BitsOfNum(front);
      DivModUnique(Num(s), 2, Num(front), if s[|s| - 1] then 1 else 0);
      assert s == front + [s[|s| - 1]];
    }
  }

  lemma {:induction false} PackedBits(s: Bits, padding: seq<Byte>)
    ensures At(Unpack(Pack(s) + padding), 0, s)
  {
    hide Num, BitsOf;
    var bytes := Pack(s) + padding;
    if s == [] {
    } else if |s| < 8 {
      BitsOfNum(s + ZeroBits(8 - |s|));
      UnpackByte(bytes, 0);
      assert Unpack(bytes)[0..8][..|s|] == Unpack(bytes)[..|s|];
    } else {
      BitsOfNum(s[..8]);
      PackedBits(s[8..], padding);
      assert bytes[1..] == Pack(s[8..]) + padding;
      assert Unpack(bytes) == BitsOf(8, bytes[0]) + Unpack(bytes[1..]);
      assert s == s[..8] + s[8..];
    }
  }

  /** Three bytes of padding are enough for the windowed reader and its look-ahead. */
  lemma PackedPayload(s: Bits, padding: seq<Byte>)
    requires |padding| >= 3
    ensures At(Alac.Payload(Pack(s) + padding), 0, s) && |s| < |Alac.Payload(Pack(s) + padding)|
  {
    hide Pack, Unpack;
    PackedBits(s, padding);
    var all := Unpack(Pack(s) + padding);
    assert all[..|all| - 16][0..|s|] == all[0..|s|];
  }

  // ----- reading the output back -----

  lemma PutAt(out: seq<Byte>, start: nat, bs: seq<Byte>, at: nat)
    requires start + |bs| <= |out| && at < |out|
    ensures Put(out, start, bs)[at] == if start <= at < start + |bs| then bs[at - start] else out[at]
  {
  }

  lemma {:induction false} PutFramesAt(out: seq<Byte>, frames: seq<seq<Byte>>, stride: nat, i: nat, k: nat)
    requires Room(|out|, frames, stride) && i < |frames| && k < |frames[i]|
    requires forall j :: 0 <= j < |frames| ==> |frames[j]| <= stride
    ensures i * stride + k < |out|
    ensures PutFrames(out, frames, stride)[i * stride + k] == frames[i][k]
    decreases |frames|
  {
    hide Room, Put;
    var n := |frames| - 1;
    RoomAt(|out|, frames, stride, i);
    RoomAt(|out|, frames, stride, n);
    PutAt(PutFrames(out, frames[..n], stride), n * stride, frames[n], i * stride + k);
    if i < n {
      StrideApart(i, n, stride);
      PutFramesAt(out, frames[..n], stride, i, k);
    }
  }

  lemma StrideApart(i: nat, n: nat, stride: nat)
    requires i < n
    ensures i * stride + stride <= n * stride
  {
    if stride > 0 {
      MulLess(i, n, stride);
    }
  }

  lemma RoomAt(out: nat, frames: seq<seq<Byte>>, stride: nat, i: nat)
    requires Room(out, frames, stride) && i < |frames|
    ensures i * stride + |frames[i]| <= out && Room(out, frames[..|frames| - 1], stride)
  {
  }

  /** Position at lies in no sample frame. */
  ghost predicate Outside(frames: seq<seq<Byte>>, stride: nat, at: nat) {
    forall j :: 0 <= j < |frames| ==> at < j * stride || j * stride + |frames[j]| <= at
  }

  lemma OutsideFewer(frames: seq<seq<Byte>>, stride: nat, at: nat)
    requires Outside(frames, stride, at) && frames != []
    ensures Outside(frames[..|frames| - 1], stride, at)
    ensures var n := |frames| - 1; at < n * stride || n * stride + |frames[n]| <= at
  {
  }

  /** Bytes that belong to no sample frame keep their value. */
  lemma {:induction false} PutFramesElsewhere(out: seq<Byte>, frames: seq<seq<Byte>>, stride: nat, at: nat)
    requires Room(|out|, frames, stride) && at < |out| && Outside(frames, stride, at)
    ensures PutFrames(out, frames, stride)[at] == out[at]
    decreases |frames|
  {
    hide Room, Outside, Put;
    if frames != [] {
      var n := |frames| - 1;
      RoomAt(|out|, frames, stride, n);
      OutsideFewer(frames, stride, at);
      PutFramesElsewhere(out, frames[..n], stride, at);
      PutAt(PutFrames(out, frames[..n], stride), n * stride, frames[n], at);
    }
  }

  /** Every frame's bytes stand at its place, and nothing else has changed. */
  ghost predicate InPlace(before: seq<Byte>, after: seq<Byte>, frames: seq<seq<Byte>>, stride: nat)
    requires |after| == |before| && Room(|before|, frames, stride)
  {
    && (forall i, k :: 0 <= i < |frames| && 0 <= k < |frames[i]| ==> after[i * stride + k] == frames[i][k])
    && (forall at :: 0 <= at < |before| && Outside(frames, stride, at) ==> after[at] == before[at])
  }

  lemma PutFramesInPlace(out: seq<Byte>, frames: seq<seq<Byte>>, stride: nat)
    requires Room(|out|, frames, stride)
    requires forall j :: 0 <= j < |frames| ==> |frames[j]| <= stride
    ensures InPlace(out, PutFrames(out, frames, stride), frames, stride)
  {
    hide PutFrames, Outside;
    var after := PutFrames(out, frames, stride);
    forall i, k | 0 <= i < |frames| && 0 <= k < |frames[i]| ensures after[i * stride + k] == frames[i][k] {
      PutFramesAt(out, frames, stride, i, k);
    }
    forall at | 0 <= at < |out| && Outside(frames, stride, at) ensures after[at] == out[at] {
      PutFramesElsewhere(out, frames, stride, at);
    }
  }

  // ----- the theorem -----

  /** The input buffer that carries an encoded frame. */
  function Input(c: Config, f: Block, padding: seq<Byte>): seq<Byte>
    requires Legal(c, f)
  {
    Pack(EncodeFrame(c, f)) + padding
  }

  /** What alac_decode_frame leaves for an encoded frame: the block's size, and every sample's bytes in place. */
  lemma DecodedInPlace(c: Config, f: Block, padding: seq<Byte>, out: seq<Byte>, allocation: nat)
    requires Legal(c, f) && Output.LowBytesKept(c, f) && |padding| >= 3
    requires c.maxSamples * c.BytesPerSample() <= allocation <= |out|
    ensures ReadFrame(c, Alac.Payload(Input(c, f, padding)), allocation)
         == Some(Decoded(|f.left| * c.BytesPerSample(), Output.SampleFrames(c, f)))
    ensures Room(|out|, Output.SampleFrames(c, f), c.BytesPerSample())
    ensures InPlace(out, PutFrames(out, Output.SampleFrames(c, f), c.BytesPerSample()),
                    Output.SampleFrames(c, f), c.BytesPerSample())
  {
    hide EncodeFrame, ReadFrame, Pack, Alac.Payload, PutFrames, CompressedLegal, InPlace;
    PackedPayload(EncodeFrame(c, f), padding);
    Output.FrameLossless(Alac.Payload(Input(c, f, padding)), c, f, allocation);
    OriginalFits(c, f, |out|);
    PutFramesInPlace(out, Output.SampleFrames(c, f), c.BytesPerSample());
  }

  lemma OriginalFits(c: Config, f: Block, length: nat)
    requires Legal(c, f) && c.maxSamples * c.BytesPerSample() <= length
    ensures var original := Output.SampleFrames(c, f);
      && Room(length, original, c.BytesPerSample())
      && forall j :: 0 <= j < |original| ==> |original[j]| <= c.BytesPerSample()
  {
    hide CompressedLegal, AllFit, LittleEndian;
    var original, b := Output.SampleFrames(c, f), c.BytesPerSample();
    MulMonotone(if f.stereo then 2 else 1, c.numChannels, c.SampleBytes());
    forall j | 0 <= j < |original| ensures j * b + |original[j]| <= length && |original[j]| <= b {
      MulLess(j, c.maxSamples, b);
    }
  }

  /** The decoder object itself, run on an encoded frame. */
  method DecodeEncoded(alac: Alac.AlacFile, f: Block, padding: seq<Byte>, out: array<Byte>, allocation: nat)
    returns (outputSize: int)
    requires alac.Buffers() && Legal(alac.config, f) && Output.LowBytesKept(alac.config, f) && |padding| >= 3
    requires alac.config.maxSamples * alac.config.BytesPerSample() <= allocation <= out.Length
    modifies alac, alac.uncompressedA, alac.uncompressedB, alac.predictErrorA, alac.predictErrorB
    modifies alac.outputSamplesA, alac.outputSamplesB, out
    ensures outputSize == |f.left| * alac.config.BytesPerSample()
    ensures Room(out.Length, Output.SampleFrames(alac.config, f), alac.config.BytesPerSample())
    ensures InPlace(old(out[..]), out[..], Output.SampleFrames(alac.config, f), alac.config.BytesPerSample())
  {
    hide EncodeFrame, ReadFrame, Pack, Alac.Payload, PutFrames, CompressedLegal, InPlace;
    DecodedInPlace(alac.config, f, padding, out[..], allocation);
    outputSize := alac.DecodeFrame(Input(alac.config, f, padding), out, allocation);
  }
}

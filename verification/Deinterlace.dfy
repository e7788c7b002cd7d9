/** The output loops of alac.c: un-mixing two channels and storing samples little-endian in place. */
module Deinterlace {
  import opened Words
  import opened Frame

  lemma LittleEndianBytes(v: int)
    ensures LittleEndian(2, v) == [LowByte(v), LowByte(v / 256)]
    ensures LittleEndian(3, v) == [LowByte(v), LowByte(v / 256), LowByte(v / 0x1_0000)]
  {
    DivTwice(v, 256, 256);
    assert LittleEndian(0, v / 256 / 256 / 256) == [];
    assert LittleEndian(1, v / 256 / 256) == [LowByte(v / 256 / 256)];
    assert LittleEndian(1, v / 256) == [LowByte(v / 256)];
    assert LittleEndian(2, v / 256) == [LowByte(v / 256)] + LittleEndian(1, v / 256 / 256);
  }

  /** One sample into two or three bytes. */
  method Store(out: array<Byte>, at: nat, bytes: nat, v: int)
    requires 2 <= bytes <= 3 && at + bytes <= out.Length
    modifies out
    ensures out[..] == Put(old(out[..]), at, LittleEndian(bytes, v))
  {
    LittleEndianBytes(v);
    out[at] := LowByte(v);
    out[at + 1] := LowByte(v / 256);
    if bytes == 3 {
      out[at + 2] := LowByte(v / 0x1_0000);
    }
  }

  lemma PutTwice(out: seq<Byte>, at: nat, x: seq<Byte>, y: seq<Byte>)
    requires at + |x| + |y| <= |out|
    ensures Put(Put(out, at, x), at + |x|, y) == Put(out, at, x + y)
  {
  }

  lemma PutFramesSnoc(out: seq<Byte>, frames: seq<seq<Byte>>, i: nat, stride: nat)
    requires i < |frames| && Room(|out|, frames, stride)
    ensures Room(|out|, frames[..i], stride) && Room(|out|, frames[..i + 1], stride)
    ensures i * stride + |frames[i]| <= |out|
    ensures PutFrames(out, frames[..i + 1], stride)
         == Put(PutFrames(out, frames[..i], stride), i * stride, frames[i])
  {
    assert frames[..i + 1][..i] == frames[..i];
  }

  lemma PutNone(out: seq<Byte>, frames: seq<seq<Byte>>, stride: nat)
    ensures Room(|out|, frames[..0], stride) && PutFrames(out, frames[..0], stride) == out
  {
  }

  /** The mono output loop. */
  method OutputMono(c: Config, a: array<int>, lowA: array<int>, lowBytes: nat, out: array<Byte>, n: nat)
    requires c.Valid() && n <= a.Length && n <= lowA.Length
    requires WellFormed(Mono(a[..n], if lowBytes == 0 then [] else lowA[..n]), n, lowBytes)
    requires Room(out.Length, FrameBytes(c, Mono(a[..n], if lowBytes == 0 then [] else lowA[..n]), n, lowBytes),
                  c.BytesPerSample())
    modifies out
    ensures out[..] == PutFrames(old(out[..]),
                         FrameBytes(c, Mono(old(a[..n]), if lowBytes == 0 then [] else old(lowA[..n])), n, lowBytes),
                         c.BytesPerSample())
  {
    hide Join, LittleEndian, Put, Room, PutFrames;
    var stride := c.BytesPerSample();
    ghost var frames := FrameBytes(c, Mono(a[..n], if lowBytes == 0 then [] else lowA[..n]), n, lowBytes);
    ghost var before := out[..];
    PutNone(before, frames, stride);
    var i := 0;
    while i < n
      invariant 0 <= i <= n
      invariant Room(|before|, frames[..i], stride) && out[..] == PutFrames(before, frames[..i], stride)
    {
      PutFramesSnoc(before, frames, i, stride);
      var sample := a[i];
      if c.sampleSize == 24 && lowBytes != 0 {
        sample := Join(sample, lowA[i], lowBytes);
      } else if c.sampleSize == 24 {
        NothingSplit(sample);
      }
      assert frames[i] == LittleEndian(c.SampleBytes(), sample);
      Store(out, i * stride, c.SampleBytes(), sample);
      i := i + 1;
    }
    assert frames[..n] == frames;
  }

  lemma NothingSplit(v: int)
    ensures Join(v, 0, 0) == v
  {
  }

  /** The channels as the two-channel output functions receive them. */
  ghost function StereoOf(a: seq<int>, b: seq<int>, lowA: seq<int>, lowB: seq<int>, lowBytes: nat,
                          shift: nat, weight: nat): Channels
  {
    Stereo(a, b, if lowBytes == 0 then [] else lowA, if lowBytes == 0 then [] else lowB, shift, weight)
  }

  /** The two stores that end a turn of either two-channel loop. */
  method StorePair(out: array<Byte>, at: nat, bytes: nat, left: int, right: int)
    requires 2 <= bytes <= 3 && at + 2 * bytes <= out.Length
    modifies out
    ensures out[..] == Put(old(out[..]), at, LittleEndian(bytes, left) + LittleEndian(bytes, right))
  {
    hide LittleEndian;
    PutTwice(out[..], at, LittleEndian(bytes, left), LittleEndian(bytes, right));
    hide Put;
    Store(out, at, bytes, left);
    Store(out, at + bytes, bytes, right);
  }

  /** deinterlace_16: the int16_t right channel is cut to 16 bits before the left one is formed from it. */
  method Deinterlace16(c: Config, a: array<int>, b: array<int>, out: array<Byte>, n: nat, lowBytes: nat,
                       shift: nat, weight: nat, ghost lowA: seq<int>, ghost lowB: seq<int>)
    requires c.Valid() && c.sampleSize == 16 && n <= a.Length && n <= b.Length
    requires WellFormed(StereoOf(a[..n], b[..n], lowA, lowB, lowBytes, shift, weight), n, lowBytes)
    requires Room(out.Length,
                  FrameBytes(c, StereoOf(a[..n], b[..n], lowA, lowB, lowBytes, shift, weight), n, lowBytes),
                  c.BytesPerSample())
    modifies out
    ensures out[..] == PutFrames(old(out[..]),
      FrameBytes(c, StereoOf(old(a[..n]), old(b[..n]), lowA, lowB, lowBytes, shift, weight), n, lowBytes),
      c.BytesPerSample())
  {
    hide Join, LittleEndian, Put, Signed, Share, Room, PutFrames;
    var stride := c.BytesPerSample();
    ghost var frames := FrameBytes(c, StereoOf(a[..n], b[..n], lowA, lowB, lowBytes, shift, weight), n, lowBytes);
    ghost var before := out[..];
    PutNone(before, frames, stride);
    var i := 0;
    while i < n
      invariant 0 <= i <= n
      invariant Room(|before|, frames[..i], stride) && out[..] == PutFrames(before, frames[..i], stride)
    {
      PutFramesSnoc(before, frames, i, stride);
      var left, right := a[i], b[i];
      if weight != 0 {
        var midright, difference := a[i], b[i];
        right := Signed(midright - Share(difference, shift, weight), 16);
        left := Signed(right + difference, 16);
      }
      assert frames[i] == LittleEndian(2, left) + LittleEndian(2, right);
      StorePair(out, i * stride, 2, left, right);
      i := i + 1;
    }
    assert frames[..n] == frames;
  }

  /** deinterlace_24: un-mixing in 32 bits, then the low bytes are put back under each channel. */
  method Deinterlace24(c: Config, a: array<int>, b: array<int>, lowBytes: nat, lowA: array<int>, lowB: array<int>,
                       out: array<Byte>, n: nat, shift: nat, weight: nat)
    requires c.Valid() && c.sampleSize == 24
    requires n <= a.Length && n <= b.Length && n <= lowA.Length && n <= lowB.Length
    requires WellFormed(StereoOf(a[..n], b[..n], lowA[..n], lowB[..n], lowBytes, shift, weight), n, lowBytes)
    requires Room(out.Length,
                  FrameBytes(c, StereoOf(a[..n], b[..n], lowA[..n], lowB[..n], lowBytes, shift, weight), n, lowBytes),
                  c.BytesPerSample())
    modifies out
    ensures out[..] == PutFrames(old(out[..]),
      FrameBytes(c, StereoOf(old(a[..n]), old(b[..n]), old(lowA[..n]), old(lowB[..n]), lowBytes, shift, weight),
                 n, lowBytes),
      c.BytesPerSample())
  {
    hide Join, LittleEndian, Put, Signed, Share, Room, PutFrames;
    var stride := c.BytesPerSample();
    ghost var frames :=
      FrameBytes(c, StereoOf(a[..n], b[..n], lowA[..n], lowB[..n], lowBytes, shift, weight), n, lowBytes);
    ghost var before := out[..];
    PutNone(before, frames, stride);
    var i := 0;
    while i < n
      invariant 0 <= i <= n
      invariant Room(|before|, frames[..i], stride) && out[..] == PutFrames(before, frames[..i], stride)
    {
      PutFramesSnoc(before, frames, i, stride);
      var left, right := a[i], b[i];
      if weight != 0 {
        var midright, difference := a[i], b[i];
        right := Signed(midright - Share(difference, shift, weight), 32);
        left := Signed(right + difference, 32);
      }
      if lowBytes != 0 {
        left := Join(left, lowA[i], lowBytes);
        right := Join(right, lowB[i], lowBytes);
      } else {
        NothingSplit(left);
        NothingSplit(right);
      }
      assert frames[i] == LittleEndian(3, left) + LittleEndian(3, right);
      StorePair(out, i * stride, 3, left, right);
      i := i + 1;
    }
    assert frames[..n] == frames;
  }
}

/** The dithered silence of common.c. */
module Silence {
  import opened Words
  import opened Wrappers
  import opened Frame
  import opened Deinterlace
  import opened Formats
  import Random

  const SPS_FORMAT_AUTO := 14
  const SPS_FORMAT_INVALID := 15

  const SAMPLE_SIZES: seq<nat> := [0, 1, 1, 2, 2, 4, 4, 3] + [3, 4, 4, 2, 4, 4, 0, 0]

  /** sps_format_sample_size. */
  function SampleSize(format: nat): nat {
    if format <= SPS_FORMAT_AUTO then SAMPLE_SIZES[format] else 0
  }

  /** The significant bits of a sample. */
  function Width(format: int): (w: nat)
    requires IsRecognised(format)
    ensures w == 8 || w == 16 || w == 24 || w == 32
  {
    if format <= SPS_FORMAT_U8 then 8
    else if format <= SPS_FORMAT_S16_BE || format == SPS_FORMAT_S16 then 16
    else if format <= SPS_FORMAT_S24_3BE || format == SPS_FORMAT_S24 then 24
    else 32
  }

  // ----- the dither -----

  /** The weight of a sample's last bit in 64 bits. */
  function Step(format: int): (m: nat)
    requires IsRecognised(format)
    ensures m > 0
  {
    Pow2(64 - Width(format))
  }

  /** The random number under the dither mask. */
  function Masked(r: int, format: int): (m: nat)
    requires IsRecognised(format)
    ensures m < Step(format)
  {
    r % Step(format)
  }

  /** The widths, format by format. */
  lemma WidthOf(format: int)
    requires IsRecognised(format)
    ensures format in {SPS_FORMAT_S8, SPS_FORMAT_U8} ==> Width(format) == 8
    ensures format in {SPS_FORMAT_S16, SPS_FORMAT_S16_LE, SPS_FORMAT_S16_BE} ==> Width(format) == 16
    ensures format in {SPS_FORMAT_S24, SPS_FORMAT_S24_LE, SPS_FORMAT_S24_BE} ==> Width(format) == 24
    ensures format in {SPS_FORMAT_S24_3LE, SPS_FORMAT_S24_3BE} ==> Width(format) == 24
    ensures format in {SPS_FORMAT_S32, SPS_FORMAT_S32_LE, SPS_FORMAT_S32_BE} ==> Width(format) == 32
  {
  }

  /** The mask keeps the bits below the sample's width, and clears those of the sample itself. */
  lemma MaskKeepsLowBits(r: nat, format: int, i: nat)
    requires IsRecognised(format) && i < 64
    ensures BitsOf(64, Masked(r, format))[i] <==> i >= Width(format) && BitsOf(64, r)[i]
  {
    hide Pow2;
    LowBits(64, r, 64 - Width(format), i);
  }

  lemma {:induction false} LowBits(n: nat, v: nat, k: nat, i: nat)
    requires k <= n && i < n
    ensures BitsOf(n, v % Pow2(k))[i] <==> i >= n - k && BitsOf(n, v)[i]
    decreases n
  {
    if k == 0 {
      assert v % Pow2(0) == 0;
      ZeroBits(n, i);
    } else {
      HalveResidue(v, k);
      var low := v / 2 % Pow2(k - 1);
      assert v % Pow2(k) / 2 == low && v % Pow2(k) % 2 == v % 2;
      if i < n - 1 {
        LowBits(n - 1, v / 2, k - 1, i);
      }
    }
  }

  lemma {:induction false} ZeroBits(n: nat, i: nat)
    requires i < n
    ensures !BitsOf(n, 0)[i]
  {
    if i < n - 1 {
      ZeroBits(n - 1, i);
    }
  }

  function Dither(r: int, previous: int, format: int): int
    requires IsRecognised(format)
  {
    Masked(r, format) - Masked(previous, format)
  }

  function Previous(draws: seq<int>, before: int): int {
    if draws == [] then before else draws[|draws| - 1]
  }

  /** The sum of the dither of all samples. */
  function Total(draws: seq<int>, before: int, format: int): int
    requires IsRecognised(format)
  {
    if draws == [] then 0
    else
      var rest := draws[..|draws| - 1];
      Total(rest, before, format) + Dither(draws[|draws| - 1], Previous(rest, before), format)
  }

  /** The dither telescopes: in the sum only the first and the last random number are left. */
  lemma {:induction false} Telescopes(draws: seq<int>, before: int, format: int)
    requires IsRecognised(format)
    ensures Total(draws, before, format)
            == Masked(Previous(draws, before), format) - Masked(before, format)
  {
    if draws != [] {
      Telescopes(draws[..|draws| - 1], before, format);
    }
  }

  // ----- storing a sample -----

  function Reverse(bytes: seq<Byte>): (r: seq<Byte>)
    ensures |r| == |bytes| && forall k :: 0 <= k < |r| ==> r[k] == bytes[|bytes| - 1 - k]
  {
    if bytes == [] then [] else Reverse(bytes[1..]) + [bytes[0]]
  }

  /** The ways a sample lies in memory. The four-byte 24-bit formats with an explicit byte order leave the spare byte
      zero; the one in the machine's order extends the sign into it. */
  datatype Layout = Unsigned | Little(bytes: nat) | Big(bytes: nat) | Little24AndZero | ZeroAndBig24 {
    function Size(): nat {
      match this
      case Unsigned => 1
      case Little(bytes) => bytes
      case Big(bytes) => bytes
      case _ => 4
    }

    /** The bits that carry the sample. */
    function Bits(): nat {
      match this
      case Little24AndZero => 24
      case ZeroAndBig24 => 24
      case _ => 8 * Size()
    }
  }

  function LayoutOf(format: int): Layout
    requires IsRecognised(format)
  {
    if format == SPS_FORMAT_S8 then Little(1)
    else if format == SPS_FORMAT_U8 then Unsigned
    else if format == SPS_FORMAT_S16_LE || format == SPS_FORMAT_S16 then Little(2)
    else if format == SPS_FORMAT_S16_BE then Big(2)
    else if format == SPS_FORMAT_S24_LE then Little24AndZero
    else if format == SPS_FORMAT_S24_BE then ZeroAndBig24
    else if format == SPS_FORMAT_S24_3LE then Little(3)
    else if format == SPS_FORMAT_S24_3BE then Big(3)
    else if format == SPS_FORMAT_S32_BE then Big(4)
    else Little(4)
  }

  /** The layouts take the room the table of sample sizes says. */
  lemma SizeOfLayout(format: int)
    requires IsRecognised(format)
    ensures LayoutOf(format).Size() == SampleSize(format)
  {
  }

  function Stored(s: int, layout: Layout): (bytes: seq<Byte>)
    ensures |bytes| == layout.Size()
  {
    match layout
    case Unsigned => [LowByte(128 + LowByte(s))]
    case Little(n) => LittleEndian(n, s)
    case Big(n) => Reverse(LittleEndian(n, s))
    case Little24AndZero => LittleEndian(3, s) + [0]
    case ZeroAndBig24 => [0] + Reverse(LittleEndian(3, s))
  }

  /** The bytes of a sample, format by format. */
  lemma StoredByFormat(s: int)
    ensures
      var b0, b1, b2, b3 := s % 0x100, s / 0x100 % 0x100, s / 0x1_0000 % 0x100, s / 0x100_0000 % 0x100;
      && Stored(s, LayoutOf(SPS_FORMAT_S8)) == [b0]
      && Stored(s, LayoutOf(SPS_FORMAT_U8)) == [(128 + s) % 0x100]
      && Stored(s, LayoutOf(SPS_FORMAT_S16_LE)) == Stored(s, LayoutOf(SPS_FORMAT_S16)) == [b0, b1]
      && Stored(s, LayoutOf(SPS_FORMAT_S16_BE)) == [b1, b0]
      && Stored(s, LayoutOf(SPS_FORMAT_S24_3LE)) == [b0, b1, b2]
      && Stored(s, LayoutOf(SPS_FORMAT_S24_3BE)) == [b2, b1, b0]
      && Stored(s, LayoutOf(SPS_FORMAT_S24_LE)) == [b0, b1, b2, 0]
      && Stored(s, LayoutOf(SPS_FORMAT_S24_BE)) == [0, b2, b1, b0]
      && Stored(s, LayoutOf(SPS_FORMAT_S24)) == Stored(s, LayoutOf(SPS_FORMAT_S32)) == [b0, b1, b2, b3]
      && Stored(s, LayoutOf(SPS_FORMAT_S32_LE)) == [b0, b1, b2, b3]
      && Stored(s, LayoutOf(SPS_FORMAT_S32_BE)) == [b3, b2, b1, b0]
  {
    hide Stored;
    StoredUnsigned(s);
    StoredLittle(s);
    StoredBig(s);
  }

  lemma StoredUnsigned(s: int)
    ensures Stored(s, Unsigned) == [(128 + s) % 0x100]
  {
    OffsetByte(s, 128);
  }

  lemma OffsetByte(s: int, offset: int)
    ensures (offset + s % 256) % 256 == (offset + s) % 256
  {
  }

  lemma StoredLittle(s: int)
    ensures
      var b0, b1, b2, b3 := s % 0x100, s / 0x100 % 0x100, s / 0x1_0000 % 0x100, s / 0x100_0000 % 0x100;
      && Stored(s, Little(1)) == [b0] && Stored(s, Little(2)) == [b0, b1] && Stored(s, Little(3)) == [b0, b1, b2]
      && Stored(s, Little(4)) == [b0, b1, b2, b3] && Stored(s, Little24AndZero) == [b0, b1, b2, 0]
  {
    BytesOf(s);
    hide LittleEndian, Reverse;
  }

  lemma StoredBig(s: int)
    ensures
      var b0, b1, b2, b3 := s % 0x100, s / 0x100 % 0x100, s / 0x1_0000 % 0x100, s / 0x100_0000 % 0x100;
      && Stored(s, Big(2)) == [b1, b0] && Stored(s, Big(3)) == [b2, b1, b0] && Stored(s, Big(4)) == [b3, b2, b1, b0]
      && Stored(s, ZeroAndBig24) == [0, b2, b1, b0]
  {
    BytesOf(s);
    hide LittleEndian, Reverse;
    var b0, b1, b2, b3 := s % 0x100, s / 0x100 % 0x100, s / 0x1_0000 % 0x100, s / 0x100_0000 % 0x100;
    ReverseIs([b0, b1], [b1, b0]);
    ReverseIs([b0, b1, b2], [b2, b1, b0]);
    ReverseIs([b0, b1, b2, b3], [b3, b2, b1, b0]);
  }

  lemma ReverseIs(bytes: seq<Byte>, back: seq<Byte>)
    requires |back| == |bytes| && forall k :: 0 <= k < |back| ==> back[k] == bytes[|bytes| - 1 - k]
    ensures Reverse(bytes) == back
  {
    hide Reverse;
    assert forall k :: 0 <= k < |bytes| ==> Reverse(bytes)[k] == back[k];
  }

  function FromLittleEndian(bytes: seq<Byte>): nat {
    if bytes == [] then 0 else bytes[0] + 256 * FromLittleEndian(bytes[1..])
  }

  /** What a device reads from the bytes of a sample. */
  function Reading(bytes: seq<Byte>, layout: Layout): int
    requires |bytes| == layout.Size() > 0
  {
    match layout
    case Unsigned => bytes[0] - 128
    case Little(n) => Signed(FromLittleEndian(bytes), 8 * n)
    case Big(n) => Signed(FromLittleEndian(Reverse(bytes)), 8 * n)
    case Little24AndZero => Signed(FromLittleEndian(bytes[..3]), 24)
    case ZeroAndBig24 => Signed(FromLittleEndian(Reverse(bytes[1..])), 24)
  }

  lemma Recombine(q: int, p: int, r: int, low: int)
    ensures (q * p + r) * 256 + low == q * (p * 256) + (r * 256 + low)
  {
  }

  lemma ModTwice(v: int, p: int)
    requires p > 0
    ensures v % 256 + 256 * (v / 256 % p) == v % (p * 256)
  {
    DivModIdentity(v, 256);
    DivModIdentity(v / 256, p);
    var q, r, low := v / 256 / p, v / 256 % p, v % 256;
    Recombine(q, p, r, low);
    DivModUnique(v, p * 256, q, r * 256 + low);
  }

  lemma {:induction false} ReadBack(n: nat, v: int)
    ensures FromLittleEndian(LittleEndian(n, v)) == v % Pow2(8 * n)
  {
    if n > 0 {
      ReadBack(n - 1, v / 256);
      Pow2Values();
      Pow2Add(8 * (n - 1), 8);
      hide Pow2;
      ModTwice(v, Pow2(8 * (n - 1)));
      assert LittleEndian(n, v)[1..] == LittleEndian(n - 1, v / 256);
    } else {
      assert v % 1 == 0;
    }
  }

  lemma SignedReadBack(n: nat, v: int)
    requires n >= 1 && Fits(v, 8 * n)
    ensures Signed(FromLittleEndian(LittleEndian(n, v)), 8 * n) == v
  {
    ReadBack(n, v);
    hide LittleEndian, FromLittleEndian, Pow2;
    var m := 8 * n;
    DivModIdentity(v, Pow2(m));
    CongruentBy(v % Pow2(m), v, m, -(v / Pow2(m)));
    SignedUnique(v % Pow2(m), v, m);
  }

  lemma {:induction false} ReverseTwice(bytes: seq<Byte>)
    ensures Reverse(Reverse(bytes)) == bytes
  {
  }

  /** Reading a stored sample gives it back, in every layout it fits. */
  lemma StoredReads(s: int, layout: Layout)
    requires layout.Size() > 0 && Fits(s, layout.Bits())
    ensures Reading(Stored(s, layout), layout) == s
  {
    hide Signed, FromLittleEndian, LittleEndian, Pow2, Reverse, LowByte;
    match layout
    case Unsigned => Offset(s);
    case Little(n) => SignedReadBack(n, s);
    case Big(n) =>
      SignedReadBack(n, s);
      ReverseTwice(LittleEndian(n, s));
    case Little24AndZero =>
      SignedReadBack(3, s);
      assert Stored(s, layout)[..3] == LittleEndian(3, s);
    case ZeroAndBig24 =>
      SignedReadBack(3, s);
      ReverseTwice(LittleEndian(3, s));
      assert Stored(s, layout)[1..] == Reverse(LittleEndian(3, s));
  }

  lemma Offset(s: int)
    requires Fits(s, 8)
    ensures LowByte(128 + LowByte(s)) - 128 == s
  {
    Pow2Values();
  }

  // ----- a run of samples -----

  function Hyper(r: int, previous: int, dither: bool, format: int): int
    requires IsRecognised(format)
  {
    if dither then Dither(r, previous, format) else 0
  }

  /** The bytes of one sample: the top bits of the 64-bit value. */
  function SampleBytes(r: int, previous: int, dither: bool, format: int): (bytes: seq<Byte>)
    requires IsRecognised(format)
    ensures |bytes| == LayoutOf(format).Size()
  {
    Stored(Hyper(r, previous, dither, format) / Step(format), LayoutOf(format))
  }

  function Silence(draws: seq<int>, before: int, dither: bool, format: int): seq<Byte>
    requires IsRecognised(format)
  {
    if draws == [] then []
    else
      var rest := draws[..|draws| - 1];
      Silence(rest, before, dither, format)
      + SampleBytes(draws[|draws| - 1], Previous(rest, before), dither, format)
  }

  /** A chain of calls, each passing on the random number the last one returned, writes what one call would. */
  lemma {:induction false} Chained(first: seq<int>, second: seq<int>, before: int, dither: bool, format: int)
    requires IsRecognised(format)
    ensures Previous(first + second, before) == Previous(second, Previous(first, before))
    ensures Silence(first + second, before, dither, format)
            == Silence(first, before, dither, format) + Silence(second, Previous(first, before), dither, format)
    ensures Total(first + second, before, format)
            == Total(first, before, format) + Total(second, Previous(first, before), format)
  {
    if second == [] {
      assert first + second == first;
    } else {
      var rest := second[..|second| - 1];
      assert (first + second)[..|first + second| - 1] == first + rest;
      Chained(first, rest, before, dither, format);
    }
  }

  lemma {:induction false} SilenceLength(draws: seq<int>, before: int, dither: bool, format: int)
    requires IsRecognised(format)
    ensures |Silence(draws, before, dither, format)| == |draws| * SampleSize(format)
  {
    SizeOfLayout(format);
    hide LayoutOf, SampleSize, SampleBytes;
    if draws != [] {
      SilenceLength(draws[..|draws| - 1], before, dither, format);
      OneMore(|draws| - 1, SampleSize(format));
    }
  }

  lemma OneMore(n: nat, size: nat)
    ensures n * size + size == (n + 1) * size
  {
  }

  lemma Inside(k: nat, n: nat, size: nat)
    requires k < n
    ensures 0 <= k * size <= (k + 1) * size <= n * size
  {
    OneMore(k, size);
    if k + 1 < n {
      Inside(k, n - 1, size);
      OneMore(n - 1, size);
    }
  }

  lemma PrefixSlice(front: seq<Byte>, back: seq<Byte>, i: nat, j: nat)
    requires i <= j <= |front|
    ensures (front + back)[i..j] == front[i..j]
  {
  }

  lemma FloorOfSmall(h: int, m: int)
    requires m > 0 && -m < h < m
    ensures h / m == if h < 0 then -1 else 0
  {
    DivModUnique(h, m, if h < 0 then -1 else 0, if h < 0 then h + m else h);
  }

  lemma SmallFits(s: int, n: nat)
    requires n >= 1 && (s == 0 || s == -1)
    ensures Fits(s, n)
  {
  }

  /** A silent sample reads as zero without dither; with it, as -1 exactly when the random number, under the mask, is
      smaller than the one before, and as zero otherwise. It never reads as positive. */
  lemma SilentSample(r: int, previous: int, dither: bool, format: int)
    requires IsRecognised(format)
    ensures Reading(SampleBytes(r, previous, dither, format), LayoutOf(format))
            == if dither && Masked(r, format) < Masked(previous, format) then -1 else 0
  {
    var s := Hyper(r, previous, dither, format) / Step(format);
    FloorOfSmall(Hyper(r, previous, dither, format), Step(format));
    SizeOfLayout(format);
    SmallFits(s, LayoutOf(format).Bits());
    hide Fits, Stored, Reading, Hyper, Step, Masked;
    StoredReads(s, LayoutOf(format));
  }

  /** Every sample of the output, wherever it is. */
  lemma {:induction false} SilentThroughout(draws: seq<int>, before: int, dither: bool, format: int, k: nat)
    requires IsRecognised(format) && k < |draws|
    ensures
      var size := SampleSize(format);
      var bytes := Silence(draws, before, dither, format);
      && 0 <= k * size <= (k + 1) * size <= |bytes|
      && size == LayoutOf(format).Size() > 0
      && Reading(bytes[k * size..(k + 1) * size], LayoutOf(format))
         == if dither && Masked(draws[k], format) < Masked(Previous(draws[..k], before), format) then -1 else 0
  {
    SizeOfLayout(format);
    assert SampleSize(format) > 0;
    hide LayoutOf, SampleSize, SampleBytes, Reading, Masked;
    var size, rest, last := SampleSize(format), draws[..|draws| - 1], |draws| - 1;
    var front := Silence(rest, before, dither, format);
    var back := SampleBytes(draws[last], Previous(rest, before), dither, format);
    SilenceLength(draws, before, dither, format);
    SilenceLength(rest, before, dither, format);
    Inside(k, |draws|, size);
    assert Silence(draws, before, dither, format) == front + back;
    if k == last {
      assert rest == draws[..k];
      OneMore(k, size);
      assert (front + back)[k * size..(k + 1) * size] == back;
      SilentSample(draws[k], Previous(rest, before), dither, format);
    } else {
      SilentThroughout(rest, before, dither, format, k);
      Inside(k, last, size);
      PrefixSlice(front, back, k * size, (k + 1) * size);
      assert rest[..k] == draws[..k] && rest[k] == draws[k];
    }
  }

  // ----- the loop -----

  method StoreOne(out: array<Byte>, at: nat, b: Byte)
    requires at + 1 <= out.Length
    modifies out
    ensures out[..] == Put(old(out[..]), at, [b])
  {
    out[at] := b;
  }

  method StoreTwo(out: array<Byte>, at: nat, b0: Byte, b1: Byte)
    requires at + 2 <= out.Length
    modifies out
    ensures out[..] == Put(old(out[..]), at, [b0, b1])
  {
    out[at] := b0;
    out[at + 1] := b1;
  }

  method StoreThree(out: array<Byte>, at: nat, b0: Byte, b1: Byte, b2: Byte)
    requires at + 3 <= out.Length
    modifies out
    ensures out[..] == Put(old(out[..]), at, [b0, b1, b2])
  {
    out[at] := b0;
    out[at + 1] := b1;
    out[at + 2] := b2;
  }

  method StoreFour(out: array<Byte>, at: nat, b0: Byte, b1: Byte, b2: Byte, b3: Byte)
    requires at + 4 <= out.Length
    modifies out
    ensures out[..] == Put(old(out[..]), at, [b0, b1, b2, b3])
  {
    out[at] := b0;
    out[at + 1] := b1;
    out[at + 2] := b2;
    out[at + 3] := b3;
  }

  /** Shifting the 64-bit sample further right is shifting its top bits. */
  lemma FurtherRight(h: int, n: nat)
    ensures h / Pow2(n + 8) == h / Pow2(n) / 256
    ensures h / Pow2(n + 16) == h / Pow2(n) / 0x1_0000
    ensures h / Pow2(n + 24) == h / Pow2(n) / 0x100_0000
  {
    Pow2Values();
    Pow2Add(n, 8);
    Pow2Add(n, 16);
    Pow2Add(n, 24);
    hide Pow2;
    DivTwice(h, Pow2(n), 256);
    DivTwice(h, Pow2(n), 0x1_0000);
    DivTwice(h, Pow2(n), 0x100_0000);
  }

  lemma BytesOf(s: int)
    ensures LittleEndian(1, s) == [LowByte(s)]
    ensures LittleEndian(2, s) == [LowByte(s), LowByte(s / 256)]
    ensures LittleEndian(3, s) == [LowByte(s), LowByte(s / 256), LowByte(s / 0x1_0000)]
    ensures LittleEndian(4, s) == [LowByte(s), LowByte(s / 256), LowByte(s / 0x1_0000), LowByte(s / 0x100_0000)]
  {
    assert LittleEndian(1, s) == [LowByte(s)] + LittleEndian(0, s / 256);
    assert LittleEndian(4, s) == [LowByte(s)] + LittleEndian(3, s / 256);
    hide LowByte, LittleEndian;
    DivTwice(s, 256, 256);
    DivTwice(s, 256, 0x1_0000);
    LittleEndianBytes(s);
    LittleEndianBytes(s / 256);
  }

  /** Byte k of the significant ones, the least first. */
  function Part(h: int, format: int, k: nat): Byte
    requires IsRecognised(format)
  {
    LowByte(h / Pow2(64 - Width(format) + 8 * k))
  }

  lemma Parts(h: int, format: int)
    requires IsRecognised(format)
    ensures LittleEndian(1, h / Step(format)) == [Part(h, format, 0)]
    ensures LittleEndian(2, h / Step(format)) == [Part(h, format, 0), Part(h, format, 1)]
    ensures LittleEndian(3, h / Step(format)) == [Part(h, format, 0), Part(h, format, 1), Part(h, format, 2)]
    ensures LittleEndian(4, h / Step(format))
            == [Part(h, format, 0), Part(h, format, 1), Part(h, format, 2), Part(h, format, 3)]
  {
    FurtherRight(h, 64 - Width(format));
    hide LowByte, LittleEndian, Pow2, Width;
    BytesOf(h / Step(format));
  }

  /** The bytes in the order in which the source stores them. */
  function InOrder(h: int, format: int): (bytes: seq<Byte>)
    requires IsRecognised(format)
  {
    var least, third, second, top := Part(h, format, 0), Part(h, format, 1), Part(h, format, 2), Part(h, format, 3);
    if format == SPS_FORMAT_S32 || format == SPS_FORMAT_S24 || format == SPS_FORMAT_S32_LE then
      [least, third, second, top]
    else if format == SPS_FORMAT_S32_BE then [top, second, third, least]
    else if format == SPS_FORMAT_S24_3LE then [least, third, second]
    else if format == SPS_FORMAT_S24_3BE then [second, third, least]
    else if format == SPS_FORMAT_S24_LE then [least, third, second, 0]
    else if format == SPS_FORMAT_S24_BE then [0, second, third, least]
    else if format == SPS_FORMAT_S16_LE || format == SPS_FORMAT_S16 then [least, third]
    else if format == SPS_FORMAT_S16_BE then [third, least]
    else if format == SPS_FORMAT_S8 then [least]
    else [LowByte(128 + least)]
  }

  lemma InOrderIsStored(h: int, format: int)
    requires IsRecognised(format)
    ensures InOrder(h, format) == Stored(h / Step(format), LayoutOf(format))
  {
    Parts(h, format);
    BytesOf(h / Step(format));
    hide LowByte, LittleEndian, Part, Step, Reverse;
    var s := h / Step(format);
    match LayoutOf(format)
    case Big(n) =>
      assert |Reverse(LittleEndian(n, s))| == n;
    case _ =>
  }

  /** One sample at p, and its length. */
  method PutSample(out: array<Byte>, p: nat, h: int, format: int) returns (length: nat)
    requires IsRecognised(format) && p + |InOrder(h, format)| <= out.Length
    modifies out
    ensures length == |InOrder(h, format)|
    ensures out[..] == Put(old(out[..]), p, InOrder(h, format))
  {
    hide Part, Put;
    var least: int, third := Part(h, format, 0), Part(h, format, 1);
    var second, top := Part(h, format, 2), Part(h, format, 3);
    if format == SPS_FORMAT_S32 || format == SPS_FORMAT_S24 || format == SPS_FORMAT_S32_LE {
      StoreFour(out, p, least, third, second, top);
      length := 4;
    } else if format == SPS_FORMAT_S32_BE {
      StoreFour(out, p, top, second, third, least);
      length := 4;
    } else if format == SPS_FORMAT_S24_3LE {
      StoreThree(out, p, least, third, second);
      length := 3;
    } else if format == SPS_FORMAT_S24_3BE {
      StoreThree(out, p, second, third, least);
      length := 3;
    } else if format == SPS_FORMAT_S24_LE {
      StoreFour(out, p, least, third, second, 0);
      length := 4;
    } else if format == SPS_FORMAT_S24_BE {
      StoreFour(out, p, 0, second, third, least);
      length := 4;
    } else if format == SPS_FORMAT_S16_LE || format == SPS_FORMAT_S16 {
      StoreTwo(out, p, least, third);
      length := 2;
    } else if format == SPS_FORMAT_S16_BE {
      StoreTwo(out, p, third, least);
      length := 2;
    } else if format == SPS_FORMAT_S8 {
      StoreOne(out, p, least);
      length := 1;
    } else {
      StoreOne(out, p, LowByte(128 + least));
      length := 1;
    }
  }

  /** The process ends: the format is none the generator knows. */
  predicate Dies(format: nat, samples: nat) {
    format == SPS_FORMAT_UNKNOWN || format == SPS_FORMAT_AUTO || format == SPS_FORMAT_INVALID
    || (format > SPS_FORMAT_INVALID && samples > 0)
  }

  lemma PutOneMore(before: seq<Byte>, front: seq<Byte>, back: seq<Byte>)
    requires |front| + |back| <= |before|
    ensures Put(Put(before, 0, front), |front|, back) == Put(before, 0, front + back)
  {
  }

  lemma NothingPut(before: seq<Byte>)
    ensures Put(before, 0, []) == before
  {
  }

  /** The next sample joins the silence so far. */
  lemma SilenceSnoc(draws: seq<int>, r: int, before: int, dither: bool, format: int)
    requires IsRecognised(format)
    ensures Silence(draws + [r], before, dither, format)
            == Silence(draws, before, dither, format) + SampleBytes(r, Previous(draws, before), dither, format)
  {
    hide SampleBytes;
    assert (draws + [r])[..|draws|] == draws;
  }

  /** One turn of the sample loop: a random number is drawn and a sample written at p. */
  method PutNext(rx: Random.Generator, outp: array<Byte>, p: nat, withDither: bool, previous: int, format: int)
    returns (r: int, length: nat)
    requires IsRecognised(format) && p + SampleSize(format) <= outp.Length
    modifies rx, outp
    ensures rx.Value() == Random.Ran(old(rx.Value())) && r == Random.R64i(old(rx.Value()))
    ensures length == SampleSize(format) == |SampleBytes(r, previous, withDither, format)|
    ensures outp[..] == Put(old(outp[..]), p, SampleBytes(r, previous, withDither, format))
  {
    SizeOfLayout(format);
    hide SampleSize, Stored, LayoutOf, InOrder, Put, Step, Dither, Random.Ran, Random.R64i;
    r := rx.NextR64i();
    var hyper := 0;
    if withDither {
      hyper := hyper + Dither(r, previous, format);
    }
    InOrderIsStored(hyper, format);
    length := PutSample(outp, p, hyper, format);
  }

  /** The sample loop: n samples at the start of the buffer. */
  method PutSilence(rx: Random.Generator, outp: array<Byte>, n: nat, withDither: bool, randomIn: int, format: int)
    returns (previous: int)
    requires IsRecognised(format) && n * SampleSize(format) <= outp.Length
    modifies rx, outp
    ensures rx.Value() == Random.After(old(rx.Value()), n)
    ensures
      var draws := Random.Draws(old(rx.Value()), n);
      var bytes := Silence(draws, randomIn, withDither, format);
      && previous == Previous(draws, randomIn)
      && |bytes| == n * SampleSize(format) && outp[..] == Put(old(outp[..]), 0, bytes)
  {
    hide Silence, SampleSize, SampleBytes, Put, Previous, Random.Ran, Random.R64i;
    ghost var start, before, size := rx.Value(), outp[..], SampleSize(format);
    previous := randomIn;
    var p, i := 0, 0;
    NothingPut(before);
    PreviousNone(randomIn);
    SilenceNone(randomIn, withDither, format);
    while i < n
      invariant 0 <= i <= n && p == i * size
      invariant rx.Value() == Random.After(start, i)
      invariant previous == Previous(Random.Draws(start, i), randomIn)
      invariant |Silence(Random.Draws(start, i), randomIn, withDither, format)| == p <= |before|
      invariant outp[..] == Put(before, 0, Silence(Random.Draws(start, i), randomIn, withDither, format))
    {
      ghost var draws := Random.Draws(start, i);
      Random.AfterSnoc(start, i);
      Inside(i, n, size);
      OneMore(i, size);
      var r, length := PutNext(rx, outp, p, withDither, previous, format);
      SilenceSnoc(draws, r, randomIn, withDither, format);
      PutOneMore(before, Silence(draws, randomIn, withDither, format),
                 SampleBytes(r, previous, withDither, format));
      PreviousSnoc(draws, r, randomIn);
      p := p + length;
      previous := r;
      i := i + 1;
    }
  }

  lemma PreviousNone(before: int)
    ensures Previous([], before) == before
  {
  }

  lemma PreviousSnoc(draws: seq<int>, r: int, before: int)
    ensures Previous(draws + [r], before) == r
  {
  }

  lemma SilenceNone(before: int, dither: bool, format: int)
    requires IsRecognised(format)
    ensures Silence([], before, dither, format) == []
  {
  }

  /** generate_zero_frames: the last random number used, or nothing if the process ends. */
  method GenerateZeroFrames(rx: Random.Generator, outp: array<Byte>, numberOfFrames: nat, withDither: bool,
                            randomIn: int, encodedFormat: nat) returns (result: Option<int>)
    requires
      var format := FormatOf(encodedFormat);
      encodedFormat != 0 && IsRecognised(format) ==>
        numberOfFrames * ChannelsOf(encodedFormat) * SampleSize(format) <= outp.Length
    modifies rx, outp
    ensures encodedFormat == 0 ==> result == Some(randomIn) && outp[..] == old(outp[..])
    ensures encodedFormat != 0 ==>
              (result.None? <==> Dies(FormatOf(encodedFormat), numberOfFrames * ChannelsOf(encodedFormat)))
    ensures encodedFormat != 0 && IsRecognised(FormatOf(encodedFormat)) ==>
              var n := numberOfFrames * ChannelsOf(encodedFormat);
              var draws := Random.Draws(old(rx.Value()), n);
              var bytes := Silence(draws, randomIn, withDither, FormatOf(encodedFormat));
              && result == Some(Previous(draws, randomIn))
              && |bytes| == n * SampleSize(FormatOf(encodedFormat))
              && outp[..] == Put(old(outp[..]), 0, bytes)
  {
    hide ChannelsOf, FormatOf, SampleSize, Silence, Put, Previous;
    if encodedFormat == 0 {
      return Some(randomIn);
    }
    var n, format := numberOfFrames * ChannelsOf(encodedFormat), FormatOf(encodedFormat);
    if Dies(format, n) {
      return None;
    }
    if format > SPS_FORMAT_INVALID {
      return Some(randomIn);
    }
    var last := PutSilence(rx, outp, n, withDither, randomIn, format);
    return Some(last);
  }
}

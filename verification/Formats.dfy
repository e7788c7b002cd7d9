/** Sample formats, rates and the packed encoding of an output configuration (common.h). */
module Formats {
  import opened Words

  const SPS_FORMAT_UNKNOWN := 0
  const SPS_FORMAT_S8 := 1
  const SPS_FORMAT_U8 := 2
  const SPS_FORMAT_S16_LE := 3
  const SPS_FORMAT_S16_BE := 4
  const SPS_FORMAT_S24_LE := 5
  const SPS_FORMAT_S24_BE := 6
  const SPS_FORMAT_S24_3LE := 7
  const SPS_FORMAT_S24_3BE := 8
  const SPS_FORMAT_S32_LE := 9
  const SPS_FORMAT_S32_BE := 10
  const SPS_FORMAT_S16 := 11
  const SPS_FORMAT_S24 := 12
  const SPS_FORMAT_S32 := 13

  /** Formats a device can be opened with. */
  predicate IsNative(f: int) {
    SPS_FORMAT_S8 <= f <= SPS_FORMAT_S32_BE
  }

  /** Formats that a request may name and the search knows. */
  predicate IsRecognised(f: int) {
    SPS_FORMAT_S8 <= f <= SPS_FORMAT_S32
  }

  const SPS_RATE_LOWEST := 1
  const SPS_RATE_HIGHEST := 15

  const ACTUAL_RATES: seq<int> := [0, 5512, 8000, 11025, 16000, 22050, 32000, 44100, 48000, 64000, 88200, 96000, 176400,
                                   192000, 352800, 384000]

  /** sps_rate_actual_rate. */
  function ActualRate(r: int): int {
    if SPS_RATE_LOWEST <= r <= SPS_RATE_HIGHEST then ACTUAL_RATES[r] else 0
  }

  // ----- channels, rate and format in one word -----

  function Encode(channels: int, rate: int, format: int): nat {
    channels % 128 * 0x200_0000 + rate / 2 % 0x8_0000 * 64 + format % 64
  }

  function ChannelsOf(encoded: nat): nat {
    encoded / 0x200_0000 % 128
  }

  function RateOf(encoded: nat): nat {
    encoded / 64 % 0x8_0000 * 2
  }

  function FormatOf(encoded: nat): nat {
    encoded % 64
  }

  /** The values the encoding can tell apart. */
  predicate Encodable(channels: nat, rate: nat, format: nat) {
    channels < 128 && rate < 0x10_0000 && rate % 2 == 0 && format < 64
  }

  lemma DecodeEncode(channels: int, rate: int, format: int)
    ensures ChannelsOf(Encode(channels, rate, format)) == channels % 128
    ensures RateOf(Encode(channels, rate, format)) == rate / 2 % 0x8_0000 * 2
    ensures FormatOf(Encode(channels, rate, format)) == format % 64
  {
    var c, r, f := channels % 128, rate / 2 % 0x8_0000, format % 64;
    DivModUnique(Encode(channels, rate, format), 64, c * 0x8_0000 + r, f);
    DivModUnique(c * 0x8_0000 + r, 0x8_0000, c, r);
    DivModUnique(Encode(channels, rate, format), 0x200_0000, c, r * 64 + f);
    DivModUnique(c, 128, 0, c);
  }

  lemma EncodeInjective(c: nat, r: nat, f: nat, c': nat, r': nat, f': nat)
    requires Encodable(c, r, f) && Encodable(c', r', f') && Encode(c, r, f) == Encode(c', r', f')
    ensures c == c' && r == r' && f == f'
  {
    hide Encode, ChannelsOf, RateOf, FormatOf;
    DecodeEncode(c, r, f);
    DecodeEncode(c', r', f');
  }

  /** Exactly which requests share an encoding: the odd rate above an even one, and values a field width apart. */
  lemma EncodeCollides(c: int, r: int, f: int, c': int, r': int, f': int)
    ensures Encode(c, r, f) == Encode(c', r', f')
       <==> c % 128 == c' % 128 && r / 2 % 0x8_0000 == r' / 2 % 0x8_0000 && f % 64 == f' % 64
  {
    DecodeEncode(c, r, f);
    DecodeEncode(c', r', f');
    hide ChannelsOf, RateOf, FormatOf;
  }
}

/** The search for an output configuration (audio.c) as an explicit list of attempts, and what it finds. */
module Search {
  import opened Wrappers
  import opened Formats

  datatype Settings = Settings(channelSet: set<int>, rateSet: set<int>, formatSet: set<int>, littleEndian: bool,
                               ignoreVolumeControl: bool, volumeMaxDbSet: bool, monoPlayback: bool)

  /** Does the back end accept this configuration? A missing checker accepts everything. */
  type Checker = (int, int, int) -> bool

  datatype Request = Request(channels: nat, rate: nat, format: nat)

  // ----- formats in order -----

  /** The requested format first, then its equivalent of the same size. */
  function InitialFormats(format: int, littleEndian: bool): seq<int> {
    if format == SPS_FORMAT_U8 then [SPS_FORMAT_U8, SPS_FORMAT_S8]
    else if format == SPS_FORMAT_S8 then [SPS_FORMAT_S8, SPS_FORMAT_U8]
    else if format == SPS_FORMAT_S16_LE || (format == SPS_FORMAT_S16 && littleEndian) then
      [SPS_FORMAT_S16_LE, SPS_FORMAT_S16_BE]
    else if format == SPS_FORMAT_S16_BE || format == SPS_FORMAT_S16 then
      [SPS_FORMAT_S16_BE, SPS_FORMAT_S16_LE]
    else if format == SPS_FORMAT_S24_LE || (format == SPS_FORMAT_S24 && littleEndian) then
      [SPS_FORMAT_S24_LE, SPS_FORMAT_S24_BE]
    else if format == SPS_FORMAT_S24_BE || format == SPS_FORMAT_S24 then
      [SPS_FORMAT_S24_BE, SPS_FORMAT_S24_LE]
    else if format == SPS_FORMAT_S32_LE || (format == SPS_FORMAT_S32 && littleEndian) then
      [SPS_FORMAT_S32_LE, SPS_FORMAT_S32_BE]
    else if format == SPS_FORMAT_S32_BE || format == SPS_FORMAT_S32 then
      [SPS_FORMAT_S32_BE, SPS_FORMAT_S32_LE]
    else if format == SPS_FORMAT_S24_3LE then [SPS_FORMAT_S24_3LE, SPS_FORMAT_S24_3BE]
    else if format == SPS_FORMAT_S24_3BE then [SPS_FORMAT_S24_3BE, SPS_FORMAT_S24_3LE]
    else []
  }

  /** Both byte orders of a size, the machine's own first. */
  function BothOrders(le: int, be: int, littleEndian: bool): seq<int> {
    if littleEndian then [le, be] else [be, le]
  }

  /** The other sizes, in order of suitability. */
  function SubsequentFormats(format: int, littleEndian: bool): seq<int> {
    var s16 := BothOrders(SPS_FORMAT_S16_LE, SPS_FORMAT_S16_BE, littleEndian);
    var s24 := BothOrders(SPS_FORMAT_S24_LE, SPS_FORMAT_S24_BE, littleEndian);
    var s24_3 := BothOrders(SPS_FORMAT_S24_3LE, SPS_FORMAT_S24_3BE, littleEndian);
    var s32 := BothOrders(SPS_FORMAT_S32_LE, SPS_FORMAT_S32_BE, littleEndian);
    var s8 := [SPS_FORMAT_S8, SPS_FORMAT_U8];
    if format == SPS_FORMAT_U8 || format == SPS_FORMAT_S8 then s16 + s24 + s24_3 + s32
    else if format == SPS_FORMAT_S16 || format == SPS_FORMAT_S16_LE || format == SPS_FORMAT_S16_BE then
      s24 + s24_3 + s32 + s8
    else if format == SPS_FORMAT_S24 || format == SPS_FORMAT_S24_LE || format == SPS_FORMAT_S24_BE then
      s24_3 + s32 + s16 + s8
    else if format == SPS_FORMAT_S32 || format == SPS_FORMAT_S32_LE || format == SPS_FORMAT_S32_BE then
      s24 + s24_3 + s16 + s8
    else if format == SPS_FORMAT_S24_3LE || format == SPS_FORMAT_S24_3BE then s24 + s32 + s16 + s8
    else []
  }

  function FormatOrder(format: int, littleEndian: bool): seq<int> {
    InitialFormats(format, littleEndian) + SubsequentFormats(format, littleEndian)
  }

  ghost predicate NoDuplicates(xs: seq<int>) {
    forall i, j :: 0 <= i < j < |xs| ==> xs[i] != xs[j]
  }

  /** Pairs of formats of one size, numbered by size; swapped pairs have the second one first. */
  function Flatten(sizes: seq<int>, swapped: seq<bool>): (r: seq<int>)
    requires |sizes| == |swapped| == 5
    ensures |r| == 10
  {
    seq(10, i requires 0 <= i < 10 => 2 * sizes[i / 2] + (if (i % 2 == 0) == swapped[i / 2] then 2 else 1))
  }

  lemma FlattenComplete(sizes: seq<int>, swapped: seq<bool>)
    requires |sizes| == |swapped| == 5 && NoDuplicates(sizes)
    requires forall m :: 0 <= m < 5 <==> m in sizes
    ensures NoDuplicates(Flatten(sizes, swapped))
    ensures forall f :: f in Flatten(sizes, swapped) <==> IsNative(f)
  {
    var xs := Flatten(sizes, swapped);
    forall i | 0 <= i < 10 ensures (xs[i] - 1) / 2 == sizes[i / 2] && IsNative(xs[i]) {
      assert sizes[i / 2] in sizes;
    }
    forall i, j | 0 <= i < j < 10 ensures xs[i] != xs[j] {
      if i / 2 != j / 2 {
        assert sizes[i / 2] != sizes[j / 2];
      }
    }
    forall f | IsNative(f) ensures f in xs {
      assert (f - 1) / 2 in sizes;
      var k :| 0 <= k < 5 && sizes[k] == (f - 1) / 2;
      assert (2 * k) / 2 == k && (2 * k + 1) / 2 == k;
      assert xs[2 * k] == f || xs[2 * k + 1] == f;
    }
  }

  /** The order of sizes for each size requested: 8, 16, 24, packed 24 and 32 bits are numbered 0 to 4. */
  function SizeOrder(size: int): (r: seq<int>)
    requires 0 <= size < 5
    ensures |r| == 5
  {
    if size == 0 then [0, 1, 2, 3, 4]
    else if size == 1 then [1, 2, 3, 4, 0]
    else if size == 2 then [2, 3, 4, 1, 0]
    else if size == 3 then [3, 2, 4, 1, 0]
    else [4, 2, 3, 1, 0]
  }

  lemma SizeOrderComplete(size: int)
    requires 0 <= size < 5
    ensures NoDuplicates(SizeOrder(size)) && forall m :: 0 <= m < 5 <==> m in SizeOrder(size)
  {
  }

  function SizeOf(format: int): int
    requires IsRecognised(format)
  {
    if IsNative(format) then (format - 1) / 2 else if format == SPS_FORMAT_S32 then 4 else format - 10
  }

  function Swaps(format: int, littleEndian: bool): (r: seq<bool>)
    requires IsRecognised(format)
    ensures |r| == 5
  {
    var first := if IsNative(format) then format % 2 == 0 else !littleEndian;
    [first] + seq(4, i requires 0 <= i < 4 => SizeOrder(SizeOf(format))[i + 1] != 0 && !littleEndian)
  }

  /** Both formats of a size. */
  function Pair(size: int, swapped: bool): (r: seq<int>) {
    if swapped then [2 * size + 2, 2 * size + 1] else [2 * size + 1, 2 * size + 2]
  }

  lemma PairsAreFlat(sizes: seq<int>, swapped: seq<bool>)
    requires |sizes| == |swapped| == 5
    ensures Pair(sizes[0], swapped[0])
            + (Pair(sizes[1], swapped[1]) + Pair(sizes[2], swapped[2]) + Pair(sizes[3], swapped[3])
               + Pair(sizes[4], swapped[4]))
         == Flatten(sizes, swapped)
  {
  }

  lemma InitialIsPair(format: int, littleEndian: bool)
    requires IsRecognised(format)
    ensures InitialFormats(format, littleEndian) == Pair(SizeOf(format), Swaps(format, littleEndian)[0])
  {
    hide SizeOrder;
  }

  lemma SubsequentArePairs(format: int, littleEndian: bool)
    requires IsRecognised(format)
    ensures var z, w := SizeOrder(SizeOf(format)), Swaps(format, littleEndian);
      SubsequentFormats(format, littleEndian)
      == Pair(z[1], w[1]) + Pair(z[2], w[2]) + Pair(z[3], w[3]) + Pair(z[4], w[4])
  {
    EndianPairs(littleEndian);
    hide BothOrders, Pair;
    assert [SPS_FORMAT_S8, SPS_FORMAT_U8] == Pair(0, false) by {
      EightBitPair();
    }
  }

  lemma EightBitPair()
    ensures [SPS_FORMAT_S8, SPS_FORMAT_U8] == Pair(0, false)
  {
  }

  lemma EndianPairs(littleEndian: bool)
    ensures BothOrders(SPS_FORMAT_S16_LE, SPS_FORMAT_S16_BE, littleEndian) == Pair(1, !littleEndian)
    ensures BothOrders(SPS_FORMAT_S24_LE, SPS_FORMAT_S24_BE, littleEndian) == Pair(2, !littleEndian)
    ensures BothOrders(SPS_FORMAT_S24_3LE, SPS_FORMAT_S24_3BE, littleEndian) == Pair(3, !littleEndian)
    ensures BothOrders(SPS_FORMAT_S32_LE, SPS_FORMAT_S32_BE, littleEndian) == Pair(4, !littleEndian)
  {
  }

  lemma OrderIsFlat(format: int, littleEndian: bool)
    requires IsRecognised(format)
    ensures FormatOrder(format, littleEndian) == Flatten(SizeOrder(SizeOf(format)), Swaps(format, littleEndian))
  {
    hide InitialFormats, SubsequentFormats, Pair, SizeOrder, Flatten, Swaps;
    var z, w := SizeOrder(SizeOf(format)), Swaps(format, littleEndian);
    InitialIsPair(format, littleEndian);
    SubsequentArePairs(format, littleEndian);
    PairsAreFlat(z, w);
    FirstSize(format);
  }

  lemma FirstSize(format: int)
    requires IsRecognised(format)
    ensures SizeOrder(SizeOf(format))[0] == SizeOf(format)
  {
  }

  /** For a format the search knows, every native format is tried exactly once, and nothing else; a native format is
      tried first itself. */
  lemma FormatOrderComplete(format: int, littleEndian: bool)
    requires IsRecognised(format)
    ensures |FormatOrder(format, littleEndian)| == 10 && NoDuplicates(FormatOrder(format, littleEndian))
    ensures forall f :: f in FormatOrder(format, littleEndian) <==> IsNative(f)
    ensures IsNative(format) ==> FormatOrder(format, littleEndian)[0] == format
  {
    hide FormatOrder, NoDuplicates, SizeOrder;
    OrderIsFlat(format, littleEndian);
    SizeOrderComplete(SizeOf(format));
    FlattenComplete(SizeOrder(SizeOf(format)), Swaps(format, littleEndian));
    if IsNative(format) {
      FirstFormatTried(format, littleEndian);
    }
  }

  lemma FirstFormatTried(format: int, littleEndian: bool)
    requires IsNative(format)
    ensures |FormatOrder(format, littleEndian)| > 0 && FormatOrder(format, littleEndian)[0] == format
  {
  }

  // ----- one configuration -----

  predicate RatePermissible(s: Settings, rate: int) {
    exists r :: SPS_RATE_LOWEST <= r <= SPS_RATE_HIGHEST && r in s.rateSet && rate == ActualRate(r)
  }

  /** Allowed by the three sets, and accepted by the checker. */
  predicate Workable(s: Settings, check: Checker, channels: int, rate: int, format: int) {
    channels in s.channelSet && RatePermissible(s, rate) && format in s.formatSet && check(channels, rate, format)
  }

  /** The first of the formats that is allowed and accepted, or SPS_FORMAT_UNKNOWN. */
  function FirstFormat(s: Settings, check: Checker, channels: int, rate: int, formats: seq<int>): int {
    if formats == [] then SPS_FORMAT_UNKNOWN
    else if formats[0] in s.formatSet && check(channels, rate, formats[0]) then formats[0]
    else FirstFormat(s, check, channels, rate, formats[1..])
  }

  /** check_configuration_with_formats. */
  function CheckFormats(s: Settings, check: Checker, channels: int, rate: int, format: int): int {
    if channels in s.channelSet && RatePermissible(s, rate)
    then FirstFormat(s, check, channels, rate, FormatOrder(format, s.littleEndian))
    else SPS_FORMAT_UNKNOWN
  }

  lemma {:induction false} FirstFormatFound(s: Settings, check: Checker, channels: int, rate: int, formats: seq<int>)
    requires SPS_FORMAT_UNKNOWN !in formats
    ensures var f := FirstFormat(s, check, channels, rate, formats);
      if f == SPS_FORMAT_UNKNOWN
      then forall k :: 0 <= k < |formats| ==> !(formats[k] in s.formatSet && check(channels, rate, formats[k]))
      else exists k :: 0 <= k < |formats| && formats[k] == f && f in s.formatSet && check(channels, rate, f)
             && forall j :: 0 <= j < k ==> !(formats[j] in s.formatSet && check(channels, rate, formats[j]))
  {
    if formats == [] {
    } else if formats[0] in s.formatSet && check(channels, rate, formats[0]) {
    } else {
      var rest := formats[1..];
      FirstFormatFound(s, check, channels, rate, rest);
      assert forall k :: 0 <= k < |rest| ==> rest[k] == formats[k + 1];
      var f := FirstFormat(s, check, channels, rate, rest);
      if f == SPS_FORMAT_UNKNOWN {
        forall k | 0 <= k < |formats| ensures !(formats[k] in s.formatSet && check(channels, rate, formats[k])) {
          if k > 0 {
            assert formats[k] == rest[k - 1];
          }
        }
      } else {
        var k :| 0 <= k < |rest| && rest[k] == f && f in s.formatSet && check(channels, rate, f)
          && forall j :: 0 <= j < k ==> !(rest[j] in s.formatSet && check(channels, rate, rest[j]));
        forall j | 0 <= j < k + 1 ensures !(formats[j] in s.formatSet && check(channels, rate, formats[j])) {
          if j > 0 {
            assert formats[j] == rest[j - 1];
          }
        }
        assert formats[k + 1] == f;
      }
    }
  }

  /** A configuration check succeeds with a workable native format exactly if there is one. */
  lemma CheckFormatsExact(s: Settings, check: Checker, channels: int, rate: int, format: int)
    requires IsRecognised(format)
    ensures var f := CheckFormats(s, check, channels, rate, format);
      if f == SPS_FORMAT_UNKNOWN then forall g :: IsNative(g) ==> !Workable(s, check, channels, rate, g)
      else IsNative(f) && Workable(s, check, channels, rate, f)
  {
    hide RatePermissible, FormatOrder, FirstFormat;
    FormatOrderComplete(format, s.littleEndian);
    var order := FormatOrder(format, s.littleEndian);
    FirstFormatFound(s, check, channels, rate, order);
    if CheckFormats(s, check, channels, rate, format) == SPS_FORMAT_UNKNOWN {
      forall g | IsNative(g) ensures !Workable(s, check, channels, rate, g) {
        assert g in order;
      }
    }
  }

  // ----- attempts in order -----

  /** One call of check_configuration_with_formats. */
  datatype Probe = Probe(channels: int, rate: int, format: int)

  datatype Found = Found(channels: int, rate: int, format: int)

  const GREATEST_RATE := 384000

  const RATES: seq<int> := [44100, 48000, 88200, 96000, 176400, 192000, 352800, 384000,
                            64000, 32000, 22050, 16000, 11025, 8000, 5512]

  const CHANNEL_SEQUENCE: seq<int> := [0, 1, 2, 3, 4, 5, 6, 7, 8, 7, 6, 5, 4, 3, 2, 1]

  /** The exact format is wanted only if nothing will be done to the samples. */
  predicate WantsExact(s: Settings, req: Request, channels: int, rate: int) {
    s.ignoreVolumeControl && !s.volumeMaxDbSet && rate == req.rate && channels >= req.channels && !s.monoPlayback
  }

  /** The requested rate and its doublings, up to the greatest rate. */
  function Multiples(s: Settings, req: Request, channels: int, rate: int): seq<Probe>
    requires rate >= 1
    decreases GREATEST_RATE - rate
  {
    if rate > GREATEST_RATE then []
    else [Probe(channels, rate, if WantsExact(s, req, channels, rate) then req.format else SPS_FORMAT_S32)]
         + Multiples(s, req, channels, 2 * rate)
  }

  /** The listed rates above the requested one, in the order of the list from position i. */
  function Higher(req: Request, channels: int, i: nat): seq<Probe>
    requires i <= |RATES|
    decreases |RATES| - i
  {
    if i == |RATES| then []
    else (if RATES[i] > req.rate then [Probe(channels, RATES[i], req.format)] else []) + Higher(req, channels, i + 1)
  }

  /** The listed rates below the requested one, backwards from position i - 1. */
  function Lower(req: Request, channels: int, i: nat): seq<Probe>
    requires i <= |RATES|
  {
    if i == 0 then []
    else (if RATES[i - 1] < req.rate then [Probe(channels, RATES[i - 1], req.format)] else [])
         + Lower(req, channels, i - 1)
  }

  function ChannelProbes(s: Settings, req: Request, channels: int): seq<Probe>
    requires req.rate >= 1
  {
    Multiples(s, req, channels, req.rate) + Higher(req, channels, 0) + Lower(req, channels, |RATES|)
  }

  function Try(s: Settings, check: Checker, p: Probe): int {
    CheckFormats(s, check, p.channels, p.rate, p.format)
  }

  /** The first attempt that succeeds. */
  function FirstProbe(s: Settings, check: Checker, probes: seq<Probe>): Option<Found> {
    if probes == [] then None
    else
      var f := Try(s, check, probes[0]);
      if f != SPS_FORMAT_UNKNOWN then Some(Found(probes[0].channels, probes[0].rate, f))
      else FirstProbe(s, check, probes[1..])
  }

  function ChannelResult(s: Settings, check: Checker, req: Request, channels: int): Option<Found>
    requires req.rate >= 1
  {
    FirstProbe(s, check, ChannelProbes(s, req, channels))
  }

  /** The channel counts tried, from a position in the sequence, leaving out those already tried. */
  function Visits(index: nat, tried: set<int>): seq<int>
    decreases |CHANNEL_SEQUENCE| - index
  {
    if index >= |CHANNEL_SEQUENCE| then []
    else
      var c := CHANNEL_SEQUENCE[index];
      if c in tried then Visits(index + 1, tried) else [c] + Visits(index + 1, tried + {c})
  }

  function FirstChannel(s: Settings, check: Checker, req: Request, counts: seq<int>): Option<Found>
    requires req.rate >= 1
  {
    if counts == [] then None
    else
      var r := ChannelResult(s, check, req, counts[0]);
      if r.Some? then r else FirstChannel(s, check, req, counts[1..])
  }

  function SearchResult(s: Settings, check: Checker, req: Request): Option<Found>
    requires req.rate >= 1
  {
    FirstChannel(s, check, req, Visits(req.channels, {}))
  }

  /** What the search returns without its memory: 0, or the configuration found, encoded. */
  function Reply(s: Settings, check: Checker, req: Request): nat
    requires req.rate >= 1
  {
    match SearchResult(s, check, req)
    case None => 0
    case Some(f) => Encode(f.channels, f.rate, f.format)
  }
}

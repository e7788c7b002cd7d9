/** Which sample format the configuration search takes, said of the settings and of what works. */
module FormatChoice {
  import opened Wrappers
  import opened Words
  import opened Formats
  import opened Search
  import opened SearchTheorems
  import opened RateOrder

  lemma {:induction false} MultiplesWant(s: Settings, req: Request, channels: int, rate: int, p: Probe)
    requires rate >= req.rate && rate >= 1 && p in Multiples(s, req, channels, rate)
    ensures p.format ==
            if s.ignoreVolumeControl && !s.volumeMaxDbSet && !s.monoPlayback && channels >= req.channels
               && p.rate == req.rate
            then req.format else SPS_FORMAT_S32
    decreases GREATEST_RATE - rate
  {
    if rate <= GREATEST_RATE && p in Multiples(s, req, channels, 2 * rate) {
      MultiplesWant(s, req, channels, 2 * rate, p);
    }
  }

  lemma {:induction false} HigherWant(req: Request, channels: int, i: nat, p: Probe)
    requires i <= |RATES| && p in Higher(req, channels, i)
    ensures p.format == req.format
    decreases |RATES| - i
  {
    if i < |RATES| && p in Higher(req, channels, i + 1) {
      HigherWant(req, channels, i + 1, p);
    }
  }

  lemma {:induction false} LowerWant(req: Request, channels: int, i: nat, p: Probe)
    requires i <= |RATES| && p in Lower(req, channels, i)
    ensures p.format == req.format
  {
    if i > 0 && p in Lower(req, channels, i - 1) {
      LowerWant(req, channels, i - 1, p);
    }
  }

  /** What a list of attempts finds, it finds with the format order of an attempt at that rate. */
  lemma FoundByProbe(s: Settings, check: Checker, channels: int, probes: seq<Probe>) returns (p: Probe)
    requires FirstProbe(s, check, probes).Some?
    requires forall q :: q in probes ==> ProbeFine(q, channels)
    ensures p in probes && p.rate == FirstProbe(s, check, probes).value.rate
    ensures FirstOf(s, check, FirstProbe(s, check, probes).value, FormatOrder(p.format, s.littleEndian))
  {
    hide FirstProbe, Try, FirstOf, FormatOrder;
    FirstProbeFound(s, check, probes);
    var f := FirstProbe(s, check, probes).value;
    var k :| 0 <= k < |probes| && IsResult(s, check, probes[k], f);
    p := probes[k];
    assert p in probes;
    TryFirst(s, check, p, f);
  }

  /** Of the formats that work at the rate taken, the search takes the first in the order of the requested format if the
      rate is no multiple of the requested one, or if it is that rate itself, with at least the requested channels, and
      nothing will be done to the samples: volume control ignored, no maximum volume, not mono. Otherwise it takes the
      first in the order of the machine's own 32-bit format. */
  lemma FormatChosen(s: Settings, check: Checker, req: Request, channels: int)
    requires req.rate >= 1 && IsRecognised(req.format) && ChannelResult(s, check, req, channels).Some?
    ensures
      var f := ChannelResult(s, check, req, channels).value;
      var exact := s.ignoreVolumeControl && !s.volumeMaxDbSet && !s.monoPlayback && channels >= req.channels;
      FirstOf(s, check, f,
              FormatOrder(if AnyMultiple(s, check, req, channels) && !(f.rate == req.rate && exact)
                          then SPS_FORMAT_S32 else req.format, s.littleEndian))
  {
    hide Multiples, Higher, Lower, FirstProbe, FirstOf, FormatOrder, MultipleWorks;
    var multiples := Multiples(s, req, channels, req.rate);
    var higher, lower := Higher(req, channels, 0), Lower(req, channels, |RATES|);
    FirstProbeConcat(s, check, multiples + higher, lower);
    FirstProbeConcat(s, check, multiples, higher);
    MultiplesFine(s, req, channels, req.rate);
    HigherFine(req, channels, 0);
    LowerFine(req, channels, |RATES|);
    assert req.rate * Pow2(0) == req.rate;
    FirstMultiple(s, check, req, channels, 0);
    if FirstProbe(s, check, multiples).Some? {
      var p := FoundByProbe(s, check, channels, multiples);
      MultiplesWant(s, req, channels, req.rate, p);
    } else if FirstProbe(s, check, higher).Some? {
      var p := FoundByProbe(s, check, channels, higher);
      HigherWant(req, channels, 0, p);
    } else {
      var p := FoundByProbe(s, check, channels, lower);
      LowerWant(req, channels, |RATES|, p);
    }
  }

  lemma RequestedWorks(s: Settings, check: Checker, req: Request)
    requires req.rate >= 1 && RateWorks(s, check, req.channels, req.rate)
    ensures AnyMultiple(s, check, req, req.channels)
    ensures forall rate :: LeastMultiple(s, check, req, req.channels, rate) ==> rate == req.rate
  {
    hide RateWorks;
    var i := WorkingRateListed(s, check, req.channels, req.rate);
    assert req.rate == RATES[i] <= GREATEST_RATE;
    assert req.rate * Pow2(0) == req.rate;
    assert MultipleWorks(s, check, req, req.channels, 0);
  }

  lemma FirstVisited(s: Settings, check: Checker, req: Request)
    requires req.rate >= 1 && req.channels <= 8 && ChannelResult(s, check, req, req.channels).Some?
    ensures SearchResult(s, check, req) == ChannelResult(s, check, req, req.channels)
  {
    hide Visits, ChannelResult;
    VisitStep(req.channels, {});
  }

  /** Where some format works at the requested channel count and rate, the search stays there, and takes the first that
      works in the order of the requested format, or, if the samples will be changed, of the 32-bit format. */
  lemma RequestedRate(s: Settings, check: Checker, req: Request)
    requires req.rate >= 1 && req.channels <= 8 && IsRecognised(req.format)
    requires RateWorks(s, check, req.channels, req.rate)
    ensures
      var result := SearchResult(s, check, req);
      && result.Some? && result.value.channels == req.channels && result.value.rate == req.rate
      && FirstOf(s, check, result.value,
                 FormatOrder(if s.ignoreVolumeControl && !s.volumeMaxDbSet && !s.monoPlayback then req.format
                             else SPS_FORMAT_S32, s.littleEndian))
  {
    hide ChannelResult, RateWorks, FirstOf, FormatOrder, AnyMultiple, AnyHigher, AnyLower, LeastMultiple;
    RateChosen(s, check, req, req.channels);
    RequestedWorks(s, check, req);
    FormatChosen(s, check, req, req.channels);
    ChannelExact(s, check, req, req.channels);
    FirstVisited(s, check, req);
  }

  lemma TakesFirst(s: Settings, check: Checker, f: Found, order: seq<int>)
    requires FirstOf(s, check, f, order) && order != [] && Workable(s, check, f.channels, f.rate, order[0])
    ensures f.format == order[0]
  {
    hide Workable;
  }

  /** The native format that was asked for is taken whenever it works and nothing will be done to the samples. */
  lemma ExactFormat(s: Settings, check: Checker, req: Request)
    requires req.rate >= 1 && req.channels <= 8 && IsNative(req.format)
    requires s.ignoreVolumeControl && !s.volumeMaxDbSet && !s.monoPlayback
    requires Workable(s, check, req.channels, req.rate, req.format)
    ensures SearchResult(s, check, req) == Some(Found(req.channels, req.rate, req.format))
  {
    hide Workable, FirstOf, FormatOrder, SearchResult;
    RequestedRate(s, check, req);
    FirstFormatTried(req.format, s.littleEndian);
    TakesFirst(s, check, SearchResult(s, check, req).value, FormatOrder(req.format, s.littleEndian));
  }

  /** Whatever format was asked for, 32 bits in the machine's byte order are taken whenever they work and the samples
      will be changed. */
  lemma WidestFormat(s: Settings, check: Checker, req: Request)
    requires req.rate >= 1 && req.channels <= 8 && IsRecognised(req.format)
    requires !s.ignoreVolumeControl || s.volumeMaxDbSet || s.monoPlayback
    requires Workable(s, check, req.channels, req.rate, if s.littleEndian then SPS_FORMAT_S32_LE else SPS_FORMAT_S32_BE)
    ensures SearchResult(s, check, req)
         == Some(Found(req.channels, req.rate, if s.littleEndian then SPS_FORMAT_S32_LE else SPS_FORMAT_S32_BE))
  {
    hide Workable, FirstOf, FormatOrder, SearchResult;
    RequestedRate(s, check, req);
    WidestFirst(s.littleEndian);
    TakesFirst(s, check, SearchResult(s, check, req).value, FormatOrder(SPS_FORMAT_S32, s.littleEndian));
  }

  lemma WidestFirst(littleEndian: bool)
    ensures FormatOrder(SPS_FORMAT_S32, littleEndian) != []
    ensures FormatOrder(SPS_FORMAT_S32, littleEndian)[0]
         == if littleEndian then SPS_FORMAT_S32_LE else SPS_FORMAT_S32_BE
  {
  }
}

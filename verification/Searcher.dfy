/** The configuration search as the loops of audio.c, with its static last response. */
module Searcher {
  import opened Wrappers
  import opened Formats
  import opened Search
  import T = SearchTheorems
  import C = SearchCache

  /** The loop that looks for the rate among the permitted ones. */
  method IsRatePermissible(s: Settings, rate: int) returns (permissible: bool)
    ensures permissible == RatePermissible(s, rate)
  {
    permissible := false;
    var r := SPS_RATE_LOWEST;
    while !permissible && r <= SPS_RATE_HIGHEST
      invariant SPS_RATE_LOWEST <= r <= SPS_RATE_HIGHEST + 1
      invariant permissible ==> RatePermissible(s, rate)
      invariant !permissible ==> forall q :: SPS_RATE_LOWEST <= q < r ==> !(q in s.rateSet && rate == ActualRate(q))
      decreases !permissible, SPS_RATE_HIGHEST + 1 - r
    {
      if r in s.rateSet && rate == ActualRate(r) {
        permissible := true;
      } else {
        r := r + 1;
      }
    }
  }

  /** One of the two loops over formats. */
  method FindFormat(s: Settings, check: Checker, channels: int, rate: int, formats: seq<int>) returns (response: int)
    requires SPS_FORMAT_UNKNOWN !in formats
    ensures response == FirstFormat(s, check, channels, rate, formats)
  {
    response := SPS_FORMAT_UNKNOWN;
    var i := 0;
    while i < |formats| && response == SPS_FORMAT_UNKNOWN
      invariant 0 <= i <= |formats|
      invariant FirstFormat(s, check, channels, rate, formats)
             == if response != SPS_FORMAT_UNKNOWN then response else FirstFormat(s, check, channels, rate, formats[i..])
      decreases |formats| - i, response == SPS_FORMAT_UNKNOWN
    {
      assert formats[i..][0] == formats[i] && formats[i..][1..] == formats[i + 1..];
      if formats[i] in s.formatSet && check(channels, rate, formats[i]) {
        response := formats[i];
      } else {
        i := i + 1;
      }
    }
  }

  lemma {:induction false} FirstFormatConcat(s: Settings, check: Checker, channels: int, rate: int,
                                             xs: seq<int>, ys: seq<int>)
    requires SPS_FORMAT_UNKNOWN !in xs
    ensures FirstFormat(s, check, channels, rate, xs + ys)
         == var f := FirstFormat(s, check, channels, rate, xs);
            if f != SPS_FORMAT_UNKNOWN then f else FirstFormat(s, check, channels, rate, ys)
  {
    if xs == [] {
      assert xs + ys == ys;
    } else {
      FirstFormatConcat(s, check, channels, rate, xs[1..], ys);
      assert (xs + ys)[1..] == xs[1..] + ys;
    }
  }

  lemma OrdersKnown(format: int, littleEndian: bool)
    ensures SPS_FORMAT_UNKNOWN !in InitialFormats(format, littleEndian)
    ensures SPS_FORMAT_UNKNOWN !in SubsequentFormats(format, littleEndian)
  {
  }

  /** check_configuration_with_formats. */
  method CheckConfigurationWithFormats(s: Settings, check: Checker, channels: int, rate: int, format: int)
    returns (response: int)
    ensures response == CheckFormats(s, check, channels, rate, format)
  {
    hide RatePermissible, InitialFormats, SubsequentFormats, FirstFormat;
    response := SPS_FORMAT_UNKNOWN;
    if channels in s.channelSet {
      var permissible := IsRatePermissible(s, rate);
      if permissible {
        var initial := InitialFormats(format, s.littleEndian);
        var subsequent := SubsequentFormats(format, s.littleEndian);
        OrdersKnown(format, s.littleEndian);
        FirstFormatConcat(s, check, channels, rate, initial, subsequent);
        response := FindFormat(s, check, channels, rate, initial);
        if response == SPS_FORMAT_UNKNOWN {
          response := FindFormat(s, check, channels, rate, subsequent);
        }
      }
    }
  }

  function FoundAt(channels: int, rate: int, format: int): Option<Found> {
    if format == SPS_FORMAT_UNKNOWN then None else Some(Found(channels, rate, format))
  }

  /** The requested rate and its even multiples. */
  method TryMultiples(s: Settings, check: Checker, req: Request, channels: int) returns (rate: int, format: int)
    requires req.rate >= 1
    ensures FirstProbe(s, check, Multiples(s, req, channels, req.rate)) == FoundAt(channels, rate, format)
  {
    hide CheckFormats;
    var rateMultiplier := 2;
    rate := req.rate;
    format := SPS_FORMAT_UNKNOWN;
    while rate <= GREATEST_RATE && format == SPS_FORMAT_UNKNOWN
      invariant 1 <= rate && rateMultiplier * req.rate == 2 * rate
      invariant FirstProbe(s, check, Multiples(s, req, channels, req.rate))
             == if format != SPS_FORMAT_UNKNOWN then FoundAt(channels, rate, format)
                else FirstProbe(s, check, Multiples(s, req, channels, rate))
      decreases GREATEST_RATE + 1 - rate, format == SPS_FORMAT_UNKNOWN
    {
      var probes := Multiples(s, req, channels, rate);
      assert probes[1..] == Multiples(s, req, channels, 2 * rate);
      if WantsExact(s, req, channels, rate) {
        format := CheckConfigurationWithFormats(s, check, channels, rate, req.format);
      } else {
        format := CheckConfigurationWithFormats(s, check, channels, rate, SPS_FORMAT_S32);
      }
      if format == SPS_FORMAT_UNKNOWN {
        rate := req.rate * rateMultiplier;
        Doubled(req.rate, rateMultiplier);
        rateMultiplier := rateMultiplier * 2;
      }
    }
  }

  lemma Doubled(rate: int, multiplier: int)
    ensures multiplier * 2 * rate == 2 * (rate * multiplier)
  {
  }

  /** The listed rates above the requested one. */
  method TryHigher(s: Settings, check: Checker, req: Request, channels: int) returns (rate: int, format: int)
    ensures FirstProbe(s, check, Higher(req, channels, 0)) == FoundAt(channels, rate, format)
  {
    hide CheckFormats, Higher;
    HigherEnd(req, channels);
    rate, format := req.rate, SPS_FORMAT_UNKNOWN;
    var ratePointer := 0;
    while ratePointer < |RATES| && format == SPS_FORMAT_UNKNOWN
      invariant 0 <= ratePointer <= |RATES|
      invariant FirstProbe(s, check, Higher(req, channels, 0))
             == if format != SPS_FORMAT_UNKNOWN then FoundAt(channels, rate, format)
                else FirstProbe(s, check, Higher(req, channels, ratePointer))
      decreases |RATES| - ratePointer, format == SPS_FORMAT_UNKNOWN
    {
      rate := RATES[ratePointer];
      HigherStep(req, channels, ratePointer);
      if rate > req.rate {
        format := CheckConfigurationWithFormats(s, check, channels, rate, req.format);
      }
      if format == SPS_FORMAT_UNKNOWN {
        ratePointer := ratePointer + 1;
      }
    }
  }

  lemma HigherEnd(req: Request, channels: int)
    ensures Higher(req, channels, |RATES|) == []
  {
  }

  lemma HigherStep(req: Request, channels: int, i: nat)
    requires i < |RATES|
    ensures var probes := Higher(req, channels, i);
      if RATES[i] > req.rate
      then probes != [] && probes[0] == Probe(channels, RATES[i], req.format)
           && probes[1..] == Higher(req, channels, i + 1)
      else probes == Higher(req, channels, i + 1)
  {
  }

  /** The listed rates below the requested one, from the far end of the list. */
  method TryLower(s: Settings, check: Checker, req: Request, channels: int) returns (rate: int, format: int)
    ensures FirstProbe(s, check, Lower(req, channels, |RATES|)) == FoundAt(channels, rate, format)
  {
    hide CheckFormats, Lower;
    LowerEnd(req, channels);
    rate, format := req.rate, SPS_FORMAT_UNKNOWN;
    var ratePointer := |RATES| - 1;
    while ratePointer >= 0 && format == SPS_FORMAT_UNKNOWN
      invariant -1 <= ratePointer < |RATES|
      invariant FirstProbe(s, check, Lower(req, channels, |RATES|))
             == if format != SPS_FORMAT_UNKNOWN then FoundAt(channels, rate, format)
                else FirstProbe(s, check, Lower(req, channels, ratePointer + 1))
      decreases ratePointer + 1, format == SPS_FORMAT_UNKNOWN
    {
      rate := RATES[ratePointer];
      LowerStep(req, channels, ratePointer);
      if rate < req.rate {
        format := CheckConfigurationWithFormats(s, check, channels, rate, req.format);
      }
      if format == SPS_FORMAT_UNKNOWN {
        ratePointer := ratePointer - 1;
      }
    }
  }

  lemma LowerEnd(req: Request, channels: int)
    ensures Lower(req, channels, 0) == []
  {
  }

  lemma LowerStep(req: Request, channels: int, i: nat)
    requires i < |RATES|
    ensures var probes := Lower(req, channels, i + 1);
      if RATES[i] < req.rate
      then probes != [] && probes[0] == Probe(channels, RATES[i], req.format) && probes[1..] == Lower(req, channels, i)
      else probes == Lower(req, channels, i)
  {
  }

  /** All attempts for one channel count. */
  method TryChannels(s: Settings, check: Checker, req: Request, channels: int) returns (rate: int, format: int)
    requires req.rate >= 1
    ensures ChannelResult(s, check, req, channels) == FoundAt(channels, rate, format)
  {
    hide Multiples, Higher, Lower, FirstProbe;
    T.FirstProbeConcat(s, check, Multiples(s, req, channels, req.rate) + Higher(req, channels, 0),
                       Lower(req, channels, |RATES|));
    T.FirstProbeConcat(s, check, Multiples(s, req, channels, req.rate), Higher(req, channels, 0));
    rate, format := TryMultiples(s, check, req, channels);
    if format == SPS_FORMAT_UNKNOWN {
      rate, format := TryHigher(s, check, req, channels);
    }
    if format == SPS_FORMAT_UNKNOWN {
      rate, format := TryLower(s, check, req, channels);
    }
  }

  lemma VisitsUnfold(index: nat, tried: set<int>)
    requires index < |CHANNEL_SEQUENCE|
    ensures var c := CHANNEL_SEQUENCE[index];
      if c in tried then Visits(index, tried) == Visits(index + 1, tried)
      else Visits(index, tried) != [] && Visits(index, tried)[0] == c
           && Visits(index, tried)[1..] == Visits(index + 1, tried + {c})
  {
  }

  lemma VisitsOver(index: nat, tried: set<int>)
    ensures index >= |CHANNEL_SEQUENCE| ==> Visits(index, tried) == []
  {
  }

  /** The loop over channel counts, up and then down, each tried once. */
  method SearchChannels(s: Settings, check: Checker, req: Request) returns (channels: int, rate: int, format: int)
    requires req.rate >= 1
    ensures SearchResult(s, check, req) == FoundAt(channels, rate, format)
  {
    hide ChannelResult, Visits;
    channels, rate, format := 0, req.rate, SPS_FORMAT_UNKNOWN;
    var channelCountIndex := req.channels;
    var tried: set<int> := {};
    while format == SPS_FORMAT_UNKNOWN && channelCountIndex < |CHANNEL_SEQUENCE|
      invariant channelCountIndex >= 0
      invariant SearchResult(s, check, req)
             == if format != SPS_FORMAT_UNKNOWN then FoundAt(channels, rate, format)
                else FirstChannel(s, check, req, Visits(channelCountIndex, tried))
      decreases format == SPS_FORMAT_UNKNOWN, |CHANNEL_SEQUENCE| - channelCountIndex
    {
      VisitsUnfold(channelCountIndex, tried);
      channels := CHANNEL_SEQUENCE[channelCountIndex];
      if channels !in tried {
        tried := tried + {channels};
        rate, format := TryChannels(s, check, req, channels);
      }
      if format == SPS_FORMAT_UNKNOWN {
        channelCountIndex := channelCountIndex + 1;
      }
    }
    VisitsOver(channelCountIndex, tried);
  }

  /** The search together with the static record of the last response. */
  class ConfigurationSearch {
    const settings: Settings
    const backends: C.Backends
    var lastChecker: nat
    var lastRequest: nat
    var lastResponse: nat

    ghost function Memory(): C.Memory
      reads this
    {
      C.Memory(lastChecker, lastRequest, lastResponse)
    }

    constructor (s: Settings, b: C.Backends)
      ensures settings == s && backends == b && Memory() == C.EMPTY_MEMORY
    {
      settings, backends := s, b;
      lastChecker, lastRequest, lastResponse := 0, 0, 0;
    }

    /** search_for_suitable_configuration. */
    method SearchForSuitableConfiguration(checker: nat, req: Request) returns (reply: nat)
      requires req.rate >= 1
      modifies this
      ensures reply == C.CachedReply(settings, backends, old(Memory()), checker, req)
      ensures Memory() == C.NextMemory(settings, backends, old(Memory()), checker, req)
    {
      hide SearchResult, Encode;
      reply := 0;
      var encodedRequest := Encode(req.channels, req.rate, req.format);
      if lastChecker == checker && lastRequest == encodedRequest {
        reply := lastResponse;
      }
      if reply == 0 {
        var channels, rate, format := SearchChannels(settings, C.CheckerOf(backends, checker), req);
        if format != SPS_FORMAT_UNKNOWN {
          reply := Encode(channels, rate, format);
          lastChecker := checker;
          lastRequest := encodedRequest;
          lastResponse := reply;
        }
      }
    }
  }
}

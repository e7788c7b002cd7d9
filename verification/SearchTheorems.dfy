/** What the configuration search finds: soundness, completeness, and the order of preference. */
module SearchTheorems {
  import opened Wrappers
  import opened Formats
  import opened Search

  // ----- rates -----

  lemma ListedRates(r: int)
    requires SPS_RATE_LOWEST <= r <= SPS_RATE_HIGHEST
    ensures ActualRate(r) in RATES && 1 <= ActualRate(r) <= GREATEST_RATE
  {
    var i := [14, 13, 12, 11, 10, 9, 0, 1, 8, 2, 3, 4, 5, 6, 7][r - 1];
    assert RATES[i] == ActualRate(r);
  }

  lemma {:induction false} HigherHas(req: Request, channels: int, i: nat, k: nat)
    requires i <= k < |RATES| && RATES[k] > req.rate
    ensures Probe(channels, RATES[k], req.format) in Higher(req, channels, i)
    decreases k - i
  {
    if i < k {
      HigherHas(req, channels, i + 1, k);
    }
  }

  lemma {:induction false} LowerHas(req: Request, channels: int, i: nat, k: nat)
    requires k < i <= |RATES| && RATES[k] < req.rate
    ensures Probe(channels, RATES[k], req.format) in Lower(req, channels, i)
    decreases i
  {
    if k < i - 1 {
      LowerHas(req, channels, i - 1, k);
    }
  }

  /** Every permissible rate is tried for a channel count, with a format order that covers all native formats. */
  lemma RateIsTried(s: Settings, req: Request, channels: int, rate: int)
    requires req.rate >= 1 && IsRecognised(req.format) && RatePermissible(s, rate)
    ensures exists p :: p in ChannelProbes(s, req, channels) && p.channels == channels && p.rate == rate
              && IsRecognised(p.format)
  {
    hide Higher, Lower;
    var r :| SPS_RATE_LOWEST <= r <= SPS_RATE_HIGHEST && r in s.rateSet && rate == ActualRate(r);
    ListedRates(r);
    var k :| 0 <= k < |RATES| && RATES[k] == rate;
    if rate > req.rate {
      HigherHas(req, channels, 0, k);
      assert Probe(channels, rate, req.format) in ChannelProbes(s, req, channels);
    } else if rate < req.rate {
      LowerHas(req, channels, |RATES|, k);
      assert Probe(channels, rate, req.format) in ChannelProbes(s, req, channels);
    } else {
      var p := Multiples(s, req, channels, req.rate)[0];
      assert ChannelProbes(s, req, channels)[0] == p;
      assert p in ChannelProbes(s, req, channels);
    }
  }

  predicate ProbeFine(p: Probe, channels: int) {
    p.channels == channels && p.rate >= 1 && IsRecognised(p.format)
  }

  lemma {:induction false} MultiplesFine(s: Settings, req: Request, channels: int, rate: int)
    requires rate >= 1 && IsRecognised(req.format)
    ensures forall p :: p in Multiples(s, req, channels, rate) ==> ProbeFine(p, channels)
    decreases GREATEST_RATE - rate
  {
    if rate <= GREATEST_RATE {
      MultiplesFine(s, req, channels, 2 * rate);
    }
  }

  lemma {:induction false} HigherFine(req: Request, channels: int, i: nat)
    requires i <= |RATES| && IsRecognised(req.format)
    ensures forall p :: p in Higher(req, channels, i) ==> ProbeFine(p, channels)
    decreases |RATES| - i
  {
    if i < |RATES| {
      HigherFine(req, channels, i + 1);
    }
  }

  lemma {:induction false} LowerFine(req: Request, channels: int, i: nat)
    requires i <= |RATES| && IsRecognised(req.format)
    ensures forall p :: p in Lower(req, channels, i) ==> ProbeFine(p, channels)
  {
    if i > 0 {
      LowerFine(req, channels, i - 1);
    }
  }

  lemma ProbesFine(s: Settings, req: Request, channels: int)
    requires req.rate >= 1 && IsRecognised(req.format)
    ensures forall p :: p in ChannelProbes(s, req, channels) ==> ProbeFine(p, channels)
  {
    hide Multiples, Higher, Lower;
    MultiplesFine(s, req, channels, req.rate);
    HigherFine(req, channels, 0);
    LowerFine(req, channels, |RATES|);
  }

  lemma {:induction false} FirstProbeFound(s: Settings, check: Checker, probes: seq<Probe>)
    ensures match FirstProbe(s, check, probes)
      case None => forall k :: 0 <= k < |probes| ==> Try(s, check, probes[k]) == SPS_FORMAT_UNKNOWN
      case Some(f) => exists k :: 0 <= k < |probes| && IsResult(s, check, probes[k], f)
                        && forall j :: 0 <= j < k ==> Try(s, check, probes[j]) == SPS_FORMAT_UNKNOWN
  {
    hide Try;
    if probes != [] && Try(s, check, probes[0]) == SPS_FORMAT_UNKNOWN {
      var rest := probes[1..];
      FirstProbeFound(s, check, rest);
      assert forall k :: 0 <= k < |rest| ==> rest[k] == probes[k + 1];
      match FirstProbe(s, check, rest) {
        case None =>
          forall k | 0 <= k < |probes| ensures Try(s, check, probes[k]) == SPS_FORMAT_UNKNOWN {
            assert k > 0 ==> probes[k] == rest[k - 1];
          }
        case Some(f) =>
          var k :| 0 <= k < |rest| && IsResult(s, check, rest[k], f)
            && forall j :: 0 <= j < k ==> Try(s, check, rest[j]) == SPS_FORMAT_UNKNOWN;
          forall j | 0 <= j < k + 1 ensures Try(s, check, probes[j]) == SPS_FORMAT_UNKNOWN {
            assert j > 0 ==> probes[j] == rest[j - 1];
          }
          assert IsResult(s, check, probes[k + 1], f);
      }
    }
  }

  /** The attempt succeeds, and this is what it finds. */
  predicate IsResult(s: Settings, check: Checker, p: Probe, f: Found) {
    f == Found(p.channels, p.rate, Try(s, check, p)) && f.format != SPS_FORMAT_UNKNOWN
  }

  lemma {:induction false} FirstProbeConcat(s: Settings, check: Checker, xs: seq<Probe>, ys: seq<Probe>)
    ensures FirstProbe(s, check, xs + ys)
         == if FirstProbe(s, check, xs).Some? then FirstProbe(s, check, xs) else FirstProbe(s, check, ys)
  {
    hide Try;
    if xs == [] {
      assert xs + ys == ys;
    } else {
      FirstProbeConcat(s, check, xs[1..], ys);
      assert (xs + ys)[1..] == xs[1..] + ys;
    }
  }

  // ----- one channel count -----

  /** Some rate and native format would do for this channel count. */
  ghost predicate AnyWorkable(s: Settings, check: Checker, channels: int) {
    exists rate, format :: IsNative(format) && Workable(s, check, channels, rate, format)
  }

  /** Some native format would do at this rate. */
  ghost predicate RateWorks(s: Settings, check: Checker, channels: int, rate: int) {
    exists format :: IsNative(format) && Workable(s, check, channels, rate, format)
  }

  /** The configuration is the first that works: none works at the rates of earlier attempts, and at its own rate
      none of the formats that come before it in the order of its attempt. */
  ghost predicate FirstWorkable(s: Settings, check: Checker, probes: seq<Probe>, f: Found) {
    exists k :: 0 <= k < |probes| && FirstAt(s, check, probes, k, f)
  }

  ghost predicate FirstAt(s: Settings, check: Checker, probes: seq<Probe>, k: nat, f: Found)
    requires k < |probes|
  {
    && f.channels == probes[k].channels && f.rate == probes[k].rate
    && (forall j :: 0 <= j < k ==> !RateWorks(s, check, probes[j].channels, probes[j].rate))
    && FirstOf(s, check, f, FormatOrder(probes[k].format, s.littleEndian))
  }

  ghost predicate FirstOf(s: Settings, check: Checker, f: Found, order: seq<int>) {
    exists m :: 0 <= m < |order| && order[m] == f.format && Workable(s, check, f.channels, f.rate, f.format)
      && forall j :: 0 <= j < m ==> !Workable(s, check, f.channels, f.rate, order[j])
  }

  lemma TryFails(s: Settings, check: Checker, p: Probe)
    requires IsRecognised(p.format)
    ensures Try(s, check, p) == SPS_FORMAT_UNKNOWN <==> !RateWorks(s, check, p.channels, p.rate)
  {
    hide CheckFormats, Workable;
    CheckFormatsExact(s, check, p.channels, p.rate, p.format);
    var f := Try(s, check, p);
    assert f != SPS_FORMAT_UNKNOWN ==> IsNative(f) && Workable(s, check, p.channels, p.rate, f);
  }

  lemma TryFirst(s: Settings, check: Checker, p: Probe, f: Found)
    requires IsRecognised(p.format) && IsResult(s, check, p, f)
    ensures FirstOf(s, check, f, FormatOrder(p.format, s.littleEndian))
  {
    hide RatePermissible, FormatOrder, FirstFormat;
    var order := FormatOrder(p.format, s.littleEndian);
    FormatOrderComplete(p.format, s.littleEndian);
    assert !IsNative(SPS_FORMAT_UNKNOWN);
    FirstFormatFound(s, check, p.channels, p.rate, order);
  }

  /** Within a channel count the first workable attempt is taken, with the first workable format of its order. */
  lemma ChannelPreference(s: Settings, check: Checker, req: Request, channels: int)
    requires req.rate >= 1 && IsRecognised(req.format) && ChannelResult(s, check, req, channels).Some?
    ensures FirstWorkable(s, check, ChannelProbes(s, req, channels), ChannelResult(s, check, req, channels).value)
  {
    hide ChannelProbes, FirstProbe, Try, RateWorks, FirstOf;
    var probes, f := ChannelProbes(s, req, channels), ChannelResult(s, check, req, channels).value;
    FirstProbeFound(s, check, probes);
    ProbesFine(s, req, channels);
    var k :| 0 <= k < |probes| && IsResult(s, check, probes[k], f)
      && forall j :: 0 <= j < k ==> Try(s, check, probes[j]) == SPS_FORMAT_UNKNOWN;
    assert probes[k] in probes;
    TryFirst(s, check, probes[k], f);
    forall j | 0 <= j < k ensures !RateWorks(s, check, probes[j].channels, probes[j].rate) {
      assert probes[j] in probes;
      TryFails(s, check, probes[j]);
    }
    assert FirstAt(s, check, probes, k, f);
  }

  lemma ChannelExact(s: Settings, check: Checker, req: Request, channels: int)
    requires req.rate >= 1 && IsRecognised(req.format)
    ensures match ChannelResult(s, check, req, channels)
      case None => !AnyWorkable(s, check, channels)
      case Some(f) => f.channels == channels && IsNative(f.format) && f.rate >= 1
                        && Workable(s, check, f.channels, f.rate, f.format)
  {
    hide ChannelProbes, FirstProbe, CheckFormats, RatePermissible;
    var probes := ChannelProbes(s, req, channels);
    FirstProbeFound(s, check, probes);
    ProbesFine(s, req, channels);
    match ChannelResult(s, check, req, channels) {
      case Some(f) =>
        var k :| 0 <= k < |probes| && IsResult(s, check, probes[k], f);
        var p := probes[k];
        assert p in probes;
        CheckFormatsExact(s, check, p.channels, p.rate, p.format);
      case None =>
        if AnyWorkable(s, check, channels) {
          var rate, format :| IsNative(format) && Workable(s, check, channels, rate, format);
          RateIsTried(s, req, channels, rate);
          var p :| p in probes && p.channels == channels && p.rate == rate && IsRecognised(p.format);
          assert Try(s, check, p) == SPS_FORMAT_UNKNOWN;
          CheckFormatsExact(s, check, p.channels, p.rate, p.format);
        }
    }
  }

  // ----- channel counts in order -----

  function UpTo(c: int): seq<int>
    decreases 9 - c
  {
    if c > 8 then [] else [c] + UpTo(c + 1)
  }

  function DownFrom(c: int): seq<int>
    decreases c
  {
    if c < 1 then [] else [c] + DownFrom(c - 1)
  }

  /** More channels first, then fewer. */
  function ChannelOrder(c: int): seq<int> {
    UpTo(c) + DownFrom(c - 1)
  }

  function Range(lo: int, hi: int): (r: set<int>)
    ensures forall x :: x in r <==> lo <= x < hi
    decreases hi - lo
  {
    if lo >= hi then {} else {lo} + Range(lo + 1, hi)
  }

  lemma VisitStep(i: nat, tried: set<int>)
    requires i < 16
    ensures var v := if i <= 8 then i else 16 - i;
      Visits(i, tried) == if v in tried then Visits(i + 1, tried) else [v] + Visits(i + 1, tried + {v})
  {
  }

  lemma VisitsEnd(tried: set<int>)
    ensures Visits(16, tried) == []
  {
  }

  lemma {:induction false} VisitsDown(i: nat, c: int, tried: set<int>)
    requires 1 <= c <= 8 && 9 <= i <= 16
    requires tried == Range(if 17 - i < c then 17 - i else c, 9)
    ensures Visits(i, tried) == DownFrom(if 16 - i < c then 16 - i else c - 1)
    decreases 16 - i
  {
    hide Range, Visits;
    if i < 16 {
      VisitStep(i, tried);
      var v := 16 - i;
      if v < c {
        assert tried + {v} == Range(v, 9);
        VisitsDown(i + 1, c, tried + {v});
      } else {
        VisitsDown(i + 1, c, tried);
      }
    } else {
      VisitsEnd(tried);
    }
  }

  lemma {:induction false} VisitsUp(i: nat, c: int, tried: set<int>)
    requires 1 <= c <= i <= 9 && c <= 8 && tried == Range(c, i)
    ensures Visits(i, tried) == UpTo(i) + DownFrom(c - 1)
    decreases 9 - i
  {
    hide Range, DownFrom, Visits;
    if i < 9 {
      VisitStep(i, tried);
      assert tried + {i as int} == Range(c, i + 1);
      VisitsUp(i + 1, c, tried + {i as int});
    } else {
      VisitsDown(9, c, tried);
    }
  }

  lemma {:induction false} UpToElements(c: int)
    requires c <= 9
    ensures forall x :: x in UpTo(c) <==> c <= x <= 8
    ensures NoDuplicates(UpTo(c))
    decreases 9 - c
  {
    if c <= 8 {
      UpToElements(c + 1);
      Prepended(c, UpTo(c + 1));
    }
  }

  lemma {:induction false} DownFromElements(c: int)
    ensures forall x :: x in DownFrom(c) <==> 1 <= x <= c
    ensures NoDuplicates(DownFrom(c))
    decreases c
  {
    if c >= 1 {
      DownFromElements(c - 1);
      Prepended(c, DownFrom(c - 1));
    }
  }

  lemma Prepended(x: int, xs: seq<int>)
    requires NoDuplicates(xs) && x !in xs
    ensures NoDuplicates([x] + xs)
  {
  }

  lemma Joined(xs: seq<int>, ys: seq<int>)
    requires NoDuplicates(xs) && NoDuplicates(ys) && forall x :: x in xs ==> x !in ys
    ensures NoDuplicates(xs + ys)
  {
    forall i, j | 0 <= i < j < |xs + ys| ensures (xs + ys)[i] != (xs + ys)[j] {
      if i < |xs| <= j {
        assert xs[i] in xs && ys[j - |xs|] in ys;
      }
    }
  }

  /** The channel counts are tried in the order c, c + 1, ..., 8, c - 1, ..., 1, each exactly once. */
  lemma VisitOrder(c: nat)
    requires 1 <= c <= 8
    ensures Visits(c, {}) == ChannelOrder(c) && NoDuplicates(ChannelOrder(c))
    ensures forall x :: x in ChannelOrder(c) <==> 1 <= x <= 8
  {
    hide Visits, UpTo, DownFrom, NoDuplicates;
    assert {} == Range(c, c);
    VisitsUp(c, c, {});
    UpToElements(c);
    DownFromElements(c - 1);
    Joined(UpTo(c), DownFrom(c - 1));
  }

  lemma {:induction false} FirstChannelFound(s: Settings, check: Checker, req: Request, counts: seq<int>)
    requires req.rate >= 1
    ensures match FirstChannel(s, check, req, counts)
      case None => forall i :: 0 <= i < |counts| ==> ChannelResult(s, check, req, counts[i]).None?
      case Some(f) => exists k :: 0 <= k < |counts| && ChannelResult(s, check, req, counts[k]) == Some(f)
                        && forall i :: 0 <= i < k ==> ChannelResult(s, check, req, counts[i]).None?
  {
    hide ChannelResult;
    if counts != [] {
      var rest := counts[1..];
      FirstChannelFound(s, check, req, rest);
      assert forall i :: 0 <= i < |rest| ==> rest[i] == counts[i + 1];
      if ChannelResult(s, check, req, counts[0]).None? {
        match FirstChannel(s, check, req, rest) {
          case None =>
            forall i | 0 <= i < |counts| ensures ChannelResult(s, check, req, counts[i]).None? {
              if i > 0 {
                assert counts[i] == rest[i - 1];
              }
            }
          case Some(f) =>
            var k :| 0 <= k < |rest| && ChannelResult(s, check, req, rest[k]) == Some(f)
              && forall i :: 0 <= i < k ==> ChannelResult(s, check, req, rest[i]).None?;
            forall i | 0 <= i < k + 1 ensures ChannelResult(s, check, req, counts[i]).None? {
              if i > 0 {
                assert counts[i] == rest[i - 1];
              }
            }
            assert ChannelResult(s, check, req, counts[k + 1]) == Some(f);
        }
      }
    }
  }

  /** The search fails exactly if no configuration at all is allowed and accepted; otherwise it finds a workable one,
      with the first channel count in the order of preference that has one, there at the first rate that has one, and
      there in the first format. */
  lemma SearchExact(s: Settings, check: Checker, req: Request)
    requires 1 <= req.channels <= 8 && req.rate >= 1 && IsRecognised(req.format)
    ensures match SearchResult(s, check, req)
      case None => forall c :: 1 <= c <= 8 ==> !AnyWorkable(s, check, c)
      case Some(f) =>
        && 1 <= f.channels <= 8 && IsNative(f.format) && Workable(s, check, f.channels, f.rate, f.format)
        && FirstWorkable(s, check, ChannelProbes(s, req, f.channels), f)
        && exists k :: 0 <= k < |ChannelOrder(req.channels)| && ChannelOrder(req.channels)[k] == f.channels
             && forall i :: 0 <= i < k ==> !AnyWorkable(s, check, ChannelOrder(req.channels)[i])
  {
    hide ChannelResult, ChannelProbes, FirstWorkable, FirstChannel, Visits, ChannelOrder, AnyWorkable, Workable;
    var order := ChannelOrder(req.channels);
    VisitOrder(req.channels);
    FirstChannelFound(s, check, req, order);
    match SearchResult(s, check, req) {
      case None =>
        forall c | 1 <= c <= 8 ensures !AnyWorkable(s, check, c) {
          assert c in order;
          ChannelExact(s, check, req, c);
        }
      case Some(f) =>
        var k :| 0 <= k < |order| && ChannelResult(s, check, req, order[k]) == Some(f)
          && forall i :: 0 <= i < k ==> ChannelResult(s, check, req, order[i]).None?;
        ChannelExact(s, check, req, order[k]);
        ChannelPreference(s, check, req, order[k]);
        assert order[k] in order;
        forall i | 0 <= i < k ensures !AnyWorkable(s, check, order[i]) {
          ChannelExact(s, check, req, order[i]);
        }
    }
  }

  /** The reply is 0 exactly if nothing was found. */
  lemma ReplyZero(s: Settings, check: Checker, req: Request)
    requires 1 <= req.channels <= 8 && req.rate >= 1 && IsRecognised(req.format)
    ensures Reply(s, check, req) == 0 <==> SearchResult(s, check, req).None?
  {
    hide SearchResult, Workable, FirstWorkable, ChannelProbes, Encode;
    SearchExact(s, check, req);
    match SearchResult(s, check, req) {
      case None =>
      case Some(f) =>
        assert f.rate >= 1 by {
          PermissibleRates(s, check, f);
        }
        DecodeEncode(f.channels, f.rate, f.format);
    }
  }

  lemma PermissibleRates(s: Settings, check: Checker, f: Found)
    requires Workable(s, check, f.channels, f.rate, f.format)
    ensures 1 <= f.rate <= GREATEST_RATE
  {
    var r :| SPS_RATE_LOWEST <= r <= SPS_RATE_HIGHEST && r in s.rateSet && f.rate == ActualRate(r);
    ListedRates(r);
  }
}

/** Which rate the configuration search settles on for a channel count, and when that is the next higher or next lower
    rate that the comments of audio.c speak of. */
module RateOrder {
  import opened Words
  import opened Formats
  import opened Search
  import opened SearchTheorems
  import SearchCache

  // ----- what works -----

  /** The requested rate or one of its doublings, and it works. */
  ghost predicate MultipleWorks(s: Settings, check: Checker, req: Request, channels: int, k: nat) {
    req.rate * Pow2(k) <= GREATEST_RATE && RateWorks(s, check, channels, req.rate * Pow2(k))
  }

  function RateAt(i: nat): int
    requires i < |RATES|
  {
    RATES[i]
  }

  ghost predicate HigherWorks(s: Settings, check: Checker, req: Request, channels: int, i: int) {
    0 <= i < |RATES| && RateAt(i) > req.rate && RateWorks(s, check, channels, RateAt(i))
  }

  ghost predicate LowerWorks(s: Settings, check: Checker, req: Request, channels: int, i: int) {
    0 <= i < |RATES| && RateAt(i) < req.rate && RateWorks(s, check, channels, RateAt(i))
  }

  /** A rate that works is one of the list. */
  lemma WorkingRateListed(s: Settings, check: Checker, channels: int, rate: int) returns (i: int)
    requires RateWorks(s, check, channels, rate)
    ensures 0 <= i < |RATES| && RateAt(i) == rate
  {
    var format :| IsNative(format) && Workable(s, check, channels, rate, format);
    var r :| SPS_RATE_LOWEST <= r <= SPS_RATE_HIGHEST && r in s.rateSet && rate == ActualRate(r);
    ListedRates(r);
    i :| 0 <= i < |RATES| && RATES[i] == rate;
  }

  // ----- the first success of each of the three loops -----

  lemma FirstOne(s: Settings, check: Checker, p: Probe, rest: seq<Probe>)
    requires IsRecognised(p.format)
    ensures
      var f := FirstProbe(s, check, [p] + rest);
      if RateWorks(s, check, p.channels, p.rate)
      then f.Some? && f.value.channels == p.channels && f.value.rate == p.rate
      else f == FirstProbe(s, check, rest)
  {
    hide Try, RateWorks;
    TryFails(s, check, p);
    assert ([p] + rest)[1..] == rest;
  }

  lemma {:induction false} FirstMultiple(s: Settings, check: Checker, req: Request, channels: int, k: nat)
    requires req.rate >= 1 && IsRecognised(req.format)
    ensures req.rate * Pow2(k) >= 1
    ensures match FirstProbe(s, check, Multiples(s, req, channels, req.rate * Pow2(k)))
      case None => forall m: nat :: k <= m ==> !MultipleWorks(s, check, req, channels, m)
      case Some(f) => exists m: nat :: k <= m && MultipleWorks(s, check, req, channels, m)
                        && f.rate == req.rate * Pow2(m)
                        && forall j: nat :: k <= j < m ==> !MultipleWorks(s, check, req, channels, j)
    decreases GREATEST_RATE - req.rate * Pow2(k)
  {
    hide FirstProbe, RateWorks;
    var rate := req.rate * Pow2(k);
    RateAtLeast(req.rate, k);
    if rate > GREATEST_RATE {
      NoProbe(s, check);
      forall m: nat | k <= m ensures !MultipleWorks(s, check, req, channels, m) {
        MultiplesGrow(req.rate, k, m);
      }
    } else {
      assert 2 * rate == req.rate * Pow2(k + 1);
      FirstMultiple(s, check, req, channels, k + 1);
      var p := Multiples(s, req, channels, rate)[0];
      FirstOne(s, check, p, Multiples(s, req, channels, 2 * rate));
      assert MultipleWorks(s, check, req, channels, k) <==> RateWorks(s, check, channels, rate);
    }
  }

  lemma RateAtLeast(rate: int, k: nat)
    requires rate >= 1
    ensures rate * Pow2(k) >= 1
  {
  }

  lemma MultiplesGrow(rate: int, k: nat, m: nat)
    requires rate >= 1 && k <= m
    ensures rate * Pow2(k) <= rate * Pow2(m)
  {
    Pow2Monotone(k, m);
    hide Pow2;
    assert rate * (Pow2(m) - Pow2(k)) >= 0;
  }

  lemma NoProbe(s: Settings, check: Checker)
    ensures FirstProbe(s, check, []).None?
  {
  }

  lemma HigherStep(s: Settings, check: Checker, req: Request, channels: int, i: nat)
    requires IsRecognised(req.format) && i < |RATES|
    ensures
      var f := FirstProbe(s, check, Higher(req, channels, i));
      if HigherWorks(s, check, req, channels, i) then f.Some? && f.value.rate == RateAt(i)
      else f == FirstProbe(s, check, Higher(req, channels, i + 1))
  {
    hide FirstProbe, RateWorks;
    var rest := Higher(req, channels, i + 1);
    if RateAt(i) > req.rate {
      assert Higher(req, channels, i) == [Probe(channels, RateAt(i), req.format)] + rest;
      FirstOne(s, check, Probe(channels, RateAt(i), req.format), rest);
    } else {
      assert Higher(req, channels, i) == [] + rest == rest;
    }
  }

  lemma OnlyListed(s: Settings, check: Checker, req: Request, channels: int, i: int)
    requires HigherWorks(s, check, req, channels, i) || LowerWorks(s, check, req, channels, i)
    ensures 0 <= i < |RATES|
  {
    hide RateWorks;
  }

  lemma {:induction false} FirstHigher(s: Settings, check: Checker, req: Request, channels: int, i: nat)
    requires IsRecognised(req.format) && i <= |RATES|
    ensures match FirstProbe(s, check, Higher(req, channels, i))
      case None => forall j :: i <= j ==> !HigherWorks(s, check, req, channels, j)
      case Some(f) => exists j :: i <= j < |RATES| && HigherWorks(s, check, req, channels, j) && f.rate == RateAt(j)
                        && forall h :: i <= h < j ==> !HigherWorks(s, check, req, channels, h)
    decreases |RATES| - i
  {
    hide FirstProbe, Higher, HigherWorks, RateAt;
    if i == |RATES| {
      HigherOver(s, check, req, channels);
    } else {
      FirstHigher(s, check, req, channels, i + 1);
      HigherStep(s, check, req, channels, i);
    }
  }

  lemma HigherOver(s: Settings, check: Checker, req: Request, channels: int)
    ensures FirstProbe(s, check, Higher(req, channels, |RATES|)).None?
    ensures forall j :: |RATES| <= j ==> !HigherWorks(s, check, req, channels, j)
  {
    hide RateWorks;
  }

  lemma LowerStep(s: Settings, check: Checker, req: Request, channels: int, i: nat)
    requires IsRecognised(req.format) && i < |RATES|
    ensures
      var f := FirstProbe(s, check, Lower(req, channels, i + 1));
      if LowerWorks(s, check, req, channels, i) then f.Some? && f.value.rate == RateAt(i)
      else f == FirstProbe(s, check, Lower(req, channels, i))
  {
    hide FirstProbe, RateWorks;
    var rest := Lower(req, channels, i);
    if RateAt(i) < req.rate {
      assert Lower(req, channels, i + 1) == [Probe(channels, RateAt(i), req.format)] + rest;
      FirstOne(s, check, Probe(channels, RateAt(i), req.format), rest);
    } else {
      assert Lower(req, channels, i + 1) == [] + rest == rest;
    }
  }

  lemma {:induction false} FirstLower(s: Settings, check: Checker, req: Request, channels: int, i: nat)
    requires IsRecognised(req.format) && i <= |RATES|
    ensures match FirstProbe(s, check, Lower(req, channels, i))
      case None => forall j :: j < i ==> !LowerWorks(s, check, req, channels, j)
      case Some(f) => exists j :: 0 <= j < i && LowerWorks(s, check, req, channels, j) && f.rate == RateAt(j)
                        && forall h :: j < h < i ==> !LowerWorks(s, check, req, channels, h)
  {
    hide FirstProbe, Lower, LowerWorks, RateAt;
    if i == 0 {
      LowerOver(s, check, req, channels);
    } else {
      FirstLower(s, check, req, channels, i - 1);
      LowerStep(s, check, req, channels, i - 1);
    }
  }

  lemma LowerOver(s: Settings, check: Checker, req: Request, channels: int)
    ensures FirstProbe(s, check, Lower(req, channels, 0)).None?
    ensures forall j :: j < 0 ==> !LowerWorks(s, check, req, channels, j)
  {
  }

  // ----- the rate chosen -----

  ghost predicate LeastMultiple(s: Settings, check: Checker, req: Request, channels: int, rate: int) {
    exists m: nat :: MultipleWorks(s, check, req, channels, m) && rate == req.rate * Pow2(m)
      && forall j: nat :: j < m ==> !MultipleWorks(s, check, req, channels, j)
  }

  ghost predicate FirstListedHigher(s: Settings, check: Checker, req: Request, channels: int, rate: int) {
    exists i :: 0 <= i < |RATES| && HigherWorks(s, check, req, channels, i) && rate == RateAt(i)
      && forall j :: j < i ==> !HigherWorks(s, check, req, channels, j)
  }

  ghost predicate LastListedLower(s: Settings, check: Checker, req: Request, channels: int, rate: int) {
    exists i :: 0 <= i < |RATES| && LowerWorks(s, check, req, channels, i) && rate == RateAt(i)
      && forall j :: i < j ==> !LowerWorks(s, check, req, channels, j)
  }

  ghost predicate AnyMultiple(s: Settings, check: Checker, req: Request, channels: int) {
    exists m: nat :: MultipleWorks(s, check, req, channels, m)
  }

  ghost predicate AnyHigher(s: Settings, check: Checker, req: Request, channels: int) {
    exists i :: HigherWorks(s, check, req, channels, i)
  }

  ghost predicate AnyLower(s: Settings, check: Checker, req: Request, channels: int) {
    exists i :: LowerWorks(s, check, req, channels, i)
  }

  /** For all settings, back ends, requests and channel counts: the least multiple that works; if there is none, the
      first entry of the list above the request that works; if there is none, the last entry below it that works. */
  lemma RateChosen(s: Settings, check: Checker, req: Request, channels: int)
    requires req.rate >= 1 && IsRecognised(req.format)
    ensures match ChannelResult(s, check, req, channels)
      case None => !AnyMultiple(s, check, req, channels) && !AnyHigher(s, check, req, channels)
                     && !AnyLower(s, check, req, channels)
      case Some(f) =>
        if AnyMultiple(s, check, req, channels) then LeastMultiple(s, check, req, channels, f.rate)
        else if AnyHigher(s, check, req, channels) then FirstListedHigher(s, check, req, channels, f.rate)
        else LastListedLower(s, check, req, channels, f.rate)
  {
    hide FirstProbe, Multiples, Higher, Lower, MultipleWorks, HigherWorks, LowerWorks, RateAt;
    var m, h, l := Multiples(s, req, channels, req.rate), Higher(req, channels, 0), Lower(req, channels, |RATES|);
    assert req.rate * Pow2(0) == req.rate;
    FirstMultiple(s, check, req, channels, 0);
    FirstHigher(s, check, req, channels, 0);
    FirstLower(s, check, req, channels, |RATES|);
    FirstProbeConcat(s, check, m + h, l);
    FirstProbeConcat(s, check, m, h);
    forall i | LowerWorks(s, check, req, channels, i) ensures i < |RATES| {
      OnlyListed(s, check, req, channels, i);
    }
    forall i | HigherWorks(s, check, req, channels, i) ensures 0 <= i {
      OnlyListed(s, check, req, channels, i);
    }
  }

  // ----- the next higher and the next lower rate -----

  /** The list rises over its first eight entries, the usual rates, and falls over the others. */
  const USUAL := 8

  lemma ListShape(i: nat, j: nat)
    requires i < j < |RATES|
    ensures j < USUAL ==> RateAt(i) < RateAt(j)
    ensures USUAL <= i ==> RateAt(i) > RateAt(j)
  {
  }

  ghost predicate NextHighest(s: Settings, check: Checker, req: Request, channels: int, rate: int) {
    && rate > req.rate && RateWorks(s, check, channels, rate)
    && forall x :: x > req.rate && RateWorks(s, check, channels, x) ==> rate <= x
  }

  ghost predicate NextLowest(s: Settings, check: Checker, req: Request, channels: int, rate: int) {
    && rate < req.rate && RateWorks(s, check, channels, rate)
    && forall x :: x < req.rate && RateWorks(s, check, channels, x) ==> x <= rate
  }

  /** What the sets and the device must be like for the first entry to be the least: every working rate above the
      request that is not a usual one is the only working rate there, or lies above a usual one that works. */
  ghost predicate HigherInOrder(s: Settings, check: Checker, req: Request, channels: int) {
    forall y :: USUAL <= y < |RATES| && HigherWorks(s, check, req, channels, y) ==>
      || (exists z :: 0 <= z < USUAL && HigherWorks(s, check, req, channels, z) && RateAt(z) < RateAt(y))
      || (forall x :: HigherWorks(s, check, req, channels, x) ==> x == y)
  }

  /** And for the last entry to be the greatest: no working rate below the request lies above one that works and is
      not a usual one. */
  ghost predicate LowerInOrder(s: Settings, check: Checker, req: Request, channels: int) {
    forall x, y | 0 <= x < |RATES| && USUAL <= y < |RATES| ::
      LowerWorks(s, check, req, channels, x) && LowerWorks(s, check, req, channels, y) ==> RateAt(x) <= RateAt(y)
  }

  /** Where a working rate above the request stands. */
  lemma HigherIndex(s: Settings, check: Checker, req: Request, channels: int, x: int) returns (i: int)
    requires x > req.rate && RateWorks(s, check, channels, x)
    ensures 0 <= i < |RATES| && RateAt(i) == x && HigherWorks(s, check, req, channels, i)
  {
    hide RateWorks;
    i := WorkingRateListed(s, check, channels, x);
  }

  lemma LowerIndex(s: Settings, check: Checker, req: Request, channels: int, x: int) returns (i: int)
    requires x < req.rate && RateWorks(s, check, channels, x)
    ensures 0 <= i < |RATES| && RateAt(i) == x && LowerWorks(s, check, req, channels, i)
  {
    hide RateWorks;
    i := WorkingRateListed(s, check, channels, x);
  }

  lemma HigherIs(s: Settings, check: Checker, req: Request, channels: int, i: int)
    ensures HigherWorks(s, check, req, channels, i)
       <==> 0 <= i < |RATES| && RateAt(i) > req.rate && RateWorks(s, check, channels, RateAt(i))
    ensures LowerWorks(s, check, req, channels, i)
       <==> 0 <= i < |RATES| && RateAt(i) < req.rate && RateWorks(s, check, channels, RateAt(i))
  {
  }

  /** The first entry is the least if the rates are in order. */
  lemma FirstIsLeast(s: Settings, check: Checker, req: Request, channels: int, i: nat, x: int)
    requires i < |RATES| && HigherWorks(s, check, req, channels, i)
    requires forall j :: j < i ==> !HigherWorks(s, check, req, channels, j)
    requires HigherInOrder(s, check, req, channels) && x > req.rate && RateWorks(s, check, channels, x)
    ensures RateAt(i) <= x
  {
    hide RateWorks, HigherWorks, RateAt;
    var j := HigherIndex(s, check, req, channels, x);
    if i < j {
      ListShape(i, j);
      if USUAL <= j && i < USUAL {
        var z :| 0 <= z < USUAL && HigherWorks(s, check, req, channels, z) && RateAt(z) < RateAt(j);
        if i < z {
          ListShape(i, z);
        }
      }
    }
  }

  /** And only then. */
  lemma LeastIsInOrder(s: Settings, check: Checker, req: Request, channels: int, i: nat)
    requires i < |RATES| && HigherWorks(s, check, req, channels, i)
    requires forall j :: j < i ==> !HigherWorks(s, check, req, channels, j)
    requires NextHighest(s, check, req, channels, RateAt(i))
    ensures HigherInOrder(s, check, req, channels)
  {
    hide RateWorks, HigherWorks, RateAt;
    forall y | USUAL <= y < |RATES| && HigherWorks(s, check, req, channels, y)
      ensures (exists z :: 0 <= z < USUAL && HigherWorks(s, check, req, channels, z) && RateAt(z) < RateAt(y))
        || (forall x :: HigherWorks(s, check, req, channels, x) ==> x == y)
    {
      HigherIs(s, check, req, channels, y);
      if i < USUAL {
        DifferentEntries(i, y);
      } else {
        forall x | HigherWorks(s, check, req, channels, x) ensures x == y {
          HigherIs(s, check, req, channels, x);
          if i < y {
            ListShape(i, y);
          }
          if i < x {
            ListShape(i, x);
          }
        }
      }
    }
  }

  lemma DifferentEntries(i: nat, j: nat)
    requires i < USUAL <= j < |RATES|
    ensures RateAt(i) != RateAt(j)
  {
  }

  /** With no workable multiple, the next higher rate is chosen exactly if the rates above are in order. */
  lemma NextHighestExact(s: Settings, check: Checker, req: Request, channels: int)
    requires req.rate >= 1 && IsRecognised(req.format)
    requires !AnyMultiple(s, check, req, channels) && AnyHigher(s, check, req, channels)
    ensures ChannelResult(s, check, req, channels).Some?
    ensures NextHighest(s, check, req, channels, ChannelResult(s, check, req, channels).value.rate)
       <==> HigherInOrder(s, check, req, channels)
  {
    hide ChannelResult, HigherWorks, RateWorks, RateAt, AnyMultiple, AnyLower, HigherInOrder;
    RateChosen(s, check, req, channels);
    var rate := ChannelResult(s, check, req, channels).value.rate;
    var i :| 0 <= i < |RATES| && HigherWorks(s, check, req, channels, i) && rate == RateAt(i)
      && forall j :: j < i ==> !HigherWorks(s, check, req, channels, j);
    HigherIs(s, check, req, channels, i);
    if HigherInOrder(s, check, req, channels) {
      forall x | x > req.rate && RateWorks(s, check, channels, x) ensures rate <= x {
        FirstIsLeast(s, check, req, channels, i, x);
      }
    }
    if NextHighest(s, check, req, channels, rate) {
      LeastIsInOrder(s, check, req, channels, i);
    }
  }

  lemma LastIsGreatest(s: Settings, check: Checker, req: Request, channels: int, i: nat, x: int)
    requires i < |RATES| && LowerWorks(s, check, req, channels, i)
    requires forall j :: i < j ==> !LowerWorks(s, check, req, channels, j)
    requires LowerInOrder(s, check, req, channels) && x < req.rate && RateWorks(s, check, channels, x)
    ensures x <= RateAt(i)
  {
    hide RateWorks, LowerWorks, RateAt;
    var j := LowerIndex(s, check, req, channels, x);
    if j < i {
      ListShape(j, i);
    }
  }

  lemma GreatestIsInOrder(s: Settings, check: Checker, req: Request, channels: int, i: nat)
    requires i < |RATES| && LowerWorks(s, check, req, channels, i)
    requires forall j :: i < j ==> !LowerWorks(s, check, req, channels, j)
    requires NextLowest(s, check, req, channels, RateAt(i))
    ensures LowerInOrder(s, check, req, channels)
  {
    hide RateWorks, LowerWorks, RateAt;
    forall x, y | 0 <= x < |RATES| && USUAL <= y < |RATES| && LowerWorks(s, check, req, channels, x)
      && LowerWorks(s, check, req, channels, y)
      ensures RateAt(x) <= RateAt(y)
    {
      HigherIs(s, check, req, channels, x);
      HigherIs(s, check, req, channels, y);
      if y < i {
        ListShape(y, i);
      }
    }
  }

  /** With no workable multiple and none above, the next lower rate is chosen exactly if the rates below are in
      order. */
  lemma NextLowestExact(s: Settings, check: Checker, req: Request, channels: int)
    requires req.rate >= 1 && IsRecognised(req.format)
    requires !AnyMultiple(s, check, req, channels) && !AnyHigher(s, check, req, channels)
    requires AnyLower(s, check, req, channels)
    ensures ChannelResult(s, check, req, channels).Some?
    ensures NextLowest(s, check, req, channels, ChannelResult(s, check, req, channels).value.rate)
       <==> LowerInOrder(s, check, req, channels)
  {
    hide ChannelResult, LowerWorks, RateWorks, RateAt, AnyMultiple, AnyHigher, LowerInOrder;
    RateChosen(s, check, req, channels);
    var rate := ChannelResult(s, check, req, channels).value.rate;
    var i :| 0 <= i < |RATES| && LowerWorks(s, check, req, channels, i) && rate == RateAt(i)
      && forall j :: i < j ==> !LowerWorks(s, check, req, channels, j);
    HigherIs(s, check, req, channels, i);
    if LowerInOrder(s, check, req, channels) {
      forall x | x < req.rate && RateWorks(s, check, channels, x) ensures x <= rate {
        LastIsGreatest(s, check, req, channels, i, x);
      }
    }
    if NextLowest(s, check, req, channels, rate) {
      GreatestIsInOrder(s, check, req, channels, i);
    }
  }

  // ----- where they are not in order -----

  /** Two channels at one of two rates, and a device that accepts everything. */
  function TwoRates(a: int, b: int): Settings {
    SearchCache.TwoChannelSettings({a, b})
  }

  function Anything(): Checker {
    SearchCache.CheckerOf(SearchCache.AcceptAll, 1)
  }

  lemma TwoRatesWork(a: int, b: int, rate: int)
    requires SPS_RATE_LOWEST <= a <= SPS_RATE_HIGHEST && SPS_RATE_LOWEST <= b <= SPS_RATE_HIGHEST
    ensures RateWorks(TwoRates(a, b), Anything(), 2, rate) <==> rate == ActualRate(a) || rate == ActualRate(b)
  {
    SearchCache.TwoChannelTry({a, b}, rate);
    TryFails(TwoRates(a, b), Anything(), Probe(2, rate, SPS_FORMAT_S32));
    hide RateWorks, Anything, ActualRate;
    assert RatePermissible(TwoRates(a, b), rate) <==> rate == ActualRate(a) || rate == ActualRate(b);
  }

  lemma NoDoubling(s: Settings, check: Checker, req: Request, m: nat)
    requires req.rate == 44100 && forall rate :: RateWorks(s, check, 2, rate) ==> rate == 64000 || rate == 96000
    ensures !MultipleWorks(s, check, req, 2, m)
  {
    hide RateWorks;
    if m == 0 {
      assert Pow2(m) == 1;
    } else if m == 1 {
      assert Pow2(m) == 2;
    } else {
      Pow2Monotone(2, m);
      assert Pow2(2) == 4;
    }
  }

  lemma EntryWorks(s: Settings, check: Checker, req: Request, i: nat)
    requires i < |RATES| && RateWorks(s, check, 2, RATES[i])
    ensures RATES[i] > req.rate ==> HigherWorks(s, check, req, 2, i)
    ensures RATES[i] < req.rate ==> LowerWorks(s, check, req, 2, i)
  {
    hide RateWorks;
  }

  /** Reading off the list what is chosen. */
  lemma HigherChosen(s: Settings, check: Checker, req: Request, channels: int, i: nat)
    requires req.rate >= 1 && IsRecognised(req.format) && i < |RATES|
    requires !AnyMultiple(s, check, req, channels) && HigherWorks(s, check, req, channels, i)
    requires forall j: nat :: j < i ==> !RateWorks(s, check, channels, RATES[j])
    ensures ChannelResult(s, check, req, channels).Some?
    ensures ChannelResult(s, check, req, channels).value.rate == RATES[i]
  {
    hide RateWorks, ChannelResult, AnyMultiple;
    RateChosen(s, check, req, channels);
  }

  lemma LowerChosen(s: Settings, check: Checker, req: Request, channels: int, i: nat)
    requires req.rate >= 1 && IsRecognised(req.format) && i < |RATES|
    requires !AnyMultiple(s, check, req, channels) && !AnyHigher(s, check, req, channels)
    requires LowerWorks(s, check, req, channels, i)
    requires forall j: nat :: i < j < |RATES| ==> !RateWorks(s, check, channels, RATES[j])
    ensures ChannelResult(s, check, req, channels).Some?
    ensures ChannelResult(s, check, req, channels).value.rate == RATES[i]
  {
    hide RateWorks, ChannelResult, AnyMultiple, AnyHigher;
    RateChosen(s, check, req, channels);
  }

  /** 64000 and 96000 would both do for 44100. The list has 96000 before 64000. */
  lemma NextHighestMissed()
    ensures
      var s, req := TwoRates(9, 11), Request(2, 44100, SPS_FORMAT_S32);
      && RateWorks(s, Anything(), 2, 64000)
      && ChannelResult(s, Anything(), req, 2).Some? && ChannelResult(s, Anything(), req, 2).value.rate == 96000
  {
    var s, check, req := TwoRates(9, 11), Anything(), Request(2, 44100, SPS_FORMAT_S32);
    assert ActualRate(9) == 64000 && ActualRate(11) == 96000 && RATES[3] == 96000;
    assert RATES[0] == 44100 && RATES[1] == 48000 && RATES[2] == 88200;
    hide *;
    forall rate ensures RateWorks(s, check, 2, rate) <==> rate == 64000 || rate == 96000 {
      TwoRatesWork(9, 11, rate);
    }
    NoMultiples(s, check, req);
    EntryWorks(s, check, req, 3);
    HigherChosen(s, check, req, 2, 3);
  }

  lemma NoMultiples(s: Settings, check: Checker, req: Request)
    requires req.rate == 44100 && forall rate :: RateWorks(s, check, 2, rate) ==> rate == 64000 || rate == 96000
    ensures !AnyMultiple(s, check, req, 2)
  {
    hide MultipleWorks, RateWorks;
    forall m: nat ensures !MultipleWorks(s, check, req, 2, m) {
      NoDoubling(s, check, req, m);
    }
  }

  lemma NoneAbove(s: Settings, check: Checker, req: Request)
    requires req.rate >= 1 && forall rate :: RateWorks(s, check, 2, rate) ==> rate < req.rate
    ensures !AnyMultiple(s, check, req, 2) && !AnyHigher(s, check, req, 2)
  {
    hide RateWorks;
    forall m: nat ensures !MultipleWorks(s, check, req, 2, m) {
      MultiplesGrow(req.rate, 0, m);
    }
  }

  /** 8000 and 44100 would both do for 48000. The list read backwards has 8000 before 44100. */
  lemma NextLowestMissed()
    ensures
      var s, req := TwoRates(2, 7), Request(2, 48000, SPS_FORMAT_S32);
      && RateWorks(s, Anything(), 2, 44100)
      && ChannelResult(s, Anything(), req, 2).Some? && ChannelResult(s, Anything(), req, 2).value.rate == 8000
  {
    var s, check, req := TwoRates(2, 7), Anything(), Request(2, 48000, SPS_FORMAT_S32);
    assert ActualRate(2) == 8000 && ActualRate(7) == 44100 && RATES[13] == 8000 && RATES[14] == 5512;
    hide *;
    forall rate ensures RateWorks(s, check, 2, rate) <==> rate == 8000 || rate == 44100 {
      TwoRatesWork(2, 7, rate);
    }
    NoneAbove(s, check, req);
    EntryWorks(s, check, req, 13);
    LowerChosen(s, check, req, 2, 13);
  }

  /** Several lower rates may work and the next lower one still be chosen: of 44100 and 48000 the list read backwards
      has 48000 first. */
  lemma NextLowestOfTwo()
    ensures
      var s, req := TwoRates(7, 8), Request(2, 88200, SPS_FORMAT_S32);
      && RateWorks(s, Anything(), 2, 44100)
      && ChannelResult(s, Anything(), req, 2).Some? && ChannelResult(s, Anything(), req, 2).value.rate == 48000
      && NextLowest(s, Anything(), req, 2, 48000)
  {
    var s, check, req := TwoRates(7, 8), Anything(), Request(2, 88200, SPS_FORMAT_S32);
    assert ActualRate(7) == 44100 && ActualRate(8) == 48000 && RATES[1] == 48000;
    forall rate ensures RateWorks(s, check, 2, rate) <==> rate == 44100 || rate == 48000 {
      TwoRatesWork(7, 8, rate);
    }
    hide RateWorks, ChannelResult, TwoRates, Anything, ActualRate, AnyMultiple, AnyHigher, LowerWorks;
    NoneAbove(s, check, req);
    EntryWorks(s, check, req, 1);
    LowerChosen(s, check, req, 2, 1);
  }
}

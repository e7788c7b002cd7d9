/** The configuration search with its loops and its one-entry memory, and when that memory is invisible. */
module SearchCache {
  import opened Wrappers
  import opened Formats
  import opened Search
  import opened SearchTheorems

  // ----- the memory as a value -----

  /** The last request answered, by which checker, and its reply. Checker 0 is the missing one. */
  datatype Memory = Memory(checker: nat, request: nat, response: nat)

  const EMPTY_MEMORY := Memory(0, 0, 0)

  /** All the checkers there are, by identity: one backend's answers never change. */
  type Backends = (nat, int, int, int) -> bool

  function CheckerOf(backends: Backends, id: nat): Checker {
    if id == 0 then (channels, rate, format) => true
    else (channels, rate, format) => backends(id, channels, rate, format)
  }

  function KeyOf(req: Request): nat {
    Encode(req.channels, req.rate, req.format)
  }

  function CachedReply(s: Settings, backends: Backends, m: Memory, id: nat, req: Request): nat
    requires req.rate >= 1
  {
    if m.checker == id && m.request == KeyOf(req) && m.response != 0 then m.response
    else Reply(s, CheckerOf(backends, id), req)
  }

  function NextMemory(s: Settings, backends: Backends, m: Memory, id: nat, req: Request): Memory
    requires req.rate >= 1
  {
    if m.checker == id && m.request == KeyOf(req) && m.response != 0 then m
    else
      match SearchResult(s, CheckerOf(backends, id), req)
      case None => m
      case Some(_) => Memory(id, KeyOf(req), Reply(s, CheckerOf(backends, id), req))
  }

  // ----- runs of requests -----

  datatype Call = Call(checker: nat, request: Request)

  /** Requests whose key determines them. */
  predicate Distinguishable(req: Request) {
    req.rate >= 1 && Encodable(req.channels, req.rate, req.format)
  }

  function MemoryAfter(s: Settings, backends: Backends, calls: seq<Call>): Memory
    requires forall k :: 0 <= k < |calls| ==> calls[k].request.rate >= 1
  {
    if calls == [] then EMPTY_MEMORY
    else
      var n := |calls| - 1;
      NextMemory(s, backends, MemoryAfter(s, backends, calls[..n]), calls[n].checker, calls[n].request)
  }

  /** No two different requests of one checker have the same key. */
  predicate KeysDetermine(calls: seq<Call>) {
    forall i, j | 0 <= i < |calls| && 0 <= j < |calls| && calls[i].checker == calls[j].checker ::
      KeyOf(calls[i].request) == KeyOf(calls[j].request) ==> calls[i].request == calls[j].request
  }

  /** What is remembered is the true reply to one of the requests made. */
  ghost predicate Faithful(s: Settings, backends: Backends, calls: seq<Call>, m: Memory)
    requires forall k :: 0 <= k < |calls| ==> calls[k].request.rate >= 1
  {
    m.response != 0 ==>
      exists k :: 0 <= k < |calls| && calls[k].checker == m.checker && KeyOf(calls[k].request) == m.request
        && Reply(s, CheckerOf(backends, m.checker), calls[k].request) == m.response
  }

  /** The last of the calls gets the true reply, and leaves a memory that is still true. */
  lemma FaithfulReply(s: Settings, backends: Backends, m: Memory, calls: seq<Call>)
    requires calls != [] && KeysDetermine(calls) && forall k :: 0 <= k < |calls| ==> calls[k].request.rate >= 1
    requires Faithful(s, backends, calls[..|calls| - 1], m)
    ensures
      var (id, req) := (calls[|calls| - 1].checker, calls[|calls| - 1].request);
      && CachedReply(s, backends, m, id, req) == Reply(s, CheckerOf(backends, id), req)
      && Faithful(s, backends, calls, NextMemory(s, backends, m, id, req))
  {
    hide Reply, Encode, SearchResult;
    var n := |calls| - 1;
    var id, req, next := calls[n].checker, calls[n].request,
      NextMemory(s, backends, m, calls[n].checker, calls[n].request);
    if m.response != 0 {
      var k :| 0 <= k < n && calls[..n][k].checker == m.checker && KeyOf(calls[..n][k].request) == m.request
        && Reply(s, CheckerOf(backends, m.checker), calls[..n][k].request) == m.response;
      assert calls[k] == calls[..n][k];
    }
    if next != m {
      assert next == Memory(id, KeyOf(req), Reply(s, CheckerOf(backends, id), req));
      assert calls[n].checker == next.checker && KeyOf(calls[n].request) == next.request;
    }
  }

  lemma {:induction false} MemoryFaithful(s: Settings, backends: Backends, calls: seq<Call>)
    requires KeysDetermine(calls) && forall k :: 0 <= k < |calls| ==> calls[k].request.rate >= 1
    ensures Faithful(s, backends, calls, MemoryAfter(s, backends, calls))
  {
    hide NextMemory, Reply, KeyOf;
    if calls != [] {
      var n := |calls| - 1;
      MemoryFaithful(s, backends, calls[..n]);
      FaithfulReply(s, backends, MemoryAfter(s, backends, calls[..n]), calls);
    }
  }

  /** The memory is invisible: in any run of requests of which no two different ones by the same checker share a key,
      every reply is the one an uncached search would give. */
  lemma CacheTransparent(s: Settings, backends: Backends, calls: seq<Call>, id: nat, req: Request)
    requires req.rate >= 1 && forall k :: 0 <= k < |calls| ==> calls[k].request.rate >= 1
    requires KeysDetermine(calls + [Call(id, req)])
    ensures CachedReply(s, backends, MemoryAfter(s, backends, calls), id, req)
         == Reply(s, CheckerOf(backends, id), req)
  {
    hide CachedReply, Reply, MemoryAfter, Faithful, KeyOf;
    var all := calls + [Call(id, req)];
    assert all[..|calls|] == calls;
    assert forall i :: 0 <= i < |calls| ==> all[i] == calls[i];
    MemoryFaithful(s, backends, calls);
    FaithfulReply(s, backends, MemoryAfter(s, backends, calls), all);
  }

  /** So it is for even rates below 2^20 and fewer than 128 channels, whoever asks. */
  lemma EvenRatesTransparent(s: Settings, backends: Backends, calls: seq<Call>, id: nat, req: Request)
    requires forall k :: 0 <= k < |calls| ==> calls[k].request.rate >= 1 && Distinguishable(calls[k].request)
    requires Distinguishable(req)
    ensures CachedReply(s, backends, MemoryAfter(s, backends, calls), id, req)
         == Reply(s, CheckerOf(backends, id), req)
  {
    hide CachedReply, Reply, MemoryAfter, Encodable, Encode;
    var all := calls + [Call(id, req)];
    assert forall k :: 0 <= k < |all| ==> Distinguishable(all[k].request);
    forall i, j | 0 <= i < |all| && 0 <= j < |all| && KeyOf(all[i].request) == KeyOf(all[j].request)
      ensures all[i].request == all[j].request
    {
      var a, b := all[i].request, all[j].request;
      EncodeInjective(a.channels, a.rate, a.format, b.channels, b.rate, b.format);
    }
    CacheTransparent(s, backends, calls, id, req);
  }

  // ----- where it is visible, and where the order is not what the comments say -----

  /** Settings that allow two channels, S32_LE, and some rates. */
  function TwoChannelSettings(rates: set<int>): Settings {
    Settings({2}, rates, {SPS_FORMAT_S32_LE}, true, false, false, false)
  }

  function AcceptAll(id: nat, channels: int, rate: int, format: int): bool {
    true
  }

  /** With these settings an attempt succeeds exactly at a permissible rate. */
  lemma TwoChannelTry(rates: set<int>, rate: int)
    ensures Try(TwoChannelSettings(rates), CheckerOf(AcceptAll, 1), Probe(2, rate, SPS_FORMAT_S32))
         == if RatePermissible(TwoChannelSettings(rates), rate) then SPS_FORMAT_S32_LE else SPS_FORMAT_UNKNOWN
  {
    hide RatePermissible;
    var order := FormatOrder(SPS_FORMAT_S32, true);
    assert order[0] == InitialFormats(SPS_FORMAT_S32, true)[0] == SPS_FORMAT_S32_LE;
    var s, check := TwoChannelSettings(rates), CheckerOf(AcceptAll, 1);
    assert check(2, rate, SPS_FORMAT_S32_LE);
    assert FirstFormat(s, check, 2, rate, order) == SPS_FORMAT_S32_LE;
  }

  predicate AllBelow(rates: set<int>, rate: int) {
    forall r :: SPS_RATE_LOWEST <= r <= SPS_RATE_HIGHEST && r in rates ==> ActualRate(r) < rate
  }

  lemma {:induction false} NoneAbove(rates: set<int>, req: Request, probes: seq<Probe>)
    requires AllBelow(rates, req.rate)
    requires forall p :: p in probes ==> p == Probe(2, p.rate, SPS_FORMAT_S32) && p.rate >= req.rate
    ensures FirstProbe(TwoChannelSettings(rates), CheckerOf(AcceptAll, 1), probes).None?
  {
    hide Try;
    if probes != [] {
      assert probes[0] in probes;
      TwoChannelTry(rates, probes[0].rate);
      NoneAbove(rates, req, probes[1..]);
    }
  }

  lemma {:induction false} MultiplesAbove(s: Settings, req: Request, rate: int)
    requires rate >= 1 && rate >= req.rate && req.format == SPS_FORMAT_S32
    ensures forall p :: p in Multiples(s, req, 2, rate) ==> p == Probe(2, p.rate, SPS_FORMAT_S32) && p.rate >= req.rate
    decreases GREATEST_RATE - rate
  {
    if rate <= GREATEST_RATE {
      MultiplesAbove(s, req, 2 * rate);
    }
  }

  lemma {:induction false} HigherAbove(req: Request, i: nat)
    requires i <= |RATES| && req.format == SPS_FORMAT_S32
    ensures forall p :: p in Higher(req, 2, i) ==> p == Probe(2, p.rate, SPS_FORMAT_S32) && p.rate >= req.rate
    decreases |RATES| - i
  {
    if i < |RATES| {
      HigherAbove(req, i + 1);
    }
  }

  lemma LowerStartsAtLowest(req: Request)
    requires req.rate > 5512
    ensures Lower(req, 2, |RATES|) == [Probe(2, 5512, req.format)] + Lower(req, 2, 14)
  {
  }

  /** The comments promise the next lowest rate below the one requested. The list is scanned from its far end, so the
      lowest rate of all is preferred, however many permissible ones lie between. */
  lemma LowestRatePreferred(rates: set<int>, req: Request)
    requires req.channels == 2 && req.format == SPS_FORMAT_S32 && req.rate > 5512
    requires SPS_RATE_LOWEST in rates && AllBelow(rates, req.rate)
    ensures SearchResult(TwoChannelSettings(rates), CheckerOf(AcceptAll, 1), req)
         == Some(Found(2, 5512, SPS_FORMAT_S32_LE))
  {
    hide Try, Multiples, Higher, Lower, RatePermissible, AllBelow;
    var s, check := TwoChannelSettings(rates), CheckerOf(AcceptAll, 1);
    var m, h, l := Multiples(s, req, 2, req.rate), Higher(req, 2, 0), Lower(req, 2, |RATES|);
    MultiplesAbove(s, req, req.rate);
    HigherAbove(req, 0);
    NoneAbove(rates, req, m + h);
    FirstProbeConcat(s, check, m + h, l);
    LowerStartsAtLowest(req);
    TwoChannelTry(rates, 5512);
    LowestPermissible(rates);
    assert l[0] == Probe(2, 5512, SPS_FORMAT_S32);
    VisitStep(2, {});
  }

  lemma LowestPermissible(rates: set<int>)
    requires SPS_RATE_LOWEST in rates
    ensures RatePermissible(TwoChannelSettings(rates), 5512)
  {
    assert ActualRate(SPS_RATE_LOWEST) == 5512;
  }

  /** An exact rate is found at once. */
  lemma ExactRateFound(rates: set<int>, req: Request)
    requires req.channels == 2 && req.format == SPS_FORMAT_S32 && 1 <= req.rate <= GREATEST_RATE
    requires RatePermissible(TwoChannelSettings(rates), req.rate)
    ensures SearchResult(TwoChannelSettings(rates), CheckerOf(AcceptAll, 1), req)
         == Some(Found(2, req.rate, SPS_FORMAT_S32_LE))
  {
    hide Try, Higher, Lower, RatePermissible;
    var s := TwoChannelSettings(rates);
    TwoChannelTry(rates, req.rate);
    assert ChannelProbes(s, req, 2)[0] == Probe(2, req.rate, SPS_FORMAT_S32);
    VisitStep(2, {});
  }

  /** Even rates are needed: the key drops the lowest bit, so a request for 22050 is answered with what was found for
      22051, although the search itself would find 22050. */
  lemma OddRatesCollide()
    ensures var rates, odd, even := {1, 5}, Request(2, 22051, SPS_FORMAT_S32), Request(2, 22050, SPS_FORMAT_S32);
      var s := TwoChannelSettings(rates);
      var m := NextMemory(s, AcceptAll, EMPTY_MEMORY, 1, odd);
      && RateOf(CachedReply(s, AcceptAll, m, 1, even)) == 5512
      && RateOf(Reply(s, CheckerOf(AcceptAll, 1), even)) == 22050
  {
    hide RatePermissible, Reply, Encode, RateOf, SearchResult;
    var rates, odd, even := {1, 5}, Request(2, 22051, SPS_FORMAT_S32), Request(2, 22050, SPS_FORMAT_S32);
    assert ActualRate(1) == 5512 && ActualRate(5) == 22050;
    assert AllBelow(rates, 22051);
    LowestRatePreferred(rates, odd);
    Permissible(rates, 5);
    ExactRateFound(rates, even);
    FoundReply(TwoChannelSettings(rates), CheckerOf(AcceptAll, 1), odd, 5512);
    FoundReply(TwoChannelSettings(rates), CheckerOf(AcceptAll, 1), even, 22050);
    SameKey();
  }

  /** A reply found for one request is the reply to every request with the same key, whatever a search would find. */
  lemma SharedEntry(s: Settings, backends: Backends, m: Memory, id: nat, first: Request, second: Request)
    requires first.rate >= 1 && second.rate >= 1 && KeyOf(first) == KeyOf(second)
    requires CachedReply(s, backends, m, id, first) != 0
    ensures CachedReply(s, backends, NextMemory(s, backends, m, id, first), id, second)
         == CachedReply(s, backends, m, id, first)
  {
    hide SearchResult, Encode;
  }

  lemma SameKey()
    ensures Encode(2, 22051, SPS_FORMAT_S32) == Encode(2, 22050, SPS_FORMAT_S32)
  {
    hide Encode;
    EncodeCollides(2, 22051, SPS_FORMAT_S32, 2, 22050, SPS_FORMAT_S32);
  }

  lemma FoundReply(s: Settings, check: Checker, req: Request, rate: nat)
    requires req.rate >= 1 && SearchResult(s, check, req) == Some(Found(2, rate, SPS_FORMAT_S32_LE))
    requires rate < 0x10_0000 && rate % 2 == 0
    ensures Reply(s, check, req) != 0 && RateOf(Reply(s, check, req)) == rate
  {
    hide SearchResult, Encode;
    DecodeEncode(2, rate, SPS_FORMAT_S32_LE);
  }

  lemma Permissible(rates: set<int>, r: int)
    requires r in rates && SPS_RATE_LOWEST <= r <= SPS_RATE_HIGHEST
    ensures RatePermissible(TwoChannelSettings(rates), ActualRate(r))
  {
  }
}

/** Immediate flush requests over whole runs: where each one ends, said by counting blocks. */
module ImmediateFlush {
  import opened BufferedAudio
  import opened FlushTheorems
  import opened DeferredFlush

  /** Some block has been read, and none of those up to number u is still to come. */
  predicate Reached(c: nat, u: int) {
    c >= 1 && c >= u
  }

  /** Action k0 asks for an immediate flush until block u, at most half a range away, and nothing up to action k asks
      for another one. */
  ghost predicate Asked(run: seq<State>, actions: seq<Action>, k0: nat, k: nat, base: int, u: int) {
    && IsRun(run, actions) && k0 < k < |run|
    && actions[k0].Immediate? && actions[k0].untilSeq % SEQ_RANGE == SeqOf(base, u)
    && run[k0].local.blocksRead + 1 - HALF_RANGE < u <= run[k0].local.blocksRead + HALF_RANGE
    && forall j :: k0 < j < k ==> !actions[j].Immediate?
  }

  /** And no turn up to action k reaches block u. */
  ghost predicate Pending(run: seq<State>, actions: seq<Action>, k0: nat, k: nat, base: int, u: int) {
    && Asked(run, actions, k0, k, base, u)
    && forall j :: k0 < j < k && actions[j].Play? ==> !Reached(run[j + 1].local.blocksRead, u)
  }

  lemma SeqAhead(base: int, u: int, d: nat)
    requires d < HALF_RANGE
    ensures AMinusBMod23(SeqOf(base, u + d), SeqOf(base, u)) == d
  {
    DivModIdentity23(base + u);
    DivModIdentity23(base + u + d);
  }

  lemma DivModIdentity23(x: int)
    ensures x == x / SEQ_RANGE * SEQ_RANGE + x % SEQ_RANGE
  {
  }

  /** The comparison of 23-bit numbers is the comparison of counts. */
  lemma EndsWhenReached(l: Local, s: Shared, base: int, u: int)
    requires s.immediateRequested && s.immediateUntil == SeqOf(base, u)
    requires l.blocksRead >= 1 ==> l.seqNo == SeqOf(base, l.blocksRead)
    requires l.blocksRead - HALF_RANGE < u <= l.blocksRead + HALF_RANGE
    ensures ImmediateFlushEnds(l, s) <==> Reached(l.blocksRead, u)
    ensures ImmediateFlushHolds(l, s) <==> l.blocksRead >= 1 && !Reached(l.blocksRead, u)
  {
    hide AMinusBMod23, SeqOf;
    if l.blocksRead >= u {
      SeqAhead(base, u, l.blocksRead - u);
    } else {
      SeqDistance(base, l.blocksRead, u - l.blocksRead);
    }
  }

  /** A turn that does not reach the end leaves the request pending. */
  lemma TurnKeepsPending(st: State, i: Input, base: int, u: int)
    requires st.shared.immediateRequested && st.shared.immediateUntil == SeqOf(base, u)
    requires Consecutive(Turn(st, i), base)
    requires Turn(st, i).local.blocksRead - HALF_RANGE < u <= Turn(st, i).local.blocksRead + HALF_RANGE
    requires !Reached(Turn(st, i).local.blocksRead, u)
    ensures Turn(st, i).shared.immediateRequested && Turn(st, i).shared.immediateUntil == SeqOf(base, u)
  {
    hide SeqOf, HandsOver, ImmediateFlushEnds, ImmediateFlushHolds;
    var l := ReadBlock(PlayEdges(st.local, i), i);
    if !st.local.finished && !l.finished {
      SectionFrame(State(l, st.shared));
      HandOverKeeps(BeforeHandOver(st, i).local, i);
      EndsWhenReached(l, st.shared, base, u);
    }
  }

  /** Up to the turn that reaches block u the request stays recorded. */
  lemma {:induction false} StaysPending(run: seq<State>, actions: seq<Action>, k0: nat, k: nat, base: int, u: int)
    requires Pending(run, actions, k0, k, base, u)
    requires forall j :: 0 <= j < |run| ==> Consecutive(run[j], base)
    ensures run[k].shared.immediateRequested && run[k].shared.immediateUntil == SeqOf(base, u)
    ensures run[k].local.blocksRead == run[k0].local.blocksRead || run[k].local.blocksRead < u
    ensures run[k0].local.blocksRead <= run[k].local.blocksRead
    decreases k
  {
    hide Turn, Install, SeqOf, Consecutive;
    assert run[k] == Next(run[k - 1], actions[k - 1]);
    CountsGrow(run, actions, k0, k);
    if k > k0 + 1 {
      StaysPending(run, actions, k0, k - 1, base, u);
      match actions[k - 1] {
        case Play(i) => TurnKeepsPending(run[k - 1], i, base, u);
        case Defer(a, b) => InstallKeepsImmediate(run[k - 1].shared, a, b);
      }
    }
  }

  lemma InstallKeepsImmediate(s: Shared, fromSeq: int, untilSeq: int)
    ensures Install(s, fromSeq, untilSeq) == s.(requests := Install(s, fromSeq, untilSeq).requests)
  {
  }

  /** The flush section while a request is pending. */
  lemma SectionExact(st: State, base: int, u: int)
    requires st.shared.immediateRequested && st.shared.immediateUntil == SeqOf(base, u)
    requires st.local.blocksRead >= 1 ==> st.local.seqNo == SeqOf(base, st.local.blocksRead)
    requires st.local.blocksRead - HALF_RANGE < u <= st.local.blocksRead + HALF_RANGE && !st.local.blockNeeded
    ensures
      var m, rs := FlushSection(st), st.shared.requests;
      if Reached(st.local.blocksRead, u) then
        && !m.shared.immediateRequested && !m.local.flushing && !m.local.blockNeeded && |m.shared.requests| == |rs|
        && forall f :: 0 <= f < |rs| ==> m.shared.requests[f] == rs[f].(inUse := false, active := false)
      else
        && m.shared == st.shared.(requests := RequestsTurn(rs, st.local.seqNo))
        && (st.local.blocksRead >= 1 ==> m.local.blockNeeded && m.local.flushing)
  {
    hide SeqOf, ImmediateFlushEnds, ImmediateFlushHolds, Ends, Starts;
    EndsWhenReached(st.local, st.shared, base, u);
    if Reached(st.local.blocksRead, u) {
      var rs := CancelAll(st.shared.requests);
      assert forall f :: 0 <= f < |rs| ==> !RequestDrops(rs[f], st.local.seqNo);
    }
  }

  /** Every turn from the request on. Up to block u the block that was read is dropped and nothing is sent, the request
      stays, and each deferred request is as its own rule makes it. The turn that reads block u, or finds it read
      already, ends the flush, cancels every deferred request, and keeps the block. */
  lemma ImmediateFlushExact(run: seq<State>, actions: seq<Action>, k0: nat, k: nat, base: int, u: int)
    requires Pending(run, actions, k0, k, base, u) && k < |actions| && actions[k].Play?
    requires forall j :: 0 <= j < |run| ==> Consecutive(run[j], base)
    requires !run[k + 1].local.finished
    ensures |run[k + 1].shared.requests| == |run[k].shared.requests|
    ensures
      var i, before, after := actions[k].input, run[k].shared, run[k + 1].shared;
      var l, c := ReadBlock(PlayEdges(run[k].local, i), i), run[k + 1].local.blocksRead;
      c == l.blocksRead
      && if Reached(c, u) then
        && !after.immediateRequested && !BeforeHandOver(run[k], i).local.blockNeeded
        && forall f :: 0 <= f < |after.requests| ==> !after.requests[f].inUse && !after.requests[f].active
      else
        && after.immediateRequested && after.immediateUntil == before.immediateUntil
        && Sent(run[k], i).None? && (c >= 1 ==> run[k + 1].local.blockNeeded)
        && forall f :: 0 <= f < |after.requests| ==> after.requests[f] == RequestTurn(before.requests[f], l.seqNo)
  {
    hide SeqOf, HandsOver, FlushSection, Reached, Inv, Consecutive, Install;
    var i := actions[k].input;
    assert run[k + 1] == Next(run[k], actions[k]) == Turn(run[k], i);
    StaysPending(run, actions, k0, k, base, u);
    RunInv(run, actions, k);
    ReadForSection(run[k], i, base);
    var l := ReadBlock(PlayEdges(run[k].local, i), i);
    SectionExact(State(l, run[k].shared), base, u);
    HandOverKeeps(BeforeHandOver(run[k], i).local, i);
    if Sent(run[k], i).Some? {
      SentMeansRead(run[k], i);
    }
    ReachedFrom(l.blocksRead, u);
  }

  lemma ReachedFrom(c: nat, u: int)
    ensures Reached(c, u) ==> c >= 1
  {
  }

  /** What a turn that does not finish gives to its flush section. */
  lemma ReadForSection(st: State, i: Input, base: int)
    requires !Turn(st, i).local.finished && Consecutive(Turn(st, i), base)
    ensures
      var l := ReadBlock(PlayEdges(st.local, i), i);
      && !st.local.finished && !l.finished && !l.blockNeeded
      && st.local.blocksRead <= l.blocksRead <= st.local.blocksRead + 1
      && Turn(st, i).local.blocksRead == l.blocksRead
      && (l.blocksRead >= 1 ==> l.seqNo == SeqOf(base, l.blocksRead))
  {
    hide FlushSection, SeqOf, HandsOver;
    var l := ReadBlock(PlayEdges(st.local, i), i);
    ReadCounts(st.local, i);
    if !st.local.finished && !l.finished {
      SectionFrame(State(l, st.shared));
      HandOverKeeps(BeforeHandOver(st, i).local, i);
    }
  }

  /** No block before block u reaches the player. */
  lemma NothingBeforeUntil(run: seq<State>, actions: seq<Action>, k0: nat, k: nat, base: int, u: int)
    requires Asked(run, actions, k0, k, base, u) && k < |actions| && actions[k].Play?
    requires forall j :: 0 <= j < |run| ==> Consecutive(run[j], base)
    requires Sent(run[k], actions[k].input).Some?
    ensures run[k + 1].local.blocksRead >= u
  {
    hide SeqOf, HandsOver, FlushSection, Inv, Consecutive, Install, ReadBlock;
    if Pending(run, actions, k0, k, base, u) {
      HandOverKeeps(BeforeHandOver(run[k], actions[k].input).local, actions[k].input);
      assert run[k + 1] == Next(run[k], actions[k]);
      ImmediateFlushExact(run, actions, k0, k, base, u);
    } else {
      var j :| k0 < j < k && actions[j].Play? && Reached(run[j + 1].local.blocksRead, u);
      CountsGrow(run, actions, j + 1, k + 1);
    }
  }

  // ----- deferred requests that no immediate flush cancels -----

  lemma {:induction false} FinishedForGood(run: seq<State>, actions: seq<Action>, j: nat, k: nat)
    requires IsRun(run, actions) && j <= k < |run| && run[j].local.finished
    ensures run[k].local.finished
    decreases k
  {
    hide Install;
    if j < k {
      FinishedForGood(run, actions, j, k - 1);
      assert run[k] == Next(run[k - 1], actions[k - 1]);
    }
  }

  /** A pending flush cancels nothing. */
  lemma PendingKeepsDeferred(run: seq<State>, actions: seq<Action>, k0: nat, k: nat, base: int, u: int)
    requires Pending(run, actions, k0, k, base, u) && !run[k].local.finished
    requires forall j :: 0 <= j < |run| ==> Consecutive(run[j], base)
    ensures NotCancelled(run, actions, k0 + 1, k)
  {
    hide SeqOf, Turn, ImmediateFlushEnds, Consecutive, Install, ReadBlock, Reached;
    forall j | k0 < j < k && actions[j].Play?
      ensures !ImmediateFlushEnds(ReadBlock(PlayEdges(run[j].local, actions[j].input), actions[j].input), run[j].shared)
    {
      var i := actions[j].input;
      if run[j + 1].local.finished {
        FinishedForGood(run, actions, j + 1, k);
      }
      assert run[j + 1] == Next(run[j], actions[j]) == Turn(run[j], i);
      assert Pending(run, actions, k0, j, base, u);
      StaysPending(run, actions, k0, j, base, u);
      ReadForSection(run[j], i, base);
      EndsWhenReached(ReadBlock(PlayEdges(run[j].local, i), i), run[j].shared, base, u);
    }
  }

  lemma {:induction false} NeverAsked(run: seq<State>, actions: seq<Action>, k: nat)
    requires IsRun(run, actions) && k < |run| && forall j :: 0 <= j < k ==> !actions[j].Immediate?
    ensures !run[k].shared.immediateRequested
  {
    hide SomeDrops, RequestsTurn, HandOver, ReadBlock, FirstFree;
    if k > 0 {
      NeverAsked(run, actions, k - 1);
      assert run[k] == Next(run[k - 1], actions[k - 1]);
    }
  }

  /** Where nothing ever asked for an immediate flush, none ends. */
  lemma NotCancelledUnasked(run: seq<State>, actions: seq<Action>, start: nat, k: nat)
    requires IsRun(run, actions) && start <= k < |run| && forall j :: 0 <= j < k ==> !actions[j].Immediate?
    ensures NotCancelled(run, actions, start, k)
  {
    hide Next, AMinusBMod23, ReadBlock;
    forall j | start <= j < k && actions[j].Play?
      ensures !run[j].shared.immediateRequested
    {
      NeverAsked(run, actions, j);
    }
  }
}

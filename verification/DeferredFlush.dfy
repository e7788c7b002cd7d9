/** Deferred flush requests over whole runs: each drops exactly its own blocks, wherever the 23-bit numbers wrap. */
module DeferredFlush {
  import opened Words
  import opened BufferedAudio
  import opened FlushTheorems

  /** The 23-bit number of the c-th block read, when numbers are consecutive. */
  function SeqOf(base: int, c: int): int {
    (base + c) % SEQ_RANGE
  }

  ghost predicate Consecutive(st: State, base: int) {
    st.local.blocksRead >= 1 ==> st.local.seqNo == SeqOf(base, st.local.blocksRead)
  }

  /** Before the first block the processor compares requests with block number 0. */
  predicate Unread(l: Local) {
    l.blocksRead == 0 ==> l.seqNo == 0
  }

  /** A request for the blocks fromCount up to, not including, untilCount, as it should stand in its record. It is
      active from its first block on, and if exact not before. */
  ghost predicate Watching(st: State, base: int, f: nat, fromCount: int, untilCount: int, exact: bool) {
    var c := st.local.blocksRead;
    c < untilCount ==>
      && f < |st.shared.requests|
      && var r := st.shared.requests[f];
         && r.inUse && r.fromSeq == SeqOf(base, fromCount) && r.untilSeq == SeqOf(base, untilCount)
         && (fromCount <= c ==> r.active)
         && (exact && r.active ==> fromCount <= c)
         && (fromCount <= c && !st.local.finished ==> st.local.blockNeeded)
  }

  /** What the record needs if the flush section looks at it before any block has been read: block number 0 must not
      look like its end, and if it is to be exact not like its start. */
  predicate AnchoredAt(fromSeq: int, untilSeq: int, exact: bool) {
    (exact ==> fromSeq != 0) && AMinusBMod23(0, untilSeq) < 0
  }

  /** A turn whose flush section runs before any block has been read. */
  predicate IdleUnread(st: State, i: Input) {
    var l := ReadBlock(PlayEdges(st.local, i), i);
    !st.local.finished && !l.finished && l.blocksRead == 0
  }

  lemma SeqDistance(base: int, c: int, d: int)
    requires 0 <= d <= HALF_RANGE
    ensures AMinusBMod23(SeqOf(base, c), SeqOf(base, c + d)) == if d == HALF_RANGE then -HALF_RANGE else -d
    ensures d > 0 ==> SeqOf(base, c) != SeqOf(base, c + d)
  {
    DivModIdentity(base + c, SEQ_RANGE);
    DivModIdentity(base + c + d, SEQ_RANGE);
  }

  lemma NoDistance(a: int)
    ensures AMinusBMod23(a, a) == 0
  {
  }

  /** The number the flush section compares with, and where it stands relative to the request. */
  lemma RequestExact(r: Request, l: Local, base: int, fromCount: int, untilCount: int, exact: bool)
    requires r.inUse && r.fromSeq == SeqOf(base, fromCount) && r.untilSeq == SeqOf(base, untilCount)
    requires fromCount <= untilCount && l.blocksRead <= untilCount <= l.blocksRead + HALF_RANGE
    requires Unread(l) && (l.blocksRead == 0 ==> fromCount > 0 && AnchoredAt(r.fromSeq, r.untilSeq, exact))
    requires l.blocksRead >= 1 ==> l.seqNo == SeqOf(base, l.blocksRead)
    requires exact && r.active ==> fromCount <= l.blocksRead
    requires !r.active ==> l.blocksRead <= fromCount
    ensures var c := l.blocksRead;
      && (fromCount <= c < untilCount ==> RequestDrops(r, l.seqNo))
      && (exact && RequestDrops(r, l.seqNo) ==> fromCount <= c < untilCount)
      && (c == untilCount ==>
            && !RequestDrops(r, l.seqNo)
            && !RequestTurn(r, l.seqNo).inUse && !RequestTurn(r, l.seqNo).active)
      && (c < untilCount ==>
            && RequestTurn(r, l.seqNo) == r.(active := RequestTurn(r, l.seqNo).active)
            && (fromCount <= c ==> RequestTurn(r, l.seqNo).active)
            && (exact && RequestTurn(r, l.seqNo).active ==> fromCount <= c))
  {
    hide AMinusBMod23, SeqOf;
    var c := l.blocksRead;
    NoDistance(l.seqNo);
    if c >= 1 {
      SeqDistance(base, c, untilCount - c);
      if c <= fromCount {
        SeqDistance(base, c, fromCount - c);
      }
    }
  }

  /** One turn: the request drops the block exactly if it lies in its range, is retired exactly when its end is read,
      and no block in its range is sent. */
  lemma TurnKeepsWatch(st: State, i: Input, base: int, f: nat, fromCount: int, untilCount: int, exact: bool)
    requires Inv(st) && Unread(st.local) && Watching(st, base, f, fromCount, untilCount, exact)
    requires 0 < fromCount <= untilCount <= st.local.blocksRead + HALF_RANGE
    requires IdleUnread(st, i) ==> AnchoredAt(SeqOf(base, fromCount), SeqOf(base, untilCount), exact)
    requires Consecutive(Turn(st, i), base) && st.local.blocksRead < untilCount && !st.local.finished
    requires var l := ReadBlock(PlayEdges(st.local, i), i); !ImmediateFlushEnds(l, st.shared)
    ensures Watching(Turn(st, i), base, f, fromCount, untilCount, exact) && Unread(Turn(st, i).local)
    ensures var l := ReadBlock(PlayEdges(st.local, i), i);
      !l.finished ==>
        && (fromCount <= l.blocksRead < untilCount ==> RequestDrops(st.shared.requests[f], l.seqNo))
        && (exact && RequestDrops(st.shared.requests[f], l.seqNo) ==> fromCount <= l.blocksRead < untilCount)
        && (l.blocksRead == untilCount ==>
              !RequestDrops(st.shared.requests[f], l.seqNo) && !Turn(st, i).shared.requests[f].inUse)
        && (Sent(st, i).Some? ==> l.blocksRead < fromCount || untilCount <= l.blocksRead)
  {
    hide RequestDrops, RequestTurn, SeqOf, HandsOver, ImmediateFlushEnds, AMinusBMod23;
    var l := ReadBlock(PlayEdges(st.local, i), i);
    var r := st.shared.requests[f];
    ReadCounts(st.local, i);
    if !l.finished {
      var m := BeforeHandOver(st, i);
      SectionOfRequest(State(l, st.shared), f);
      SectionFrame(State(l, st.shared));
      HandOverKeeps(m.local, i);
      RequestExact(r, l, base, fromCount, untilCount, exact);
    }
  }

  lemma ReadCounts(l: Local, i: Input)
    ensures var l' := ReadBlock(PlayEdges(l, i), i);
      && l.blocksRead <= l'.blocksRead <= l.blocksRead + 1
      && (l'.finished ==> l'.blocksRead == l.blocksRead || l.finished)
      && (l'.blocksRead == l.blocksRead ==> l'.seqNo == l.seqNo)
      && (Unread(l) ==> Unread(l'))
  {
  }

  lemma HandOverKeeps(l: Local, i: Input)
    ensures HandOver(l, i).blocksRead == l.blocksRead && HandOver(l, i).seqNo == l.seqNo
    ensures HandOver(l, i).finished == l.finished
    ensures l.blockNeeded ==> HandOver(l, i).blockNeeded && !HandsOver(l, i)
  {
  }

  /** The flush section's effect on one record, when no immediate flush ends. */
  lemma SectionOfRequest(st: State, f: nat)
    requires f < |st.shared.requests| && !ImmediateFlushEnds(st.local, st.shared)
    ensures f < |FlushSection(st).shared.requests|
    ensures FlushSection(st).shared.requests[f] == RequestTurn(st.shared.requests[f], st.local.seqNo)
    ensures RequestDrops(st.shared.requests[f], st.local.seqNo) ==> FlushSection(st).local.blockNeeded
  {
    hide RequestDrops, RequestTurn, AMinusBMod23;
  }

  // ----- whole runs -----

  /** From action `from` on, no turn before k ends an immediate flush: such an end cancels every request. */
  ghost predicate NotCancelled(run: seq<State>, actions: seq<Action>, start: nat, k: nat) {
    && |run| == |actions| + 1 && start <= k < |run|
    && forall j :: start <= j < k && actions[j].Play? ==>
         var i := actions[j].input;
         !ImmediateFlushEnds(ReadBlock(PlayEdges(run[j].local, i), i), run[j].shared)
  }

  /** A request that action number k0 records, for the blocks counted fromCount up to untilCount. */
  ghost predicate Records(run: seq<State>, actions: seq<Action>, k0: nat, base: int, f: nat,
                          fromCount: int, untilCount: int)
  {
    && IsRun(run, actions) && k0 < |actions| && actions[k0].Defer?
    && f == FirstFree(run[k0].shared.requests) < |run[k0].shared.requests|
    && actions[k0].fromSeq % SEQ_RANGE == SeqOf(base, fromCount)
    && actions[k0].untilSeq % SEQ_RANGE == SeqOf(base, untilCount)
    && run[k0].local.blocksRead < fromCount <= untilCount <= run[k0].local.blocksRead + HALF_RANGE
  }

  /** If a turn from start on and before k looks at the request before any block has been read, the request is anchored.
      Nothing is asked of a request recorded later, or of one whose next turn reads a block. */
  ghost predicate NoFalseStart(run: seq<State>, actions: seq<Action>, start: nat, k: nat,
                               fromSeq: int, untilSeq: int, exact: bool)
    requires |run| == |actions| + 1 && k < |run|
  {
    forall j :: start <= j < k && actions[j].Play? && IdleUnread(run[j], actions[j].input) ==>
      AnchoredAt(fromSeq, untilSeq, exact)
  }

  lemma InstallWatches(st: State, a: Action, base: int, f: nat, fromCount: int, untilCount: int, exact: bool)
    requires a.Defer? && f == FirstFree(st.shared.requests) < |st.shared.requests|
    requires a.fromSeq % SEQ_RANGE == SeqOf(base, fromCount) && a.untilSeq % SEQ_RANGE == SeqOf(base, untilCount)
    requires st.local.blocksRead < fromCount
    ensures Watching(Next(st, a), base, f, fromCount, untilCount, exact)
  {
    hide SeqOf, FirstFree;
  }

  /** Other requests of the RTSP thread leave a record in use alone. */
  lemma OthersKeepWatch(st: State, a: Action, base: int, f: nat, fromCount: int, untilCount: int, exact: bool)
    requires !a.Play? && Watching(st, base, f, fromCount, untilCount, exact)
    ensures Watching(Next(st, a), base, f, fromCount, untilCount, exact)
  {
    hide SeqOf;
  }

  lemma {:induction false} RunUnread(run: seq<State>, actions: seq<Action>, k: nat)
    requires IsRun(run, actions) && k < |run|
    ensures Unread(run[k].local)
  {
    hide Turn, Install, Unread;
    if k == 0 {
      NothingRead();
    } else {
      RunUnread(run, actions, k - 1);
      assert run[k] == Next(run[k - 1], actions[k - 1]);
      if actions[k - 1].Play? {
        TurnUnread(run[k - 1], actions[k - 1].input);
      }
    }
  }

  lemma NothingRead()
    ensures Unread(InitialState().local)
  {
  }

  lemma TurnUnread(st: State, i: Input)
    requires Unread(st.local)
    ensures Unread(Turn(st, i).local)
    ensures st.local.blocksRead <= Turn(st, i).local.blocksRead
  {
    hide FlushSection, HandsOver;
    ReadCounts(st.local, i);
    SectionFrame(State(ReadBlock(PlayEdges(st.local, i), i), st.shared));
  }

  /** A record is kept, and is active from its first block on, until its end is read. */
  lemma {:induction false} RunWatching(run: seq<State>, actions: seq<Action>, k0: nat, k: nat, base: int, f: nat,
                                       fromCount: int, untilCount: int, exact: bool)
    requires Records(run, actions, k0, base, f, fromCount, untilCount)
    requires k0 < k < |run| && NotCancelled(run, actions, k0 + 1, k)
    requires NoFalseStart(run, actions, k0 + 1, k, SeqOf(base, fromCount), SeqOf(base, untilCount), exact)
    requires forall j :: 0 <= j < |run| ==> Consecutive(run[j], base)
    ensures Watching(run[k], base, f, fromCount, untilCount, exact)
    ensures run[k0].local.blocksRead <= run[k].local.blocksRead
    decreases k
  {
    hide Turn, Install, SeqOf, Watching, Consecutive, Inv, Unread, ReadBlock, ImmediateFlushEnds, IdleUnread,
      AnchoredAt;
    assert run[k] == Next(run[k - 1], actions[k - 1]);
    if k == k0 + 1 {
      InstallWatches(run[k0], actions[k0], base, f, fromCount, untilCount, exact);
    } else {
      RunWatching(run, actions, k0, k - 1, base, f, fromCount, untilCount, exact);
      StepWatch(run, actions, k0, k - 1, base, f, fromCount, untilCount, exact);
    }
  }

  lemma StepWatch(run: seq<State>, actions: seq<Action>, k0: nat, k: nat, base: int, f: nat,
                  fromCount: int, untilCount: int, exact: bool)
    requires Records(run, actions, k0, base, f, fromCount, untilCount)
    requires k0 < k < |actions| && NotCancelled(run, actions, k0 + 1, k + 1)
    requires NoFalseStart(run, actions, k0 + 1, k + 1, SeqOf(base, fromCount), SeqOf(base, untilCount), exact)
    requires forall j :: 0 <= j < |run| ==> Consecutive(run[j], base)
    requires Watching(run[k], base, f, fromCount, untilCount, exact)
    requires run[k0].local.blocksRead <= run[k].local.blocksRead
    ensures Watching(run[k + 1], base, f, fromCount, untilCount, exact)
    ensures run[k].local.blocksRead <= run[k + 1].local.blocksRead
  {
    hide Turn, Install, SeqOf, Consecutive, Inv, Unread, ReadBlock, ImmediateFlushEnds, Watching, IdleUnread,
      AnchoredAt;
    assert run[k + 1] == Next(run[k], actions[k]);
    RunInv(run, actions, k);
    RunUnread(run, actions, k);
    match actions[k] {
      case Play(i) =>
        TurnUnread(run[k], i);
        if run[k].local.blocksRead >= untilCount {
          WatchOver(run[k + 1], base, f, fromCount, untilCount, exact);
        } else if !run[k].local.finished {
          TurnKeepsWatch(run[k], i, base, f, fromCount, untilCount, exact);
        } else {
          FinishedStays(run[k], i);
        }
      case _ => OthersKeepWatch(run[k], actions[k], base, f, fromCount, untilCount, exact);
    }
  }

  lemma WatchOver(st: State, base: int, f: nat, fromCount: int, untilCount: int, exact: bool)
    requires st.local.blocksRead >= untilCount
    ensures Watching(st, base, f, fromCount, untilCount, exact)
  {
  }

  lemma FinishedStays(st: State, i: Input)
    requires st.local.finished
    ensures Turn(st, i) == st
  {
  }

  lemma RequestCount(st: State)
    requires Inv(st)
    ensures |st.shared.requests| == MAX_DEFERRED_FLUSH_REQUESTS
  {
  }

  /** One later turn, before the end of the request has been read. */
  lemma WatchedTurn(run: seq<State>, actions: seq<Action>, k0: nat, k: nat, base: int, f: nat,
                    fromCount: int, untilCount: int, exact: bool)
    requires Records(run, actions, k0, base, f, fromCount, untilCount)
    requires k0 < k < |actions| && actions[k].Play? && NotCancelled(run, actions, k0 + 1, k + 1)
    requires NoFalseStart(run, actions, k0 + 1, k + 1, SeqOf(base, fromCount), SeqOf(base, untilCount), exact)
    requires forall j :: 0 <= j < |run| ==> Consecutive(run[j], base)
    requires run[k].local.blocksRead < untilCount && !run[k].local.finished
    ensures f < |run[k].shared.requests| == |run[k + 1].shared.requests|
    ensures var l := ReadBlock(PlayEdges(run[k].local, actions[k].input), actions[k].input);
      !l.finished ==>
        && (fromCount <= l.blocksRead < untilCount ==> RequestDrops(run[k].shared.requests[f], l.seqNo))
        && (exact && RequestDrops(run[k].shared.requests[f], l.seqNo) ==> fromCount <= l.blocksRead < untilCount)
        && (l.blocksRead == untilCount ==>
              !RequestDrops(run[k].shared.requests[f], l.seqNo) && !run[k + 1].shared.requests[f].inUse)
        && (Sent(run[k], actions[k].input).Some? ==> l.blocksRead < fromCount || untilCount <= l.blocksRead)
  {
    hide Turn, Install, SeqOf, Consecutive, Inv, Unread, ReadBlock, ImmediateFlushEnds, RequestDrops, Sent, IdleUnread,
      AnchoredAt;
    assert run[k + 1] == Next(run[k], actions[k]);
    RunWatching(run, actions, k0, k, base, f, fromCount, untilCount, exact);
    RunInv(run, actions, k);
    RunUnread(run, actions, k);
    RunInv(run, actions, k + 1);
    RequestCount(run[k]);
    RequestCount(run[k + 1]);
    assert Consecutive(run[k + 1], base);
    TurnKeepsWatch(run[k], actions[k].input, base, f, fromCount, untilCount, exact);
  }

  /** For every request, however many there are at once: if blocks come in order, its end is at most 2^22 blocks ahead
      and no immediate flush cancels it, then in every later turn before its end has been read it drops the current
      block exactly if the block is in its range, no block of the range reaches the player, and the turn that reads the
      end retires the request without the request dropping that block. */
  lemma DeferredFlushExact(run: seq<State>, actions: seq<Action>, k0: nat, k: nat, base: int, f: nat,
                           fromCount: int, untilCount: int)
    requires Records(run, actions, k0, base, f, fromCount, untilCount)
    requires k0 < k < |actions| && actions[k].Play? && NotCancelled(run, actions, k0 + 1, k + 1)
    requires NoFalseStart(run, actions, k0 + 1, k + 1, SeqOf(base, fromCount), SeqOf(base, untilCount), true)
    requires forall j :: 0 <= j < |run| ==> Consecutive(run[j], base)
    requires run[k].local.blocksRead < untilCount && !run[k].local.finished
    ensures f < |run[k].shared.requests| == |run[k + 1].shared.requests|
    ensures var l := ReadBlock(PlayEdges(run[k].local, actions[k].input), actions[k].input);
      !l.finished ==>
        && (RequestDrops(run[k].shared.requests[f], l.seqNo) <==> fromCount <= l.blocksRead < untilCount)
        && (l.blocksRead == untilCount ==> !run[k + 1].shared.requests[f].inUse)
        && (Sent(run[k], actions[k].input).Some? ==> l.blocksRead < fromCount || untilCount <= l.blocksRead)
  {
    hide *;
    WatchedTurn(run, actions, k0, k, base, f, fromCount, untilCount, true);
  }

  /** The block numbers only grow, so a range that has been passed is never sent either. */
  lemma {:induction false} CountsGrow(run: seq<State>, actions: seq<Action>, j: nat, k: nat)
    requires IsRun(run, actions) && j <= k < |run|
    ensures run[j].local.blocksRead <= run[k].local.blocksRead
    decreases k
  {
    hide Turn, Install, Unread;
    if j < k {
      CountsGrow(run, actions, j, k - 1);
      assert run[k] == Next(run[k - 1], actions[k - 1]);
      if actions[k - 1].Play? {
        RunUnread(run, actions, k - 1);
        TurnUnread(run[k - 1], actions[k - 1].input);
      }
    }
  }

  /** No block of a recorded range is ever sent, in any turn after the recording. For this block number 0 may look like
      the start of the request: then it becomes active early, and drops more. */
  lemma RangeNeverSent(run: seq<State>, actions: seq<Action>, k0: nat, k: nat, base: int, f: nat,
                       fromCount: int, untilCount: int)
    requires Records(run, actions, k0, base, f, fromCount, untilCount)
    requires k0 < k < |actions| && actions[k].Play? && NotCancelled(run, actions, k0 + 1, k + 1)
    requires NoFalseStart(run, actions, k0 + 1, k + 1, SeqOf(base, fromCount), SeqOf(base, untilCount), false)
    requires forall j :: 0 <= j < |run| ==> Consecutive(run[j], base)
    requires Sent(run[k], actions[k].input).Some?
    ensures !(fromCount <= run[k + 1].local.blocksRead < untilCount)
  {
    hide Install, SeqOf, Consecutive, ImmediateFlushEnds, FlushSection, HandsOver, RequestDrops, IdleUnread, AnchoredAt;
    var st, i := run[k], actions[k].input;
    assert run[k + 1] == Next(st, actions[k]);
    ReadCounts(st.local, i);
    SectionFrame(State(ReadBlock(PlayEdges(st.local, i), i), st.shared));
    HandOverKeeps(BeforeHandOver(st, i).local, i);
    if st.local.blocksRead < untilCount {
      WatchedTurn(run, actions, k0, k, base, f, fromCount, untilCount, false);
    }
  }
}

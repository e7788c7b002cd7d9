/** Requests recorded before any block has been read: the deferred part of the flush section, unlike the immediate one,
    does not wait for a block, and compares them with block number 0. */
module EarlyRequests {
  import opened Words
  import opened Wrappers
  import opened BufferedAudio
  import opened FlushTheorems
  import opened DeferredFlush

  lemma EndsAtZero(r: Request)
    requires 0 <= r.untilSeq < SEQ_RANGE
    ensures Ends(r, 0) <==> AMinusBMod23(0, r.untilSeq) >= 0
  {
  }

  /** What one turn without a block makes of a request: it is forgotten if block number 0 does not lie before its
      end, and otherwise activated if it starts at 0. If it starts at 0 a block is asked for, whether play has begun
      or not. */
  lemma EarlyRequest(st: State, i: Input, f: nat)
    requires Inv(st) && Unread(st.local) && IdleUnread(st, i)
    requires f < |st.shared.requests| && st.shared.requests[f].inUse
    requires 0 <= st.shared.requests[f].untilSeq < SEQ_RANGE
    ensures |Turn(st, i).shared.requests| == |st.shared.requests|
    ensures Turn(st, i).local.blocksRead == 0 && !Turn(st, i).local.finished && Unread(Turn(st, i).local)
    ensures
      var r := st.shared.requests[f];
      Turn(st, i).shared.requests[f]
      == if AMinusBMod23(0, r.untilSeq) >= 0 then r.(inUse := false, active := false)
         else r.(active := r.active || r.fromSeq == 0)
    ensures
      var r := st.shared.requests[f];
      (r.fromSeq == 0 && r.untilSeq != 0) || (r.active && AMinusBMod23(0, r.untilSeq) < 0) ==>
        Turn(st, i).local.blockNeeded
  {
    hide SomeDrops, HandsOver, AMinusBMod23;
    var l := ReadBlock(PlayEdges(st.local, i), i);
    var r := st.shared.requests[f];
    ReadCounts(st.local, i);
    NoDistance(0);
    EndsAtZero(r);
    SectionOfRequest(State(l, st.shared), f);
    SectionFrame(State(l, st.shared));
    HandOverKeeps(BeforeHandOver(st, i).local, i);
  }

  /** A request that stands in its record as it should still does after such a turn exactly if it is anchored. */
  lemma IdleTurnKeepsWatch(st: State, i: Input, base: int, f: nat, fromCount: int, untilCount: int, exact: bool)
    requires Inv(st) && Unread(st.local) && IdleUnread(st, i)
    requires 0 < fromCount <= untilCount && Watching(st, base, f, fromCount, untilCount, exact)
    ensures Watching(Turn(st, i), base, f, fromCount, untilCount, exact)
       <==> AnchoredAt(SeqOf(base, fromCount), SeqOf(base, untilCount), exact)
  {
    hide Turn, AMinusBMod23;
    ReadCounts(st.local, i);
    EarlyRequest(st, i, f);
  }

  // ----- runs in which it matters -----

  /** A turn that neither reads nor plays. */
  function Waiting(): Input {
    Input(false, false, false, None, false, false, false, false, false, 0)
  }

  /** A turn that reads the block, if one is needed or play begins, and plays it, if nothing is against it. */
  function Playing(seqNo: int): Input {
    Input(true, true, true, Some(Block(seqNo, 0, ALAC_44100_S16_2)), true, true, true, true, true, 352)
  }

  function Recorded(fromSeq: int, untilSeq: int): State {
    Next(InitialState(), Defer(fromSeq, untilSeq))
  }

  function Waited(fromSeq: int, untilSeq: int): State {
    Turn(Recorded(fromSeq, untilSeq), Waiting())
  }

  /** After n blocks in order. */
  function Played(st: State, base: int, n: nat): State {
    if n == 0 then st else Turn(Played(st, base, n - 1), Playing(SeqOf(base, n)))
  }

  /** One request, then a turn without a block, then n blocks. */
  function EarlyActions(fromSeq: int, untilSeq: int, base: int, n: nat): (r: seq<Action>)
    ensures |r| == n + 2
  {
    [Defer(fromSeq, untilSeq), Play(Waiting())] + seq(n, k requires 0 <= k < n => Play(Playing(SeqOf(base, k + 1))))
  }

  function EarlyRun(fromSeq: int, untilSeq: int, base: int, n: nat): (r: seq<State>)
    ensures |r| == n + 3
  {
    [InitialState(), Recorded(fromSeq, untilSeq)]
    + seq(n + 1, k requires 0 <= k < n + 1 => Played(Waited(fromSeq, untilSeq), base, k))
  }

  lemma EarlyRunIsRun(fromSeq: int, untilSeq: int, base: int, n: nat)
    ensures IsRun(EarlyRun(fromSeq, untilSeq, base, n), EarlyActions(fromSeq, untilSeq, base, n))
  {
    hide Turn, Install, InitialState, SeqOf;
    var run, actions := EarlyRun(fromSeq, untilSeq, base, n), EarlyActions(fromSeq, untilSeq, base, n);
    var waited := Waited(fromSeq, untilSeq);
    assert run[2] == Played(waited, base, 0) == waited;
    forall j | 0 <= j < |actions| ensures run[j + 1] == Next(run[j], actions[j]) {
      if j == 0 {
        assert run[1] == Next(run[0], actions[0]);
      } else if j == 1 {
        assert run[2] == Next(run[1], actions[1]);
      } else {
        EarlyTurn(fromSeq, untilSeq, base, n, j - 2);
      }
    }
  }

  /** The turn that reads block j + 1. */
  lemma EarlyTurn(fromSeq: int, untilSeq: int, base: int, n: nat, j: nat)
    requires j < n
    ensures
      var run, actions := EarlyRun(fromSeq, untilSeq, base, n), EarlyActions(fromSeq, untilSeq, base, n);
      && actions[j + 2] == Play(Playing(SeqOf(base, j + 1)))
      && run[j + 2] == Played(Waited(fromSeq, untilSeq), base, j)
      && run[j + 3] == Turn(run[j + 2], Playing(SeqOf(base, j + 1)))
  {
    hide Turn, SeqOf, Waited, Recorded;
    var waited := Waited(fromSeq, untilSeq);
    assert Played(waited, base, j + 1) == Turn(Played(waited, base, j), Playing(SeqOf(base, j + 1)));
  }

  lemma RecordedIs(fromSeq: int, untilSeq: int)
    ensures
      var st := Recorded(fromSeq, untilSeq);
      && st.local == InitialState().local && !st.shared.immediateRequested
      && |st.shared.requests| == MAX_DEFERRED_FLUSH_REQUESTS && FirstFree(InitialState().shared.requests) == 0
      && st.shared.requests[0] == Request(true, false, fromSeq % SEQ_RANGE, untilSeq % SEQ_RANGE)
      && forall f :: 1 <= f < |st.shared.requests| ==> st.shared.requests[f] == Request(false, false, 0, 0)
  {
  }

  /** The turn without a block looks only at the one request there is. */
  lemma WaitedIs(fromSeq: int, untilSeq: int)
    ensures IdleUnread(Recorded(fromSeq, untilSeq), Waiting())
    ensures
      var st := Waited(fromSeq, untilSeq);
      var early := AMinusBMod23(0, untilSeq % SEQ_RANGE);
      && st.local
         == InitialState().local.(blockNeeded := fromSeq % SEQ_RANGE == 0 && untilSeq % SEQ_RANGE != 0)
      && !st.shared.immediateRequested && |st.shared.requests| == MAX_DEFERRED_FLUSH_REQUESTS
      && st.shared.requests[0] == Request(early < 0, early < 0 && fromSeq % SEQ_RANGE == 0,
                                          fromSeq % SEQ_RANGE, untilSeq % SEQ_RANGE)
      && forall f :: 1 <= f < |st.shared.requests| ==> !st.shared.requests[f].inUse
  {
    RecordedIs(fromSeq, untilSeq);
    hide Recorded, AMinusBMod23;
    var st, r := Recorded(fromSeq, untilSeq), Recorded(fromSeq, untilSeq).shared.requests[0];
    var early := AMinusBMod23(0, untilSeq % SEQ_RANGE);
    NoDistance(0);
    EndsAtZero(r);
    assert ReadBlock(PlayEdges(st.local, Waiting()), Waiting()) == st.local;
    assert RequestDrops(r, 0) <==> r.fromSeq == 0 && r.untilSeq != 0;
    OnlyFirstDrops(st.shared.requests);
    SectionIs(st);
    assert RequestTurn(r, 0) == Request(early < 0, early < 0 && r.fromSeq == 0, r.fromSeq, r.untilSeq);
  }

  lemma OnlyFirstDrops(rs: seq<Request>)
    requires |rs| > 0 && forall f :: 1 <= f < |rs| ==> !rs[f].inUse
    ensures SomeDrops(rs, 0) <==> RequestDrops(rs[0], 0)
    ensures forall f :: 1 <= f < |rs| ==> RequestTurn(rs[f], 0) == rs[f]
  {
    hide AMinusBMod23;
  }

  lemma SectionIs(st: State)
    requires st.local.blocksRead == 0
    ensures FlushSection(st) == BufferedAudio.DeferredFlush(st)
  {
    hide BufferedAudio.DeferredFlush;
  }

  /** No request is in use, and n blocks have been read and played. */
  ghost predicate Quiet(st: State, base: int, n: nat) {
    && (forall f :: 0 <= f < |st.shared.requests| ==> !st.shared.requests[f].inUse)
    && !st.shared.immediateRequested && !st.local.finished && st.local.blocksRead == n
    && (n == 0 ==> st.local == InitialState().local.(blockNeeded := st.local.blockNeeded))
    && (n > 0 ==>
          && st.local.playEnabled && st.local.blockNeeded && st.local.packetsPlayed > 0
          && st.local.expectedTimestamp == 352 && st.local.seqNo == SeqOf(base, n))
  }

  /** Then the next block is sent too. */
  lemma QuietTurn(st: State, base: int, n: nat)
    requires Quiet(st, base, n)
    ensures
      var i := Playing(SeqOf(base, n + 1));
      && Sent(st, i).Some? && Quiet(Turn(st, i), base, n + 1)
      && !ImmediateFlushEnds(ReadBlock(PlayEdges(st.local, i), i), st.shared)
  {
    hide AMinusBMod23;
    var i := Playing(SeqOf(base, n + 1));
    var l := ReadBlock(PlayEdges(st.local, i), i);
    assert l.blocksRead == n + 1 && !l.blockNeeded && l.playEnabled && l.seqNo == SeqOf(base, n + 1);
    assert !SomeDrops(st.shared.requests, l.seqNo);
    NotTooOld(l);
  }

  lemma NotTooOld(l: Local)
    requires l.packetsPlayed > 0 ==> l.expectedTimestamp == 352 && l.timestamp == 0
    requires l.ssrc == ALAC_44100_S16_2
    ensures !TooOld(l)
  {
    WrapOfInt32(-352);
  }

  lemma {:induction false} PlayedQuiet(st: State, base: int, n: nat)
    requires Quiet(st, base, 0)
    ensures Quiet(Played(st, base, n), base, n)
  {
    hide Quiet, Turn, SeqOf;
    if n > 0 {
      PlayedQuiet(st, base, n - 1);
      QuietTurn(Played(st, base, n - 1), base, n - 1);
    }
  }

  /** A forgotten request leaves none. */
  lemma WaitedQuiet(fromSeq: int, untilSeq: int, base: int)
    requires AMinusBMod23(0, untilSeq % SEQ_RANGE) >= 0
    ensures Quiet(Waited(fromSeq, untilSeq), base, 0)
  {
    WaitedIs(fromSeq, untilSeq);
    hide Waited, AMinusBMod23;
  }

  /** The turns end no immediate flush, since none was asked for. */
  lemma WaitedNotCancelled(fromSeq: int, untilSeq: int)
    ensures
      var st := Recorded(fromSeq, untilSeq);
      !ImmediateFlushEnds(ReadBlock(PlayEdges(st.local, Waiting()), Waiting()), st.shared)
  {
    RecordedIs(fromSeq, untilSeq);
    hide Recorded, AMinusBMod23;
  }

  lemma IsRecorded(base: int, fromCount: int, untilCount: int, n: nat)
    requires 0 < fromCount <= untilCount <= HALF_RANGE
    ensures
      var fromSeq, untilSeq := SeqOf(base, fromCount), SeqOf(base, untilCount);
      Records(EarlyRun(fromSeq, untilSeq, base, n), EarlyActions(fromSeq, untilSeq, base, n), 0,
              base, 0, fromCount, untilCount)
  {
    hide Turn, Recorded, IsRun, Played;
    var fromSeq, untilSeq := SeqOf(base, fromCount), SeqOf(base, untilCount);
    EarlyRunIsRun(fromSeq, untilSeq, base, n);
    RecordedIs(fromSeq, untilSeq);
  }

  /** Not being anchored matters: every request whose end block number 0 seems to have passed is forgotten in a turn
      without a block, and then there is a run that sends the first block of its range. */
  lemma EarlyRangeSent(base: int, fromCount: nat, untilCount: int)
    requires 0 < fromCount < untilCount <= HALF_RANGE && AMinusBMod23(0, SeqOf(base, untilCount)) >= 0
    ensures
      var fromSeq, untilSeq := SeqOf(base, fromCount), SeqOf(base, untilCount);
      var run := EarlyRun(fromSeq, untilSeq, base, fromCount);
      var actions := EarlyActions(fromSeq, untilSeq, base, fromCount);
      var k := fromCount + 1;
      && Records(run, actions, 0, base, 0, fromCount, untilCount) && NotCancelled(run, actions, 1, k + 1)
      && (forall j :: 0 <= j < |run| ==> Consecutive(run[j], base))
      && Sent(run[k], actions[k].input).Some? && run[k + 1].local.blocksRead == fromCount
  {
    hide *;
    SeqInRange(base, untilCount);
    WaitedQuiet(SeqOf(base, fromCount), SeqOf(base, untilCount), base);
    IsRecorded(base, fromCount, untilCount, fromCount);
    EarlyNotCancelled(SeqOf(base, fromCount), SeqOf(base, untilCount), base, fromCount);
    EarlyConsecutive(SeqOf(base, fromCount), SeqOf(base, untilCount), base, fromCount);
    EarlySent(SeqOf(base, fromCount), SeqOf(base, untilCount), base, fromCount, fromCount - 1);
  }

  lemma EarlySent(fromSeq: int, untilSeq: int, base: int, n: nat, j: nat)
    requires Quiet(Waited(fromSeq, untilSeq), base, 0) && j < n
    ensures
      var run, actions := EarlyRun(fromSeq, untilSeq, base, n), EarlyActions(fromSeq, untilSeq, base, n);
      && actions[j + 2].Play? && Sent(run[j + 2], actions[j + 2].input).Some?
      && run[j + 3].local.blocksRead == j + 1
      && !ImmediateFlushEnds(ReadBlock(PlayEdges(run[j + 2].local, actions[j + 2].input), actions[j + 2].input),
                             run[j + 2].shared)
  {
    hide *;
    EarlyTurn(fromSeq, untilSeq, base, n, j);
    var st := Played(Waited(fromSeq, untilSeq), base, j);
    PlayedQuiet(Waited(fromSeq, untilSeq), base, j);
    QuietTurn(st, base, j);
    QuietIsConsecutive(Turn(st, Playing(SeqOf(base, j + 1))), base, j + 1);
  }

  lemma EarlyNotCancelled(fromSeq: int, untilSeq: int, base: int, n: nat)
    requires Quiet(Waited(fromSeq, untilSeq), base, 0)
    ensures NotCancelled(EarlyRun(fromSeq, untilSeq, base, n), EarlyActions(fromSeq, untilSeq, base, n), 1, n + 2)
  {
    hide Turn, Recorded, Quiet, Waited, ReadBlock, PlayEdges, ImmediateFlushEnds, Sent, Played, SeqOf;
    var run, actions := EarlyRun(fromSeq, untilSeq, base, n), EarlyActions(fromSeq, untilSeq, base, n);
    forall j | 1 <= j < n + 2 && actions[j].Play?
      ensures !ImmediateFlushEnds(ReadBlock(PlayEdges(run[j].local, actions[j].input), actions[j].input), run[j].shared)
    {
      if j == 1 {
        WaitedNotCancelled(fromSeq, untilSeq);
      } else {
        EarlySent(fromSeq, untilSeq, base, n, j - 2);
      }
    }
  }

  lemma EarlyConsecutive(fromSeq: int, untilSeq: int, base: int, n: nat)
    requires Quiet(Waited(fromSeq, untilSeq), base, 0)
    ensures
      var run := EarlyRun(fromSeq, untilSeq, base, n);
      forall j :: 0 <= j < |run| ==> Consecutive(run[j], base)
  {
    hide Turn, Quiet, Waited, Played, SeqOf;
    var run := EarlyRun(fromSeq, untilSeq, base, n);
    forall j | 0 <= j < |run| ensures Consecutive(run[j], base) {
      if j < 2 {
        RecordedIs(fromSeq, untilSeq);
      } else {
        assert run[j] == Played(Waited(fromSeq, untilSeq), base, j - 2);
        PlayedQuiet(Waited(fromSeq, untilSeq), base, j - 2);
        QuietIsConsecutive(run[j], base, j - 2);
      }
    }
  }

  lemma QuietIsConsecutive(st: State, base: int, n: nat)
    requires Quiet(st, base, n)
    ensures Consecutive(st, base) && st.local.blocksRead == n
  {
  }

  lemma SeqInRange(base: int, c: int)
    ensures SeqOf(base, c) % SEQ_RANGE == SeqOf(base, c)
  {
  }

  /** Blocks 0x700001 to 0x700005: the first of them is sent. */
  lemma EarlyRangeSentExample()
    ensures
      var run := EarlyRun(0x70_0001, 0x70_0005, 0x70_0000, 1);
      var actions := EarlyActions(0x70_0001, 0x70_0005, 0x70_0000, 1);
      && Records(run, actions, 0, 0x70_0000, 0, 1, 5) && NotCancelled(run, actions, 1, 3)
      && Sent(run[2], actions[2].input).Some? && run[3].local.blocksRead == 1
  {
    assert SeqOf(0x70_0000, 1) == 0x70_0001 && SeqOf(0x70_0000, 5) == 0x70_0005;
    assert AMinusBMod23(0, 0x70_0005) >= 0;
    hide *;
    EarlyRangeSent(0x70_0000, 1, 5);
  }

  // ----- the condition is exact -----

  /** In every run in which blocks come in order, no block of such a request is sent, unless an immediate flush cancels
      it. */
  ghost predicate RangeSafe(base: int, fromCount: int, untilCount: int) {
    forall run: seq<State>, actions: seq<Action>, k0: nat, k: nat, f: nat
      | Late(run, actions, k0, k, base, f, fromCount, untilCount) ::
      !(fromCount <= run[k + 1].local.blocksRead < untilCount)
  }

  ghost predicate Late(run: seq<State>, actions: seq<Action>, k0: nat, k: nat, base: int, f: nat,
                       fromCount: int, untilCount: int) {
    && |run| == |actions| + 1 && Records(run, actions, k0, base, f, fromCount, untilCount)
    && k0 < k < |actions| && actions[k].Play? && NotCancelled(run, actions, k0 + 1, k + 1)
    && (forall j :: 0 <= j < |run| ==> Consecutive(run[j], base))
    && Sent(run[k], actions[k].input).Some?
  }

  lemma LateIsSafe(run: seq<State>, actions: seq<Action>, k0: nat, k: nat, base: int, f: nat,
                   fromCount: int, untilCount: int)
    requires Late(run, actions, k0, k, base, f, fromCount, untilCount)
    requires AMinusBMod23(0, SeqOf(base, untilCount)) < 0
    ensures !(fromCount <= run[k + 1].local.blocksRead < untilCount)
  {
    hide Records, NotCancelled, Consecutive, Sent, AMinusBMod23, SeqOf, IdleUnread;
    RangeNeverSent(run, actions, k0, k, base, f, fromCount, untilCount);
  }

  lemma EarlyIsLate(base: int, fromCount: nat, untilCount: int)
    requires 0 < fromCount < untilCount <= HALF_RANGE && AMinusBMod23(0, SeqOf(base, untilCount)) >= 0
    ensures
      var run := EarlyRun(SeqOf(base, fromCount), SeqOf(base, untilCount), base, fromCount);
      var actions := EarlyActions(SeqOf(base, fromCount), SeqOf(base, untilCount), base, fromCount);
      && Late(run, actions, 0, fromCount + 1, base, 0, fromCount, untilCount)
      && run[fromCount + 2].local.blocksRead == fromCount
  {
    EarlyRangeSent(base, fromCount, untilCount);
    hide Records, NotCancelled, Consecutive, Sent, AMinusBMod23, SeqOf, EarlyRun;
  }

  /** A range with something in it is safe exactly if block number 0 lies before its end. */
  lemma RangeSafeExact(base: int, fromCount: nat, untilCount: int)
    requires 0 < fromCount < untilCount <= HALF_RANGE
    ensures RangeSafe(base, fromCount, untilCount) <==> AMinusBMod23(0, SeqOf(base, untilCount)) < 0
  {
    hide Records, NotCancelled, Consecutive, Sent, AMinusBMod23, SeqOf, EarlyRun, EarlyActions;
    if AMinusBMod23(0, SeqOf(base, untilCount)) < 0 {
      forall run: seq<State>, actions: seq<Action>, k0: nat, k: nat, f: nat
        | Late(run, actions, k0, k, base, f, fromCount, untilCount)
        ensures !(fromCount <= run[k + 1].local.blocksRead < untilCount)
      {
        LateIsSafe(run, actions, k0, k, base, f, fromCount, untilCount);
      }
    } else {
      EarlyIsLate(base, fromCount, untilCount);
    }
  }

  /** A request that starts at block number 0 is active after a turn without a block, and then the first block is
      dropped on its account, which is before its range. */
  lemma EarlyActivation(base: int, fromCount: int, untilCount: int)
    requires 1 < fromCount <= untilCount <= HALF_RANGE
    requires SeqOf(base, fromCount) == 0 && AMinusBMod23(0, SeqOf(base, untilCount)) < 0
    ensures
      var run := EarlyRun(0, SeqOf(base, untilCount), base, 1);
      var actions := EarlyActions(0, SeqOf(base, untilCount), base, 1);
      var l := ReadBlock(PlayEdges(run[2].local, actions[2].input), actions[2].input);
      && Records(run, actions, 0, base, 0, fromCount, untilCount) && NotCancelled(run, actions, 1, 3)
      && l.blocksRead == 1 < fromCount && l.seqNo == SeqOf(base, 1)
      && |run[2].shared.requests| > 0 && RequestDrops(run[2].shared.requests[0], l.seqNo)
  {
    var untilSeq := SeqOf(base, untilCount);
    SeqDistance(base, 1, untilCount - 1);
    hide Turn, Recorded, Waited, AMinusBMod23;
    IsRecorded(base, fromCount, untilCount, 1);
    WaitedNotCancelled(0, untilSeq);
    WaitedIs(0, untilSeq);
    assert Played(Waited(0, untilSeq), base, 0) == Waited(0, untilSeq);
  }
}

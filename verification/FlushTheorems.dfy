/** What every run of the buffered-audio loop keeps. */
module FlushTheorems {
  import opened Words
  import opened Wrappers
  import opened BufferedAudio

  // ----- safety of the hand-over -----

  /** No block means no SSRC; a block read since play began unless none was ever read. */
  predicate Inv(st: State) {
    |st.shared.requests| == MAX_DEFERRED_FLUSH_REQUESTS && LocalInv(st.local)
  }

  predicate LocalInv(l: Local) {
    && (l.blocksRead == 0 ==> l.ssrc == SSRC_NONE)
    && l.blocksSincePlayBegan <= l.blocksRead
    && (l.blocksSincePlayBegan == 0 && !l.finished ==> l.blocksRead == 0)
  }

  /** The flush section touches nothing of the processor's own state but these two flags. */
  lemma SectionFrame(st: State)
    ensures var l := FlushSection(st).local;
      l == st.local.(blockNeeded := l.blockNeeded, flushing := l.flushing)
    ensures st.local.blockNeeded ==> FlushSection(st).local.blockNeeded
    ensures |FlushSection(st).shared.requests| == |st.shared.requests|
  {
    hide SomeDrops, AMinusBMod23;
  }

  lemma TurnKeepsInv(st: State, i: Input)
    requires Inv(st)
    ensures Inv(Turn(st, i))
  {
    hide FlushSection, HandsOver, HandOver, LocalInv, ReadBlock, PlayEdges;
    SectionFrame(State(ReadBlock(PlayEdges(st.local, i), i), st.shared));
    ReadKeepsInv(st.local, i);
    var m := BeforeHandOver(st, i);
    FlagsKeepInv(ReadBlock(PlayEdges(st.local, i), i), m.local.blockNeeded, m.local.flushing);
    HandOverKeepsInv(m.local, i);
  }

  lemma ReadKeepsInv(l: Local, i: Input)
    requires LocalInv(l)
    ensures LocalInv(ReadBlock(PlayEdges(l, i), i))
  {
  }

  lemma FlagsKeepInv(l: Local, blockNeeded: bool, flushing: bool)
    requires LocalInv(l)
    ensures LocalInv(l.(blockNeeded := blockNeeded, flushing := flushing))
  {
  }

  lemma HandOverKeepsInv(l: Local, i: Input)
    requires LocalInv(l)
    ensures LocalInv(HandOver(l, i))
  {
    hide HandsOver;
  }

  lemma NextKeepsInv(st: State, a: Action)
    requires Inv(st)
    ensures Inv(Next(st, a))
  {
    hide Turn, FirstFree;
    match a
    case Play(i) => TurnKeepsInv(st, i);
    case _ =>
  }

  lemma {:induction false} RunInv(run: seq<State>, actions: seq<Action>, k: nat)
    requires IsRun(run, actions) && k < |run|
    ensures Inv(run[k])
  {
    hide Next, Inv;
    if k == 0 {
      InitInv();
    } else {
      RunInv(run, actions, k - 1);
      NextKeepsInv(run[k - 1], actions[k - 1]);
      assert run[k] == Next(run[k - 1], actions[k - 1]);
    }
  }

  lemma InitInv()
    ensures Inv(InitialState())
  {
  }

  /** A state in which nothing stands against giving the held block to the player. */
  predicate Clear(st: State) {
    && st.local.blocksSincePlayBegan >= 1
    && !st.shared.immediateRequested
    && forall f :: 0 <= f < |st.shared.requests| && st.shared.requests[f].inUse ==>
         !st.shared.requests[f].active && st.shared.requests[f].fromSeq != st.local.seqNo
  }

  lemma SectionClears(st: State)
    requires st.local.blocksRead != 0 && !FlushSection(st).local.blockNeeded
    ensures !FlushSection(st).shared.immediateRequested
    ensures FlushSection(st).local.seqNo == st.local.seqNo
    ensures forall f :: 0 <= f < |FlushSection(st).shared.requests| && FlushSection(st).shared.requests[f].inUse ==>
              !FlushSection(st).shared.requests[f].active
              && FlushSection(st).shared.requests[f].fromSeq != st.local.seqNo
  {
    hide AMinusBMod23;
    var m := ImmediateFlush(st);
    var rs, seqNo := m.shared.requests, st.local.seqNo;
    assert !SomeDrops(rs, seqNo);
    forall f | 0 <= f < |rs| && RequestTurn(rs[f], seqNo).inUse
      ensures !RequestTurn(rs[f], seqNo).active && RequestTurn(rs[f], seqNo).fromSeq != seqNo
    {
      assert !RequestDrops(rs[f], seqNo);
    }
  }

  /** Whenever a packet goes to the player, a block has been read since play began, no immediate flush is pending after
      the flush section, and no deferred request in use is active or starts at that block. */
  lemma HandOverSafe(run: seq<State>, actions: seq<Action>, k: nat)
    requires IsRun(run, actions) && k < |actions| && actions[k].Play?
    requires Sent(run[k], actions[k].input).Some?
    ensures Clear(BeforeHandOver(run[k], actions[k].input))
  {
    hide PlayEdges, FlushSection;
    RunInv(run, actions, k);
    var st, i := run[k], actions[k].input;
    SentMeansRead(st, i);
    SectionClears(State(ReadBlock(PlayEdges(st.local, i), i), st.shared));
  }

  lemma SentMeansRead(st: State, i: Input)
    requires Inv(st) && Sent(st, i).Some?
    ensures var l := ReadBlock(PlayEdges(st.local, i), i);
      && !l.finished && l.blocksRead != 0 && l.blocksSincePlayBegan >= 1
      && BeforeHandOver(st, i) == FlushSection(State(l, st.shared))
      && FlushSection(State(l, st.shared)).local.blocksSincePlayBegan == l.blocksSincePlayBegan
      && !FlushSection(State(l, st.shared)).local.blockNeeded
  {
    hide SomeDrops, RequestsTurn, AMinusBMod23, TimestampDifference, CancelAll;
  }

  // ----- numbering -----

  /** Seen from outside: the number of the first block read in the current play session, and the packets sent in it. */
  datatype Tally = Tally(first: Option<int>, sent: nat)

  predicate SessionBegins(st: State, i: Input) {
    !st.local.finished && !st.local.playEnabled && i.playAtStart
  }

  predicate BlockArrives(st: State, i: Input) {
    !st.local.finished && (st.local.blockNeeded || SessionBegins(st, i)) && i.block.Some?
  }

  /** The session's first block number as it stands when the turn's packet, if any, is sent. */
  function TallyAtSend(t: Tally, st: State, i: Input): Tally {
    var t1 := if SessionBegins(st, i) then Tally(None, 0) else t;
    if BlockArrives(st, i) && t1.first.None? then Tally(Some(i.block.value.seqNo % SEQ_RANGE), 0) else t1
  }

  function NextTally(t: Tally, st: State, a: Action): Tally {
    match a
    case Play(i) =>
      var t1 := TallyAtSend(t, st, i);
      if Sent(st, i).Some? then t1.(sent := t1.sent + 1) else t1
    case _ => t
  }

  function TallyOf(run: seq<State>, actions: seq<Action>, k: nat): Tally
    requires |run| == |actions| + 1 && k < |run|
  {
    if k == 0 then Tally(None, 0) else NextTally(TallyOf(run, actions, k - 1), run[k - 1], actions[k - 1])
  }

  predicate TallyMatches(t: Tally, st: State) {
    && (t.first.None? ==> (st.local.finished || (st.local.blocksSincePlayBegan == 0 && t.sent == 0)))
    && (t.first.Some? && !st.local.finished ==>
          st.local.blocksSincePlayBegan >= 1
          && st.local.numberForPlayer == (t.first.value + t.sent) % 0x1_0000)
  }

  lemma TurnKeepsTally(t: Tally, st: State, i: Input)
    requires Inv(st) && TallyMatches(t, st)
    ensures TallyMatches(NextTally(t, st, Play(i)), Turn(st, i))
    ensures Sent(st, i).Some? ==>
              && TallyAtSend(t, st, i).first.Some?
              && Sent(st, i).value.number
                 == (TallyAtSend(t, st, i).first.value + TallyAtSend(t, st, i).sent) % 0x1_0000
  {
    hide FlushSection, HandsOver, NextTally;
    NextTallyCases(t, st, i);
    if !st.local.finished {
      ReadKeepsTally(t, st, i);
      SectionFrame(State(ReadBlock(PlayEdges(st.local, i), i), st.shared));
      var m := BeforeHandOver(st, i);
      if !m.local.finished {
        SendKeepsTally(TallyAtSend(t, st, i), m, i);
        if Sent(st, i).Some? {
          SentMeansRead(st, i);
        }
      }
    }
  }

  lemma NextTallyCases(t: Tally, st: State, i: Input)
    ensures var t1 := TallyAtSend(t, st, i);
      NextTally(t, st, Play(i)) == if Sent(st, i).Some? then t1.(sent := t1.sent + 1) else t1
  {
    hide Sent, TallyAtSend;
  }

  /** Up to the flush section: a new session forgets the tally, its first block starts a new one. */
  lemma ReadKeepsTally(t: Tally, st: State, i: Input)
    requires Inv(st) && TallyMatches(t, st) && !st.local.finished
    ensures TallyMatches(TallyAtSend(t, st, i), State(ReadBlock(PlayEdges(st.local, i), i), st.shared))
  {
  }

  /** Sending counts the packet and the number alike. */
  lemma SendKeepsTally(t: Tally, m: State, i: Input)
    requires TallyMatches(t, m) && !m.local.finished
    ensures HandsOver(m.local, i) && t.first.Some? ==>
              && PacketOf(m.local).number == (t.first.value + t.sent) % 0x1_0000
              && TallyMatches(t.(sent := t.sent + 1), State(HandOver(m.local, i), m.shared))
    ensures !HandsOver(m.local, i) ==> TallyMatches(t, State(HandOver(m.local, i), m.shared))
  {
    hide TimestampDifference, TooOld, SsrcIsRecognised;
    if t.first.Some? {
      ModSucc(t.first.value + t.sent);
    }
  }

  lemma ModSucc(x: int)
    ensures (x % 0x1_0000 + 1) % 0x1_0000 == (x + 1) % 0x1_0000
  {
  }

  lemma {:induction false} RunTally(run: seq<State>, actions: seq<Action>, k: nat)
    requires IsRun(run, actions) && k < |run|
    ensures TallyMatches(TallyOf(run, actions, k), run[k])
  {
    hide Turn, TallyMatches, Inv, Sent, Install;
    if k == 0 {
      InitTally();
    } else {
      RunTally(run, actions, k - 1);
      RunInv(run, actions, k - 1);
      assert run[k] == Next(run[k - 1], actions[k - 1]);
      match actions[k - 1] {
        case Play(i) => TurnKeepsTally(TallyOf(run, actions, k - 1), run[k - 1], i);
        case _ => TallyIsLocal(TallyOf(run, actions, k - 1), run[k - 1], run[k]);
      }
    }
  }

  lemma InitTally()
    ensures TallyMatches(Tally(None, 0), InitialState())
  {
  }

  lemma TallyIsLocal(t: Tally, st: State, st': State)
    requires TallyMatches(t, st) && st'.local == st.local
    ensures TallyMatches(t, st')
  {
  }

  /** The n-th packet of a play session carries the session's first block number plus n, modulo 2^16, however the block
      numbers jump in between. */
  lemma PacketNumbering(run: seq<State>, actions: seq<Action>, k: nat)
    requires IsRun(run, actions) && k < |actions| && actions[k].Play?
    requires Sent(run[k], actions[k].input).Some?
    ensures var t := TallyAtSend(TallyOf(run, actions, k), run[k], actions[k].input);
      t.first.Some? && Sent(run[k], actions[k].input).value.number == (t.first.value + t.sent) % 0x1_0000
  {
    hide TallyMatches, Inv, Sent;
    RunTally(run, actions, k);
    RunInv(run, actions, k);
    TurnKeepsTally(TallyOf(run, actions, k), run[k], actions[k].input);
  }

  // ----- the timeline -----

  predicate StopEdge(st: State, i: Input) {
    var l := if !st.local.playEnabled && i.playAtStart then st.local.(blockNeeded := true, blocksSincePlayBegan := 0)
             else st.local;
    l.playEnabled && !i.playAtStop
  }

  /** The player takes whole blocks, and a gap leaves room for one in 31 bits. */
  predicate WholeBlocks(st: State, i: Input) {
    Sent(st, i).Some? ==>
      && i.packetSize == SsrcBlockLength(Sent(st, i).value.ssrc)
      && Sent(st, i).value.gap + i.packetSize <= 0x7FFF_FFFF
  }

  /** How far one action moves the expected timestamp. */
  function Advance(st: State, a: Action): int {
    match a
    case Play(i) => if Sent(st, i).Some? then Sent(st, i).value.gap + i.packetSize else 0
    case _ => 0
  }

  lemma GapRestores(timestamp: int, expected: int, size: int)
    ensures (timestamp + size) % 0x1_0000_0000 == (expected + Wrap32(timestamp - expected) + size) % 0x1_0000_0000
  {
    hide Signed;
    Pow2Values();
    SignedCongruent(timestamp - expected, 32);
    var c: int :| Wrap32(timestamp - expected) == timestamp - expected + c * Pow2(32);
    var x := timestamp + size;
    DivModIdentity(x, 0x1_0000_0000);
    DivModUnique(x + c * 0x1_0000_0000, 0x1_0000_0000, x / 0x1_0000_0000 + c, x % 0x1_0000_0000);
  }

  /** A packet that is sent in a sequence already under way ends no earlier than the one before it. */
  lemma TimelineTurn(st: State, i: Input)
    requires st.local.packetsPlayed > 0 && !StopEdge(st, i) && WholeBlocks(st, i)
    ensures Turn(st, i).local.packetsPlayed > 0
    ensures 0 <= Advance(st, Play(i)) <= 0x7FFF_FFFF
    ensures Turn(st, i).local.expectedTimestamp % 0x1_0000_0000
         == (st.local.expectedTimestamp + Advance(st, Play(i))) % 0x1_0000_0000
  {
    hide FlushSection, Wrap32;
    if !st.local.finished {
      var l := ReadBlock(PlayEdges(st.local, i), i);
      SectionFrame(State(l, st.shared));
      ReadKeepsTimeline(st, i);
      var m := BeforeHandOver(st, i);
      if Sent(st, i).Some? {
        GapRestores(m.local.timestamp, m.local.expectedTimestamp, i.packetSize);
        ModTwice(m.local.timestamp + i.packetSize);
      }
    }
  }

  lemma ModTwice(x: int)
    ensures x % 0x1_0000_0000 % 0x1_0000_0000 == x % 0x1_0000_0000
  {
  }

  lemma ReadKeepsTimeline(st: State, i: Input)
    requires !StopEdge(st, i)
    ensures var l := ReadBlock(PlayEdges(st.local, i), i);
      l.packetsPlayed == st.local.packetsPlayed && l.expectedTimestamp == st.local.expectedTimestamp
  {
  }

  /** Between a and b a play sequence is under way. */
  ghost predicate Steady(run: seq<State>, actions: seq<Action>, a: nat, b: nat) {
    && |run| == |actions| + 1 && a <= b < |run| && run[a].local.packetsPlayed > 0
    && forall k :: a <= k < b && actions[k].Play? ==>
         !StopEdge(run[k], actions[k].input) && WholeBlocks(run[k], actions[k].input)
  }

  function TotalAdvance(run: seq<State>, actions: seq<Action>, a: nat, b: nat): int
    requires |run| == |actions| + 1 && a <= b < |run|
    decreases b
  {
    if a == b then 0 else TotalAdvance(run, actions, a, b - 1) + Advance(run[b - 1], actions[b - 1])
  }

  /** Within a play session the expected timestamp only ever moves forward, by less than half the circle at a time. */
  lemma {:induction false} TimelineNeverBack(run: seq<State>, actions: seq<Action>, a: nat, b: nat)
    requires IsRun(run, actions) && Steady(run, actions, a, b)
    ensures run[b].local.packetsPlayed > 0 && TotalAdvance(run, actions, a, b) >= 0
    ensures run[b].local.expectedTimestamp % 0x1_0000_0000
         == (run[a].local.expectedTimestamp + TotalAdvance(run, actions, a, b)) % 0x1_0000_0000
    ensures forall k :: a <= k < b ==> 0 <= Advance(run[k], actions[k]) <= 0x7FFF_FFFF
    decreases b
  {
    hide Turn, Advance, StopEdge, WholeBlocks, Install;
    if a < b {
      TimelineNeverBack(run, actions, a, b - 1);
      var st, action := run[b - 1], actions[b - 1];
      assert run[b] == Next(st, action);
      ActionTimeline(st, action);
      var e, t, d := run[a].local.expectedTimestamp, TotalAdvance(run, actions, a, b - 1), Advance(st, action);
      ModShift(st.local.expectedTimestamp, e + t, d);
    }
  }

  lemma ModShift(x: int, y: int, d: int)
    requires x % 0x1_0000_0000 == y % 0x1_0000_0000
    ensures (x + d) % 0x1_0000_0000 == (y + d) % 0x1_0000_0000
  {
  }

  lemma ActionTimeline(st: State, a: Action)
    requires st.local.packetsPlayed > 0
    requires a.Play? ==> !StopEdge(st, a.input) && WholeBlocks(st, a.input)
    ensures Next(st, a).local.packetsPlayed > 0 && 0 <= Advance(st, a) <= 0x7FFF_FFFF
    ensures Next(st, a).local.expectedTimestamp % 0x1_0000_0000
         == (st.local.expectedTimestamp + Advance(st, a)) % 0x1_0000_0000
  {
    hide Turn, StopEdge, WholeBlocks, Install, Sent;
    match a
    case Play(i) => TimelineTurn(st, i);
    case _ =>
  }
}

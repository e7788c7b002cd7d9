/** One turn of the AirPlay 2 buffered-audio loop, and the RTSP thread's writes between turns, as functions on
    states. */
module BufferedAudio {
  import opened Words
  import opened Wrappers

  const MAX_DEFERRED_FLUSH_REQUESTS := 10

  /** Block numbers are 23 bits wide. */
  const SEQ_RANGE := 0x80_0000
  const HALF_RANGE := 0x40_0000

  const SSRC_NONE := 0
  const ALAC_44100_S16_2 := 0xFACE
  const ALAC_48000_S24_2 := 0x1500_0000
  const AAC_44100_F24_2 := 0x1600_0000
  const AAC_48000_F24_2 := 0x1700_0000
  const AAC_48000_F24_5P1 := 0x2700_0000
  const AAC_48000_F24_7P1 := 0x2800_0000

  predicate SsrcIsAac(ssrc: int) {
    ssrc == AAC_44100_F24_2 || ssrc == AAC_48000_F24_2 || ssrc == AAC_48000_F24_5P1 || ssrc == AAC_48000_F24_7P1
  }

  predicate SsrcIsRecognised(ssrc: int) {
    ssrc == ALAC_44100_S16_2 || ssrc == ALAC_48000_S24_2 || SsrcIsAac(ssrc)
  }

  function SsrcBlockLength(ssrc: int): nat {
    if ssrc == ALAC_44100_S16_2 || ssrc == ALAC_48000_S24_2 then 352
    else if SsrcIsAac(ssrc) then 1024
    else 0
  }

  /** a_minus_b_mod23: the difference of two block numbers, taken as a signed 23-bit number. */
  function AMinusBMod23(a: int, b: int): int {
    var diff := (a - b) % SEQ_RANGE;
    if diff >= HALF_RANGE then diff - SEQ_RANGE else diff
  }

  // ----- state -----

  datatype Request = Request(inUse: bool, active: bool, fromSeq: int, untilSeq: int)

  /** What the processor shares with the RTSP thread under the flush mutex. */
  datatype Shared = Shared(immediateRequested: bool, immediateUntil: int, requests: seq<Request>)

  /** The processor's own variables. */
  datatype Local = Local(playEnabled: bool, blockNeeded: bool, seqNo: int, timestamp: int, ssrc: int,
                         numberForPlayer: int, expectedTimestamp: int, blocksRead: nat, blocksSincePlayBegan: nat,
                         packetsPlayed: nat, flushing: bool, finished: bool)

  datatype State = State(local: Local, shared: Shared)

  datatype Block = Block(seqNo: int, timestamp: int, ssrc: int)

  /** Everything a turn learns from outside. The play flag is read three times without the mutex, so the three
      readings may differ. block is what a read would deliver, None if the port has been closed. */
  datatype Input = Input(playAtStart: bool, playAtStop: bool, playKept: bool, block: Option<Block>,
                         haveValidTime: bool, dueSoon: bool, afterPrevious: bool, inTime: bool, deciphered: bool,
                         packetSize: int)

  datatype Packet = Packet(number: int, timestamp: int, ssrc: int, mute: bool, gap: int)

  function InitialState(): State {
    State(Local(false, false, 0, 0, SSRC_NONE, 0, 0, 0, 0, 0, false, false),
          Shared(false, 0, seq(MAX_DEFERRED_FLUSH_REQUESTS, _ => Request(false, false, 0, 0))))
  }

  // ----- one turn -----

  function PlayEdges(l: Local, i: Input): Local {
    var l1 := if !l.playEnabled && i.playAtStart then l.(blockNeeded := true, blocksSincePlayBegan := 0) else l;
    var l2 := if l1.playEnabled && !i.playAtStop then l1.(packetsPlayed := 0) else l1;
    l2.(playEnabled := i.playKept)
  }

  function TakeBlock(l: Local, b: Block): Local {
    var seqNo := b.seqNo % SEQ_RANGE;
    l.(blocksRead := l.blocksRead + 1,
       blocksSincePlayBegan := l.blocksSincePlayBegan + 1,
       seqNo := seqNo,
       timestamp := b.timestamp,
       ssrc := b.ssrc,
       numberForPlayer := if l.blocksSincePlayBegan == 0 then seqNo % 0x1_0000 else l.numberForPlayer,
       blockNeeded := false)
  }

  function ReadBlock(l: Local, i: Input): Local {
    if !l.blockNeeded then l
    else if i.block.None? then l.(finished := true)
    else TakeBlock(l, i.block.value)
  }

  /** Whether this turn's flush section ends an immediate flush. */
  predicate ImmediateFlushEnds(l: Local, s: Shared) {
    l.blocksRead != 0 && s.immediateRequested && AMinusBMod23(l.seqNo, s.immediateUntil) >= 0
  }

  predicate ImmediateFlushHolds(l: Local, s: Shared) {
    l.blocksRead != 0 && s.immediateRequested && AMinusBMod23(l.seqNo, s.immediateUntil) < 0
  }

  function CancelAll(rs: seq<Request>): (r: seq<Request>)
    ensures |r| == |rs|
  {
    seq(|rs|, f requires 0 <= f < |rs| => rs[f].(inUse := false, active := false))
  }

  function ImmediateFlush(st: State): State {
    if ImmediateFlushEnds(st.local, st.shared) then
      State(st.local.(flushing := false),
            st.shared.(immediateRequested := false, requests := CancelAll(st.shared.requests)))
    else if ImmediateFlushHolds(st.local, st.shared) then
      State(st.local.(flushing := true, blockNeeded := true), st.shared)
    else st
  }

  /** Does the block activate this request? */
  predicate Starts(r: Request, seqNo: int) {
    r.fromSeq == seqNo && r.untilSeq != seqNo
  }

  predicate Ends(r: Request, seqNo: int) {
    r.untilSeq == seqNo || AMinusBMod23(seqNo, r.untilSeq) > 0
  }

  /** One request's part of the flush section. */
  function RequestTurn(r: Request, seqNo: int): Request {
    if !r.inUse then r
    else if Ends(r, seqNo) then r.(active := false, inUse := false)
    else r.(active := r.active || Starts(r, seqNo))
  }

  /** Whether one request drops the current block. */
  predicate RequestDrops(r: Request, seqNo: int) {
    r.inUse && (Starts(r, seqNo) || (!Ends(r, seqNo) && r.active))
  }

  predicate SomeDrops(rs: seq<Request>, seqNo: int) {
    exists f :: 0 <= f < |rs| && RequestDrops(rs[f], seqNo)
  }

  function RequestsTurn(rs: seq<Request>, seqNo: int): (r: seq<Request>)
    ensures |r| == |rs|
  {
    seq(|rs|, f requires 0 <= f < |rs| => RequestTurn(rs[f], seqNo))
  }

  function DeferredFlush(st: State): State {
    State(st.local.(blockNeeded := st.local.blockNeeded || SomeDrops(st.shared.requests, st.local.seqNo)),
          st.shared.(requests := RequestsTurn(st.shared.requests, st.local.seqNo)))
  }

  function FlushSection(st: State): State {
    DeferredFlush(ImmediateFlush(st))
  }

  /** Timestamps are 32 bits wide; differences are signed. */
  function TimestampDifference(l: Local): int {
    if l.packetsPlayed == 0 then 0 else Wrap32(l.timestamp - l.expectedTimestamp)
  }

  /** A block is skipped if it starts more than its own length before the expected time. The absolute value of the
      smallest int32_t is not representable; as a size_t it is larger than any block. */
  predicate TooOld(l: Local) {
    TimestampDifference(l) < 0 && -TimestampDifference(l) > SsrcBlockLength(l.ssrc)
  }

  /** Whether this turn gives the held block to the player. */
  predicate HandsOver(l: Local, i: Input) {
    && !l.blockNeeded && i.haveValidTime && l.playEnabled && i.dueSoon
    && (l.packetsPlayed == 0 || i.afterPrevious)
    && SsrcIsRecognised(l.ssrc) && i.inTime && i.deciphered && !TooOld(l)
  }

  function PacketOf(l: Local): Packet {
    var gap := TimestampDifference(l);
    Packet(l.numberForPlayer, l.timestamp, l.ssrc, SsrcIsAac(l.ssrc) && (l.packetsPlayed == 0 || gap != 0), gap)
  }

  function HandOver(l: Local, i: Input): Local {
    if l.blockNeeded || !i.haveValidTime || !l.playEnabled || !i.dueSoon then l
    else if HandsOver(l, i) then
      l.(numberForPlayer := (l.numberForPlayer + 1) % 0x1_0000,
         expectedTimestamp := (l.timestamp + i.packetSize) % 0x1_0000_0000,
         packetsPlayed := l.packetsPlayed + 1,
         blockNeeded := true)
    else l.(blockNeeded := true)
  }

  /** The state in which the turn's hand-over is decided. */
  function BeforeHandOver(st: State, i: Input): State {
    var l := ReadBlock(PlayEdges(st.local, i), i);
    if l.finished then State(l, st.shared) else FlushSection(State(l, st.shared))
  }

  function Turn(st: State, i: Input): State {
    if st.local.finished then st
    else
      var m := BeforeHandOver(st, i);
      if m.local.finished then m else State(HandOver(m.local, i), m.shared)
  }

  function Sent(st: State, i: Input): Option<Packet> {
    if st.local.finished then None
    else
      var m := BeforeHandOver(st, i);
      if !m.local.finished && HandsOver(m.local, i) then Some(PacketOf(m.local)) else None
  }

  // ----- the RTSP thread -----

  /** The first record that is not in use, if there is one. */
  function FirstFree(rs: seq<Request>): (f: nat)
    ensures f <= |rs|
    ensures forall k :: 0 <= k < f ==> rs[k].inUse
    ensures f < |rs| ==> !rs[f].inUse
  {
    if rs == [] || !rs[0].inUse then 0 else FirstFree(rs[1..]) + 1
  }

  function Install(s: Shared, fromSeq: int, untilSeq: int): Shared {
    var f := FirstFree(s.requests);
    if f < |s.requests|
    then s.(requests := s.requests[f := Request(true, false, fromSeq % SEQ_RANGE, untilSeq % SEQ_RANGE)])
    else s
  }

  function RequestImmediate(s: Shared, untilSeq: int): Shared {
    s.(immediateRequested := true, immediateUntil := untilSeq % SEQ_RANGE)
  }

  // ----- runs -----

  datatype Action =
    | Play(input: Input)
    | Defer(fromSeq: int, untilSeq: int)
    | Immediate(untilSeq: int)

  function Next(st: State, a: Action): State {
    match a
    case Play(i) => Turn(st, i)
    case Defer(fromSeq, untilSeq) => st.(shared := Install(st.shared, fromSeq, untilSeq))
    case Immediate(untilSeq) => st.(shared := RequestImmediate(st.shared, untilSeq))
  }

  /** A run: turns of the processor with any number of RTSP requests in between. */
  ghost predicate IsRun(run: seq<State>, actions: seq<Action>) {
    && |run| == |actions| + 1
    && run[0] == InitialState()
    && forall k :: 0 <= k < |actions| ==> run[k + 1] == Next(run[k], actions[k])
  }
}

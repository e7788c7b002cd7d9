/** Which blocks become packets and what the packets say, told from what went in and came out before. */
module PacketContents {
  import opened Words
  import opened Wrappers
  import opened BufferedAudio
  import opened FlushTheorems

  /** Seen from outside: where the last packet since the last stop ended, and the last block that was read. */
  datatype Heard = Heard(end: Option<int>, block: Option<Block>)

  /** As it stands when the turn decides about its packet. */
  function HeardAtSend(h: Heard, st: State, i: Input): Heard {
    if st.local.finished then h
    else
      Heard(if StopEdge(st, i) then None else h.end, if BlockArrives(st, i) then i.block else h.block)
  }

  function NextHeard(h: Heard, st: State, a: Action): Heard {
    match a
    case Play(i) =>
      var h1 := HeardAtSend(h, st, i);
      if Sent(st, i).Some? then h1.(end := Some((Sent(st, i).value.timestamp + i.packetSize) % 0x1_0000_0000)) else h1
    case _ => h
  }

  function HeardOf(run: seq<State>, actions: seq<Action>, k: nat): Heard
    requires |run| == |actions| + 1 && k < |run|
  {
    if k == 0 then Heard(None, None) else NextHeard(HeardOf(run, actions, k - 1), run[k - 1], actions[k - 1])
  }

  predicate HeardMatches(h: Heard, l: Local) {
    && (h.end.None? <==> l.packetsPlayed == 0)
    && (h.end.Some? ==> l.expectedTimestamp == h.end.value)
    && (h.block.None? ==> l.blocksRead == 0)
    && (h.block.Some? ==> l.timestamp == h.block.value.timestamp && l.ssrc == h.block.value.ssrc)
  }

  lemma ReadKeepsHeard(h: Heard, st: State, i: Input)
    requires HeardMatches(h, st.local) && !st.local.finished
    ensures HeardMatches(HeardAtSend(h, st, i), ReadBlock(PlayEdges(st.local, i), i))
  {
  }

  lemma SendKeepsHeard(h: Heard, l: Local, i: Input)
    requires HeardMatches(h, l)
    ensures
      var h' := if HandsOver(l, i) then h.(end := Some((l.timestamp + i.packetSize) % 0x1_0000_0000)) else h;
      HeardMatches(h', HandOver(l, i))
  {
    hide TooOld, SsrcIsRecognised;
  }

  lemma TurnKeepsHeard(h: Heard, st: State, i: Input)
    requires HeardMatches(h, st.local)
    ensures HeardMatches(NextHeard(h, st, Play(i)), Turn(st, i).local)
  {
    hide FlushSection, HandsOver, HandOver, HeardMatches, HeardAtSend, StopEdge, BlockArrives;
    if !st.local.finished {
      var l := ReadBlock(PlayEdges(st.local, i), i);
      ReadKeepsHeard(h, st, i);
      SectionFrame(State(l, st.shared));
      var m := BeforeHandOver(st, i);
      FlagsKeepHeard(HeardAtSend(h, st, i), l, m.local.blockNeeded, m.local.flushing);
      SendKeepsHeard(HeardAtSend(h, st, i), m.local, i);
    } else {
      NothingHeard(h, st, i);
    }
  }

  lemma NothingHeard(h: Heard, st: State, i: Input)
    requires st.local.finished
    ensures HeardAtSend(h, st, i) == h
  {
  }

  lemma FlagsKeepHeard(h: Heard, l: Local, blockNeeded: bool, flushing: bool)
    requires HeardMatches(h, l)
    ensures HeardMatches(h, l.(blockNeeded := blockNeeded, flushing := flushing))
  {
  }

  lemma {:induction false} RunHeard(run: seq<State>, actions: seq<Action>, k: nat)
    requires IsRun(run, actions) && k < |run|
    ensures HeardMatches(HeardOf(run, actions, k), run[k].local)
  {
    hide Turn, HeardMatches, Install, NextHeard;
    if k == 0 {
      InitHeard();
    } else {
      RunHeard(run, actions, k - 1);
      assert run[k] == Next(run[k - 1], actions[k - 1]);
      match actions[k - 1] {
        case Play(i) => TurnKeepsHeard(HeardOf(run, actions, k - 1), run[k - 1], i);
        case _ => OthersAreNotHeard(HeardOf(run, actions, k - 1), run[k - 1], actions[k - 1]);
      }
    }
  }

  lemma InitHeard()
    ensures HeardMatches(Heard(None, None), InitialState().local)
  {
  }

  lemma OthersAreNotHeard(h: Heard, st: State, a: Action)
    requires !a.Play?
    ensures NextHeard(h, st, a) == h && Next(st, a).local == st.local
  {
    hide Install;
  }

  /** How far, on the circle of 32-bit timestamps, a block lies behind the end of the last packet. */
  function Behind(end: int, timestamp: int): int {
    (end - timestamp) % 0x1_0000_0000
  }

  lemma GapIsBehind(end: int, timestamp: int)
    ensures
      var gap, behind := Wrap32(timestamp - end), Behind(end, timestamp);
      gap == if behind <= 0x8000_0000 then -behind else 0x1_0000_0000 - behind
  {
    Pow2Values();
    var behind := Behind(end, timestamp);
    DivModIdentity(end - timestamp, 0x1_0000_0000);
    var q := (end - timestamp) / 0x1_0000_0000;
    var gap := if behind <= 0x8000_0000 then -behind else 0x1_0000_0000 - behind;
    CongruentBy(timestamp - end, gap, 32, if behind <= 0x8000_0000 then -q else -q - 1);
    SignedUnique(timestamp - end, gap, 32);
  }

  /** 352 frames of the two ALAC streams, 1024 of the four AAC ones; no other stream is played. */
  predicate Plays(ssrc: int, aac: bool, length: nat) {
    if aac then
      ssrc in {AAC_44100_F24_2, AAC_48000_F24_2, AAC_48000_F24_5P1, AAC_48000_F24_7P1} && length == 1024
    else
      ssrc in {ALAC_44100_S16_2, ALAC_48000_S24_2} && length == 352
  }

  lemma KindOfStream(ssrc: int, aac: bool, length: nat)
    ensures Plays(ssrc, aac, length) <==>
            SsrcIsRecognised(ssrc) && SsrcIsAac(ssrc) == aac && SsrcBlockLength(ssrc) == length
  {
  }

  lemma HandOverFrom(h: Heard, l: Local, i: Input, aac: bool, length: nat)
    requires HeardMatches(h, l) && Plays(l.ssrc, aac, length)
    ensures HandsOver(l, i) <==>
            && !l.blockNeeded && i.haveValidTime && l.playEnabled && i.dueSoon && i.inTime && i.deciphered
            && (h.end.Some? ==> i.afterPrevious && !(length < Behind(h.end.value, l.timestamp) <= 0x8000_0000))
    ensures !l.blockNeeded ==> (HandOver(l, i).blockNeeded <==> i.haveValidTime && l.playEnabled && i.dueSoon)
    ensures PacketOf(l).mute <==> aac && (h.end.None? || Behind(h.end.value, l.timestamp) != 0)
    ensures h.end.None? ==> PacketOf(l).gap == 0
    ensures h.end.Some? ==>
              var behind := Behind(h.end.value, l.timestamp);
              PacketOf(l).gap == if behind <= 0x8000_0000 then -behind else 0x1_0000_0000 - behind
  {
    hide Wrap32, SsrcBlockLength, SsrcIsAac, SsrcIsRecognised, Plays, Behind;
    KindOfStream(l.ssrc, aac, length);
    if h.end.Some? {
      GapIsBehind(h.end.value, l.timestamp);
      BehindRange(h.end.value, l.timestamp);
    }
  }

  lemma BehindRange(end: int, timestamp: int)
    ensures 0 <= Behind(end, timestamp) < 0x1_0000_0000
  {
  }

  /** The whole hand-over, in every turn of every run that does not end the loop. The block held after the flush
      section is the last one read. It is sent if play is on, its time has come and is known, it can be deciphered and
      its stream is played, and it neither plays before the last packet nor lies more than its own length, and up to
      half the circle, behind its end. The packet carries its timestamp and stream; it is muted if it is AAC and the
      first since the last stop or not continuing the last one; and it says how far it lies from where the last one
      ended. A block that is not yet due, or has no time yet, or comes while play is off, is held for the next turn,
      and no other is. */
  lemma PacketExact(run: seq<State>, actions: seq<Action>, k: nat, aac: bool, length: nat)
    requires IsRun(run, actions) && k < |actions| && actions[k].Play?
    requires !BeforeHandOver(run[k], actions[k].input).local.finished
    ensures
      var st, i := run[k], actions[k].input;
      var h, l := HeardAtSend(HeardOf(run, actions, k), st, i), BeforeHandOver(st, i).local;
      !l.blockNeeded && h.block.Some? && Plays(h.block.value.ssrc, aac, length) ==>
        && (Sent(st, i).Some? <==>
              && i.haveValidTime && i.playKept && i.dueSoon && i.inTime && i.deciphered
              && (h.end.Some? ==>
                    i.afterPrevious && !(length < Behind(h.end.value, h.block.value.timestamp) <= 0x8000_0000)))
        && (run[k + 1].local.blockNeeded <==> i.haveValidTime && i.playKept && i.dueSoon)
        && (Sent(st, i).Some? ==>
              var p := Sent(st, i).value;
              && p.timestamp == h.block.value.timestamp && p.ssrc == h.block.value.ssrc
              && (p.mute <==> aac && (h.end.None? || Behind(h.end.value, p.timestamp) != 0))
              && (h.end.None? ==> p.gap == 0)
              && (h.end.Some? ==>
                    var behind := Behind(h.end.value, p.timestamp);
                    p.gap == if behind <= 0x8000_0000 then -behind else 0x1_0000_0000 - behind))
    ensures
      var st, i := run[k], actions[k].input;
      var h := HeardAtSend(HeardOf(run, actions, k), st, i);
      Sent(st, i).Some? ==>
        && !BeforeHandOver(st, i).local.blockNeeded && h.block.Some?
        && exists aac, length :: Plays(h.block.value.ssrc, aac, length)
  {
    hide FlushSection, HandsOver, HandOver, HeardAtSend, StopEdge, BlockArrives, Plays, TimestampDifference, Behind,
      Inv, SsrcIsRecognised;
    var st, i := run[k], actions[k].input;
    RunHeard(run, actions, k);
    RunInv(run, actions, k);
    assert run[k + 1] == Next(st, actions[k]) == Turn(st, i);
    if !st.local.finished {
      var h := HeardAtSend(HeardOf(run, actions, k), st, i);
      var l := ReadBlock(PlayEdges(st.local, i), i);
      ReadKeepsHeard(HeardOf(run, actions, k), st, i);
      SectionFrame(State(l, st.shared));
      var m := BeforeHandOver(st, i).local;
      FlagsKeepHeard(h, l, m.blockNeeded, m.flushing);
      PlayFlag(st, i);
      if Plays(m.ssrc, aac, length) {
        HandOverFrom(h, m, i, aac, length);
      }
      if Sent(st, i).Some? {
        SentMeansRead(st, i);
        SentIsPlayed(m, i);
      }
    }
  }

  lemma PlayFlag(st: State, i: Input)
    ensures ReadBlock(PlayEdges(st.local, i), i).playEnabled == i.playKept
  {
  }

  lemma SentIsPlayed(l: Local, i: Input)
    requires HandsOver(l, i)
    ensures !l.blockNeeded && Plays(l.ssrc, SsrcIsAac(l.ssrc), SsrcBlockLength(l.ssrc))
  {
    KindOfStream(l.ssrc, SsrcIsAac(l.ssrc), SsrcBlockLength(l.ssrc));
  }
}

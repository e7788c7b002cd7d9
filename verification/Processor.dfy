/** The buffered-audio loop with its variables updated in place, and the RTSP thread's flush requests. */
module Processor {
  import opened Words
  import opened Wrappers
  import B = BufferedAudio

  class Processor {
    var playEnabled: bool
    var blockNeeded: bool
    var seqNo: int
    var timestamp: int
    var ssrc: int
    var numberForPlayer: int
    var expectedTimestamp: int
    var blocksRead: nat
    var blocksSincePlayBegan: nat
    var packetsPlayed: nat
    var flushing: bool
    var finished: bool

    // shared with the RTSP thread under the flush mutex
    var immediateRequested: bool
    var immediateUntil: int
    const requests: array<B.Request>

    ghost function LocalState(): B.Local
      reads this
    {
      B.Local(playEnabled, blockNeeded, seqNo, timestamp, ssrc, numberForPlayer, expectedTimestamp, blocksRead,
              blocksSincePlayBegan, packetsPlayed, flushing, finished)
    }

    ghost function SharedState(): B.Shared
      reads this, requests
    {
      B.Shared(immediateRequested, immediateUntil, requests[..])
    }

    ghost function State(): B.State
      reads this, requests
    {
      B.State(LocalState(), SharedState())
    }

    constructor ()
      ensures State() == B.InitialState() && fresh(requests)
    {
      playEnabled, blockNeeded, flushing, finished := false, false, false, false;
      seqNo, timestamp, ssrc, numberForPlayer, expectedTimestamp := 0, 0, B.SSRC_NONE, 0, 0;
      blocksRead, blocksSincePlayBegan, packetsPlayed := 0, 0, 0;
      immediateRequested, immediateUntil := false, 0;
      requests := new B.Request[B.MAX_DEFERRED_FLUSH_REQUESTS](_ => B.Request(false, false, 0, 0));
      new;
      assert requests[..] == B.InitialState().shared.requests;
    }

    /** An immediate flush turns every deferred request off when it ends. */
    method CancelRequests()
      modifies requests
      ensures requests[..] == B.CancelAll(old(requests[..]))
    {
      ghost var before := requests[..];
      var f := 0;
      while f < requests.Length
        invariant f <= requests.Length
        invariant requests[..f] == B.CancelAll(before[..f]) && requests[f..] == before[f..]
      {
        ghost var done := requests[..f];
        requests[f] := requests[f].(inUse := false, active := false);
        assert requests[..f + 1] == done + [requests[f]];
        f := f + 1;
      }
      assert before[..f] == before && requests[..f] == requests[..];
    }

    method ImmediateSection()
      modifies this`flushing, this`blockNeeded, this`immediateRequested, requests
      ensures State() == B.ImmediateFlush(old(State()))
    {
      if blocksRead != 0 && immediateRequested {
        if B.AMinusBMod23(seqNo, immediateUntil) >= 0 {
          immediateRequested := false;
          flushing := false;
          CancelRequests();
        } else {
          flushing := true;
          blockNeeded := true;
        }
      }
    }

    /** The body of that loop for one request. */
    method OneRequest(f: nat)
      requires f < requests.Length
      modifies this`blockNeeded, requests
      ensures requests[..] == old(requests[..])[f := B.RequestTurn(old(requests[f]), seqNo)]
      ensures blockNeeded == (old(blockNeeded) || B.RequestDrops(old(requests[f]), seqNo))
    {
      if requests[f].inUse {
        if requests[f].fromSeq == seqNo && requests[f].untilSeq != seqNo {
          requests[f] := requests[f].(active := true);
          blockNeeded := true;
        }
        if requests[f].untilSeq == seqNo {
          requests[f] := requests[f].(active := false, inUse := false);
        } else if B.AMinusBMod23(seqNo, requests[f].untilSeq) > 0 {
          requests[f] := requests[f].(active := false, inUse := false);
        } else if requests[f].active {
          blockNeeded := true;
        }
      }
    }

    /** The loop over the deferred requests. */
    method DeferredSection()
      modifies this`blockNeeded, requests
      ensures State() == B.DeferredFlush(old(State()))
    {
      hide B.SomeDrops, B.RequestTurn, B.RequestDrops;
      ghost var before := requests[..];
      ghost var needed := blockNeeded;
      NoneDrop(seqNo);
      var f := 0;
      while f < requests.Length
        invariant f <= requests.Length
        invariant forall k :: 0 <= k < f ==> requests[k] == B.RequestTurn(before[k], seqNo)
        invariant forall k :: f <= k < requests.Length ==> requests[k] == before[k]
        invariant blockNeeded == (needed || B.SomeDrops(before[..f], seqNo))
      {
        SomeDropsSnoc(before, f, seqNo);
        ghost var now := requests[..];
        OneRequest(f);
        assert forall k :: 0 <= k < |now| ==>
                 && requests[k] == requests[..][k]
                 && now[k] == (if k < f then B.RequestTurn(before[k], seqNo) else before[k]);
        f := f + 1;
      }
      assert before[..f] == before;
      assert requests[..] == B.RequestsTurn(before, seqNo);
    }

    /** From the held block to the player, if it is due. */
    method HandOverBlock(i: B.Input) returns (sent: Option<B.Packet>)
      modifies this`numberForPlayer, this`expectedTimestamp, this`packetsPlayed, this`blockNeeded
      ensures LocalState() == B.HandOver(old(LocalState()), i)
      ensures sent == if B.HandsOver(old(LocalState()), i) then Some(B.PacketOf(old(LocalState()))) else None
    {
      sent := None;
      if !blockNeeded && i.haveValidTime && playEnabled && i.dueSoon {
        if (packetsPlayed == 0 || i.afterPrevious) && B.SsrcIsRecognised(ssrc) && i.inTime && i.deciphered {
          var mute := packetsPlayed == 0 && B.SsrcIsAac(ssrc);
          var timestampDifference := 0;
          if packetsPlayed != 0 {
            timestampDifference := Wrap32(timestamp - expectedTimestamp);
            if timestampDifference != 0 && B.SsrcIsAac(ssrc) {
              mute := true;
            }
          }
          var skip := timestampDifference < 0 && -timestampDifference > B.SsrcBlockLength(ssrc);
          if !skip {
            sent := Some(B.Packet(numberForPlayer, timestamp, ssrc, mute, timestampDifference));
            numberForPlayer := (numberForPlayer + 1) % 0x1_0000;
            expectedTimestamp := (timestamp + i.packetSize) % 0x1_0000_0000;
            packetsPlayed := packetsPlayed + 1;
          }
        }
        blockNeeded := true;
      }
    }

    method Edges(i: B.Input)
      modifies this`playEnabled, this`blockNeeded, this`blocksSincePlayBegan, this`packetsPlayed
      ensures LocalState() == B.PlayEdges(old(LocalState()), i)
    {
      if !playEnabled && i.playAtStart {
        blockNeeded := true;
        blocksSincePlayBegan := 0;
      }
      if playEnabled && !i.playAtStop {
        packetsPlayed := 0;
      }
      playEnabled := i.playKept;
    }

    /** A new block, if one is needed. */
    method Read(i: B.Input)
      modifies this`blockNeeded, this`seqNo, this`timestamp, this`ssrc, this`numberForPlayer
      modifies this`blocksRead, this`blocksSincePlayBegan, this`finished
      ensures LocalState() == B.ReadBlock(old(LocalState()), i)
    {
      if blockNeeded {
        if i.block.Some? {
          var block := i.block.value;
          blocksRead := blocksRead + 1;
          blocksSincePlayBegan := blocksSincePlayBegan + 1;
          seqNo := block.seqNo % B.SEQ_RANGE;
          timestamp := block.timestamp;
          ssrc := block.ssrc;
          if blocksSincePlayBegan == 1 {
            numberForPlayer := seqNo % 0x1_0000;
          }
          blockNeeded := false;
        } else {
          finished := true;
        }
      }
    }

    /** One turn of the loop. */
    method Turn(i: B.Input) returns (sent: Option<B.Packet>)
      modifies this, requests
      ensures State() == B.Turn(old(State()), i)
      ensures sent == B.Sent(old(State()), i)
    {
      hide B.HandOver, B.HandsOver, B.ReadBlock, B.PlayEdges, B.ImmediateFlush, B.DeferredFlush;
      sent := None;
      if !finished {
        SectionKeepsFinished(B.State(B.ReadBlock(B.PlayEdges(LocalState(), i), i), SharedState()));
        Edges(i);
        Read(i);
        if !finished {
          ImmediateSection();
          DeferredSection();
          sent := HandOverBlock(i);
        }
      }
    }

    /** FLUSHBUFFERED with a starting point: record it in the first free record, if there is one. */
    method DeferFlush(fromSeq: int, untilSeq: int)
      modifies requests
      ensures State() == B.Next(old(State()), B.Defer(fromSeq, untilSeq))
    {
      ghost var before := requests[..];
      var i := 0;
      while i < requests.Length && requests[i].inUse
        invariant i <= requests.Length
        invariant B.FirstFree(before) == i + B.FirstFree(before[i..])
      {
        assert before[i] == requests[i] && before[i..][1..] == before[i + 1..];
        i := i + 1;
      }
      if i < requests.Length {
        assert before[i..][0] == requests[i];
        requests[i] := B.Request(true, false, fromSeq % B.SEQ_RANGE, untilSeq % B.SEQ_RANGE);
        assert requests[..] == before[i := requests[i]];
      }
    }

    /** FLUSHBUFFERED without a starting point. */
    method FlushNow(untilSeq: int)
      modifies this`immediateRequested, this`immediateUntil
      ensures State() == B.Next(old(State()), B.Immediate(untilSeq))
    {
      immediateRequested := true;
      immediateUntil := untilSeq % B.SEQ_RANGE;
    }
  }

  lemma NoneDrop(seqNo: int)
    ensures !B.SomeDrops([], seqNo)
  {
  }

  lemma SomeDropsSnoc(rs: seq<B.Request>, f: nat, seqNo: int)
    requires f < |rs|
    ensures B.SomeDrops(rs[..f + 1], seqNo) <==> B.SomeDrops(rs[..f], seqNo) || B.RequestDrops(rs[f], seqNo)
  {
    hide B.RequestDrops;
    assert forall k :: 0 <= k < f ==> rs[..f + 1][k] == rs[..f][k];
    assert rs[..f + 1][f] == rs[f];
    if B.RequestDrops(rs[f], seqNo) {
      assert B.RequestDrops(rs[..f + 1][f], seqNo);
    }
    if B.SomeDrops(rs[..f], seqNo) {
      var k :| 0 <= k < f && B.RequestDrops(rs[..f][k], seqNo);
      assert B.RequestDrops(rs[..f + 1][k], seqNo);
    }
  }

  lemma SectionKeepsFinished(st: B.State)
    ensures B.FlushSection(st).local.finished == st.local.finished
  {
    hide B.SomeDrops, B.AMinusBMod23;
  }
}

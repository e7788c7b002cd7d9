/** The PipeWire and PulseAudio back ends' byte queues, with their offsets and buffer changed in place. */
module AudioBackends {
  import opened Words
  import R = Ring

  /** memcpy into the buffer. */
  method CopyIn(buffer: array<Byte>, at: nat, data: seq<Byte>)
    requires at + |data| <= buffer.Length
    modifies buffer
    ensures buffer[..] == R.Write(old(buffer[..]), at, data)
  {
    forall i | 0 <= i < |data| {
      buffer[at + i] := data[i];
    }
  }

  /** Queue the first n bytes of data behind eoq, in one piece or in two. */
  method Enter(buffer: array<Byte>, eoq: nat, data: seq<Byte>, n: nat) returns (newEoq: nat)
    requires eoq <= buffer.Length && n <= |data| && n <= buffer.Length
    modifies buffer
    ensures var space := buffer.Length - eoq;
      if n <= space
      then buffer[..] == R.Write(old(buffer[..]), eoq, data[..n]) && newEoq == eoq + n
      else buffer[..] == R.Write(R.Write(old(buffer[..]), eoq, data[..space]), 0, data[space..n]) && newEoq == n - space
  {
    hide R.Write;
    var spaceToEnd := buffer.Length - eoq;
    if spaceToEnd >= n {
      CopyIn(buffer, eoq, data[..n]);
      newEoq := eoq + n;
    } else {
      CopyIn(buffer, eoq, data[..spaceToEnd]);
      CopyIn(buffer, 0, data[spaceToEnd..n]);
      newEoq := n - spaceToEnd;
    }
  }

  /** The n bytes at toq, in one piece or in two, and where toq moves. */
  method Leave(buffer: array<Byte>, toq: nat, n: nat) returns (piece: seq<Byte>, newToq: nat)
    requires toq <= buffer.Length && n <= buffer.Length
    ensures var toEnd := buffer.Length - toq;
      if n <= toEnd then piece == buffer[toq..toq + n] && newToq == toq + n
      else piece == buffer[toq..] + buffer[..n - toEnd] && newToq == n - toEnd
  {
    if n <= buffer.Length - toq {
      piece := buffer[toq..toq + n];
      newToq := toq + n;
    } else {
      var firstPortion := buffer.Length - toq;
      piece := buffer[toq..] + buffer[..n - firstPortion];
      newToq := n - firstPortion;
    }
  }

  class PipeWireOutput {
    const buffer: array<Byte>
    const stride: nat
    var toq: nat
    var eoq: nat
    var occupancy: nat
    var enableFill: bool

    ghost function Ring(): R.Ring
      reads this, buffer
    {
      R.Ring(buffer[..], toq, eoq, occupancy)
    }

    ghost predicate Valid()
      reads this, buffer
    {
      stride >= 1 && Ring().Valid() && R.Aligned(stride, Ring())
    }

    constructor (frames: nat, bytesPerFrame: nat)
      requires bytesPerFrame >= 1
      ensures Valid() && fresh(buffer) && stride == bytesPerFrame && Ring().Contents() == []
    {
      buffer := new Byte[frames * bytesPerFrame](_ => 0);
      stride := bytesPerFrame;
      toq, eoq, occupancy, enableFill := 0, 0, 0, false;
      new;
      FramesAreWhole(frames, bytesPerFrame);
      R.ZeroWhole(bytesPerFrame);
    }

    /** play: queue as many whole frames as there is room for. */
    method Play(data: seq<Byte>)
      requires Valid() && R.Whole(stride, |data|)
      modifies this`eoq, this`occupancy, buffer
      ensures Valid() && Ring() == R.Accept(old(Ring()), data)
      ensures Ring().Contents() == old(Ring().Contents()) + data[..R.Taken(old(Ring()), |data|)]
    {
      hide R.Whole, R.Write;
      R.AcceptAppends(Ring(), data);
      AcceptAligned(stride, Ring(), data);
      var bytesToTransfer := |data|;
      var bytesAvailable := buffer.Length - occupancy;
      if bytesAvailable < bytesToTransfer {
        bytesToTransfer := bytesAvailable;
      }
      if bytesToTransfer > 0 {
        eoq := Enter(buffer, eoq, data, bytesToTransfer);
        occupancy := occupancy + bytesToTransfer;
      }
    }

    /** One transfer of whole frames out of the ring. */
    method TakeOut(n: nat) returns (piece: seq<Byte>)
      requires Valid() && n <= occupancy && R.Whole(stride, n)
      modifies this`toq, this`occupancy
      ensures Valid() && Ring() == R.Release(old(Ring()), n)
      ensures piece == old(Ring().Contents())[..n] && Ring().Contents() == old(Ring().Contents())[n..]
    {
      hide R.Whole;
      R.ReleaseDrops(Ring(), n);
      ReleaseAligned(stride, Ring(), n);
      piece, toq := Leave(buffer, toq, n);
      occupancy := occupancy - n;
    }

    /** on_process: hand out whole frames from the queue, or silence while it is filling. What goes into the device's
        buffer is returned; nothing if no buffer is taken from the stream. */
    method OnProcess(requestedFrames: nat, maxSize: nat) returns (dest: seq<Byte>)
      requires Valid()
      modifies this`toq, this`occupancy, this`enableFill
      ensures Valid() && R.Whole(stride, |dest|)
      ensures old(occupancy) > 0 ==>
                && |dest| == (if old(occupancy) <= OfferedBytes(requestedFrames, maxSize) then old(occupancy)
                              else OfferedBytes(requestedFrames, maxSize))
                && dest == old(Ring().Contents())[..|dest|]
                && Ring() == R.Release(old(Ring()), |dest|)
                && Ring().Contents() == old(Ring().Contents())[|dest|..]
                && !enableFill
      ensures old(occupancy) == 0 ==>
                && Ring() == old(Ring()) && enableFill == old(enableFill)
                && |dest| == (if enableFill then OfferedBytes(requestedFrames, maxSize) else 0)
                && forall i :: 0 <= i < |dest| ==> dest[i] == 0
    {
      hide R.Whole, R.Release;
      R.ZeroWhole(stride);
      dest := [];
      if occupancy > 0 || enableFill {
        var maxPossibleFrames := if requestedFrames <= maxSize / stride then requestedFrames else maxSize / stride;
        var bytesWeCanTransfer := maxPossibleFrames * stride;
        FramesAreWhole(maxPossibleFrames, stride);
        if occupancy > 0 {
          enableFill := false;
          if bytesWeCanTransfer > occupancy {
            bytesWeCanTransfer := occupancy;
          }
          dest := TakeOut(bytesWeCanTransfer);
        } else {
          dest := seq(bytesWeCanTransfer, _ => 0);
        }
      }
    }

    /** The smaller of what is requested and what the device's buffer holds, in whole frames. */
    function OfferedBytes(requestedFrames: nat, maxSize: nat): nat
      requires stride >= 1
    {
      (if requestedFrames <= maxSize / stride then requestedFrames else maxSize / stride) * stride
    }

    /** It is the greatest number of whole frames' bytes that neither the request nor the device's buffer forbids. */
    lemma OfferedIsGreatest(requestedFrames: nat, maxSize: nat, n: nat)
      requires stride >= 1
      ensures
        var offered := OfferedBytes(requestedFrames, maxSize);
        && R.Whole(stride, offered) && offered <= requestedFrames * stride && offered <= maxSize
        && (R.Whole(stride, n) && n <= requestedFrames * stride && n <= maxSize ==> n <= offered)
    {
      var frames := if requestedFrames <= maxSize / stride then requestedFrames else maxSize / stride;
      FramesAreWhole(frames, stride);
      FramesAtMost(frames, requestedFrames, stride);
      DivModIdentity(maxSize, stride);
      FramesAtMost(frames, maxSize / stride, stride);
      if R.Whole(stride, n) && n <= requestedFrames * stride && n <= maxSize {
        WholeAtMost(n, requestedFrames, maxSize, stride);
        FramesAtMost(n / stride, frames, stride);
      }
    }

    method Flush()
      requires Valid()
      modifies this`toq, this`eoq, this`occupancy, this`enableFill
      ensures Valid() && Ring() == R.Reset(old(Ring())) && Ring().Contents() == [] && enableFill
    {
      R.ZeroWhole(stride);
      toq, eoq, occupancy, enableFill := 0, 0, 0, true;
    }

    method Stop()
      requires Valid()
      modifies this`toq, this`eoq, this`occupancy
      ensures Valid() && Ring() == R.Reset(old(Ring())) && Ring().Contents() == []
    {
      R.ZeroWhole(stride);
      toq, eoq, occupancy := 0, 0, 0;
    }
  }

  lemma FramesAtMost(frames: nat, limit: nat, stride: nat)
    requires frames <= limit
    ensures frames * stride <= limit * stride
  {
  }

  lemma WholeAtMost(n: nat, frames: nat, size: nat, stride: nat)
    requires stride >= 1 && R.Whole(stride, n)
    ensures n == n / stride * stride
    ensures n <= frames * stride ==> n / stride <= frames
    ensures n <= size ==> n / stride <= size / stride
  {
    DivModIdentity(n, stride);
    DivModIdentity(size, stride);
    if n / stride > frames {
      MulLess(frames, n / stride, stride);
    }
    if n / stride > size / stride {
      MulLess(size / stride, n / stride, stride);
    }
  }

  lemma FramesAreWhole(frames: nat, stride: nat)
    requires stride >= 1
    ensures R.Whole(stride, frames * stride)
  {
    DivModUnique(frames * stride, stride, frames, 0);
  }

  lemma AcceptAligned(stride: nat, r: R.Ring, data: seq<Byte>)
    requires stride >= 1 && r.Valid() && R.Aligned(stride, r) && R.Whole(stride, |data|)
    ensures R.Aligned(stride, R.Accept(r, data))
  {
    hide R.Accept, R.Aligned, R.Whole;
    R.StepAligned(stride, StateOf(r), R.Play(data));
  }

  lemma ReleaseAligned(stride: nat, r: R.Ring, n: nat)
    requires stride >= 1 && r.Valid() && n <= r.occupancy && R.Aligned(stride, r) && R.Whole(stride, n)
    ensures R.Aligned(stride, R.Release(r, n))
  {
    hide R.Release, R.Front, R.Aligned, R.Whole;
    R.StepAligned(stride, StateOf(r), R.Consume(n));
  }

  /** Any valid ring, as it might have come about. */
  ghost function StateOf(r: R.Ring): (st: R.State)
    requires r.Valid()
    ensures R.Conserved(st) && st.ring == r
  {
    R.State(r, R.Log(r.Contents(), [], r.occupancy, 0, 0))
  }

  /** What PulseAudio answers in one turn of the callback: whether the call went through, how much of what was asked for
      the buffer holds, 0 also if there is no buffer, and whether the write went through. */
  datatype Offer = Offer(beginOk: bool, size: nat, writeOk: bool) {

    /** The turn either passes something on or ends the loop. */
    predicate Progresses() {
      size >= 1 || !beginOk || !writeOk
    }
  }

  ghost predicate ProgressFrom(offers: nat -> Offer, k: nat) {
    exists j: nat :: j >= k && offers(j).Progresses()
  }

  class PulseAudioOutput {
    const buffer: array<Byte>
    var toq: nat
    var eoq: nat
    var occupancy: nat

    ghost function Ring(): R.Ring
      reads this, buffer
    {
      R.Ring(buffer[..], toq, eoq, occupancy)
    }

    constructor (size: nat)
      ensures Ring().Valid() && fresh(buffer) && Ring().Contents() == []
    {
      buffer := new Byte[size](_ => 0);
      toq, eoq, occupancy := 0, 0, 0;
    }

    /** play. */
    method Play(data: seq<Byte>)
      requires Ring().Valid()
      modifies this`eoq, this`occupancy, buffer
      ensures Ring().Valid() && Ring() == R.Accept(old(Ring()), data)
      ensures Ring().Contents() == old(Ring().Contents()) + data[..R.Taken(old(Ring()), |data|)]
    {
      hide R.Write;
      R.AcceptAppends(Ring(), data);
      var bytesToTransfer := |data|;
      var bytesAvailable := buffer.Length - occupancy;
      if bytesAvailable < bytesToTransfer {
        bytesToTransfer := bytesAvailable;
      }
      if bytesToTransfer > 0 {
        eoq := Enter(buffer, eoq, data, bytesToTransfer);
        occupancy := occupancy + bytesToTransfer;
      }
    }

    /** One transfer out of the ring. */
    method TakeOut(n: nat) returns (piece: seq<Byte>)
      requires Ring().Valid() && n <= occupancy
      modifies this`toq, this`occupancy
      ensures Ring() == R.Release(old(Ring()), n) && piece == R.Front(old(Ring()), n)
      ensures Ring().Valid()
      ensures piece == old(Ring().Contents())[..n] && Ring().Contents() == old(Ring().Contents())[n..]
    {
      R.ReleaseDrops(Ring(), n);
      piece, toq := Leave(buffer, toq, n);
      occupancy := occupancy - n;
    }

    /** One turn of the callback's loop: as much as is asked for, queued and offered. */
    method PassOn(asked: nat, offer: Offer) returns (piece: seq<Byte>, ok: bool)
      requires Ring().Valid() && asked >= 1 && occupancy >= 1
      modifies this`toq, this`occupancy
      ensures Ring().Valid() && |piece| <= asked && |piece| + occupancy == old(occupancy)
      ensures piece == old(Ring().Contents())[..|piece|] && Ring().Contents() == old(Ring().Contents())[|piece|..]
      ensures ok <==> offer.beginOk && offer.writeOk
      ensures ok ==> (piece == [] <==> offer.size == 0)
    {
      hide R.Release, R.Front;
      piece, ok := [], false;
      var bytesWeCanTransfer := asked;
      if occupancy < bytesWeCanTransfer {
        bytesWeCanTransfer := occupancy;
      }
      if offer.beginOk {
        if offer.size < bytesWeCanTransfer {
          bytesWeCanTransfer := offer.size;
        }
        piece := TakeOut(bytesWeCanTransfer);
        ok := offer.writeOk;
      }
    }

    /** stream_write_cb: drain the queue into the stream, in as many pieces as PulseAudio makes of it, until the request
        is met, the queue is empty or a call fails. The bytes passed on are the oldest ones, in order. Offers of nothing
        are asked for again, for as long as they last. */
    method StreamWriteCallback(requestedBytes: int, offers: nat -> Offer) returns (passedOn: seq<Byte>)
      requires Ring().Valid()
      requires forall k: nat :: ProgressFrom(offers, k)
      modifies this`toq, this`occupancy
      ensures Ring().Valid() && |passedOn| <= old(occupancy)
      ensures |passedOn| <= (if requestedBytes > 0 then requestedBytes else 0)
      ensures passedOn == old(Ring().Contents())[..|passedOn|]
      ensures Ring().Contents() == old(Ring().Contents())[|passedOn|..]
      ensures (forall k :: offers(k).beginOk && offers(k).writeOk) ==>
                |passedOn| == (if requestedBytes <= 0 then 0
                               else if requestedBytes <= old(occupancy) then requestedBytes else old(occupancy))
    {
      hide R.Ring.Contents;
      ghost var q := Ring().Contents();
      ghost var start := occupancy;
      var bytesToTransfer := requestedBytes;
      passedOn := [];
      var ok := true;
      var k: nat := 0;
      assert ProgressFrom(offers, k);
      ghost var next: nat :| next >= k && offers(next).Progresses();
      while bytesToTransfer > 0 && occupancy > 0 && ok
        invariant Ring().Valid()
        invariant |passedOn| + occupancy == start && bytesToTransfer == requestedBytes - |passedOn|
        invariant passedOn != [] ==> bytesToTransfer >= 0
        invariant passedOn == q[..|passedOn|] && Ring().Contents() == q[|passedOn|..]
        invariant (forall j :: offers(j).beginOk && offers(j).writeOk) ==> ok
        invariant k <= next && offers(next).Progresses()
        decreases occupancy, ok, next - k
      {
        ghost var done := |passedOn|;
        var piece;
        piece, ok := PassOn(bytesToTransfer, offers(k));
        PieceMoves(q, done, |piece|);
        passedOn := passedOn + piece;
        bytesToTransfer := bytesToTransfer - |piece|;
        if k == next {
          assert ProgressFrom(offers, k + 1);
          next :| next >= k + 1 && offers(next).Progresses();
        }
        k := k + 1;
      }
    }

    /** flush and stop. */
    method Reset()
      modifies this`toq, this`eoq, this`occupancy
      ensures Ring() == R.Reset(old(Ring())) && Ring().Valid() && Ring().Contents() == []
    {
      toq, eoq, occupancy := 0, 0, 0;
    }
  }

  lemma PieceMoves(q: seq<Byte>, a: nat, n: nat)
    requires a + n <= |q|
    ensures q[..a] + q[a..][..n] == q[..a + n] && q[a..][n..] == q[a + n..]
  {
  }
}

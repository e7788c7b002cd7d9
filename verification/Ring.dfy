/** The byte ring of the PipeWire and PulseAudio back ends as a value: its operations, and that it is a FIFO queue. */
module Ring {
  import opened Words

  /** The buffer, and the offsets of the top and the end of the queue from its start. Either offset may rest at the
      very end of the buffer instead of wrapping to its start. */
  datatype Ring = Ring(cells: seq<Byte>, toq: nat, eoq: nat, occupancy: nat) {

    function Size(): nat {
      |cells|
    }

    predicate Valid() {
      && toq <= Size() && eoq <= Size() && occupancy <= Size()
      && eoq == (if toq + occupancy <= Size() then toq + occupancy else toq + occupancy - Size())
    }

    /** The queued bytes, oldest first. */
    function Contents(): (s: seq<Byte>)
      requires Valid()
      ensures |s| == occupancy
    {
      if toq + occupancy <= Size() then cells[toq..toq + occupancy]
      else cells[toq..] + cells[..toq + occupancy - Size()]
    }
  }

  /** cells with data written over them from position at. */
  function Write(cells: seq<Byte>, at: nat, data: seq<Byte>): (r: seq<Byte>)
    requires at + |data| <= |cells|
    ensures |r| == |cells|
  {
    cells[..at] + data + cells[at + |data|..]
  }

  /** How much of an offer is taken: what there is room for. */
  function Taken(r: Ring, offered: nat): nat
    requires r.Valid()
  {
    if r.Size() - r.occupancy < offered then r.Size() - r.occupancy else offered
  }

  /** play: take what fits, in one piece or in two. */
  function Accept(r: Ring, data: seq<Byte>): Ring
    requires r.Valid()
  {
    var n := Taken(r, |data|);
    var space := r.Size() - r.eoq;
    if n == 0 then r
    else if space >= n then
      r.(cells := Write(r.cells, r.eoq, data[..n]), eoq := r.eoq + n, occupancy := r.occupancy + n)
    else
      r.(cells := Write(Write(r.cells, r.eoq, data[..space]), 0, data[space..n]),
         eoq := n - space, occupancy := r.occupancy + n)
  }

  /** The bytes that a transfer of n copies out, in one piece or in two. */
  function Front(r: Ring, n: nat): (s: seq<Byte>)
    requires r.Valid() && n <= r.occupancy
    ensures |s| == n
  {
    var toEnd := r.Size() - r.toq;
    if n <= toEnd then r.cells[r.toq..r.toq + n] else r.cells[r.toq..] + r.cells[..n - toEnd]
  }

  /** A transfer of n bytes to the device. */
  function Release(r: Ring, n: nat): Ring
    requires r.Valid() && n <= r.occupancy
  {
    var toEnd := r.Size() - r.toq;
    r.(toq := if n <= toEnd then r.toq + n else n - toEnd, occupancy := r.occupancy - n)
  }

  /** flush and stop. */
  function Reset(r: Ring): Ring {
    r.(toq := 0, eoq := 0, occupancy := 0)
  }

  // ----- one operation -----

  /** play appends what it takes. */
  lemma AcceptAppends(r: Ring, data: seq<Byte>)
    requires r.Valid()
    ensures Accept(r, data).Valid() && Accept(r, data).Size() == r.Size()
    ensures Accept(r, data).Contents() == r.Contents() + data[..Taken(r, |data|)]
  {
    var n := Taken(r, |data|);
    var space := r.Size() - r.eoq;
    if n != 0 {
      if space >= n {
        WriteOne(r, data[..n]);
      } else {
        assert data[..n] == data[..space] + data[space..n];
        WriteTwo(r, data[..space], data[space..n]);
      }
    }
  }

  lemma WriteOne(r: Ring, piece: seq<Byte>)
    requires r.Valid() && r.eoq + |piece| <= r.Size() && r.occupancy + |piece| <= r.Size()
    ensures var r' := r.(cells := Write(r.cells, r.eoq, piece), eoq := r.eoq + |piece|,
                         occupancy := r.occupancy + |piece|);
      |piece| > 0 ==> r'.Valid() && r'.Contents() == r.Contents() + piece
  {
  }

  lemma WriteFirst(cells: seq<Byte>, at: nat, first: seq<Byte>, top: nat)
    requires at + |first| == |cells| && top <= at
    ensures Write(cells, at, first)[top..] == cells[top..at] + first
  {
  }

  lemma WriteSecond(cells: seq<Byte>, second: seq<Byte>, top: nat)
    requires |second| <= top <= |cells|
    ensures Write(cells, 0, second)[top..] == cells[top..] && Write(cells, 0, second)[..|second|] == second
  {
  }

  lemma WriteTwo(r: Ring, first: seq<Byte>, second: seq<Byte>)
    requires r.Valid() && r.eoq + |first| == r.Size() && |second| > 0
    requires r.occupancy + |first| + |second| <= r.Size()
    ensures var r' := r.(cells := Write(Write(r.cells, r.eoq, first), 0, second), eoq := |second|,
                         occupancy := r.occupancy + |first| + |second|);
      r'.Valid() && r'.Contents() == r.Contents() + (first + second)
  {
    hide Write;
    assert r.toq + r.occupancy == r.eoq && |second| <= r.toq;
    WriteFirst(r.cells, r.eoq, first, r.toq);
    WriteSecond(Write(r.cells, r.eoq, first), second, r.toq);
    assert r.Contents() + first + second == r.Contents() + (first + second);
  }

  /** A transfer hands out the oldest bytes and keeps the rest in order. */
  lemma ReleaseDrops(r: Ring, n: nat)
    requires r.Valid() && n <= r.occupancy
    ensures Release(r, n).Valid() && Release(r, n).Size() == r.Size()
    ensures Front(r, n) == r.Contents()[..n] && Release(r, n).Contents() == r.Contents()[n..]
  {
  }

  lemma ResetEmpties(r: Ring)
    ensures Reset(r).Valid() && Reset(r).Contents() == []
  {
  }

  // ----- any interleaving of operations -----

  /** Consume asks for at most n bytes and gets what there is. */
  datatype Operation = Play(data: seq<Byte>) | Consume(n: nat) | Stop

  /** What went in and out since the last reset, and the totals since the beginning. */
  datatype Log = Log(accepted: seq<Byte>, delivered: seq<Byte>, acceptedBytes: nat, deliveredBytes: nat,
                     discardedBytes: nat)

  datatype State = State(ring: Ring, log: Log)

  function Given(r: Ring, n: nat): nat {
    if n <= r.occupancy then n else r.occupancy
  }

  function Step(st: State, op: Operation): State
    requires st.ring.Valid()
  {
    match op
    case Play(data) =>
      var n := Taken(st.ring, |data|);
      State(Accept(st.ring, data),
            st.log.(accepted := st.log.accepted + data[..n], acceptedBytes := st.log.acceptedBytes + n))
    case Consume(n) =>
      var k := Given(st.ring, n);
      State(Release(st.ring, k),
            st.log.(delivered := st.log.delivered + Front(st.ring, k), deliveredBytes := st.log.deliveredBytes + k))
    case Stop =>
      State(Reset(st.ring),
            st.log.(accepted := [], delivered := [], discardedBytes := st.log.discardedBytes + st.ring.occupancy))
  }

  /** The queued bytes are what was accepted since the last reset less what was delivered, in order, and every byte
      accepted is delivered, still queued, or was discarded by a reset. */
  predicate Conserved(st: State) {
    && st.ring.Valid()
    && st.log.accepted == st.log.delivered + st.ring.Contents()
    && st.log.acceptedBytes == st.log.deliveredBytes + st.ring.occupancy + st.log.discardedBytes
  }

  lemma StepConserves(st: State, op: Operation)
    requires Conserved(st)
    ensures Conserved(Step(st, op)) && Step(st, op).ring.Size() == st.ring.Size()
    ensures Step(st, op).ring.Contents() == QueueStep(st.ring.Contents(), st.ring.Size(), op)
  {
    match op
    case Play(data) => PlayConserves(st, data);
    case Consume(n) => ConsumeConserves(st, n);
    case Stop => ResetEmpties(st.ring);
  }

  lemma PlayConserves(st: State, data: seq<Byte>)
    requires Conserved(st)
    ensures Conserved(Step(st, Play(data))) && Step(st, Play(data)).ring.Size() == st.ring.Size()
    ensures Step(st, Play(data)).ring.Contents() == QueueStep(st.ring.Contents(), st.ring.Size(), Play(data))
  {
    hide Accept;
    var added := data[..Taken(st.ring, |data|)];
    AcceptAppends(st.ring, data);
    AcceptOccupancy(st.ring, data);
    assert st.log.delivered + st.ring.Contents() + added == st.log.delivered + (st.ring.Contents() + added);
  }

  lemma ConsumeConserves(st: State, n: nat)
    requires Conserved(st)
    ensures Conserved(Step(st, Consume(n))) && Step(st, Consume(n)).ring.Size() == st.ring.Size()
    ensures Step(st, Consume(n)).ring.Contents() == QueueStep(st.ring.Contents(), st.ring.Size(), Consume(n))
  {
    hide Release, Front;
    var k := Given(st.ring, n);
    var q := st.ring.Contents();
    ReleaseDrops(st.ring, k);
    ReleaseOccupancy(st.ring, k);
    assert q == q[..k] + q[k..];
    assert st.log.delivered + q == st.log.delivered + q[..k] + q[k..];
  }

  lemma AcceptOccupancy(r: Ring, data: seq<Byte>)
    requires r.Valid()
    ensures Accept(r, data).occupancy == r.occupancy + Taken(r, |data|)
  {
  }

  lemma ReleaseOccupancy(r: Ring, n: nat)
    requires r.Valid() && n <= r.occupancy
    ensures Release(r, n).occupancy == r.occupancy - n
  {
  }

  /** A bounded first-in first-out queue: the specification the ring is measured against. */
  function QueueStep(q: seq<Byte>, size: nat, op: Operation): seq<Byte>
    requires |q| <= size
  {
    match op
    case Play(data) => q + data[..if size - |q| < |data| then size - |q| else |data|]
    case Consume(n) => q[if n <= |q| then n else |q|..]
    case Stop => []
  }

  function Start(cells: seq<Byte>): State {
    State(Ring(cells, 0, 0, 0), Log([], [], 0, 0, 0))
  }

  /** The state after a sequence of operations. */
  ghost function After(cells: seq<Byte>, ops: seq<Operation>): (st: State)
    ensures Conserved(st) && st.ring.Size() == |cells|
  {
    if ops == [] then Start(cells)
    else
      var st := After(cells, ops[..|ops| - 1]);
      StepConserves(st, ops[|ops| - 1]);
      Step(st, ops[|ops| - 1])
  }

  function QueueAfter(size: nat, ops: seq<Operation>): (q: seq<Byte>)
    ensures |q| <= size
  {
    if ops == [] then [] else QueueStep(QueueAfter(size, ops[..|ops| - 1]), size, ops[|ops| - 1])
  }

  /** The ring refines the queue over every interleaving, and loses and invents nothing. */
  lemma {:induction false} RingIsFifo(cells: seq<Byte>, ops: seq<Operation>)
    ensures After(cells, ops).ring.Contents() == QueueAfter(|cells|, ops)
    ensures Conserved(After(cells, ops))
  {
    hide Step, QueueStep, Conserved;
    if ops != [] {
      var before := ops[..|ops| - 1];
      RingIsFifo(cells, before);
      StepConserves(After(cells, before), ops[|ops| - 1]);
    }
  }

  // ----- whole frames -----

  predicate Whole(stride: nat, n: nat)
    requires stride >= 1
  {
    n % stride == 0
  }

  lemma WholeSum(stride: nat, a: nat, b: nat)
    requires stride >= 1 && Whole(stride, a) && Whole(stride, b)
    ensures Whole(stride, a + b) && (b <= a ==> Whole(stride, a - b))
  {
    var p, q := a / stride, b / stride;
    DivModIdentity(a, stride);
    DivModIdentity(b, stride);
    assert (p + q) * stride == p * stride + q * stride;
    assert (p - q) * stride == p * stride - q * stride;
    DivModUnique(a + b, stride, p + q, 0);
    DivModUnique(a - b, stride, p - q, 0);
  }

  /** Occupancy and both offsets are whole multiples of the frame size. */
  predicate Aligned(stride: nat, r: Ring)
    requires stride >= 1
  {
    Whole(stride, r.Size()) && Whole(stride, r.occupancy) && Whole(stride, r.toq) && Whole(stride, r.eoq)
  }

  predicate WholeOperation(stride: nat, op: Operation)
    requires stride >= 1
  {
    match op
    case Play(data) => Whole(stride, |data|)
    case Consume(n) => Whole(stride, n)
    case Stop => true
  }

  lemma StepAligned(stride: nat, st: State, op: Operation)
    requires stride >= 1 && Conserved(st) && Aligned(stride, st.ring) && WholeOperation(stride, op)
    ensures Aligned(stride, Step(st, op).ring)
  {
    hide Conserved, Whole, Write, Front;
    var r := st.ring;
    ConservedValid(st);
    WholeSum(stride, r.Size(), r.occupancy);
    WholeSum(stride, r.Size(), r.eoq);
    WholeSum(stride, r.Size(), r.toq);
    match op
    case Play(data) =>
      var n := Taken(r, |data|);
      WholeSum(stride, r.occupancy, n);
      WholeSum(stride, r.eoq, n);
      WholeSum(stride, n, r.Size() - r.eoq);
    case Consume(n) =>
      var k := Given(r, n);
      WholeSum(stride, r.occupancy, k);
      WholeSum(stride, r.toq, k);
      WholeSum(stride, k, r.Size() - r.toq);
    case Stop =>
      ZeroWhole(stride);
  }

  lemma ConservedValid(st: State)
    requires Conserved(st)
    ensures st.ring.Valid()
  {
  }

  lemma ZeroWhole(stride: nat)
    requires stride >= 1
    ensures Whole(stride, 0)
  {
  }

  /** If everything played and asked for is whole frames, every state is aligned to frames. */
  lemma {:induction false} AlwaysAligned(stride: nat, cells: seq<Byte>, ops: seq<Operation>)
    requires stride >= 1 && Whole(stride, |cells|)
    requires forall i :: 0 <= i < |ops| ==> WholeOperation(stride, ops[i])
    ensures Aligned(stride, After(cells, ops).ring)
  {
    hide Step, Conserved, WholeOperation;
    if ops == [] {
      ZeroWhole(stride);
    } else {
      var before := ops[..|ops| - 1];
      AlwaysAligned(stride, cells, before);
      StepAligned(stride, After(cells, before), ops[|ops| - 1]);
    }
  }
}

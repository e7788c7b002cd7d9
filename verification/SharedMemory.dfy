/** The double-record shared-memory read of ptp-utilities.c, word by word, against a writer that finishes the main
    record before it touches the secondary one. Every word is known by the number of the update that wrote it. */
module SharedMemory {
  /** The record has four 64-bit words. */
  const WORDS := 4

  function All(): set<nat> {
    {0, 1, 2, 3}
  }

  /** The writer's progress through its current update. */
  datatype Writer = Writer(update: nat, mainDone: set<nat>, secondaryDone: set<nat>)

  /** One attempt of the reader: the words of the main record in the first copy and of the secondary record in the
      second. The rest is bookkeeping of the proof: what the writer had started and completed when the main copy ended,
      and whether each copy was taken from a whole record that nobody wrote to meanwhile. */
  datatype Reader = Reader(main: map<nat, nat>, secondary: map<nat, nat>, started: nat, completed: nat,
                           mainUndisturbed: bool, secondaryUndisturbed: bool)

  datatype State = State(main: seq<nat>, secondary: seq<nat>, writer: Writer, reader: Reader)

  datatype Step =
    | StartUpdate
    | WriteMain(i: nat)
    | WriteSecondary(i: nat)
    | StartAttempt
    | ReadMain(i: nat)
    | ReadSecondary(i: nat)

  predicate Idle(w: Writer) {
    w.mainDone == All() && w.secondaryDone == All()
  }

  /** The last update of which both records are complete. */
  function Completed(w: Writer): int {
    if Idle(w) then w.update else w.update - 1
  }

  predicate MainWhole(w: Writer) {
    w.mainDone == All() || w.mainDone == {}
  }

  predicate SecondaryWhole(w: Writer) {
    w.secondaryDone == All() || w.secondaryDone == {}
  }

  predicate MainCopied(r: Reader) {
    r.main.Keys == All()
  }

  predicate SecondaryCopied(r: Reader) {
    r.secondary.Keys == All()
  }

  /** Words are written and read in any order within a record; the second copy starts when the first is complete. */
  predicate Enabled(st: State, s: Step) {
    match s
    case StartUpdate => Idle(st.writer)
    case WriteMain(i) => i < WORDS && i !in st.writer.mainDone
    case WriteSecondary(i) => i < WORDS && st.writer.mainDone == All() && i !in st.writer.secondaryDone
    case StartAttempt => true
    case ReadMain(i) => i < WORDS && i !in st.reader.main
    case ReadSecondary(i) => i < WORDS && MainCopied(st.reader) && i !in st.reader.secondary
  }

  function Next(st: State, s: Step): State
    requires |st.main| == |st.secondary| == WORDS && Enabled(st, s)
  {
    match s
    case StartUpdate => st.(writer := Writer(st.writer.update + 1, {}, {}))
    case WriteMain(i) =>
      st.(main := st.main[i := st.writer.update],
          writer := st.writer.(mainDone := st.writer.mainDone + {i}),
          reader := if MainCopied(st.reader) then st.reader else st.reader.(mainUndisturbed := false))
    case WriteSecondary(i) =>
      st.(secondary := st.secondary[i := st.writer.update],
          writer := st.writer.(secondaryDone := st.writer.secondaryDone + {i}),
          reader := if SecondaryCopied(st.reader) then st.reader
                    else st.reader.(secondaryUndisturbed := false))
    case StartAttempt => st.(reader := Reader(map[], map[], 0, 0, MainWhole(st.writer), false))
    case ReadMain(i) =>
      var r := st.reader.(main := st.reader.main[i := st.main[i]]);
      st.(reader := if !MainCopied(r) then r
                    else r.(started := st.writer.update,
                            completed := if Completed(st.writer) >= 0 then Completed(st.writer) else 0,
                            secondaryUndisturbed := SecondaryWhole(st.writer)))
    case ReadSecondary(i) =>
      st.(reader := st.reader.(secondary := st.reader.secondary[i := st.secondary[i]]))
  }

  /** Update 0 is complete; no attempt has been made. */
  function InitialState(): State {
    State([0, 0, 0, 0], [0, 0, 0, 0], Writer(0, All(), All()), Reader(map[], map[], 0, 0, true, false))
  }

  predicate Runnable(st: State, steps: seq<Step>)
    requires |st.main| == |st.secondary| == WORDS
    decreases |steps|
  {
    steps == [] || (Enabled(st, steps[0]) && Runnable(Next(st, steps[0]), steps[1..]))
  }

  function After(st: State, steps: seq<Step>): State
    requires |st.main| == |st.secondary| == WORDS && Runnable(st, steps)
    decreases |steps|
  {
    if steps == [] then st else After(Next(st, steps[0]), steps[1..])
  }

  ghost predicate Reachable(st: State) {
    exists steps :: Runnable(InitialState(), steps) && After(InitialState(), steps) == st
  }

  // ----- what every step keeps -----

  /** Every word is from the current update if it has been written in it and from the one before otherwise. */
  predicate Tagged(words: seq<nat>, done: set<nat>, update: nat) {
    && |words| == WORDS
    && done <= All()
    && forall i: nat :: i < WORDS ==> words[i] == (if i in done then update else update - 1)
  }

  predicate WriterInv(st: State) {
    var w := st.writer;
    && Tagged(st.main, w.mainDone, w.update)
    && Tagged(st.secondary, w.secondaryDone, w.update)
    && (w.update == 0 ==> Idle(w))
    && (w.secondaryDone != {} ==> w.mainDone == All())
  }

  predicate Same(copy: map<nat, nat>) {
    forall i, j :: i in copy && j in copy ==> copy[i] == copy[j]
  }

  predicate CopyOf(copy: map<nat, nat>, words: seq<nat>) {
    |words| == WORDS && forall i :: i in copy ==> i < WORDS && copy[i] == words[i]
  }

  /** The first copy: nothing in it is from an update not started when it ended, and it is of one update if the main
      record was whole and unwritten while it was taken. */
  predicate MainInv(st: State) {
    var w, r := st.writer, st.reader;
    && r.main.Keys <= All()
    && (forall i :: i in r.main ==> r.main[i] <= (if MainCopied(r) then r.started else w.update))
    && (r.mainUndisturbed && !MainCopied(r) ==> MainWhole(w) && CopyOf(r.main, st.main))
    && (r.mainUndisturbed && MainCopied(r) ==> Same(r.main))
  }

  /** The second copy: nothing in it is older than the last update completed when the first copy ended, and it is of one
      update if the secondary record was whole and unwritten while it was taken. */
  predicate SecondaryInv(st: State) {
    var w, r := st.writer, st.reader;
    && r.secondary.Keys <= All()
    && (r.secondary.Keys != {} ==> MainCopied(r))
    && (MainCopied(r) ==> r.completed <= r.started <= r.completed + 1 && r.completed <= Completed(w))
    && (forall i :: i in r.secondary ==> r.completed <= r.secondary[i])
    && (r.secondaryUndisturbed ==> MainCopied(r))
    && (r.secondaryUndisturbed && !SecondaryCopied(r) ==> SecondaryWhole(w) && CopyOf(r.secondary, st.secondary))
    && (r.secondaryUndisturbed && SecondaryCopied(r) ==> Same(r.secondary))
  }

  predicate Inv(st: State) {
    WriterInv(st) && MainInv(st) && SecondaryInv(st)
  }

  lemma WriterKept(st: State, s: Step)
    requires WriterInv(st) && Enabled(st, s)
    ensures WriterInv(Next(st, s)) && Completed(st.writer) <= Completed(Next(st, s).writer)
    ensures st.writer.update <= Next(st, s).writer.update
  {
  }

  lemma WholeIsOneUpdate(words: seq<nat>, done: set<nat>, update: nat, copy: map<nat, nat>)
    requires Tagged(words, done, update) && (done == {} || done == All())
    requires copy.Keys == All() && CopyOf(copy, words)
    ensures Same(copy)
  {
  }

  lemma MainKept(st: State, s: Step)
    requires WriterInv(st) && MainInv(st) && Enabled(st, s)
    ensures MainInv(Next(st, s))
  {
    var next := Next(st, s);
    if s.ReadMain? && MainCopied(next.reader) && next.reader.mainUndisturbed {
      WholeIsOneUpdate(st.main, st.writer.mainDone, st.writer.update, next.reader.main);
    }
  }

  lemma SecondaryKeptByWriter(st: State, s: Step)
    requires WriterInv(st) && SecondaryInv(st) && Enabled(st, s)
    requires s.StartUpdate? || s.WriteMain? || s.WriteSecondary?
    ensures SecondaryInv(Next(st, s))
  {
    WriterKept(st, s);
    hide WriterInv;
  }

  lemma SecondaryKeptByFirstCopy(st: State, s: Step)
    requires WriterInv(st) && SecondaryInv(st) && Enabled(st, s)
    requires s.StartAttempt? || s.ReadMain?
    ensures SecondaryInv(Next(st, s))
  {
  }

  lemma SecondaryKeptBySecondCopy(st: State, s: Step)
    requires WriterInv(st) && SecondaryInv(st) && Enabled(st, s)
    requires s.ReadSecondary?
    ensures SecondaryInv(Next(st, s))
  {
    var next := Next(st, s);
    if SecondaryCopied(next.reader) && next.reader.secondaryUndisturbed {
      WholeIsOneUpdate(st.secondary, st.writer.secondaryDone, st.writer.update, next.reader.secondary);
    }
  }

  lemma SecondaryKept(st: State, s: Step)
    requires WriterInv(st) && SecondaryInv(st) && Enabled(st, s)
    ensures SecondaryInv(Next(st, s))
  {
    hide WriterInv, SecondaryInv, Next, Enabled;
    match s
    case StartAttempt => SecondaryKeptByFirstCopy(st, s);
    case ReadMain(_) => SecondaryKeptByFirstCopy(st, s);
    case ReadSecondary(_) => SecondaryKeptBySecondCopy(st, s);
    case _ => SecondaryKeptByWriter(st, s);
  }

  lemma {:induction false} RunKeeps(st: State, steps: seq<Step>)
    requires Inv(st) && Runnable(st, steps)
    ensures Inv(After(st, steps))
    decreases |steps|
  {
    if steps != [] {
      WriterKept(st, steps[0]);
      MainKept(st, steps[0]);
      SecondaryKept(st, steps[0]);
      RunKeeps(Next(st, steps[0]), steps[1..]);
    }
  }

  lemma ReachableInv(st: State)
    requires Reachable(st)
    ensures Inv(st)
  {
    var steps :| Runnable(InitialState(), steps) && After(InitialState(), steps) == st;
    RunKeeps(InitialState(), steps);
  }

  // ----- the theorems -----

  /** What update `u` publishes in word `i` is `value(u, i)`; every update changes every word. */
  ghost predicate FreshValues(value: (nat, nat) -> nat) {
    forall u, v, i :: value(u, i) == value(v, i) ==> u == v
  }

  /** Both copies are complete and the main record of the first has the contents of the secondary record of the
      second. */
  predicate Matches(r: Reader, value: (nat, nat) -> nat) {
    && MainCopied(r)
    && SecondaryCopied(r)
    && forall i: nat :: i < WORDS ==> value(r.main[i], i) == value(r.secondary[i], i)
  }

  predicate Published(copy: map<nat, nat>, update: nat) {
    copy.Keys == All() && forall i :: i in copy ==> copy[i] == update
  }

  /** A read that succeeds mixes words from at most two consecutive updates. None is older than the last update
      completed when the first copy ended, and none is from an update not started by then. */
  lemma SuccessfulRead(st: State, value: (nat, nat) -> nat)
    requires FreshValues(value) && Reachable(st) && Matches(st.reader, value)
    ensures st.reader.completed <= st.reader.started <= st.reader.completed + 1
    ensures forall i :: i in st.reader.main ==> st.reader.completed <= st.reader.main[i] <= st.reader.started
  {
    ReachableInv(st);
    forall i | i in st.reader.main
      ensures st.reader.main[i] == st.reader.secondary[i]
    {
      assert value(st.reader.main[i], i) == value(st.reader.secondary[i], i);
    }
  }

  /** It is exactly one published record if either of the compared copies was taken while its record was whole and
      nobody wrote to it; each hypothesis alone is enough. */
  lemma UndisturbedRead(st: State, value: (nat, nat) -> nat)
    requires FreshValues(value) && Reachable(st) && Matches(st.reader, value)
    requires st.reader.mainUndisturbed || st.reader.secondaryUndisturbed
    ensures exists update: nat ::
              Published(st.reader.main, update) && st.reader.completed <= update <= st.reader.started
  {
    ReachableInv(st);
    SuccessfulRead(st, value);
    forall i | i in st.reader.main
      ensures st.reader.main[i] == st.reader.secondary[i] == st.reader.main[0]
    {
      assert value(st.reader.main[i], i) == value(st.reader.secondary[i], i);
      assert value(st.reader.main[0], 0) == value(st.reader.secondary[0], 0);
    }
    assert Published(st.reader.main, st.reader.main[0]);
  }

  lemma {:induction false} RunsExtend(st: State, steps: seq<Step>, s: Step)
    requires WriterInv(st) && Runnable(st, steps) && WriterInv(After(st, steps)) && Enabled(After(st, steps), s)
    ensures Runnable(st, steps + [s]) && After(st, steps + [s]) == Next(After(st, steps), s)
    decreases |steps|
  {
    if steps == [] {
      assert steps + [s] == [s] && [s][1..] == [];
    } else {
      WriterKept(st, steps[0]);
      assert (steps + [s])[1..] == steps[1..] + [s];
      RunsExtend(Next(st, steps[0]), steps[1..], s);
    }
  }

  lemma ReachNext(st: State, s: Step)
    requires Reachable(st) && |st.main| == |st.secondary| == WORDS && Enabled(st, s)
    ensures Reachable(Next(st, s))
  {
    var steps :| Runnable(InitialState(), steps) && After(InitialState(), steps) == st;
    ReachableInv(st);
    RunsExtend(InitialState(), steps, s);
  }

  lemma AfterFirstCopy(st: State) returns (next: State)
    requires Reachable(st) && |st.main| == |st.secondary| == WORDS && st.reader.main == map[]
    ensures Reachable(next) && MainCopied(next.reader)
    ensures forall i: nat :: i < WORDS ==> next.reader.main[i] == st.main[i]
    ensures next.(reader := st.reader) == st && next.reader.secondary == st.reader.secondary
  {
    next := st;
    for i := 0 to WORDS
      invariant Reachable(next) && next.(reader := st.reader) == st
      invariant next.reader.secondary == st.reader.secondary
      invariant forall k :: k in next.reader.main <==> 0 <= k < i
      invariant forall k :: k in next.reader.main ==> k < WORDS && next.reader.main[k] == st.main[k]
    {
      ReachNext(next, ReadMain(i));
      next := Next(next, ReadMain(i));
    }
  }

  lemma AfterSecondCopy(st: State) returns (next: State)
    requires Reachable(st) && |st.main| == |st.secondary| == WORDS
    requires MainCopied(st.reader) && st.reader.secondary == map[]
    ensures Reachable(next) && SecondaryCopied(next.reader) && next.reader.main == st.reader.main
    ensures forall i: nat :: i < WORDS ==> next.reader.secondary[i] == st.secondary[i]
  {
    next := st;
    for i := 0 to WORDS
      invariant Reachable(next) && next.(reader := st.reader) == st && next.reader.main == st.reader.main
      invariant forall k :: k in next.reader.secondary <==> 0 <= k < i
      invariant forall k :: k in next.reader.secondary ==> k < WORDS && next.reader.secondary[k] == st.secondary[k]
    {
      ReachNext(next, ReadSecondary(i));
      next := Next(next, ReadSecondary(i));
    }
  }

  /** The writer goes on with the main record. */
  lemma AfterMainWrites(st: State, words: set<nat>) returns (next: State)
    requires Reachable(st) && |st.main| == |st.secondary| == WORDS && st.writer.mainDone <= words <= All()
    ensures Reachable(next) && next.writer == st.writer.(mainDone := words)
    ensures |next.main| == WORDS && next.secondary == st.secondary
    ensures next.reader.(mainUndisturbed := st.reader.mainUndisturbed) == st.reader
  {
    next := st;
    for i: nat := 0 to WORDS
      invariant Reachable(next) && |next.main| == WORDS && next.secondary == st.secondary
      invariant next.writer.(mainDone := st.writer.mainDone) == st.writer
      invariant next.reader.(mainUndisturbed := st.reader.mainUndisturbed) == st.reader
      invariant forall k :: k in next.writer.mainDone <==> k in st.writer.mainDone || (k in words && k < i)
    {
      if i in words && i !in next.writer.mainDone {
        ReachNext(next, WriteMain(i));
        next := Next(next, WriteMain(i));
      }
    }
    assert next.writer.mainDone == words;
  }

  /** And with the secondary one. */
  lemma AfterSecondaryWrites(st: State, words: set<nat>) returns (next: State)
    requires Reachable(st) && |st.main| == |st.secondary| == WORDS
    requires st.writer.mainDone == All() && st.writer.secondaryDone <= words <= All()
    ensures Reachable(next) && next.writer == st.writer.(secondaryDone := words)
    ensures next.main == st.main && |next.secondary| == WORDS
    ensures next.reader.(secondaryUndisturbed := st.reader.secondaryUndisturbed) == st.reader
  {
    next := st;
    for i: nat := 0 to WORDS
      invariant Reachable(next) && |next.secondary| == WORDS && next.main == st.main
      invariant next.writer.(secondaryDone := st.writer.secondaryDone) == st.writer
      invariant next.reader.(secondaryUndisturbed := st.reader.secondaryUndisturbed) == st.reader
      invariant forall k :: k in next.writer.secondaryDone <==> k in st.writer.secondaryDone || (k in words && k < i)
    {
      if i in words && i !in next.writer.secondaryDone {
        ReachNext(next, WriteSecondary(i));
        next := Next(next, WriteSecondary(i));
      }
    }
    assert next.writer.secondaryDone == words;
  }

  lemma UpdateStarted() returns (st: State)
    ensures Reachable(st) && |st.main| == |st.secondary| == WORDS && st.writer == Writer(1, {}, {})
  {
    assert Runnable(InitialState(), []) && After(InitialState(), []) == InitialState();
    ReachNext(InitialState(), StartUpdate);
    st := Next(InitialState(), StartUpdate);
  }

  lemma AttemptStarted(st: State) returns (next: State)
    requires Reachable(st) && |st.main| == |st.secondary| == WORDS
    ensures Reachable(next) && next.(reader := st.reader) == st
    ensures next.reader.main == map[] && next.reader.secondary == map[]
  {
    ReachNext(st, StartAttempt);
    next := Next(st, StartAttempt);
  }

  /** The match alone does not rule out a torn read, however it is torn: the writer has written any of the words to the
      main record during the first copy, and the same ones to the secondary record during the second. So the bound of
      two consecutive updates cannot be made smaller. */
  lemma TornRead(value: (nat, nat) -> nat, newer: set<nat>) returns (st: State)
    requires newer <= All()
    ensures Reachable(st) && Matches(st.reader, value)
    ensures forall i: nat :: i < WORDS ==> st.reader.main[i] == if i in newer then 1 else 0
    ensures newer != {} && newer != All() ==> !Same(st.reader.main)
  {
    hide Next, Reachable, WriterInv, Enabled;
    var started := UpdateStarted();
    var inMain := AfterMainWrites(started, newer);
    TaggedWords(inMain);
    var attempt := AttemptStarted(inMain);
    var copied := AfterFirstCopy(attempt);
    var written := AfterMainWrites(copied, All());
    var inSecondary := AfterSecondaryWrites(written, newer);
    TaggedWords(inSecondary);
    st := AfterSecondCopy(inSecondary);
    if newer != {} && newer != All() {
      var i, j :| i in newer && j in All() && j !in newer;
      assert st.reader.main[i] == 1 && st.reader.main[j] == 0;
    }
  }

  lemma TaggedWords(st: State)
    requires Reachable(st)
    ensures Tagged(st.main, st.writer.mainDone, st.writer.update)
    ensures Tagged(st.secondary, st.writer.secondaryDone, st.writer.update)
  {
    ReachableInv(st);
  }

  // ----- the reader -----

  datatype Record = Record(masterClockId: nat, localTime: nat, localToMasterTimeOffset: nat, masterClockStartTime: nat)

  datatype Structure = Structure(version: nat, main: Record, secondary: Record)

  /** Attempts are numbered from one; the tenth is never made. */
  const LOOP_LIMIT := 10

  predicate Agree(first: nat -> Structure, second: nat -> Structure, attempt: nat) {
    first(attempt).main == second(attempt).secondary
  }

  /** `first(n)` and `second(n)` are what the two copies of attempt n read. The caller gets the first copy of the first
      attempt whose copies agree, and failure exactly when nothing is mapped or none of nine attempts agrees. */
  method GetNqptpData(mapped: bool, first: nat -> Structure, second: nat -> Structure, before: Structure)
    returns (response: int, data: Structure)
    ensures response == 0 || response == -1
    ensures response == 0 <==> mapped && exists n :: 1 <= n < LOOP_LIMIT && Agree(first, second, n)
    ensures response == 0 ==>
              exists n :: 1 <= n < LOOP_LIMIT && Agree(first, second, n) && data == first(n)
                          && forall k :: 1 <= k < n ==> !Agree(first, second, k)
    ensures response == -1 ==> data == if mapped then first(LOOP_LIMIT - 1) else before
  {
    response, data := -1, before;
    if mapped {
      var loopCount := 1;
      data := first(loopCount);
      var local := second(loopCount);
      if data.main != local.secondary {
        loopCount := loopCount + 1;
      }
      while data.main != local.secondary && loopCount < LOOP_LIMIT
        invariant 1 <= loopCount <= LOOP_LIMIT
        invariant forall k :: 1 <= k < loopCount ==> !Agree(first, second, k)
        invariant data.main == local.secondary ==>
                    loopCount < LOOP_LIMIT && data == first(loopCount) && local == second(loopCount)
        invariant data.main != local.secondary ==> loopCount >= 2 && data == first(loopCount - 1)
        decreases LOOP_LIMIT - loopCount, data.main != local.secondary
      {
        data := first(loopCount);
        local := second(loopCount);
        if data.main != local.secondary {
          loopCount := loopCount + 1;
        }
      }
      if loopCount == LOOP_LIMIT {
        response := -1;
      } else {
        assert Agree(first, second, loopCount);
        response := 0;
      }
    }
  }
}

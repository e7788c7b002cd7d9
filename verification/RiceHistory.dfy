/** The adaptive history of the Rice decoder over whole runs, for any code values at all. */
module RiceHistory {
  import opened Words
  import opened Rice

  datatype State = State(history: nat, signModifier: nat)

  /** One turn of the decoder's loop: the history is updated, and a zero run may reset it. The decoder takes the run
      exactly when another residual is due; allowing both covers it. */
  ghost predicate Turn(mult: nat, st: State, code: nat, st': State) {
    var next := NextHistory(st.history, code + st.signModifier, mult);
    || (st'.history == next && st'.signModifier == 0)
    || (next < 128 && st' == State(0, 1))
  }

  /** The states at the heads of successive turns. */
  ghost predicate IsRun(initial: nat, mult: nat, run: seq<State>, codes: seq<nat>) {
    && |run| == |codes| + 1
    && run[0] == State(initial, 0)
    && forall i :: 0 <= i < |codes| ==> Turn(mult, run[i], codes[i], run[i + 1])
  }

  lemma {:induction false} RunStateOk(initial: nat, mult: nat, run: seq<State>, codes: seq<nat>, i: nat)
    requires 1 <= initial <= 255 && 1 <= mult <= 511 && IsRun(initial, mult, run, codes) && i < |run|
    ensures StateOk(run[i].history, run[i].signModifier)
  {
    hide NextHistory;
    if i > 0 {
      RunStateOk(initial, mult, run, codes, i - 1);
      assert Turn(mult, run[i - 1], codes[i - 1], run[i]);
      NextHistoryRange(run[i - 1].history, run[i - 1].signModifier, codes[i - 1], mult);
    }
  }

  /** In every reachable turn the history is in [0, 512 * 65535], the width of the next remainder is at least 1, and
      the updated history, which may be handed to count_leading_zeros, is positive. */
  lemma HistoryBound(initial: nat, kModifier: nat, mult: nat, run: seq<State>, codes: seq<nat>, i: nat)
    requires 1 <= initial <= 255 && kModifier >= 1 && 1 <= mult <= 511
    requires IsRun(initial, mult, run, codes) && i < |run|
    ensures run[i].history <= HISTORY_MAX
    ensures 1 <= MainK(run[i].history, kModifier) <= 16
    ensures i < |codes| ==> NextHistory(run[i].history, codes[i] + run[i].signModifier, mult) >= 1
  {
    hide NextHistory;
    RunStateOk(initial, mult, run, codes, i);
    if i < |codes| {
      NextHistoryRange(run[i].history, run[i].signModifier, codes[i], mult);
    }
  }
}

/** The activity monitor of activity_monitor.c: the thread that times inactivity out and the calls that signify activity
    to it, interleaved at every point where the mutex is free. */
module ActivityMonitor {
  datatype AmState = Inactive | Active | TimingOut

  /** The procedures hooked on to a change of state, in the order in which the changes were made under the mutex. */
  datatype Hook = GoingActive | GoingInactive

  /** Where the monitor thread is. It waits for the condition variable, or runs the hook after a timeout, without the
      mutex; everywhere else it holds it. */
  datatype Location =
    | Switch
    | InactiveCheck
    | InactiveWait
    | ActiveCheck
    | ActiveWait
    | TimingCheck(timedOut: bool)
    | TimingWait
    | Expired

  datatype State = State(state: AmState, playerActive: bool, at: Location, hooks: seq<Hook>)

  datatype Step =
    | Signify(active: bool)
    | Wake(timedOut: bool)
    | Monitor

  predicate Free(at: Location) {
    at.InactiveWait? || at.ActiveWait? || at.TimingWait? || at.Expired?
  }

  /** A waiting thread may wake at any time, spuriously too; only the timed wait reports a timeout. */
  predicate Enabled(st: State, s: Step) {
    match s
    case Signify(_) => Free(st.at)
    case Wake(timedOut) => Free(st.at) && (timedOut ==> st.at.TimingWait?)
    case Monitor => !Free(st.at)
  }

  function Signified(st: State, active: bool, timeout: real): State {
    if st.state.Inactive? && active then
      st.(playerActive := true, state := Active, hooks := st.hooks + [GoingActive])
    else if st.state.Active? && !active && timeout == 0.0 then
      st.(playerActive := false, state := Inactive, hooks := st.hooks + [GoingInactive])
    else
      st.(playerActive := active)
  }

  /** The thread takes the mutex again: to look at its waiting condition, or to go round after the hook. */
  function Woken(st: State, timedOut: bool): State
    requires Free(st.at)
  {
    match st.at
    case InactiveWait => st.(at := InactiveCheck)
    case ActiveWait => st.(at := ActiveCheck)
    case TimingWait => st.(at := TimingCheck(timedOut))
    case Expired => st.(at := Switch)
  }

  function MonitorStep(st: State): State
    requires !Free(st.at)
  {
    match st.at
    case Switch =>
      st.(at := if st.state.Inactive? then InactiveCheck else if st.state.Active? then ActiveCheck
                else TimingCheck(false))
    case InactiveCheck =>
      st.(at := if !st.playerActive then InactiveWait else Switch)
    case ActiveCheck =>
      if st.playerActive then st.(at := ActiveWait)
      else if !st.state.Inactive? then st.(state := TimingOut, at := Switch)
      else st.(at := Switch)
    case TimingCheck(timedOut) =>
      if st.playerActive then st.(state := Active, at := Switch)
      else if timedOut then st.(state := Inactive, at := Expired, hooks := st.hooks + [GoingInactive])
      else st.(at := TimingWait)
  }

  function Next(st: State, s: Step, timeout: real): State
    requires Enabled(st, s)
  {
    match s
    case Signify(active) => Signified(st, active, timeout)
    case Wake(timedOut) => Woken(st, timedOut)
    case Monitor => MonitorStep(st)
  }

  function InitialState(): State {
    State(Inactive, false, Switch, [])
  }

  ghost predicate IsRun(run: seq<State>, steps: seq<Step>, timeout: real) {
    && |run| == |steps| + 1
    && run[0] == InitialState()
    && forall k :: 0 <= k < |steps| ==> Enabled(run[k], steps[k]) && run[k + 1] == Next(run[k], steps[k], timeout)
  }

  function Count(hooks: seq<Hook>, h: Hook): (n: nat) {
    if hooks == [] then 0 else Count(hooks[..|hooks| - 1], h) + if hooks[|hooks| - 1] == h then 1 else 0
  }

  // ----- every interleaving -----

  predicate ActiveIsNoticed(st: State) {
    st.playerActive ==> !st.state.Inactive?
  }

  /** The hooks take turns, an active one first. */
  predicate HooksAlternate(st: State) {
    && (forall k: nat :: k < |st.hooks| ==> (st.hooks[k] == GoingActive <==> k % 2 == 0))
    && (st.state.Inactive? <==> |st.hooks| % 2 == 0)
  }

  predicate Inv(st: State) {
    && ActiveIsNoticed(st)
    && HooksAlternate(st)
    && (st.at.TimingWait? || st.at.TimingCheck? ==> st.state.TimingOut?)
    && (st.state.TimingOut? ==> st.at.TimingWait? || st.at.TimingCheck? || st.at.Switch?)
  }

  /** With no timeout, the state follows the player and the thread never times anything. */
  predicate FollowsPlayer(st: State) {
    && st.state == (if st.playerActive then Active else Inactive)
    && !st.at.TimingWait? && !st.at.TimingCheck? && !st.at.Expired?
  }

  lemma StepKeeps(st: State, s: Step, timeout: real)
    requires Inv(st) && Enabled(st, s)
    ensures Inv(Next(st, s, timeout))
  {
  }

  lemma {:induction false} AlternatingBalance(hooks: seq<Hook>)
    requires forall k: nat :: k < |hooks| ==> (hooks[k] == GoingActive <==> k % 2 == 0)
    ensures Count(hooks, GoingActive) - Count(hooks, GoingInactive) == |hooks| % 2
  {
    if hooks != [] {
      AlternatingBalance(hooks[..|hooks| - 1]);
    }
  }

  lemma {:induction false} RunKeeps(run: seq<State>, steps: seq<Step>, timeout: real, k: nat)
    requires IsRun(run, steps, timeout) && k < |run|
    ensures Inv(run[k])
    ensures timeout == 0.0 ==> FollowsPlayer(run[k])
  {
    if k > 0 {
      RunKeeps(run, steps, timeout, k - 1);
      StepKeeps(run[k - 1], steps[k - 1], timeout);
    }
  }

  /** In every interleaving: while the player is active the state is not inactive, and the hooks scheduled so far are
      balanced exactly when it is. */
  lemma Safety(run: seq<State>, steps: seq<Step>, timeout: real, k: nat)
    requires IsRun(run, steps, timeout) && k < |run|
    ensures run[k].playerActive ==> !run[k].state.Inactive?
    ensures Count(run[k].hooks, GoingActive) - Count(run[k].hooks, GoingInactive)
            == if run[k].state.Inactive? then 0 else 1
    ensures forall j: nat :: j < |run[k].hooks| ==> (run[k].hooks[j] == GoingActive <==> j % 2 == 0)
  {
    RunKeeps(run, steps, timeout, k);
    AlternatingBalance(run[k].hooks);
  }

  /** A step schedules at most one hook: going active only when the player turns active, going inactive only while the
      player is inactive, and then the state has just left or entered inactive. */
  lemma HookSafety(run: seq<State>, steps: seq<Step>, timeout: real, k: nat)
    requires IsRun(run, steps, timeout) && k < |steps|
    ensures (run[k + 1].hooks == run[k].hooks && (run[k].state.Inactive? <==> run[k + 1].state.Inactive?))
            || (run[k + 1].hooks == run[k].hooks + [GoingActive] && steps[k] == Signify(true)
                && run[k].state.Inactive? && run[k + 1].state.Active? && !run[k].playerActive)
            || (run[k + 1].hooks == run[k].hooks + [GoingInactive] && !run[k + 1].playerActive
                && !run[k].state.Inactive? && run[k + 1].state.Inactive?
                && (steps[k] == Signify(false) <==> timeout == 0.0))
  {
    RunKeeps(run, steps, timeout, k);
  }

  /** With no timeout the timing-out state cannot be reached. */
  lemma ZeroTimeout(run: seq<State>, steps: seq<Step>, k: nat)
    requires IsRun(run, steps, 0.0) && k < |run|
    ensures run[k].state == if run[k].playerActive then Active else Inactive
    ensures !run[k].at.TimingWait? && !run[k].at.Expired?
  {
    RunKeeps(run, steps, 0.0, k);
  }

  /** The thread looks at a timeout in the very step after the timed wait has reported it. */
  lemma TimeoutJustReported(run: seq<State>, steps: seq<Step>, timeout: real, k: nat)
    requires IsRun(run, steps, timeout) && k < |run| && run[k].at == TimingCheck(true)
    ensures k > 0 && steps[k - 1] == Wake(true)
  {
    assert k > 0;
    assert run[k] == Next(run[k - 1], steps[k - 1], timeout);
  }

  /** Every change of state in every interleaving, and what it takes. The player turning active ends inactivity at once;
      activity ends at once only if there is no timeout, and otherwise when the thread finds the player inactive; and
      that ends in inactivity only if the wait has just timed out and the player is still inactive. */
  lemma TransitionExact(run: seq<State>, steps: seq<Step>, timeout: real, k: nat)
    requires IsRun(run, steps, timeout) && k < |steps|
    ensures run[k].state.Inactive? ==>
              run[k + 1].state == if steps[k] == Signify(true) then Active else Inactive
    ensures run[k].state.Active? ==>
              run[k + 1].state == if steps[k] == Signify(false) && timeout == 0.0 then Inactive
                                  else if steps[k].Monitor? && run[k].at.ActiveCheck? && !run[k].playerActive
                                  then TimingOut else Active
    ensures run[k].state.TimingOut? ==>
              run[k + 1].state == if !steps[k].Monitor? || !run[k].at.TimingCheck? then TimingOut
                                  else if run[k].playerActive then Active
                                  else if k > 0 && steps[k - 1] == Wake(true) then Inactive else TimingOut
    ensures run[k + 1].playerActive ==
            if steps[k].Signify? then steps[k].active else run[k].playerActive
  {
    RunKeeps(run, steps, timeout, k);
    assert run[k + 1] == Next(run[k], steps[k], timeout);
    if run[k].at == TimingCheck(true) {
      TimeoutJustReported(run, steps, timeout, k);
    } else if k > 0 && steps[k - 1] == Wake(true) {
      assert run[k] == Next(run[k - 1], steps[k - 1], timeout);
    }
  }

  /** However often the thread is woken, without a timeout and without activity it goes on timing out. */
  lemma {:induction false} KeepsTimingOut(run: seq<State>, steps: seq<Step>, timeout: real, a: nat, b: nat)
    requires IsRun(run, steps, timeout) && a <= b < |run|
    requires run[a].state.TimingOut? && !run[a].playerActive && run[a].at != TimingCheck(true)
    requires forall k :: a <= k < b ==> steps[k] != Wake(true) && steps[k] != Signify(true)
    ensures run[b].state.TimingOut? && !run[b].playerActive && run[b].hooks == run[a].hooks
    ensures run[b].at != TimingCheck(true)
    decreases b
  {
    RunKeeps(run, steps, timeout, b);
    if a < b {
      KeepsTimingOut(run, steps, timeout, a, b - 1);
      RunKeeps(run, steps, timeout, b - 1);
      assert run[b] == Next(run[b - 1], steps[b - 1], timeout);
    }
  }

  /** The timer is not restarted: if the player turns active and inactive again while the thread waits for the timeout,
      the old timeout still ends the activity. */
  lemma TimerNotRestarted(st: State, timeout: real)
    requires Inv(st) && st.at.TimingWait?
    ensures
      var on := Next(st, Signify(true), timeout);
      var off := Next(on, Signify(false), timeout);
      var woken := Next(off, Wake(true), timeout);
      on.playerActive && on.state.TimingOut? && !woken.at.Expired? && MonitorStep(woken).state.Inactive?
      && MonitorStep(woken).hooks == st.hooks + [GoingInactive]
  {
  }

  // ----- the monitor thread gives the mutex back -----

  /** How many more steps the thread makes before it releases the mutex. */
  function StepsToRelease(st: State): (n: nat)
    ensures n <= 5 && (n == 0 <==> Free(st.at))
  {
    match st.at
    case Switch => StepsFromSwitch(st)
    case InactiveCheck => if st.playerActive then 1 + StepsFromSwitch(st) else 1
    case ActiveCheck => if st.playerActive then 1 else 3
    case TimingCheck(_) => if st.playerActive then 3 else 1
    case _ => 0
  }

  function StepsFromSwitch(st: State): (n: nat)
    ensures 2 <= n <= 4
  {
    if st.state.Inactive? || (st.state.Active? <==> st.playerActive) then 2 else 4
  }

  /** The thread never goes round and round with the mutex in its hands. It would if the player could be active in the
      inactive state. */
  lemma Progress(st: State)
    requires ActiveIsNoticed(st) && !Free(st.at)
    ensures StepsToRelease(MonitorStep(st)) == StepsToRelease(st) - 1
  {
  }

  lemma SpinsIfUnnoticed(st: State)
    requires st.state.Inactive? && st.playerActive && st.at.Switch?
    ensures MonitorStep(MonitorStep(st)) == st
  {
  }

  /** What the thread makes of the state before it next releases the mutex. */
  function Released(st: State): State
    requires Inv(st)
    decreases StepsToRelease(st)
  {
    if Free(st.at) then st
    else
      (Progress(st);
       StepKeeps(st, Monitor, 1.0);
       Released(MonitorStep(st)))
  }

  /** When the thread lets go of the mutex, it waits for the event the state calls for. */
  lemma {:induction false} ReleasedWaits(st: State)
    requires Inv(st)
    ensures
      var r := Released(st);
      Inv(r) && Free(r.at) && r.playerActive == st.playerActive
      && (!Free(st.at) ==>
            match r.at
            case InactiveWait => !r.playerActive
            case ActiveWait => r.playerActive && r.state.Active?
            case TimingWait => !r.playerActive && r.state.TimingOut?
            case _ => !r.playerActive && r.state.Inactive?)
    decreases StepsToRelease(st)
  {
    if !Free(st.at) {
      Progress(st);
      StepKeeps(st, Monitor, 1.0);
      ReleasedWaits(MonitorStep(st));
    }
  }

  /** The variables both threads share, with the code that changes them. */
  class Shared {
    var state: AmState
    var playerActive: bool
    var at: Location
    var hooks: seq<Hook>
    const timeout: real

    function Value(): State
      reads this
    {
      State(state, playerActive, at, hooks)
    }

    constructor (timeout: real)
      ensures Value() == InitialState() && this.timeout == timeout
    {
      this.timeout := timeout;
      state, playerActive, at, hooks := Inactive, false, Switch, [];
    }

    /** The part of the call that runs under the mutex, up to the choice of the hook. */
    method SignifyActivity(active: bool)
      requires Free(at)
      modifies this
      ensures Value() == Next(old(Value()), Signify(active), timeout)
    {
      playerActive := active;
      if state.Inactive? && playerActive {
        state := Active;
        hooks := hooks + [GoingActive];
      } else if state.Active? && !playerActive && timeout == 0.0 {
        state := Inactive;
        hooks := hooks + [GoingInactive];
      }
    }

    /** The thread wakes with the mutex and runs until it gives it back. */
    method MonitorThreadCode(timedOut: bool)
      requires Inv(Value()) && Enabled(Value(), Wake(timedOut))
      modifies this
      ensures Value() == Released(Woken(old(Value()), timedOut)) && Inv(Value())
    {
      StepKeeps(Value(), Wake(timedOut), timeout);
      ghost var woken := Woken(Value(), timedOut);
      match at {
        case InactiveWait => at := InactiveCheck;
        case ActiveWait => at := ActiveCheck;
        case TimingWait => at := TimingCheck(timedOut);
        case Expired => at := Switch;
      }
      while !Free(at)
        invariant Inv(Value()) && Released(Value()) == Released(woken)
        decreases StepsToRelease(Value())
      {
        Progress(Value());
        StepKeeps(Value(), Monitor, timeout);
        Turn();
      }
    }

    /** One case of the thread's switch, or one look at the condition of its waiting loop. */
    method Turn()
      requires Inv(Value()) && !Free(at)
      modifies this
      ensures Value() == MonitorStep(old(Value()))
    {
      match at {
        case Switch =>
          match state {
            case Inactive => at := InactiveCheck;
            case Active => at := ActiveCheck;
            case TimingOut => at := TimingCheck(false);
          }
        case InactiveCheck =>
          if !playerActive {
            at := InactiveWait;
          } else {
            at := Switch;
          }
        case ActiveCheck =>
          if playerActive {
            at := ActiveWait;
          } else {
            if !state.Inactive? {
              state := TimingOut;
            }
            at := Switch;
          }
        case TimingCheck(expired) =>
          if !playerActive && !expired {
            at := TimingWait;
          } else if playerActive {
            state := Active;
            at := Switch;
          } else {
            state := Inactive;
            hooks := hooks + [GoingInactive];
            at := Expired;
          }
      }
    }
  }
}

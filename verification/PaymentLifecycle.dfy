/** The payment lifecycle: its transitions, the exploration of it, and what a
    passed exploration says about payments of any history. */
module PaymentLifecycle {
  import opened Explorer

  newtype U8 = x: int | 0 <= x < 256

  datatype Phase = Created | Authorized | Captured | Refunded {
    /** Position in the declared order of phases. */
    function Rank(): nat {
      match this
      case Created => 0
      case Authorized => 1
      case Captured => 2
      case Refunded => 3
    }
  }

  datatype State = State(phase: Phase, captures: U8)

  const CREATED: State := State(Created, 0)
  const REFUNDED: State := State(Refunded, 1)

  function NextStates(state: State): seq<State> {
    match state.phase
    case Created => [State(Authorized, 0)]
    case Authorized => [State(Captured, 1)]
    case Captured => [State(Refunded, 1)]
    case Refunded => [state]
  }

  predicate EdgeOk(state: State, next: State) {
    && next.phase.Rank() >= state.phase.Rank()
    && next.captures >= state.captures
    && (next.phase.Rank() >= Captured.Rank() ==> next.captures == 1)
  }

  function LifecycleChecks(): Checks<State> {
    Checks((state: State) => state.captures <= 1, (state, next) => EdgeOk(state, next))
  }

  // ---------------------------------------------------------------------
  // From a passed exploration to every run, for any successor function.
  // ---------------------------------------------------------------------

  lemma PathPrefix(next: State -> seq<State>, path: seq<State>, i: nat)
    requires IsPath(next, path) && i < |path|
    ensures PathTo(next, path[0], path[..i + 1], path[i])
  {
  }

  /** Each state of a run is reachable, so each passed the checks. */
  lemma RunStatesPass(next: State -> seq<State>, path: seq<State>, i: nat)
    requires IsPath(next, path) && i < |path|
    requires AllPass(next, LifecycleChecks(), path[0])
    ensures path[i].captures <= 1
    ensures i + 1 < |path| ==> EdgeOk(path[i], path[i + 1])
  {
    PathPrefix(next, path, i);
    assert Reachable(next, path[0], path[i]);
    assert Passes(next, LifecycleChecks(), path[i]);
    if i + 1 < |path| {
      var k :| 0 <= k < |next(path[i])| && next(path[i])[k] == path[i + 1];
      assert LifecycleChecks().edgeOk(path[i], next(path[i])[k]);
    }
  }

  /** Whatever the successor function: when the exploration finishes without a
      failed assertion, then on every run of every length phases and captures
      never fall, captures never exceed one, and every state entered at or past
      Captured has exactly one capture. */
  lemma {:induction false} PassedExplorationHoldsOnRuns(next: State -> seq<State>, path: seq<State>, i: nat, j: nat)
    requires IsPath(next, path) && i <= j < |path|
    requires AllPass(next, LifecycleChecks(), path[0])
    ensures path[i].phase.Rank() <= path[j].phase.Rank()
    ensures path[i].captures <= path[j].captures <= 1
    ensures 0 < j && path[j].phase.Rank() >= Captured.Rank() ==> path[j].captures == 1
    decreases j
  {
    hide AllPass, IsPath;
    RunStatesPass(next, path, j);
    if j > 0 {
      RunStatesPass(next, path, j - 1);
      if i < j {
        PassedExplorationHoldsOnRuns(next, path, i, j - 1);
      }
    }
  }

  /** The first state is only examined, never entered: an exploration can pass
      from a captured state without a capture. */
  lemma InitialStateIsExempt()
    ensures AllPass((_: State) => [], LifecycleChecks(), State(Captured, 0))
  {
    NothingMissed((_: State) => [], State(Captured, 0), {State(Captured, 0)});
  }

  // ---------------------------------------------------------------------
  // The actual transitions.
  // ---------------------------------------------------------------------

  const ALL_STATES: set<State> := {CREATED, State(Authorized, 0), State(Captured, 1), REFUNDED}

  lemma StatesReachable()
    ensures forall x :: x in ALL_STATES ==> Reachable(NextStates, CREATED, x)
  {
    InitReachable(NextStates, CREATED);
    StepReachable(NextStates, CREATED, CREATED, State(Authorized, 0));
    StepReachable(NextStates, CREATED, State(Authorized, 0), State(Captured, 1));
    StepReachable(NextStates, CREATED, State(Captured, 1), REFUNDED);
  }

  lemma LifecyclePasses()
    ensures AllPass(NextStates, LifecycleChecks(), CREATED)
    ensures forall x :: Reachable(NextStates, CREATED, x) <==> x in ALL_STATES
  {
    StatesReachable();
    NothingMissed(NextStates, CREATED, ALL_STATES);
    hide Reachable;
    forall x | Reachable(NextStates, CREATED, x)
      ensures Passes(NextStates, LifecycleChecks(), x)
    {
      assert x in ALL_STATES;
    }
  }

  lemma FourTransitions()
    ensures |Slots(NextStates, ALL_STATES)| == 4
  {
    assert Slots(NextStates, ALL_STATES) ==
           {(CREATED, 0), (State(Authorized, 0), 0), (State(Captured, 1), 0), (REFUNDED, 0)};
  }

  /** The program: explore, then insist that a refund can be reached. It never
      fails an assertion and reports four states and four transitions. */
  method ExploreLifecycle() returns (passed: bool, states: nat, edges: nat)
    ensures passed && states == 4 && edges == 4
  {
    var r, popped := Explore(CREATED, NextStates, LifecycleChecks(), ALL_STATES);
    LifecyclePasses();
    assert r.seen == ALL_STATES;
    FourTransitions();
    return REFUNDED in r.seen, |r.seen|, r.edges;
  }

  /** The state k steps after creation. */
  function Progress(k: nat): State {
    if k == 0 then CREATED
    else if k == 1 then State(Authorized, 0)
    else if k == 2 then State(Captured, 1)
    else REFUNDED
  }

  /** The run of a payment is determined: after k steps it is at Progress(k), so
      from the third step on it is refunded with one capture. */
  lemma {:induction false} RunsAreDetermined(path: seq<State>, k: nat)
    requires IsPath(NextStates, path) && path[0] == CREATED && k < |path|
    ensures path[k] == Progress(k)
    ensures k >= 3 ==> path[k] == REFUNDED
  {
    if k > 0 {
      RunsAreDetermined(path, k - 1);
      assert path[(k - 1) + 1] in NextStates(path[k - 1]);
    }
  }

  /** Every payment can go on, so there are runs of every length. */
  lemma RunsOfEveryLength(n: nat)
    ensures IsPath(NextStates, seq(n + 1, k requires 0 <= k <= n => Progress(k)))
  {
  }
}

/** The provider-verification lifecycle: one input, five gates, and the steps
    that decide, consume and close it. The object is the model's one variable;
    the functions on State give each action its meaning, and the lemmas below
    hold of runs of any length. */
module Lifecycle {
  const PHASE_RECEIVED: int := 0
  const PHASE_VERIFIED: int := 1
  const PHASE_REJECTED: int := 2
  const PHASE_CONSUMED: int := 3
  const PHASE_CLOSED: int := 4

  const PROVIDER_STRIPE: int := 1
  const PROVIDER_PAYPAL: int := 2

  const GATE_CONFIGURATION: int := 1
  const GATE_ENVELOPE: int := 2
  const GATE_PROVENANCE: int := 3
  const GATE_SIGNATURE: int := 4
  const GATE_EVENT: int := 5

  const PROVIDERS: set<int> := {PROVIDER_STRIPE, PROVIDER_PAYPAL}
  const GATES: set<int> := {GATE_CONFIGURATION, GATE_ENVELOPE, GATE_PROVENANCE, GATE_SIGNATURE, GATE_EVENT}

  datatype State = State(
    phase: int,
    provider: int,
    configurationValid: bool,
    envelopeValid: bool,
    provenanceValid: bool,
    signatureValid: bool,
    eventValid: bool,
    outputs: int,
    consumes: int
  )

  datatype Action = Invalidate(gate: int) | Verify | Reject | Consume | Retry | Close | Idle

  predicate InputsValid(s: State) {
    && s.provider in PROVIDERS
    && s.configurationValid && s.envelopeValid && s.provenanceValid && s.signatureValid && s.eventValid
  }

  function Initial(provider: int): State {
    State(PHASE_RECEIVED, provider, true, true, true, true, true, 0, 0)
  }

  predicate Enabled(s: State, a: Action) {
    match a
    case Invalidate(gate) => s.phase == PHASE_RECEIVED && gate in GATES
    case Verify => s.phase == PHASE_RECEIVED && InputsValid(s)
    case Reject => s.phase == PHASE_RECEIVED && !InputsValid(s)
    case Consume => s.phase == PHASE_VERIFIED && s.outputs == 1 && s.consumes == 0
    case Retry => s.phase in {PHASE_VERIFIED, PHASE_REJECTED, PHASE_CONSUMED}
    case Close => s.phase != PHASE_CLOSED
    case Idle => true
  }

  function Apply(s: State, a: Action): State {
    match a
    case Invalidate(gate) =>
      s.(configurationValid := s.configurationValid && gate != GATE_CONFIGURATION,
         envelopeValid := s.envelopeValid && gate != GATE_ENVELOPE,
         provenanceValid := s.provenanceValid && gate != GATE_PROVENANCE,
         signatureValid := s.signatureValid && gate != GATE_SIGNATURE,
         eventValid := s.eventValid && gate != GATE_EVENT)
    case Verify => s.(phase := PHASE_VERIFIED, outputs := 1)
    case Reject => s.(phase := PHASE_REJECTED)
    case Consume => s.(phase := PHASE_CONSUMED, consumes := 1)
    case Retry => s
    case Close => s.(phase := PHASE_CLOSED)
    case Idle => s
  }

  /** An action either happens, or is refused and changes nothing. */
  function Attempt(s: State, a: Action): State {
    if Enabled(s, a) then Apply(s, a) else s
  }

  class Lifecycle {
    var phase: int
    var provider: int
    var configurationValid: bool
    var envelopeValid: bool
    var provenanceValid: bool
    var signatureValid: bool
    var eventValid: bool
    var outputs: int
    var consumes: int

    function Now(): State
      reads this
    {
      State(phase, provider, configurationValid, envelopeValid, provenanceValid, signatureValid, eventValid,
            outputs, consumes)
    }

    constructor (provider: int)
      requires provider in PROVIDERS
      ensures Now() == Initial(provider)
    {
      this.provider := provider;
      phase, outputs, consumes := PHASE_RECEIVED, 0, 0;
      configurationValid, envelopeValid, provenanceValid, signatureValid, eventValid := true, true, true, true, true;
    }

    method Invalidate(gate: int) returns (enabled: bool)
      modifies this
      ensures enabled == Enabled(old(Now()), Action.Invalidate(gate))
      ensures Now() == Attempt(old(Now()), Action.Invalidate(gate))
    {
      enabled := phase == PHASE_RECEIVED && gate in GATES;
      if enabled {
        configurationValid := if gate == GATE_CONFIGURATION then false else configurationValid;
        envelopeValid := if gate == GATE_ENVELOPE then false else envelopeValid;
        provenanceValid := if gate == GATE_PROVENANCE then false else provenanceValid;
        signatureValid := if gate == GATE_SIGNATURE then false else signatureValid;
        eventValid := if gate == GATE_EVENT then false else eventValid;
      }
    }

    method Verify() returns (enabled: bool)
      modifies this
      ensures enabled == Enabled(old(Now()), Action.Verify)
      ensures Now() == Attempt(old(Now()), Action.Verify)
    {
      enabled := phase == PHASE_RECEIVED && InputsValid(Now());
      if enabled {
        phase, outputs := PHASE_VERIFIED, 1;
      }
    }

    method Reject() returns (enabled: bool)
      modifies this
      ensures enabled == Enabled(old(Now()), Action.Reject)
      ensures Now() == Attempt(old(Now()), Action.Reject)
    {
      enabled := phase == PHASE_RECEIVED && !InputsValid(Now());
      if enabled {
        phase := PHASE_REJECTED;
      }
    }

    method Consume() returns (enabled: bool)
      modifies this
      ensures enabled == Enabled(old(Now()), Action.Consume)
      ensures Now() == Attempt(old(Now()), Action.Consume)
    {
      enabled := phase == PHASE_VERIFIED && outputs == 1 && consumes == 0;
      if enabled {
        phase, consumes := PHASE_CONSUMED, 1;
      }
    }

    method Retry() returns (enabled: bool)
      ensures enabled == Enabled(Now(), Action.Retry)
      ensures Now() == Attempt(Now(), Action.Retry)
    {
      enabled := phase in {PHASE_VERIFIED, PHASE_REJECTED, PHASE_CONSUMED};
    }

    method Close() returns (enabled: bool)
      modifies this
      ensures enabled == Enabled(old(Now()), Action.Close)
      ensures Now() == Attempt(old(Now()), Action.Close)
    {
      enabled := phase != PHASE_CLOSED;
      if enabled {
        phase := PHASE_CLOSED;
      }
    }
  }

  // ---------------------------------------------------------------------
  // Safety.
  // ---------------------------------------------------------------------

  predicate AuthenticationSafety(s: State) {
    && s.phase in {PHASE_RECEIVED, PHASE_VERIFIED, PHASE_REJECTED, PHASE_CONSUMED, PHASE_CLOSED}
    && s.provider in PROVIDERS
    && 0 <= s.outputs <= 1
    && 0 <= s.consumes <= 1
    && s.consumes <= s.outputs
    && (s.outputs == 1 ==> InputsValid(s) && s.phase in {PHASE_VERIFIED, PHASE_CONSUMED, PHASE_CLOSED})
    && (s.consumes == 1 ==> s.phase in {PHASE_CONSUMED, PHASE_CLOSED})
    && (s.phase == PHASE_RECEIVED ==> s.outputs == 0 && s.consumes == 0)
    && (s.phase == PHASE_REJECTED ==> s.outputs == 0 && s.consumes == 0)
  }

  lemma SafetyIsInductive(s: State, a: Action)
    requires AuthenticationSafety(s) && Enabled(s, a)
    ensures AuthenticationSafety(Apply(s, a))
  {
  }

  // ---------------------------------------------------------------------
  // Runs.
  // ---------------------------------------------------------------------

  /** Every action is enabled when its turn comes. */
  ghost predicate IsRun(s: State, actions: seq<Action>)
    decreases actions
  {
    actions == [] || (Enabled(s, actions[0]) && IsRun(Apply(s, actions[0]), actions[1..]))
  }

  function After(s: State, actions: seq<Action>): State
    decreases actions
  {
    if actions == [] then s else After(Apply(s, actions[0]), actions[1..])
  }

  lemma {:induction false} RunSplit(s: State, x: seq<Action>, y: seq<Action>)
    ensures IsRun(s, x + y) <==> IsRun(s, x) && IsRun(After(s, x), y)
    ensures After(s, x + y) == After(After(s, x), y)
    decreases x
  {
    hide Enabled, Apply;
    if x == [] {
      assert x + y == y;
    } else {
      assert (x + y)[1..] == x[1..] + y;
      RunSplit(Apply(s, x[0]), x[1..], y);
    }
  }

  function Count(actions: seq<Action>, a: Action): nat {
    if actions == [] then 0 else (if actions[0] == a then 1 else 0) + Count(actions[1..], a)
  }

  /** Along any run from a safe state: safety holds at the end, and the two
      counters record exactly how many verify and consume steps there were. */
  lemma {:induction false} SafetyOfRuns(s: State, actions: seq<Action>)
    requires AuthenticationSafety(s) && IsRun(s, actions)
    ensures AuthenticationSafety(After(s, actions))
    ensures After(s, actions).outputs == s.outputs + Count(actions, Action.Verify)
    ensures After(s, actions).consumes == s.consumes + Count(actions, Action.Consume)
    decreases actions
  {
    if actions != [] {
      SafetyIsInductive(s, actions[0]);
      CountersRecordStep(s, actions[0]);
      hide AuthenticationSafety, Enabled, Apply;
      SafetyOfRuns(Apply(s, actions[0]), actions[1..]);
    }
  }

  lemma CountersRecordStep(s: State, a: Action)
    requires AuthenticationSafety(s) && Enabled(s, a)
    ensures Apply(s, a).outputs == s.outputs + (if a == Action.Verify then 1 else 0)
    ensures Apply(s, a).consumes == s.consumes + (if a == Action.Consume then 1 else 0)
  {
  }

  lemma {:induction false} Decided(s: State, actions: seq<Action>)
    requires IsRun(s, actions)
    requires s.phase != PHASE_RECEIVED
    ensures var e := After(s, actions);
            && e.phase != PHASE_RECEIVED
            && e.provider == s.provider
            && e.configurationValid == s.configurationValid && e.envelopeValid == s.envelopeValid
            && e.provenanceValid == s.provenanceValid && e.signatureValid == s.signatureValid
            && e.eventValid == s.eventValid
            && e.outputs == s.outputs
            && Count(actions, Action.Verify) == 0 && Count(actions, Action.Reject) == 0
    decreases actions
  {
    if actions != [] {
      Decided(Apply(s, actions[0]), actions[1..]);
    }
  }

  /** From receipt, for every provider and every run: safety; at most one verify
      and one consume, the latter only with the former; never both a verify and
      a reject. */
  lemma RunsAreSafe(provider: int, actions: seq<Action>)
    requires provider in PROVIDERS && IsRun(Initial(provider), actions)
    ensures AuthenticationSafety(After(Initial(provider), actions))
    ensures Count(actions, Action.Consume) <= Count(actions, Action.Verify) <= 1
    ensures Count(actions, Action.Verify) + Count(actions, Action.Reject) <= 1
    ensures After(Initial(provider), actions).outputs == Count(actions, Action.Verify)
  {
    SafetyOfRuns(Initial(provider), actions);
    OneDecision(Initial(provider), actions);
  }

  lemma {:induction false} OneDecision(s: State, actions: seq<Action>)
    requires IsRun(s, actions)
    ensures Count(actions, Action.Verify) + Count(actions, Action.Reject) <= 1
    decreases actions
  {
    if actions != [] {
      var next := Apply(s, actions[0]);
      if actions[0] == Action.Verify || actions[0] == Action.Reject {
        Decided(next, actions[1..]);
      } else {
        OneDecision(next, actions[1..]);
      }
    }
  }

  /** Consuming needs an earlier verify in the same run. */
  lemma ConsumeNeedsVerify(provider: int, before: seq<Action>, after: seq<Action>)
    requires provider in PROVIDERS && IsRun(Initial(provider), before + [Action.Consume] + after)
    ensures Count(before, Action.Verify) == 1
    ensures Count(before, Action.Consume) == 0 && Count(after, Action.Consume) == 0
  {
    var s := Initial(provider);
    RunSplit(s, before + [Action.Consume], after);
    RunSplit(s, before, [Action.Consume]);
    SafetyOfRuns(s, before);
    SafetyOfRuns(s, before + [Action.Consume]);
    SafetyOfRuns(After(s, before + [Action.Consume]), after);
    CountAppend(before, Action.Consume, Action.Consume);
  }

  lemma {:induction false} CountAppend(x: seq<Action>, b: Action, a: Action)
    ensures Count(x + [b], a) == Count(x, a) + (if b == a then 1 else 0)
  {
    if x == [] {
      assert x + [b] == [b];
    } else {
      assert (x + [b])[1..] == x[1..] + [b];
      CountAppend(x[1..], b, a);
    }
  }

  /** Once the phase has left RECEIVED, gates, provider and verdict are frozen
      for the rest of the run, whatever it does. */
  lemma FrozenAfterDecision(provider: int, before: seq<Action>, after: seq<Action>)
    requires provider in PROVIDERS && IsRun(Initial(provider), before + after)
    requires After(Initial(provider), before).phase != PHASE_RECEIVED
    ensures var s, e := After(Initial(provider), before), After(Initial(provider), before + after);
            && e.outputs == s.outputs
            && e.provider == provider
            && (InputsValid(e) <==> InputsValid(s))
            && e.(phase := s.phase, consumes := s.consumes) == s
  {
    RunSplit(Initial(provider), before, after);
    Decided(After(Initial(provider), before), after);
    ProviderKept(Initial(provider), before);
  }

  lemma {:induction false} ProviderKept(s: State, actions: seq<Action>)
    ensures After(s, actions).provider == s.provider
    decreases actions
  {
    if actions != [] {
      ProviderKept(Apply(s, actions[0]), actions[1..]);
    }
  }

  /** The state after a run, by what the run has done. */
  lemma {:induction false} HistoryDecides(provider: int, h: seq<Action>)
    requires provider in PROVIDERS && IsRun(Initial(provider), h)
    ensures Matches(After(Initial(provider), h), h)
  {
    var s := Initial(provider);
    if h == [] {
      assert After(s, h) == s;
    } else {
      var n := |h| - 1;
      assert h == h[..n] + [h[n]];
      RunSplit(s, h[..n], [h[n]]);
      HistoryDecides(provider, h[..n]);
      StepRecorded(After(s, h[..n]), h[..n], h[n]);
      OneStep(After(s, h[..n]), h[n]);
    }
  }

  lemma OneStep(s: State, a: Action)
    ensures IsRun(s, [a]) <==> Enabled(s, a)
    ensures After(s, [a]) == Apply(s, a)
  {
    assert [a][1..] == [];
  }

  ghost predicate Matches(s: State, h: seq<Action>) {
    && s.provider in PROVIDERS
    && PhaseMatches(s.phase, h)
    && s.outputs == (if Action.Verify in h then 1 else 0)
    && s.consumes == (if Action.Consume in h then 1 else 0)
    && (s.configurationValid <==> Action.Invalidate(GATE_CONFIGURATION) !in h)
    && (s.envelopeValid <==> Action.Invalidate(GATE_ENVELOPE) !in h)
    && (s.provenanceValid <==> Action.Invalidate(GATE_PROVENANCE) !in h)
    && (s.signatureValid <==> Action.Invalidate(GATE_SIGNATURE) !in h)
    && (s.eventValid <==> Action.Invalidate(GATE_EVENT) !in h)
  }

  predicate PhaseMatches(phase: int, h: seq<Action>) {
    && (Action.Verify in h ==> Action.Reject !in h)
    && (Action.Consume in h ==> Action.Verify in h)
    && phase ==
       if Action.Close in h then PHASE_CLOSED
       else if Action.Consume in h then PHASE_CONSUMED
       else if Action.Verify in h then PHASE_VERIFIED
       else if Action.Reject in h then PHASE_REJECTED
       else PHASE_RECEIVED
  }

  lemma StepRecorded(s: State, h: seq<Action>, a: Action)
    requires Matches(s, h) && Enabled(s, a)
    ensures Matches(Apply(s, a), h + [a])
  {
    assert forall b :: b in h + [a] <==> b in h || b == a;
  }

  /** What may come next in a run, told from what it has done alone. */
  ghost predicate MayFollow(h: seq<Action>, a: Action) {
    var undecided := Action.Verify !in h && Action.Reject !in h && Action.Close !in h;
    var spoiled := exists gate :: gate in GATES && Action.Invalidate(gate) in h;
    match a
    case Invalidate(gate) => undecided && gate in GATES
    case Verify => undecided && !spoiled
    case Reject => undecided && spoiled
    case Consume => Action.Verify in h && Action.Consume !in h && Action.Close !in h
    case Retry => (Action.Verify in h || Action.Reject in h) && Action.Close !in h
    case Close => Action.Close !in h
    case Idle => true
  }

  /** A run can go on with an action exactly when its history allows it: one that
      verified and has not consumed can consume, one not closed can close. */
  lemma NextExactly(provider: int, h: seq<Action>, a: Action)
    requires provider in PROVIDERS
    ensures IsRun(Initial(provider), h + [a]) <==> IsRun(Initial(provider), h) && MayFollow(h, a)
  {
    var s := Initial(provider);
    RunSplit(s, h, [a]);
    if IsRun(s, h) {
      HistoryDecides(provider, h);
      OneStep(After(s, h), a);
      hide IsRun, After;
      assert (exists gate :: gate in GATES && Action.Invalidate(gate) in h) <==>
             (|| Action.Invalidate(GATE_CONFIGURATION) in h || Action.Invalidate(GATE_ENVELOPE) in h
              || Action.Invalidate(GATE_PROVENANCE) in h || Action.Invalidate(GATE_SIGNATURE) in h
              || Action.Invalidate(GATE_EVENT) in h);
    }
  }

  /** Closing creates no output, then or later. */
  lemma CloseCreatesNothing(provider: int, before: seq<Action>, after: seq<Action>)
    requires provider in PROVIDERS && IsRun(Initial(provider), before + [Action.Close] + after)
    ensures After(Initial(provider), before + [Action.Close] + after).outputs ==
            After(Initial(provider), before).outputs
    ensures Count(after, Action.Verify) == 0 && Count(after, Action.Consume) == 0
  {
    var s := Initial(provider);
    RunSplit(s, before + [Action.Close], after);
    RunSplit(s, before, [Action.Close]);
    var closed := After(s, before + [Action.Close]);
    assert After(After(s, before), [Action.Close]) == Apply(After(s, before), Action.Close) by {
      assert [Action.Close][1..] == [];
    }
    Decided(closed, after);
    ClosedForever(closed, after);
  }

  lemma {:induction false} ClosedForever(s: State, actions: seq<Action>)
    requires s.phase == PHASE_CLOSED && IsRun(s, actions)
    ensures After(s, actions) == s && Count(actions, Action.Consume) == 0
    decreases actions
  {
    if actions != [] {
      assert Apply(s, actions[0]) == s;
      ClosedForever(s, actions[1..]);
    }
  }
}

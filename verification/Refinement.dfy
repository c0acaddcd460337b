/** Both verifiers follow the lifecycle: the five gates are read off a call, and
    the verdict is the lifecycle's decision, for every call and every number of
    repetitions. */
module Refinement {
  import opened Outcomes
  import opened Events
  import opened Gates
  import L = Lifecycle
  import StripeHeader
  import Text
  import Stripe
  import Paypal

  /** The five gates of one call. */
  datatype Readings = Readings(configuration: bool, envelope: bool, provenance: bool, signature: bool, event: bool) {
    predicate AllHold() {
      configuration && envelope && provenance && signature && event
    }
  }

  function StripeReadings(lib: Stripe.Library, call: Stripe.Call): Readings {
    var parsed := StripeHeader.Parsed(call.header);
    var (t, candidates) := if parsed.Ok? then parsed.value else (0, []);
    Readings(
      call.secret != "" && lib.acceptsKey(call.secret),
      parsed.Ok?,
      !Stripe.OutOfTolerance(call.now, t, call.tolerance),
      Stripe.AnyMatches(candidates, Stripe.Tag(lib, call, t)),
      Stripe.EventOf(lib, call).Ok?)
  }

  function PaypalReadings<S, K>(lib: Paypal.Library<S, K>, call: Paypal.Call): Readings {
    Readings(
      Text.EqualIgnoringCase(call.t.authAlgo, "SHA256withRSA") && call.webhookId != "",
      Paypal.DecodedSignature(lib, call).Some? && lib.keyFromCertificate(call.certPem).Some?,
      Paypal.CertUrlIsPaypal(lib.parseUrl(call.t.certUrl)),
      Paypal.SignatureHolds(lib, call),
      Paypal.EventOf(lib, call).Ok?)
  }

  /** Stripe accepts exactly the calls whose five gates all hold. */
  lemma StripeAcceptsWhenAllHold(lib: Stripe.Library, call: Stripe.Call)
    ensures Stripe.VerdictOf(lib, call).Ok? <==> StripeReadings(lib, call).AllHold()
  {
    Stripe.FirstFailureOfSix(Stripe.Checks(lib, call));
    hide FirstFailure, StripeHeader.Parsed, Stripe.OutOfTolerance, Stripe.AnyMatches, Stripe.Tag, FromBody;
  }

  /** PayPal accepts exactly the calls whose five gates all hold. */
  lemma PaypalAcceptsWhenAllHold<S, K>(lib: Paypal.Library<S, K>, call: Paypal.Call)
    ensures Paypal.Verify(lib, call).Ok? <==> PaypalReadings(lib, call).AllHold()
  {
  }

  // ---------------------------------------------------------------------
  // One call, repeated, as a run of the lifecycle.
  // ---------------------------------------------------------------------

  function InvalidateUnless(holds: bool, gate: int): seq<L.Action> {
    if holds then [] else [L.Action.Invalidate(gate)]
  }

  /** The steps that bring a fresh input to the given readings, then the rest. */
  function InvalidateThen(r: Readings, rest: seq<L.Action>): seq<L.Action> {
    InvalidateUnless(r.configuration, L.GATE_CONFIGURATION) + (
    InvalidateUnless(r.envelope, L.GATE_ENVELOPE) + (
    InvalidateUnless(r.provenance, L.GATE_PROVENANCE) + (
    InvalidateUnless(r.signature, L.GATE_SIGNATURE) + (
    InvalidateUnless(r.event, L.GATE_EVENT) + rest))))
  }

  function Received(provider: int, r: Readings): L.State {
    L.Initial(provider).(configurationValid := r.configuration, envelopeValid := r.envelope,
                         provenanceValid := r.provenance, signatureValid := r.signature, eventValid := r.event)
  }

  function Retries(n: nat): seq<L.Action> {
    if n == 0 then [] else [L.Action.Retry] + Retries(n - 1)
  }

  /** A first call that was decided and n repetitions of it. */
  function Session(r: Readings, accepted: bool, n: nat): seq<L.Action> {
    InvalidateThen(r, [if accepted then L.Action.Verify else L.Action.Reject] + Retries(n))
  }

  /** The state after one gate has been read. */
  function Read(s: L.State, holds: bool, gate: int): L.State {
    if holds then s else L.Apply(s, L.Action.Invalidate(gate))
  }

  lemma ReadStep(s: L.State, holds: bool, gate: int, rest: seq<L.Action>)
    requires s.phase == L.PHASE_RECEIVED && gate in L.GATES
    ensures var s' := Read(s, holds, gate);
            && s'.phase == L.PHASE_RECEIVED
            && (L.IsRun(s, InvalidateUnless(holds, gate) + rest) <==> L.IsRun(s', rest))
            && L.After(s, InvalidateUnless(holds, gate) + rest) == L.After(s', rest)
  {
    var first := InvalidateUnless(holds, gate);
    if holds {
      assert first + rest == rest;
    } else {
      assert (first + rest)[1..] == rest;
    }
  }

  lemma ReadAll(provider: int, r: Readings)
    ensures var s1 := Read(L.Initial(provider), r.configuration, L.GATE_CONFIGURATION);
            var s2 := Read(s1, r.envelope, L.GATE_ENVELOPE);
            var s3 := Read(s2, r.provenance, L.GATE_PROVENANCE);
            var s4 := Read(s3, r.signature, L.GATE_SIGNATURE);
            Read(s4, r.event, L.GATE_EVENT) == Received(provider, r)
  {
  }

  lemma InvalidationsReach(provider: int, r: Readings, rest: seq<L.Action>)
    ensures L.IsRun(L.Initial(provider), InvalidateThen(r, rest)) <==> L.IsRun(Received(provider, r), rest)
    ensures L.After(L.Initial(provider), InvalidateThen(r, rest)) == L.After(Received(provider, r), rest)
  {
    ReadAll(provider, r);
    hide L.IsRun, L.After, Read, InvalidateUnless, Received;
    var s0 := L.Initial(provider);
    var s1 := Read(s0, r.configuration, L.GATE_CONFIGURATION);
    var s2 := Read(s1, r.envelope, L.GATE_ENVELOPE);
    var s3 := Read(s2, r.provenance, L.GATE_PROVENANCE);
    var s4 := Read(s3, r.signature, L.GATE_SIGNATURE);
    var a5 := InvalidateUnless(r.event, L.GATE_EVENT) + rest;
    var a4 := InvalidateUnless(r.signature, L.GATE_SIGNATURE) + a5;
    var a3 := InvalidateUnless(r.provenance, L.GATE_PROVENANCE) + a4;
    var a2 := InvalidateUnless(r.envelope, L.GATE_ENVELOPE) + a3;
    ReadStep(s0, r.configuration, L.GATE_CONFIGURATION, a2);
    ReadStep(s1, r.envelope, L.GATE_ENVELOPE, a3);
    ReadStep(s2, r.provenance, L.GATE_PROVENANCE, a4);
    ReadStep(s3, r.signature, L.GATE_SIGNATURE, a5);
    ReadStep(s4, r.event, L.GATE_EVENT, rest);
  }

  lemma {:induction false} RetriesChangeNothing(s: L.State, n: nat)
    requires L.Enabled(s, L.Action.Retry)
    ensures L.IsRun(s, Retries(n)) && L.After(s, Retries(n)) == s
  {
    if n > 0 {
      assert Retries(n)[1..] == Retries(n - 1);
      RetriesChangeNothing(s, n - 1);
    }
  }

  /** The session is a run of the lifecycle exactly when the decision is the one
      the gates dictate; it then ends in that decision, unchanged by the
      repetitions. */
  lemma SessionIsRun(provider: int, r: Readings, accepted: bool, n: nat)
    requires provider in L.PROVIDERS
    ensures L.IsRun(L.Initial(provider), Session(r, accepted, n)) <==> (accepted <==> r.AllHold())
    ensures (accepted <==> r.AllHold()) ==>
              L.After(L.Initial(provider), Session(r, accepted, n)) ==
              Received(provider, r).(phase := if accepted then L.PHASE_VERIFIED else L.PHASE_REJECTED,
                                     outputs := if accepted then 1 else 0)
  {
    var decision := if accepted then L.Action.Verify else L.Action.Reject;
    var s := Received(provider, r);
    InvalidationsReach(provider, r, [decision] + Retries(n));
    assert L.InputsValid(s) <==> r.AllHold();
    var d := L.Apply(s, decision);
    assert ([decision] + Retries(n))[1..] == Retries(n);
    RetriesChangeNothing(d, n);
  }

  /** Every Stripe call, made once and then n more times, is a lifecycle run that
      ends verified with one output when the verdict is Ok and rejected without
      output when it is Err; and no other decision would have been a run. */
  lemma StripeRefinesLifecycle(lib: Stripe.Library, call: Stripe.Call, n: nat)
    ensures var r, accepted := StripeReadings(lib, call), Stripe.VerdictOf(lib, call).Ok?;
            var end := L.After(L.Initial(L.PROVIDER_STRIPE), Session(r, accepted, n));
            && L.IsRun(L.Initial(L.PROVIDER_STRIPE), Session(r, accepted, n))
            && !L.IsRun(L.Initial(L.PROVIDER_STRIPE), Session(r, !accepted, n))
            && end.phase == (if accepted then L.PHASE_VERIFIED else L.PHASE_REJECTED)
            && end.outputs == (if accepted then 1 else 0)
            && L.AuthenticationSafety(end)
  {
    var r, accepted := StripeReadings(lib, call), Stripe.VerdictOf(lib, call).Ok?;
    StripeAcceptsWhenAllHold(lib, call);
    SessionIsRun(L.PROVIDER_STRIPE, r, accepted, n);
    SessionIsRun(L.PROVIDER_STRIPE, r, !accepted, n);
    L.RunsAreSafe(L.PROVIDER_STRIPE, Session(r, accepted, n));
  }

  /** The same for every PayPal call. */
  lemma PaypalRefinesLifecycle<S, K>(lib: Paypal.Library<S, K>, call: Paypal.Call, n: nat)
    ensures var r, accepted := PaypalReadings(lib, call), Paypal.Verify(lib, call).Ok?;
            var end := L.After(L.Initial(L.PROVIDER_PAYPAL), Session(r, accepted, n));
            && L.IsRun(L.Initial(L.PROVIDER_PAYPAL), Session(r, accepted, n))
            && !L.IsRun(L.Initial(L.PROVIDER_PAYPAL), Session(r, !accepted, n))
            && end.phase == (if accepted then L.PHASE_VERIFIED else L.PHASE_REJECTED)
            && end.outputs == (if accepted then 1 else 0)
            && L.AuthenticationSafety(end)
  {
    var r, accepted := PaypalReadings(lib, call), Paypal.Verify(lib, call).Ok?;
    PaypalAcceptsWhenAllHold(lib, call);
    SessionIsRun(L.PROVIDER_PAYPAL, r, accepted, n);
    SessionIsRun(L.PROVIDER_PAYPAL, r, !accepted, n);
    L.RunsAreSafe(L.PROVIDER_PAYPAL, Session(r, accepted, n));
  }
}

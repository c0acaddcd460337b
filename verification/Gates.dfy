/** A chain of checks in code order, each with the error it reports. */
module Gates {
  import opened Outcomes

  datatype Gate<+E> = Gate(holds: bool, error: E)

  /** The error of the first gate that does not hold. */
  function FirstFailure<E>(gates: seq<Gate<E>>): Option<E> {
    if gates == [] then None
    else if !gates[0].holds then Some(gates[0].error)
    else FirstFailure(gates[1..])
  }

  ghost predicate FailsFirstAt<E>(gates: seq<Gate<E>>, k: nat) {
    && k < |gates|
    && !gates[k].holds
    && forall j :: 0 <= j < k ==> gates[j].holds
  }

  lemma {:induction false} FirstFailureAt<E>(gates: seq<Gate<E>>, k: nat)
    requires FailsFirstAt(gates, k)
    ensures FirstFailure(gates) == Some(gates[k].error)
  {
    if k > 0 {
      FirstFailureAt(gates[1..], k - 1);
    }
  }

  lemma {:induction false} SomeFailureIsFirst<E>(gates: seq<Gate<E>>) returns (k: nat)
    requires FirstFailure(gates).Some?
    ensures FailsFirstAt(gates, k)
  {
    if gates[0].holds {
      var j := SomeFailureIsFirst(gates[1..]);
      k := j + 1;
    } else {
      k := 0;
    }
  }

  /** The chain passes exactly when every gate holds, and otherwise reports the
      error of the one failing gate that has no failing gate before it. */
  lemma {:induction false} FirstFailureExact<E>(gates: seq<Gate<E>>, e: E)
    ensures FirstFailure(gates) == None <==> forall k :: 0 <= k < |gates| ==> gates[k].holds
    ensures FirstFailure(gates) == Some(e) <==> exists k: nat :: FailsFirstAt(gates, k) && gates[k].error == e
  {
    if FirstFailure(gates).Some? {
      var k := SomeFailureIsFirst(gates);
      FirstFailureAt(gates, k);
    }
    forall k: nat | FailsFirstAt(gates, k)
      ensures FirstFailure(gates) == Some(gates[k].error)
    {
      FirstFailureAt(gates, k);
    }
    NoFailure(gates);
  }

  lemma {:induction false} NoFailure<E>(gates: seq<Gate<E>>)
    ensures FirstFailure(gates) == None <==> forall k :: 0 <= k < |gates| ==> gates[k].holds
  {
    if gates != [] {
      NoFailure(gates[1..]);
      assert forall k :: 0 <= k < |gates| - 1 ==> gates[k + 1] == gates[1..][k];
    }
  }
}

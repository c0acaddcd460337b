/** The queue-and-seen exploration, over any successor function on a finite set
    of states, with the checks it makes on the way. */
module Explorer {
  ghost predicate IsPath<T(!new)>(next: T -> seq<T>, path: seq<T>) {
    && path != []
    && forall i :: 0 <= i < |path| - 1 ==> path[i + 1] in next(path[i])
  }

  ghost predicate PathTo<T(!new)>(next: T -> seq<T>, init: T, path: seq<T>, x: T) {
    IsPath(next, path) && path[0] == init && path[|path| - 1] == x
  }

  ghost predicate Reachable<T(!new)>(next: T -> seq<T>, init: T, x: T) {
    exists path :: PathTo(next, init, path, x)
  }

  /** What the exploration asserts of each state it takes up and of each
      transition out of it. */
  datatype Checks<!T> = Checks(stateOk: T -> bool, edgeOk: (T, T) -> bool)

  predicate Passes<T(!new)>(next: T -> seq<T>, checks: Checks<T>, x: T) {
    checks.stateOk(x) && forall i :: 0 <= i < |next(x)| ==> checks.edgeOk(x, next(x)[i])
  }

  ghost predicate AllPass<T(!new)>(next: T -> seq<T>, checks: Checks<T>, init: T) {
    forall x :: Reachable(next, init, x) ==> Passes(next, checks, x)
  }

  /** A failed assertion, or the states seen and the transitions counted. */
  datatype Outcome<T> = Panicked | Explored(seen: set<T>, edges: nat)

  ghost predicate Distinct<T>(s: seq<T>) {
    forall i, j :: 0 <= i < j < |s| ==> s[i] != s[j]
  }

  function Elements<T>(s: seq<T>): set<T> {
    set x | x in s
  }

  /** One slot for each position in each state's successor list. */
  ghost function Slots<T(!new)>(next: T -> seq<T>, states: set<T>): set<(T, int)> {
    set x, i | x in states && 0 <= i < |next(x)| :: (x, i)
  }

  function OutDegrees<T>(next: T -> seq<T>, states: seq<T>): nat {
    if states == [] then 0 else |next(states[0])| + OutDegrees(next, states[1..])
  }

  lemma {:induction false} OutDegreesAppend<T>(next: T -> seq<T>, states: seq<T>, x: T)
    ensures OutDegrees(next, states + [x]) == OutDegrees(next, states) + |next(x)|
  {
    if states == [] {
      assert states + [x] == [x];
    } else {
      assert (states + [x])[1..] == states[1..] + [x];
      OutDegreesAppend(next, states[1..], x);
    }
  }

  lemma {:induction false} SlotsOfOne<T(!new)>(x: T, n: nat)
    ensures |set i | 0 <= i < n :: (x, i)| == n
  {
    if n > 0 {
      SlotsOfOne(x, n - 1);
      var fewer := set i | 0 <= i < n - 1 :: (x, i);
      assert (set i | 0 <= i < n :: (x, i)) == fewer + {(x, n - 1)};
    }
  }

  /** Adding up successor counts over distinct states counts their slots. */
  lemma {:induction false} OutDegreesCountSlots<T(!new)>(next: T -> seq<T>, states: seq<T>)
    requires Distinct(states)
    ensures OutDegrees(next, states) == |Slots(next, Elements(states))|
  {
    if states == [] {
      assert Slots(next, Elements(states)) == {};
    } else {
      var x, rest := states[0], states[1..];
      OutDegreesCountSlots(next, rest);
      SlotsOfOne(x, |next(x)|);
      var own := set i | 0 <= i < |next(x)| :: (x, i);
      assert x !in Elements(rest);
      assert Elements(states) == Elements(rest) + {x};
      assert Slots(next, Elements(states)) == Slots(next, Elements(rest)) + own;
      assert Slots(next, Elements(rest)) !! own;
    }
  }

  lemma StepReachable<T(!new)>(next: T -> seq<T>, init: T, x: T, y: T)
    requires Reachable(next, init, x) && y in next(x)
    ensures Reachable(next, init, y)
  {
    var path :| PathTo(next, init, path, x);
    assert PathTo(next, init, path + [y], y);
  }

  lemma {:induction false} ClosedContainsPath<T(!new)>(next: T -> seq<T>, states: set<T>, path: seq<T>)
    requires IsPath(next, path) && path[0] in states
    requires forall x, y :: x in states && y in next(x) ==> y in states
    ensures path[|path| - 1] in states
    decreases |path|
  {
    if |path| > 1 {
      assert path[1] in next(path[0]);
      assert IsPath(next, path[1..]) by {
        forall i | 0 <= i < |path| - 2
          ensures path[1..][i + 1] in next(path[1..][i])
        {
          assert path[i + 2] in next(path[i + 1]);
        }
      }
      ClosedContainsPath(next, states, path[1..]);
    }
  }

  /** The states taken up and the states waiting are, once each, those seen. */
  ghost predicate Accounts<T>(popped: seq<T>, queue: seq<T>, seen: set<T>) {
    Distinct(popped + queue) && Elements(popped + queue) == seen
  }

  lemma TakeUp<T>(popped: seq<T>, queue: seq<T>, seen: set<T>)
    requires Accounts(popped, queue, seen) && queue != []
    ensures Accounts(popped + [queue[0]], queue[1..], seen)
    ensures queue[0] in seen && Distinct(popped + [queue[0]])
  {
    assert popped + queue == popped + [queue[0]] + queue[1..];
    assert (popped + queue)[|popped|] == queue[0];
    assert popped + [queue[0]] == (popped + queue)[..|popped| + 1];
  }

  lemma Enqueue<T>(popped: seq<T>, queue: seq<T>, seen: set<T>, x: T)
    requires Accounts(popped, queue, seen) && x !in seen
    ensures Accounts(popped, queue + [x], seen + {x})
  {
    assert popped + (queue + [x]) == (popped + queue) + [x];
  }

  lemma AllTakenUp<T>(popped: seq<T>, seen: set<T>)
    requires Accounts(popped, [], seen)
    ensures Distinct(popped) && Elements(popped) == seen
    ensures forall x :: x in seen ==> x in popped
  {
    assert popped + [] == popped;
  }

  lemma NothingMissed<T(!new)>(next: T -> seq<T>, init: T, seen: set<T>)
    requires init in seen
    requires forall x, y :: x in seen && y in next(x) ==> y in seen
    ensures forall x :: Reachable(next, init, x) ==> x in seen
  {
    forall x | Reachable(next, init, x)
      ensures x in seen
    {
      var path :| PathTo(next, init, path, x);
      ClosedContainsPath(next, seen, path);
    }
  }

  lemma InitReachable<T(!new)>(next: T -> seq<T>, init: T)
    ensures Reachable(next, init, init)
  {
    assert PathTo(next, init, [init], init);
  }

  lemma StartAccounts<T>(init: T)
    ensures Accounts([], [init], {init})
  {
  }

  /** Terminates on every finite state space. It fails an assertion exactly when
      some reachable state fails a check; otherwise it has taken up every
      reachable state once and no other, and counted every transition. */
  method Explore<T(!new, ==)>(init: T, next: T -> seq<T>, checks: Checks<T>, ghost universe: set<T>)
    returns (r: Outcome<T>, ghost popped: seq<T>)
    requires init in universe
    requires forall x, y :: x in universe && y in next(x) ==> y in universe
    ensures Distinct(popped)
    ensures r.Explored? <==> AllPass(next, checks, init)
    ensures r.Explored? ==> forall x :: x in r.seen <==> Reachable(next, init, x)
    ensures r.Explored? ==> Elements(popped) == r.seen
    ensures r.Explored? ==> r.edges == |Slots(next, r.seen)|
  {
    hide Reachable, Distinct, Elements, Slots, OutDegrees, Accounts;
    var queue, seen, edges := [init], {init}, 0;
    popped := [];
    InitReachable(next, init);
    StartAccounts(init);
    assert OutDegrees(next, popped) == 0 by {
      NoOutDegrees(next);
    }
    while queue != []
      invariant init in seen && seen <= universe
      invariant Accounts(popped, queue, seen)
      invariant forall x :: x in seen ==> Reachable(next, init, x)
      invariant forall x, y :: x in popped && y in next(x) ==> y in seen
      invariant forall x :: x in popped ==> Passes(next, checks, x)
      invariant edges == OutDegrees(next, popped)
      decreases universe - seen, |queue|
    {
      var state := queue[0];
      TakeUp(popped, queue, seen);
      OutDegreesAppend(next, popped, state);
      queue := queue[1..];
      popped := popped + [state];
      if !checks.stateOk(state) {
        assert !Passes(next, checks, state);
        return Panicked, popped;
      }
      var successors := next(state);
      ghost var before, waiting, counted := seen, queue, edges;
      for i := 0 to |successors|
        invariant before <= seen <= universe
        invariant seen == before ==> queue == waiting
        invariant Accounts(popped, queue, seen)
        invariant forall x :: x in seen ==> Reachable(next, init, x)
        invariant forall k :: 0 <= k < i ==> successors[k] in seen && checks.edgeOk(state, successors[k])
        invariant edges == counted + i
      {
        var nxt := successors[i];
        edges := edges + 1;
        if !checks.edgeOk(state, nxt) {
          assert !Passes(next, checks, state);
          return Panicked, popped;
        }
        StepReachable(next, init, state, nxt);
        if nxt !in seen {
          Enqueue(popped, queue, seen, nxt);
          seen := seen + {nxt};
          queue := queue + [nxt];
        }
      }
    }
    AllTakenUp(popped, seen);
    NothingMissed(next, init, seen);
    OutDegreesCountSlots(next, popped);
    return Explored(seen, edges), popped;
  }

  lemma NoOutDegrees<T>(next: T -> seq<T>)
    ensures OutDegrees(next, []) == 0
  {
  }
}

/** Which verdict a request gets from the admission protocol of src/main.cpp: in every run the shutdown flag
    that it loaded and the increments that it found decide, and nothing else; and a request that finds
    neither the flag nor the limit is let in. */
module Verdicts {
  import opened Admission

  // ---------------------------------------------------------------- what a request finds

  /** In step k of the run request i loads the shutdown flag. */
  predicate Loads(states: seq<State>, actions: seq<Action>, k: nat, i: nat) {
    k < |actions| && k < |states| && actions[k] == Advance(i) && i < |states[k].requests| &&
    states[k].requests[i].pc == Entering && !states[k].requests[i].probe
  }

  /** In step k of the run request i increments the counter. */
  predicate Increments(states: seq<State>, actions: seq<Action>, k: nat, i: nat) {
    k < |actions| && k < |states| && actions[k] == Advance(i) && i < |states[k].requests| &&
    states[k].requests[i].pc == Increment
  }

  /** How many requests hold an increment. */
  function Holders(s: State): nat {
    |Who(s.requests, Holds)|
  }

  ghost predicate FoundFlag(states: seq<State>, actions: seq<Action>, n: nat, i: nat) {
    exists k :: 0 <= k < n && Loads(states, actions, k, i) && states[k].shuttingDown
  }

  ghost predicate FoundNoFlag(states: seq<State>, actions: seq<Action>, n: nat, i: nat) {
    exists k :: 0 <= k < n && Loads(states, actions, k, i) && !states[k].shuttingDown
  }

  ghost predicate FoundFull(states: seq<State>, actions: seq<Action>, limit: nat, n: nat, i: nat) {
    exists k :: 0 <= k < n && Increments(states, actions, k, i) && Holders(states[k]) >= limit
  }

  ghost predicate FoundRoom(states: seq<State>, actions: seq<Action>, limit: nat, n: nat, i: nat) {
    exists k :: 0 <= k < n && Increments(states, actions, k, i) && Holders(states[k]) < limit
  }

  // ---------------------------------------------------------------- one step

  /** Refused for the flag, on its way or done. */
  predicate OnShutdown(r: Request) {
    !r.probe && (r.pc == CountShutdown || (r.verdict == ShutdownRejected && (r.pc == Leaving || r.pc == Done)))
  }

  /** Behind the flag, which was not set. */
  predicate PastFlag(r: Request) {
    r.pc == Increment || r.pc == Compare || r.pc == Undo || r.pc == CountOverload ||
    ((r.pc == Inside || r.pc == Leaving || r.pc == Done) && (r.verdict == OverloadRejected || r.verdict == Admitted))
  }

  /** Refused for the limit. */
  predicate OnOverload(r: Request, limit: nat) {
    (r.pc == Compare && r.current > limit) || r.pc == Undo || r.pc == CountOverload ||
    (r.verdict == OverloadRejected && (r.pc == Leaving || r.pc == Done))
  }

  /** Let in. */
  predicate OnAdmission(r: Request, limit: nat) {
    (r.pc == Compare && r.current <= limit) ||
    (r.verdict == Admitted && (r.pc == Inside || r.pc == Leaving || r.pc == Done))
  }

  /** Where a step of request i leads, by what it finds. */
  lemma GoPaths(s: State, i: nat, limit: nat)
    requires i < |s.requests| && Consistent(s.requests[i], limit) && s.inFlight == Holders(s)
    ensures var r, r' := s.requests[i], Go(s, i, limit).requests[i];
            && (OnShutdown(r') <==> OnShutdown(r) || (r.pc == Entering && !r.probe && s.shuttingDown))
            && (PastFlag(r') <==> PastFlag(r) || (r.pc == Entering && !r.probe && !s.shuttingDown))
            && (OnOverload(r', limit) <==> OnOverload(r, limit) || (r.pc == Increment && Holders(s) >= limit))
            && (OnAdmission(r', limit) <==> OnAdmission(r, limit) || (r.pc == Increment && Holders(s) < limit))
  {
  }

  /** What request i has found in the first n steps is where it is. */
  ghost predicate Fate(states: seq<State>, actions: seq<Action>, limit: nat, n: nat, i: nat)
    requires n < |states| && i < |states[n].requests|
  {
    var r := states[n].requests[i];
    && (OnShutdown(r) <==> FoundFlag(states, actions, n, i))
    && (PastFlag(r) <==> FoundNoFlag(states, actions, n, i))
    && (OnOverload(r, limit) <==> FoundFull(states, actions, limit, n, i))
    && (OnAdmission(r, limit) <==> FoundRoom(states, actions, limit, n, i))
  }

  /** A step of anybody else changes neither. */
  lemma FoundNext(states: seq<State>, actions: seq<Action>, limit: nat, n: nat, i: nat)
    requires n < |actions| && n < |states|
    ensures FoundFlag(states, actions, n + 1, i) <==>
            FoundFlag(states, actions, n, i) || (Loads(states, actions, n, i) && states[n].shuttingDown)
    ensures FoundNoFlag(states, actions, n + 1, i) <==>
            FoundNoFlag(states, actions, n, i) || (Loads(states, actions, n, i) && !states[n].shuttingDown)
    ensures FoundFull(states, actions, limit, n + 1, i) <==>
            FoundFull(states, actions, limit, n, i) ||
            (Increments(states, actions, n, i) && Holders(states[n]) >= limit)
    ensures FoundRoom(states, actions, limit, n + 1, i) <==>
            FoundRoom(states, actions, limit, n, i) ||
            (Increments(states, actions, n, i) && Holders(states[n]) < limit)
  {
    hide Loads, Increments, Holders;
  }

  lemma StepOther(s: State, a: Action, limit: nat, i: nat)
    requires Enabled(s, a) && a != Advance(i) && i < |Step(s, a, limit).requests|
    ensures i < |s.requests| ==> Step(s, a, limit).requests[i] == s.requests[i]
    ensures i >= |s.requests| ==> Step(s, a, limit).requests[i].pc == Arrived
    ensures i >= |s.requests| ==> Step(s, a, limit).requests[i].verdict == Undecided
  {
    hide Go;
    if a.Advance? {
      GoOthers(s, a.i, limit);
    }
  }

  /** A request that has not arrived has found nothing. */
  lemma {:induction false} NothingYet(states: seq<State>, actions: seq<Action>, limit: nat, n: nat, i: nat)
    requires Run(states, actions, limit) && n < |states| && i >= |states[n].requests|
    ensures !FoundFlag(states, actions, n, i) && !FoundNoFlag(states, actions, n, i)
    ensures !FoundFull(states, actions, limit, n, i) && !FoundRoom(states, actions, limit, n, i)
  {
    hide Step, Holders;
    if n > 0 {
      StepGrows(states[n - 1], actions[n - 1], limit);
      NothingYet(states, actions, limit, n - 1, i);
      FoundNext(states, actions, limit, n - 1, i);
    }
  }

  lemma StepGrows(s: State, a: Action, limit: nat)
    requires Enabled(s, a)
    ensures |Step(s, a, limit).requests| >= |s.requests|
  {
    hide Go;
    if a.Advance? {
      GoOthers(s, a.i, limit);
    }
  }

  lemma {:induction false} FateHolds(states: seq<State>, actions: seq<Action>, limit: nat, n: nat, i: nat)
    requires Run(states, actions, limit) && n < |states| && i < |states[n].requests|
    ensures Fate(states, actions, limit, n, i)
  {
    hide Step, Invariant, FoundFlag, FoundNoFlag, FoundFull, FoundRoom, Holders;
    hide OnShutdown, PastFlag, OnOverload, OnAdmission;
    if n > 0 {
      var s, a := states[n - 1], actions[n - 1];
      FoundNext(states, actions, limit, n - 1, i);
      if i < |s.requests| {
        FateHolds(states, actions, limit, n - 1, i);
        if a == Advance(i) {
          RunInvariant(states, actions, limit, n - 1);
          FateStep(s, i, limit);
        } else {
          StepOther(s, a, limit, i);
        }
      } else {
        NothingYet(states, actions, limit, n - 1, i);
        StepOther(s, a, limit, i);
        NewNowhere(states[n].requests[i], limit);
      }
    }
  }

  lemma NewNowhere(r: Request, limit: nat)
    requires r.pc == Arrived && r.verdict == Undecided
    ensures !OnShutdown(r) && !PastFlag(r) && !OnOverload(r, limit) && !OnAdmission(r, limit)
  {
  }

  /** GoPaths under the invariant of the protocol. */
  lemma FateStep(s: State, i: nat, limit: nat)
    requires Invariant(s, limit) && i < |s.requests|
    ensures i < |Step(s, Advance(i), limit).requests|
    ensures var r, r' := s.requests[i], Step(s, Advance(i), limit).requests[i];
            && (OnShutdown(r') <==> OnShutdown(r) || (r.pc == Entering && !r.probe && s.shuttingDown))
            && (PastFlag(r') <==> PastFlag(r) || (r.pc == Entering && !r.probe && !s.shuttingDown))
            && (OnOverload(r', limit) <==> OnOverload(r, limit) || (r.pc == Increment && Holders(s) >= limit))
            && (OnAdmission(r', limit) <==> OnAdmission(r, limit) || (r.pc == Increment && Holders(s) < limit))
  {
    hide Go, OnShutdown, PastFlag, OnOverload, OnAdmission;
    GoPaths(s, i, limit);
    GoOthers(s, i, limit);
  }

  // ---------------------------------------------------------------- the verdict

  lemma DecidedPaths(r: Request, limit: nat)
    requires Consistent(r, limit) && Decided(r)
    ensures OnShutdown(r) <==> r.verdict == ShutdownRejected
    ensures OnOverload(r, limit) <==> r.verdict == OverloadRejected
    ensures OnAdmission(r, limit) <==> r.verdict == Admitted
    ensures PastFlag(r) <==> r.verdict == OverloadRejected || r.verdict == Admitted
  {
  }

  /** In every run, the verdict of a business request that has left before_handle: rejected by shutdown if
      and only if it loaded the flag when it was set; rejected by overload if and only if it loaded the flag
      when it was not set and made its increment when at least `limit` requests held one; let in if and
      only if it found neither. */
  lemma VerdictExactly(states: seq<State>, actions: seq<Action>, limit: nat, n: nat, i: nat)
    requires Run(states, actions, limit) && n < |states| && i < |states[n].requests|
    requires Decided(states[n].requests[i])
    ensures var v := states[n].requests[i].verdict;
            && (v == ShutdownRejected <==> FoundFlag(states, actions, n, i))
            && (v == OverloadRejected <==>
                FoundNoFlag(states, actions, n, i) && FoundFull(states, actions, limit, n, i))
            && (v == Admitted <==> FoundNoFlag(states, actions, n, i) && FoundRoom(states, actions, limit, n, i))
  {
    hide FoundFlag, FoundNoFlag, FoundFull, FoundRoom;
    RunInvariant(states, actions, limit, n);
    FateHolds(states, actions, limit, n, i);
    DecidedPaths(states[n].requests[i], limit);
  }

  /** Without a signal nobody is rejected by shutdown. */
  lemma NoSignalNoShutdown(states: seq<State>, actions: seq<Action>, limit: nat, n: nat, i: nat)
    requires Run(states, actions, limit) && n < |states| && i < |states[n].requests| && Signal !in actions
    ensures states[n].requests[i].verdict != ShutdownRejected && states[n].shutdownRejections == 0
  {
    forall k | 0 <= k < |states|
      ensures !states[k].shuttingDown
    {
      NoSignal(states, actions, limit, k);
      RunInvariant(states, actions, limit, k);
    }
    RunInvariant(states, actions, limit, n);
    forall j | 0 <= j < |states[n].requests|
      ensures !Shut(states[n].requests[j])
    {
      if Shut(states[n].requests[j]) {
        ShutFoundFlag(states, actions, limit, n, j);
      }
    }
    assert Who(states[n].requests, Shut) == {};
  }

  lemma ShutFoundFlag(states: seq<State>, actions: seq<Action>, limit: nat, n: nat, i: nat)
    requires Run(states, actions, limit) && n < |states| && i < |states[n].requests|
    requires Shut(states[n].requests[i])
    ensures FoundFlag(states, actions, n, i)
  {
    hide FoundFlag;
    RunInvariant(states, actions, limit, n);
    assert Consistent(states[n].requests[i], limit);
    ShutIsDecided(states[n].requests[i], limit);
    VerdictExactly(states, actions, limit, n, i);
  }

  lemma ShutIsDecided(r: Request, limit: nat)
    requires Consistent(r, limit) && Shut(r)
    ensures Decided(r)
  {
  }

  lemma {:induction false} NoSignal(states: seq<State>, actions: seq<Action>, limit: nat, n: nat)
    requires Run(states, actions, limit) && n < |states| && Signal !in actions
    ensures !states[n].signalled
  {
    hide Go;
    if n > 0 {
      NoSignal(states, actions, limit, n - 1);
      if actions[n - 1].Advance? {
        GoWatcher(states[n - 1], actions[n - 1].i, limit);
      }
    }
  }

  // ---------------------------------------------------------------- progress

  /** How many steps request i still needs at most to leave before_handle. */
  function Remaining(pc: Pc): nat {
    match pc
    case Arrived => 6
    case Entering => 5
    case Increment => 4
    case Compare => 3
    case Undo => 2
    case CountShutdown | CountOverload => 1
    case Inside | Leaving | Done => 0
  }

  function Minus(a: nat, b: nat): nat {
    if a >= b then a - b else 0
  }

  /** The steps of request i among the actions. */
  function StepsOf(actions: seq<Action>, i: nat): nat {
    if actions == [] then 0
    else StepsOf(actions[..|actions| - 1], i) + if actions[|actions| - 1] == Advance(i) then 1 else 0
  }

  lemma GoProgress(s: State, i: nat, limit: nat)
    requires i < |s.requests|
    ensures Remaining(Go(s, i, limit).requests[i].pc) <= Minus(Remaining(s.requests[i].pc), 1)
    ensures Go(s, i, limit).requests[i].probe == s.requests[i].probe
    ensures Go(s, i, limit).requests[i].valid == s.requests[i].valid
  {
  }

  /** Whatever the others do, every step of a request brings it nearer to its verdict. */
  lemma {:induction false} Progress(states: seq<State>, actions: seq<Action>, limit: nat, k: nat, n: nat, i: nat)
    requires Run(states, actions, limit) && k <= n < |states| && i < |states[k].requests|
    ensures i < |states[n].requests|
    ensures states[n].requests[i].probe == states[k].requests[i].probe
    ensures states[n].requests[i].valid == states[k].requests[i].valid
    ensures Remaining(states[n].requests[i].pc) <= Minus(Remaining(states[k].requests[i].pc), StepsOf(actions[k..n], i))
    decreases n - k
  {
    hide Go, Remaining;
    if k < n {
      Progress(states, actions, limit, k, n - 1, i);
      assert actions[k..n][..n - k - 1] == actions[k..n - 1];
      var s, a := states[n - 1], actions[n - 1];
      StepGrows(s, a, limit);
      if a == Advance(i) {
        GoProgress(s, i, limit);
      } else {
        StepOther(s, a, limit, i);
      }
    }
  }

  /** A request that may still be let in: it has not loaded the flag yet. */
  predicate Fresh(r: Request) {
    r.pc == Arrived || r.pc == Entering
  }

  /** How many other requests hold an increment. */
  function Others(s: State, i: nat): nat {
    |Who(s.requests, Holds) - {i}|
  }

  lemma FreshFoundNothing(states: seq<State>, actions: seq<Action>, limit: nat, k: nat, i: nat)
    requires Run(states, actions, limit) && k < |states| && i < |states[k].requests| && Fresh(states[k].requests[i])
    ensures !FoundFull(states, actions, limit, k, i)
  {
    hide FoundFlag, FoundNoFlag, FoundFull, FoundRoom;
    FateHolds(states, actions, limit, k, i);
    RunInvariant(states, actions, limit, k);
    assert Consistent(states[k].requests[i], limit);
  }

  /** In every run: a business request that takes six steps of its own, while the flag is not set and fewer
      than `limit` others hold an increment, is let in. */
  lemma AdmittedWhenFree(states: seq<State>, actions: seq<Action>, limit: nat, k: nat, n: nat, i: nat)
    requires Run(states, actions, limit) && k <= n < |states| && i < |states[k].requests|
    requires Fresh(states[k].requests[i]) && states[k].requests[i].valid && !states[k].requests[i].probe
    requires StepsOf(actions[k..n], i) >= 6 && !states[n].shuttingDown
    requires forall m :: k <= m < n ==> Others(states[m], i) < limit
    ensures i < |states[n].requests| && states[n].requests[i].verdict == Admitted
  {
    hide Step, Invariant, FoundFlag, FoundNoFlag, FoundFull, FoundRoom, Others, StepsOf;
    Progress(states, actions, limit, k, n, i);
    RunInvariant(states, actions, limit, n);
    var r := states[n].requests[i];
    assert Consistent(r, limit) by {
      AllAreConsistent(states[n], limit, i);
    }
    LeftIsDecided(r, limit);
    NeverFlag(states, actions, limit, n, i);
    NeverFull(states, actions, limit, k, n, i);
    VerdictExactly(states, actions, limit, n, i);
    DecidedHasVerdict(r, limit);
  }

  lemma AllAreConsistent(s: State, limit: nat, i: nat)
    requires Invariant(s, limit) && i < |s.requests|
    ensures Consistent(s.requests[i], limit)
  {
  }

  lemma LeftIsDecided(r: Request, limit: nat)
    requires Consistent(r, limit) && r.valid && !r.probe && Remaining(r.pc) == 0
    ensures Decided(r)
  {
  }

  lemma DecidedHasVerdict(r: Request, limit: nat)
    requires Consistent(r, limit) && Decided(r)
    ensures r.verdict == ShutdownRejected || r.verdict == OverloadRejected || r.verdict == Admitted
  {
  }

  lemma NeverFlag(states: seq<State>, actions: seq<Action>, limit: nat, n: nat, i: nat)
    requires Run(states, actions, limit) && n < |states| && !states[n].shuttingDown
    ensures !FoundFlag(states, actions, n, i)
  {
    hide Step, Loads;
    forall k | 0 <= k < n
      ensures !states[k].shuttingDown
    {
      DrainIsFinal(states, actions, limit, k, n);
    }
  }

  lemma NeverFull(states: seq<State>, actions: seq<Action>, limit: nat, k: nat, n: nat, i: nat)
    requires Run(states, actions, limit) && k <= n < |states| && i < |states[k].requests|
    requires Fresh(states[k].requests[i]) && forall m :: k <= m < n ==> Others(states[m], i) < limit
    ensures !FoundFull(states, actions, limit, n, i)
  {
    hide Step, Others;
    FreshFoundNothing(states, actions, limit, k, i);
    forall m | 0 <= m < n && Increments(states, actions, m, i)
      ensures Holders(states[m]) < limit
    {
      if m >= k {
        OthersAreHolders(states[m], i);
      }
    }
  }

  lemma OthersAreHolders(s: State, i: nat)
    requires i < |s.requests| && s.requests[i].pc == Increment
    ensures Others(s, i) == Holders(s)
  {
    assert Who(s.requests, Holds) - {i} == Who(s.requests, Holds);
  }
}

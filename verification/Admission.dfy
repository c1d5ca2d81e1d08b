/** Request admission and drain in src/main.cpp: any number of requests run the lifecycle middleware
    between atomic steps on shared counters, in any interleaving, while a watcher turns a shutdown signal
    into drain mode. */
module Admission {
  import Middleware

  datatype Verdict = Undecided | ShutdownRejected | OverloadRejected | Admitted

  /** The next atomic step of a request in Connection::handle. */
  datatype Pc =
    | Arrived        // create the context
    | Entering       // look at the path and load shutting_down
    | CountShutdown  // count the rejection and answer
    | Increment      // fetch_add on the in-flight counter
    | Compare        // compare with the limit
    | Undo           // fetch_sub again
    | CountOverload  // count the rejection and answer
    | Inside         // later middleware and the handler
    | Leaving        // after_handle
    | Done

  /** A request: its path is a probe's, it has the headers it needs, and the locals of its thread. */
  datatype Request = Request(
    probe: bool, valid: bool, pc: Pc, counted: bool, current: int, verdict: Verdict)

  datatype Watcher = Watching | Draining | Stopped

  datatype State = State(
    inFlight: int, shutdownRejections: nat, overloadRejections: nat,
    signalled: bool, shuttingDown: bool, watcher: Watcher, requests: seq<Request>)

  /** An atomic step: a request arrives on a connection whose context may be stale, one of the requests
      goes on, a signal comes in, or the watcher goes on. */
  datatype Action = Arrive(probe: bool, valid: bool, stale: bool) | Advance(i: nat) | Signal | Watch

  function Initial(): State {
    State(0, 0, 0, false, false, Watching, [])
  }

  predicate Enabled(s: State, a: Action) {
    a.Advance? ==> a.i < |s.requests|
  }

  function Put(s: State, i: nat, r: Request): State
    requires i < |s.requests|
  {
    s.(requests := s.requests[i := r])
  }

  /** One atomic step of request i. */
  function Go(s: State, i: nat, limit: nat): State
    requires i < |s.requests|
  {
    var r := s.requests[i];
    match r.pc
    case Arrived => Put(s, i, r.(counted := false, pc := if r.valid then Entering else Done))
    case Entering =>
      Put(s, i, r.(pc := if r.probe then Inside else if s.shuttingDown then CountShutdown else Increment))
    case CountShutdown =>
      Put(s.(shutdownRejections := s.shutdownRejections + 1), i, r.(verdict := ShutdownRejected, pc := Leaving))
    case Increment =>
      Put(s.(inFlight := s.inFlight + 1), i, r.(current := s.inFlight + 1, counted := true, pc := Compare))
    case Compare =>
      Put(s, i, if r.current > limit then r.(pc := Undo) else r.(verdict := Admitted, pc := Inside))
    case Undo => Put(s.(inFlight := s.inFlight - 1), i, r.(counted := false, pc := CountOverload))
    case CountOverload =>
      Put(s.(overloadRejections := s.overloadRejections + 1), i, r.(verdict := OverloadRejected, pc := Leaving))
    case Inside => Put(s, i, r.(pc := Leaving))
    case Leaving => Put(if r.counted then s.(inFlight := s.inFlight - 1) else s, i, r.(pc := Done))
    case Done => s
  }

  function Step(s: State, a: Action, limit: nat): State
    requires Enabled(s, a)
  {
    match a
    case Arrive(probe, valid, stale) =>
      s.(requests := s.requests + [Request(probe, valid, Arrived, stale, 0, Undecided)])
    case Advance(i) => Go(s, i, limit)
    case Signal => s.(signalled := true)
    case Watch =>
      if s.watcher == Watching && s.signalled then s.(shuttingDown := true, watcher := Draining)
      else if s.watcher == Draining then s.(watcher := Stopped)
      else s
  }

  /** The states of a run. */
  predicate Run(states: seq<State>, actions: seq<Action>, limit: nat) {
    |states| == |actions| + 1 && states[0] == Initial() &&
    forall k :: 0 <= k < |actions| ==>
      Enabled(states[k], actions[k]) && states[k + 1] == Step(states[k], actions[k], limit)
  }

  // ---------------------------------------------------------------- who is where

  function Who(rs: seq<Request>, p: Request -> bool): set<nat> {
    set i: nat | i < |rs| && p(rs[i])
  }

  /** The request holds an increment of the in-flight counter. */
  predicate Holds(r: Request) {
    r.pc == Compare || r.pc == Undo || ((r.pc == Inside || r.pc == Leaving) && r.counted)
  }

  /** An admitted business request that is not finished. */
  predicate Busy(r: Request) {
    r.verdict == Admitted && r.pc != Done
  }

  predicate Shut(r: Request) {
    r.verdict == ShutdownRejected
  }

  predicate Overloaded(r: Request) {
    r.verdict == OverloadRejected
  }

  /** What the locals of a request say at each point. */
  predicate Consistent(r: Request, limit: nat) {
    match r.pc
    case Arrived => r.verdict == Undecided
    case Entering => r.valid && r.verdict == Undecided && !r.counted
    case CountShutdown | Increment | CountOverload => r.valid && !r.probe && r.verdict == Undecided && !r.counted
    case Compare => r.valid && !r.probe && r.verdict == Undecided && r.counted
    case Undo => r.valid && !r.probe && r.verdict == Undecided && r.counted && r.current > limit
    case Inside | Leaving =>
      r.valid &&
      (match r.verdict
       case Undecided => r.probe && !r.counted
       case Admitted => !r.probe && r.counted && r.current <= limit
       case ShutdownRejected | OverloadRejected => r.pc == Leaving && !r.probe && !r.counted)
    case Done => (r.valid && !r.probe) == (r.verdict != Undecided)
  }

  lemma WhoPut(rs: seq<Request>, i: nat, r: Request, p: Request -> bool)
    requires i < |rs|
    ensures Who(rs[i := r], p) == Who(rs, p) - {i} + if p(r) then {i} else {}
  {
  }

  lemma WhoSize(rs: seq<Request>, i: nat, r: Request, p: Request -> bool)
    requires i < |rs|
    ensures |Who(rs[i := r], p)| ==
            |Who(rs, p)| - (if p(rs[i]) then 1 else 0) + (if p(r) then 1 else 0)
  {
    WhoPut(rs, i, r, p);
    var rest := Who(rs, p) - {i};
    assert Who(rs, p) == rest + if p(rs[i]) then {i} else {};
  }

  lemma WhoNew(rs: seq<Request>, r: Request, p: Request -> bool)
    requires !p(r)
    ensures Who(rs + [r], p) == Who(rs, p)
  {
  }

  // ---------------------------------------------------------------- the order of increments

  function Elements(q: seq<nat>): set<nat> {
    set i | i in q
  }

  predicate Distinct(q: seq<nat>) {
    forall i, j :: 0 <= i < j < |q| ==> q[i] != q[j]
  }

  /** The holders in the order of their increments: each saw at least the holders up to itself. */
  predicate Queue(rs: seq<Request>, q: seq<nat>) {
    Distinct(q) && Elements(q) == Who(rs, Holds) &&
    forall j :: 0 <= j < |q| ==> q[j] < |rs| && rs[q[j]].current >= j + 1
  }

  lemma {:induction false} ElementsSize(q: seq<nat>)
    ensures |Elements(q)| <= |q| && (Distinct(q) ==> |Elements(q)| == |q|)
  {
    if q != [] {
      var rest := q[..|q| - 1];
      ElementsSize(rest);
      assert q == rest + [q[|q| - 1]];
      assert Elements(q) == Elements(rest) + {q[|q| - 1]};
    }
  }

  lemma QueueJoin(rs: seq<Request>, q: seq<nat>, i: nat, r: Request)
    requires Queue(rs, q) && i < |rs| && !Holds(rs[i]) && Holds(r) && r.current == |q| + 1
    ensures Queue(rs[i := r], q + [i])
  {
    WhoPut(rs, i, r, Holds);
    assert i !in Elements(q);
    assert Elements(q + [i]) == Elements(q) + {i};
    forall j | 0 <= j < |q|
      ensures q[j] != i
    {
      assert q[j] in Elements(q);
    }
  }

  lemma QueueStay(rs: seq<Request>, q: seq<nat>, i: nat, r: Request)
    requires Queue(rs, q) && i < |rs| && Holds(r) == Holds(rs[i]) && (Holds(r) ==> r.current == rs[i].current)
    ensures Queue(rs[i := r], q)
  {
    WhoPut(rs, i, r, Holds);
    forall j | 0 <= j < |q|
      ensures q[j] == i ==> Holds(r)
    {
      assert q[j] in Elements(q);
    }
  }

  lemma QueueLeave(rs: seq<Request>, q: seq<nat>, k: nat, r: Request)
    requires Queue(rs, q) && k < |q| && !Holds(r)
    ensures Queue(rs[q[k] := r], q[..k] + q[k + 1..])
  {
    WhoPut(rs, q[k], r, Holds);
    RemoveAt(q, k);
  }

  lemma RemoveAt(q: seq<nat>, k: nat)
    requires k < |q| && Distinct(q)
    ensures var rest := q[..k] + q[k + 1..];
            Distinct(rest) && Elements(rest) == Elements(q) - {q[k]} &&
            forall j :: 0 <= j < |rest| ==> rest[j] == (if j < k then q[j] else q[j + 1]) && rest[j] != q[k]
  {
    var rest := q[..k] + q[k + 1..];
    forall x | x in Elements(q) && x != q[k]
      ensures x in rest
    {
      var j :| 0 <= j < |q| && q[j] == x;
      assert rest[if j < k then j else j - 1] == x;
    }
  }

  lemma QueueNew(rs: seq<Request>, q: seq<nat>, r: Request)
    requires Queue(rs, q) && !Holds(r)
    ensures Queue(rs + [r], q)
  {
    WhoNew(rs, r, Holds);
  }

  // ---------------------------------------------------------------- the invariant

  predicate AllConsistent(rs: seq<Request>, limit: nat) {
    forall i :: 0 <= i < |rs| ==> Consistent(rs[i], limit)
  }

  predicate Counted(s: State) {
    s.inFlight == |Who(s.requests, Holds)| &&
    s.shutdownRejections == |Who(s.requests, Shut)| &&
    s.overloadRejections == |Who(s.requests, Overloaded)|
  }

  predicate WatcherGood(s: State) {
    (s.shuttingDown <==> s.watcher != Watching) && (s.shuttingDown ==> s.signalled)
  }

  ghost predicate Invariant(s: State, limit: nat) {
    AllConsistent(s.requests, limit) && Counted(s) && WatcherGood(s) && exists q :: Queue(s.requests, q)
  }

  lemma InitialInvariant(limit: nat)
    ensures Invariant(Initial(), limit)
  {
    assert Queue([], []);
  }

  lemma CountedPut(s: State, i: nat, r: Request, s': State)
    requires Counted(s) && i < |s.requests| && s'.requests == s.requests[i := r]
    requires s'.inFlight - s.inFlight == (if Holds(r) then 1 else 0) - (if Holds(s.requests[i]) then 1 else 0)
    requires s'.shutdownRejections - s.shutdownRejections ==
             (if Shut(r) then 1 else 0) - (if Shut(s.requests[i]) then 1 else 0)
    requires s'.overloadRejections - s.overloadRejections ==
             (if Overloaded(r) then 1 else 0) - (if Overloaded(s.requests[i]) then 1 else 0)
    ensures Counted(s')
  {
    hide Who;
    WhoSize(s.requests, i, r, Holds);
    WhoSize(s.requests, i, r, Shut);
    WhoSize(s.requests, i, r, Overloaded);
  }

  lemma GoCounted(s: State, i: nat, limit: nat)
    requires Counted(s) && i < |s.requests| && Consistent(s.requests[i], limit)
    ensures Counted(Go(s, i, limit))
  {
    hide Counted;
    var s' := Go(s, i, limit);
    assert s.requests == s.requests[i := s.requests[i]];
    CountedPut(s, i, s'.requests[i], s');
  }

  lemma GoConsistent(s: State, i: nat, limit: nat)
    requires AllConsistent(s.requests, limit) && i < |s.requests|
    ensures AllConsistent(Go(s, i, limit).requests, limit)
  {
    hide Go, Consistent;
    GoneConsistent(s, i, limit);
    GoOthers(s, i, limit);
  }

  lemma GoneConsistent(s: State, i: nat, limit: nat)
    requires i < |s.requests| && Consistent(s.requests[i], limit)
    ensures |Go(s, i, limit).requests| == |s.requests| && Consistent(Go(s, i, limit).requests[i], limit)
  {
  }

  lemma GoOthers(s: State, i: nat, limit: nat)
    requires i < |s.requests|
    ensures var s' := Go(s, i, limit);
            |s'.requests| == |s.requests| &&
            forall k :: 0 <= k < |s.requests| && k != i ==> s'.requests[k] == s.requests[k]
  {
  }

  lemma GoQueue(s: State, i: nat, limit: nat, q: seq<nat>) returns (q': seq<nat>)
    requires Counted(s) && i < |s.requests| && Consistent(s.requests[i], limit) && Queue(s.requests, q)
    ensures Queue(Go(s, i, limit).requests, q')
  {
    hide Queue, Go, Holds, Who;
    var s' := Go(s, i, limit);
    GoOthers(s, i, limit);
    var r, r' := s.requests[i], s'.requests[i];
    assert s'.requests == s.requests[i := r'];
    GoHolds(s, i, limit);
    if r.pc == Increment {
      QueueLength(s.requests, q);
      QueueJoin(s.requests, q, i, r');
      q' := q + [i];
    } else if Holds(r) && !Holds(r') {
      var k := QueuePosition(s.requests, q, i);
      QueueLeave(s.requests, q, k, r');
      q' := q[..k] + q[k + 1..];
    } else {
      QueueStay(s.requests, q, i, r');
      q' := q;
    }
  }

  /** Who starts to hold an increment, and what a holder has seen. */
  lemma GoHolds(s: State, i: nat, limit: nat)
    requires i < |s.requests| && Consistent(s.requests[i], limit)
    ensures var r, r' := s.requests[i], Go(s, i, limit).requests[i];
            if r.pc == Increment then !Holds(r) && Holds(r') && r'.current == s.inFlight + 1
            else (Holds(r') ==> Holds(r)) && r'.current == r.current
  {
  }

  lemma QueueLength(rs: seq<Request>, q: seq<nat>)
    requires Queue(rs, q)
    ensures |q| == |Who(rs, Holds)|
  {
    ElementsSize(q);
  }

  lemma QueuePosition(rs: seq<Request>, q: seq<nat>, i: nat) returns (k: nat)
    requires Queue(rs, q) && i < |rs| && Holds(rs[i])
    ensures k < |q| && q[k] == i
  {
    assert i in Elements(q);
    k :| k < |q| && q[k] == i;
  }

  /** Every atomic step of every request keeps the invariant. */
  lemma StepInvariant(s: State, a: Action, limit: nat)
    requires Invariant(s, limit) && Enabled(s, a)
    ensures Invariant(Step(s, a, limit), limit)
  {
    hide Queue, Who, Go;
    var q :| Queue(s.requests, q);
    if a.Advance? {
      GoConsistent(s, a.i, limit);
      GoCounted(s, a.i, limit);
      GoWatcher(s, a.i, limit);
      var q' := GoQueue(s, a.i, limit, q);
    } else if a.Arrive? {
      var r := Request(a.probe, a.valid, Arrived, a.stale, 0, Undecided);
      WhoNew(s.requests, r, Holds);
      WhoNew(s.requests, r, Shut);
      WhoNew(s.requests, r, Overloaded);
      QueueNew(s.requests, q, r);
    }
  }

  lemma GoWatcher(s: State, i: nat, limit: nat)
    requires i < |s.requests|
    ensures var s' := Go(s, i, limit);
            s'.watcher == s.watcher && s'.shuttingDown == s.shuttingDown && s'.signalled == s.signalled
  {
  }

  // ---------------------------------------------------------------- whole runs

  lemma {:induction false} RunInvariant(states: seq<State>, actions: seq<Action>, limit: nat, k: nat)
    requires Run(states, actions, limit) && k < |states|
    ensures Invariant(states[k], limit)
  {
    hide Step, Invariant;
    if k == 0 {
      InitialInvariant(limit);
    } else {
      RunInvariant(states, actions, limit, k - 1);
      StepInvariant(states[k - 1], actions[k - 1], limit);
    }
  }

  /** Admitted business requests that are not finished never exceed the limit, although the counter
      itself may. */
  lemma BusyWithinLimit(s: State, limit: nat)
    requires Invariant(s, limit)
    ensures |Who(s.requests, Busy)| <= limit
  {
    var q :| Queue(s.requests, q);
    var k := LastBusy(s.requests, q, |q|);
    var busy := Who(s.requests, Busy);
    forall i | i in busy
      ensures i in Elements(q[..k])
    {
      assert Consistent(s.requests[i], limit) && Holds(s.requests[i]);
      var j := QueuePosition(s.requests, q, i);
      assert q[..k][j] == i;
    }
    assert busy <= Elements(q[..k]);
    SubsetSize(busy, Elements(q[..k]));
    ElementsSize(q[..k]);
    if k > 0 {
      assert Consistent(s.requests[q[k - 1]], limit);
    }
  }

  /** Behind position k of the first n holders nobody is admitted, and the holder before it is. */
  lemma {:induction false} LastBusy(rs: seq<Request>, q: seq<nat>, n: nat) returns (k: nat)
    requires n <= |q| && forall j :: 0 <= j < |q| ==> q[j] < |rs|
    ensures k <= n && (k > 0 ==> Busy(rs[q[k - 1]])) && forall j :: k <= j < n ==> !Busy(rs[q[j]])
  {
    if n == 0 || Busy(rs[q[n - 1]]) {
      k := n;
    } else {
      k := LastBusy(rs, q, n - 1);
    }
  }

  lemma SubsetSize(a: set<nat>, b: set<nat>)
    requires a <= b
    ensures |a| <= |b|
  {
    assert b == a + (b - a);
  }

  predicate Finished(r: Request) {
    r.pc == Done
  }

  /** In every run: the counter is the number of requests that hold an increment, admitted requests
      respect the limit, and at quiescence the counter is back at 0. */
  lemma Safety(states: seq<State>, actions: seq<Action>, limit: nat, k: nat)
    requires Run(states, actions, limit) && k < |states|
    ensures var s := states[k];
            s.inFlight == |Who(s.requests, Holds)| && |Who(s.requests, Busy)| <= limit &&
            ((forall i :: 0 <= i < |s.requests| ==> Finished(s.requests[i])) ==> s.inFlight == 0)
  {
    RunInvariant(states, actions, limit, k);
    BusyWithinLimit(states[k], limit);
    var s := states[k];
    if forall i :: 0 <= i < |s.requests| ==> Finished(s.requests[i]) {
      assert Who(s.requests, Holds) == {};
    }
  }

  /** A business request that has left before_handle. */
  predicate Decided(r: Request) {
    r.valid && !r.probe && (r.pc == Inside || r.pc == Leaving || r.pc == Done)
  }

  /** A request that was let in, whether finished or not. */
  predicate LetIn(r: Request) {
    r.verdict == Admitted
  }

  /** In every state of every run each business request that has left before_handle is counted as exactly
      one of rejected by shutdown, rejected by overload, or let in, and nobody else is counted. */
  lemma CountedExactlyOnce(states: seq<State>, actions: seq<Action>, limit: nat, k: nat)
    requires Run(states, actions, limit) && k < |states|
    ensures var s := states[k];
            var a, b, c := Who(s.requests, Shut), Who(s.requests, Overloaded), Who(s.requests, LetIn);
            Who(s.requests, Decided) == a + b + c && a !! b && a !! c && b !! c &&
            |a| == s.shutdownRejections && |b| == s.overloadRejections &&
            |Who(s.requests, Decided)| == s.shutdownRejections + s.overloadRejections + |c|
  {
    RunInvariant(states, actions, limit, k);
    ThreeWays(states[k].requests, limit);
  }

  /** The decided requests fall into three groups. */
  lemma ThreeWays(rs: seq<Request>, limit: nat)
    requires AllConsistent(rs, limit)
    ensures var a, b, c := Who(rs, Shut), Who(rs, Overloaded), Who(rs, LetIn);
            Who(rs, Decided) == a + b + c && a !! b && a !! c && b !! c && |Who(rs, Decided)| == |a| + |b| + |c|
  {
    hide Consistent, Decided;
    var a, b, c := Who(rs, Shut), Who(rs, Overloaded), Who(rs, LetIn);
    forall i | 0 <= i < |rs|
      ensures Decided(rs[i]) <==> Shut(rs[i]) || Overloaded(rs[i]) || LetIn(rs[i])
    {
      OneWay(rs[i], limit);
    }
    assert Who(rs, Decided) == a + b + c;
    assert a !! b && (a + b) !! c;
  }

  lemma OneWay(r: Request, limit: nat)
    requires Consistent(r, limit)
    ensures Decided(r) <==> Shut(r) || Overloaded(r) || LetIn(r)
  {
  }

  // ---------------------------------------------------------------- shutdown

  /** A business request that loads the flag after it is set, or has done so. */
  predicate Refused(s: State, i: nat) {
    s.shuttingDown && i < |s.requests| &&
    var r := s.requests[i];
    !r.probe && (r.pc == Arrived || r.pc == Entering || r.pc == CountShutdown || r.verdict == ShutdownRejected ||
                 (r.pc == Done && !r.valid)) && r.verdict != Admitted && r.verdict != OverloadRejected
  }

  lemma StepRefused(s: State, a: Action, limit: nat, i: nat)
    requires Invariant(s, limit) && Enabled(s, a) && Refused(s, i)
    ensures Refused(Step(s, a, limit), i)
  {
    hide Go;
    assert Consistent(s.requests[i], limit);
    if a.Advance? {
      GoOthers(s, a.i, limit);
      GoWatcher(s, a.i, limit);
      if a.i == i {
        GoRefused(s, i, limit);
      }
    }
  }

  lemma GoRefused(s: State, i: nat, limit: nat)
    requires Refused(s, i) && Consistent(s.requests[i], limit)
    ensures Refused(Go(s, i, limit), i)
  {
  }

  /** In every run, a business request that has not loaded the shutdown flag when it is set is never
      admitted, nor does it touch the in-flight counter. */
  lemma {:induction false} NoAdmissionAfterShutdown(
    states: seq<State>, actions: seq<Action>, limit: nat, k: nat, n: nat, i: nat)
    requires Run(states, actions, limit) && k <= n < |states|
    requires states[k].shuttingDown && i < |states[k].requests|
    requires states[k].requests[i].pc == Arrived || states[k].requests[i].pc == Entering
    requires !states[k].requests[i].probe
    ensures i < |states[n].requests| && states[n].requests[i].verdict != Admitted && Refused(states[n], i)
    ensures !Holds(states[n].requests[i])
  {
    hide Step, Invariant;
    if k < n {
      NoAdmissionAfterShutdown(states, actions, limit, k, n - 1, i);
      RunInvariant(states, actions, limit, n - 1);
      StepRefused(states[n - 1], actions[n - 1], limit, i);
    } else {
      RunInvariant(states, actions, limit, k);
      EarlyIsRefused(states[k], limit, i);
    }
    RunInvariant(states, actions, limit, n);
    RefusedHoldsNothing(states[n], limit, i);
  }

  lemma EarlyIsRefused(s: State, limit: nat, i: nat)
    requires Invariant(s, limit) && s.shuttingDown && i < |s.requests| && !s.requests[i].probe
    requires s.requests[i].pc == Arrived || s.requests[i].pc == Entering
    ensures Refused(s, i)
  {
    assert Consistent(s.requests[i], limit);
  }

  lemma RefusedHoldsNothing(s: State, limit: nat, i: nat)
    requires Invariant(s, limit) && Refused(s, i)
    ensures !Holds(s.requests[i])
  {
    assert Consistent(s.requests[i], limit);
  }

  /** The shutdown flag is set only after a signal, never taken back, and the server is stopped only
      behind it. */
  lemma {:induction false} DrainIsFinal(states: seq<State>, actions: seq<Action>, limit: nat, k: nat, n: nat)
    requires Run(states, actions, limit) && k <= n < |states|
    ensures states[k].shuttingDown ==> states[n].shuttingDown && states[n].signalled
    ensures states[n].watcher == Stopped ==> states[n].shuttingDown
  {
    RunInvariant(states, actions, limit, n);
    if k < n {
      DrainIsFinal(states, actions, limit, k, n - 1);
      if actions[n - 1].Advance? {
        GoWatcher(states[n - 1], actions[n - 1].i, limit);
      }
    }
  }

  // ---------------------------------------------------------------- the bracket

  /** The application's middleware: logging, lifecycle, error handler and authentication, all global. */
  function AppMiddleware(): seq<nat> {
    [0, 1, 2, 3]
  }

  /** after_handle of the lifecycle middleware, which takes the increment back, is called exactly once
      for every request, whichever later middleware ends the response. */
  lemma LifecycleBracketed(ends: nat -> bool)
    requires !ends(0)
    ensures var t := Middleware.Bracket(AppMiddleware(), ends, 0);
            Middleware.Occurrences(t, Middleware.Before(1)) == 1 &&
            Middleware.Occurrences(t, Middleware.After(1)) == 1
  {
    var list := AppMiddleware();
    var made := Middleware.Made(ends, 0, 4);
    assert made == 1 + Middleware.Made(ends, 1, 3);
    assert list[..made][1] == 1;
    Middleware.CalledOnce(list, ends, 1);
  }

  // ---------------------------------------------------------------- the middleware object

  /** The steps of request i, one after the other, until it has left before_handle. */
  function Alone(s: State, i: nat, limit: nat, fuel: nat): State
    requires i < |s.requests|
    decreases fuel
  {
    if fuel == 0 || s.requests[i].pc == Inside || s.requests[i].pc == Leaving then s
    else
      GoOthers(s, i, limit);
      Alone(Go(s, i, limit), i, limit, fuel - 1)
  }

  /** The lifecycle middleware with the counters it shares, called without interruption. */
  class Lifecycle {
    const limit: nat
    var inFlight: int
    var shutdownRejections: nat
    var overloadRejections: nat
    var shuttingDown: bool

    /** The counters, with one request. */
    ghost function Value(r: Request): State
      reads this
    {
      State(inFlight, shutdownRejections, overloadRejections, shuttingDown, shuttingDown,
            if shuttingDown then Draining else Watching, [r])
    }

    constructor (limit: nat)
      ensures this.limit == limit && inFlight == 0 && shutdownRejections == 0 && overloadRejections == 0 &&
              !shuttingDown
    {
      this.limit := limit;
      inFlight, shutdownRejections, overloadRejections, shuttingDown := 0, 0, 0, false;
    }

    /** before_handle: a probe passes untouched; with the flag set a request is answered and counted as
        rejected by shutdown; without room it is answered and counted as rejected by overload; otherwise it
        holds one more increment. These are the steps from Entering on, at most five of them. */
    method BeforeHandle(r: Request) returns (r': Request)
      requires r.pc == Entering
      modifies this
      ensures shuttingDown == old(shuttingDown)
      ensures r.probe ==>
                r' == r.(pc := Inside) && inFlight == old(inFlight) &&
                shutdownRejections == old(shutdownRejections) && overloadRejections == old(overloadRejections)
      ensures !r.probe && shuttingDown ==>
                r' == r.(verdict := ShutdownRejected, pc := Leaving) && inFlight == old(inFlight) &&
                shutdownRejections == old(shutdownRejections) + 1 && overloadRejections == old(overloadRejections)
      ensures !r.probe && !shuttingDown && old(inFlight) >= limit ==>
                r'.verdict == OverloadRejected && r'.pc == Leaving && !r'.counted && inFlight == old(inFlight) &&
                shutdownRejections == old(shutdownRejections) && overloadRejections == old(overloadRejections) + 1
      ensures !r.probe && !shuttingDown && old(inFlight) < limit ==>
                r'.verdict == Admitted && r'.pc == Inside && r'.counted && inFlight == old(inFlight) + 1 &&
                shutdownRejections == old(shutdownRejections) && overloadRejections == old(overloadRejections)
      ensures Value(r') == Alone(old(Value(r)), 0, limit, 5)
    {
      ghost var s0 := Value(r);
      r' := r;
      if r.probe {
        r' := r.(pc := Inside);
        assert Go(s0, 0, limit) == Value(r');
        return;
      }
      if shuttingDown {
        assert Go(s0, 0, limit) == Value(r.(pc := CountShutdown));
        shutdownRejections := shutdownRejections + 1;
        r' := r.(verdict := ShutdownRejected, pc := Leaving);
        assert Go(Go(s0, 0, limit), 0, limit) == Value(r');
        return;
      }
      r' := r.(pc := Increment);
      ghost var s1 := Value(r');
      assert Go(s0, 0, limit) == s1;
      inFlight := inFlight + 1;
      r' := r'.(current := inFlight, counted := true, pc := Compare);
      ghost var s2 := Value(r');
      assert Go(s1, 0, limit) == s2;
      if r'.current > limit {
        r' := r'.(pc := Undo);
        ghost var s3 := Value(r');
        assert Go(s2, 0, limit) == s3;
        inFlight := inFlight - 1;
        r' := r'.(counted := false, pc := CountOverload);
        ghost var s4 := Value(r');
        assert Go(s3, 0, limit) == s4;
        overloadRejections := overloadRejections + 1;
        r' := r'.(verdict := OverloadRejected, pc := Leaving);
        assert Go(s4, 0, limit) == Value(r');
      } else {
        r' := r'.(verdict := Admitted, pc := Inside);
        assert Go(s2, 0, limit) == Value(r');
      }
    }

    /** after_handle gives back the increment that the request holds. */
    method AfterHandle(r: Request) returns (r': Request)
      requires r.pc == Leaving
      modifies this
      ensures inFlight == old(inFlight) - (if r.counted then 1 else 0) && shuttingDown == old(shuttingDown)
      ensures shutdownRejections == old(shutdownRejections) && overloadRejections == old(overloadRejections)
      ensures r' == r.(pc := Done)
      ensures Value(r') == Go(old(Value(r)), 0, limit)
    {
      if r.counted {
        inFlight := inFlight - 1;
      }
      r' := r.(pc := Done);
    }
  }
}

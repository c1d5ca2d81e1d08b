/** The request duration metrics of include/metrics.h: any number of observations run in any
    interleaving, each with two fetch_adds and a compare-exchange loop on the shared maximum. */
module Metrics {

  /** The next atomic step of an observation. */
  datatype Pc = AddTotal | AddSample | LoadMax | Test | Exchange | Done

  datatype Observation = Observation(duration: int, pc: Pc, current: int)

  datatype State = State(total: int, samples: int, max: int, observations: seq<Observation>)

  /** A new observation starts, or one goes on; a weak compare-exchange may fail for no reason. */
  datatype Action = Observe(duration: int) | Advance(i: nat, spurious: bool)

  function Initial(): State {
    State(0, 0, 0, [])
  }

  predicate Enabled(s: State, a: Action) {
    a.Advance? ==> a.i < |s.observations|
  }

  function Go(s: State, i: nat, spurious: bool): State
    requires i < |s.observations|
  {
    var o := s.observations[i];
    match o.pc
    case AddTotal => s.(total := s.total + o.duration, observations := s.observations[i := o.(pc := AddSample)])
    case AddSample => s.(samples := s.samples + 1, observations := s.observations[i := o.(pc := LoadMax)])
    case LoadMax => s.(observations := s.observations[i := o.(current := s.max, pc := Test)])
    case Test => s.(observations := s.observations[i := o.(pc := if o.duration > o.current then Exchange else Done)])
    case Exchange =>
      if s.max == o.current && !spurious then
        s.(max := o.duration, observations := s.observations[i := o.(pc := Done)])
      else
        s.(observations := s.observations[i := o.(current := s.max, pc := Test)])
    case Done => s
  }

  function Step(s: State, a: Action): State
    requires Enabled(s, a)
  {
    match a
    case Observe(d) => s.(observations := s.observations + [Observation(d, AddTotal, 0)])
    case Advance(i, spurious) => Go(s, i, spurious)
  }

  predicate Run(states: seq<State>, actions: seq<Action>) {
    |states| == |actions| + 1 && states[0] == Initial() &&
    forall k :: 0 <= k < |actions| ==> Enabled(states[k], actions[k]) && states[k + 1] == Step(states[k], actions[k])
  }

  // ---------------------------------------------------------------- what is recorded

  /** The sum over the observations whose total has been added. */
  function Sum(os: seq<Observation>): int {
    if os == [] then 0
    else Sum(os[..|os| - 1]) + if os[|os| - 1].pc == AddTotal then 0 else os[|os| - 1].duration
  }

  /** The number of observations whose sample has been counted. */
  function Samples(os: seq<Observation>): int {
    if os == [] then 0
    else Samples(os[..|os| - 1]) + if os[|os| - 1].pc == AddTotal || os[|os| - 1].pc == AddSample then 0 else 1
  }

  /** The larger of 0 and all durations. */
  function Maximum(os: seq<Observation>): (m: int)
    ensures m >= 0 && (forall k :: 0 <= k < |os| ==> os[k].duration <= m)
    ensures m == 0 || exists k :: 0 <= k < |os| && os[k].duration == m
  {
    if os == [] then 0
    else
      var m := Maximum(os[..|os| - 1]);
      if os[|os| - 1].duration > m then os[|os| - 1].duration else m
  }

  lemma {:induction false} SumPut(os: seq<Observation>, i: nat, o: Observation)
    requires i < |os| && o.duration == os[i].duration
    ensures Sum(os[i := o]) ==
            Sum(os) - (if os[i].pc == AddTotal then 0 else o.duration) + (if o.pc == AddTotal then 0 else o.duration)
    decreases os
  {
    var front := os[..|os| - 1];
    if i == |os| - 1 {
      assert os[i := o][..|os| - 1] == front;
    } else {
      SumPut(front, i, o);
      assert os[i := o][..|os| - 1] == front[i := o];
    }
  }

  predicate Sampled(o: Observation) {
    o.pc != AddTotal && o.pc != AddSample
  }

  lemma {:induction false} SamplesPut(os: seq<Observation>, i: nat, o: Observation)
    requires i < |os|
    ensures Samples(os[i := o]) == Samples(os) - (if Sampled(os[i]) then 1 else 0) + (if Sampled(o) then 1 else 0)
    decreases os
  {
    var front := os[..|os| - 1];
    if i == |os| - 1 {
      assert os[i := o][..|os| - 1] == front;
    } else {
      SamplesPut(front, i, o);
      assert os[i := o][..|os| - 1] == front[i := o];
    }
  }

  /** What a thread knows: the maximum it saw was once there, and a finished one has been covered. */
  predicate Knows(o: Observation, max: int) {
    match o.pc
    case AddTotal | AddSample | LoadMax => true
    case Test => o.current <= max
    case Exchange => o.current <= max && o.current < o.duration
    case Done => o.duration <= max
  }

  /** The maximum is 0 or one of the observed durations. */
  predicate Observed(s: State) {
    s.max == 0 || exists k :: 0 <= k < |s.observations| && s.observations[k].duration == s.max
  }

  predicate AllKnow(s: State) {
    forall k :: 0 <= k < |s.observations| ==> Knows(s.observations[k], s.max)
  }

  predicate Invariant(s: State) {
    s.max >= 0 && s.total == Sum(s.observations) && s.samples == Samples(s.observations) && Observed(s) && AllKnow(s)
  }

  lemma GoSums(s: State, i: nat, spurious: bool)
    requires Invariant(s) && i < |s.observations|
    ensures var s' := Go(s, i, spurious);
            s'.total == Sum(s'.observations) && s'.samples == Samples(s'.observations)
  {
    hide Sum, Samples, Observed, AllKnow;
    var s' := Go(s, i, spurious);
    assert s.observations == s.observations[i := s.observations[i]];
    SumPut(s.observations, i, s'.observations[i]);
    SamplesPut(s.observations, i, s'.observations[i]);
  }

  /** Only one observation moves; its duration stays, and so does everybody else's. */
  lemma GoPut(s: State, i: nat, spurious: bool)
    requires i < |s.observations|
    ensures var s' := Go(s, i, spurious);
            |s'.observations| == |s.observations| && s'.observations[i].duration == s.observations[i].duration &&
            (s'.max == s.max || s'.max == s.observations[i].duration) &&
            forall k :: 0 <= k < |s.observations| && k != i ==> s'.observations[k] == s.observations[k]
  {
  }

  lemma GoKnows(s: State, i: nat, spurious: bool)
    requires AllKnow(s) && i < |s.observations|
    ensures var s' := Go(s, i, spurious);
            s.max <= s'.max && |s'.observations| == |s.observations| && Knows(s'.observations[i], s'.max)
  {
  }

  lemma GoInvariant(s: State, i: nat, spurious: bool)
    requires Invariant(s) && i < |s.observations|
    ensures Invariant(Go(s, i, spurious)) && s.max <= Go(s, i, spurious).max
  {
    hide Go, Sum, Samples;
    GoSums(s, i, spurious);
    GoPut(s, i, spurious);
    GoKnows(s, i, spurious);
    var s' := Go(s, i, spurious);
    if s'.max == s.max && s.max != 0 {
      var k :| 0 <= k < |s.observations| && s.observations[k].duration == s.max;
      assert s'.observations[k].duration == s'.max;
    } else if s'.max != 0 {
      assert s'.observations[i].duration == s'.max;
    }
    assert AllKnow(s');
  }

  lemma ObserveInvariant(s: State, d: int)
    requires Invariant(s)
    ensures Invariant(Step(s, Observe(d)))
  {
    var s' := Step(s, Observe(d));
    assert s'.observations[..|s.observations|] == s.observations;
    if s.max != 0 {
      var k :| 0 <= k < |s.observations| && s.observations[k].duration == s.max;
      assert s'.observations[k].duration == s'.max;
    }
  }

  lemma StepInvariant(s: State, a: Action)
    requires Invariant(s) && Enabled(s, a)
    ensures Invariant(Step(s, a)) && s.max <= Step(s, a).max
  {
    hide Invariant;
    match a
    case Observe(d) => ObserveInvariant(s, d);
    case Advance(i, spurious) => GoInvariant(s, i, spurious);
  }

  lemma {:induction false} RunInvariant(states: seq<State>, actions: seq<Action>, k: nat)
    requires Run(states, actions) && k < |states|
    ensures Invariant(states[k])
  {
    hide Step;
    if k > 0 {
      RunInvariant(states, actions, k - 1);
      StepInvariant(states[k - 1], actions[k - 1]);
    }
  }

  /** In every run the recorded maximum never decreases. */
  lemma {:induction false} MaximumGrows(states: seq<State>, actions: seq<Action>, k: nat, n: nat)
    requires Run(states, actions) && k <= n < |states|
    ensures states[k].max <= states[n].max
  {
    hide Step, Invariant;
    if k < n {
      MaximumGrows(states, actions, k, n - 1);
      RunInvariant(states, actions, n - 1);
      StepInvariant(states[n - 1], actions[n - 1]);
    }
  }

  /** The durations of all observations, added up. */
  function TotalOf(os: seq<Observation>): int {
    if os == [] then 0 else TotalOf(os[..|os| - 1]) + os[|os| - 1].duration
  }

  lemma {:induction false} AllAdded(os: seq<Observation>)
    requires forall k :: 0 <= k < |os| ==> os[k].pc == Done
    ensures Sum(os) == TotalOf(os) && Samples(os) == |os|
  {
    if os != [] {
      AllAdded(os[..|os| - 1]);
    }
  }

  /** In every run, once all observations are finished, the metrics are exactly the sum, the number and
      the maximum of the observed durations. */
  lemma FinalMetrics(states: seq<State>, actions: seq<Action>, k: nat)
    requires Run(states, actions) && k < |states|
    requires forall i :: 0 <= i < |states[k].observations| ==> states[k].observations[i].pc == Done
    ensures var s := states[k];
            s.max == Maximum(s.observations) && s.total == TotalOf(s.observations) && s.samples == |s.observations|
  {
    RunInvariant(states, actions, k);
    var os := states[k].observations;
    AllAdded(os);
    assert forall i :: 0 <= i < |os| ==> Knows(os[i], states[k].max);
  }
}

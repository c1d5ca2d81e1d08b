/** What the order handlers of src/order_routes.cpp answer, and what they leave in the database: in every run,
    with any failures and any overlap, what a handler finds when its statements are carried out decides its
    answer, and a row is made of the creation and the payments that were carried out. */
module OrderAnswers {
  import opened Sequences
  import opened OrderCache

  // ---------------------------------------------------------------- what a handler finds

  /** What a database statement of a handler can find. */
  datatype Finding =
    | Stores    // INSERT: the number is free
    | Clashes   // INSERT: it is taken, or the statement fails
    | Misses    // SELECT of pay_order: there is no order
    | Refuses   // SELECT or UPDATE of pay_order: the order is paid, or the statement fails
    | Pays      // UPDATE: carried out
    | Removes   // DELETE: a row is deleted
    | Nothing   // DELETE: no row is deleted

  /** Handler i takes the step that the action stands for, with this finding. */
  predicate Finds(s: State, a: Action, i: nat, f: Finding) {
    a.Advance? && a.i == i && i < |s.handlers| &&
    var h := s.handlers[i];
    match f
    case Stores => h.pc == Insert && a.sql && h.key !in s.db
    case Clashes => h.pc == Insert && (!a.sql || h.key in s.db)
    case Misses => h.pc == Check && a.sql && h.key !in s.db
    case Refuses =>
      (h.pc == Check && (!a.sql || (h.key in s.db && s.db[h.key].status == Paid))) || (h.pc == Update && !a.sql)
    case Pays => h.pc == Update && a.sql
    case Removes => h.pc == Remove && a.sql && h.key in s.db
    case Nothing => h.pc == Remove && (!a.sql || h.key !in s.db)
  }

  /** In one of the first n steps handler i has made the finding. */
  ghost predicate Found(states: seq<State>, actions: seq<Action>, n: nat, i: nat, f: Finding) {
    exists k :: 0 <= k < n && k < |states| && k < |actions| && Finds(states[k], actions[k], i, f)
  }

  predicate Finished(h: Handler, answer: Answer) {
    h.pc == Done && h.answer == answer
  }

  /** Where a handler is once it has made the finding. */
  predicate Behind(h: Handler, f: Finding) {
    match f
    case Stores =>
      h.kind == Create && (h.pc == SetCache || Finished(h, Order(View(h.amount, Pending, h.started, None))))
    case Clashes => h.kind == Create && Finished(h, Failed)
    case Misses => h.kind == Pay && Finished(h, NotFound)
    case Refuses => h.kind == Pay && Finished(h, Failed)
    case Pays => h.kind == Pay && (h.pc == Invalidate || Finished(h, Ok))
    case Removes => h.kind == Delete && (h.pc == Invalidate || Finished(h, Ok))
    case Nothing => h.kind == Delete && Finished(h, NotFound)
  }

  /** A step leads behind a finding exactly when it makes it. */
  lemma GoFinds(s: State, i: nat, sql: bool, redis: bool, ttl: nat, f: Finding)
    requires i < |s.handlers| && KindPc(s.handlers[i])
    ensures var h, h' := s.handlers[i], Go(s, i, sql, redis, ttl).handlers[i];
            Behind(h', f) <==> Behind(h, f) || Finds(s, Advance(i, sql, redis), i, f)
  {
  }

  // ---------------------------------------------------------------- over runs

  predicate AllKinds(s: State) {
    forall i :: 0 <= i < |s.handlers| ==> KindPc(s.handlers[i])
  }

  lemma {:induction false} RunKinds(states: seq<State>, actions: seq<Action>, ttl: nat, n: nat)
    requires Run(states, actions, ttl) && n < |states|
    ensures AllKinds(states[n])
  {
    hide Go;
    if n > 0 {
      RunKinds(states, actions, ttl, n - 1);
      var s, a := states[n - 1], actions[n - 1];
      if a.Advance? {
        GoKind(s, a.i, a.sql, a.redis, ttl);
        var more := GoFrame(s, a.i, a.sql, a.redis, ttl);
      }
    }
  }

  lemma FoundNext(states: seq<State>, actions: seq<Action>, n: nat, i: nat, f: Finding)
    requires n < |states| && n < |actions|
    ensures Found(states, actions, n + 1, i, f) <==>
            Found(states, actions, n, i, f) || Finds(states[n], actions[n], i, f)
  {
    hide Finds;
  }

  lemma StepGrows(s: State, a: Action, ttl: nat)
    requires Enabled(s, a)
    ensures |Step(s, a, ttl).handlers| >= |s.handlers|
  {
    hide Go;
    if a.Advance? {
      var more := GoFrame(s, a.i, a.sql, a.redis, ttl);
    }
  }

  /** A handler that has not started has found nothing. */
  lemma {:induction false} NothingYet(states: seq<State>, actions: seq<Action>, ttl: nat, n: nat, i: nat, f: Finding)
    requires Run(states, actions, ttl) && n < |states| && i >= |states[n].handlers|
    ensures !Found(states, actions, n, i, f)
  {
    hide Step, Found;
    if n > 0 {
      StepGrows(states[n - 1], actions[n - 1], ttl);
      NothingYet(states, actions, ttl, n - 1, i, f);
      FoundNext(states, actions, n - 1, i, f);
    } else {
      NothingAtStart(states, actions, i, f);
    }
  }

  lemma NothingAtStart(states: seq<State>, actions: seq<Action>, i: nat, f: Finding)
    ensures !Found(states, actions, 0, i, f)
  {
  }

  /** A step of somebody else leaves the handler where it is; a new one is at its start. */
  lemma StepOther(s: State, a: Action, ttl: nat, i: nat, f: Finding)
    requires Enabled(s, a) && !(a.Advance? && a.i == i) && i < |Step(s, a, ttl).handlers|
    ensures i < |s.handlers| ==> Step(s, a, ttl).handlers[i] == s.handlers[i]
    ensures i >= |s.handlers| ==> !Behind(Step(s, a, ttl).handlers[i], f)
  {
    hide Go;
    if a.Advance? {
      var more := GoFrame(s, a.i, a.sql, a.redis, ttl);
    }
  }

  lemma {:induction false} FindingExactly(states: seq<State>, actions: seq<Action>, ttl: nat, n: nat, i: nat,
      f: Finding)
    requires Run(states, actions, ttl) && n < |states| && i < |states[n].handlers|
    ensures Behind(states[n].handlers[i], f) <==> Found(states, actions, n, i, f)
  {
    hide Go, Found, Behind, Finds;
    if n > 0 {
      var s, a := states[n - 1], actions[n - 1];
      FoundNext(states, actions, n - 1, i, f);
      if i < |s.handlers| {
        FindingExactly(states, actions, ttl, n - 1, i, f);
        if a.Advance? && a.i == i {
          RunKinds(states, actions, ttl, n - 1);
          GoFinds(s, i, a.sql, a.redis, ttl, f);
        } else {
          OtherFindsNothing(s, a, i, f);
          StepOther(s, a, ttl, i, f);
        }
      } else {
        NothingYet(states, actions, ttl, n - 1, i, f);
        OtherFindsNothing(s, a, i, f);
        StepOther(s, a, ttl, i, f);
      }
    }
  }

  lemma OtherFindsNothing(s: State, a: Action, i: nat, f: Finding)
    requires !(a.Advance? && a.i == i) || i >= |s.handlers|
    ensures !Finds(s, a, i, f)
  {
  }

  /** In every run the answer of a handler that is done, by what it found: a creation answers the amount
      it was asked for, as pending, if and only if its row was stored; a payment is confirmed if and only
      if it was carried out, refused if and only if the order was paid or a statement failed, and misses
      the order if and only if there was none; a removal is confirmed if and only if a row was removed. */
  lemma AnswersExactly(states: seq<State>, actions: seq<Action>, ttl: nat, n: nat, i: nat)
    requires Run(states, actions, ttl) && n < |states| && i < |states[n].handlers|
    requires states[n].handlers[i].pc == Done
    ensures var h := states[n].handlers[i];
            match h.kind
            case Create =>
              && (h.answer == Order(View(h.amount, Pending, h.started, None)) <==>
                  Found(states, actions, n, i, Stores))
              && (h.answer == Failed <==> Found(states, actions, n, i, Clashes))
            case Pay =>
              && (h.answer == Ok <==> Found(states, actions, n, i, Pays))
              && (h.answer == Failed <==> Found(states, actions, n, i, Refuses))
              && (h.answer == NotFound <==> Found(states, actions, n, i, Misses))
            case Delete =>
              && (h.answer == Ok <==> Found(states, actions, n, i, Removes))
              && (h.answer == NotFound <==> Found(states, actions, n, i, Nothing))
            case Get => true
  {
    hide Found;
    forall f
      ensures Behind(states[n].handlers[i], f) <==> Found(states, actions, n, i, f)
    {
      FindingExactly(states, actions, ttl, n, i, f);
    }
  }

  // ---------------------------------------------------------------- what was asked

  /** Every handler works for the order and the amount that it was started with. */
  lemma {:induction false} AsAsked(states: seq<State>, actions: seq<Action>, ttl: nat, n: nat, i: nat)
    requires Run(states, actions, ttl) && n < |states| && i < |states[n].handlers|
    ensures var h := states[n].handlers[i];
            exists k :: 0 <= k < n && actions[k] == Begin(h.kind, h.key, h.amount) &&
              |states[k].handlers| == i && states[k].now == h.started
  {
    hide Go;
    if n > 0 {
      var s, a := states[n - 1], actions[n - 1];
      if i < |s.handlers| {
        AsAsked(states, actions, ttl, n - 1, i);
        if a.Advance? {
          var more := GoFrame(s, a.i, a.sql, a.redis, ttl);
          GoKeepsKind(s, a.i, a.sql, a.redis, ttl);
        }
      } else if a.Advance? {
        var more := GoFrame(s, a.i, a.sql, a.redis, ttl);
      }
    }
  }

  lemma GoKeepsKind(s: State, i: nat, sql: bool, redis: bool, ttl: nat)
    requires i < |s.handlers|
    ensures i < |Go(s, i, sql, redis, ttl).handlers|
    ensures Go(s, i, sql, redis, ttl).handlers[i].kind == s.handlers[i].kind
  {
  }

  // ---------------------------------------------------------------- the database

  /** The step makes the finding for this order. */
  predicate Does(s: State, a: Action, f: Finding, key: Key) {
    a.Advance? && Finds(s, a, a.i, f) && s.handlers[a.i].key == key
  }

  /** One step and the row of one order: an INSERT stores the amount that was asked for, as pending; an
      UPDATE marks the row, if there is one, as paid now and keeps the rest; a DELETE takes it away; no
      other step touches it. */
  lemma StepRow(s: State, a: Action, ttl: nat, key: Key)
    requires Enabled(s, a)
    ensures var s' := Step(s, a, ttl);
            && (Does(s, a, Stores, key) ==>
                  key !in s.db && key in s'.db &&
                  s'.db[key] == Row(s.handlers[a.i].amount, Pending, s.handlers[a.i].started, 0))
            && (Does(s, a, Pays, key) ==>
                  (key in s'.db <==> key in s.db) &&
                  (key in s.db ==> s'.db[key] == Row(s.db[key].amount, Paid, s.db[key].createdAt, s.now)))
            && (Does(s, a, Removes, key) ==> key in s.db && key !in s'.db)
            && (!Does(s, a, Stores, key) && !Does(s, a, Pays, key) && !Does(s, a, Removes, key) ==>
                  (key in s'.db <==> key in s.db) && (key in s.db ==> s'.db[key] == s.db[key]))
  {
  }

  /** The row of the order goes back to the INSERT in step k. */
  predicate MadeAt(states: seq<State>, actions: seq<Action>, k: nat, n: nat, key: Key) {
    k < n <= |actions| && |actions| < |states| && Does(states[k], actions[k], Stores, key) &&
    forall m :: k < m < n ==> !Does(states[m], actions[m], Removes, key)
  }

  /** Some step behind step k carries out a payment of the order. */
  predicate PaidBehind(states: seq<State>, actions: seq<Action>, k: nat, n: nat, key: Key) {
    n <= |actions| && |actions| < |states| && exists m :: k < m < n && Does(states[m], actions[m], Pays, key)
  }

  /** The last payment of the order is in step m. */
  predicate LastPaidAt(states: seq<State>, actions: seq<Action>, m: nat, n: nat, key: Key) {
    m < n <= |actions| && |actions| < |states| && Does(states[m], actions[m], Pays, key) &&
    forall j :: m < j < n ==> !Does(states[j], actions[j], Pays, key)
  }

  lemma {:induction false} RowMade(states: seq<State>, actions: seq<Action>, ttl: nat, k: nat, n: nat, key: Key)
    requires Run(states, actions, ttl) && n < |states| && MadeAt(states, actions, k, n, key)
    ensures key in states[n].db
    ensures var row, h := states[n].db[key], states[k].handlers[actions[k].i];
            row.amount == h.amount && row.createdAt == h.started &&
            (row.status == Paid <==> PaidBehind(states, actions, k, n, key))
    decreases n - k
  {
    hide Step, Does;
    StepRow(states[n - 1], actions[n - 1], ttl, key);
    if k < n - 1 {
      RowMade(states, actions, ttl, k, n - 1, key);
      FindingsDiffer(states[n - 1], actions[n - 1], key);
      PaidBehindNext(states, actions, k, n - 1, key);
    }
  }

  lemma PaidBehindNext(states: seq<State>, actions: seq<Action>, k: nat, n: nat, key: Key)
    requires k < n < |actions| && |actions| < |states|
    ensures PaidBehind(states, actions, k, n + 1, key) <==>
            PaidBehind(states, actions, k, n, key) || Does(states[n], actions[n], Pays, key)
  {
    hide Does;
  }

  lemma FindingsDiffer(s: State, a: Action, key: Key)
    requires key in s.db
    ensures !Does(s, a, Stores, key)
    ensures !(Does(s, a, Pays, key) && Does(s, a, Removes, key))
  {
  }

  lemma {:induction false} RowHasMaker(states: seq<State>, actions: seq<Action>, ttl: nat, n: nat, key: Key)
    requires Run(states, actions, ttl) && n < |states| && key in states[n].db
    ensures exists k: nat :: MadeAt(states, actions, k, n, key)
  {
    hide Step, Does;
    if n > 0 {
      var s, a := states[n - 1], actions[n - 1];
      StepRow(s, a, ttl, key);
      if Does(s, a, Stores, key) {
        assert MadeAt(states, actions, n - 1, n, key);
      } else {
        RowHasMaker(states, actions, ttl, n - 1, key);
        var k: nat :| MadeAt(states, actions, k, n - 1, key);
        assert MadeAt(states, actions, k, n, key);
      }
    }
  }

  /** The row carries what the handler of step k was asked for, and is paid if it was paid since then. */
  predicate RowOf(states: seq<State>, actions: seq<Action>, k: nat, n: nat, key: Key)
    requires n < |states| && MadeAt(states, actions, k, n, key)
  {
    key in states[n].db &&
    var row, h := states[n].db[key], states[k].handlers[actions[k].i];
    row.amount == h.amount && row.createdAt == h.started &&
    (row.status == Paid <==> PaidBehind(states, actions, k, n, key))
  }

  /** In every run an order has a row if and only if an INSERT of it was carried out and no DELETE since
      then; the row keeps the amount that this creation was asked for and the time at which it started, and
      is paid if and only if a payment was carried out since then. */
  lemma RowExactly(states: seq<State>, actions: seq<Action>, ttl: nat, n: nat, key: Key)
    requires Run(states, actions, ttl) && n < |states|
    ensures key in states[n].db <==> exists k: nat :: MadeAt(states, actions, k, n, key)
    ensures forall k: nat :: MadeAt(states, actions, k, n, key) ==> RowOf(states, actions, k, n, key)
  {
    hide MadeAt, PaidBehind, Run;
    forall k: nat | MadeAt(states, actions, k, n, key)
      ensures RowOf(states, actions, k, n, key)
    {
      RowMade(states, actions, ttl, k, n, key);
    }
    if key in states[n].db {
      RowHasMaker(states, actions, ttl, n, key);
    }
  }

  /** The row tells the time of the last payment that was carried out. */
  lemma {:induction false} PaidAtLast(states: seq<State>, actions: seq<Action>, ttl: nat, k: nat, m: nat, n: nat,
      key: Key)
    requires Run(states, actions, ttl) && n < |states| && MadeAt(states, actions, k, n, key)
    requires k < m && LastPaidAt(states, actions, m, n, key)
    ensures key in states[n].db && states[n].db[key].paidAt == states[m].now
    decreases n - m
  {
    hide Step, Does;
    RowMade(states, actions, ttl, k, n - 1, key);
    StepRow(states[n - 1], actions[n - 1], ttl, key);
    if m < n - 1 {
      PaidAtLast(states, actions, ttl, k, m, n - 1, key);
      FindingsDiffer(states[n - 1], actions[n - 1], key);
    }
  }

  // ---------------------------------------------------------------- what the database answers

  /** A row tells when it was paid exactly when it is paid. */
  predicate Dated(s: State) {
    s.now > 0 && forall key :: key in s.db ==> (s.db[key].status == Paid <==> s.db[key].paidAt > 0)
  }

  lemma StepDated(s: State, a: Action, ttl: nat)
    requires Dated(s) && Enabled(s, a)
    ensures Dated(Step(s, a, ttl))
  {
    hide Step;
    var s' := Step(s, a, ttl);
    forall key | key in s'.db
      ensures s'.db[key].status == Paid <==> s'.db[key].paidAt > 0
    {
      StepRow(s, a, ttl, key);
    }
    StepTime(s, a, ttl);
  }

  lemma StepTime(s: State, a: Action, ttl: nat)
    requires Enabled(s, a)
    ensures Step(s, a, ttl).now >= s.now
  {
  }

  lemma {:induction false} RunDated(states: seq<State>, actions: seq<Action>, ttl: nat, n: nat)
    requires Run(states, actions, ttl) && n < |states|
    ensures Dated(states[n])
  {
    hide Step;
    if n > 0 {
      RunDated(states, actions, ttl, n - 1);
      StepDated(states[n - 1], actions[n - 1], ttl);
    }
  }

  /** In every run get_order, when it comes to the database, answers the amount, the state and the times of
      the row; the time of the payment is there exactly when the order is paid. Without a row it does not
      find the order. */
  lemma SelectAnswers(states: seq<State>, actions: seq<Action>, ttl: nat, n: nat, i: nat, redis: bool)
    requires Run(states, actions, ttl) && n < |states| && i < |states[n].handlers|
    requires states[n].handlers[i].pc == Select
    ensures var s, key := states[n], states[n].handlers[i].key;
            var h' := Go(s, i, true, redis, ttl).handlers[i];
            h'.pc == Done &&
            h'.answer == if key !in s.db then NotFound
                         else Order(View(s.db[key].amount, s.db[key].status, s.db[key].createdAt,
                                         if s.db[key].status == Paid then Some(s.db[key].paidAt) else None))
  {
    RunDated(states, actions, ttl, n);
  }

  // ---------------------------------------------------------------- paying twice

  /** A payment that goes on to its UPDATE found the order unpaid. */
  predicate SeesUnpaid(s: State, a: Action, i: nat) {
    a.Advance? && a.i == i && i < |s.handlers| && s.handlers[i].pc == Check && a.sql &&
    s.handlers[i].key in s.db && s.db[s.handlers[i].key].status == Pending
  }

  /** The handler goes on to its UPDATE with step k, and has not moved since then. */
  predicate SawUnpaid(states: seq<State>, actions: seq<Action>, k: nat, n: nat, i: nat) {
    k < n < |states| && k < |actions| && SeesUnpaid(states[k], actions[k], i) && i < |states[n].handlers| &&
    states[n].handlers[i].key == states[k].handlers[i].key
  }

  lemma GoToUpdate(s: State, i: nat, sql: bool, redis: bool, ttl: nat)
    requires i < |s.handlers| && KindPc(s.handlers[i]) && Go(s, i, sql, redis, ttl).handlers[i].pc == Update
    ensures SeesUnpaid(s, Advance(i, sql, redis), i)
  {
  }

  lemma {:induction false} UpdateSawUnpaid(states: seq<State>, actions: seq<Action>, ttl: nat, n: nat, i: nat)
    requires Run(states, actions, ttl) && n < |states| && i < |states[n].handlers|
    requires states[n].handlers[i].pc == Update
    ensures exists k: nat :: SawUnpaid(states, actions, k, n, i)
  {
    hide Go, SeesUnpaid;
    if n > 0 {
      var s, a := states[n - 1], actions[n - 1];
      if a.Advance? && a.i < |s.handlers| {
        var more := GoFrame(s, a.i, a.sql, a.redis, ttl);
      }
      if a.Advance? && a.i == i {
        RunKinds(states, actions, ttl, n - 1);
        GoToUpdate(s, i, a.sql, a.redis, ttl);
        assert SawUnpaid(states, actions, n - 1, n, i);
      } else if i < |s.handlers| {
        UpdateSawUnpaid(states, actions, ttl, n - 1, i);
        var k: nat :| SawUnpaid(states, actions, k, n - 1, i);
        assert SawUnpaid(states, actions, k, n, i);
      }
    }
  }

  /** Without a payment carried out in between, an order does not become paid. */
  lemma {:induction false} StaysUnpaid(states: seq<State>, actions: seq<Action>, ttl: nat, k: nat, n: nat, key: Key)
    requires Run(states, actions, ttl) && k <= n < |states|
    requires key in states[k].db ==> states[k].db[key].status == Pending
    requires forall m :: k <= m < n ==> !Does(states[m], actions[m], Pays, key)
    ensures key in states[n].db ==> states[n].db[key].status == Pending
    decreases n - k
  {
    hide Step, Does;
    if k < n {
      StaysUnpaid(states, actions, ttl, k, n - 1, key);
      StepRow(states[n - 1], actions[n - 1], ttl, key);
    }
  }

  /** In every run a payment is carried out on an order that is already paid only when another payment of it
      was carried out between the SELECT, which found the order unpaid, and the UPDATE of this one. */
  lemma PaidTwiceOnlyByOverlap(states: seq<State>, actions: seq<Action>, ttl: nat, n: nat, i: nat)
    requires Run(states, actions, ttl) && n < |actions| && Finds(states[n], actions[n], i, Pays)
    requires var key := states[n].handlers[i].key; key in states[n].db && states[n].db[key].status == Paid
    ensures exists k: nat, m: nat ::
              SawUnpaid(states, actions, k, n, i) && k < m < n &&
              Does(states[m], actions[m], Pays, states[n].handlers[i].key)
  {
    hide Go, Does;
    UpdateSawUnpaid(states, actions, ttl, n, i);
    var k: nat :| SawUnpaid(states, actions, k, n, i);
    var key := states[n].handlers[i].key;
    if m :| k <= m < n && Does(states[m], actions[m], Pays, key) {
      SelectPaysNothing(states[k], actions[k], i, key);
    } else {
      StaysUnpaid(states, actions, ttl, k, n, key);
    }
  }

  lemma SelectPaysNothing(s: State, a: Action, i: nat, key: Key)
    requires SeesUnpaid(s, a, i)
    ensures !Does(s, a, Pays, key)
  {
  }

  /** And so it can happen: two payments of one order that overlap are both confirmed. */
  lemma OverlapPaysTwice(key: Key, amount: real, ttl: nat) returns (states: seq<State>, actions: seq<Action>)
    ensures Run(states, actions, ttl)
    ensures var last := states[|states| - 1];
            |last.handlers| == 3 && last.handlers[1].kind == Pay && last.handlers[2].kind == Pay &&
            last.handlers[1].key == key && last.handlers[2].key == key &&
            Finished(last.handlers[1], Ok) && Finished(last.handlers[2], Ok) &&
            last.history == [Inserted(key, View(amount, Pending, 1, None), 1), MarkedPaid(key, 1), MarkedPaid(key, 1)]
  {
    var go0, go1, go2 := Advance(0, true, true), Advance(1, true, true), Advance(2, true, true);
    var s0 := Initial();
    var s1 := Step(s0, Begin(Create, key, amount), ttl);
    var s2 := Step(s1, go0, ttl);
    var s3 := Step(s2, Begin(Pay, key, amount), ttl);
    var s4 := Step(s3, Begin(Pay, key, amount), ttl);
    var s5 := Step(s4, go1, ttl);
    var s6 := Step(s5, go2, ttl);
    var s7 := Step(s6, go1, ttl);
    var s8 := Step(s7, go1, ttl);
    var s9 := Step(s8, go2, ttl);
    var s10 := Step(s9, go2, ttl);
    states := [s0, s1, s2, s3, s4, s5, s6, s7, s8, s9, s10];
    actions := [Begin(Create, key, amount), go0, Begin(Pay, key, amount), Begin(Pay, key, amount), go1, go2, go1,
                go1, go2, go2];
  }
}

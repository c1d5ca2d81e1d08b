/** The order handlers of src/order_routes.cpp: a database and a cache that are changed in separate
    atomic steps, each of which may fail, by any number of handlers in any interleaving. Cache entries
    live for a fixed time. */
module OrderCache {
  import opened Sequences

  type Key = string

  datatype Status = Pending | Paid

  /** A row of the orders table; paidAt is 0 until the order is paid. */
  datatype Row = Row(amount: real, status: Status, createdAt: nat, paidAt: nat)

  /** An order as get_order answers it. */
  datatype View = View(amount: real, status: Status, createdAt: nat, paidAt: Option<nat>)

  function ViewOf(r: Row): View {
    View(r.amount, r.status, r.createdAt, if r.paidAt == 0 then None else Some(r.paidAt))
  }

  datatype Entry = Entry(payload: View, written: nat)

  datatype Kind = Create | Get | Pay | Delete

  /** The next atomic step of a handler. */
  datatype Pc =
    | Insert      // INSERT of a new order
    | SetCache    // SET with the time to live
    | GetCache    // GET
    | Select      // SELECT of get_order
    | Check       // SELECT of pay_order
    | Update      // UPDATE of pay_order
    | Remove      // DELETE together with the number of changed rows
    | Invalidate  // DEL
    | Done

  datatype Answer = NoAnswer | Order(view: View) | NotFound | Failed | Ok

  datatype Handler = Handler(kind: Kind, key: Key, amount: real, started: nat, pc: Pc, answer: Answer)

  /** A change of the database; kept for the statements below. */
  datatype Change =
    | Inserted(key: Key, view: View, time: nat)
    | MarkedPaid(key: Key, time: nat)
    | Removed(key: Key, time: nat)

  datatype State = State(
    now: nat, db: map<Key, Row>, cache: map<Key, Entry>, handlers: seq<Handler>, history: seq<Change>)

  /** A handler starts, time passes, or a handler goes on; sql and redis say whether the store it turns to
      carries out the step. */
  datatype Action = Begin(kind: Kind, key: Key, amount: real) | Tick | Advance(i: nat, sql: bool, redis: bool)

  function FirstPc(kind: Kind): Pc {
    match kind
    case Create => Insert
    case Get => GetCache
    case Pay => Check
    case Delete => Remove
  }

  function Initial(): State {
    State(1, map[], map[], [], [])
  }

  predicate Enabled(s: State, a: Action) {
    a.Advance? ==> a.i < |s.handlers|
  }

  /** The cache answers: the entry is there and has not expired. */
  predicate Live(s: State, key: Key, ttl: nat) {
    key in s.cache && s.now < s.cache[key].written + ttl
  }

  function Put(s: State, i: nat, h: Handler): State
    requires i < |s.handlers|
  {
    s.(handlers := s.handlers[i := h])
  }

  function Finish(s: State, i: nat, answer: Answer): State
    requires i < |s.handlers|
  {
    Put(s, i, s.handlers[i].(pc := Done, answer := answer))
  }

  function NewRow(h: Handler): Row {
    Row(h.amount, Pending, h.started, 0)
  }

  /** One atomic step of handler i. */
  function Go(s: State, i: nat, sql: bool, redis: bool, ttl: nat): State
    requires i < |s.handlers|
  {
    var h := s.handlers[i];
    match h.pc
    case Insert =>
      if !sql || h.key in s.db then Finish(s, i, Failed)
      else
        Put(s.(db := s.db[h.key := NewRow(h)],
               history := s.history + [Inserted(h.key, ViewOf(NewRow(h)), s.now)]), i, h.(pc := SetCache))
    case SetCache =>
      Finish(if redis then s.(cache := s.cache[h.key := Entry(ViewOf(NewRow(h)), s.now)]) else s, i,
             Order(ViewOf(NewRow(h))))
    case GetCache =>
      if redis && Live(s, h.key, ttl) then Finish(s, i, Order(s.cache[h.key].payload))
      else Put(s, i, h.(pc := Select))
    case Select =>
      Finish(s, i, if !sql then Failed else if h.key in s.db then Order(ViewOf(s.db[h.key])) else NotFound)
    case Check =>
      if !sql then Finish(s, i, Failed)
      else if h.key !in s.db then Finish(s, i, NotFound)
      else if s.db[h.key].status == Paid then Finish(s, i, Failed)
      else Put(s, i, h.(pc := Update))
    case Update =>
      if !sql then Finish(s, i, Failed)
      else if h.key !in s.db then Put(s, i, h.(pc := Invalidate))
      else
        Put(s.(db := s.db[h.key := s.db[h.key].(status := Paid, paidAt := s.now)],
               history := s.history + [MarkedPaid(h.key, s.now)]), i, h.(pc := Invalidate))
    case Remove =>
      if !sql || h.key !in s.db then Finish(s, i, NotFound)
      else
        Put(s.(db := s.db - {h.key}, history := s.history + [Removed(h.key, s.now)]), i, h.(pc := Invalidate))
    case Invalidate => Finish(if redis then s.(cache := s.cache - {h.key}) else s, i, Ok)
    case Done => s
  }

  function Step(s: State, a: Action, ttl: nat): State
    requires Enabled(s, a)
  {
    match a
    case Begin(kind, key, amount) =>
      s.(handlers := s.handlers + [Handler(kind, key, amount, s.now, FirstPc(kind), NoAnswer)])
    case Tick => s.(now := s.now + 1)
    case Advance(i, sql, redis) => Go(s, i, sql, redis, ttl)
  }

  predicate Run(states: seq<State>, actions: seq<Action>, ttl: nat) {
    |states| == |actions| + 1 && states[0] == Initial() &&
    forall k :: 0 <= k < |actions| ==>
      Enabled(states[k], actions[k]) && states[k + 1] == Step(states[k], actions[k], ttl)
  }

  // ---------------------------------------------------------------- what the cache may hold

  /** Some insert of the order number up to time t had this data. */
  predicate WasInserted(history: seq<Change>, key: Key, view: View, t: nat) {
    exists j :: 0 <= j < |history| && Carries(history[j], key, view, t)
  }

  predicate Carries(c: Change, key: Key, view: View, t: nat) {
    c.Inserted? && c.key == key && c.view == view && c.time <= t
  }

  predicate CacheFromInserts(s: State) {
    forall key :: key in s.cache ==>
      s.cache[key].written <= s.now && WasInserted(s.history, key, s.cache[key].payload, s.cache[key].written)
  }

  /** A create handler that goes on to the cache has made its insert. */
  predicate CreatorsInserted(s: State) {
    forall i :: 0 <= i < |s.handlers| && s.handlers[i].pc == SetCache ==>
      WasInserted(s.history, s.handlers[i].key, ViewOf(NewRow(s.handlers[i])), s.now)
  }

  predicate FromInserts(s: State) {
    CacheFromInserts(s) && CreatorsInserted(s)
  }

  lemma WasInsertedKept(history: seq<Change>, more: seq<Change>, key: Key, view: View, t: nat, t': nat)
    requires WasInserted(history, key, view, t) && t <= t'
    ensures WasInserted(history + more, key, view, t')
  {
    var j :| 0 <= j < |history| && Carries(history[j], key, view, t);
    assert Carries((history + more)[j], key, view, t');
  }

  /** Only handler i moves; the others stay, and history grows by at most one change. */
  lemma GoFrame(s: State, i: nat, sql: bool, redis: bool, ttl: nat) returns (more: seq<Change>)
    requires i < |s.handlers|
    ensures var s' := Go(s, i, sql, redis, ttl);
            s'.now == s.now && s'.history == s.history + more && |s'.handlers| == |s.handlers| &&
            (forall k :: 0 <= k < |s.handlers| && k != i ==> s'.handlers[k] == s.handlers[k]) &&
            (s'.handlers[i].pc == SetCache ==>
               s.handlers[i].pc == SetCache ||
               more == [Inserted(s.handlers[i].key, ViewOf(NewRow(s.handlers[i])), s.now)]) &&
            s'.handlers[i].key == s.handlers[i].key && s'.handlers[i].amount == s.handlers[i].amount &&
            s'.handlers[i].started == s.handlers[i].started && Changes(s.db, s'.db, s.handlers[i], s.now, more)
  {
    var h := s.handlers[i];
    more := if !sql then []
            else if h.pc == Insert && h.key !in s.db then [Inserted(h.key, ViewOf(NewRow(h)), s.now)]
            else if h.pc == Update && h.key in s.db then [MarkedPaid(h.key, s.now)]
            else if h.pc == Remove && h.key in s.db then [Removed(h.key, s.now)]
            else [];
  }

  /** The database changes with the history. */
  predicate Changes(db: map<Key, Row>, db': map<Key, Row>, h: Handler, now: nat, more: seq<Change>) {
    (more == [] && db' == db) ||
    (more == [Inserted(h.key, ViewOf(NewRow(h)), now)] && db' == db[h.key := NewRow(h)]) ||
    (h.key in db && more == [MarkedPaid(h.key, now)] &&
     db' == db[h.key := db[h.key].(status := Paid, paidAt := now)]) ||
    (more == [Removed(h.key, now)] && db' == db - {h.key})
  }

  lemma GoCache(s: State, i: nat, sql: bool, redis: bool, ttl: nat)
    requires i < |s.handlers|
    ensures var s', h := Go(s, i, sql, redis, ttl), s.handlers[i];
            s'.cache == s.cache || s'.cache == s.cache - {h.key} ||
            (h.pc == SetCache && s'.cache == s.cache[h.key := Entry(ViewOf(NewRow(h)), s.now)])
  {
  }

  lemma GoFromInserts(s: State, i: nat, sql: bool, redis: bool, ttl: nat)
    requires FromInserts(s) && i < |s.handlers|
    ensures FromInserts(Go(s, i, sql, redis, ttl))
  {
    hide Go, ViewOf, NewRow, WasInserted;
    var s', h := Go(s, i, sql, redis, ttl), s.handlers[i];
    var more := GoFrame(s, i, sql, redis, ttl);
    GoCache(s, i, sql, redis, ttl);
    forall key | key in s'.cache
      ensures s'.cache[key].written <= s'.now
      ensures WasInserted(s'.history, key, s'.cache[key].payload, s'.cache[key].written)
    {
      if key in s.cache && s'.cache[key] == s.cache[key] {
        WasInsertedKept(s.history, more, key, s.cache[key].payload, s.cache[key].written, s.cache[key].written);
      } else {
        WasInsertedKept(s.history, more, key, ViewOf(NewRow(h)), s.now, s.now);
      }
    }
    forall k | 0 <= k < |s'.handlers| && s'.handlers[k].pc == SetCache
      ensures WasInserted(s'.history, s'.handlers[k].key, ViewOf(NewRow(s'.handlers[k])), s'.now)
    {
      SameNewRow(s.handlers[k], s'.handlers[k]);
      if s.handlers[k].pc == SetCache {
        WasInsertedKept(s.history, more, s.handlers[k].key, ViewOf(NewRow(s.handlers[k])), s.now, s.now);
      } else {
        JustInserted(s.history, h, s.now);
      }
    }
  }

  lemma SameNewRow(h: Handler, h': Handler)
    requires h.amount == h'.amount && h.started == h'.started
    ensures NewRow(h) == NewRow(h')
  {
  }

  lemma JustInserted(history: seq<Change>, h: Handler, now: nat)
    ensures WasInserted(history + [Inserted(h.key, ViewOf(NewRow(h)), now)], h.key, ViewOf(NewRow(h)), now)
  {
    var all := history + [Inserted(h.key, ViewOf(NewRow(h)), now)];
    assert Carries(all[|history|], h.key, ViewOf(NewRow(h)), now);
  }

  lemma TickFromInserts(s: State)
    requires FromInserts(s)
    ensures FromInserts(s.(now := s.now + 1))
  {
    hide WasInserted, ViewOf;
    var s' := s.(now := s.now + 1);
    assert s.history + [] == s.history;
    forall k | 0 <= k < |s.handlers| && s.handlers[k].pc == SetCache
      ensures WasInserted(s'.history, s'.handlers[k].key, ViewOf(NewRow(s'.handlers[k])), s'.now)
    {
      WasInsertedKept(s.history, [], s.handlers[k].key, ViewOf(NewRow(s.handlers[k])), s.now, s'.now);
    }
  }

  lemma StepFromInserts(s: State, a: Action, ttl: nat)
    requires FromInserts(s) && Enabled(s, a)
    ensures FromInserts(Step(s, a, ttl))
  {
    hide WasInserted, Go;
    match a
    case Begin(kind, key, amount) =>
      assert Step(s, a, ttl).handlers[|s.handlers|].pc == FirstPc(kind);
    case Tick => TickFromInserts(s);
    case Advance(i, sql, redis) => GoFromInserts(s, i, sql, redis, ttl);
  }

  lemma {:induction false} RunFromInserts(states: seq<State>, actions: seq<Action>, ttl: nat, k: nat)
    requires Run(states, actions, ttl) && k < |states|
    ensures FromInserts(states[k])
  {
    hide Step;
    if k > 0 {
      hide FromInserts;
      RunFromInserts(states, actions, ttl, k - 1);
      StepFromInserts(states[k - 1], actions[k - 1], ttl);
    }
  }

  /** In every run, with any failures: an order that get_order takes from the cache is the data of an
      earlier insert of that order number, and the cache was written less than the time to live ago. So
      whatever the database says, a stale answer is gone when that time has passed. */
  lemma CachedAnswerIsRecentInsert(
    states: seq<State>, actions: seq<Action>, ttl: nat, k: nat, i: nat, sql: bool)
    requires Run(states, actions, ttl) && k < |states| && i < |states[k].handlers|
    requires states[k].handlers[i].pc == GetCache
    requires Go(states[k], i, sql, true, ttl).handlers[i].pc == Done
    ensures var s, key := states[k], states[k].handlers[i].key;
            key in s.cache && s.cache[key].written <= s.now < s.cache[key].written + ttl &&
            WasInserted(s.history, key, s.cache[key].payload, s.cache[key].written) &&
            Go(s, i, sql, true, ttl).handlers[i].answer == Order(s.cache[key].payload)
  {
    RunFromInserts(states, actions, ttl, k);
  }

  /** The step is the cache write of a creation. */
  predicate WritesCache(s: State, a: Action, key: Key)
    requires Enabled(s, a)
  {
    a.Advance? && s.handlers[a.i].pc == SetCache && s.handlers[a.i].key == key
  }

  lemma StepKeepsEntry(s: State, a: Action, ttl: nat, key: Key)
    requires Enabled(s, a) && !WritesCache(s, a, key)
    ensures key in Step(s, a, ttl).cache ==> key in s.cache && Step(s, a, ttl).cache[key] == s.cache[key]
  {
    if a.Advance? {
      GoCache(s, a.i, a.sql, a.redis, ttl);
    }
  }

  lemma {:induction false} EntryIsOld(
    states: seq<State>, actions: seq<Action>, ttl: nat, k: nat, n: nat, key: Key)
    requires Run(states, actions, ttl) && k <= n < |states|
    requires forall j :: k <= j < n ==> !WritesCache(states[j], actions[j], key)
    ensures key in states[n].cache ==> states[n].cache[key].written <= states[k].now
  {
    hide Step;
    if k < n {
      EntryIsOld(states, actions, ttl, k, n - 1, key);
      StepKeepsEntry(states[n - 1], actions[n - 1], ttl, key);
    } else {
      RunFromInserts(states, actions, ttl, k);
    }
  }

  /** In every run, with any failures and any overlap: when the time to live has passed without a cache
      write for an order, get_order asks the database. */
  lemma StaleIsBounded(
    states: seq<State>, actions: seq<Action>, ttl: nat, k: nat, n: nat, key: Key, i: nat, sql: bool, redis: bool)
    requires Run(states, actions, ttl) && k <= n < |states| && states[n].now >= states[k].now + ttl
    requires forall j :: k <= j < n ==> !WritesCache(states[j], actions[j], key)
    requires i < |states[n].handlers| && states[n].handlers[i].key == key && states[n].handlers[i].pc == GetCache
    ensures !Live(states[n], key, ttl) && Go(states[n], i, sql, redis, ttl).handlers[i].pc == Select
  {
    EntryIsOld(states, actions, ttl, k, n, key);
  }

  // ---------------------------------------------------------------- when a cached answer is stale

  /** The last change of an order. */
  function Last(history: seq<Change>, key: Key): (r: Option<nat>)
    ensures r.Some? ==> r.value < |history| && history[r.value].key == key
    ensures r.Some? ==> forall m :: r.value < m < |history| ==> history[m].key != key
    ensures r.None? ==> forall m :: 0 <= m < |history| ==> history[m].key != key
  {
    if history == [] then None
    else if history[|history| - 1].key == key then Some(|history| - 1)
    else Last(history[..|history| - 1], key)
  }

  /** What the last change of an order says about its row. */
  predicate RowFits(db: map<Key, Row>, history: seq<Change>, key: Key) {
    match Last(history, key)
    case None => key !in db
    case Some(l) =>
      match history[l]
      case Inserted(_, view, _) => key in db && ViewOf(db[key]) == view && view.status == Pending
      case MarkedPaid(_, _) => key in db && db[key].status == Paid
      case Removed(_, _) => key !in db
  }

  lemma LastNext(history: seq<Change>, c: Change, key: Key)
    ensures Last(history + [c], key) == if c.key == key then Some(|history|) else Last(history, key)
  {
    assert (history + [c])[..|history|] == history;
  }

  lemma RowFitsNext(db: map<Key, Row>, db': map<Key, Row>, history: seq<Change>, h: Handler, now: nat,
                    more: seq<Change>, key: Key)
    requires RowFits(db, history, key) && Changes(db, db', h, now, more)
    ensures RowFits(db', history + more, key)
  {
    if more == [] {
      assert history + more == history;
    } else {
      LastNext(history, more[0], key);
      assert history + more == history + [more[0]];
    }
  }

  lemma {:induction false} RunRowFits(states: seq<State>, actions: seq<Action>, ttl: nat, k: nat, key: Key)
    requires Run(states, actions, ttl) && k < |states|
    ensures RowFits(states[k].db, states[k].history, key)
  {
    hide Go, RowFits, Changes;
    if k == 0 {
      NothingFits(key);
    } else {
      RunRowFits(states, actions, ttl, k - 1, key);
      var s, a := states[k - 1], actions[k - 1];
      if a.Advance? {
        var more := GoFrame(s, a.i, a.sql, a.redis, ttl);
        RowFitsNext(s.db, states[k].db, s.history, s.handlers[a.i], s.now, more, key);
      }
    }
  }

  lemma NothingFits(key: Key)
    ensures RowFits(map[], [], key)
  {
  }

  /** Since change j the order was paid, deleted or created again with other data, and that is how it
      stands. */
  predicate ChangedSince(history: seq<Change>, j: nat, key: Key, view: View) {
    exists l :: j < l < |history| && history[l].key == key && !(history[l].Inserted? && history[l].view == view) &&
      forall m :: l < m < |history| ==> history[m].key != key
  }

  /** In every run, with any failures and any overlap: an entry of the cache carries an earlier insert, and
      it disagrees with the database exactly when the order was paid, deleted or created again with other
      data since that insert. */
  lemma StaleExactly(states: seq<State>, actions: seq<Action>, ttl: nat, k: nat, key: Key) returns (j: nat)
    requires Run(states, actions, ttl) && k < |states| && key in states[k].cache
    ensures var s, e := states[k], states[k].cache[key];
            j < |s.history| && Carries(s.history[j], key, e.payload, e.written) &&
            (Truth(s, key) != Order(e.payload) <==> ChangedSince(s.history, j, key, e.payload))
  {
    hide FromInserts;
    RunFromInserts(states, actions, ttl, k);
    RunRowFits(states, actions, ttl, k, key);
    var s := states[k];
    j := CarriedInsert(s, key);
    RunPending(states, actions, ttl, k, j);
    var l := Last(s.history, key).value;
    if j < l {
      assert s.history[l].key == key;
    }
  }

  lemma CarriedInsert(s: State, key: Key) returns (j: nat)
    requires FromInserts(s) && key in s.cache
    ensures j < |s.history| && Carries(s.history[j], key, s.cache[key].payload, s.cache[key].written)
  {
    assert WasInserted(s.history, key, s.cache[key].payload, s.cache[key].written);
    j :| j < |s.history| && Carries(s.history[j], key, s.cache[key].payload, s.cache[key].written);
  }

  /** Every order is inserted as pending. */
  lemma {:induction false} RunPending(states: seq<State>, actions: seq<Action>, ttl: nat, k: nat, j: nat)
    requires Run(states, actions, ttl) && k < |states| && j < |states[k].history|
    ensures states[k].history[j].Inserted? ==> states[k].history[j].view.status == Pending
  {
    hide Go;
    if k > 0 {
      var s, a := states[k - 1], actions[k - 1];
      if a.Advance? {
        var more := GoFrame(s, a.i, a.sql, a.redis, ttl);
      }
      if j < |s.history| {
        RunPending(states, actions, ttl, k - 1, j);
      }
    }
  }

  // ---------------------------------------------------------------- when the cache agrees

  /** A handler between its first and its last step that changes its order. */
  predicate Active(h: Handler) {
    h.kind != Get && h.pc != Done
  }

  ghost predicate NoWriter(s: State, key: Key) {
    forall i :: 0 <= i < |s.handlers| && Active(s.handlers[i]) ==> s.handlers[i].key != key
  }

  /** Handlers that change the same order do not overlap, and invalidations are carried out. */
  ghost predicate Orderly(s: State, a: Action)
    requires Enabled(s, a)
  {
    match a
    case Begin(kind, key, amount) => kind != Get ==> NoWriter(s, key)
    case Tick => true
    case Advance(i, sql, redis) => s.handlers[i].pc == Invalidate ==> redis
  }

  ghost predicate OrderlyRun(states: seq<State>, actions: seq<Action>, ttl: nat) {
    Run(states, actions, ttl) && forall k :: 0 <= k < |actions| ==> Orderly(states[k], actions[k])
  }

  predicate Agrees(s: State, key: Key, ttl: nat) {
    Live(s, key, ttl) ==> key in s.db && s.cache[key].payload == ViewOf(s.db[key])
  }

  /** What a handler in progress promises about its order. */
  predicate Promise(s: State, h: Handler, ttl: nat) {
    match h.pc
    case SetCache => !Live(s, h.key, ttl) && h.key in s.db && s.db[h.key] == NewRow(h)
    case Invalidate => true
    case _ => Agrees(s, h.key, ttl)
  }

  predicate KindPc(h: Handler) {
    match h.kind
    case Create => h.pc == Insert || h.pc == SetCache || h.pc == Done
    case Get => h.pc == GetCache || h.pc == Select || h.pc == Done
    case Pay => h.pc == Check || h.pc == Update || h.pc == Invalidate || h.pc == Done
    case Delete => h.pc == Remove || h.pc == Invalidate || h.pc == Done
  }

  predicate Apart(s: State) {
    forall i, j :: 0 <= i < j < |s.handlers| && Active(s.handlers[i]) && Active(s.handlers[j]) ==>
      s.handlers[i].key != s.handlers[j].key
  }

  ghost predicate Coherent(s: State, ttl: nat) {
    Apart(s) && (forall i :: 0 <= i < |s.handlers| ==> KindPc(s.handlers[i])) &&
    (forall i :: 0 <= i < |s.handlers| && Active(s.handlers[i]) ==> Promise(s, s.handlers[i], ttl)) &&
    (forall key :: NoWriter(s, key) ==> Agrees(s, key, ttl))
  }

  /** Nothing about another order changes. */
  ghost predicate SameElsewhere(s: State, s': State, key: Key) {
    s'.now == s.now &&
    (forall k :: k != key ==> (k in s'.db <==> k in s.db) && (k in s.db ==> s'.db[k] == s.db[k])) &&
    (forall k :: k != key ==> (k in s'.cache <==> k in s.cache) && (k in s.cache ==> s'.cache[k] == s.cache[k]))
  }

  lemma GoElsewhere(s: State, i: nat, sql: bool, redis: bool, ttl: nat)
    requires i < |s.handlers|
    ensures SameElsewhere(s, Go(s, i, sql, redis, ttl), s.handlers[i].key)
  {
  }

  lemma GoKind(s: State, i: nat, sql: bool, redis: bool, ttl: nat)
    requires i < |s.handlers| && KindPc(s.handlers[i])
    ensures var s' := Go(s, i, sql, redis, ttl);
            |s'.handlers| == |s.handlers| && KindPc(s'.handlers[i]) && s'.handlers[i].kind == s.handlers[i].kind
  {
  }

  /** The order of a handler that moves, before and after. */
  lemma GoPromise(s: State, i: nat, sql: bool, redis: bool, ttl: nat)
    requires i < |s.handlers| && KindPc(s.handlers[i]) && s.handlers[i].kind != Get
    requires s.handlers[i].pc != Done && Promise(s, s.handlers[i], ttl)
    requires s.handlers[i].pc == Invalidate ==> redis
    ensures var s' := Go(s, i, sql, redis, ttl);
            if s'.handlers[i].pc == Done then Agrees(s', s.handlers[i].key, ttl) else Promise(s', s'.handlers[i], ttl)
  {
  }

  lemma GetChangesNothing(s: State, i: nat, sql: bool, redis: bool, ttl: nat)
    requires i < |s.handlers| && KindPc(s.handlers[i]) && (s.handlers[i].kind == Get || s.handlers[i].pc == Done)
    ensures var s' := Go(s, i, sql, redis, ttl);
            s'.db == s.db && s'.cache == s.cache && s'.now == s.now && !Active(s'.handlers[i])
  {
  }

  lemma PromiseElsewhere(s: State, s': State, key: Key, h: Handler, ttl: nat)
    requires SameElsewhere(s, s', key) && h.key != key
    ensures Promise(s, h, ttl) == Promise(s', h, ttl)
  {
  }

  lemma AgreesElsewhere(s: State, s': State, key: Key, k: Key, ttl: nat)
    requires SameElsewhere(s, s', key) && k != key
    ensures Agrees(s, k, ttl) == Agrees(s', k, ttl)
  {
  }

  lemma GoApart(s: State, i: nat, sql: bool, redis: bool, ttl: nat)
    requires Apart(s) && i < |s.handlers| && KindPc(s.handlers[i])
    ensures Apart(Go(s, i, sql, redis, ttl))
  {
    hide Go;
    var _ := GoFrame(s, i, sql, redis, ttl);
    GoKind(s, i, sql, redis, ttl);
    if !Active(s.handlers[i]) {
      GetChangesNothing(s, i, sql, redis, ttl);
    }
  }

  /** A handler that changes its order moves. */
  lemma GoWriter(s: State, i: nat, sql: bool, redis: bool, ttl: nat)
    requires Coherent(s, ttl) && i < |s.handlers| && Active(s.handlers[i])
    requires s.handlers[i].pc == Invalidate ==> redis
    ensures Coherent(Go(s, i, sql, redis, ttl), ttl)
  {
    hide Go, Promise, SameElsewhere, Agrees, KindPc;
    var s', key := Go(s, i, sql, redis, ttl), s.handlers[i].key;
    var _ := GoFrame(s, i, sql, redis, ttl);
    GoKind(s, i, sql, redis, ttl);
    GoApart(s, i, sql, redis, ttl);
    GoElsewhere(s, i, sql, redis, ttl);
    GoPromise(s, i, sql, redis, ttl);
    forall k | 0 <= k < |s'.handlers| && Active(s'.handlers[k])
      ensures Promise(s', s'.handlers[k], ttl)
    {
      if k != i {
        PromiseElsewhere(s, s', key, s.handlers[k], ttl);
      }
    }
    forall k | NoWriter(s', k)
      ensures Agrees(s', k, ttl)
    {
      if k != key {
        WritersElsewhere(s, s', i, k);
        AgreesElsewhere(s, s', key, k, ttl);
      }
    }
  }

  lemma WritersElsewhere(s: State, s': State, i: nat, k: Key)
    requires i < |s.handlers| == |s'.handlers| && s.handlers[i].key != k
    requires forall j :: 0 <= j < |s.handlers| && j != i ==> s'.handlers[j] == s.handlers[j]
    requires NoWriter(s', k)
    ensures NoWriter(s, k)
  {
    forall j | 0 <= j < |s.handlers| && Active(s.handlers[j])
      ensures s.handlers[j].key != k
    {
      if j != i {
        assert Active(s'.handlers[j]);
      }
    }
  }

  lemma SameStores(s: State, s': State, h: Handler, key: Key, ttl: nat)
    requires s'.db == s.db && s'.cache == s.cache && s'.now >= s.now
    ensures Promise(s, h, ttl) ==> Promise(s', h, ttl)
    ensures Agrees(s, key, ttl) ==> Agrees(s', key, ttl)
  {
  }

  lemma GoReader(s: State, i: nat, sql: bool, redis: bool, ttl: nat)
    requires Coherent(s, ttl) && i < |s.handlers| && !Active(s.handlers[i])
    ensures Coherent(Go(s, i, sql, redis, ttl), ttl)
  {
    hide Go, Promise, Agrees, KindPc;
    var s' := Go(s, i, sql, redis, ttl);
    var _ := GoFrame(s, i, sql, redis, ttl);
    GoKind(s, i, sql, redis, ttl);
    GoApart(s, i, sql, redis, ttl);
    GetChangesNothing(s, i, sql, redis, ttl);
    forall k | 0 <= k < |s'.handlers| && Active(s'.handlers[k])
      ensures Promise(s', s'.handlers[k], ttl)
    {
      SameStores(s, s', s.handlers[k], s.handlers[k].key, ttl);
    }
    forall k | NoWriter(s', k)
      ensures Agrees(s', k, ttl)
    {
      assert NoWriter(s, k) by {
        forall j | 0 <= j < |s.handlers| && Active(s.handlers[j])
          ensures s.handlers[j].key != k
        {
          assert Active(s'.handlers[j]);
        }
      }
      SameStores(s, s', s.handlers[i], k, ttl);
    }
  }

  lemma TickCoherent(s: State, ttl: nat)
    requires Coherent(s, ttl)
    ensures Coherent(s.(now := s.now + 1), ttl)
  {
    hide Promise, Agrees, KindPc;
    var s' := s.(now := s.now + 1);
    forall k | 0 <= k < |s'.handlers| && Active(s'.handlers[k])
      ensures Promise(s', s'.handlers[k], ttl)
    {
      SameStores(s, s', s.handlers[k], s.handlers[k].key, ttl);
    }
    forall k | NoWriter(s', k)
      ensures Agrees(s', k, ttl)
    {
      assert NoWriter(s, k);
      SameStores(s, s', Handler(Get, k, 0.0, 0, Done, NoAnswer), k, ttl);
    }
  }

  lemma BeginCoherent(s: State, kind: Kind, key: Key, amount: real, ttl: nat)
    requires Coherent(s, ttl) && (kind != Get ==> NoWriter(s, key))
    ensures Coherent(Step(s, Begin(kind, key, amount), ttl), ttl)
  {
    hide Agrees;
    var s' := Step(s, Begin(kind, key, amount), ttl);
    var n := |s.handlers|;
    assert forall j :: 0 <= j < n ==> s'.handlers[j] == s.handlers[j];
    assert KindPc(s'.handlers[n]);
    forall k | 0 <= k < |s'.handlers| && Active(s'.handlers[k])
      ensures Promise(s', s'.handlers[k], ttl)
    {
      if k < n {
        SameStores(s, s', s.handlers[k], s.handlers[k].key, ttl);
      } else {
        SameStores(s, s', s'.handlers[n], key, ttl);
      }
    }
    forall k | NoWriter(s', k)
      ensures Agrees(s', k, ttl)
    {
      assert NoWriter(s, k) by {
        forall j | 0 <= j < n && Active(s.handlers[j])
          ensures s.handlers[j].key != k
        {
          assert Active(s'.handlers[j]);
        }
      }
      SameStores(s, s', s'.handlers[n], k, ttl);
    }
  }

  lemma StepCoherent(s: State, a: Action, ttl: nat)
    requires Coherent(s, ttl) && Enabled(s, a) && Orderly(s, a)
    ensures Coherent(Step(s, a, ttl), ttl)
  {
    hide Coherent, Go;
    match a
    case Begin(kind, key, amount) => BeginCoherent(s, kind, key, amount, ttl);
    case Tick => TickCoherent(s, ttl);
    case Advance(i, sql, redis) =>
      if Active(s.handlers[i]) {
        GoWriter(s, i, sql, redis, ttl);
      } else {
        GoReader(s, i, sql, redis, ttl);
      }
  }

  lemma {:induction false} RunCoherent(states: seq<State>, actions: seq<Action>, ttl: nat, k: nat)
    requires OrderlyRun(states, actions, ttl) && k < |states|
    ensures Coherent(states[k], ttl)
  {
    hide Step;
    if k > 0 {
      hide Coherent, Orderly;
      RunCoherent(states, actions, ttl, k - 1);
      StepCoherent(states[k - 1], actions[k - 1], ttl);
    }
  }

  /** What the database answers about an order. */
  function Truth(s: State, key: Key): Answer {
    if key in s.db then Order(ViewOf(s.db[key])) else NotFound
  }

  /** In every run in which handlers of the same order do not overlap and invalidations are carried out,
      whatever else fails, get_order answers what the database says when no handler is changing the
      order: its step either finishes with that answer, or goes on to the database, or the database
      itself fails. */
  lemma GetAgrees(states: seq<State>, actions: seq<Action>, ttl: nat, k: nat, i: nat, sql: bool, redis: bool)
    requires OrderlyRun(states, actions, ttl) && k < |states| && i < |states[k].handlers|
    requires states[k].handlers[i].kind == Get && states[k].handlers[i].pc != Done
    requires NoWriter(states[k], states[k].handlers[i].key)
    ensures var h := Go(states[k], i, sql, redis, ttl).handlers[i];
            h.pc == Select || h.answer == Truth(states[k], h.key) || (!sql && h.answer == Failed)
  {
    RunCoherent(states, actions, ttl, k);
    assert KindPc(states[k].handlers[i]);
    assert Agrees(states[k], states[k].handlers[i].key, ttl);
  }

  // ---------------------------------------------------------------- when it does not

  /** The last answer of a run is one that the database contradicts. */
  predicate EndsStale(states: seq<State>, key: Key) {
    states != [] &&
    var s := states[|states| - 1];
    s.handlers != [] &&
    var h := s.handlers[|s.handlers| - 1];
    h.kind == Get && h.key == key && h.pc == Done && h.answer.Order? && h.answer != Truth(s, key)
  }

  /** The payment overtakes the cache write of the creation: get_order then shows the order as pending,
      although it is paid and every step of both stores was carried out. */
  lemma OverlapGoesStale(key: Key, amount: real, ttl: nat) returns (states: seq<State>, actions: seq<Action>)
    requires ttl > 0
    ensures Run(states, actions, ttl) && EndsStale(states, key)
    ensures forall k :: 0 <= k < |actions| && actions[k].Advance? ==> actions[k].sql && actions[k].redis
  {
    var go0, go1, go2 := Advance(0, true, true), Advance(1, true, true), Advance(2, true, true);
    var s0 := Initial();
    var s1 := Step(s0, Begin(Create, key, amount), ttl);
    var s2 := Step(s1, go0, ttl);
    var s3 := Step(s2, Begin(Pay, key, amount), ttl);
    var s4 := Step(s3, go1, ttl);
    var s5 := Step(s4, go1, ttl);
    var s6 := Step(s5, go1, ttl);
    var s7 := Step(s6, go0, ttl);
    var s8 := Step(s7, Begin(Get, key, amount), ttl);
    var s9 := Step(s8, go2, ttl);
    states := [s0, s1, s2, s3, s4, s5, s6, s7, s8, s9];
    actions := [Begin(Create, key, amount), go0, Begin(Pay, key, amount), go1, go1, go1, go0, Begin(Get, key,
        amount), go2];
  }

  /** An invalidation that is lost leaves the order pending in the cache, although no handlers overlap. */
  lemma LostInvalidationGoesStale(key: Key, amount: real, ttl: nat) returns (states: seq<State>, actions: seq<Action>)
    requires ttl > 0
    ensures Run(states, actions, ttl) && EndsStale(states, key)
    ensures forall k :: 0 <= k < |actions| && actions[k].Begin? ==> NoWriter(states[k], key)
  {
    var go0, go1, go2 := Advance(0, true, true), Advance(1, true, true), Advance(2, true, true);
    var s0 := Initial();
    var s1 := Step(s0, Begin(Create, key, amount), ttl);
    var s2 := Step(s1, go0, ttl);
    var s3 := Step(s2, go0, ttl);
    var s4 := Step(s3, Begin(Pay, key, amount), ttl);
    var s5 := Step(s4, go1, ttl);
    var s6 := Step(s5, go1, ttl);
    var s7 := Step(s6, Advance(1, true, false), ttl);
    var s8 := Step(s7, Begin(Get, key, amount), ttl);
    var s9 := Step(s8, go2, ttl);
    states := [s0, s1, s2, s3, s4, s5, s6, s7, s8, s9];
    actions := [Begin(Create, key, amount), go0, go0, Begin(Pay, key, amount), go1, go1, Advance(1, true, false),
                Begin(Get, key, amount), go2];
  }
}

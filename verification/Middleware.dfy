/** The middleware brackets of crow/middleware.h as crow/http_connection.h and crow/routing.h use them:
    global middleware around the routed handler, and the middleware of a rule, chosen by an index list,
    inside it. */
module Middleware {

  datatype Event = Before(mw: nat) | After(mw: nat) | Handler

  predicate Ascending(s: seq<nat>) {
    forall i, j :: 0 <= i < j < |s| ==> s[i] < s[j]
  }

  // ---------------------------------------------------------------- index lists

  function InsertSorted(s: seq<nat>, x: nat): (r: seq<nat>)
    requires Ascending(s)
    ensures Ascending(r) && forall y :: y in r <==> y == x || y in s
  {
    if s == [] then [x]
    else if x < s[0] then [x] + s
    else if x == s[0] then s
    else
      assert forall y :: y in s <==> y == s[0] || y in s[1..];
      var rest := InsertSorted(s[1..], x);
      assert forall k :: 0 <= k < |rest| ==> rest[k] in rest;
      [s[0]] + rest
  }

  /** pack: sorted and without duplicates, with the same members. */
  function Pack(s: seq<nat>): (r: seq<nat>)
    ensures Ascending(r) && forall y :: y in r <==> y in s
  {
    if s == [] then []
    else
      assert forall y :: y in s <==> y == s[|s| - 1] || y in s[..|s| - 1];
      InsertSorted(Pack(s[..|s| - 1]), s[|s| - 1])
  }

  // ---------------------------------------------------------------- who is called

  datatype Kind = OnlyGlobal | Forward | Backward

  /** The two call criteria: a fixed property of the middleware, or membership in a packed index list
      that is followed by a slider, upwards or downwards. */
  class Criteria {
    const kind: Kind
    const isGlobal: nat -> bool
    const indices: seq<nat>
    var slider: int

    ghost predicate Member(n: nat) {
      if kind == OnlyGlobal then isGlobal(n) else n in indices
    }

    /** The next question is about n, and all smaller ones have been asked. */
    ghost predicate ReadyUp(n: nat)
      reads this
    {
      kind == OnlyGlobal ||
      (kind == Forward && Ascending(indices) && 0 <= slider <= |indices| &&
       (forall k :: 0 <= k < slider ==> indices[k] < n) && forall k :: slider <= k < |indices| ==> n <= indices[k])
    }

    /** The next question is about n - 1, and all larger ones have been asked. */
    ghost predicate ReadyDown(n: nat)
      reads this
    {
      kind == OnlyGlobal ||
      (kind == Backward && Ascending(indices) && -1 <= slider < |indices| &&
       (forall k :: 0 <= k <= slider ==> indices[k] < n) && forall k :: slider < k < |indices| ==> n <= indices[k])
    }

    constructor Global(isGlobal: nat -> bool)
      ensures kind == OnlyGlobal && this.isGlobal == isGlobal
    {
      kind, this.isGlobal, indices, slider := OnlyGlobal, isGlobal, [], 0;
    }

    constructor Upwards(indices: seq<nat>)
      requires Ascending(indices)
      ensures kind == Forward && this.indices == indices && ReadyUp(0)
    {
      kind, this.isGlobal, this.indices, slider := Forward, _ => false, indices, 0;
    }

    constructor Downwards(indices: seq<nat>, ghost count: nat)
      requires Ascending(indices) && forall k :: 0 <= k < |indices| ==> indices[k] < count
      ensures kind == Backward && this.indices == indices && ReadyDown(count)
    {
      kind, this.isGlobal, this.indices, slider := Backward, _ => false, indices, |indices| - 1;
    }

    /** enabled: asked in order, the slider finds exactly the members. */
    method Enabled(n: nat) returns (b: bool)
      requires ReadyUp(n) || ReadyDown(n + 1)
      modifies this`slider
      ensures b == Member(n)
      ensures old(ReadyUp(n)) ==> ReadyUp(n + 1)
      ensures old(ReadyDown(n + 1)) ==> ReadyDown(n)
    {
      match kind
      case OnlyGlobal =>
        return isGlobal(n);
      case Forward =>
        if slider < |indices| && indices[slider] == n {
          slider := slider + 1;
          return true;
        }
        return false;
      case Backward =>
        if slider >= 0 && indices[slider] == n {
          slider := slider - 1;
          return true;
        }
        return false;
    }
  }

  /** The members from lo up to hi, in order. */
  ghost function Members(cc: Criteria, lo: nat, hi: nat): seq<nat>
    decreases hi - lo
  {
    if lo >= hi then [] else (if cc.Member(lo) then [lo] else []) + Members(cc, lo + 1, hi)
  }

  lemma {:induction false} MembersSnoc(cc: Criteria, lo: nat, hi: nat)
    requires lo <= hi
    ensures Members(cc, lo, hi + 1) == Members(cc, lo, hi) + if cc.Member(hi) then [hi] else []
    decreases hi - lo
  {
    if lo < hi {
      MembersSnoc(cc, lo + 1, hi);
    } else {
      assert Members(cc, lo + 1, hi + 1) == [];
    }
  }

  /** The list holds exactly the members between lo and hi. */
  ghost predicate Lists(s: seq<nat>, cc: Criteria, lo: nat, hi: nat) {
    Ascending(s) && forall x :: x in s <==> lo <= x < hi && cc.Member(x)
  }

  lemma {:induction false} MembersAscending(cc: Criteria, lo: nat, hi: nat)
    ensures Lists(Members(cc, lo, hi), cc, lo, hi)
    decreases hi - lo
  {
    hide Lists;
    if lo < hi {
      MembersAscending(cc, lo + 1, hi);
      ListsCons(Members(cc, lo + 1, hi), cc, lo, hi);
      assert [] + Members(cc, lo + 1, hi) == Members(cc, lo + 1, hi);
    } else {
      ListsNone(cc, lo, hi);
    }
  }

  lemma ListsNone(cc: Criteria, lo: nat, hi: nat)
    requires lo >= hi
    ensures Lists([], cc, lo, hi)
  {
  }

  lemma ListsCons(s: seq<nat>, cc: Criteria, lo: nat, hi: nat)
    requires lo < hi && Lists(s, cc, lo + 1, hi)
    ensures Lists(if cc.Member(lo) then [lo] + s else s, cc, lo, hi)
  {
    AscendingCons(lo, s);
  }

  lemma AscendingCons(n: nat, s: seq<nat>)
    requires Ascending(s) && forall x :: x in s ==> n < x
    ensures Ascending([n] + s) && forall x :: x in [n] + s <==> x == n || x in s
  {
    assert forall k :: 0 <= k < |s| ==> s[k] in s;
  }

  /** The members of an ascending list, asked for one by one, are the list. */
  lemma MembersOfIndices(cc: Criteria, count: nat)
    requires cc.kind != OnlyGlobal && Ascending(cc.indices) &&
             forall k :: 0 <= k < |cc.indices| ==> cc.indices[k] < count
    ensures Members(cc, 0, count) == cc.indices
  {
    MembersAscending(cc, 0, count);
    SameMembers(Members(cc, 0, count), cc.indices);
  }

  lemma {:induction false} SameMembers(a: seq<nat>, b: seq<nat>)
    requires Ascending(a) && Ascending(b) && forall x :: x in a <==> x in b
    ensures a == b
  {
    if a == [] {
      assert forall k :: 0 <= k < |b| ==> b[k] in b;
    } else {
      assert a[0] in b && b[0] in a;
      assert a[0] == b[0];
      assert forall x :: x in a <==> x == a[0] || x in a[1..];
      assert forall x :: x in b <==> x == b[0] || x in b[1..];
      SameMembers(a[1..], b[1..]);
    }
  }

  // ---------------------------------------------------------------- brackets

  /** How many of n before_handle calls are made when call number k is the first: up to the one that
      ends the response. */
  function Made(ends: nat -> bool, k: nat, n: nat): (m: nat)
    ensures m <= n
    decreases n
  {
    if n == 0 then 0 else if ends(k) then 1 else 1 + Made(ends, k + 1, n - 1)
  }

  predicate Ended(ends: nat -> bool, k: nat, n: nat)
    decreases n
  {
    n != 0 && (ends(k) || Ended(ends, k + 1, n - 1))
  }

  function Befores(s: seq<nat>): seq<Event> {
    seq(|s|, i requires 0 <= i < |s| => Before(s[i]))
  }

  /** The after_handle calls, last middleware first. */
  function Afters(s: seq<nat>): seq<Event> {
    seq(|s|, i requires 0 <= i < |s| => After(s[|s| - 1 - i]))
  }

  lemma BracketHead(n: nat, s: seq<nat>)
    ensures Befores([n] + s) == [Before(n)] + Befores(s)
    ensures Afters([n] + s) == Afters(s) + [After(n)]
  {
    assert forall i :: 0 <= i < |s| ==> ([n] + s)[i + 1] == s[i];
    assert forall i :: 0 <= i < |s| ==> Befores([n] + s)[i + 1] == Befores(s)[i];
    assert forall i :: 0 <= i < |s| ==> Afters([n] + s)[i] == Afters(s)[i];
  }

  lemma BracketConcat(s: seq<nat>, t: seq<nat>)
    ensures Befores(s + t) == Befores(s) + Befores(t)
    ensures Afters(s + t) == Afters(t) + Afters(s)
  {
  }

  /** Calls made up to the end of the response: all of them, or a prefix. */
  lemma {:induction false} MadeAll(ends: nat -> bool, k: nat, n: nat)
    requires !Ended(ends, k, n)
    ensures Made(ends, k, n) == n
    decreases n
  {
    if n > 0 {
      MadeAll(ends, k + 1, n - 1);
    }
  }

  lemma {:induction false} MadeConcat(ends: nat -> bool, k: nat, n: nat, m: nat)
    ensures Ended(ends, k, n + m) == (Ended(ends, k, n) || Ended(ends, k + n, m))
    ensures Made(ends, k, n + m) == if Ended(ends, k, n) then Made(ends, k, n) else n + Made(ends, k + n, m)
    decreases n
  {
    if n > 0 && !ends(k) {
      MadeConcat(ends, k + 1, n - 1, m);
    }
  }

  /** The calls around a handler: a prefix of the list, entered in order and left in reverse, with the
      handler inside when nobody ended the response. */
  function Bracket(list: seq<nat>, ends: nat -> bool, k: nat): seq<Event> {
    var made := list[..Made(ends, k, |list|)];
    Befores(made) + (if Ended(ends, k, |list|) then [] else [Handler]) + Afters(made)
  }

  /** The before_handle calls for a list, with the after_handle calls if one of them ended the response. */
  predicate Entered(ends: nat -> bool, list: seq<nat>, k: nat, before: seq<Event>, after: seq<Event>, calls: nat,
      ended: bool) {
    var made := list[..Made(ends, k, |list|)];
    ended == Ended(ends, k, |list|) && calls == k + |made| &&
    after == before + Befores(made) + if ended then Afters(made) else []
  }

  lemma EnteredNone(ends: nat -> bool, k: nat, before: seq<Event>)
    ensures Entered(ends, [], k, before, before, k, false)
  {
  }

  lemma EnteredStop(ends: nat -> bool, n: nat, list: seq<nat>, k: nat, before: seq<Event>)
    requires ends(k)
    ensures Entered(ends, [n] + list, k, before, before + [Before(n)] + [After(n)], k + 1, true)
  {
    assert ([n] + list)[..1] == [n];
    assert Befores([n]) == [Before(n)] && Afters([n]) == [After(n)];
  }

  lemma EnteredMore(ends: nat -> bool, n: nat, list: seq<nat>, k: nat, before: seq<Event>, after: seq<Event>,
                    calls: nat, ended: bool)
    requires !ends(k) && Entered(ends, list, k + 1, before + [Before(n)], after, calls, ended)
    ensures Entered(ends, [n] + list, k, before, if ended then after + [After(n)] else after, calls, ended)
  {
    hide Befores, Afters;
    var made := list[..Made(ends, k + 1, |list|)];
    assert ([n] + list)[..1 + |made|] == [n] + made;
    BracketHead(n, made);
  }

  /** One request: call number k of before_handle ends the response when ends(k) holds. */
  class Exchange {
    const count: nat
    const ends: nat -> bool
    var calls: nat
    var trace: seq<Event>
    var completed: bool
    var needAfter: bool

    constructor (count: nat, ends: nat -> bool)
      ensures this.count == count && this.ends == ends && trace == [] && calls == 0 && !completed
    {
      this.count, this.ends := count, ends;
      calls, trace, completed, needAfter := 0, [], false, false;
    }

    method BeforeHandle(n: nat)
      requires !completed
      modifies this
      ensures trace == old(trace) + [Before(n)] && calls == old(calls) + 1 && completed == ends(old(calls))
      ensures needAfter == old(needAfter)
    {
      trace := trace + [Before(n)];
      completed := ends(calls);
      calls := calls + 1;
    }

    method AfterHandle(n: nat)
      modifies this`trace
      ensures trace == old(trace) + [After(n)]
    {
      trace := trace + [After(n)];
    }

    /** middleware_call_helper */
    method BeforeHandlers(cc: Criteria, n: nat) returns (ended: bool)
      requires n <= count && !completed && cc.ReadyUp(n)
      modifies this, cc`slider
      ensures Entered(ends, Members(cc, n, count), old(calls), old(trace), trace, calls, ended)
      ensures ended == completed && needAfter == old(needAfter)
      decreases count - n
    {
      hide Entered;
      EnteredNone(ends, calls, trace);
      if n == count {
        return false;
      }
      var enabled := cc.Enabled(n);
      if !enabled {
        assert Members(cc, n, count) == Members(cc, n + 1, count);
        ended := BeforeHandlers(cc, n + 1);
        return;
      }
      ghost var list, k, before := Members(cc, n + 1, count), calls, trace;
      BeforeHandle(n);
      if completed {
        AfterHandle(n);
        EnteredStop(ends, n, list, k, before);
        return true;
      }
      ended := BeforeHandlers(cc, n + 1);
      EnteredMore(ends, n, list, k, before, trace, calls, ended);
      if ended {
        AfterHandle(n);
      }
    }

    /** after_handlers_call_helper, for the middleware below n */
    method AfterHandlers(cc: Criteria, n: nat)
      requires n <= count && cc.ReadyDown(n)
      modifies this`trace, cc`slider
      ensures trace == old(trace) + Afters(Members(cc, 0, n))
      decreases n
    {
      if n == 0 {
        return;
      }
      MembersSnoc(cc, 0, n - 1);
      BracketConcat(Members(cc, 0, n - 1), [n - 1]);
      var enabled := cc.Enabled(n - 1);
      if enabled {
        AfterHandle(n - 1);
      }
      AfterHandlers(cc, n - 1);
    }

    /** complete_request: whoever ran the handlers leaves the after calls to this method. */
    method CompleteRequest(isGlobal: nat -> bool)
      modifies this
      ensures !needAfter && calls == old(calls) && completed == old(completed)
      ensures var g := Globals(isGlobal, count);
              trace == old(trace) + if old(needAfter) then Afters(g) else []
    {
      if needAfter {
        needAfter := false;
        var cc := new Criteria.Global(isGlobal);
        GlobalMembers(cc, 0, count);
        AfterHandlers(cc, count);
      }
    }

    /** handle_rule, with the completion handler that it installs for the rule's handler. */
    method HandleRule(isGlobal: nat -> bool, indices: seq<nat>)
      requires !completed && needAfter && Ascending(indices)
      requires forall k :: 0 <= k < |indices| ==> indices[k] < count
      modifies this
      ensures trace == old(trace) + Bracket(indices, ends, old(calls)) + Afters(Globals(isGlobal, count))
      ensures completed
    {
      hide Entered, Made, Ended, Befores, Afters, Bracket, Members;
      ghost var k, before := calls, trace;
      if indices != [] {
        var forward := new Criteria.Upwards(indices);
        MembersOfIndices(forward, count);
        var _ := BeforeHandlers(forward, 0);
        EnteredRule(indices, ends, k, before, trace, calls, completed);
        if completed {
          CompleteRequest(isGlobal);
          return;
        }
        trace := trace + [Handler];
        completed := true;
        var backward := new Criteria.Downwards(indices, count);
        MembersOfIndices(backward, count);
        AfterHandlers(backward, count);
        CompleteRequest(isGlobal);
      } else {
        trace := trace + [Handler];
        completed := true;
        NoRuleMiddleware(ends, k);
        CompleteRequest(isGlobal);
      }
    }

    /** handle, for a valid request: global middleware, then the middleware of the rule, make one
        bracket around the handler. */
    method Handle(isGlobal: nat -> bool, indices: seq<nat>)
      requires !completed && trace == [] && calls == 0 && Ascending(indices)
      requires forall k :: 0 <= k < |indices| ==> indices[k] < count
      modifies this
      ensures trace == Bracket(Globals(isGlobal, count) + indices, ends, 0)
    {
      ghost var g := Globals(isGlobal, count);
      needAfter := false;
      var cc := new Criteria.Global(isGlobal);
      GlobalMembers(cc, 0, count);
      var _ := BeforeHandlers(cc, 0);
      hide Entered, Bracket, Made, Ended, Befores, Afters;
      if !completed {
        EnteredAll(g, indices, ends, trace, calls);
        needAfter := true;
        HandleRule(isGlobal, indices);
      } else {
        EnteredPart(g, indices, ends, trace, calls);
        CompleteRequest(isGlobal);
      }
    }
  }

  /** The global middleware, in order. */
  function Globals(isGlobal: nat -> bool, count: nat): seq<nat> {
    if count == 0 then [] else Globals(isGlobal, count - 1) + if isGlobal(count - 1) then [count - 1] else []
  }

  lemma {:induction false} GlobalMembers(cc: Criteria, lo: nat, count: nat)
    requires cc.kind == OnlyGlobal && lo == 0
    ensures Members(cc, 0, count) == Globals(cc.isGlobal, count)
    decreases count
  {
    if count > 0 {
      GlobalMembers(cc, 0, count - 1);
      MembersSnoc(cc, 0, count - 1);
    }
  }

  lemma NestedPrefix(g: seq<nat>, l: seq<nat>, ends: nat -> bool)
    ensures var made := (g + l)[..Made(ends, 0, |g + l|)];
            made == if Ended(ends, 0, |g|) then g[..Made(ends, 0, |g|)] else g + l[..Made(ends, |g|, |l|)]
    ensures Ended(ends, 0, |g + l|) == (Ended(ends, 0, |g|) || Ended(ends, |g|, |l|))
  {
    hide Made, Ended;
    MadeConcat(ends, 0, |g|, |l|);
    PrefixInside(g, l, Made(ends, 0, |g|));
    PrefixBeyond(g, l, Made(ends, |g|, |l|));
  }

  lemma PrefixInside(g: seq<nat>, l: seq<nat>, m: nat)
    requires m <= |g|
    ensures (g + l)[..m] == g[..m]
  {
  }

  lemma PrefixBeyond(g: seq<nat>, l: seq<nat>, m: nat)
    requires m <= |l|
    ensures (g + l)[..|g| + m] == g + l[..m]
  {
  }

  lemma EnteredRule(l: seq<nat>, ends: nat -> bool, k: nat, before: seq<Event>, trace: seq<Event>, calls: nat,
      ended: bool)
    requires Entered(ends, l, k, before, trace, calls, ended)
    ensures (if ended then trace else trace + [Handler] + Afters(l)) == before + Bracket(l, ends, k)
  {
    hide Made, Ended, Befores, Afters;
    var made := l[..Made(ends, k, |l|)];
    if ended {
      Reassociate(before, Befores(made), [], [], Afters(made));
    } else {
      MadeAll(ends, k, |l|);
      assert made == l;
      Reassociate(before, Befores(l), [Handler], Afters(l), []);
    }
  }

  lemma NoRuleMiddleware(ends: nat -> bool, k: nat)
    ensures Bracket([], ends, k) == [Handler]
  {
  }

  lemma EnteredPart(g: seq<nat>, l: seq<nat>, ends: nat -> bool, trace: seq<Event>, calls: nat)
    requires Entered(ends, g, 0, [], trace, calls, true)
    ensures trace == Bracket(g + l, ends, 0)
  {
    hide Made, Ended, Befores, Afters;
    NestedPrefix(g, l, ends);
    Reassociate(Befores(g[..Made(ends, 0, |g|)]), [], [], [], Afters(g[..Made(ends, 0, |g|)]));
  }

  lemma EnteredAll(g: seq<nat>, l: seq<nat>, ends: nat -> bool, trace: seq<Event>, calls: nat)
    requires Entered(ends, g, 0, [], trace, calls, false)
    ensures calls == |g| && trace + Bracket(l, ends, |g|) + Afters(g) == Bracket(g + l, ends, 0)
  {
    hide Made, Ended, Befores, Afters;
    MadeAll(ends, 0, |g|);
    assert g[..|g|] == g;
    NestedPrefix(g, l, ends);
    var inner := l[..Made(ends, |g|, |l|)];
    BracketConcat(g, inner);
    Reassociate(Befores(g), Befores(inner), if Ended(ends, |g|, |l|) then [] else [Handler], Afters(inner), Afters(g));
  }

  lemma Reassociate(a: seq<Event>, b: seq<Event>, h: seq<Event>, c: seq<Event>, d: seq<Event>)
    ensures (a + b) + h + (c + d) == a + (b + h + c) + d
    ensures h == [] && c == [] ==> a + b + d == a + (b + [] + d)
    ensures d == [] ==> a + b + h + c == a + (b + h + c)
    ensures b == [] && c == [] ==> a + h + d == a + (b + h + c) + d
  {
  }

  // ---------------------------------------------------------------- what a bracket promises

  /** Every middleware of the prefix is entered and left at mirrored places of the trace. */
  lemma BracketMirrors(list: seq<nat>, ends: nat -> bool, i: nat)
    requires i < Made(ends, 0, |list|)
    ensures var t := Bracket(list, ends, 0);
            t[i] == Before(list[i]) && t[|t| - 1 - i] == After(list[i])
    ensures (Handler in Bracket(list, ends, 0)) == !Ended(ends, 0, |list|)
  {
    hide Made, Ended, Befores, Afters;
    var made := list[..Made(ends, 0, |list|)];
    MirrorAt(made, if Ended(ends, 0, |list|) then [] else [Handler], i);
  }

  lemma MirrorAt(s: seq<nat>, inner: seq<Event>, i: nat)
    requires i < |s|
    ensures var t := Befores(s) + inner + Afters(s);
            t[i] == Before(s[i]) && t[|t| - 1 - i] == After(s[i])
    ensures (Handler in Befores(s) + inner + Afters(s)) == (Handler in inner)
  {
    assert Handler !in Befores(s) && Handler !in Afters(s);
  }

  predicate Distinct(s: seq<nat>) {
    forall i, j :: 0 <= i < j < |s| ==> s[i] != s[j]
  }

  /** How often an event occurs. */
  function Occurrences(t: seq<Event>, e: Event): nat {
    multiset(t)[e]
  }

  lemma {:induction false} BracketCounts(s: seq<nat>, n: nat)
    requires Distinct(s)
    ensures Occurrences(Befores(s), Before(n)) == (if n in s then 1 else 0)
    ensures Occurrences(Afters(s), After(n)) == (if n in s then 1 else 0)
    ensures Occurrences(Befores(s), After(n)) == 0 && Occurrences(Afters(s), Before(n)) == 0
  {
    if s != [] {
      BracketCounts(s[1..], n);
      assert s == [s[0]] + s[1..];
      BracketHead(s[0], s[1..]);
      assert s[0] in s[1..] ==> exists k :: 1 <= k < |s| && s[k] == s[0];
    }
  }

  /** A middleware that was entered is left exactly once, and no other middleware is called at all. */
  lemma CalledOnce(list: seq<nat>, ends: nat -> bool, n: nat)
    requires Distinct(list)
    ensures var t, made := Bracket(list, ends, 0), list[..Made(ends, 0, |list|)];
            Occurrences(t, Before(n)) == Occurrences(t, After(n)) == if n in made then 1 else 0
  {
    BracketCounts(list[..Made(ends, 0, |list|)], n);
  }
}

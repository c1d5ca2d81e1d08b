/** The test for object blocks in crow/mustache.h: the renderer scans the actions before a tag backwards to
    see whether the tag is inside a section, and then looks its name up in the top context only. The scan
    counts section starts and block ends, and passes over inverted section starts. */
module ObjectBlocks {
  import opened Mustache

  // ---------------------------------------------------------------- what the scan says

  function Count(ks: seq<ActionType>, k: ActionType): nat {
    if ks == [] then 0 else Count(ks[..|ks| - 1], k) + if ks[|ks| - 1] == k then 1 else 0
  }

  /** Ends minus section starts behind position i, added to the surplus. */
  function Level(before: seq<ActionType>, i: nat, surplus: int): int
    requires i < |before|
  {
    surplus + Count(before[i + 1..], CloseBlock) - Count(before[i + 1..], OpenBlock)
  }

  lemma LevelInit(before: seq<ActionType>, i: nat, surplus: int)
    requires i + 1 < |before|
    ensures var init, last := before[..|before| - 1], before[|before| - 1];
            Level(before, i, surplus) ==
            Level(init, i, if last == OpenBlock then surplus - 1 else if last ==
              CloseBlock then surplus + 1 else surplus)
  {
    var init := before[..|before| - 1];
    assert before[i + 1..][..|before| - i - 2] == init[i + 1..];
  }

  /** Some section start is met at level 0. */
  predicate MetAtZero(before: seq<ActionType>, surplus: int) {
    exists i :: 0 <= i < |before| && before[i] == OpenBlock && Level(before, i, surplus) == 0
  }

  lemma MetAtZeroInit(before: seq<ActionType>, surplus: int)
    requires before != []
    ensures var init, last := before[..|before| - 1], before[|before| - 1];
            var next := if last == OpenBlock then surplus - 1 else if last == CloseBlock then surplus + 1 else surplus;
            MetAtZero(before, surplus) <==> (last == OpenBlock && surplus == 0) || MetAtZero(init, next)
  {
    var init, last := before[..|before| - 1], before[|before| - 1];
    var next := if last == OpenBlock then surplus - 1 else if last == CloseBlock then surplus + 1 else surplus;
    assert Level(before, |before| - 1, surplus) == surplus;
    hide Level;
    forall i | 0 <= i < |init|
      ensures Level(before, i, surplus) == Level(init, i, next) && init[i] == before[i]
    {
      LevelInit(before, i, surplus);
    }
    if MetAtZero(init, next) {
      var i :| 0 <= i < |init| && init[i] == OpenBlock && Level(init, i, next) == 0;
      assert before[i] == OpenBlock && Level(before, i, surplus) == 0;
    }
    if last == OpenBlock && surplus == 0 {
      assert before[|before| - 1] == OpenBlock;
    }
  }

  /** For every sequence of actions the scan finds a block exactly when the top context is an object and
      some section start is met at level 0. */
  lemma {:induction false} InsideObjectBlockMeaning(before: seq<ActionType>, surplus: int, top: Context)
    ensures InsideObjectBlock(before, surplus, top) <==> top.Object? && MetAtZero(before, surplus)
    decreases |before|
  {
    if before != [] {
      var init, last := before[..|before| - 1], before[|before| - 1];
      var next := if last == OpenBlock then surplus - 1 else if last == CloseBlock then surplus + 1 else surplus;
      MetAtZeroInit(before, surplus);
      hide MetAtZero;
      InsideObjectBlockMeaning(init, next, top);
    }
  }

  function Max(a: int, b: int): int {
    if a >= b then a else b
  }

  /** The most by which section starts outnumber block ends in a suffix. */
  function Best(ks: seq<ActionType>): nat {
    if ks == [] then 0
    else
      var best, last := Best(ks[..|ks| - 1]), ks[|ks| - 1];
      if last == OpenBlock then best + 1 else if last == CloseBlock then Max(0, best - 1) else best
  }

  lemma {:induction false} InsideIsBest(before: seq<ActionType>, surplus: nat, top: Context)
    ensures InsideObjectBlock(before, surplus, top) <==> top.Object? && Best(before) > surplus
    decreases |before|
  {
    if before != [] {
      var init, last := before[..|before| - 1], before[|before| - 1];
      if last == OpenBlock {
        if surplus > 0 {
          InsideIsBest(init, surplus - 1, top);
        } else if !top.Object? {
          InsideObjectBlockMeaning(init, -1, top);
        }
      } else {
        InsideIsBest(init, if last == CloseBlock then surplus + 1 else surplus, top);
      }
    }
  }

  // ---------------------------------------------------------------- the blocks around a position

  /** The starts of the blocks around position n, from the outside in. */
  function Around(a: seq<Action>, n: nat): (open: seq<nat>)
    requires n <= |a|
    ensures forall j :: 0 <= j < |open| ==> open[j] < n
    ensures forall i, j :: 0 <= i < j < |open| ==> open[i] < open[j]
  {
    if n == 0 then []
    else
      var open := Around(a, n - 1);
      if Opens(a[n - 1].t) then open + [n - 1]
      else if a[n - 1].t == CloseBlock && open != [] then open[..|open| - 1]
      else open
  }

  /** A well nested part leaves the blocks around it as they are. */
  lemma {:induction false} AroundPart(a: seq<Action>, lo: nat, hi: nat)
    requires lo <= hi <= |a| && WellNested(a, lo, hi)
    ensures Around(a, hi) == Around(a, lo)
    decreases hi - lo
  {
    if lo < hi {
      if Opens(a[lo].t) {
        AroundPart(a, lo + 1, a[lo].pos);
        AroundPart(a, a[lo].pos + 1, hi);
      } else {
        AroundPart(a, lo + 1, hi);
      }
    }
  }

  /** A block end closes the innermost block around it. */
  lemma {:induction false} EndClosesInnermost(a: seq<Action>, lo: nat, hi: nat, n: nat)
    requires lo <= n < hi <= |a| && WellNested(a, lo, hi) && a[n].t == CloseBlock
    ensures var open := Around(a, n);
            open != [] && a[n].pos == open[|open| - 1] && Opens(a[a[n].pos].t) && a[a[n].pos].pos == n
    decreases hi - lo
  {
    if Opens(a[lo].t) {
      var p := a[lo].pos;
      AroundPart(a, lo + 1, p);
      if n < p {
        EndClosesInnermost(a, lo + 1, p, n);
      } else if n > p {
        EndClosesInnermost(a, p + 1, hi, n);
      }
    } else {
      EndClosesInnermost(a, lo + 1, hi, n);
    }
  }

  /** A block start is linked to its end. */
  lemma {:induction false} StartIsLinked(a: seq<Action>, lo: nat, hi: nat, i: nat)
    requires lo <= i < hi <= |a| && WellNested(a, lo, hi) && Opens(a[i].t)
    ensures i < a[i].pos < hi && a[a[i].pos].t == CloseBlock && a[a[i].pos].pos == i
    decreases hi - lo
  {
    if Opens(a[lo].t) {
      var p := a[lo].pos;
      if lo < i < p {
        StartIsLinked(a, lo + 1, p, i);
      } else if i > p {
        StartIsLinked(a, p + 1, hi, i);
      }
    } else {
      StartIsLinked(a, lo + 1, hi, i);
    }
  }

  lemma AroundNext(a: seq<Action>, n: nat, i: nat)
    requires n < |a|
    ensures Opens(a[n].t) ==> (i in Around(a, n + 1) <==> i in Around(a, n) || i == n)
    ensures !Opens(a[n].t) && a[n].t != CloseBlock ==> (i in Around(a, n + 1) <==> i in Around(a, n))
    ensures a[n].t == CloseBlock && Around(a, n) != [] ==>
              (i in Around(a, n + 1) <==> i in Around(a, n) && i != Around(a, n)[|Around(a, n)| - 1])
  {
    if Around(a, n) != [] {
      WithoutLast(Around(a, n), i);
    }
  }

  lemma WithoutLast(open: seq<nat>, i: nat)
    requires open != [] && forall i, j :: 0 <= i < j < |open| ==> open[i] < open[j]
    ensures i in open[..|open| - 1] <==> i in open && i != open[|open| - 1]
  {
    assert open == open[..|open| - 1] + [open[|open| - 1]];
  }

  /** By the links: a block is around n when it starts before n and ends at n or later. */
  lemma {:induction false} AroundIsByLinks(a: seq<Action>, hi: nat, n: nat, i: nat)
    requires n <= hi <= |a| && WellNested(a, 0, hi)
    ensures i in Around(a, n) <==> i < n && Opens(a[i].t) && a[i].pos >= n
    decreases n
  {
    hide WellNested, Around;
    if n == 0 {
      NothingAround(a);
    } else {
      AroundIsByLinks(a, hi, n - 1, i);
      AroundNext(a, n - 1, i);
      if i < n && Opens(a[i].t) {
        StartIsLinked(a, 0, hi, i);
      }
      if a[n - 1].t == CloseBlock {
        EndClosesInnermost(a, 0, hi, n - 1);
      }
    }
  }

  // ---------------------------------------------------------------- margins

  /** A block around the tag, with the number of inverted sections that were closed behind its start. */
  datatype Opener = Opener(t: ActionType, inverted: nat)

  function Sections(st: seq<Opener>): nat {
    if st == [] then 0 else Sections(st[1..]) + if st[0].t == OpenBlock then 1 else 0
  }

  /** The largest excess of the sections open from one on over the inverted sections closed behind it. */
  function Margin(st: seq<Opener>): nat {
    if st == [] then 0
    else if st[0].t == OpenBlock then Max(Margin(st[1..]), Sections(st) - st[0].inverted)
    else Margin(st[1..])
  }

  function Bump(st: seq<Opener>): seq<Opener> {
    seq(|st|, j requires 0 <= j < |st| => Opener(st[j].t, st[j].inverted + 1))
  }

  lemma {:induction false} MarginPush(st: seq<Opener>, o: Opener)
    ensures Sections(st + [o]) == Sections(st) + if o.t == OpenBlock then 1 else 0
    ensures o.t != OpenBlock ==> Margin(st + [o]) == Margin(st)
    ensures o == Opener(OpenBlock, 0) ==> Margin(st + [o]) == Margin(st) + 1
    ensures o.t == OpenBlock ==> Max(0, Margin(st + [o]) - 1) == Margin(st)
  {
    if st == [] {
      assert st + [o] == [o];
      assert [o][1..] == [];
    } else {
      MarginPush(st[1..], o);
      assert (st + [o])[1..] == st[1..] + [o];
    }
  }

  lemma {:induction false} MarginBump(st: seq<Opener>)
    ensures Sections(Bump(st)) == Sections(st) && Margin(Bump(st)) == Max(0, Margin(st) - 1)
  {
    if st != [] {
      MarginBump(st[1..]);
      assert Bump(st)[1..] == Bump(st[1..]);
    }
  }

  /** Some section around the tag has fewer inverted sections closed behind it than sections open from it
      on. */
  predicate Shows(st: seq<Opener>) {
    exists j :: 0 <= j < |st| && st[j].t == OpenBlock && st[j].inverted < Sections(st[j..])
  }

  lemma {:induction false} MarginShows(st: seq<Opener>)
    ensures Margin(st) > 0 <==> Shows(st)
  {
    if st != [] {
      MarginShows(st[1..]);
      assert st[0..] == st;
      if Shows(st[1..]) {
        var j :| 0 <= j < |st[1..]| && st[1..][j].t == OpenBlock && st[1..][j].inverted < Sections(st[1..][j..]);
        assert st[j + 1].t == OpenBlock && st[j + 1..] == st[1..][j..];
      }
      if Shows(st) {
        var j :| 0 <= j < |st| && st[j].t == OpenBlock && st[j].inverted < Sections(st[j..]);
        if j > 0 {
          assert st[1..][j - 1] == st[j] && st[1..][j - 1..] == st[j..];
        }
      }
    }
  }

  // ---------------------------------------------------------------- parsed arrays

  /** The inverted sections that start at from or later and end before n. */
  function ClosedInverted(a: seq<Action>, from: nat, n: nat): nat
    requires n <= |a|
  {
    if n <= from then 0
    else
      var x := a[n - 1];
      ClosedInverted(a, from, n - 1) +
      if x.t == CloseBlock && from <= x.pos < |a| && a[x.pos].t == ElseBlock then 1 else 0
  }

  function StackOf(a: seq<Action>, open: seq<nat>, n: nat): seq<Opener>
    requires n <= |a| && forall j :: 0 <= j < |open| ==> open[j] < n
  {
    seq(|open|, j requires 0 <= j < |open| => Opener(a[open[j]].t, ClosedInverted(a, open[j], n)))
  }

  /** The blocks around position n, with what was closed behind them. */
  function StackAt(a: seq<Action>, n: nat): seq<Opener>
    requires n <= |a|
  {
    StackOf(a, Around(a, n), n)
  }

  lemma StackAfterStart(a: seq<Action>, n: nat)
    requires n < |a| && Opens(a[n].t)
    ensures StackAt(a, n + 1) == StackAt(a, n) + [Opener(a[n].t, 0)]
  {
    assert ClosedInverted(a, n, n + 1) == 0;
  }

  lemma StackAfterLeaf(a: seq<Action>, n: nat)
    requires n < |a| && !Opens(a[n].t) && a[n].t != CloseBlock
    ensures StackAt(a, n + 1) == StackAt(a, n)
  {
  }

  lemma StackAfterEnd(a: seq<Action>, n: nat)
    requires n < |a| && a[n].t == CloseBlock && Around(a, n) != []
    requires a[n].pos == Around(a, n)[|Around(a, n)| - 1]
    ensures var st := StackAt(a, n);
            var rest, last := st[..|st| - 1], st[|st| - 1];
            st == rest + [last] && StackAt(a, n + 1) == if last.t == ElseBlock then Bump(rest) else rest
  {
    var open := Around(a, n);
    var inner := open[..|open| - 1];
    assert Around(a, n + 1) == inner;
    hide Around, ClosedInverted;
    var st := StackOf(a, open, n);
    assert st == st[..|st| - 1] + [st[|st| - 1]];
    assert StackOf(a, inner, n) == st[..|st| - 1];
    ClosedOneMore(a, inner, n);
  }

  /** The end of the block behind the open ones. */
  lemma ClosedOneMore(a: seq<Action>, open: seq<nat>, n: nat)
    requires n < |a| && a[n].t == CloseBlock && a[n].pos < n && forall j :: 0 <= j < |open| ==> open[j] < a[n].pos
    ensures StackOf(a, open, n + 1) == if a[a[n].pos].t ==
            ElseBlock then Bump(StackOf(a, open, n)) else StackOf(a, open, n)
  {
    forall j | 0 <= j < |open|
      ensures ClosedInverted(a, open[j], n + 1) ==
              ClosedInverted(a, open[j], n) + if a[a[n].pos].t == ElseBlock then 1 else 0
    {
    }
  }

  lemma {:induction false} BestIsMargin(a: seq<Action>, hi: nat, n: nat)
    requires n <= hi <= |a| && WellNested(a, 0, hi)
    ensures Best(KindsBefore(a, n)) == Margin(StackAt(a, n))
    decreases n
  {
    hide Around, StackOf, StackAt, ClosedInverted, Margin;
    if n == 0 {
      NothingAround(a);
    } else {
      BestIsMargin(a, hi, n - 1);
      assert KindsBefore(a, n)[..n - 1] == KindsBefore(a, n - 1);
      var st, x := StackAt(a, n - 1), a[n - 1];
      if Opens(x.t) {
        StackAfterStart(a, n - 1);
        MarginPush(st, Opener(x.t, 0));
      } else if x.t == CloseBlock {
        EndClosesInnermost(a, 0, hi, n - 1);
        StackAfterEnd(a, n - 1);
        var rest, last := st[..|st| - 1], st[|st| - 1];
        MarginPush(rest, last);
        MarginBump(rest);
        LastOpens(a, n - 1);
      } else {
        StackAfterLeaf(a, n - 1);
      }
    }
  }

  lemma NothingAround(a: seq<Action>)
    ensures Around(a, 0) == [] && StackAt(a, 0) == [] && Margin([]) == 0
  {
  }

  lemma LastOpens(a: seq<Action>, n: nat)
    requires n <= |a| && Around(a, n) != [] && Opens(a[Around(a, n)[|Around(a, n)| - 1]].t)
    ensures var st := StackAt(a, n);
            st != [] && (st[|st| - 1].t == OpenBlock || st[|st| - 1].t == ElseBlock)
  {
  }

  /** Some section, not inverted, is around position n. */
  predicate SectionOpen(a: seq<Action>, n: nat)
    requires n <= |a|
  {
    exists j :: 0 <= j < |StackAt(a, n)| && StackAt(a, n)[j].t == OpenBlock
  }

  /** On every prefix of a parsed array the test holds exactly when the top context is an object and some
      section around the tag has fewer inverted sections closed behind it than sections open from it on. */
  lemma TestExactly(tags: seq<TagText>, n: nat, top: Context)
    requires ParseTags([], [], tags).Parsed? && n <= |tags|
    ensures n <= |ParseTags([], [], tags).actions|
    ensures var a := ParseTags([], [], tags).actions;
            InsideObjectBlock(KindsBefore(a, n), 0, top) <==> top.Object? && Shows(StackAt(a, n))
  {
    ParseAcceptsExactlyTrees(tags);
    var a := ParseTags([], [], tags).actions;
    BestIsMargin(a, |tags|, n);
    InsideIsBest(KindsBefore(a, n), 0, top);
    MarginShows(StackAt(a, n));
  }

  /** So the test is right exactly when the top context is no object, or no section is open, or such a
      section is there; it never reports a section that is not open. */
  lemma TestRightExactly(tags: seq<TagText>, n: nat, top: Context)
    requires ParseTags([], [], tags).Parsed? && n <= |tags|
    ensures n <= |ParseTags([], [], tags).actions|
    ensures var a := ParseTags([], [], tags).actions;
            ((InsideObjectBlock(KindsBefore(a, n), 0, top) <==> top.Object? && SectionOpen(a, n)) <==>
             !top.Object? || !SectionOpen(a, n) || Shows(StackAt(a, n)))
    ensures var a := ParseTags([], [], tags).actions;
            InsideObjectBlock(KindsBefore(a, n), 0, top) ==> top.Object? && SectionOpen(a, n)
  {
    TestExactly(tags, n, top);
    var a := ParseTags([], [], tags).actions;
    if Shows(StackAt(a, n)) {
      assert SectionOpen(a, n);
    }
  }

  /** By the links: a section is open at n when it starts before n and ends at n or later. */
  lemma SectionOpenByLinks(tags: seq<TagText>, n: nat)
    requires ParseTags([], [], tags).Parsed? && n <= |tags|
    ensures n <= |ParseTags([], [], tags).actions|
    ensures var a := ParseTags([], [], tags).actions;
            SectionOpen(a, n) <==> exists i :: 0 <= i < n && a[i].t == OpenBlock && a[i].pos >= n
  {
    ParseAcceptsExactlyTrees(tags);
    var a := ParseTags([], [], tags).actions;
    var open := Around(a, n);
    forall i: nat
      ensures i in open <==> i < n && Opens(a[i].t) && a[i].pos >= n
    {
      AroundIsByLinks(a, |tags|, n, i);
    }
    if exists i :: 0 <= i < n && a[i].t == OpenBlock && a[i].pos >= n {
      var i :| 0 <= i < n && a[i].t == OpenBlock && a[i].pos >= n;
      assert i in open;
      var j :| 0 <= j < |open| && open[j] == i;
      assert StackAt(a, n)[j].t == OpenBlock;
    }
    if SectionOpen(a, n) {
      var j :| 0 <= j < |StackAt(a, n)| && StackAt(a, n)[j].t == OpenBlock;
      assert open[j] in open && a[open[j]].t == OpenBlock;
    }
  }

  /** The template {{#a}}{{^b}}{{/b}}{{x}}{{/a}}, without its text. */
  function HiddenSection(a: string, b: string, x: string): seq<TagText> {
    [TagText(OpenBlock, a), TagText(ElseBlock, b), TagText(CloseBlock, b), TagText(Tag, x), TagText(CloseBlock, a)]
  }

  lemma HiddenSectionIsTree(a: string, b: string, x: string, text: Fragment)
    ensures var inner := Item(text, Section(true, b, End(text)), Item(text, Variable(true, x), End(text)));
            TagsOf(Item(text, Section(false, a, inner), End(text))) == HiddenSection(a, b, x)
  {
    var variable := Item(text, Variable(true, x), End(text));
    assert TagsOf(variable) == [TagText(Tag, x)];
    var inverted := Section(true, b, End(text));
    assert NodeTags(inverted) == [TagText(ElseBlock, b)] + [] + [TagText(CloseBlock, b)];
    var inner := Item(text, inverted, variable);
    assert TagsOf(inner) == NodeTags(inverted) + TagsOf(variable);
    assert TagsOf(inner) == [TagText(ElseBlock, b), TagText(CloseBlock, b), TagText(Tag, x)];
  }

  /** An inverted section that has been closed hides the section around it from the test: the parser accepts
      the template, the variable is inside the section, and the test says that it is not. */
  lemma InvertedSectionHidesBlock(a: string, b: string, x: string, text: Fragment, top: Context)
    requires top.Object?
    ensures var r := ParseTags([], [], HiddenSection(a, b, x));
            r.Parsed? && |r.actions| == 6 && r.actions[3].t == Tag && SectionOpen(r.actions, 3) &&
            !InsideObjectBlock(KindsBefore(r.actions, 3), 0, top)
  {
    var tags := HiddenSection(a, b, x);
    HiddenSectionIsTree(a, b, x, text);
    ParseAcceptsExactlyTrees(tags);
    var acts := ParseTags([], [], tags).actions;
    assert forall i :: 0 <= i < 5 ==> TagsOfActions(acts[..5])[i] == TagText(acts[i].t, acts[i].name);
    var k1, k2, k3 := [OpenBlock], [OpenBlock, ElseBlock], [OpenBlock, ElseBlock, CloseBlock];
    assert KindsBefore(acts, 3) == k3;
    assert k3[..2] == k2 && k2[..1] == k1 && k1[..0] == [];
    assert !InsideObjectBlock(k1, 1, top);
    assert !InsideObjectBlock(k2, 1, top);
    StartIsLinked(acts, 0, 5, 0);
    HiddenSectionOpen(acts);
    SectionOpenByLinks(tags, 3);
  }

  lemma HiddenSectionOpen(acts: seq<Action>)
    requires |acts| == 6 && WellNested(acts, 0, 5)
    requires acts[0].t == OpenBlock && acts[1].t == ElseBlock && acts[2].t == CloseBlock && acts[3].t == Tag
    ensures acts[0].pos >= 3
  {
    hide WellNested;
    StartIsLinked(acts, 0, 5, 0);
    EndClosesInnermost(acts, 0, 5, 2);
    AroundTwo(acts);
  }

  lemma AroundTwo(acts: seq<Action>)
    requires |acts| >= 2 && Opens(acts[0].t) && Opens(acts[1].t)
    ensures Around(acts, 2) == [0, 1]
  {
    assert Around(acts, 0) == [];
    assert Around(acts, 1) == [0];
  }
}

/** What the tags of a template (crow/mustache.h) stand for, said without the functions that compute it:
    the names of a tag are found in the innermost context that has them, an escaped text holds no markup
    and is the string again once its entities are replaced, and of a section and its inverted section
    exactly one is rendered. */
module TemplateValues {
  import opened Mustache

  // ---------------------------------------------------------------- escaped text

  /** The characters that HTML gives a meaning of its own. */
  predicate Markup(c: char) {
    c in ['<', '>', '"', '\'', '/', '`', '=']
  }

  /** The eight entities of HTML and their characters. */
  const Entities: seq<(string, char)> := [("&amp;", '&'), ("&lt;", '<'), ("&gt;", '>'), ("&quot;", '"'),
    ("&#39;", '\''), ("&#x2F;", '/'), ("&#x60;", '`'), ("&#x3D;", '=')]

  /** The entity that a text starts with, if there is one. */
  function Starting(t: string, from: nat): (k: nat)
    requires from <= |Entities|
    ensures from <= k <= |Entities|
    ensures k < |Entities| ==> Entities[k].0 <= t
    ensures forall i :: from <= i < k ==> !(Entities[i].0 <= t)
    decreases |Entities| - from
  {
    if from == |Entities| || Entities[from].0 <= t then from else Starting(t, from + 1)
  }

  /** A text with its entities replaced by their characters, as a browser shows it. */
  function Shown(t: string): string {
    if t == "" then ""
    else
      var k := Starting(t, 0);
      if k == |Entities| then [t[0]] + Shown(t[1..])
      else
        assert |Entities[k].0| > 0;
        [Entities[k].1] + Shown(t[|Entities[k].0|..])
  }

  /** One escaped character is shown as itself, whatever follows it. */
  lemma ShownChar(c: char, t: string)
    ensures Shown(EscapeChar(c) + t) == [c] + Shown(t)
  {
    hide Shown;
    match c
    case '&' => ShownEntity(0, t);
    case '<' => ShownEntity(1, t);
    case '>' => ShownEntity(2, t);
    case '"' => ShownEntity(3, t);
    case '\'' => ShownEntity(4, t);
    case '/' => ShownEntity(5, t);
    case '`' => ShownEntity(6, t);
    case '=' => ShownEntity(7, t);
    case _ => ShownPlain(c, t);
  }

  lemma ShownPlain(c: char, t: string)
    requires c != '&'
    ensures Shown([c] + t) == [c] + Shown(t)
  {
    assert ([c] + t)[1..] == t;
    assert forall i :: 0 <= i < |Entities| ==> Entities[i].0[0] == '&';
  }

  lemma ShownEntity(k: nat, t: string)
    requires k < |Entities|
    ensures Shown(Entities[k].0 + t) == [Entities[k].1] + Shown(t)
  {
    var e := Entities[k].0;
    assert e <= e + t && (e + t)[|e|..] == t;
    EntitiesDiffer(k, Starting(e + t, 0), t);
  }

  /** No entity starts with another one. */
  lemma EntitiesDiffer(k: nat, j: nat, t: string)
    requires k < |Entities| && j <= k && Entities[j].0 <= Entities[k].0 + t
    ensures j == k
  {
    var e := Entities[k].0 + t;
    assert forall i :: 0 <= i < |Entities[k].0| ==> e[i] == Entities[k].0[i];
    assert forall i :: 0 <= i < |Entities[j].0| ==> e[i] == Entities[j].0[i];
    assert e[1] == Entities[k].0[1] == Entities[j].0[1];
    assert e[2] == Entities[k].0[2] == Entities[j].0[2];
    assert e[3] == Entities[k].0[3] == Entities[j].0[3];
  }

  lemma {:induction false} EscapeShown(s: string, t: string)
    ensures Shown(Escape(s) + t) == s + Shown(t)
    decreases |s|
  {
    hide Shown, EscapeChar;
    if s == "" {
      assert Escape(s) + t == t;
    } else {
      var init, last := s[..|s| - 1], s[|s| - 1];
      assert Escape(s) + t == Escape(init) + (EscapeChar(last) + t);
      EscapeShown(init, EscapeChar(last) + t);
      ShownChar(last, t);
      assert s == init + [last];
    }
  }

  lemma {:induction false} EscapeHoldsNoMarkup(s: string)
    ensures forall c :: c in Escape(s) ==> !Markup(c)
    decreases |s|
  {
    if s != "" {
      EscapeHoldsNoMarkup(s[..|s| - 1]);
      EscapedCharHoldsNoMarkup(s[|s| - 1]);
    }
  }

  lemma EscapedCharHoldsNoMarkup(c: char)
    ensures forall x :: x in EscapeChar(c) ==> !Markup(x)
  {
  }

  // ---------------------------------------------------------------- names

  /** The names of a path, with dots between them. */
  function Joined(names: seq<string>): string
    requires names != []
  {
    if |names| == 1 then names[0] else names[0] + "." + Joined(names[1..])
  }

  /** A name is made of these pieces, which hold no dots. */
  predicate Pieces(names: seq<string>, name: string) {
    names != [] && (forall i :: 0 <= i < |names| ==> '.' !in names[i]) && Joined(names) == name
  }

  /** Going down a path of names: the contexts met on the way. */
  predicate Way(via: seq<Context>, names: seq<string>) {
    |via| == |names| + 1 &&
    forall i :: 0 <= i < |names| ==>
      via[i].Object? && names[i] in via[i].fields && via[i + 1] == via[i].fields[names[i]]
  }

  /** The path of names leads from the context c to the value v. */
  ghost predicate Leads(c: Context, names: seq<string>, v: Context) {
    exists via :: Way(via, names) && via[0] == c && via[|names|] == v
  }

  /** The path leads nowhere from any context of the stack from position k on. */
  ghost predicate Misses(stack: seq<Context>, k: nat, names: seq<string>) {
    forall j, v :: k <= j < |stack| ==> !Leads(stack[j], names, v)
  }

  /** The answer of a lookup: the value in the innermost context that has the path, or the empty text.
      `lowest` is the last context that is asked. */
  ghost predicate Answers(names: seq<string>, stack: seq<Context>, lowest: nat, l: Lookup) {
    if l.found then
      exists k: nat :: lowest <= k < |stack| && Leads(stack[k], names, l.ctx) && Misses(stack, k + 1, names)
    else l.ctx == Text("") && Misses(stack, lowest, names)
  }

  lemma {:induction false} JoinedSnoc(names: seq<string>, x: string)
    requires names != []
    ensures Joined(names + [x]) == Joined(names) + "." + x
    decreases |names|
  {
    if |names| == 1 {
      assert (names + [x])[1..] == [x];
    } else {
      assert (names + [x])[1..] == names[1..] + [x];
      JoinedSnoc(names[1..], x);
    }
  }

  lemma {:induction false} JoinedGrow(names: seq<string>, x: string, c: char)
    ensures Joined(names + [x + [c]]) == Joined(names + [x]) + [c]
  {
    if names != [] {
      JoinedSnoc(names, x);
      JoinedSnoc(names, x + [c]);
      assert Joined(names) + "." + (x + [c]) == Joined(names) + "." + x + [c];
    }
  }

  /** The pieces found by cutting a name at its dots are its pieces. */
  lemma {:induction false} SplitIsPieces(name: string)
    ensures Pieces(SplitDots(name), name)
    decreases |name|
  {
    if name != "" {
      var init, last := name[..|name| - 1], name[|name| - 1];
      var front := SplitDots(init);
      var b, x := front[..|front| - 1], front[|front| - 1];
      SplitIsPieces(init);
      assert name == init + [last];
      if last == '.' {
        JoinedSnoc(front, "");
        assert Joined(front) + "." + "" == name;
      } else {
        assert front == b + [x];
        JoinedGrow(b, x, last);
      }
    }
  }

  /** A name has one list of pieces only: cutting what was joined gives the pieces back. */
  lemma {:induction false} PiecesUnique(names: seq<string>, name: string)
    requires Pieces(names, name)
    ensures names == SplitDots(name)
    decreases |name|
  {
    var b, x := names[..|names| - 1], names[|names| - 1];
    assert names == b + [x];
    if x == "" {
      if b != [] {
        JoinedSnoc(b, x);
        assert name == Joined(b) + ".";
        assert name[..|name| - 1] == Joined(b);
        PiecesUnique(b, Joined(b));
      }
    } else {
      var y, c := x[..|x| - 1], x[|x| - 1];
      assert x == y + [c];
      JoinedGrow(b, y, c);
      assert name[..|name| - 1] == Joined(b + [y]);
      assert forall i :: 0 <= i < |b + [y]| ==> '.' !in (b + [y])[i];
      PiecesUnique(b + [y], Joined(b + [y]));
      assert c in names[|names| - 1];
    }
  }

  // ---------------------------------------------------------------- lookup

  lemma {:induction false} WalkLeads(c: Context, names: seq<string>, v: Context)
    ensures Leads(c, names, v) <==> Walk(c, names) == Lookup(true, v)
    decreases |names|
  {
    if names == [] {
      assert c == v ==> Way([c], names);
    } else if Has(c, names[0]) {
      var d := c.fields[names[0]];
      WalkLeads(d, names[1..], v);
      if Leads(d, names[1..], v) {
        var via :| Way(via, names[1..]) && via[0] == d && via[|names| - 1] == v;
        WayCons(c, via, names);
      }
      if Leads(c, names, v) {
        var via :| Way(via, names) && via[0] == c && via[|names|] == v;
        WayTail(via, names);
      }
    }
  }

  lemma WayCons(c: Context, via: seq<Context>, names: seq<string>)
    requires names != [] && Way(via, names[1..]) && Has(c, names[0]) && via[0] == c.fields[names[0]]
    ensures Way([c] + via, names)
  {
    forall i | 0 < i < |names|
      ensures var w := [c] + via; w[i].Object? && names[i] in w[i].fields && w[i + 1] == w[i].fields[names[i]]
    {
      assert names[1..][i - 1] == names[i];
    }
  }

  lemma WayTail(via: seq<Context>, names: seq<string>)
    requires names != [] && Way(via, names)
    ensures Way(via[1..], names[1..])
  {
  }

  lemma {:induction false} ResolveAnswers(names: seq<string>, stack: seq<Context>, onlyTop: bool)
    requires stack != []
    ensures Answers(names, stack, if onlyTop then |stack| - 1 else 0, Resolve(names, stack, onlyTop))
    decreases |stack|
  {
    var top, rest := |stack| - 1, stack[..|stack| - 1];
    var here := Walk(stack[top], names);
    forall v
      ensures Leads(stack[top], names, v) <==> here == Lookup(true, v)
    {
      WalkLeads(stack[top], names, v);
    }
    if here.found {
      assert Leads(stack[top], names, here.ctx) && Misses(stack, top + 1, names);
    } else if !onlyTop && rest != [] {
      ResolveAnswers(names, rest, false);
      AnswersBelow(names, stack, Resolve(names, rest, false));
    }
  }

  lemma AnswersBelow(names: seq<string>, stack: seq<Context>, l: Lookup)
    requires stack != [] && Answers(names, stack[..|stack| - 1], 0, l) && Misses(stack, |stack| - 1, names)
    ensures Answers(names, stack, 0, l)
  {
    var rest := stack[..|stack| - 1];
    if l.found {
      var k: nat :| 0 <= k < |rest| && Leads(rest[k], names, l.ctx) && Misses(rest, k + 1, names);
      MissesBelow(names, stack, k + 1);
    } else {
      MissesBelow(names, stack, 0);
    }
  }

  lemma MissesBelow(names: seq<string>, stack: seq<Context>, k: nat)
    requires stack != [] && Misses(stack[..|stack| - 1], k, names) && Misses(stack, |stack| - 1, names)
    ensures Misses(stack, k, names)
  {
    forall j, v | k <= j < |stack|
      ensures !Leads(stack[j], names, v)
    {
      if j < |stack| - 1 {
        assert stack[j] == stack[..|stack| - 1][j];
      }
    }
  }

  lemma LeadsOnce(c: Context, names: seq<string>, v: Context, w: Context)
    requires Leads(c, names, v) && Leads(c, names, w)
    ensures v == w
  {
    WalkLeads(c, names, v);
    WalkLeads(c, names, w);
  }

  lemma AnswersOnce(names: seq<string>, stack: seq<Context>, lowest: nat, l: Lookup, m: Lookup)
    requires Answers(names, stack, lowest, l) && Answers(names, stack, lowest, m)
    ensures l == m
  {
    if l.found && m.found {
      var j: nat :| lowest <= j < |stack| && Leads(stack[j], names, l.ctx) && Misses(stack, j + 1, names);
      var k: nat :| lowest <= k < |stack| && Leads(stack[k], names, m.ctx) && Misses(stack, k + 1, names);
      assert j == k;
      LeadsOnce(stack[k], names, l.ctx, m.ctx);
    }
  }

  /** find_context answers the innermost context that has the name, "." aside: this answer and no other. */
  lemma LookupInnermost(name: string, names: seq<string>, stack: seq<Context>, onlyTop: bool, l: Lookup)
    requires stack != [] && Pieces(names, name) && name != "."
    ensures FindContext(name, stack, onlyTop) == l <==>
            Answers(names, stack, if onlyTop && '.' in name then |stack| - 1 else 0, l)
  {
    PiecesUnique(names, name);
    ResolveAnswers(names, stack, onlyTop && '.' in name);
    var lowest := if onlyTop && '.' in name then |stack| - 1 else 0;
    if Answers(names, stack, lowest, l) {
      AnswersOnce(names, stack, lowest, l, FindContext(name, stack, onlyTop));
    }
  }

  /** The value a name stands for: the top of the stack for ".", and otherwise the innermost one. */
  ghost predicate StandsFor(name: string, stack: seq<Context>, onlyTop: bool, l: Lookup)
    requires stack != []
  {
    if name == "." then l == Lookup(true, stack[|stack| - 1])
    else exists names :: Pieces(names, name) &&
                         Answers(names, stack, if onlyTop && '.' in name then |stack| - 1 else 0, l)
  }

  /** Every name stands for exactly one answer, and this is what the lookup gives. */
  lemma LookupExactly(name: string, stack: seq<Context>, onlyTop: bool, l: Lookup)
    requires stack != []
    ensures StandsFor(name, stack, onlyTop, l) <==> FindContext(name, stack, onlyTop) == l
  {
    if name != "." {
      SplitIsPieces(name);
      LookupInnermost(name, SplitDots(name), stack, onlyTop, l);
      forall names | Pieces(names, name)
        ensures names == SplitDots(name)
      {
        PiecesUnique(names, name);
      }
    }
  }

  // ---------------------------------------------------------------- variables

  /** The text t shows the value v: numbers and booleans as JSON writes them, a string as it is or, when
      escaped, without markup and shown as the string. */
  ghost predicate Shows(escaped: bool, v: Context, t: string) {
    match v
    case True => t == "true"
    case False => t == "false"
    case Number(text) => t == text
    case Text(s) => if escaped then Shown(t) == s && forall c :: c in t ==> !Markup(c) else t == s
    case _ => false
  }

  /** A variable tag shows the value that its name stands for, and throws exactly when that is null, a
      list or an object; a name that stands for nothing leaves no text. */
  lemma VariableShows(body: string, indent: nat, escaped: bool, name: string, before: seq<ActionType>,
      stack: seq<Context>, l: Lookup)
    requires stack != []
    requires StandsFor(name, stack, InsideObjectBlock(before, 0, stack[|stack| - 1]), l)
    ensures var r := EvalNode(body, indent, Variable(escaped, name), before, stack);
            && (r.Thrown? <==> l.ctx.Null? || l.ctx.List? || l.ctx.Object?)
            && (r.Done? ==> Shows(escaped, l.ctx, r.text))
            && (!l.found ==> r == Done(""))
  {
    LookupExactly(name, stack, InsideObjectBlock(before, 0, stack[|stack| - 1]), l);
    if l.ctx.Text? {
      EscapeShown(l.ctx.s, "");
      EscapeHoldsNoMarkup(l.ctx.s);
      assert Escape(l.ctx.s) + "" == Escape(l.ctx.s);
      assert l.ctx.s + "" == l.ctx.s;
    }
  }

  // ---------------------------------------------------------------- sections

  /** The values that a section takes for false. */
  predicate Falsy(l: Lookup) {
    !l.found || l.ctx.False? || l.ctx.Null? || l.ctx == List([])
  }

  /** The outcomes of several passes one after the other, each indented. */
  function Glued(indent: nat, passes: seq<Outcome>): Outcome {
    if exists i :: 0 <= i < |passes| && passes[i].Thrown? then Thrown
    else Done(GluedText(indent, passes))
  }

  function GluedText(indent: nat, passes: seq<Outcome>): string
    requires forall i :: 0 <= i < |passes| ==> passes[i].Done?
  {
    if passes == [] then ""
    else GluedText(indent, passes[..|passes| - 1]) + Spaces(indent) + passes[|passes| - 1].text
  }

  lemma {:induction false} GluedCons(indent: nat, p: Outcome, passes: seq<Outcome>)
    ensures Glued(indent, [p] + passes) == Then(Then(Done(Spaces(indent)), p), Glued(indent, passes))
    decreases |passes|
  {
    var all := [p] + passes;
    if p.Thrown? {
      assert all[0].Thrown?;
    } else if i :| 0 <= i < |passes| && passes[i].Thrown? {
      assert all[i + 1].Thrown?;
    } else if passes == [] {
      assert all[..0] == [];
      assert GluedText(indent, all) == "" + Spaces(indent) + p.text;
    } else {
      var n := |passes| - 1;
      GluedCons(indent, p, passes[..n]);
      assert all[..|all| - 1] == [p] + passes[..n];
      assert GluedText(indent, all) ==
             Spaces(indent) + p.text + GluedText(indent, passes[..n]) + Spaces(indent) + passes[n].text;
      assert GluedText(indent, passes) == GluedText(indent, passes[..n]) + Spaces(indent) + passes[n].text;
    }
  }

  /** The content of a list section for each item. */
  function EachPass(body: string, indent: nat, b: Body, before: seq<ActionType>, stack: seq<Context>,
                    items: seq<Context>): seq<Outcome>
    requires stack != [] && TextInBody(b, body)
  {
    seq(|items|, i requires 0 <= i < |items| => Eval(body, indent, b, before, stack + [items[i]]))
  }

  lemma {:induction false} EachGlued(body: string, indent: nat, b: Body, before: seq<ActionType>,
      stack: seq<Context>, items: seq<Context>)
    requires stack != [] && TextInBody(b, body)
    ensures EvalEach(body, indent, b, before, stack, items) ==
            Glued(indent, EachPass(body, indent, b, before, stack, items))
    decreases |items|
  {
    hide Eval, Glued;
    if items == [] {
      GluedNothing(indent);
    } else {
      var rest := EachPass(body, indent, b, before, stack, items[1..]);
      EachGlued(body, indent, b, before, stack, items[1..]);
      assert EachPass(body, indent, b, before, stack, items) ==
             [Eval(body, indent, b, before, stack + [items[0]])] + rest;
      GluedCons(indent, Eval(body, indent, b, before, stack + [items[0]]), rest);
    }
  }

  lemma GluedNothing(indent: nat)
    ensures Glued(indent, []) == Done("")
  {
  }

  /** Of a section and the inverted section of the same name exactly one is rendered: the inverted one
      for a name that stands for nothing, false, null or the empty list, the other one for the rest;
      once for each item of a list, in order, and once with the value for any other. */
  lemma SectionRendered(body: string, indent: nat, name: string, content: Body, before: seq<ActionType>,
      stack: seq<Context>, l: Lookup)
    requires stack != [] && TextInBody(content, body) && StandsFor(name, stack, false, l)
    ensures EvalNode(body, indent, Section(true, name, content), before, stack) ==
            if Falsy(l) then Eval(body, indent, content, before + [ElseBlock], stack + [Null]) else Done("")
    ensures EvalNode(body, indent, Section(false, name, content), before, stack) ==
            if Falsy(l) then Done("")
            else if l.ctx.List? then
              Glued(indent, EachPass(body, indent, content, before + [OpenBlock], stack, l.ctx.items))
            else Eval(body, indent, content, before + [OpenBlock], stack + [l.ctx])
  {
    LookupExactly(name, stack, false, l);
    if l.ctx.List? {
      EachGlued(body, indent, content, before + [OpenBlock], stack, l.ctx.items);
      if l.ctx.items == [] {
        GluedNothing(indent);
      }
    }
  }

  // ---------------------------------------------------------------- fragments

  lemma {:induction false} FragmentCopied(body: string, f: Fragment, indent: nat)
    requires InBody(f, body) && (indent == 0 || '\n' !in body[f.first..f.second])
    ensures FragmentText(body, f, indent) == body[f.first..f.second]
    decreases f.second - f.first
  {
    if f.first < f.second {
      assert body[f.first..f.second] == body[f.first..f.second - 1] + [body[f.second - 1]];
      FragmentCopied(body, Fragment(f.first, f.second - 1), indent);
    }
  }

  lemma NewlineText(body: string, i: nat, indent: nat)
    requires i < |body| && body[i] == '\n'
    ensures FragmentText(body, Fragment(i, i + 1), indent) == "\n" + if i + 1 == |body| then "" else Spaces(indent)
  {
    assert FragmentText(body, Fragment(i, i), indent) == "";
    assert "" + ['\n'] == "\n";
    if indent == 0 {
      assert Spaces(indent) == "";
    }
  }

  lemma {:induction false} FragmentSplit(body: string, first: nat, mid: nat, second: nat, indent: nat)
    requires first <= mid <= second <= |body|
    ensures FragmentText(body, Fragment(first, second), indent) ==
            FragmentText(body, Fragment(first, mid), indent) + FragmentText(body, Fragment(mid, second), indent)
    decreases second - first
  {
    if mid < second {
      FragmentSplit(body, first, mid, second - 1, indent);
    }
  }

  /** A fragment is the text of its range with the indentation behind each of its newlines: a part
      without newlines is copied, a newline is followed by spaces unless it ends the template, and two
      parts beside each other are the whole. */
  lemma FragmentShows(body: string, f: Fragment, mid: nat, indent: nat)
    requires InBody(f, body) && f.first <= mid <= f.second
    ensures indent == 0 || '\n' !in body[f.first..f.second] ==>
              FragmentText(body, f, indent) == body[f.first..f.second]
    ensures body[f.first..f.second] == "\n" ==>
              FragmentText(body, f, indent) == "\n" + if f.second == |body| then "" else Spaces(indent)
    ensures FragmentText(body, f, indent) ==
            FragmentText(body, Fragment(f.first, mid), indent) + FragmentText(body, Fragment(mid, f.second), indent)
  {
    hide FragmentText;
    if indent == 0 || '\n' !in body[f.first..f.second] {
      FragmentCopied(body, f, indent);
    }
    if body[f.first..f.second] == "\n" {
      assert f.second == f.first + 1 && body[f.first] == body[f.first..f.second][0] == '\n';
      NewlineText(body, f.first, indent);
    }
    FragmentSplit(body, f.first, mid, f.second, indent);
  }

  // ---------------------------------------------------------------- whole templates

  /** The tree of a template with one node. */
  function OneNode(first: Fragment, node: Node, last: Fragment): Body {
    Item(first, node, End(last))
  }

  lemma OneNodeMeaning(body: string, first: Fragment, node: Node, last: Fragment, stack: seq<Context>)
    requires stack != [] && InBody(first, body) && InBody(last, body)
    requires node.Section? ==> TextInBody(node.content, body)
    ensures Eval(body, 0, OneNode(first, node, last), [], stack) ==
            Then(Done(body[first.first..first.second]),
                 Then(EvalNode(body, 0, node, [], stack), Done(body[last.first..last.second])))
  {
    FragmentCopied(body, first, 0);
    FragmentCopied(body, last, 0);
  }

  /** A template with one variable between two texts, compiled and rendered: a tag in two braces is
      escaped, one in three is not. */
  method RenderTag(body: string, start: nat, stop: nat, escaped: bool, name: string, ctx: Context)
    returns (r: Outcome)
    requires start <= stop <= |body|
    ensures forall l | StandsFor(name, [ctx], false, l) :: r.Thrown? <==> l.ctx.Null? || l.ctx.List? || l.ctx.Object?
    ensures forall l | StandsFor(name, [ctx], false, l) && r.Done? ::
              exists t: string :: Shows(escaped, l.ctx, t) && r.text == body[..start] + t + body[stop..]
  {
    hide Eval, EvalNode, StandsFor;
    var first, last := Fragment(0, start), Fragment(stop, |body|);
    var parsed;
    var pieces, tags := [first, last], [TagText(if escaped then Tag else UnescapeTag, name)];
    parsed, r := CompileAndRender(body, pieces, tags, ctx);
    ghost var node := Variable(escaped, name);
    ghost var tree := OneNode(first, node, last);
    assert TagsOf(tree) == tags && FragmentsOf(tree) == pieces;
    assert TextInBody(tree.rest, body) && TextInBody(tree, body);
    assert r == Eval(body, 0, tree, [], [ctx]);
    OneNodeMeaning(body, first, node, last, [ctx]);
    ghost var shown := EvalNode(body, 0, node, [], [ctx]);
    forall l | StandsFor(name, [ctx], false, l)
      ensures r.Thrown? <==> l.ctx.Null? || l.ctx.List? || l.ctx.Object?
      ensures r.Done? ==>
                exists t: string :: Shows(escaped, l.ctx, t) && r.text == body[..start] + t + body[stop..]
    {
      VariableShows(body, 0, escaped, name, [], [ctx], l);
      if r.Done? {
        assert r.text == body[..start] + shown.text + body[stop..];
      }
    }
  }

  function Repeated(t: string, n: nat): string {
    if n == 0 then "" else Repeated(t, n - 1) + t
  }

  lemma {:induction false} GluedRepeated(t: string, passes: seq<Outcome>)
    requires forall i :: 0 <= i < |passes| ==> passes[i] == Done(t)
    ensures Glued(0, passes) == Done(Repeated(t, |passes|))
    decreases |passes|
  {
    if passes != [] {
      GluedRepeated(t, passes[..|passes| - 1]);
      assert Glued(0, passes[..|passes| - 1]) == Done(GluedText(0, passes[..|passes| - 1]));
      assert GluedText(0, passes[..|passes| - 1]) + Spaces(0) + t == Repeated(t, |passes| - 1) + t;
    }
  }

  /** How often a section is rendered for the value of its name. */
  function Times(inverted: bool, l: Lookup): nat {
    if inverted then if Falsy(l) then 1 else 0
    else if Falsy(l) then 0
    else if l.ctx.List? then |l.ctx.items|
    else 1
  }

  lemma BlockRepeated(body: string, inverted: bool, name: string, inner: Fragment, stack: seq<Context>, l: Lookup)
    requires stack != [] && InBody(inner, body) && StandsFor(name, stack, false, l)
    ensures EvalNode(body, 0, Section(inverted, name, End(inner)), [], stack) ==
            Done(Repeated(body[inner.first..inner.second], Times(inverted, l)))
  {
    var t := body[inner.first..inner.second];
    assert Eval(body, 0, End(inner), [], stack) == Done(t) by {
      FragmentCopied(body, inner, 0);
    }
    SectionRendered(body, 0, name, End(inner), [], stack, l);
    assert Repeated(t, 1) == Repeated(t, 0) + t == t;
    if !inverted && l.ctx.List? && !Falsy(l) {
      GluedRepeated(t, EachPass(body, 0, End(inner), [] + [OpenBlock], stack, l.ctx.items));
    }
  }

  lemma SectionTags(inverted: bool, name: string, first: Fragment, inner: Fragment, last: Fragment)
    ensures var tree := OneNode(first, Section(inverted, name, End(inner)), last);
            && TagsOf(tree) == [TagText(if inverted then ElseBlock else OpenBlock, name), TagText(CloseBlock, name)]
            && FragmentsOf(tree) == [first, inner, last]
  {
    var open := TagText(if inverted then ElseBlock else OpenBlock, name);
    assert NodeTags(Section(inverted, name, End(inner))) == [open, TagText(CloseBlock, name)];
    assert NodeFragments(Section(inverted, name, End(inner))) == [inner];
  }

  /** A template with one section, or inverted section, around plain text, compiled and rendered: the
      text appears as often as the value of the name asks for. */
  method RenderBlock(body: string, inner: Fragment, start: nat, stop: nat, inverted: bool, name: string, ctx: Context)
    returns (r: Outcome)
    requires start <= |body| && stop <= |body| && InBody(inner, body)
    ensures forall l | StandsFor(name, [ctx], false, l) ::
              r == Done(body[..start] + Repeated(body[inner.first..inner.second], Times(inverted, l)) + body[stop..])
  {
    hide Eval, EvalNode, StandsFor;
    var first, last := Fragment(0, start), Fragment(stop, |body|);
    var tags := [TagText(if inverted then ElseBlock else OpenBlock, name), TagText(CloseBlock, name)];
    var parsed;
    var pieces := [first, inner, last];
    parsed, r := CompileAndRender(body, pieces, tags, ctx);
    ghost var node := Section(inverted, name, End(inner));
    ghost var tree := OneNode(first, node, last);
    SectionTags(inverted, name, first, inner, last);
    assert TagsOf(tree) == tags && FragmentsOf(tree) == pieces;
    assert TextInBody(tree.rest, body) && TextInBody(End(inner), body) && TextInBody(tree, body);
    assert r == Eval(body, 0, tree, [], [ctx]);
    OneNodeMeaning(body, first, node, last, [ctx]);
    forall l | StandsFor(name, [ctx], false, l)
      ensures r == Done(body[..start] + Repeated(body[inner.first..inner.second], Times(inverted, l)) + body[stop..])
    {
      BlockRepeated(body, inverted, name, inner, [ctx], l);
      var t := Repeated(body[inner.first..inner.second], Times(inverted, l));
      assert body[..start] + (t + body[stop..]) == body[..start] + t + body[stop..];
    }
  }
}

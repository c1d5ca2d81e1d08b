/** The template engine of crow/mustache.h.

    `parse` turns the tags of a template into a flat array of actions whose block tags are linked by
    array positions; `render_internal` runs that array with jumps and an explicit stack of contexts.
    The array is proved to be a faithful encoding of a block tree, and the machine is proved to
    compute the recursive meaning of that tree. */
module Mustache {

  // ---------------------------------------------------------------- contexts

  /** The values a template is rendered against (json::wvalue without functions). A number is kept
      as the text its dump() gives. */
  datatype Context =
    | Null
    | False
    | True
    | Number(text: string)
    | Text(s: string)
    | List(items: seq<Context>)
    | Object(fields: map<string, Context>)

  /** A rendered text, or the exception that ended the rendering. */
  datatype Outcome = Done(text: string) | Thrown

  /** Sequential composition: an exception anywhere loses the whole text. */
  function Then(a: Outcome, b: Outcome): Outcome {
    if a.Done? && b.Done? then Done(a.text + b.text) else Thrown
  }

  lemma ThenAssociative(a: Outcome, b: Outcome, c: Outcome)
    ensures Then(Then(a, b), c) == Then(a, Then(b, c))
  {
    if a.Done? && b.Done? && c.Done? {
      assert (a.text + b.text) + c.text == a.text + (b.text + c.text);
    }
  }

  lemma ThenUnit(a: Outcome)
    ensures Then(Done(""), a) == a == Then(a, Done(""))
  {
    if a.Done? {
      assert "" + a.text == a.text == a.text + "";
    }
  }

  // ---------------------------------------------------------------- name lookup

  datatype Lookup = Lookup(found: bool, ctx: Context)

  const NotFound := Lookup(false, Text(""))

  function Has(c: Context, name: string): bool {
    c.Object? && name in c.fields
  }

  /** The pieces between the dots of a name. */
  function SplitDots(name: string): (pieces: seq<string>)
    ensures |pieces| >= 1
    ensures '.' !in name ==> pieces == [name]
  {
    if name == "" then [""]
    else
      var init, last := name[..|name| - 1], name[|name| - 1];
      var front := SplitDots(init);
      assert name == init + [last];
      if last == '.' then front + [""] else front[..|front| - 1] + [front[|front| - 1] + [last]]
  }

  /** Follow a path of names from one context downwards. */
  function Walk(c: Context, names: seq<string>): Lookup {
    if names == [] then Lookup(true, c)
    else if Has(c, names[0]) then Walk(c.fields[names[0]], names[1..])
    else NotFound
  }

  /** The innermost context on the stack that resolves the path; with `onlyTop` a miss on the top
      context ends the search. */
  function Resolve(names: seq<string>, stack: seq<Context>, onlyTop: bool): Lookup {
    if stack == [] then NotFound
    else
      var here := Walk(stack[|stack| - 1], names);
      if here.found then here
      else if onlyTop then NotFound
      else Resolve(names, stack[..|stack| - 1], false)
  }

  /** find_context: "." is the top of the stack; `onlyTop` matters for dotted names only. */
  function FindContext(name: string, stack: seq<Context>, onlyTop: bool): Lookup
    requires stack != []
  {
    if name == "." then Lookup(true, stack[|stack| - 1])
    else Resolve(SplitDots(name), stack, onlyTop && '.' in name)
  }

  // ---------------------------------------------------------------- text

  function EscapeChar(c: char): string {
    match c
    case '&' => "&amp;"
    case '<' => "&lt;"
    case '>' => "&gt;"
    case '"' => "&quot;"
    case '\'' => "&#39;"
    case '/' => "&#x2F;"
    case '`' => "&#x60;"
    case '=' => "&#x3D;"
    case _ => [c]
  }

  function Escape(s: string): string {
    if s == "" then "" else Escape(s[..|s| - 1]) + EscapeChar(s[|s| - 1])
  }

  lemma EscapeSnoc(s: string, i: nat)
    requires i < |s|
    ensures forall t: string :: t + Escape(s[..i + 1]) == t + Escape(s[..i]) + EscapeChar(s[i])
  {
    var e := EscapeChar(s[i]);
    assert s[..i + 1][..i] == s[..i];
    assert Escape(s[..i + 1]) == Escape(s[..i]) + e;
    assert forall t: string :: t + (Escape(s[..i]) + e) == t + Escape(s[..i]) + e;
  }

  function Spaces(n: nat): string {
    seq(n, _ => ' ')
  }

  /** A fragment is a range of the template text. */
  datatype Fragment = Fragment(first: nat, second: nat)

  predicate InBody(f: Fragment, body: string) {
    f.first <= f.second <= |body|
  }

  /** render_fragment: copies the range and, when indenting, follows every newline that is not the
      last character of the template by the indentation. */
  function FragmentText(body: string, f: Fragment, indent: nat): string
    requires InBody(f, body)
    decreases f.second - f.first
  {
    if f.first == f.second then ""
    else
      FragmentText(body, Fragment(f.first, f.second - 1), indent) + [body[f.second - 1]] +
      if indent != 0 && body[f.second - 1] == '\n' && f.second != |body| then Spaces(indent) else ""
  }

  // ---------------------------------------------------------------- the block tree and its meaning

  datatype ActionType = Ignore | Tag | UnescapeTag | OpenBlock | CloseBlock | ElseBlock

  /** A template as a tree: fragments with items between them. */
  datatype Body =
    | End(text: Fragment)
    | Item(text: Fragment, item: Node, rest: Body)

  datatype Node =
    | Comment(name: string)
    | Variable(escaped: bool, name: string)
    | Section(inverted: bool, name: string, content: Body)

  /** One tag of the template text, in the order of the text. */
  datatype TagText = TagText(t: ActionType, name: string)

  /** The tags of a tree, in the order of the text. */
  function TagsOf(b: Body): seq<TagText> {
    match b
    case End(_) => []
    case Item(_, node, rest) => NodeTags(node) + TagsOf(rest)
  }

  function NodeTags(n: Node): seq<TagText> {
    match n
    case Comment(name) => [TagText(Ignore, name)]
    case Variable(escaped, name) => [TagText(if escaped then Tag else UnescapeTag, name)]
    case Section(inverted, name, content) =>
      [TagText(if inverted then ElseBlock else OpenBlock, name)] + TagsOf(content) + [TagText(CloseBlock, name)]
  }

  /** The fragments of a tree, in the order of the text. */
  function FragmentsOf(b: Body): (fs: seq<Fragment>)
    ensures |fs| == |TagsOf(b)| + 1
  {
    match b
    case End(text) => [text]
    case Item(text, node, rest) => [text] + NodeFragments(node) + FragmentsOf(rest)
  }

  function NodeFragments(n: Node): (fs: seq<Fragment>)
    ensures |fs| == |NodeTags(n)| - 1
  {
    if n.Section? then FragmentsOf(n.content) else []
  }

  function Kinds(tags: seq<TagText>): (ks: seq<ActionType>)
    ensures |ks| == |tags|
  {
    seq(|tags|, i requires 0 <= i < |tags| => tags[i].t)
  }

  /** isTagInsideObjectBlock: scanning the tags before the current one backwards, is an open section
      met before any close is left over, while the top context is an object? Inverted sections are
      counted when they close and not when they open. */
  function InsideObjectBlock(before: seq<ActionType>, surplus: int, top: Context): bool
  {
    if before == [] then false
    else
      var init, last := before[..|before| - 1], before[|before| - 1];
      if last == OpenBlock then
        (surplus == 0 && top.Object?) || InsideObjectBlock(init, surplus - 1, top)
      else if last == CloseBlock then InsideObjectBlock(init, surplus + 1, top)
      else InsideObjectBlock(init, surplus, top)
  }

  /** The text of a variable tag. */
  function VariableText(escaped: bool, name: string, before: seq<ActionType>, stack: seq<Context>): Outcome
    requires stack != []
  {
    var ctx := FindContext(name, stack, InsideObjectBlock(before, 0, stack[|stack| - 1])).ctx;
    match ctx
    case False => Done("false")
    case True => Done("true")
    case Number(text) => Done(text)
    case Text(s) => Done(if escaped then Escape(s) else s)
    case _ => Thrown
  }

  /** The contexts a section is rendered with, outermost pass first: none when it is skipped. */
  datatype Passes = Skip | Once(ctx: Context) | Each(items: seq<Context>)

  function SectionPasses(inverted: bool, name: string, stack: seq<Context>): Passes
    requires stack != []
  {
    var l := FindContext(name, stack, false);
    if inverted then
      if !l.found || l.ctx.False? || l.ctx.Null? || l.ctx == List([]) then Once(Null) else Skip
    else if !l.found || l.ctx.False? || l.ctx.Null? then Skip
    else if l.ctx.List? then Each(l.ctx.items)
    else Once(l.ctx)
  }

  /** The recursive meaning of a tree. `before` holds the kinds of the tags textually before it. */
  function Eval(body: string, indent: nat, b: Body, before: seq<ActionType>, stack: seq<Context>): Outcome
    requires stack != [] && TextInBody(b, body)
    decreases b, 0
  {
    match b
    case End(text) => Done(FragmentText(body, text, indent))
    case Item(text, node, rest) =>
      Then(Done(FragmentText(body, text, indent)),
           Then(EvalNode(body, indent, node, before, stack),
                Eval(body, indent, rest, before + Kinds(NodeTags(node)), stack)))
  }

  function EvalNode(body: string, indent: nat, n: Node, before: seq<ActionType>, stack: seq<Context>): Outcome
    requires stack != [] && (n.Section? ==> TextInBody(n.content, body))
    decreases n, 0
  {
    match n
    case Comment(_) => Done("")
    case Variable(escaped, name) => VariableText(escaped, name, before, stack)
    case Section(inverted, name, content) =>
      var inside := before + [if inverted then ElseBlock else OpenBlock];
      match SectionPasses(inverted, name, stack)
      case Skip => Done("")
      case Once(ctx) => Eval(body, indent, content, inside, stack + [ctx])
      case Each(items) => EvalEach(body, indent, content, inside, stack, items)
  }

  /** One indented pass per list element. */
  function EvalEach(body: string, indent: nat, b: Body, before: seq<ActionType>, stack: seq<Context>,
                    items: seq<Context>): Outcome
    requires stack != [] && TextInBody(b, body)
    decreases b, |items| + 1
  {
    if items == [] then Done("")
    else Then(Then(Done(Spaces(indent)), Eval(body, indent, b, before, stack + [items[0]])),
              EvalEach(body, indent, b, before, stack, items[1..]))
  }

  predicate TextInBody(b: Body, body: string) {
    InBody(b.text, body) &&
    (b.Item? ==> TextInBody(b.rest, body) && (b.item.Section? ==> TextInBody(b.item.content, body)))
  }

  // ---------------------------------------------------------------- the action array

  datatype Action = Action(t: ActionType, name: string, pos: nat, hasEndMatch: bool)

  predicate Opens(t: ActionType) {
    t == OpenBlock || t == ElseBlock
  }

  predicate MissingEndPair(a: Action) {
    Opens(a.t) && !a.hasEndMatch
  }

  /** A block tag at lo and its closing tag at p, each holding the position of the other. */
  predicate IsBlock(a: seq<Action>, lo: nat, p: nat) {
    && lo < p < |a|
    && Opens(a[lo].t) && a[lo].pos == p && a[lo].hasEndMatch
    && a[p] == Action(CloseBlock, a[lo].name, lo, false)
  }

  predicate IsLeaf(x: Action) {
    !Opens(x.t) && x.t != CloseBlock && x.pos == 0 && !x.hasEndMatch
  }

  /** The links of a[lo..hi] are mutually inverse and properly nested, pairing equal names. */
  predicate WellNested(a: seq<Action>, lo: nat, hi: nat)
    requires lo <= hi <= |a|
    decreases hi - lo
  {
    if lo == hi then true
    else if Opens(a[lo].t) then
      var p := a[lo].pos;
      lo < p < hi && IsBlock(a, lo, p) && WellNested(a, lo + 1, p) && WellNested(a, p + 1, hi)
    else
      IsLeaf(a[lo]) && WellNested(a, lo + 1, hi)
  }

  /** The block tree that the links of a[lo..hi] describe. */
  function TreeOf(a: seq<Action>, f: seq<Fragment>, lo: nat, hi: nat): Body
    requires lo <= hi <= |a| && hi < |f|
    requires WellNested(a, lo, hi)
    decreases hi - lo
  {
    if lo == hi then End(f[lo])
    else
      var x := a[lo];
      if Opens(x.t) then
        Item(f[lo], Section(x.t == ElseBlock, x.name, TreeOf(a, f, lo + 1, x.pos)), TreeOf(a, f, x.pos + 1, hi))
      else
        Item(f[lo], if x.t == Ignore then Comment(x.name) else Variable(x.t == Tag, x.name), TreeOf(a, f, lo + 1, hi))
  }

  function TagsOfActions(a: seq<Action>): (tags: seq<TagText>)
    ensures |tags| == |a|
  {
    seq(|a|, i requires 0 <= i < |a| => TagText(a[i].t, a[i].name))
  }

  lemma TagsOfActionsConcat(a: seq<Action>, b: seq<Action>)
    ensures TagsOfActions(a + b) == TagsOfActions(a) + TagsOfActions(b)
  {
  }

  lemma TagsOfBlock(a: seq<Action>, lo: nat, p: nat, hi: nat)
    requires lo < p < hi <= |a|
    ensures TagsOfActions(a[lo..hi]) ==
            [TagText(a[lo].t, a[lo].name)] + TagsOfActions(a[lo + 1..p]) + [TagText(a[p].t, a[p].name)] +
            TagsOfActions(a[p + 1..hi])
  {
    assert a[lo..hi] == [a[lo]] + a[lo + 1..p] + [a[p]] + a[p + 1..hi];
  }

  lemma NoActionsNoTags(a: seq<Action>, lo: nat)
    requires lo <= |a|
    ensures TagsOfActions(a[lo..lo]) == []
  {
  }

  lemma FirstActionTag(a: seq<Action>, lo: nat, hi: nat)
    requires lo < hi <= |a|
    ensures TagsOfActions(a[lo..hi]) == [TagText(a[lo].t, a[lo].name)] + TagsOfActions(a[lo + 1..hi])
  {
    assert a[lo..hi] == [a[lo]] + a[lo + 1..hi];
    TagsOfActionsConcat([a[lo]], a[lo + 1..hi]);
  }

  /** The tree has exactly the tags of its part of the array. */
  lemma {:induction false} TreeOfTags(a: seq<Action>, f: seq<Fragment>, lo: nat, hi: nat)
    requires lo <= hi <= |a| && hi < |f|
    requires WellNested(a, lo, hi)
    ensures TagsOf(TreeOf(a, f, lo, hi)) == TagsOfActions(a[lo..hi])
    decreases hi - lo
  {
    hide TagsOfActions;
    if lo == hi {
      NoActionsNoTags(a, lo);
    } else if Opens(a[lo].t) {
      var p := a[lo].pos;
      TreeOfTags(a, f, lo + 1, p);
      TreeOfTags(a, f, p + 1, hi);
      TreeOfBlock(a, f, lo, p, hi);
      TagsOfBlock(a, lo, p, hi);
    } else {
      TreeOfTags(a, f, lo + 1, hi);
      FirstActionTag(a, lo, hi);
    }
  }

  /** The tree has exactly the fragments of its part of the array. */
  lemma {:induction false} TreeOfFragments(a: seq<Action>, f: seq<Fragment>, lo: nat, hi: nat)
    requires lo <= hi <= |a| && hi < |f|
    requires WellNested(a, lo, hi)
    ensures FragmentsOf(TreeOf(a, f, lo, hi)) == f[lo..hi + 1]
    decreases hi - lo
  {
    if lo == hi {
    } else if Opens(a[lo].t) {
      var p := a[lo].pos;
      TreeOfFragments(a, f, lo + 1, p);
      TreeOfFragments(a, f, p + 1, hi);
      SliceAt(f, lo, p, hi);
    } else {
      TreeOfFragments(a, f, lo + 1, hi);
      SliceAt(f, lo, lo, hi);
    }
  }

  lemma SliceAt(f: seq<Fragment>, lo: nat, p: nat, hi: nat)
    requires lo <= p < hi < |f|
    ensures [f[lo]] + f[lo + 1..p + 1] + f[p + 1..hi + 1] == f[lo..hi + 1]
  {
  }

  // ---------------------------------------------------------------- parsing

  datatype ParseError = UnexpectedClosingTag | NotMatchedPair | NoMatchingEndTag

  datatype ParseResult = Parsed(actions: seq<Action>) | Invalid(error: ParseError)

  /** Every open position is an action of the array. */
  predicate Positions(a: seq<Action>, open: seq<nat>) {
    forall k :: 0 <= k < |open| ==> open[k] < |a|
  }

  /** The array after a closing tag has been linked to the open block at m. */
  function Linked(a: seq<Action>, m: nat): seq<Action>
    requires m < |a|
  {
    a[m := a[m].(pos := |a|, hasEndMatch := true)] + [Action(CloseBlock, a[m].name, m, false)]
  }

  datatype StepResult = Next(a: seq<Action>, open: seq<nat>) | Stop(error: ParseError)

  /** One tag: a block tag is pushed, a closing tag must repeat the name of the last pushed one and
      links the two by their positions. */
  function Step(a: seq<Action>, open: seq<nat>, t: TagText): (r: StepResult)
    requires Positions(a, open)
    ensures r.Next? ==> Positions(r.a, r.open)
  {
    if Opens(t.t) then Next(a + [Action(t.t, t.name, 0, false)], open + [|a|])
    else if t.t != CloseBlock then Next(a + [Action(t.t, t.name, 0, false)], open)
    else if open == [] then Stop(UnexpectedClosingTag)
    else if a[open[|open| - 1]].name != t.name then Stop(NotMatchedPair)
    else Next(Linked(a, open[|open| - 1]), open[..|open| - 1])
  }

  /** The tag loop on the remaining tags, then the search for a block without an end. */
  function ParseTags(a: seq<Action>, open: seq<nat>, tags: seq<TagText>): ParseResult
    requires Positions(a, open)
    decreases |tags|
  {
    if tags == [] then Finish(a)
    else
      match Step(a, open, tags[0])
      case Stop(e) => Invalid(e)
      case Next(b, rest) => ParseTags(b, rest, tags[1..])
  }

  function Finish(a: seq<Action>): ParseResult {
    var all := a + [Action(Ignore, "", 0, false)];
    if exists i :: 0 <= i < |all| && MissingEndPair(all[i]) then Invalid(NoMatchingEndTag) else Parsed(all)
  }

  class Template {
    const body: string
    var fragments: seq<Fragment>
    var actions: seq<Action>

    constructor (body: string)
      ensures this.body == body && fragments == [] && actions == []
    {
      this.body := body;
      fragments, actions := [], [];
    }

    /** The tag loop of parse on the tags and fragments it meets, then the search for a missing end. */
    method Parse(pieces: seq<Fragment>, tags: seq<TagText>) returns (result: ParseResult)
      requires |pieces| == |tags| + 1
      requires fragments == [] && actions == []
      modifies this
      ensures result == ParseTags([], [], tags)
      ensures result.Parsed? ==> actions == result.actions && fragments == pieces
    {
      var blockPositions: seq<nat> := [];
      for i := 0 to |tags|
        invariant fragments == pieces[..i] && Positions(actions, blockPositions)
        invariant ParseTags(actions, blockPositions, tags[i..]) == ParseTags([], [], tags)
      {
        fragments := fragments + [pieces[i]];
        var tag := tags[i];
        assert tags[i..][1..] == tags[i + 1..];
        match tag.t
        case OpenBlock | ElseBlock =>
          blockPositions := blockPositions + [|actions|];
          actions := actions + [Action(tag.t, tag.name, 0, false)];
        case CloseBlock =>
          if blockPositions == [] {
            return Invalid(UnexpectedClosingTag);
          }
          var m := blockPositions[|blockPositions| - 1];
          if actions[m].name != tag.name {
            return Invalid(NotMatchedPair);
          }
          actions := actions[m := actions[m].(pos := |actions|, hasEndMatch := true)];
          actions := actions + [Action(CloseBlock, tag.name, m, false)];
          blockPositions := blockPositions[..|blockPositions| - 1];
        case Ignore | Tag | UnescapeTag =>
          actions := actions + [Action(tag.t, tag.name, 0, false)];
      }
      fragments := fragments + [pieces[|tags|]];
      actions := actions + [Action(Ignore, "", 0, false)];
      for i := 0 to |actions|
        invariant forall k :: 0 <= k < i ==> !MissingEndPair(actions[k])
      {
        if MissingEndPair(actions[i]) {
          return Invalid(NoMatchingEndTag);
        }
      }
      result := Parsed(actions);
    }
  }

  // ---------------------------------------------------------------- parsing accepts exactly the trees

  /** The arrays agree on the positions lo..hi. */
  predicate Same<T(==)>(a: seq<T>, b: seq<T>, lo: nat, hi: nat) {
    lo <= hi <= |a| && hi <= |b| && forall i :: lo <= i < hi ==> a[i] == b[i]
  }

  /** A block with its content, followed by well nested tags, is well nested. */
  lemma WellNestedBlock(a: seq<Action>, lo: nat, p: nat, hi: nat)
    requires lo < p < hi <= |a| && IsBlock(a, lo, p)
    requires WellNested(a, lo + 1, p) && WellNested(a, p + 1, hi)
    ensures WellNested(a, lo, hi)
  {
  }

  /** Nesting depends on the part of the array it speaks of only. */
  lemma {:induction false} WellNestedFrame(a: seq<Action>, b: seq<Action>, lo: nat, hi: nat)
    requires Same(a, b, lo, hi)
    requires WellNested(a, lo, hi)
    ensures WellNested(b, lo, hi)
    decreases hi - lo
  {
    if lo == hi {
    } else if Opens(a[lo].t) {
      var p := a[lo].pos;
      WellNestedFrame(a, b, lo + 1, p);
      WellNestedFrame(a, b, p + 1, hi);
      WellNestedBlock(b, lo, p, hi);
    } else {
      WellNestedFrame(a, b, lo + 1, hi);
    }
  }

  lemma {:induction false} WellNestedConcat(a: seq<Action>, lo: nat, mid: nat, hi: nat)
    requires lo <= mid <= hi <= |a|
    requires WellNested(a, lo, mid) && WellNested(a, mid, hi)
    ensures WellNested(a, lo, hi)
    decreases mid - lo
  {
    if lo < mid {
      WellNestedConcat(a, (if Opens(a[lo].t) then a[lo].pos else lo) + 1, mid, hi);
    }
  }

  lemma {:induction false} WellNestedNothingMissing(a: seq<Action>, lo: nat, hi: nat)
    requires lo <= hi <= |a| && WellNested(a, lo, hi)
    ensures forall i :: lo <= i < hi ==> !MissingEndPair(a[i])
    decreases hi - lo
  {
    if lo < hi {
      var p := if Opens(a[lo].t) then a[lo].pos else lo;
      if lo < p {
        WellNestedNothingMissing(a, lo + 1, p);
      }
      WellNestedNothingMissing(a, p + 1, hi);
    }
  }

  /** Behind the open blocks listed in `open`, everything before `hi` is already well nested. */
  predicate Pending(a: seq<Action>, open: seq<nat>, hi: nat)
    requires hi <= |a|
    decreases |open|
  {
    if open == [] then WellNested(a, 0, hi)
    else
      var m := open[|open| - 1];
      m < hi && MissingEndPair(a[m]) && WellNested(a, m + 1, hi) && Pending(a, open[..|open| - 1], m)
  }

  lemma {:induction false} PendingFrame(a: seq<Action>, b: seq<Action>, open: seq<nat>, hi: nat)
    requires Same(a, b, 0, hi) && Pending(a, open, hi)
    ensures Pending(b, open, hi)
    decreases |open|
  {
    WellNestedFrame(a, b, if open == [] then 0 else open[|open| - 1] + 1, hi);
    if open != [] {
      PendingFrame(a, b, open[..|open| - 1], open[|open| - 1]);
    }
  }

  lemma PendingExtend(a: seq<Action>, open: seq<nat>, mid: nat, hi: nat)
    requires mid <= hi <= |a| && Pending(a, open, mid) && WellNested(a, mid, hi)
    ensures Pending(a, open, hi)
  {
    WellNestedConcat(a, if open == [] then 0 else open[|open| - 1] + 1, mid, hi);
  }

  lemma PendingOpen(a: seq<Action>, open: seq<nat>, x: Action)
    requires Pending(a, open, |a|) && MissingEndPair(x)
    ensures Pending(a + [x], open + [|a|], |a| + 1)
  {
    PendingFrame(a, a + [x], open, |a|);
    assert (open + [|a|])[..|open|] == open;
  }

  lemma PendingLeaf(a: seq<Action>, open: seq<nat>, x: Action)
    requires Pending(a, open, |a|) && IsLeaf(x)
    ensures Pending(a + [x], open, |a| + 1)
  {
    PendingFrame(a, a + [x], open, |a|);
    PendingExtend(a + [x], open, |a|, |a| + 1);
  }

  lemma LinkedNested(a: seq<Action>, m: nat)
    requires m < |a| && MissingEndPair(a[m]) && WellNested(a, m + 1, |a|)
    ensures WellNested(Linked(a, m), m, |a| + 1)
  {
    var b := Linked(a, m);
    WellNestedFrame(a, b, m + 1, |a|);
    WellNestedBlock(b, m, |a|, |b|);
  }

  lemma PendingClose(a: seq<Action>, open: seq<nat>)
    requires open != [] && Pending(a, open, |a|)
    ensures Pending(Linked(a, open[|open| - 1]), open[..|open| - 1], |a| + 1)
  {
    var m, rest := open[|open| - 1], open[..|open| - 1];
    var b := Linked(a, m);
    assert Pending(b, rest, m) by {
      PendingFrame(a, b, rest, m);
    }
    assert WellNested(b, m, |a| + 1) by {
      LinkedNested(a, m);
    }
    PendingExtend(b, rest, m, |a| + 1);
  }

  lemma StepPending(a: seq<Action>, open: seq<nat>, t: TagText)
    requires Positions(a, open) && Pending(a, open, |a|)
    ensures var r := Step(a, open, t);
            r.Next? ==> |r.a| == |a| + 1 && Pending(r.a, r.open, |a| + 1)
  {
    if t.t == CloseBlock {
      if open != [] {
        PendingClose(a, open);
      }
    } else if Opens(t.t) {
      PendingOpen(a, open, Action(t.t, t.name, 0, false));
    } else {
      PendingLeaf(a, open, Action(t.t, t.name, 0, false));
    }
  }

  lemma StepTags(a: seq<Action>, open: seq<nat>, t: TagText)
    requires Positions(a, open) && Step(a, open, t).Next?
    ensures TagsOfActions(Step(a, open, t).a) == TagsOfActions(a) + [t]
  {
  }

  /** r encodes the given tags, correctly linked, and ends with the extra action. */
  predicate Encodes(r: seq<Action>, tags: seq<TagText>) {
    |r| == |tags| + 1 && TagsOfActions(r[..|tags|]) == tags && WellNested(r, 0, |tags|)
  }

  /** Whatever is accepted is linked as a tree with exactly the given tags. */
  lemma {:induction false} ParseSound(a: seq<Action>, open: seq<nat>, tags: seq<TagText>)
    requires Positions(a, open) && Pending(a, open, |a|)
    requires ParseTags(a, open, tags).Parsed?
    ensures Encodes(ParseTags(a, open, tags).actions, TagsOfActions(a) + tags)
    decreases |tags|
  {
    if tags == [] {
      ParseSoundEnd(a, open);
      assert TagsOfActions(a) + [] == TagsOfActions(a);
    } else {
      StepPending(a, open, tags[0]);
      StepTags(a, open, tags[0]);
      var r := Step(a, open, tags[0]);
      ParseSound(r.a, r.open, tags[1..]);
      assert TagsOfActions(a) + tags == (TagsOfActions(a) + [tags[0]]) + tags[1..];
    }
  }

  lemma ParseSoundEnd(a: seq<Action>, open: seq<nat>)
    requires Pending(a, open, |a|)
    requires Finish(a).Parsed?
    ensures Encodes(Finish(a).actions, TagsOfActions(a))
  {
    var all := a + [Action(Ignore, "", 0, false)];
    if open != [] {
      OpenBlockRejected(a, open);
    } else {
      WellNestedFrame(a, all, 0, |a|);
      assert all[..|a|] == a;
    }
  }

  lemma OpenBlockRejected(a: seq<Action>, open: seq<nat>)
    requires Pending(a, open, |a|) && open != []
    ensures Finish(a) == Invalid(NoMatchingEndTag)
  {
    var m := open[|open| - 1];
    assert MissingEndPair((a + [Action(Ignore, "", 0, false)])[m]);
  }

  lemma ParseOne(a: seq<Action>, open: seq<nat>, t: TagText, more: seq<TagText>)
    requires Positions(a, open) && Step(a, open, t).Next?
    ensures ParseTags(a, open, [t] + more) == ParseTags(Step(a, open, t).a, Step(a, open, t).open, more)
  {
    assert ([t] + more)[1..] == more;
  }

  /** b continues a without leaving a block open in the new part. */
  predicate Grown(a: seq<Action>, b: seq<Action>) {
    Same(a, b, 0, |a|) && forall i :: |a| <= i < |b| ==> !MissingEndPair(b[i])
  }

  /** The tag loop runs through the tags of a tree, whatever surrounds them. */
  lemma {:induction false} ParseTree(a: seq<Action>, open: seq<nat>, b: Body,
      more: seq<TagText>) returns (c: seq<Action>)
    requires Positions(a, open)
    ensures Grown(a, c) && Positions(c, open)
    ensures ParseTags(a, open, TagsOf(b) + more) == ParseTags(c, open, more)
    decreases b
  {
    match b
    case End(_) =>
      assert [] + more == more;
      c := a;
    case Item(_, node, rest) =>
      assert TagsOf(b) + more == NodeTags(node) + (TagsOf(rest) + more);
      var d := ParseNode(a, open, node, TagsOf(rest) + more);
      c := ParseTree(d, open, rest, more);
  }

  lemma {:induction false} ParseNode(a: seq<Action>, open: seq<nat>, node: Node,
      more: seq<TagText>) returns (c: seq<Action>)
    requires Positions(a, open)
    ensures Grown(a, c) && Positions(c, open)
    ensures ParseTags(a, open, NodeTags(node) + more) == ParseTags(c, open, more)
    decreases node
  {
    var t := NodeTags(node)[0];
    if node.Section? {
      var close := TagText(CloseBlock, t.name);
      assert NodeTags(node) + more == [t] + (TagsOf(node.content) + ([close] + more));
      ParseOne(a, open, t, TagsOf(node.content) + ([close] + more));
      var o := a + [Action(t.t, t.name, 0, false)];
      var d := ParseTree(o, open + [|a|], node.content, [close] + more);
      assert d[|a|] == o[|a|];
      CloseStep(d, open, |a|, t.name);
      ParseOne(d, open + [|a|], close, more);
      LinkedGrown(a, o[|a|], d);
      c := Linked(d, |a|);
    } else {
      ParseOne(a, open, t, more);
      c := a + [Action(t.t, t.name, 0, false)];
    }
  }

  lemma LinkedGrown(a: seq<Action>, o: Action, d: seq<Action>)
    requires Grown(a + [o], d)
    ensures Grown(a, Linked(d, |a|))
  {
    assert forall i :: 0 <= i < |a| ==> a[i] == (a + [o])[i];
  }

  lemma CloseStep(a: seq<Action>, open: seq<nat>, m: nat, name: string)
    requires Positions(a, open) && m < |a| && a[m].name == name
    ensures Positions(a, open + [m])
    ensures Step(a, open + [m], TagText(CloseBlock, name)) == Next(Linked(a, m), open)
  {
    assert (open + [m])[..|open|] == open;
  }

  /** What may stand behind the tags of a section or of the whole template. */
  predicate Stops(tags: seq<TagText>) {
    tags == [] || tags[0].t == CloseBlock
  }

  lemma Unfold<T>(h: T, m: seq<T>, k: seq<T>, r: seq<T>, x: seq<T>)
    ensures ([h] + m + k + r + x)[0] == h
    ensures ([h] + m + k + r + x)[1..] == m + (k + (r + x))
  {
  }

  /** The first tag of a tree inside a longer text, and what follows it. */
  lemma HeadTag(b: Body, x: seq<TagText>)
    ensures b.End? ==> TagsOf(b) + x == x
    ensures b.Item? ==> TagsOf(b) + x != [] && (TagsOf(b) + x)[0] == NodeTags(b.item)[0]
    ensures b.Item? ==> (TagsOf(b) + x)[1..] == TailTags(b, x)
  {
    if b.Item? {
      var head, rest := NodeTags(b.item)[0], TagsOf(b.rest);
      if b.item.Section? {
        Unfold(head, TagsOf(b.item.content), [TagText(CloseBlock, b.item.name)], rest, x);
      } else {
        Unfold(head, [], [], rest, x);
        assert [head] + [] + [] == [head] && [] + ([] + (rest + x)) == rest + x;
      }
    } else {
      assert [] + x == x;
    }
  }

  function TailTags(b: Body, x: seq<TagText>): seq<TagText>
    requires b.Item?
  {
    if b.item.Section? then TagsOf(b.item.content) + ([TagText(CloseBlock, b.item.name)] + (TagsOf(b.rest) + x))
    else TagsOf(b.rest) + x
  }

  lemma HeadFragment(b: Body, f: seq<Fragment>)
    ensures (FragmentsOf(b) + f)[0] == b.text
    ensures (FragmentsOf(b) + f)[1..] ==
            if b.End? then f else if b.item.Section? then FragmentsOf(b.item.content) + (FragmentsOf(b.rest) + f)
            else FragmentsOf(b.rest) + f
  {
    if b.Item? {
      var inner, rest := NodeFragments(b.item), FragmentsOf(b.rest);
      Unfold(b.text, inner, [], rest, f);
      assert [b.text] + inner + [] == [b.text] + inner && [] + (rest + f) == rest + f;
      assert !b.item.Section? ==> inner + (rest + f) == rest + f;
    }
  }

  /** A tree is determined by its tags and fragments, also inside a longer text. */
  lemma {:induction false} FlatteningInjective(b: Body, c: Body, x: seq<TagText>, y: seq<TagText>,
                                               f: seq<Fragment>, g: seq<Fragment>)
    requires TagsOf(b) + x == TagsOf(c) + y && Stops(x) && Stops(y)
    requires FragmentsOf(b) + f == FragmentsOf(c) + g
    ensures b == c && x == y && f == g
    decreases b, 1
  {
    HeadTag(b, x);
    HeadTag(c, y);
    HeadFragment(b, f);
    HeadFragment(c, g);
    if b.Item? && c.Item? {
      SameHead(b.item, c.item);
      if b.item.Section? {
        FlatteningSection(b, c, x, y, f, g);
      }
      FlatteningInjective(b.rest, c.rest, x, y, f, g);
    } else {
      assert b.End? && c.End?;
    }
  }

  lemma SameHead(m: Node, n: Node)
    requires NodeTags(m)[0] == NodeTags(n)[0]
    ensures m.Section? == n.Section?
    ensures m.Section? ==> m.inverted == n.inverted && m.name == n.name
    ensures !m.Section? ==> m == n
  {
  }

  lemma {:induction false} FlatteningSection(b: Body, c: Body, x: seq<TagText>, y: seq<TagText>,
                                             f: seq<Fragment>, g: seq<Fragment>)
    requires b.Item? && c.Item? && b.item.Section? && c.item.Section? && b.item.name == c.item.name
    requires var close := [TagText(CloseBlock, b.item.name)];
             TagsOf(b.item.content) + (close + (TagsOf(b.rest) + x)) ==
               TagsOf(c.item.content) + (close + (TagsOf(c.rest) + y))
    requires FragmentsOf(b.item.content) + (FragmentsOf(b.rest) + f) ==
             FragmentsOf(c.item.content) + (FragmentsOf(c.rest) + g)
    ensures b.item.content == c.item.content
    ensures TagsOf(b.rest) + x == TagsOf(c.rest) + y && FragmentsOf(b.rest) + f == FragmentsOf(c.rest) + g
    decreases b, 0
  {
    var close, u, v := [TagText(CloseBlock, b.item.name)], TagsOf(b.rest) + x, TagsOf(c.rest) + y;
    FlatteningInjective(b.item.content, c.item.content, close + u, close + v, FragmentsOf(b.rest) + f,
        FragmentsOf(c.rest) + g);
    assert u == (close + u)[1..] == (close + v)[1..] == v;
  }

  /** Parsing undoes flattening: the tags and fragments of a tree give back the tree. */
  lemma ParseOfTree(b: Body)
    ensures var r := ParseTags([], [], TagsOf(b));
            && r.Parsed?
            && Encodes(r.actions, TagsOf(b))
            && TreeOf(r.actions, FragmentsOf(b), 0, |TagsOf(b)|) == b
  {
    var tags, pieces := TagsOf(b), FragmentsOf(b);
    TreeAccepted(b);
    ParsedEncodes(tags);
    var t := TreeOf(ParseTags([], [], tags).actions, pieces, 0, |tags|);
    EncodedTree(ParseTags([], [], tags).actions, tags, pieces);
    FlatteningInjective(t, b, [], [], [], []);
  }

  lemma TreeAccepted(b: Body)
    ensures ParseTags([], [], TagsOf(b)).Parsed?
  {
    var c := ParseTree([], [], b, []);
    assert TagsOf(b) + [] == TagsOf(b);
  }

  lemma ParsedEncodes(tags: seq<TagText>)
    requires ParseTags([], [], tags).Parsed?
    ensures Encodes(ParseTags([], [], tags).actions, tags)
  {
    ParseSound([], [], tags);
    assert TagsOfActions([]) + tags == tags;
  }

  /** The tree of an accepted array has the tags and fragments the array was made from. */
  lemma EncodedTree(r: seq<Action>, tags: seq<TagText>, pieces: seq<Fragment>)
    requires Encodes(r, tags) && |pieces| == |tags| + 1
    ensures TagsOf(TreeOf(r, pieces, 0, |tags|)) == tags
    ensures FragmentsOf(TreeOf(r, pieces, 0, |tags|)) == pieces
  {
    TreeOfTags(r, pieces, 0, |tags|);
    TreeOfFragments(r, pieces, 0, |tags|);
    assert r[0..|tags|] == r[..|tags|] && pieces[0..|tags| + 1] == pieces;
  }

  /** parse accepts exactly the tag sequences of trees, and links them as that tree. */
  lemma ParseAcceptsExactlyTrees(tags: seq<TagText>)
    ensures ParseTags([], [], tags).Parsed? <==> exists b :: TagsOf(b) == tags
    ensures ParseTags([], [], tags).Parsed? ==> Encodes(ParseTags([], [], tags).actions, tags)
  {
    if ParseTags([], [], tags).Parsed? {
      ParsedEncodes(tags);
      EncodedTree(ParseTags([], [], tags).actions, tags, seq(|tags| + 1, _ => Fragment(0, 0)));
    }
    forall b | TagsOf(b) == tags ensures ParseTags([], [], tags).Parsed? {
      TreeAccepted(b);
    }
  }

  lemma TreeOfBlock(a: seq<Action>, f: seq<Fragment>, lo: nat, p: nat, hi: nat)
    requires lo < p < hi <= |a| && hi < |f| && IsBlock(a, lo, p)
    requires WellNested(a, lo + 1, p) && WellNested(a, p + 1, hi) && WellNested(a, lo, hi)
    ensures TreeOf(a, f, lo, hi) ==
            Item(f[lo], Section(a[lo].t == ElseBlock, a[lo].name, TreeOf(a, f, lo + 1, p)), TreeOf(a, f, p + 1, hi))
  {
  }

  // ---------------------------------------------------------------- the rendering machine

  /** A parsed template. */
  datatype Program = Program(body: string, fragments: seq<Fragment>, actions: seq<Action>)
  {
    predicate FragmentsOk() {
      |fragments| == |actions| && forall i :: 0 <= i < |fragments| ==> InBody(fragments[i], body)
    }

    /** What parse leaves behind: a linked array with one fragment per action. */
    predicate Valid() {
      FragmentsOk() && |actions| >= 1 && WellNested(actions, 0, |actions| - 1)
    }

    predicate Part(lo: nat, hi: nat) {
      FragmentsOk() && lo <= hi < |actions| && WellNested(actions, lo, hi)
    }
  }

  function KindsBefore(a: seq<Action>, n: nat): (ks: seq<ActionType>)
    requires n <= |a|
    ensures |ks| == n
  {
    seq(n, i requires 0 <= i < n => a[i].t)
  }

  lemma {:induction false} TreeInBody(p: Program, lo: nat, hi: nat)
    requires p.Part(lo, hi)
    ensures TextInBody(TreeOf(p.actions, p.fragments, lo, hi), p.body)
    decreases hi - lo
  {
    if lo == hi {
    } else if Opens(p.actions[lo].t) {
      TreeInBody(p, lo + 1, p.actions[lo].pos);
      TreeInBody(p, p.actions[lo].pos + 1, hi);
    } else {
      TreeInBody(p, lo + 1, hi);
    }
  }

  /** The recursive meaning of one part of the array, taken as a block tree. */
  function Meaning(p: Program, indent: nat, lo: nat, hi: nat, stack: seq<Context>): Outcome
    requires p.Part(lo, hi) && stack != []
  {
    TreeInBody(p, lo, hi);
    Eval(p.body, indent, TreeOf(p.actions, p.fragments, lo, hi), KindsBefore(p.actions, lo), stack)
  }

  function EachMeaning(p: Program, indent: nat, lo: nat, hi: nat, stack: seq<Context>, items: seq<Context>): Outcome
    requires p.Part(lo, hi) && stack != []
  {
    TreeInBody(p, lo, hi);
    EvalEach(p.body, indent, TreeOf(p.actions, p.fragments, lo, hi), KindsBefore(p.actions, lo), stack, items)
  }

  /** The text of the fragment at a position. */
  function Frag(p: Program, indent: nat, i: nat): Outcome
    requires p.FragmentsOk() && i < |p.fragments|
  {
    Done(FragmentText(p.body, p.fragments[i], indent))
  }

  lemma MeaningLeaf(p: Program, indent: nat, lo: nat, hi: nat, stack: seq<Context>)
    requires p.Part(lo, hi) && stack != [] && lo < hi && IsLeaf(p.actions[lo])
    ensures p.Part(lo + 1, hi)
    ensures var x := p.actions[lo];
            var here := if x.t == Ignore then Done("") else
                        VariableText(x.t == Tag, x.name, KindsBefore(p.actions, lo), stack);
            Meaning(p, indent, lo, hi, stack) ==
              Then(Frag(p, indent, lo), Then(here, Meaning(p, indent, lo + 1, hi, stack)))
  {
    TreeInBody(p, lo, hi);
    TreeInBody(p, lo + 1, hi);
    var x, before := p.actions[lo], KindsBefore(p.actions, lo);
    var n := if x.t == Ignore then Comment(x.name) else Variable(x.t == Tag, x.name);
    var rest := TreeOf(p.actions, p.fragments, lo + 1, hi);
    assert TreeOf(p.actions, p.fragments, lo, hi) == Item(p.fragments[lo], n, rest);
    assert KindsBefore(p.actions, lo + 1) == before + Kinds(NodeTags(n));
    EvalItem(p.body, indent, p.fragments[lo], n, rest, before, stack);
  }

  lemma EvalItem(body: string, indent: nat, text: Fragment, n: Node, rest: Body, before: seq<ActionType>,
      stack: seq<Context>)
    requires stack != [] && TextInBody(Item(text, n, rest), body)
    ensures Eval(body, indent, Item(text, n, rest), before, stack) ==
            Then(Done(FragmentText(body, text, indent)),
                 Then(EvalNode(body, indent, n, before, stack),
                      Eval(body, indent, rest, before + Kinds(NodeTags(n)), stack)))
  {
  }

  /** What a section contributes. */
  function SectionMeaning(p: Program, indent: nat, lo: nat, hi: nat, stack: seq<Context>): Outcome
    requires p.Part(lo + 1, hi) && stack != []
  {
    match SectionPasses(p.actions[lo].t == ElseBlock, p.actions[lo].name, stack)
    case Skip => Done("")
    case Once(ctx) => Meaning(p, indent, lo + 1, hi, stack + [ctx])
    case Each(items) => EachMeaning(p, indent, lo + 1, hi, stack, items)
  }

  lemma KindsOfBlock(p: Program, lo: nat, e: nat)
    requires p.Part(lo + 1, e) && IsBlock(p.actions, lo, e)
    ensures var n := Section(p.actions[lo].t == ElseBlock, p.actions[lo].name,
                             TreeOf(p.actions, p.fragments, lo + 1, e));
            KindsBefore(p.actions, e + 1) == KindsBefore(p.actions, lo) + Kinds(NodeTags(n))
  {
    TreeOfTags(p.actions, p.fragments, lo + 1, e);
    hide TreeOf, TagsOf;
    KindsSplit(p.actions, lo, e + 1);
    BlockTags(p.actions, lo, e);
  }

  lemma KindsSplit(a: seq<Action>, lo: nat, hi: nat)
    requires lo <= hi <= |a|
    ensures KindsBefore(a, hi) == KindsBefore(a, lo) + Kinds(TagsOfActions(a[lo..hi]))
  {
  }

  lemma BlockTags(a: seq<Action>, lo: nat, e: nat)
    requires lo < e < |a|
    ensures TagsOfActions(a[lo..e + 1]) ==
            [TagText(a[lo].t, a[lo].name)] + TagsOfActions(a[lo + 1..e]) + [TagText(a[e].t, a[e].name)]
  {
    TagsOfBlock(a, lo, e, e + 1);
    assert a[e + 1..e + 1] == [];
  }

  lemma MeaningBlock(p: Program, indent: nat, lo: nat, e: nat, hi: nat, stack: seq<Context>)
    requires p.Part(lo, hi) && stack != [] && lo < e < hi && IsBlock(p.actions, lo, e)
    ensures p.Part(lo + 1, e) && p.Part(e + 1, hi)
    ensures Meaning(p, indent, lo, hi, stack) ==
            Then(Frag(p, indent, lo), Then(SectionMeaning(p, indent, lo, e, stack), Meaning(p, indent, e +
              1, hi, stack)))
  {
    TreeInBody(p, lo, hi);
    TreeInBody(p, lo + 1, e);
    TreeInBody(p, e + 1, hi);
    TreeOfBlock(p.actions, p.fragments, lo, e, hi);
    KindsOfBlock(p, lo, e);
    var x, before := p.actions[lo], KindsBefore(p.actions, lo);
    var n := Section(x.t == ElseBlock, x.name, TreeOf(p.actions, p.fragments, lo + 1, e));
    assert KindsBefore(p.actions, lo + 1) == before + [if x.t == ElseBlock then ElseBlock else OpenBlock];
    assert EvalNode(p.body, indent, n, before, stack) == SectionMeaning(p, indent, lo, e, stack);
    EvalItem(p.body, indent, p.fragments[lo], n, TreeOf(p.actions, p.fragments, e + 1, hi), before, stack);
  }

  // ---- the work left while sections are being rendered in line

  /** The position that ends the innermost part. */
  function Target(ends: seq<nat>, hi: nat): nat {
    if ends == [] then hi else ends[|ends| - 1]
  }

  /** The sections rendered in line close at the positions `ends`, innermost last, before hi. */
  predicate Closing(p: Program, ends: seq<nat>, hi: nat)
    decreases |ends|
  {
    ends != [] ==>
      var e, rest := ends[|ends| - 1], ends[..|ends| - 1];
      p.Part(e + 1, Target(rest, hi)) && e < hi && p.actions[e].t == CloseBlock && Closing(p, rest, hi)
  }

  /** What is written after the innermost section: one context popped, the rest of the enclosing
      one, and so on. */
  function After(p: Program, indent: nat, ends: seq<nat>, hi: nat, stack: seq<Context>): Outcome
    requires Closing(p, ends, hi) && |stack| > |ends|
    decreases |ends|
  {
    if ends == [] then Done("")
    else
      var e, rest, outer := ends[|ends| - 1], ends[..|ends| - 1], stack[..|stack| - 1];
      Then(Meaning(p, indent, e + 1, Target(rest, hi), outer), After(p, indent, rest, hi, outer))
  }

  /** The machine stands at lo inside the sections closing at `ends`. */
  predicate Chain(p: Program, lo: nat, ends: seq<nat>, hi: nat) {
    p.Part(lo, Target(ends, hi)) && Closing(p, ends, hi)
  }

  /** What remains to be written. */
  function Rest(p: Program, indent: nat, lo: nat, ends: seq<nat>, hi: nat, stack: seq<Context>): Outcome
    requires Chain(p, lo, ends, hi) && |stack| > |ends|
  {
    Then(Meaning(p, indent, lo, Target(ends, hi), stack), After(p, indent, ends, hi, stack))
  }

  lemma Regroup(a: Outcome, b: Outcome, c: Outcome, d: Outcome, e: Outcome)
    ensures Then(a, Then(Then(b, Then(c, d)), e)) == Then(Then(Then(a, b), c), Then(d, e))
  {
    ThenAssociative(b, Then(c, d), e);
    ThenAssociative(c, d, e);
    ThenAssociative(a, b, Then(c, Then(d, e)));
    ThenAssociative(Then(a, b), c, Then(d, e));
  }

  // ---- one step of the machine, as equations on the work left

  lemma StepLeaf(p: Program, indent: nat, lo: nat, ends: seq<nat>, hi: nat, stack: seq<Context>, out: Outcome)
    requires Chain(p, lo, ends, hi) && |stack| > |ends| && lo < Target(ends, hi) && !Opens(p.actions[lo].t)
    ensures Chain(p, lo + 1, ends, hi)
    ensures var x := p.actions[lo];
            var here := if x.t == Ignore then Done("") else
                        VariableText(x.t == Tag, x.name, KindsBefore(p.actions, lo), stack);
            Then(out, Rest(p, indent, lo, ends, hi, stack)) ==
            Then(Then(Then(out, Frag(p, indent, lo)), here), Rest(p, indent, lo + 1, ends, hi, stack))
  {
    var e, x := Target(ends, hi), p.actions[lo];
    MeaningLeaf(p, indent, lo, e, stack);
    var here := if x.t == Ignore then Done("") else
                VariableText(x.t == Tag, x.name, KindsBefore(p.actions, lo), stack);
    Regroup(out, Frag(p, indent, lo), here, Meaning(p, indent, lo + 1, e, stack), After(p, indent, ends, hi, stack));
  }

  lemma StepBlock(p: Program, indent: nat, lo: nat, ends: seq<nat>, hi: nat, stack: seq<Context>, out: Outcome)
    requires Chain(p, lo, ends, hi) && |stack| > |ends| && lo < Target(ends, hi) && Opens(p.actions[lo].t)
    ensures var e := p.actions[lo].pos;
            && lo < e < Target(ends, hi) <= hi && p.Part(lo + 1, e)
            && p.actions[e].t == CloseBlock
            && Chain(p, e + 1, ends, hi)
            && Then(out, Rest(p, indent, lo, ends, hi, stack)) ==
               Then(Then(Then(out, Frag(p, indent, lo)), SectionMeaning(p, indent, lo, e, stack)),
                    Rest(p, indent, e + 1, ends, hi, stack))
  {
    var t, e := Target(ends, hi), p.actions[lo].pos;
    MeaningBlock(p, indent, lo, e, t, stack);
    Regroup(out, Frag(p, indent, lo), SectionMeaning(p, indent, lo, e, stack), Meaning(p, indent, e + 1, t, stack),
            After(p, indent, ends, hi, stack));
  }

  /** Entering a section in line: its content now stands before the rest. */
  lemma StepEnter(p: Program, indent: nat, lo: nat, e: nat, ends: seq<nat>, hi: nat, stack: seq<Context>,
                  ctx: Context, out: Outcome)
    requires |stack| > |ends| && p.Part(lo + 1, e) && e < hi && p.actions[e].t == CloseBlock
    requires Chain(p, e + 1, ends, hi)
    ensures Chain(p, lo + 1, ends + [e], hi)
    ensures Then(out, Rest(p, indent, lo + 1, ends + [e], hi, stack + [ctx])) ==
            Then(Then(out, Meaning(p, indent, lo + 1, e, stack + [ctx])), Rest(p, indent, e + 1, ends, hi, stack))
  {
    assert (ends + [e])[..|ends|] == ends;
    assert (stack + [ctx])[..|stack|] == stack;
    ThenAssociative(out, Meaning(p, indent, lo + 1, e, stack + [ctx]), Rest(p, indent, e + 1, ends, hi, stack));
  }

  lemma StepClose(p: Program, indent: nat, ends: seq<nat>, hi: nat, stack: seq<Context>, out: Outcome)
    requires ends != [] && |stack| > |ends| && Chain(p, ends[|ends| - 1], ends, hi)
    ensures var e, rest := ends[|ends| - 1], ends[..|ends| - 1];
            && Chain(p, e + 1, rest, hi)
            && Then(out, Rest(p, indent, e, ends, hi, stack)) ==
               Then(Then(out, Frag(p, indent, e)), Rest(p, indent, e + 1, rest, hi, stack[..|stack| - 1]))
  {
    var e, rest := ends[|ends| - 1], ends[..|ends| - 1];
    assert Meaning(p, indent, e, e, stack) == Frag(p, indent, e);
    ThenAssociative(out, Frag(p, indent, e), Rest(p, indent, e + 1, rest, hi, stack[..|stack| - 1]));
  }

  // ---- the machine itself

  /** find_context: a walk down the stack, innermost context first. */
  method SearchContext(name: string, stack: seq<Context>, onlyTop: bool) returns (r: Lookup)
    requires stack != []
    ensures r == FindContext(name, stack, onlyTop)
  {
    if name == "." {
      return Lookup(true, stack[|stack| - 1]);
    }
    var names := SplitDots(name);
    var limited := onlyTop && '.' in name;
    var it := |stack|;
    assert stack[..it] == stack;
    while it > 0
      invariant 0 <= it <= |stack|
      invariant it < |stack| ==> !limited
      invariant Resolve(names, stack[..it], limited) == Resolve(names, stack, limited)
    {
      assert stack[..it][..it - 1] == stack[..it - 1];
      var view, jt, found := stack[it - 1], 0, true;
      while jt < |names|
        invariant 0 <= jt <= |names|
        invariant found ==> Walk(view, names[jt..]) == Walk(stack[it - 1], names)
        invariant !found ==> jt == |names| && !Walk(stack[it - 1], names).found
        invariant !found ==> !limited
      {
        if Has(view, names[jt]) {
          assert names[jt..][1..] == names[jt + 1..];
          view, jt := view.fields[names[jt]], jt + 1;
        } else {
          if limited {
            return NotFound;
          }
          found, jt := false, |names|;
        }
      }
      if found {
        return Lookup(true, view);
      }
      it := it - 1;
    }
    r := NotFound;
  }

  /** isTagInsideObjectBlock: the backward scan from the current action. */
  method IsTagInsideObjectBlock(a: seq<Action>, current: nat, stack: seq<Context>) returns (r: bool)
    requires current <= |a| && stack != []
    ensures r == InsideObjectBlock(KindsBefore(a, current), 0, stack[|stack| - 1])
  {
    var top := stack[|stack| - 1];
    var surplus, i := 0, current;
    while i > 0
      invariant 0 <= i <= current
      invariant InsideObjectBlock(KindsBefore(a, i), surplus, top) == InsideObjectBlock(KindsBefore(a, current), 0, top)
    {
      assert KindsBefore(a, i)[..i - 1] == KindsBefore(a, i - 1);
      if a[i - 1].t == OpenBlock {
        if surplus == 0 && top.Object? {
          return true;
        }
        surplus := surplus - 1;
      } else if a[i - 1].t == CloseBlock {
        surplus := surplus + 1;
      }
      i := i - 1;
    }
    r := false;
  }

  /** The type switches of the two block actions. */
  method ChoosePasses(action: Action, stack: seq<Context>) returns (passes: Passes)
    requires Opens(action.t) && stack != []
    ensures passes == SectionPasses(action.t == ElseBlock, action.name, stack)
  {
    var l := SearchContext(action.name, stack, false);
    if action.t == ElseBlock {
      if !l.found {
        return Once(Null);
      }
      match l.ctx
      case List(items) => return if |items| > 0 then Skip else Once(Null);
      case False | Null => return Once(Null);
      case _ => return Skip;
    }
    if !l.found {
      return Skip;
    }
    match l.ctx
    case List(items) => return Each(items);
    case Number(_) | Text(_) | Object(_) | True => return Once(l.ctx);
    case False | Null => return Skip;
  }

  class RenderState {
    var stack: seq<Context>
    var out: string

    constructor (ctx: Context)
      ensures stack == [ctx] && out == ""
    {
      stack, out := [ctx], "";
    }

    method AppendEscaped(s: string)
      modifies this`out
      ensures out == old(out) + Escape(s)
    {
      for i := 0 to |s|
        invariant out == old(out) + Escape(s[..i])
      {
        EscapeSnoc(s, i);
        out := out + EscapeChar(s[i]);
      }
      assert s[..|s|] == s;
    }

    method RenderFragment(p: Program, i: nat, indent: nat)
      requires p.FragmentsOk() && i < |p.fragments|
      modifies this`out
      ensures Done(out) == Then(Done(old(out)), Frag(p, indent, i))
    {
      var f := p.fragments[i];
      for k := f.first to f.second
        invariant out == old(out) + FragmentText(p.body, Fragment(f.first, k), indent)
      {
        out := out + [p.body[k]];
        if indent != 0 && p.body[k] == '\n' && k + 1 != |p.body| {
          out := out + Spaces(indent);
        }
      }
    }

    /** The text of a variable tag; false for the exception of a type that has no text. */
    method RenderVariable(p: Program, current: nat) returns (ok: bool)
      requires current < |p.actions| && stack != []
      modifies this`out
      ensures var a := p.actions[current];
              var o := VariableText(a.t == Tag, a.name, KindsBefore(p.actions, current), stack);
              ok == o.Done? && (ok ==> Done(out) == Then(Done(old(out)), o))
    {
      var action := p.actions[current];
      var onlyTop := IsTagInsideObjectBlock(p.actions, current, stack);
      var l := SearchContext(action.name, stack, onlyTop);
      match l.ctx
      case False => out := out + "false"; return true;
      case True => out := out + "true"; return true;
      case Number(text) => out := out + text; return true;
      case Text(s) =>
        if action.t == Tag {
          AppendEscaped(s);
        } else {
          out := out + s;
        }
        return true;
      case _ => return false;
    }

    /** One pass over the content of a list section per element; false for an exception. */
    method RenderList(p: Program, lo: nat, hi: nat, items: seq<Context>, indent: nat) returns (ok: bool)
      requires p.Part(lo, hi) && stack != []
      modifies this
      ensures var o := EachMeaning(p, indent, lo, hi, old(stack), items);
              ok == o.Done? && (ok ==> stack == old(stack) && Done(out) == Then(Done(old(out)), o))
      decreases hi - lo, 2
    {
      ghost var all := EachMeaning(p, indent, lo, hi, stack, items);
      var it := 0;
      ThenUnit(Done(out));
      assert items[0..] == items;
      while it < |items|
        invariant 0 <= it <= |items| && stack == old(stack)
        invariant Then(Done(out), EachMeaning(p, indent, lo, hi, stack, items[it..])) == Then(Done(old(out)), all)
      {
        assert items[it..][1..] == items[it + 1..];
        ghost var before, rest := out, EachMeaning(p, indent, lo, hi, stack, items[it + 1..]);
        ghost var pass := Then(Done(Spaces(indent)), Meaning(p, indent, lo, hi, stack + [items[it]]));
        assert EachMeaning(p, indent, lo, hi, stack, items[it..]) == Then(pass, rest);
        stack := stack + [items[it]];
        var fine := RenderInternal(p, lo, hi, indent);
        if !fine {
          return false;
        }
        ThenAssociative(Done(before), pass, rest);
        stack := stack[..|stack| - 1];
        it := it + 1;
      }
      ThenUnit(Done(out));
      ok := true;
    }

    /** A block tag: its content is skipped, repeated for every list element, or entered in line. */
    method RenderSection(p: Program, current: nat, end: nat, indent: nat, ghost ends: seq<nat>)
      returns (ok: bool, next: nat, ghost ends': seq<nat>)
      requires Chain(p, current, ends, end) && |stack| > |ends|
      requires current < Target(ends, end) && Opens(p.actions[current].t)
      requires var e := p.actions[current].pos;
               current < e < end && p.Part(current + 1, e) && p.actions[e].t == CloseBlock && Chain(p, e + 1, ends, end)
      modifies this
      ensures ok ==> current < next <= end && Chain(p, next, ends', end)
      ensures ok ==> |stack| - |ends'| == |old(stack)| - |ends| && Same(stack, old(stack), 0, |old(stack)| - |ends|)
      ensures var o := SectionMeaning(p, indent, current, p.actions[current].pos, old(stack));
              var r := Rest(p, indent, p.actions[current].pos + 1, ends, end, old(stack));
              && (ok ==> Then(Done(out), Rest(p, indent, next, ends', end, stack)) == Then(Then(Done(old(out)), o), r))
              && (!ok ==> o == Thrown)
      decreases p.actions[current].pos - current, 0
    {
      var action := p.actions[current];
      ok, next, ends' := true, action.pos + 1, ends;
      var passes := ChoosePasses(action, stack);
      match passes
      case Skip =>
        ThenUnit(Done(out));
      case Once(ctx) =>
        ok, next, ends' := EnterSection(p, current, end, indent, ends, ctx);
      case Each(items) =>
        ok := RenderList(p, current + 1, action.pos, items, indent);
    }

    /** Push the context of a section and go on with its content. */
    method EnterSection(p: Program, current: nat, end: nat, indent: nat, ghost ends: seq<nat>, ctx: Context)
      returns (ok: bool, next: nat, ghost ends': seq<nat>)
      requires Chain(p, current, ends, end) && |stack| > |ends|
      requires current < Target(ends, end) && Opens(p.actions[current].t)
      requires var e := p.actions[current].pos;
               current < e < end && p.Part(current + 1, e) && p.actions[e].t == CloseBlock && Chain(p, e + 1, ends, end)
      modifies this`stack
      ensures ok && next == current + 1 && ends' == ends + [p.actions[current].pos]
      ensures Chain(p, next, ends', end) && stack == old(stack) + [ctx]
      ensures var o := Meaning(p, indent, current + 1, p.actions[current].pos, old(stack) + [ctx]);
              var r := Rest(p, indent, p.actions[current].pos + 1, ends, end, old(stack));
              Then(Done(out), Rest(p, indent, next, ends', end, stack)) == Then(Then(Done(out), o), r)
    {
      StepEnter(p, indent, current, p.actions[current].pos, ends, end, stack, ctx, Done(out));
      stack := stack + [ctx];
      ok, next, ends' := true, current + 1, ends + [p.actions[current].pos];
    }

    /** The action at `current`, with its fragment: where to go on, and the sections rendered in line
        after it; false for an exception. */
    method RenderAction(p: Program, current: nat, end: nat, indent: nat, ghost ends: seq<nat>)
      returns (ok: bool, next: nat, ghost ends': seq<nat>)
      requires current < end && Chain(p, current, ends, end) && |stack| > |ends|
      modifies this
      ensures ok ==> current < next <= end && Chain(p, next, ends', end)
      ensures ok ==> |stack| - |ends'| == |old(stack)| - |ends| && Same(stack, old(stack), 0, |old(stack)| - |ends|)
      ensures ok ==> Then(Done(out), Rest(p, indent, next, ends', end, stack)) ==
                     Then(Done(old(out)), Rest(p, indent, current, ends, end, old(stack)))
      ensures !ok ==> Rest(p, indent, current, ends, end, old(stack)) == Thrown
      decreases end - current, 0
    {
      RenderFragment(p, current, indent);
      if p.actions[current].t == CloseBlock {
        ok, next, ends' := CloseSection(p, current, end, indent, ends, old(out));
      } else if Opens(p.actions[current].t) {
        StepBlock(p, indent, current, ends, end, stack, Done(old(out)));
        ok, next, ends' := RenderSection(p, current, end, indent, ends);
      } else {
        StepLeaf(p, indent, current, ends, end, stack, Done(old(out)));
        ok, next, ends' := true, current + 1, ends;
        if p.actions[current].t == Ignore {
          ThenUnit(Done(out));
        } else {
          ok := RenderVariable(p, current);
        }
      }
    }

    /** A closing tag reached in line pops the context of its section. */
    method CloseSection(p: Program, current: nat, end: nat, indent: nat, ghost ends: seq<nat>, ghost before: string)
      returns (ok: bool, next: nat, ghost ends': seq<nat>)
      requires ends != [] && current == ends[|ends| - 1] && |stack| > |ends| && Chain(p, current, ends, end)
      requires Done(out) == Then(Done(before), Frag(p, indent, current))
      modifies this`stack
      ensures ok && next == current + 1 && ends' == ends[..|ends| - 1] && Chain(p, next, ends', end)
      ensures stack == old(stack)[..|old(stack)| - 1]
      ensures Then(Done(out), Rest(p, indent, next, ends', end, stack)) ==
              Then(Done(before), Rest(p, indent, current, ends, end, old(stack)))
    {
      StepClose(p, indent, ends, end, stack, Done(before));
      ok, next, ends' := true, current + 1, ends[..|ends| - 1];
      stack := stack[..|stack| - 1];
    }

    /** render_internal: the loop over the flat array, jumping over skipped and repeated sections and
        rendering the other ones in line. */
    method RenderInternal(p: Program, begin: nat, end: nat, indent: nat) returns (ok: bool)
      requires p.Part(begin, end) && stack != []
      modifies this
      ensures var o := Then(Done(Spaces(indent)), Meaning(p, indent, begin, end, old(stack)));
              ok == o.Done? && (ok ==> stack == old(stack) && Done(out) == Then(Done(old(out)), o))
      decreases end - begin, 1
    {
      ghost var total := Then(Done(Spaces(indent)), Meaning(p, indent, begin, end, stack));
      ThenAssociative(Done(out), Done(Spaces(indent)), Meaning(p, indent, begin, end, stack));
      ThenUnit(Meaning(p, indent, begin, end, stack));
      out := out + Spaces(indent);
      var current := begin;
      ghost var ends: seq<nat> := [];
      while current < end
        invariant begin <= current <= end
        invariant Chain(p, current, ends, end)
        invariant |stack| == |old(stack)| + |ends| && stack[..|old(stack)|] == old(stack)
        invariant Then(Done(out), Rest(p, indent, current, ends, end, stack)) == Then(Done(old(out)), total)
        decreases end - current
      {
        ok, current, ends := RenderAction(p, current, end, indent, ends);
        if !ok {
          return false;
        }
      }
      assert ends == [];
      ThenUnit(Meaning(p, indent, end, end, stack));
      RenderFragment(p, end, indent);
      ok := true;
    }
  }

  // ---------------------------------------------------------------- end to end

  /** The action array of a tree means what the tree means. */
  lemma ParsedTreeMeaning(p: Program, b: Body, indent: nat, stack: seq<Context>)
    requires p.fragments == FragmentsOf(b) && TextInBody(b, p.body) && stack != []
    requires ParseTags([], [], TagsOf(b)) == Parsed(p.actions)
    ensures p.Valid() && |p.actions| == |TagsOf(b)| + 1
    ensures Meaning(p, indent, 0, |TagsOf(b)|, stack) == Eval(p.body, indent, b, [], stack)
  {
    ParseOfTree(b);
    FragmentsInBody(b, p.body);
  }

  lemma {:induction false} FragmentsInBody(b: Body, body: string)
    requires TextInBody(b, body)
    ensures forall f :: f in FragmentsOf(b) ==> InBody(f, body)
    decreases b
  {
    if b.Item? {
      FragmentsInBody(b.rest, body);
      if b.item.Section? {
        FragmentsInBody(b.item.content, body);
      }
    }
  }

  /** compile followed by render: tags that flatten some tree are parsed, and the output is the
      recursive meaning of that tree; any other tags are refused. */
  method CompileAndRender(body: string, pieces: seq<Fragment>, tags: seq<TagText>, ctx: Context)
    returns (parsed: bool, r: Outcome)
    requires |pieces| == |tags| + 1 && forall i :: 0 <= i < |pieces| ==> InBody(pieces[i], body)
    ensures parsed <==> exists b :: TagsOf(b) == tags
    ensures parsed ==> exists b :: TagsOf(b) == tags && FragmentsOf(b) == pieces && TextInBody(b, body)
    ensures forall b | TagsOf(b) == tags && FragmentsOf(b) == pieces && TextInBody(b, body) ::
              r == Eval(body, 0, b, [], [ctx])
  {
    var t := new Template(body);
    var result := t.Parse(pieces, tags);
    ParseAcceptsExactlyTrees(tags);
    if result.Invalid? {
      return false, Thrown;
    }
    parsed := true;
    var p := Program(body, t.fragments, t.actions);
    EncodedTree(p.actions, tags, pieces);
    TreeInBody(p, 0, |tags|);
    var st := new RenderState(ctx);
    var ok := st.RenderInternal(p, 0, |p.fragments| - 1, 0);
    r := if ok then Done(st.out) else Thrown;
    forall b | TagsOf(b) == tags && FragmentsOf(b) == pieces && TextInBody(b, body)
      ensures r == Eval(body, 0, b, [], [ctx])
    {
      ParsedTreeMeaning(p, b, 0, [ctx]);
      ThenUnit(Eval(body, 0, b, [], [ctx]));
    }
  }
}

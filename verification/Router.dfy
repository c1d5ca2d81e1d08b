/** The Trie class of crow/routing.h as it works in place: `add` walks down from the head and grows
    it, `find` pushes and pops the parameters it shares with its recursive calls. */
module Router {
  import opened Sequences
  import opened RouteTrie

  // ---------------------------------------------------------------- rule texts

  /** paramTraits: the placeholder names and their types. */
  datatype Trait = Trait(t: ParamType, name: string)

  const PARAM_TRAITS := [
    Trait(INT, "<int>"), Trait(UINT, "<uint>"), Trait(DOUBLE, "<float>"), Trait(DOUBLE, "<double>"),
    Trait(STRING, "<str>"), Trait(STRING, "<string>"), Trait(PATH, "<path>")]

  /** A name closes with its only '>'. */
  predicate GoodTrait(x: Trait) {
    x.t != MAX && |x.name| >= 5 && x.name[|x.name| - 1] == '>' && forall k :: 0 <= k < |x.name| - 1 ==> x.name[k] != '>'
  }

  /** A placeholder found in a rule text: its type and the length of its name. */
  datatype Name = Name(t: ParamType, len: nat)

  predicate NameAt(url: string, i: nat, n: Name) {
    && n.t != MAX && n.len >= 5 && i + n.len <= |url|
    && url[i + n.len - 1] == '>' && forall k :: i <= k < i + n.len - 1 ==> url[k] != '>'
  }

  /** The loop over the table: the first name that stands in the text. */
  function TraitAt(traits: seq<Trait>, url: string, i: nat): (r: Option<Name>)
    requires forall x :: x in traits ==> GoodTrait(x)
    ensures r.Some? ==> NameAt(url, i, r.value)
  {
    if traits == [] then None
    else
      var x := traits[0];
      var n := |x.name|;
      if i + n <= |url| && url[i..i + n] == x.name then
        assert GoodTrait(x) && forall k :: i <= k < i + n ==> url[k] == x.name[k - i];
        Some(Name(x.t, n))
      else TraitAt(traits[1..], url, i)
  }

  function PlaceholderAt(url: string, i: nat): (r: Option<Name>)
    ensures r.Some? ==> NameAt(url, i, r.value)
  {
    TraitAt(PARAM_TRAITS, url, i)
  }

  /** A rule text holds known placeholders only, and no NUL. */
  predicate GoodText(url: string, i: nat)
    decreases |url| - i
  {
    i >= |url| ||
    if url[i] == '<' then PlaceholderAt(url, i).Some? && GoodText(url, i + PlaceholderAt(url, i).value.len)
    else url[i] != '\0' && GoodText(url, i + 1)
  }

  /** The tokens of a rule text from position i on. */
  function Tokens(url: string, i: nat): (r: seq<Token>)
    requires GoodText(url, i)
    ensures GoodTokens(r)
    decreases |url| - i
  {
    if i >= |url| then []
    else if url[i] == '<' then
      [Placeholder(PlaceholderAt(url, i).value.t)] + Tokens(url, i + PlaceholderAt(url, i).value.len)
    else [Char(url[i])] + Tokens(url, i + 1)
  }

  // ---------------------------------------------------------------- nodes by their position

  /** The node reached from the head by taking the given child at every level. */
  predicate Reaches(n: Node, path: seq<nat>)
    decreases |path|
  {
    path != [] ==> path[0] < |n.children| && Reaches(n.children[path[0]], path[1..])
  }

  function NodeAt(n: Node, path: seq<nat>): Node
    requires Reaches(n, path)
    decreases |path|
  {
    if path == [] then n else NodeAt(n.children[path[0]], path[1..])
  }

  /** An assignment through the pointer to the node at `path`. */
  function Assign(n: Node, path: seq<nat>, m: Node): Node
    requires Reaches(n, path)
    decreases |path|
  {
    if path == [] then m
    else n.(children := n.children[path[0] := Assign(n.children[path[0]], path[1..], m)])
  }

  lemma {:induction false} AssignReaches(n: Node, path: seq<nat>, m: Node)
    requires Reaches(n, path)
    ensures Reaches(Assign(n, path, m), path) && NodeAt(Assign(n, path, m), path) == m
    ensures forall m' :: Assign(Assign(n, path, m), path, m') == Assign(n, path, m')
    decreases |path|
  {
    if path != [] {
      AssignReaches(n.children[path[0]], path[1..], m);
    }
  }

  lemma {:induction false} StepDown(n: Node, path: seq<nat>, k: nat)
    requires Reaches(n, path) && k < |NodeAt(n, path).children|
    ensures Reaches(n, path + [k]) && NodeAt(n, path + [k]) == NodeAt(n, path).children[k]
    ensures forall m :: Assign(n, path + [k], m) == Assign(n, path, SetChild(NodeAt(n, path), k, m))
    decreases |path|
  {
    if path == [] {
      assert [] + [k] == [k] && [k][1..] == [];
    } else {
      StepDown(n.children[path[0]], path[1..], k);
      assert (path + [k])[1..] == path[1..] + [k];
    }
  }

  function SetChild(n: Node, k: nat, m: Node): Node
    requires k < |n.children|
  {
    n.(children := n.children[k := m])
  }

  // ---------------------------------------------------------------- the walk of add

  /** The trie after `add` has made sure that the node at idx has a child for the label. */
  function Grown(h: Node, idx: seq<nat>, t: Token): Node
    requires Reaches(h, idx)
  {
    var cur := NodeAt(h, idx);
    if ChildIndex(cur.children, t) < |cur.children| then h
    else Assign(h, idx, cur.(children := cur.children + [Fresh(t)]))
  }

  lemma GrownStep(h: Node, idx: seq<nat>, t: Token)
    requires Reaches(h, idx) && t != Placeholder(MAX)
    ensures var cur := NodeAt(h, idx);
            var next := idx + [ChildIndex(cur.children, t)];
            && Reaches(Grown(h, idx, t), next)
            && NodeAt(Grown(h, idx, t), next) == ChildOrFresh(cur.children, t)
  {
    var cur := NodeAt(h, idx);
    AssignReaches(h, idx, cur.(children := cur.children + [Fresh(t)]));
    StepDown(Grown(h, idx, t), idx, ChildIndex(cur.children, t));
  }

  lemma GrownAssign(h: Node, idx: seq<nat>, t: Token, m: Node)
    requires Reaches(h, idx) && t != Placeholder(MAX)
    ensures var cur := NodeAt(h, idx);
            var k := ChildIndex(cur.children, t);
            && Reaches(Grown(h, idx, t), idx + [k])
            && Assign(Grown(h, idx, t), idx + [k], m) == Assign(h, idx, cur.(children := PutChild(cur.children, k, m)))
  {
    var cur := NodeAt(h, idx);
    var k := ChildIndex(cur.children, t);
    GrownStep(h, idx, t);
    AssignReaches(h, idx, cur.(children := cur.children + [Fresh(t)]));
    StepDown(Grown(h, idx, t), idx, k);
    var at := NodeAt(Grown(h, idx, t), idx);
    assert SetChild(at, k, m).children == PutChild(cur.children, k, m);
  }

  /** Inserting the remaining tokens at idx completes the insertion; nothing has been stored yet. */
  predicate Walking(h0: Node, all: seq<Token>, h: Node, idx: seq<nat>, rest: seq<Token>, ruleIndex: RuleIndex) {
    && Reaches(h, idx)
    && Assign(h, idx, Insert(NodeAt(h, idx), rest, ruleIndex)) == Insert(h0, all, ruleIndex)
    && Stored(NodeAt(h, idx), rest) == Stored(h0, all)
    && (Stored(h0, all) != 0 ==> h == h0)
  }

  lemma WalkStep(h0: Node, all: seq<Token>, h: Node, idx: seq<nat>, rest: seq<Token>, ruleIndex: RuleIndex)
    requires Walking(h0, all, h, idx, rest, ruleIndex) && rest != [] && rest[0] != Placeholder(MAX)
    ensures var k := ChildIndex(NodeAt(h, idx).children, rest[0]);
            Walking(h0, all, Grown(h, idx, rest[0]), idx + [k], rest[1..], ruleIndex)
  {
    var cur, t := NodeAt(h, idx), rest[0];
    GrownStep(h, idx, t);
    GrownAssign(h, idx, t, Insert(ChildOrFresh(cur.children, t), rest[1..], ruleIndex));
    StoredFresh(t, rest[1..]);
  }

  lemma WalkToken(h0: Node, all: seq<Token>, h: Node, idx: seq<nat>, t: Token, rest: seq<Token>, ruleIndex: RuleIndex)
    requires Walking(h0, all, h, idx, [t] + rest, ruleIndex) && t != Placeholder(MAX) && WellFormed(NodeAt(h, idx))
    ensures var next := idx + [ChildIndex(NodeAt(h, idx).children, t)];
            && Walking(h0, all, Grown(h, idx, t), next, rest, ruleIndex)
            && WellFormed(NodeAt(Grown(h, idx, t), next))
  {
    assert ([t] + rest)[1..] == rest;
    WalkStep(h0, all, h, idx, [t] + rest, ruleIndex);
    GrownStep(h, idx, t);
  }

  // ---------------------------------------------------------------- parameters shared by the search

  class RoutingParams {
    var ints: seq<int>
    var uints: seq<nat>
    var doubles: seq<real>
    var strings: seq<string>

    function Value(): Params
      reads this
    {
      Params(ints, uints, doubles, strings)
    }

    constructor ()
      ensures Value() == NoParams
    {
      ints, uints, doubles, strings := [], [], [], [];
    }

    method PushValue(v: RouteTrie.Value)
      modifies this
      ensures Value() == Push(old(Value()), v)
    {
      match v
      case IntValue(i) => ints := ints + [i];
      case UintValue(u) => uints := uints + [u];
      case DoubleValue(d) => doubles := doubles + [d];
      case StringValue(s) => strings := strings + [s];
    }

    /** pop_back on the vector the value was pushed to. */
    method PopValue(v: RouteTrie.Value, ghost before: Params)
      requires Value() == Push(before, v)
      modifies this
      ensures Value() == before
    {
      match v
      case IntValue(_) => ints := ints[..|ints| - 1];
      case UintValue(_) => uints := uints[..|uints| - 1];
      case DoubleValue(_) => doubles := doubles[..|doubles| - 1];
      case StringValue(_) => strings := strings[..|strings| - 1];
    }
  }

  // ---------------------------------------------------------------- the class

  class Trie {
    var head: Node

    constructor ()
      ensures head == EmptyTrie
    {
      head := EmptyTrie;
    }

    /** One edge of the walk: the child with the label, appended when it is not there yet. */
    method Descend(idx: seq<nat>, t: Token) returns (next: seq<nat>)
      requires Reaches(head, idx) && WellFormed(NodeAt(head, idx)) && t != Char('\0') && t != Placeholder(MAX)
      modifies this
      ensures head == Grown(old(head), idx, t)
      ensures next == idx + [ChildIndex(NodeAt(old(head), idx).children, t)]
    {
      var cur := NodeAt(head, idx);
      var k := 0;
      while k < |cur.children| && (if t.Placeholder? then cur.children[k].param != t.t
                                   else cur.children[k].key == "" || cur.children[k].key[0] != t.c)
        invariant 0 <= k <= |cur.children|
        invariant forall i :: 0 <= i < k ==> Label(cur.children[i]) != t
      {
        k := k + 1;
      }
      ChildIndexIs(cur.children, t, k);
      if k == |cur.children| {
        head := Assign(head, idx, cur.(children := cur.children + [Fresh(t)]));
      }
      next := idx + [k];
    }

    /** add: false when the rule text is already in the trie. */
    method Add(url: string, ruleIndex: RuleIndex) returns (added: bool)
      requires GoodText(url, 0) && WellFormed(head)
      modifies this
      ensures added == (Stored(old(head), Tokens(url, 0)) == 0)
      ensures head == if added then Insert(old(head), Tokens(url, 0), ruleIndex) else old(head)
    {
      var idx: seq<nat> := [];
      var i := 0;
      while i < |url|
        invariant GoodText(url, i)
        invariant Walking(old(head), Tokens(url, 0), head, idx, Tokens(url, i), ruleIndex)
        invariant WellFormed(NodeAt(head, idx))
        decreases |url| - i
      {
        var t := Char(url[i]);
        ghost var tokens := Tokens(url, i);
        if url[i] == '<' {
          var name := PlaceholderAt(url, i).value;
          t := Placeholder(name.t);
          i := i + name.len;
        } else {
          i := i + 1;
        }
        assert tokens == [t] + Tokens(url, i);
        WalkToken(old(head), Tokens(url, 0), head, idx, t, Tokens(url, i), ruleIndex);
        idx := Descend(idx, t);
      }
      added := NodeAt(head, idx).ruleIndex == 0;
      if added {
        head := Assign(head, idx, NodeAt(head, idx).(ruleIndex := ruleIndex));
      }
    }

    /** validate: the head of the router's trie must be simple, then chains are merged; no search changes. */
    method Validate() returns (ok: bool)
      requires WellFormed(head)
      modifies this
      ensures ok == IsSimpleNode(old(head))
      ensures head == if ok then Optimize(old(head)) else old(head)
      ensures forall lib, url :: Find(lib, url, head, 0, NoParams) == Find(lib, url, old(head), 0, NoParams)
    {
      ok := IsSimpleNode(head);
      forall lib, url
        ensures Find(lib, url, Optimize(head), 0, NoParams) == Find(lib, url, head, 0, NoParams)
      {
        OptimizePreservesFind(lib, url, head);
      }
      if ok {
        head := Optimize(head);
      }
    }

    /** find at a node, on parameters that are as before when it returns. */
    method FindAt(lib: Numerals, url: string, node: Node, pos: nat, params: RoutingParams) returns (r: Found)
      requires pos <= |url|
      modifies params
      ensures params.Value() == old(params.Value())
      ensures r == Find(lib, url, node, pos, params.Value())
      decreases node, 1
    {
      if pos == |url| {
        return Found(node.ruleIndex, params.Value());
      }
      r := Nothing;
      var i := 0;
      assert node.children[0..] == node.children;
      while i < |node.children|
        invariant 0 <= i <= |node.children| && params.Value() == old(params.Value())
        invariant FindIn(lib, url, node.children[i..], pos, params.Value(), r) ==
                  FindIn(lib, url, node.children, pos, params.Value(), Nothing)
      {
        assert node.children[i..][1..] == node.children[i + 1..];
        var ret := FindChild(lib, url, node.children[i], pos, params);
        if ret.index != 0 && (r.index == 0 || r.index > ret.index) {
          r := ret;
        }
        i := i + 1;
      }
    }

    method FindChild(lib: Numerals, url: string, child: Node, pos: nat, params: RoutingParams) returns (r: Found)
      requires pos < |url|
      modifies params
      ensures params.Value() == old(params.Value())
      ensures r == TryChild(lib, url, child, pos, params.Value())
      decreases child, 2
    {
      if child.param != MAX {
        var m := ScanParam(lib, child.param, url, pos);
        if m.None? {
          return Nothing;
        }
        ghost var before := params.Value();
        params.PushValue(m.value.value);
        r := FindAt(lib, url, child, m.value.end, params);
        params.PopValue(m.value.value, before);
      } else if pos + |child.key| <= |url| && url[pos..pos + |child.key|] == child.key {
        r := FindAt(lib, url, child, pos + |child.key|, params);
      } else {
        r := Nothing;
      }
    }

    method FindUrl(lib: Numerals, url: string) returns (r: Found)
      ensures r == Find(lib, url, head, 0, NoParams)
    {
      var params := new RoutingParams();
      r := FindAt(lib, url, head, 0, params);
    }
  }

  // ---------------------------------------------------------------- a whole router

  /** A rule text with its index. */
  datatype RuleText = RuleText(text: string, index: RuleIndex)

  predicate GoodTexts(texts: seq<RuleText>) {
    forall i :: 0 <= i < |texts| ==> texts[i].index != 0 && GoodText(texts[i].text, 0)
  }

  function RulesOf(texts: seq<RuleText>): (rules: seq<Rule>)
    requires GoodTexts(texts)
    ensures |rules| == |texts| && GoodRules(rules)
    ensures forall i :: 0 <= i < |texts| ==> rules[i] == Rule(Tokens(texts[i].text, 0), texts[i].index)
  {
    seq(|texts|, i requires 0 <= i < |texts| => Rule(Tokens(texts[i].text, 0), texts[i].index))
  }

  /** No rule is empty, and all start with the same character. */
  predicate OneRoot(rules: seq<Rule>) {
    forall i, j :: 0 <= i <= j < |rules| ==>
      rules[i].tokens != [] && rules[j].tokens != [] && rules[i].tokens[0].Char? &&
      rules[i].tokens[0] == rules[j].tokens[0]
  }

  /** Some rule starts with the token. */
  predicate Starts(rules: seq<Rule>, t: Token) {
    exists j :: 0 <= j < |rules| && rules[j].tokens != [] && rules[j].tokens[0] == t
  }

  predicate HasLabel(children: seq<Node>, t: Token) {
    exists i :: 0 <= i < |children| && Label(children[i]) == t
  }

  lemma HasLabelPut(children: seq<Node>, child: Node, t: Token, u: Token)
    requires Label(child) == t
    ensures HasLabel(PutChild(children, ChildIndex(children, t), child), u) == (HasLabel(children, u) || u == t)
  {
    var k := ChildIndex(children, t);
    var put := PutChild(children, k, child);
    assert put[k] == child;
    if HasLabel(children, u) {
      var i :| 0 <= i < |children| && Label(children[i]) == u;
      assert Label(put[i]) == u;
    }
  }

  /** The children of the head are the first tokens of the rules, and its rule is the empty one. */
  lemma {:induction false} HeadOfBuild(rules: seq<Rule>, t: Token)
    requires GoodRules(rules) && Build(rules).Some?
    ensures var head := Build(rules).value;
            head.blueprint == INVALID_BP_ID && head.param == MAX && (HasLabel(head.children, t) <==> Starts(rules, t))
  {
    hide Stored;
    if rules != [] {
      var init, r := rules[..|rules| - 1], rules[|rules| - 1];
      HeadOfBuild(init, t);
      assert Starts(rules, t) <==> Starts(init, t) || (r.tokens != [] && r.tokens[0] == t) by {
        StartsLast(rules, t);
      }
      if r.tokens != [] {
        var n := Build(init).value;
        var first := ChildOrFresh(n.children, r.tokens[0]);
        InsertLabel(first, r.tokens[1..], r.index);
        FreshLabel(n.children, r.tokens[0]);
        HasLabelPut(n.children, Insert(first, r.tokens[1..], r.index), r.tokens[0], t);
      }
    }
  }

  lemma FreshLabel(children: seq<Node>, t: Token)
    requires t != Placeholder(MAX)
    ensures Label(ChildOrFresh(children, t)) == t
  {
  }

  lemma StartsLast(rules: seq<Rule>, t: Token)
    requires rules != []
    ensures var init, r := rules[..|rules| - 1], rules[|rules| - 1];
            Starts(rules, t) <==> Starts(init, t) || (r.tokens != [] && r.tokens[0] == t)
  {
    var init := rules[..|rules| - 1];
    if Starts(init, t) {
      var j :| 0 <= j < |init| && init[j].tokens != [] && init[j].tokens[0] == t;
      assert rules[j] == init[j];
    }
  }

  /** The head of the trie is simple exactly when the rules have one root. */
  lemma SimpleHead(rules: seq<Rule>)
    requires GoodRules(rules) && Build(rules).Some?
    ensures IsSimpleNode(Build(rules).value) <==> OneRoot(rules)
  {
    BuildStores(rules);
    IndexOfIsRule(rules, []);
    var head := Build(rules).value;
    forall t
      ensures HasLabel(head.children, t) <==> Starts(rules, t)
    {
      HeadOfBuild(rules, t);
    }
    HeadOfBuild(rules, Char('/'));
    assert head.ruleIndex == Stored(head, []) == IndexOf(rules, []);
    if IsSimpleNode(head) {
      SimpleHasOneRoot(head, rules);
    } else if OneRoot(rules) {
      OneRootIsSimple(head, rules);
    }
  }

  lemma SimpleHasOneRoot(head: Node, rules: seq<Rule>)
    requires IsSimpleNode(head) && WellFormed(head)
    requires forall t :: HasLabel(head.children, t) <==> Starts(rules, t)
    requires forall i :: 0 <= i < |rules| ==> rules[i].tokens != []
    ensures OneRoot(rules)
  {
    forall i | 0 <= i < |rules|
      ensures |head.children| == 1 && rules[i].tokens[0] == Label(head.children[0]) && rules[i].tokens[0].Char?
    {
      assert Starts(rules, rules[i].tokens[0]);
      assert HasLabel(head.children, rules[i].tokens[0]);
    }
  }

  lemma OneRootIsSimple(head: Node, rules: seq<Rule>)
    requires OneRoot(rules) && WellFormed(head) && head.ruleIndex == 0
    requires head.blueprint == INVALID_BP_ID && head.param == MAX
    requires forall t :: HasLabel(head.children, t) <==> Starts(rules, t)
    ensures IsSimpleNode(head)
  {
    forall i | 0 <= i < |head.children|
      ensures rules != [] && Label(head.children[i]) == rules[0].tokens[0] && Label(head.children[i]).Char?
    {
      assert HasLabel(head.children, Label(head.children[i]));
      var j :| 0 <= j < |rules| && rules[j].tokens != [] && rules[j].tokens[0] == Label(head.children[i]);
      assert rules[0].tokens[0] == rules[j].tokens[0];
    }
    if |head.children| >= 2 {
      TwoLabels(head, if rules == [] || rules[0].tokens == [] then Char('/') else rules[0].tokens[0]);
    }
  }

  lemma TwoLabels(n: Node, t: Token)
    requires WellFormed(n) && |n.children| >= 2
    ensures exists i :: 0 <= i < |n.children| && Label(n.children[i]) != t
  {
    assert Label(n.children[0]) != Label(n.children[1]);
  }

  /** Rules are added, the trie is validated and searched. An exception ends it exactly when two rules are
      the same or the rules do not have one root; otherwise the search is the scan over the rules. */
  method Route(lib: Numerals, texts: seq<RuleText>, url: string) returns (r: Option<Found>)
    requires GoodTexts(texts)
    ensures r.Some? <==> DistinctTokens(RulesOf(texts)) && OneRoot(RulesOf(texts))
    ensures r.Some? ==> r.value.index == LinearScan(lib, RulesOf(texts), url).index
    ensures r.Some? && DistinctIndices(RulesOf(texts)) ==> r.value == LinearScan(lib, RulesOf(texts), url)
  {
    hide Build, LinearScan, Find, WellFormed, IsSimpleNode, OneRoot;
    ghost var rules := RulesOf(texts);
    var trie := new Trie();
    var i := 0;
    BuildNothing();
    assert rules[..0] == [];
    while i < |texts|
      invariant 0 <= i <= |texts| && Build(rules[..i]) == Some(trie.head) && WellFormed(trie.head)
    {
      BuildNext(rules, i);
      var added := trie.Add(texts[i].text, texts[i].index);
      if !added {
        BuildFails(rules, i + 1);
        BuildStores(rules);
        return None;
      }
      BuildStores(rules[..i + 1]);
      i := i + 1;
    }
    assert rules[..i] == rules;
    BuildStores(rules);
    SimpleHead(rules);
    var ok := trie.Validate();
    if !ok {
      return None;
    }
    var found := trie.FindUrl(lib, url);
    TrieRefinesLinearScan(lib, rules, url);
    if DistinctIndices(rules) {
      TrieRefinesLinearScanWithParams(lib, rules, url);
    }
    return Some(found);
  }

  lemma BuildNothing()
    ensures Build([]) == Some(EmptyTrie) && WellFormed(EmptyTrie)
  {
  }

  lemma BuildNext(rules: seq<Rule>, i: nat)
    requires i < |rules| && Build(rules[..i]).Some?
    ensures var n := Build(rules[..i]).value;
            Build(rules[..i + 1]) ==
            if Stored(n, rules[i].tokens) != 0 then None else Some(Insert(n, rules[i].tokens, rules[i].index))
  {
    assert rules[..i + 1][..i] == rules[..i];
  }

  /** Once a rule is refused, so is the list. */
  lemma {:induction false} BuildFails(rules: seq<Rule>, i: nat)
    requires i <= |rules| && Build(rules[..i]).None?
    ensures Build(rules).None?
    decreases |rules|
  {
    if i < |rules| {
      assert rules[..|rules| - 1][..i] == rules[..i];
      BuildFails(rules[..|rules| - 1], i);
    } else {
      assert rules[..i] == rules;
    }
  }
}

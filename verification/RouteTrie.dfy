/** The URL router of crow/routing.h: rules are added to a trie with one character or one placeholder
    per edge, `find` searches it by backtracking for the smallest matching rule index, and `optimize`
    merges chains of nodes. The search is proved to agree with a scan over the list of rules, with and
    without the merging. */
module RouteTrie {
  import opened Sequences

  // ---------------------------------------------------------------- placeholders and their values

  datatype ParamType = INT | UINT | DOUBLE | STRING | PATH | MAX

  datatype Value = IntValue(i: int) | UintValue(u: nat) | DoubleValue(d: real) | StringValue(s: string)

  /** What a C number scanner reports: a value, how many characters it used, a range error. */
  datatype Scan<V> = Scan(value: V, used: nat, rangeError: bool)

  /** strtoll, strtoull and strtod, left open: any behaviour is allowed. */
  datatype Numerals = Numerals(strtoll: string -> Scan<int>, strtoull: string -> Scan<nat>,
      strtod: string -> Scan<real>)

  /** A matched placeholder: its value and the position behind it. */
  datatype Matched = Matched(value: Value, end: nat)

  predicate Digit(c: char) {
    '0' <= c <= '9'
  }

  function Min(a: nat, b: nat): nat {
    if a <= b then a else b
  }

  /** The position of the next '/' or the end. */
  function SegmentEnd(url: string, pos: nat): (e: nat)
    requires pos <= |url|
    ensures pos <= e <= |url|
    ensures '/' !in url[pos..e] && (e < |url| ==> url[e] == '/')
    decreases |url| - pos
  {
    if pos == |url| || url[pos] == '/' then pos
    else
      var e := SegmentEnd(url, pos + 1);
      assert url[pos..e] == [url[pos]] + url[pos + 1..e];
      e
  }

  /** The five placeholder cases of `find` at a position inside the URL. */
  function ScanParam(lib: Numerals, t: ParamType, url: string, pos: nat): (r: Option<Matched>)
    requires pos < |url|
    ensures r.Some? ==> pos < r.value.end <= |url|
  {
    var c, rest := url[pos], url[pos..];
    match t
    case INT =>
      var s := lib.strtoll(rest);
      if (Digit(c) || c == '+' || c == '-') && !s.rangeError && s.used != 0
      then Some(Matched(IntValue(s.value), pos + Min(s.used, |rest|))) else None
    case UINT =>
      var s := lib.strtoull(rest);
      if (Digit(c) || c == '+') && !s.rangeError && s.used != 0
      then Some(Matched(UintValue(s.value), pos + Min(s.used, |rest|))) else None
    case DOUBLE =>
      var s := lib.strtod(rest);
      if (Digit(c) || c == '+' || c == '-' || c == '.') && !s.rangeError && s.used != 0
      then Some(Matched(DoubleValue(s.value), pos + Min(s.used, |rest|))) else None
    case STRING =>
      var e := SegmentEnd(url, pos);
      if e != pos then Some(Matched(StringValue(url[pos..e]), e)) else None
    case PATH => Some(Matched(StringValue(rest), |url|))
    case MAX => None
  }

  /** The matched values, one vector per type. */
  datatype Params = Params(ints: seq<int>, uints: seq<nat>, doubles: seq<real>, strings: seq<string>)

  const NoParams := Params([], [], [], [])

  function Push(p: Params, v: Value): Params {
    match v
    case IntValue(i) => p.(ints := p.ints + [i])
    case UintValue(u) => p.(uints := p.uints + [u])
    case DoubleValue(d) => p.(doubles := p.doubles + [d])
    case StringValue(s) => p.(strings := p.strings + [s])
  }

  // ---------------------------------------------------------------- the trie and the search

  const INVALID_BP_ID := 0xFFFF

  /** A uint16_t; 0 stands for no rule. */
  type RuleIndex = n: nat | n < 0x1_0000

  datatype Node = Node(ruleIndex: RuleIndex, blueprint: nat, key: string, param: ParamType, children: seq<Node>)

  datatype Found = Found(index: RuleIndex, params: Params)

  const Nothing := Found(0, NoParams)

  /** update_found: a smaller rule index replaces the one found so far. */
  function Update(best: Found, r: Found): Found {
    if r.index != 0 && (best.index == 0 || best.index > r.index) then r else best
  }

  /** find at a node: at the end of the URL the rule of the node, before it the best of its children. */
  function Find(lib: Numerals, url: string, node: Node, pos: nat, params: Params): Found
    requires pos <= |url|
    decreases node, 1
  {
    if pos == |url| then Found(node.ruleIndex, params)
    else FindIn(lib, url, node.children, pos, params, Nothing)
  }

  function FindIn(lib: Numerals, url: string, children: seq<Node>, pos: nat, params: Params, best: Found): Found
    requires pos < |url|
    decreases children, 0
  {
    if children == [] then best
    else FindIn(lib, url, children[1..], pos, params, Update(best, TryChild(lib, url, children[0], pos, params)))
  }

  /** One child: a placeholder consumes what it matches, a text key must stand in the URL. */
  function TryChild(lib: Numerals, url: string, child: Node, pos: nat, params: Params): Found
    requires pos < |url|
    decreases child, 2
  {
    if child.param != MAX then
      match ScanParam(lib, child.param, url, pos)
      case None => Nothing
      case Some(m) => Find(lib, url, child, m.end, Push(params, m.value))
    else if pos + |child.key| <= |url| && url[pos..pos + |child.key|] == child.key then
      Find(lib, url, child, pos + |child.key|, params)
    else Nothing
  }

  // ---------------------------------------------------------------- rules as token lists

  datatype Token = Char(c: char) | Placeholder(t: ParamType)

  /** Does the token list match the URL from pos to its end, and with which values? */
  function Match(lib: Numerals, tokens: seq<Token>, url: string, pos: nat, params: Params): Option<Params>
    requires pos <= |url|
    decreases |tokens|
  {
    if tokens == [] then if pos == |url| then Some(params) else None
    else if pos == |url| then None
    else
      match tokens[0]
      case Char(c) => if url[pos] == c then Match(lib, tokens[1..], url, pos + 1, params) else None
      case Placeholder(t) =>
        match ScanParam(lib, t, url, pos)
        case None => None
        case Some(m) => Match(lib, tokens[1..], url, m.end, Push(params, m.value))
  }

  datatype Rule = Rule(tokens: seq<Token>, index: RuleIndex)

  /** The reference: try the rules one after the other and keep the smallest matching index. */
  function LinearScan(lib: Numerals, rules: seq<Rule>, url: string): Found {
    if rules == [] then Nothing
    else
      var best, r := LinearScan(lib, rules[..|rules| - 1], url), rules[|rules| - 1];
      match Match(lib, r.tokens, url, 0, NoParams)
      case None => best
      case Some(p) => Update(best, Found(r.index, p))
  }

  // ---------------------------------------------------------------- the trie as a map of token lists

  /** The edge label of a child before merging. */
  function Label(n: Node): Token {
    if n.param != MAX then Placeholder(n.param) else if n.key != "" then Char(n.key[0]) else Char('\0')
  }

  predicate Proper(n: Node) {
    if n.param != MAX then n.key == "" else |n.key| == 1
  }

  /** Every edge is one character or one placeholder, and the edges of a node differ. */
  predicate WellFormed(n: Node) {
    && (forall i, j :: 0 <= i < j < |n.children| ==> Label(n.children[i]) != Label(n.children[j]))
    && (forall i :: 0 <= i < |n.children| ==> Proper(n.children[i]) && WellFormed(n.children[i]))
  }

  /** The position of the child with the given label, or the number of children. */
  function ChildIndex(children: seq<Node>, t: Token): (k: nat)
    ensures k <= |children|
    ensures k < |children| ==> Label(children[k]) == t
    ensures forall i :: 0 <= i < k ==> Label(children[i]) != t
  {
    if children == [] then 0
    else
      var k := ChildIndex(children[..|children| - 1], t);
      if k < |children| - 1 then k
      else if Label(children[|children| - 1]) == t then |children| - 1
      else |children|
  }

  /** The rule stored under a token list, 0 for none. */
  function Stored(n: Node, tokens: seq<Token>): RuleIndex
    decreases |tokens|
  {
    if tokens == [] then n.ruleIndex
    else
      var k := ChildIndex(n.children, tokens[0]);
      if k == |n.children| then 0 else Stored(n.children[k], tokens[1..])
  }

  function Fresh(t: Token): Node {
    match t
    case Char(c) => Node(0, INVALID_BP_ID, [c], MAX, [])
    case Placeholder(p) => Node(0, INVALID_BP_ID, "", p, [])
  }

  /** Replace the child at k, or append it when k is behind the last one. */
  function PutChild(children: seq<Node>, k: nat, child: Node): seq<Node>
    requires k <= |children|
  {
    if k < |children| then children[k := child] else children + [child]
  }

  /** The child a label leads to, or the new one that `add` creates for it. */
  function ChildOrFresh(children: seq<Node>, t: Token): Node {
    var k := ChildIndex(children, t);
    if k < |children| then children[k] else Fresh(t)
  }

  /** Store a rule under a token list, growing the trie where it ends. */
  function Insert(n: Node, tokens: seq<Token>, index: RuleIndex): Node
    decreases |tokens|
  {
    if tokens == [] then n.(ruleIndex := index)
    else
      var grown := Insert(ChildOrFresh(n.children, tokens[0]), tokens[1..], index);
      n.(children := PutChild(n.children, ChildIndex(n.children, tokens[0]), grown))
  }

  predicate GoodTokens(tokens: seq<Token>) {
    Placeholder(MAX) !in tokens
  }

  lemma InsertLabel(n: Node, tokens: seq<Token>, index: RuleIndex)
    ensures var m := Insert(n, tokens, index); Label(m) == Label(n) && (Proper(n) ==> Proper(m))
  {
  }

  lemma {:induction false} InsertWellFormed(n: Node, tokens: seq<Token>, index: RuleIndex)
    requires WellFormed(n) && GoodTokens(tokens)
    ensures WellFormed(Insert(n, tokens, index))
    decreases |tokens|
  {
    if tokens != [] {
      var child := ChildOrFresh(n.children, tokens[0]);
      InsertWellFormed(child, tokens[1..], index);
      InsertLabel(child, tokens[1..], index);
    }
  }

  lemma ChildIndexIs(children: seq<Node>, t: Token, k: nat)
    requires k <= |children| && (k < |children| ==> Label(children[k]) == t)
    requires forall i :: 0 <= i < k ==> Label(children[i]) != t
    ensures ChildIndex(children, t) == k
  {
  }

  lemma PutSameLabel(children: seq<Node>, child: Node, t: Token)
    requires Label(child) == t
    ensures var k := ChildIndex(children, t);
            var put := PutChild(children, k, child);
            k < |put| && ChildIndex(put, t) == k && put[k] == child
  {
    var k := ChildIndex(children, t);
    ChildIndexIs(PutChild(children, k, child), t, k);
  }

  lemma PutOtherLabel(children: seq<Node>, child: Node, t: Token, u: Token)
    requires Label(child) == t && t != u
    ensures var put := PutChild(children, ChildIndex(children, t), child);
            var i, j := ChildIndex(children, u), ChildIndex(put, u);
            if i == |children| then j == |put| else j == i && j < |put| && put[j] == children[i]
  {
    var k, i := ChildIndex(children, t), ChildIndex(children, u);
    var put := PutChild(children, k, child);
    ChildIndexIs(put, u, if i == |children| then |put| else i);
  }

  lemma {:induction false} StoredFresh(t: Token, tokens: seq<Token>)
    ensures Stored(Fresh(t), tokens) == 0
  {
  }

  /** Insertion changes exactly the given token list. */
  lemma {:induction false} StoredInsert(n: Node, tokens: seq<Token>, index: RuleIndex, other: seq<Token>)
    requires GoodTokens(tokens)
    ensures Stored(Insert(n, tokens, index), other) == if other == tokens then index else Stored(n, other)
    decreases |tokens|
  {
    if tokens != [] && other != [] {
      var t := tokens[0];
      var child := ChildOrFresh(n.children, t);
      var grown := Insert(child, tokens[1..], index);
      InsertLabel(child, tokens[1..], index);
      assert tokens == [t] + tokens[1..] && other == [other[0]] + other[1..];
      if other[0] == t {
        PutSameLabel(n.children, grown, t);
        StoredInsert(child, tokens[1..], index, other[1..]);
        StoredFresh(t, other[1..]);
      } else {
        PutOtherLabel(n.children, grown, t, other[0]);
      }
    }
  }

  // ---------------------------------------------------------------- the search is the scan

  /** a is found no later than b. */
  predicate AtLeast(a: Found, b: Found) {
    b.index != 0 ==> a.index != 0 && a.index <= b.index
  }

  /** The best of the children is one of them (or the start value) and no worse than any of them. */
  lemma {:induction false} FindInIsBest(lib: Numerals, url: string, children: seq<Node>, pos: nat, params: Params,
      best: Found)
    requires pos < |url|
    ensures var r := FindIn(lib, url, children, pos, params, best);
            && AtLeast(r, best)
            && (forall i :: 0 <= i < |children| ==> AtLeast(r, TryChild(lib, url, children[i], pos, params)))
            && (r == best || exists i :: 0 <= i < |children| && r == TryChild(lib, url, children[i], pos, params))
    decreases |children|
  {
    if children != [] {
      var first := TryChild(lib, url, children[0], pos, params);
      FindInIsBest(lib, url, children[1..], pos, params, Update(best, first));
      var r := FindIn(lib, url, children, pos, params, best);
      forall i | 0 <= i < |children| ensures AtLeast(r, TryChild(lib, url, children[i], pos, params)) {
        assert i > 0 ==> children[i] == children[1..][i - 1];
      }
      if r != Update(best, first) {
        var i :| 0 <= i < |children[1..]| && r == TryChild(lib, url, children[1..][i], pos, params);
        assert children[i + 1] == children[1..][i];
      }
    }
  }

  /** Some token list stored below n explains the result. */
  ghost predicate Explained(lib: Numerals, url: string, n: Node, pos: nat, params: Params, r: Found)
    requires pos <= |url|
  {
    exists tokens :: Stored(n, tokens) == r.index && Match(lib, tokens, url, pos, params) == Some(r.params)
  }

  /** find is sound: what it returns is stored under a token list that matches the rest of the URL. */
  lemma {:induction false} FindSound(lib: Numerals, url: string, n: Node, pos: nat, params: Params)
    requires WellFormed(n) && pos <= |url|
    ensures var r := Find(lib, url, n, pos, params);
            r.index != 0 ==> Explained(lib, url, n, pos, params, r)
    decreases n, 1
  {
    var r := Find(lib, url, n, pos, params);
    if pos == |url| {
      assert Stored(n, []) == r.index && Match(lib, [], url, pos, params) == Some(r.params);
    } else if r.index != 0 {
      FindInIsBest(lib, url, n.children, pos, params, Nothing);
      var i :| 0 <= i < |n.children| && r == TryChild(lib, url, n.children[i], pos, params);
      TrySound(lib, url, n, i, pos, params);
    }
  }

  lemma {:induction false} TrySound(lib: Numerals, url: string, n: Node, i: nat, pos: nat, params: Params)
    requires WellFormed(n) && pos < |url| && i < |n.children|
    ensures var r := TryChild(lib, url, n.children[i], pos, params);
            r.index != 0 ==> Explained(lib, url, n, pos, params, r)
    decreases n, 0
  {
    var c := n.children[i];
    var r := TryChild(lib, url, c, pos, params);
    if r.index != 0 {
      var pos', params' := pos + 1, params;
      if c.param != MAX {
        var m := ScanParam(lib, c.param, url, pos).value;
        pos', params' := m.end, Push(params, m.value);
      } else {
        KeyIsChar(url, pos, c);
      }
      FindSound(lib, url, c, pos', params');
      var rest :| Stored(c, rest) == r.index && Match(lib, rest, url, pos', params') == Some(r.params);
      var tokens := [Label(c)] + rest;
      assert tokens[1..] == rest;
      ChildIndexIs(n.children, Label(c), i);
      assert Stored(n, tokens) == r.index;
      assert Match(lib, tokens, url, pos, params) == Some(r.params);
    }
  }

  lemma KeyIsChar(url: string, pos: nat, c: Node)
    requires pos < |url| && Proper(c) && c.param == MAX
    ensures url[pos..pos + 1] == c.key <==> url[pos] == c.key[0]
  {
    assert url[pos..pos + 1] == [url[pos]];
  }

  /** find is complete and minimal: every stored token list that matches bounds the result. */
  lemma {:induction false} FindMinimal(lib: Numerals, url: string, n: Node, pos: nat, params: Params,
      tokens: seq<Token>)
    requires WellFormed(n) && pos <= |url|
    requires Stored(n, tokens) != 0 && Match(lib, tokens, url, pos, params).Some?
    ensures AtLeast(Find(lib, url, n, pos, params), Found(Stored(n, tokens), params))
    decreases |tokens|
  {
    if tokens != [] {
      FindInIsBest(lib, url, n.children, pos, params, Nothing);
      var k := ChildIndex(n.children, tokens[0]);
      var c := n.children[k];
      if c.param != MAX {
        var m := ScanParam(lib, c.param, url, pos).value;
        FindMinimal(lib, url, c, m.end, Push(params, m.value), tokens[1..]);
      } else {
        KeyIsChar(url, pos, c);
        FindMinimal(lib, url, c, pos + 1, params, tokens[1..]);
      }
    }
  }

  // ---- building a trie from a list of rules

  const EmptyTrie := Node(0, INVALID_BP_ID, "", MAX, [])

  predicate GoodRules(rules: seq<Rule>) {
    forall i :: 0 <= i < |rules| ==> rules[i].index != 0 && GoodTokens(rules[i].tokens)
  }

  /** add every rule in turn; None when one of them finds its token list already taken. */
  function Build(rules: seq<Rule>): Option<Node> {
    if rules == [] then Some(EmptyTrie)
    else
      var r := rules[|rules| - 1];
      match Build(rules[..|rules| - 1])
      case None => None
      case Some(n) => if Stored(n, r.tokens) != 0 then None else Some(Insert(n, r.tokens, r.index))
  }

  predicate DistinctTokens(rules: seq<Rule>) {
    forall i, j :: 0 <= i < j < |rules| ==> rules[i].tokens != rules[j].tokens
  }

  /** What is stored under a token list after adding the rules: the index of the rule that has it. */
  function IndexOf(rules: seq<Rule>, tokens: seq<Token>): RuleIndex {
    if rules == [] then 0
    else if rules[|rules| - 1].tokens == tokens then rules[|rules| - 1].index
    else IndexOf(rules[..|rules| - 1], tokens)
  }

  lemma {:induction false} IndexOfIsRule(rules: seq<Rule>, tokens: seq<Token>)
    requires GoodRules(rules)
    ensures IndexOf(rules, tokens) != 0 <==> exists i :: 0 <= i < |rules| && rules[i].tokens == tokens
    ensures DistinctTokens(rules) ==>
              forall i :: 0 <= i < |rules| && rules[i].tokens == tokens ==> IndexOf(rules, tokens) == rules[i].index
    decreases |rules|
  {
    if rules != [] {
      var init := rules[..|rules| - 1];
      IndexOfIsRule(init, tokens);
      assert forall i :: 0 <= i < |init| ==> init[i] == rules[i];
    }
  }

  /** Adding succeeds exactly when no two rules have the same tokens, and stores every rule. */
  lemma {:induction false} BuildStores(rules: seq<Rule>)
    requires GoodRules(rules)
    ensures Build(rules).Some? <==> DistinctTokens(rules)
    ensures Build(rules).Some? ==> WellFormed(Build(rules).value)
    ensures Build(rules).Some? ==> forall tokens :: Stored(Build(rules).value, tokens) == IndexOf(rules, tokens)
    decreases |rules|
  {
    if rules != [] {
      var init, r := rules[..|rules| - 1], rules[|rules| - 1];
      BuildStores(init);
      IndexOfIsRule(init, r.tokens);
      LastDistinct(rules);
      if Build(rules).Some? {
        var n := Build(init).value;
        InsertWellFormed(n, r.tokens, r.index);
        forall tokens ensures Stored(Build(rules).value, tokens) == IndexOf(rules, tokens) {
          StoredInsert(n, r.tokens, r.index, tokens);
        }
      }
    }
  }

  lemma LastDistinct(rules: seq<Rule>)
    requires rules != []
    ensures var init, r := rules[..|rules| - 1], rules[|rules| - 1];
            DistinctTokens(rules) <==>
            DistinctTokens(init) && !(exists i :: 0 <= i < |init| && init[i].tokens == r.tokens)
  {
    var init := rules[..|rules| - 1];
    assert forall i :: 0 <= i < |init| ==> init[i] == rules[i];
  }

  /** Nothing matches or the scan returns a matching rule, the smallest of all. */
  lemma {:induction false} LinearScanIsBest(lib: Numerals, rules: seq<Rule>, url: string)
    requires GoodRules(rules)
    ensures var r := LinearScan(lib, rules, url);
            && (r == Nothing ||
                exists i :: 0 <= i < |rules| && r.index == rules[i].index &&
                  Match(lib, rules[i].tokens, url, 0, NoParams) == Some(r.params))
            && (forall i :: 0 <= i < |rules| && Match(lib, rules[i].tokens, url, 0, NoParams).Some? ==>
                  AtLeast(r, Found(rules[i].index, NoParams)))
    decreases |rules|
  {
    if rules != [] {
      var init := rules[..|rules| - 1];
      LinearScanIsBest(lib, init, url);
      assert forall i :: 0 <= i < |init| ==> init[i] == rules[i];
    }
  }

  /** The trie answers every URL with the rule index of the linear scan over the rules it was built
      from, and 0 when none matches. */
  lemma TrieRefinesLinearScan(lib: Numerals, rules: seq<Rule>, url: string)
    requires GoodRules(rules) && Build(rules).Some?
    ensures Find(lib, url, Build(rules).value, 0, NoParams).index == LinearScan(lib, rules, url).index
  {
    var n := Build(rules).value;
    var a, b := Find(lib, url, n, 0, NoParams), LinearScan(lib, rules, url);
    BuildStores(rules);
    LinearScanIsBest(lib, rules, url);
    if a.index != 0 {
      FoundIsRule(lib, rules, url);
      var i :| 0 <= i < |rules| && rules[i].index == a.index &&
          Match(lib, rules[i].tokens, url, 0, NoParams) == Some(a.params);
      assert AtLeast(b, Found(rules[i].index, NoParams));
    }
    if b.index != 0 {
      var i :| 0 <= i < |rules| && b.index == rules[i].index &&
          Match(lib, rules[i].tokens, url, 0, NoParams) == Some(b.params);
      IndexOfIsRule(rules, rules[i].tokens);
      FindMinimal(lib, url, n, 0, NoParams, rules[i].tokens);
    }
  }

  /** A found index is that of a rule matching the URL with the found parameters. */
  lemma FoundIsRule(lib: Numerals, rules: seq<Rule>, url: string)
    requires GoodRules(rules) && Build(rules).Some?
    ensures var a := Find(lib, url, Build(rules).value, 0, NoParams);
            a.index != 0 ==>
              exists i :: 0 <= i < |rules| && rules[i].index == a.index &&
                Match(lib, rules[i].tokens, url, 0, NoParams) == Some(a.params)
  {
    var n := Build(rules).value;
    var a := Find(lib, url, n, 0, NoParams);
    if a.index != 0 {
      BuildStores(rules);
      FindSound(lib, url, n, 0, NoParams);
      var tokens :| Stored(n, tokens) == a.index && Match(lib, tokens, url, 0, NoParams) == Some(a.params);
      IndexOfIsRule(rules, tokens);
      var i :| 0 <= i < |rules| && rules[i].tokens == tokens;
      assert rules[i].index == a.index;
    }
  }

  predicate DistinctIndices(rules: seq<Rule>) {
    forall i, j :: 0 <= i < j < |rules| ==> rules[i].index != rules[j].index
  }

  /** When no two rules share an index the parameters agree as well. */
  lemma TrieRefinesLinearScanWithParams(lib: Numerals, rules: seq<Rule>, url: string)
    requires GoodRules(rules) && Build(rules).Some? && DistinctIndices(rules)
    ensures Find(lib, url, Build(rules).value, 0, NoParams) == LinearScan(lib, rules, url)
  {
    var a, b := Find(lib, url, Build(rules).value, 0, NoParams), LinearScan(lib, rules, url);
    TrieRefinesLinearScan(lib, rules, url);
    LinearScanIsBest(lib, rules, url);
    if a.index != 0 {
      FoundIsRule(lib, rules, url);
      var i :| 0 <= i < |rules| && rules[i].index == a.index &&
          Match(lib, rules[i].tokens, url, 0, NoParams) == Some(a.params);
      var j :| 0 <= j < |rules| && b.index == rules[j].index &&
          Match(lib, rules[j].tokens, url, 0, NoParams) == Some(b.params);
      assert i == j;
    } else if url != "" {
      FindInIsBest(lib, url, Build(rules).value.children, 0, NoParams, Nothing);
      NothingHasNoParams(lib, url, Build(rules).value.children, 0, NoParams, Nothing);
    }
  }

  lemma {:induction false} NothingHasNoParams(lib: Numerals, url: string, children: seq<Node>, pos: nat,
      params: Params, best: Found)
    requires pos < |url| && (best.index == 0 ==> best == Nothing)
    ensures var r := FindIn(lib, url, children, pos, params, best); r.index == 0 ==> r == Nothing
    decreases |children|
  {
    if children != [] {
      var next := Update(best, TryChild(lib, url, children[0], pos, params));
      NothingHasNoParams(lib, url, children[1..], pos, params, next);
    }
  }

  // ---------------------------------------------------------------- merging chains of nodes

  predicate IsSimpleNode(n: Node) {
    && n.ruleIndex == 0 && n.blueprint == INVALID_BP_ID && |n.children| < 2 && n.param == MAX
    && forall i :: 0 <= i < |n.children| ==> n.children[i].param == MAX
  }

  /** A simple node takes over the key, the rule and the children of its only child. */
  function Merged(n: Node): Node
    requires |n.children| == 1
  {
    var c := n.children[0];
    Node(c.ruleIndex, c.blueprint, n.key + c.key, n.param, c.children)
  }

  function OptimizeNode(n: Node): Node
    decreases n.children, 1
  {
    if n.children == [] then n
    else if IsSimpleNode(n) then OptimizeNode(Merged(n))
    else n.(children := OptimizeAll(n.children))
  }

  function OptimizeAll(ns: seq<Node>): (r: seq<Node>)
    ensures |r| == |ns|
    decreases ns, 0
  {
    if ns == [] then [] else [OptimizeNode(ns[0])] + OptimizeAll(ns[1..])
  }

  function Optimize(head: Node): Node {
    head.(children := OptimizeAll(head.children))
  }

  /** The same rule, and the same parameters when there is one. */
  predicate Agree(a: Found, b: Found) {
    a.index == b.index && (a.index != 0 ==> a == b)
  }

  /** Text edges below n are not empty. */
  predicate TextKeys(n: Node) {
    forall i :: 0 <= i < |n.children| ==>
      (n.children[i].param == MAX ==> n.children[i].key != "") && TextKeys(n.children[i])
  }

  lemma {:induction false} WellFormedHasTextKeys(n: Node)
    requires WellFormed(n)
    ensures TextKeys(n)
  {
    forall i | 0 <= i < |n.children| ensures TextKeys(n.children[i]) {
      WellFormedHasTextKeys(n.children[i]);
    }
  }

  lemma FindSingle(lib: Numerals, url: string, n: Node, c: Node, pos: nat, params: Params)
    requires pos < |url| && n.children == [c]
    ensures Find(lib, url, n, pos, params) == Update(Nothing, TryChild(lib, url, c, pos, params))
  {
    assert n.children[1..] == [];
    assert FindIn(lib, url, [], pos, params, Update(Nothing, TryChild(lib, url, c, pos, params))) ==
           Update(Nothing, TryChild(lib, url, c, pos, params));
  }

  predicate KeyAt(url: string, pos: nat, key: string) {
    pos + |key| <= |url| && url[pos..pos + |key|] == key
  }

  lemma KeyAtConcat(url: string, pos: nat, a: string, b: string)
    ensures KeyAt(url, pos, a + b) <==> KeyAt(url, pos, a) && KeyAt(url, pos + |a|, b)
  {
    var mid, end := pos + |a|, pos + |a + b|;
    if end <= |url| {
      assert url[pos..end] == url[pos..mid] + url[mid..end];
      if KeyAt(url, pos, a + b) {
        assert url[pos..mid] == (a + b)[..|a|] && url[mid..end] == (a + b)[|a|..];
      }
    }
  }

  /** Merging two nodes does not change what a search through them finds. */
  lemma MergedAgrees(lib: Numerals, url: string, n: Node, pos: nat, params: Params)
    requires pos < |url| && IsSimpleNode(n) && |n.children| == 1 && n.children[0].key != ""
    ensures Agree(TryChild(lib, url, n, pos, params), TryChild(lib, url, Merged(n), pos, params))
  {
    var c := n.children[0];
    var mid := pos + |n.key|;
    KeyAtConcat(url, pos, n.key, c.key);
    if mid < |url| && KeyAt(url, pos, n.key) {
      FindSingle(lib, url, n, c, mid, params);
      FindDependsOnRuleAndChildren(lib, url, c, Merged(n), mid + |c.key|, params);
    }
  }

  lemma FindDependsOnRuleAndChildren(lib: Numerals, url: string, a: Node, b: Node, pos: nat, params: Params)
    requires a.ruleIndex == b.ruleIndex && a.children == b.children
    ensures pos <= |url| ==> Find(lib, url, a, pos, params) == Find(lib, url, b, pos, params)
  {
  }

  lemma {:induction false} OptimizedAgrees(lib: Numerals, url: string, n: Node, pos: nat, params: Params)
    requires pos < |url| && TextKeys(n)
    ensures Agree(TryChild(lib, url, n, pos, params), TryChild(lib, url, OptimizeNode(n), pos, params))
    decreases n.children, 1
  {
    if n.children == [] {
    } else if IsSimpleNode(n) {
      MergedAgrees(lib, url, n, pos, params);
      OptimizedAgrees(lib, url, Merged(n), pos, params);
    } else {
      var m := OptimizeNode(n);
      forall q: nat, ps | q <= |url| ensures Agree(Find(lib, url, n, q, ps), Find(lib, url, m, q, ps)) {
        if q < |url| {
          OptimizedAllAgrees(lib, url, n.children, q, ps, Nothing, Nothing);
        }
      }
    }
  }

  lemma {:induction false} OptimizedAllAgrees(lib: Numerals, url: string, ns: seq<Node>, pos: nat, params: Params,
      a: Found, b: Found)
    requires pos < |url| && Agree(a, b) && forall i :: 0 <= i < |ns| ==> TextKeys(ns[i])
    ensures Agree(FindIn(lib, url, ns, pos, params, a), FindIn(lib, url, OptimizeAll(ns), pos, params, b))
    decreases ns, 0
  {
    if ns != [] {
      OptimizedAgrees(lib, url, ns[0], pos, params);
      assert OptimizeAll(ns)[1..] == OptimizeAll(ns[1..]);
      OptimizedAllAgrees(lib, url, ns[1..], pos, params, Update(a, TryChild(lib, url, ns[0], pos, params)),
                         Update(b, TryChild(lib, url, OptimizeNode(ns[0]), pos, params)));
    }
  }

  /** optimize changes neither the rule index nor the parameters that find returns. */
  lemma OptimizePreservesFind(lib: Numerals, url: string, head: Node)
    requires WellFormed(head)
    ensures Find(lib, url, Optimize(head), 0, NoParams) == Find(lib, url, head, 0, NoParams)
  {
    WellFormedHasTextKeys(head);
    if url != "" {
      OptimizedAllAgrees(lib, url, head.children, 0, NoParams, Nothing, Nothing);
      NothingHasNoParams(lib, url, head.children, 0, NoParams, Nothing);
      NothingHasNoParams(lib, url, Optimize(head).children, 0, NoParams, Nothing);
    }
  }

  /** The trie a router searches after validate(): still the linear scan over the added rules. */
  lemma OptimizedTrieRefinesLinearScan(lib: Numerals, rules: seq<Rule>, url: string)
    requires GoodRules(rules) && Build(rules).Some?
    ensures Find(lib, url, Optimize(Build(rules).value), 0, NoParams).index == LinearScan(lib, rules, url).index
    ensures DistinctIndices(rules) ==>
              Find(lib, url, Optimize(Build(rules).value), 0, NoParams) == LinearScan(lib, rules, url)
  {
    BuildStores(rules);
    OptimizePreservesFind(lib, url, Build(rules).value);
    TrieRefinesLinearScan(lib, rules, url);
    if DistinctIndices(rules) {
      TrieRefinesLinearScanWithParams(lib, rules, url);
    }
  }
}

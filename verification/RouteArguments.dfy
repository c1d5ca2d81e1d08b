/** From a matched URL to handler arguments: the parameter tag of crow/utility.h encodes the
    placeholder types of a rule in base 6, the handler's argument types are read back from it, and
    the arguments are picked from the four value vectors by per-type counters. */
module RouteArguments {
  import opened Sequences
  import opened RouteTrie
  import opened Router

  // ---------------------------------------------------------------- the tag

  /** The argument types of a handler. */
  datatype ArgType = Int64 | Uint64 | Double | Text

  function Digit6(t: ParamType): (d: nat)
    requires t != MAX
    ensures 1 <= d <= 5
  {
    match t
    case INT => 1
    case UINT => 2
    case DOUBLE => 3
    case STRING => 4
    case PATH => 5
  }

  function ArgOf(t: ParamType): ArgType
    requires t != MAX
  {
    match t
    case INT => Int64
    case UINT => Uint64
    case DOUBLE => Double
    case STRING => Text
    case PATH => Text
  }

  /** single_tag_to_type: defined for the digits 1 to 5. */
  function TypeOfDigit(d: nat): Option<ArgType> {
    match d
    case 1 => Some(Int64)
    case 2 => Some(Uint64)
    case 3 => Some(Double)
    case 4 => Some(Text)
    case 5 => Some(Text)
    case _ => None
  }

  const TWO64 := 0x1_0000_0000_0000_0000

  /** Arithmetic on uint64_t. */
  function Wrap(x: nat): nat {
    x % TWO64
  }

  /** The placeholder types of a rule, in order. */
  function TypesOf(tokens: seq<Token>): (r: seq<ParamType>)
    requires GoodTokens(tokens)
    ensures MAX !in r
  {
    if tokens == [] then []
    else if tokens[0].Placeholder? then [tokens[0].t] + TypesOf(tokens[1..])
    else TypesOf(tokens[1..])
  }

  /** The tag as an unbounded number: the first placeholder is the lowest digit. */
  function Tag(types: seq<ParamType>): nat
    requires MAX !in types
  {
    if types == [] then 0 else Tag(types[1..]) * 6 + Digit6(types[0])
  }

  function FindClosingTag(s: string, p: nat): (q: nat)
    requires p <= |s|
    ensures p <= q <= |s| && (q < |s| ==> s[q] == '>')
    ensures forall i :: p <= i < q ==> s[i] != '>'
    decreases |s| - p
  {
    if p == |s| || s[p] == '>' then p else FindClosingTag(s, p + 1)
  }

  /** get_parameter_tag, in 64-bit arithmetic; None for an unknown placeholder. */
  function GetParameterTag(s: string, p: nat): Option<nat>
    requires p <= |s|
    decreases |s| - p
  {
    if p == |s| then Some(0)
    else if s[p] == '<' then
      match PlaceholderAt(s, p)
      case None => None
      case Some(name) =>
        match GetParameterTag(s, FindClosingTag(s, p))
        case None => None
        case Some(rest) => Some(Wrap(rest * 6 + Digit6(name.t)))
    else GetParameterTag(s, p + 1)
  }

  /** arguments<Tag>: the types read back from the tag, lowest digit first. */
  function ArgumentsOf(tag: nat): Option<seq<ArgType>> {
    if tag == 0 then Some([])
    else
      match (TypeOfDigit(tag % 6), ArgumentsOf(tag / 6))
      case (Some(t), Some(rest)) => Some([t] + rest)
      case _ => None
  }

  function ArgsOf(types: seq<ParamType>): (r: seq<ArgType>)
    requires MAX !in types
    ensures |r| == |types|
  {
    if types == [] then [] else [ArgOf(types[0])] + ArgsOf(types[1..])
  }

  function Pow6(n: nat): nat {
    if n == 0 then 1 else 6 * Pow6(n - 1)
  }

  lemma {:induction false} TagBound(types: seq<ParamType>)
    requires MAX !in types
    ensures Tag(types) < Pow6(|types|)
    decreases |types|
  {
    if types != [] {
      TagBound(types[1..]);
    }
  }

  lemma Pow6Fits(n: nat)
    requires n <= 24
    ensures Pow6(n) < TWO64
  {
    assert Pow6(4) == 1296;
    assert Pow6(8) == 1296 * 1296;
    assert Pow6(12) == 1679616 * 1296;
    assert Pow6(16) == 2176782336 * 1296;
    assert Pow6(20) == 2821109907456 * 1296;
    assert Pow6(24) == 3656158440062976 * 1296;
    Pow6Monotone(n, 24);
  }

  lemma {:induction false} Pow6Monotone(m: nat, n: nat)
    requires m <= n
    ensures Pow6(m) <= Pow6(n)
    decreases n - m
  {
    if m < n {
      Pow6Monotone(m, n - 1);
    }
  }

  /** Reading back undoes encoding, as long as nothing was cut off. */
  lemma {:induction false} ArgumentsOfTag(types: seq<ParamType>)
    requires MAX !in types
    ensures ArgumentsOf(Tag(types)) == Some(ArgsOf(types))
    decreases |types|
  {
    if types != [] {
      ArgumentsOfTag(types[1..]);
      var rest, d := Tag(types[1..]), Digit6(types[0]);
      assert (rest * 6 + d) % 6 == d && (rest * 6 + d) / 6 == rest;
    }
  }

  // ---- the tag computed from the rule text

  /** The closing bracket of a known placeholder is its last character. */
  lemma ClosingTagOf(s: string, i: nat)
    requires PlaceholderAt(s, i).Some?
    ensures i + PlaceholderAt(s, i).value.len <= |s|
    ensures FindClosingTag(s, i) == i + PlaceholderAt(s, i).value.len - 1
  {
  }

  lemma TagAtPlaceholder(s: string, p: nat)
    requires p < |s| && s[p] == '<' && PlaceholderAt(s, p).Some?
    ensures var name := PlaceholderAt(s, p).value;
            var rest := GetParameterTag(s, p + name.len);
            rest.Some? ==> GetParameterTag(s, p) == Some(Wrap(rest.value * 6 + Digit6(name.t)))
  {
    var name := PlaceholderAt(s, p).value;
    ClosingTagOf(s, p);
    assert s[p + name.len - 1] == '>';
    assert GetParameterTag(s, p + name.len - 1) == GetParameterTag(s, p + name.len);
  }

  lemma TagOfTokens(t: ParamType, rest: seq<Token>)
    requires GoodTokens(rest) && t != MAX
    ensures TypesOf([Placeholder(t)] + rest) == [t] + TypesOf(rest)
    ensures Tag([t] + TypesOf(rest)) == Tag(TypesOf(rest)) * 6 + Digit6(t)
  {
    assert ([Placeholder(t)] + rest)[1..] == rest;
    assert ([t] + TypesOf(rest))[1..] == TypesOf(rest);
  }

  lemma WrapStep(rest: nat, d: nat)
    ensures Wrap(Wrap(rest) * 6 + d) == Wrap(rest * 6 + d)
  {
    var q, r := rest / TWO64, rest % TWO64;
    assert rest * 6 + d == (r * 6 + d) + (6 * q) * TWO64;
    WrapMultiple(r * 6 + d, 6 * q);
  }

  lemma {:induction false} WrapMultiple(x: nat, k: nat)
    ensures (x + k * TWO64) % TWO64 == x % TWO64
    decreases k
  {
    if k > 0 {
      WrapMultiple(x, k - 1);
      assert x + k * TWO64 == (x + (k - 1) * TWO64) + TWO64;
    }
  }

  lemma TypesOfChar(c: char, rest: seq<Token>)
    requires GoodTokens(rest)
    ensures TypesOf([Char(c)] + rest) == TypesOf(rest)
  {
    assert ([Char(c)] + rest)[1..] == rest;
  }

  /** The tag of a rule text is the base-6 number of its placeholders, cut to 64 bits. */
  lemma {:induction false} TagOfText(s: string, p: nat)
    requires p <= |s| && GoodText(s, p)
    ensures GetParameterTag(s, p) == Some(Wrap(Tag(TypesOf(Tokens(s, p)))))
    decreases |s| - p
  {
    if p == |s| {
    } else if s[p] == '<' {
      var name := PlaceholderAt(s, p).value;
      var rest := Tokens(s, p + name.len);
      TagAtPlaceholder(s, p);
      TagOfText(s, p + name.len);
      TagOfTokens(name.t, rest);
      WrapStep(Tag(TypesOf(rest)), Digit6(name.t));
      assert Tokens(s, p) == [Placeholder(name.t)] + rest;
    } else {
      TagOfText(s, p + 1);
      TypesOfChar(s[p], Tokens(s, p + 1));
      assert Tokens(s, p) == [Char(s[p])] + Tokens(s, p + 1);
    }
  }

  /** Up to 24 placeholders the handler's argument types are those of the placeholders. */
  lemma TagRoundTrip(s: string)
    requires GoodText(s, 0) && (|TypesOf(Tokens(s, 0))| <= 24 || Tag(TypesOf(Tokens(s, 0))) < TWO64)
    ensures GetParameterTag(s, 0).Some?
    ensures ArgumentsOf(GetParameterTag(s, 0).value) == Some(ArgsOf(TypesOf(Tokens(s, 0))))
  {
    TagOfText(s, 0);
    TagFits(TypesOf(Tokens(s, 0)));
    ArgumentsOfTag(TypesOf(Tokens(s, 0)));
  }

  lemma TagFits(types: seq<ParamType>)
    requires MAX !in types && (|types| <= 24 || Tag(types) < TWO64)
    ensures Wrap(Tag(types)) == Tag(types)
  {
    TagBound(types);
    if |types| <= 24 {
      Pow6Fits(|types|);
    }
  }

  lemma Pow6Of25()
    ensures Pow6(25) == 28430288029929701376 && TWO64 < Pow6(25) < 2 * TWO64
  {
    assert Pow6(4) == 1296;
    assert Pow6(8) == 1296 * 1296;
    assert Pow6(12) == 1679616 * 1296;
    assert Pow6(16) == 2176782336 * 1296;
    assert Pow6(20) == 2821109907456 * 1296;
    assert Pow6(24) == 3656158440062976 * 1296;
  }

  /** A tag has no more types than digits. */
  lemma {:induction false} ArgumentsBound(tag: nat, n: nat)
    requires tag < Pow6(n) && ArgumentsOf(tag).Some?
    ensures |ArgumentsOf(tag).value| <= n
    decreases n
  {
    if tag != 0 && n > 0 {
      ArgumentsBound(tag / 6, n - 1);
    }
  }

  /** The lowest digit of a tag decides its first type. */
  lemma FirstArgument(tag: nat, types: seq<ParamType>)
    requires MAX !in types && types != [] && ArgumentsOf(tag) == Some(ArgsOf(types))
    ensures TypeOfDigit(tag % 6) == Some(ArgOf(types[0]))
  {
    assert ArgumentsOf(tag).value[0] == ArgOf(types[0]);
    assert ArgumentsOf(tag).value[0] == TypeOfDigit(tag % 6).value;
  }

  /** A tag that was cut off is never read back right: beyond 25 placeholders digits are missing, and with
      25 the lowest digit has changed by 2 or 4, which changes the type. */
  lemma CutOffIsWrong(types: seq<ParamType>)
    requires MAX !in types && Tag(types) >= TWO64
    ensures ArgumentsOf(Wrap(Tag(types))) != Some(ArgsOf(types))
  {
    var tag := Tag(types);
    Pow6Of25();
    TagBound(types);
    if |types| <= 25 {
      Pow6Monotone(|types|, 25);
      LowestDigit(Tag(types[1..]), Digit6(types[0]));
      if ArgumentsOf(Wrap(tag)) == Some(ArgsOf(types)) {
        FirstArgument(Wrap(tag), types);
      }
    } else if ArgumentsOf(Wrap(tag)).Some? {
      ArgumentsBound(Wrap(tag), 25);
    }
  }

  lemma LowestDigit(rest: nat, d: nat)
    requires 1 <= d <= 5 && TWO64 <= rest * 6 + d < 2 * TWO64
    ensures Wrap(rest * 6 + d) % 6 == (d + 2) % 6
  {
    assert TWO64 == 3074457345618258602 * 6 + 4;
    assert Wrap(rest * 6 + d) == rest * 6 + d - TWO64;
  }

  /** The handler's argument types are those of the placeholders exactly when the tag fits 64 bits. */
  lemma TagRoundTripExactly(s: string)
    requires GoodText(s, 0)
    ensures GetParameterTag(s, 0).Some?
    ensures ArgumentsOf(GetParameterTag(s, 0).value) == Some(ArgsOf(TypesOf(Tokens(s, 0)))) <==>
            Tag(TypesOf(Tokens(s, 0))) < TWO64
  {
    TagOfText(s, 0);
    if Tag(TypesOf(Tokens(s, 0))) < TWO64 {
      TagRoundTrip(s);
    } else {
      CutOffIsWrong(TypesOf(Tokens(s, 0)));
    }
  }

  /** A rule text of n <path> placeholders. */
  function Paths(n: nat): string {
    if n == 0 then "" else "<path>" + Paths(n - 1)
  }

  function PathTokens(n: nat): seq<Token> {
    if n == 0 then [] else [Placeholder(PATH)] + PathTokens(n - 1)
  }

  lemma PathsStep(s: string, i: nat)
    requires i + 6 <= |s| && s[i..i + 6] == "<path>"
    ensures PlaceholderAt(s, i) == Some(Name(PATH, 6)) && s[i] == '<'
    ensures GoodText(s, i) == GoodText(s, i + 6)
    ensures GoodText(s, i) ==> Tokens(s, i) == [Placeholder(PATH)] + Tokens(s, i + 6)
  {
    assert s[i] == "<path>"[0] && s[i + 1] == s[i..i + 6][1] == 'p';
    FirstNames(s, i);
    assert PARAM_TRAITS[6..] == [Trait(PATH, "<path>")];
  }

  /** No other name stands where <path> does. */
  lemma FirstNames(s: string, i: nat)
    requires i + 6 <= |s| && s[i + 1] == 'p'
    ensures TraitAt(PARAM_TRAITS, s, i) == TraitAt(PARAM_TRAITS[6..], s, i)
  {
    SkipName(PARAM_TRAITS, s, i);
    SkipName(PARAM_TRAITS[1..], s, i);
    SkipName(PARAM_TRAITS[2..], s, i);
    SkipName(PARAM_TRAITS[3..], s, i);
    SkipName(PARAM_TRAITS[4..], s, i);
    SkipName(PARAM_TRAITS[5..], s, i);
  }

  lemma SkipName(traits: seq<Trait>, s: string, i: nat)
    requires traits != [] && (forall x :: x in traits ==> GoodTrait(x))
    requires i + 1 < |s| && s[i + 1] == 'p' && |traits[0].name| > 1 && traits[0].name[1] != 'p'
    ensures TraitAt(traits, s, i) == TraitAt(traits[1..], s, i)
  {
    var n := |traits[0].name|;
    if i + n <= |s| {
      assert s[i..i + n][1] == 'p';
    }
  }

  /** The text behind the first k placeholders is read as the others. */
  lemma {:induction false} PathsRead(s: string, i: nat, n: nat)
    requires i <= |s| && s[i..] == Paths(n)
    ensures GoodText(s, i) && Tokens(s, i) == PathTokens(n)
    decreases n
  {
    if n > 0 {
      var rest := Paths(n - 1);
      assert s[i..] == "<path>" + rest;
      assert s[i..i + 6] == s[i..][..6] == "<path>";
      assert s[i + 6..] == s[i..][6..] == rest;
      PathsRead(s, i + 6, n - 1);
      PathsStep(s, i);
    }
  }

  lemma {:induction false} PathTypes(n: nat)
    ensures GoodTokens(PathTokens(n)) && TypesOf(PathTokens(n)) == seq(n, _ => PATH)
  {
    if n > 0 {
      PathTypes(n - 1);
      assert seq(n, _ => PATH) == [PATH] + seq(n - 1, _ => PATH);
    }
  }

  /** The bound is not arbitrary: the rule text of 25 <path> placeholders overflows, and the argument
      types that are read back from its tag are not those of its placeholders. */
  lemma TagOverflow()
    ensures var s := Paths(25);
            && GoodText(s, 0) && TypesOf(Tokens(s, 0)) == seq(25, _ => PATH)
            && Tag(TypesOf(Tokens(s, 0))) == 28430288029929701375
            && GetParameterTag(s, 0) == Some(9983543956220149759)
            && ArgumentsOf(9983543956220149759) != Some(ArgsOf(seq(25, _ => PATH)))
  {
    var s := Paths(25);
    assert s[0..] == s;
    PathsRead(s, 0, 25);
    PathTypes(25);
    TagOfPaths(25);
    Pow6Of25();
    TagOfText(s, 0);
    TagRoundTripExactly(s);
  }

  lemma {:induction false} TagOfPaths(n: nat)
    ensures Tag(seq(n, _ => PATH)) == Pow6(n) - 1
  {
    if n > 0 {
      TagOfPaths(n - 1);
      assert seq(n, _ => PATH)[1..] == seq(n - 1, _ => PATH);
    }
  }

  // ---------------------------------------------------------------- picking the arguments

  function KindOf(v: Value): ArgType {
    match v
    case IntValue(_) => Int64
    case UintValue(_) => Uint64
    case DoubleValue(_) => Double
    case StringValue(_) => Text
  }

  function Kinds(vs: seq<Value>): seq<ArgType> {
    if vs == [] then [] else [KindOf(vs[0])] + Kinds(vs[1..])
  }

  /** The vector index per type. */
  datatype Counters = Counters(ints: nat, uints: nat, doubles: nat, strings: nat)
  {
    function At(t: ArgType): nat {
      match t case Int64 => ints case Uint64 => uints case Double => doubles case Text => strings
    }

    function Bump(t: ArgType): Counters {
      match t
      case Int64 => this.(ints := ints + 1)
      case Uint64 => this.(uints := uints + 1)
      case Double => this.(doubles := doubles + 1)
      case Text => this.(strings := strings + 1)
    }
  }

  function Sizes(p: Params): Counters {
    Counters(|p.ints|, |p.uints|, |p.doubles|, |p.strings|)
  }

  /** routing_params::get<T>(index) */
  function Get(p: Params, t: ArgType, i: nat): Option<Value> {
    match t
    case Int64 => if i < |p.ints| then Some(IntValue(p.ints[i])) else None
    case Uint64 => if i < |p.uints| then Some(UintValue(p.uints[i])) else None
    case Double => if i < |p.doubles| then Some(DoubleValue(p.doubles[i])) else None
    case Text => if i < |p.strings| then Some(StringValue(p.strings[i])) else None
  }

  /** call: walks the argument types with one counter per type and fetches every argument. */
  function Call(types: seq<ArgType>, n: Counters, p: Params): Option<seq<Value>>
    decreases |types|
  {
    if types == [] then Some([])
    else
      match (Get(p, types[0], n.At(types[0])), Call(types[1..], n.Bump(types[0]), p))
      case (Some(v), Some(vs)) => Some([v] + vs)
      case _ => None
  }

  /** The values the placeholders of a rule match, in the order of the rule. */
  function MatchedValues(lib: Numerals, tokens: seq<Token>, url: string, pos: nat): Option<seq<Value>>
    requires pos <= |url|
    decreases |tokens|
  {
    if tokens == [] then if pos == |url| then Some([]) else None
    else if pos == |url| then None
    else
      match tokens[0]
      case Char(c) => if url[pos] == c then MatchedValues(lib, tokens[1..], url, pos + 1) else None
      case Placeholder(t) =>
        match ScanParam(lib, t, url, pos)
        case None => None
        case Some(m) =>
          match MatchedValues(lib, tokens[1..], url, m.end)
          case None => None
          case Some(vs) => Some([m.value] + vs)
  }

  function PushAll(p: Params, vs: seq<Value>): Params
    decreases |vs|
  {
    if vs == [] then p else PushAll(Push(p, vs[0]), vs[1..])
  }

  /** A match fills the four vectors with its values, in order. */
  lemma {:induction false} MatchPushesValues(lib: Numerals, tokens: seq<Token>, url: string, pos: nat, p: Params)
    requires pos <= |url| && GoodTokens(tokens)
    ensures var vs := MatchedValues(lib, tokens, url, pos);
            Match(lib, tokens, url, pos, p) == if vs.Some? then Some(PushAll(p, vs.value)) else None
    ensures var vs := MatchedValues(lib, tokens, url, pos);
            vs.Some? ==> Kinds(vs.value) == ArgsOf(TypesOf(tokens))
    decreases |tokens|
  {
    if tokens != [] && pos < |url| {
      if tokens[0].Char? {
        MatchPushesValues(lib, tokens[1..], url, pos + 1, p);
      } else {
        var m := ScanParam(lib, tokens[0].t, url, pos);
        if m.Some? {
          MatchPushesValues(lib, tokens[1..], url, m.value.end, Push(p, m.value.value));
          var rest := MatchedValues(lib, tokens[1..], url, m.value.end);
          if rest.Some? {
            assert ([m.value.value] + rest.value)[1..] == rest.value;
            assert ([tokens[0].t] + TypesOf(tokens[1..]))[1..] == TypesOf(tokens[1..]);
          }
        }
      }
    }
  }

  predicate Extends(p: Params, q: Params) {
    p.ints <= q.ints && p.uints <= q.uints && p.doubles <= q.doubles && p.strings <= q.strings
  }

  lemma {:induction false} PushAllExtends(p: Params, vs: seq<Value>)
    ensures Extends(p, PushAll(p, vs))
    decreases |vs|
  {
    if vs != [] {
      PushAllExtends(Push(p, vs[0]), vs[1..]);
      assert Extends(p, Push(p, vs[0]));
    }
  }

  lemma GetPushed(p: Params, v: Value, all: Params)
    requires Extends(Push(p, v), all)
    ensures Get(all, KindOf(v), Sizes(p).At(KindOf(v))) == Some(v)
    ensures Sizes(Push(p, v)) == Sizes(p).Bump(KindOf(v))
  {
    match v
    case IntValue(i) => assert Push(p, v).ints[|p.ints|] == i;
    case UintValue(u) => assert Push(p, v).uints[|p.uints|] == u;
    case DoubleValue(d) => assert Push(p, v).doubles[|p.doubles|] == d;
    case StringValue(t) => assert Push(p, v).strings[|p.strings|] == t;
  }

  /** The counters find every value again, in the order in which it was pushed. */
  lemma {:induction false} CallFindsValues(p: Params, vs: seq<Value>)
    ensures Call(Kinds(vs), Sizes(p), PushAll(p, vs)) == Some(vs)
    decreases |vs|
  {
    if vs != [] {
      var q := Push(p, vs[0]);
      CallFindsValues(q, vs[1..]);
      PushAllExtends(q, vs[1..]);
      GetPushed(p, vs[0], PushAll(p, vs));
      assert Kinds(vs)[1..] == Kinds(vs[1..]);
      assert vs == [vs[0]] + vs[1..];
    }
  }

  /** The handler of a rule whose tag fits 64 bits receives, in order, the values its placeholders
      matched. */
  lemma HandlerArguments(lib: Numerals, s: string, url: string)
    requires GoodText(s, 0) && Tag(TypesOf(Tokens(s, 0))) < TWO64
    requires Match(lib, Tokens(s, 0), url, 0, NoParams).Some?
    ensures MatchedValues(lib, Tokens(s, 0), url, 0).Some?
    ensures GetParameterTag(s, 0).Some? && ArgumentsOf(GetParameterTag(s, 0).value).Some?
    ensures Call(ArgumentsOf(GetParameterTag(s, 0).value).value, Counters(0, 0, 0, 0), Match(lib, Tokens(s, 0), url,
            0, NoParams).value) ==
            MatchedValues(lib, Tokens(s, 0), url, 0)
  {
    TagRoundTrip(s);
    MatchPushesValues(lib, Tokens(s, 0), url, 0, NoParams);
    CallFindsValues(NoParams, MatchedValues(lib, Tokens(s, 0), url, 0).value);
  }
}

/** What a rule means for a URL (crow/routing.h), said without the search: the text of a rule is read as its
    fixed characters and its named placeholders, and a URL matches exactly when it is this text with
    arguments put in for the placeholders, each of them what a placeholder of its type may take. */
module RouteFilling {
  import opened Sequences
  import opened RouteTrie
  import opened Router
  import opened RouteArguments

  // ---------------------------------------------------------------- the text of a rule

  /** The type a placeholder name stands for. */
  function TypeNamed(name: string): Option<ParamType> {
    match name
    case "<int>" => Some(INT)
    case "<uint>" => Some(UINT)
    case "<float>" => Some(DOUBLE)
    case "<double>" => Some(DOUBLE)
    case "<str>" => Some(STRING)
    case "<string>" => Some(STRING)
    case "<path>" => Some(PATH)
    case _ => None
  }

  /** A rule is written as fixed text and named placeholders. */
  datatype Piece = Fixed(text: string) | Hole(name: string)

  predicate GoodPiece(p: Piece) {
    match p
    case Fixed(text) => '<' !in text && '\0' !in text
    case Hole(name) => TypeNamed(name).Some?
  }

  predicate GoodPieces(pieces: seq<Piece>) {
    forall i :: 0 <= i < |pieces| ==> GoodPiece(pieces[i])
  }

  function Written(pieces: seq<Piece>): string {
    if pieces == [] then ""
    else (if pieces[0].Fixed? then pieces[0].text else pieces[0].name) + Written(pieces[1..])
  }

  function Chars(text: string): seq<Token> {
    seq(|text|, i requires 0 <= i < |text| => Char(text[i]))
  }

  function PieceTokens(pieces: seq<Piece>): seq<Token>
    requires GoodPieces(pieces)
  {
    if pieces == [] then []
    else
      assert GoodPiece(pieces[0]);
      match pieces[0]
      case Fixed(text) => Chars(text) + PieceTokens(pieces[1..])
      case Hole(name) => [Placeholder(TypeNamed(name).value)] + PieceTokens(pieces[1..])
  }

  predicate Stands(x: Trait, s: string, i: nat) {
    i + |x.name| <= |s| && s[i..i + |x.name|] == x.name
  }

  /** A name has its only '>' at its end, so two names that stand at the same place are the same. */
  lemma OneNameStands(x: Trait, y: Trait, s: string, i: nat)
    requires GoodTrait(x) && GoodTrait(y) && Stands(x, s, i) && Stands(y, s, i)
    ensures x.name == y.name
  {
    StandingName(x, s, i);
    StandingName(y, s, i);
    assert |x.name| == |y.name|;
  }

  lemma StandingName(x: Trait, s: string, i: nat)
    requires GoodTrait(x) && Stands(x, s, i)
    ensures NameAt(s, i, Name(x.t, |x.name|))
  {
    assert forall k :: i <= k < i + |x.name| ==> s[k] == x.name[k - i];
  }

  lemma {:induction false} TraitFound(traits: seq<Trait>, s: string, i: nat, k: nat)
    requires forall x :: x in traits ==> GoodTrait(x)
    requires k < |traits| && forall j :: 0 <= j < k ==> traits[j].name != traits[k].name
    requires Stands(traits[k], s, i)
    ensures TraitAt(traits, s, i) == Some(Name(traits[k].t, |traits[k].name|))
    decreases k
  {
    if k > 0 {
      assert forall j :: 0 <= j < k - 1 ==> traits[1..][j].name != traits[1..][k - 1].name;
      TraitFound(traits[1..], s, i, k - 1);
      if Stands(traits[0], s, i) {
        OneNameStands(traits[0], traits[k], s, i);
      }
    }
  }

  /** Where a placeholder name stands, its type is found. */
  lemma NameFound(s: string, i: nat, name: string)
    requires TypeNamed(name).Some? && i + |name| <= |s| && s[i..i + |name|] == name
    ensures PlaceholderAt(s, i) == Some(Name(TypeNamed(name).value, |name|)) && |name| > 0 && s[i] == '<'
  {
    var k := RowOf(name);
    assert s[i] == s[i..i + |name|][0] == name[0];
    NamesDiffer();
    TraitFound(PARAM_TRAITS, s, i, k);
  }

  lemma RowOf(name: string) returns (k: nat)
    requires TypeNamed(name).Some?
    ensures k < |PARAM_TRAITS| && PARAM_TRAITS[k] == Trait(TypeNamed(name).value, name) && |name| > 0 && name[0] == '<'
  {
    k := match name
      case "<int>" => 0
      case "<uint>" => 1
      case "<float>" => 2
      case "<double>" => 3
      case "<str>" => 4
      case "<string>" => 5
      case _ => 6;
  }

  lemma NamesDiffer()
    ensures forall j, k :: 0 <= j < k < |PARAM_TRAITS| ==> PARAM_TRAITS[j].name != PARAM_TRAITS[k].name
  {
    forall j, k | 0 <= j < k < |PARAM_TRAITS|
      ensures PARAM_TRAITS[j].name != PARAM_TRAITS[k].name
    {
      var x, y := PARAM_TRAITS[j].name, PARAM_TRAITS[k].name;
      assert x[1] != y[1] || |x| != |y|;
    }
  }

  /** Where a placeholder is found, it has a name. */
  lemma {:induction false} FoundIsNamed(traits: seq<Trait>, s: string, i: nat)
    requires forall x :: x in traits ==> GoodTrait(x) && TypeNamed(x.name) == Some(x.t)
    ensures var r := TraitAt(traits, s, i);
            r.Some? ==> TypeNamed(s[i..i + r.value.len]) == Some(r.value.t)
    decreases |traits|
  {
    if traits != [] && !Stands(traits[0], s, i) {
      FoundIsNamed(traits[1..], s, i);
    }
  }

  lemma FoundHasName(s: string, i: nat)
    requires PlaceholderAt(s, i).Some?
    ensures var n := PlaceholderAt(s, i).value.len; i + n <= |s| && TypeNamed(s[i..i + n]).Some?
  {
    hide TraitAt, TypeNamed, GoodTrait;
    TableNamed();
    GoodTable();
    FoundIsNamed(PARAM_TRAITS, s, i);
  }

  lemma GoodTable()
    ensures forall x :: x in PARAM_TRAITS ==> GoodTrait(x)
  {
  }

  lemma TableNamed()
    ensures forall x :: x in PARAM_TRAITS ==> TypeNamed(x.name) == Some(x.t)
  {
    NamesDiffer();
    forall k | 0 <= k < |PARAM_TRAITS|
      ensures TypeNamed(PARAM_TRAITS[k].name) == Some(PARAM_TRAITS[k].t)
    {
      assert forall j :: 0 <= j < k ==> PARAM_TRAITS[j].name != PARAM_TRAITS[k].name;
    }
  }

  /** The text of a rule is read as its pieces. */
  lemma {:induction false} WrittenRead(s: string, i: nat, pieces: seq<Piece>)
    requires GoodPieces(pieces) && i <= |s| && s[i..] == Written(pieces)
    ensures GoodText(s, i) && Tokens(s, i) == PieceTokens(pieces)
    decreases |pieces|
  {
    hide PlaceholderAt, TypeNamed, Chars, GoodText, Tokens, At;
    if pieces != [] {
      var rest := pieces[1..];
      assert GoodPiece(pieces[0]);
      match pieces[0]
      case Fixed(text) =>
        assert s[i + |text|..] == s[i..][|text|..] == Written(rest);
        WrittenRead(s, i + |text|, rest);
        AtRest(s, i, text, Written(rest));
        FixedRead(s, i, text);
      case Hole(name) =>
        assert s[i..i + |name|] == s[i..][..|name|] == name;
        assert s[i + |name|..] == s[i..][|name|..] == Written(rest);
        WrittenRead(s, i + |name|, rest);
        HoleRead(s, i, name);
    } else {
      EndRead(s, i);
    }
  }

  lemma {:induction false} FixedRead(s: string, i: nat, text: string)
    requires At(s, i, text) && '<' !in text && '\0' !in text && GoodText(s, i + |text|)
    ensures GoodText(s, i) && Tokens(s, i) == Chars(text) + Tokens(s, i + |text|)
    decreases |text|
  {
    hide GoodText, Tokens, At;
    if text == "" {
      assert Chars(text) == [];
    } else {
      AtFirst(s, i, text);
      FixedRead(s, i + 1, text[1..]);
      CharRead(s, i);
      assert Chars(text) == [Char(text[0])] + Chars(text[1..]);
    }
  }

  lemma EndRead(s: string, i: nat)
    requires i <= |s| && s[i..] == ""
    ensures GoodText(s, i) && Tokens(s, i) == []
  {
  }

  lemma AtRest(s: string, i: nat, text: string, after: string)
    requires i <= |s| && s[i..] == text + after
    ensures At(s, i, text)
  {
    assert forall k :: 0 <= k < |text| ==> s[i + k] == s[i..][k] == text[k];
  }

  lemma CharRead(s: string, i: nat)
    requires i < |s| && s[i] != '<' && s[i] != '\0' && GoodText(s, i + 1)
    ensures GoodText(s, i) && Tokens(s, i) == [Char(s[i])] + Tokens(s, i + 1)
  {
  }

  lemma HoleRead(s: string, i: nat, name: string)
    requires i + |name| <= |s| && s[i..i + |name|] == name && TypeNamed(name).Some? && GoodText(s, i + |name|)
    ensures GoodText(s, i) && Tokens(s, i) == [Placeholder(TypeNamed(name).value)] + Tokens(s, i + |name|)
  {
    hide PlaceholderAt, TypeNamed;
    NameFound(s, i, name);
  }

  lemma AtFirst(s: string, i: nat, text: string)
    requires text != "" && At(s, i, text)
    ensures i < |s| && s[i] == text[0] && At(s, i + 1, text[1..])
  {
    assert text == [text[0]] + text[1..];
    AtConcat(s, i, [text[0]], text[1..]);
    AtOne(s, i, text[0]);
  }

  /** The texts that `add` takes are exactly those written with fixed text and named placeholders. */
  lemma {:induction false} TextHasPieces(s: string, i: nat) returns (pieces: seq<Piece>)
    requires i <= |s| && GoodText(s, i)
    ensures GoodPieces(pieces) && Written(pieces) == s[i..]
    decreases |s| - i
  {
    hide PlaceholderAt, TypeNamed;
    if i == |s| {
      pieces := [];
    } else if s[i] == '<' {
      var n := PlaceholderAt(s, i).value.len;
      FoundHasName(s, i);
      var rest := TextHasPieces(s, i + n);
      pieces := [Hole(s[i..i + n])] + rest;
      assert s[i..] == s[i..i + n] + s[i + n..];
    } else {
      var rest := TextHasPieces(s, i + 1);
      pieces := [Fixed([s[i]])] + rest;
      assert s[i..] == [s[i]] + s[i + 1..];
    }
  }

  lemma GoodTextExactly(s: string)
    ensures GoodText(s, 0) <==> exists pieces :: GoodPieces(pieces) && Written(pieces) == s
  {
    assert s[0..] == s;
    if GoodText(s, 0) {
      var pieces := TextHasPieces(s, 0);
    } else if pieces :| GoodPieces(pieces) && Written(pieces) == s {
      WrittenRead(s, 0, pieces);
    }
  }

  /** The digit that each placeholder has in a parameter tag. */
  function TagDigit(name: string): nat {
    match name
    case "<int>" => 1
    case "<uint>" => 2
    case "<float>" => 3
    case "<double>" => 3
    case "<str>" => 4
    case "<string>" => 4
    case _ => 5
  }

  function TypeOfArgument(t: ParamType): ArgType {
    match t
    case INT => Int64
    case UINT => Uint64
    case DOUBLE => Double
    case _ => Text
  }

  /** The tag of one placeholder is its digit, and its handler takes one argument of its type. */
  lemma TagOfName(name: string)
    requires TypeNamed(name).Some?
    ensures GetParameterTag(name, 0) == Some(TagDigit(name))
    ensures ArgumentsOf(TagDigit(name)) == Some([TypeOfArgument(TypeNamed(name).value)])
  {
    hide PlaceholderAt, GetParameterTag, Tokens;
    var t := TypeNamed(name).value;
    assert Written([Hole(name)]) == name + Written([Hole(name)][1..]) == name;
    assert name[0..] == name;
    WrittenRead(name, 0, [Hole(name)]);
    assert PieceTokens([Hole(name)]) == [Placeholder(t)] + PieceTokens([Hole(name)][1..]) == [Placeholder(t)];
    TagOfText(name, 0);
    TagOfTokens(t, []);
    assert [Placeholder(t)] + [] == [Placeholder(t)];
    assert [t] + [] == [t];
    OneDigit(TagDigit(name));
  }

  lemma OneDigit(d: nat)
    requires 0 < d < 6 && TypeOfDigit(d).Some?
    ensures ArgumentsOf(d) == Some([TypeOfDigit(d).value])
  {
    assert d % 6 == d && d / 6 == 0;
    assert ArgumentsOf(0) == Some([]);
    assert [TypeOfDigit(d).value] + [] == [TypeOfDigit(d).value];
  }

  // ---------------------------------------------------------------- what a placeholder takes

  /** An argument: what stands in the URL for a placeholder, and its value. */
  datatype Argument = Argument(text: string, value: Value)

  /** A number scanner takes the whole text when `after` follows it. */
  predicate Scanned<V>(scan: string -> Scan<V>, text: string, after: string) {
    var s := scan(text + after);
    !s.rangeError && 0 < s.used && |text| == Min(s.used, |text + after|)
  }

  /** What a placeholder takes when `after` follows in the URL: a string is a whole segment, a path is all
      the rest, a number is what the scanner takes from a digit or sign on. */
  predicate Taken(lib: Numerals, t: ParamType, a: Argument, after: string) {
    a.text != "" &&
    match t
    case INT =>
      (Digit(a.text[0]) || a.text[0] in "+-") && Scanned(lib.strtoll, a.text, after) &&
      a.value == IntValue(lib.strtoll(a.text + after).value)
    case UINT =>
      (Digit(a.text[0]) || a.text[0] == '+') && Scanned(lib.strtoull, a.text, after) &&
      a.value == UintValue(lib.strtoull(a.text + after).value)
    case DOUBLE =>
      (Digit(a.text[0]) || a.text[0] in "+-.") && Scanned(lib.strtod, a.text, after) &&
      a.value == DoubleValue(lib.strtod(a.text + after).value)
    case STRING => '/' !in a.text && (after == "" || after[0] == '/') && a.value == StringValue(a.text)
    case PATH => after == "" && a.value == StringValue(a.text)
    case MAX => false
  }

  /** The search takes for a placeholder exactly what the placeholder may take. */
  lemma ScanTakes(lib: Numerals, t: ParamType, url: string, pos: nat, a: Argument)
    requires pos + |a.text| <= |url| && url[pos..pos + |a.text|] == a.text && pos < |url|
    ensures ScanParam(lib, t, url, pos) == Some(Matched(a.value, pos + |a.text|)) <==>
            Taken(lib, t, a, url[pos + |a.text|..])
  {
    var end := pos + |a.text|;
    assert url[pos..] == a.text + url[end..];
    assert a.text != "" ==> url[pos] == a.text[0];
    match t
    case STRING => SegmentExactly(url, pos, end);
    case PATH => assert end == |url| ==> url[end..] == "" && url[pos..] == a.text;
    case _ =>
  }

  /** A segment ends at the first '/' or at the end. */
  lemma SegmentExactly(url: string, pos: nat, end: nat)
    requires pos <= end <= |url|
    ensures SegmentEnd(url, pos) == end <==> '/' !in url[pos..end] && (url[end..] == "" || url[end..][0] == '/')
  {
    var e := SegmentEnd(url, pos);
    if end < e {
      assert url[end] == url[pos..e][end - pos];
    } else if e < end {
      assert url[e] == url[pos..end][e - pos];
    }
  }

  // ---------------------------------------------------------------- the text with its arguments

  /** The number of placeholders. */
  function Holes(tokens: seq<Token>): nat {
    if tokens == [] then 0 else (if tokens[0].Placeholder? then 1 else 0) + Holes(tokens[1..])
  }

  /** The fixed characters with the arguments put in for the placeholders. */
  function Filled(tokens: seq<Token>, args: seq<Argument>): string
    requires |args| == Holes(tokens)
  {
    if tokens == [] then ""
    else
      match tokens[0]
      case Char(c) => [c] + Filled(tokens[1..], args)
      case Placeholder(_) => args[0].text + Filled(tokens[1..], args[1..])
  }

  /** Every argument is what its placeholder takes in front of the rest of the URL. */
  predicate Fits(lib: Numerals, tokens: seq<Token>, args: seq<Argument>)
    requires |args| == Holes(tokens)
  {
    tokens == [] ||
    match tokens[0]
    case Char(_) => Fits(lib, tokens[1..], args)
    case Placeholder(t) =>
      Taken(lib, t, args[0], Filled(tokens[1..], args[1..])) && Fits(lib, tokens[1..], args[1..])
  }

  function ValuesOf(args: seq<Argument>): seq<Value> {
    seq(|args|, i requires 0 <= i < |args| => args[i].value)
  }

  /** The URL from pos on is the tokens with these arguments. */
  predicate FillsFrom(lib: Numerals, tokens: seq<Token>, args: seq<Argument>, url: string, pos: nat) {
    pos <= |url| && |args| == Holes(tokens) && Fits(lib, tokens, args) && Filled(tokens, args) == url[pos..]
  }

  lemma ValuesCons(a: Argument, args: seq<Argument>)
    ensures ValuesOf([a] + args) == [a.value] + ValuesOf(args)
  {
  }

  /** A filled text matches, and its arguments are the matched values. */
  lemma {:induction false} FilledMatches(lib: Numerals, tokens: seq<Token>, args: seq<Argument>, url: string, pos: nat)
    requires FillsFrom(lib, tokens, args, url, pos)
    ensures MatchedValues(lib, tokens, url, pos) == Some(ValuesOf(args))
    decreases |tokens|
  {
    hide ScanParam, Taken;
    if tokens != [] {
      var rest := tokens[1..];
      match tokens[0]
      case Char(c) =>
        assert url[pos] == url[pos..][0] == c;
        assert url[pos + 1..] == url[pos..][1..] == Filled(rest, args);
        FilledMatches(lib, rest, args, url, pos + 1);
      case Placeholder(t) =>
        var a := args[0];
        var end := pos + |a.text|;
        assert url[pos..end] == url[pos..][..|a.text|] == a.text;
        assert url[end..] == url[pos..][|a.text|..] == Filled(rest, args[1..]);
        TakenText(lib, t, a, url[end..]);
        ScanTakes(lib, t, url, pos, a);
        FilledMatches(lib, rest, args[1..], url, end);
        assert args == [a] + args[1..];
        ValuesCons(a, args[1..]);
    } else {
      assert pos == |url| && ValuesOf(args) == [];
    }
  }

  lemma TakenText(lib: Numerals, t: ParamType, a: Argument, after: string)
    requires Taken(lib, t, a, after)
    ensures a.text != ""
  {
  }

  /** What matches is a filled text. */
  lemma {:induction false} MatchedFills(lib: Numerals, tokens: seq<Token>, url: string, pos: nat)
    returns (args: seq<Argument>)
    requires pos <= |url| && MatchedValues(lib, tokens, url, pos).Some?
    ensures FillsFrom(lib, tokens, args, url, pos)
    ensures MatchedValues(lib, tokens, url, pos) == Some(ValuesOf(args))
    decreases |tokens|
  {
    hide ScanParam, Taken;
    if tokens == [] {
      args := [];
      assert url[pos..] == "" && ValuesOf(args) == [];
    } else {
      var rest := tokens[1..];
      match tokens[0] {
        case Char(c) =>
          args := MatchedFills(lib, rest, url, pos + 1);
          assert url[pos..] == [c] + url[pos + 1..];
        case Placeholder(t) =>
          var m := ScanParam(lib, t, url, pos).value;
          var a := Argument(url[pos..m.end], m.value);
          var more := MatchedFills(lib, rest, url, m.end);
          ScanTakes(lib, t, url, pos, a);
          assert url[pos..] == a.text + url[m.end..];
          args := [a] + more;
          assert args[1..] == more;
          ValuesCons(a, more);
      }
    }
  }

  /** A rule matches a URL with these values if and only if the URL is the rule with arguments put in that
      its placeholders take, and these are their values. */
  lemma MatchExactly(lib: Numerals, tokens: seq<Token>, url: string, vs: seq<Value>)
    ensures MatchedValues(lib, tokens, url, 0) == Some(vs) <==>
            exists args :: FillsFrom(lib, tokens, args, url, 0) && ValuesOf(args) == vs
  {
    if MatchedValues(lib, tokens, url, 0) == Some(vs) {
      var args := MatchedFills(lib, tokens, url, 0);
      assert ValuesOf(args) == vs;
    } else if args :| FillsFrom(lib, tokens, args, url, 0) && ValuesOf(args) == vs {
      FilledMatches(lib, tokens, args, url, 0);
    }
  }

  // ---------------------------------------------------------------- rules with strings only

  predicate StringsOnly(tokens: seq<Token>) {
    forall i :: 0 <= i < |tokens| && tokens[i].Placeholder? ==> tokens[i].t == STRING
  }

  /** Every placeholder is followed by a slash or ends the rule. */
  predicate Separated(tokens: seq<Token>) {
    forall i :: 0 <= i < |tokens| - 1 && tokens[i].Placeholder? ==> tokens[i + 1] == Char('/')
  }

  /** A text without slashes, as it stands between two of them. */
  predicate Segment(text: string) {
    text != "" && '/' !in text
  }

  predicate Segments(texts: seq<string>) {
    forall i :: 0 <= i < |texts| ==> Segment(texts[i])
  }

  function StringArgs(texts: seq<string>): (args: seq<Argument>)
    ensures |args| == |texts|
  {
    seq(|texts|, i requires 0 <= i < |texts| => Argument(texts[i], StringValue(texts[i])))
  }

  lemma SeparatedFirst(tokens: seq<Token>)
    requires tokens != []
    ensures Separated(tokens) <==>
            Separated(tokens[1..]) && (tokens[0].Placeholder? && |tokens| > 1 ==> tokens[1] == Char('/'))
  {
    var rest := tokens[1..];
    if Separated(rest) && (tokens[0].Placeholder? && |tokens| > 1 ==> tokens[1] == Char('/')) {
      forall i | 0 <= i < |tokens| - 1 && tokens[i].Placeholder?
        ensures tokens[i + 1] == Char('/')
      {
        if i > 0 {
          assert rest[i - 1] == tokens[i] && rest[i - 1 + 1] == tokens[i + 1];
        }
      }
    }
    if Separated(tokens) {
      forall i | 0 <= i < |rest| - 1 && rest[i].Placeholder?
        ensures rest[i + 1] == Char('/')
      {
        assert rest[i] == tokens[i + 1] && rest[i + 1] == tokens[i + 1 + 1];
      }
    }
  }

  /** What stands behind a placeholder starts with a slash exactly when the rule does so there. */
  lemma BehindPlaceholder(lib: Numerals, rest: seq<Token>, args: seq<Argument>)
    requires |args| == Holes(rest) && Fits(lib, rest, args) && StringsOnly(rest)
    ensures var after := Filled(rest, args);
            after == "" || after[0] == '/' <==> rest == [] || rest[0] == Char('/')
  {
    if rest != [] && rest[0].Placeholder? {
      assert rest[0].t == STRING;
      var a, more := args[0].text, Filled(rest[1..], args[1..]);
      assert a != "" && (a + more)[0] == a[0] && a[0] in a;
    }
  }

  /** Strings fit a rule exactly when they are segments and the rule keeps its placeholders apart. */
  lemma {:induction false} StringsFit(lib: Numerals, tokens: seq<Token>, args: seq<Argument>)
    requires |args| == Holes(tokens) && StringsOnly(tokens)
    ensures Fits(lib, tokens, args) <==>
            Separated(tokens) &&
            forall i :: 0 <= i < |args| ==> Segment(args[i].text) && args[i].value == StringValue(args[i].text)
    decreases |tokens|
  {
    if tokens != [] {
      var rest := tokens[1..];
      SeparatedFirst(tokens);
      assert StringsOnly(rest) by {
        assert forall i :: 0 <= i < |rest| ==> rest[i] == tokens[i + 1];
      }
      if tokens[0].Char? {
        StringsFit(lib, rest, args);
      } else {
        assert tokens[0].t == STRING;
        StringsFit(lib, rest, args[1..]);
        if Fits(lib, rest, args[1..]) {
          BehindPlaceholder(lib, rest, args[1..]);
        }
        assert args == [args[0]] + args[1..];
      }
    }
  }

  /** A rule of fixed text and <string> placeholders matches a URL if and only if its placeholders are
      kept apart by slashes and the URL is the rule with segments put in, which are the values. */
  lemma StringRuleExactly(lib: Numerals, tokens: seq<Token>, url: string, vs: seq<Value>)
    requires StringsOnly(tokens)
    ensures MatchedValues(lib, tokens, url, 0) == Some(vs) <==>
            Separated(tokens) &&
            exists texts :: |texts| == Holes(tokens) && Segments(texts) &&
              Filled(tokens, StringArgs(texts)) == url && ValuesOf(StringArgs(texts)) == vs
  {
    MatchExactly(lib, tokens, url, vs);
    assert url[0..] == url;
    if MatchedValues(lib, tokens, url, 0) == Some(vs) {
      var args: seq<Argument> :| FillsFrom(lib, tokens, args, url, 0) && ValuesOf(args) == vs;
      StringsFit(lib, tokens, args);
      var texts := seq(|args|, i requires 0 <= i < |args| => args[i].text);
      assert StringArgs(texts) == args;
      assert Segments(texts);
    } else if Separated(tokens) {
      forall texts | |texts| == Holes(tokens) && Segments(texts) && Filled(tokens, StringArgs(texts)) == url
        ensures FillsFrom(lib, tokens, StringArgs(texts), url, 0)
      {
        StringsFit(lib, tokens, StringArgs(texts));
      }
    }
  }

  lemma {:induction false} PrefixFilled(prefix: string, text: string)
    ensures var tokens := Chars(prefix) + [Placeholder(STRING)];
            Holes(tokens) == 1 && Filled(tokens, StringArgs([text])) == prefix + text
    decreases |prefix|
  {
    var tokens := Chars(prefix) + [Placeholder(STRING)];
    if prefix == "" {
      assert tokens == [Placeholder(STRING)] && tokens[1..] == [];
      assert StringArgs([text])[1..] == [];
      assert Filled([], []) == "";
    } else {
      PrefixFilled(prefix[1..], text);
      assert tokens[1..] == Chars(prefix[1..]) + [Placeholder(STRING)];
      assert tokens[0] == Char(prefix[0]);
      assert prefix == [prefix[0]] + prefix[1..];
    }
  }

  /** The rules of the order service: fixed text and one string behind it. Such a rule matches exactly the
      URLs that are its text followed by one segment, and the handler gets this segment. */
  lemma LastSegmentRule(lib: Numerals, prefix: string, url: string, vs: seq<Value>)
    requires '<' !in prefix && '\0' !in prefix
    ensures GoodText(prefix + "<string>", 0)
    ensures MatchedValues(lib, Tokens(prefix + "<string>", 0), url, 0) == Some(vs) <==>
            exists id: string :: Segment(id) && url == prefix + id && vs == [StringValue(id)]
  {
    hide Segment;
    var tokens := Chars(prefix) + [Placeholder(STRING)];
    PrefixRead(prefix);
    assert Separated(tokens) && StringsOnly(tokens);
    StringRuleExactly(lib, tokens, url, vs);
    if MatchedValues(lib, tokens, url, 0) == Some(vs) {
      var texts :| |texts| == Holes(tokens) && Segments(texts) &&
        Filled(tokens, StringArgs(texts)) == url && ValuesOf(StringArgs(texts)) == vs;
      PrefixFilled(prefix, "");
      assert texts == [texts[0]];
      PrefixFilled(prefix, texts[0]);
      assert Segment(texts[0]);
    }
    if id: string :| Segment(id) && url == prefix + id && vs == [StringValue(id)] {
      PrefixFilled(prefix, id);
      assert Segments([id]) && ValuesOf(StringArgs([id])) == vs;
    }
  }

  lemma PrefixRead(prefix: string)
    requires '<' !in prefix && '\0' !in prefix
    ensures GoodText(prefix + "<string>", 0) && Tokens(prefix + "<string>", 0) == Chars(prefix) + [Placeholder(STRING)]
  {
    hide GoodText, Tokens, Chars;
    var last := [Hole("<string>")];
    var pieces := [Fixed(prefix)] + last;
    assert pieces[1..] == last && last[1..] == [];
    assert Written(last) == "<string>" + Written([]) == "<string>";
    assert PieceTokens(last) == [Placeholder(STRING)] + PieceTokens([]) == [Placeholder(STRING)];
    var s := prefix + "<string>";
    assert s[0..] == s;
    WrittenRead(s, 0, pieces);
  }

  // ---------------------------------------------------------------- from the URL to the handler

  /** The URL is the text of the k-th rule with these arguments put in. */
  predicate FillsRule(lib: Numerals, texts: seq<RuleText>, k: nat, args: seq<Argument>, url: string)
    requires GoodTexts(texts)
  {
    k < |texts| && FillsFrom(lib, Tokens(texts[k].text, 0), args, url, 0)
  }

  /** The arguments that the handler of a rule is called with. */
  function HandlerCall(text: string, params: Params): Option<seq<Value>> {
    match GetParameterTag(text, 0)
    case None => None
    case Some(tag) =>
      match ArgumentsOf(tag)
      case None => None
      case Some(types) => Call(types, Counters(0, 0, 0, 0), params)
  }

  lemma HandlerFilled(lib: Numerals, text: string, args: seq<Argument>, url: string)
    requires GoodText(text, 0) && Tag(TypesOf(Tokens(text, 0))) < TWO64
    requires FillsFrom(lib, Tokens(text, 0), args, url, 0)
    ensures Match(lib, Tokens(text, 0), url, 0, NoParams).Some?
    ensures HandlerCall(text, Match(lib, Tokens(text, 0), url, 0, NoParams).value) == Some(ValuesOf(args))
  {
    hide GoodText, Tokens, Match, MatchedValues, FillsFrom, Call, ArgumentsOf, GetParameterTag, Tag;
    FilledMatches(lib, Tokens(text, 0), args, url, 0);
    MatchPushesValues(lib, Tokens(text, 0), url, 0, NoParams);
    HandlerArguments(lib, text, url);
  }

  /** Rules are added, validated and searched: no rule is found exactly when no rule with arguments put in
      is the URL; otherwise the rule found is the first of those that are, by index, and its handler is
      called with the arguments that were put in. */
  method RouteUrl(lib: Numerals, texts: seq<RuleText>, url: string) returns (r: Option<Found>)
    requires GoodTexts(texts) && DistinctIndices(RulesOf(texts))
    requires forall k :: 0 <= k < |texts| ==> Tag(TypesOf(Tokens(texts[k].text, 0))) < TWO64
    ensures r.Some? <==> DistinctTokens(RulesOf(texts)) && OneRoot(RulesOf(texts))
    ensures r.Some? ==>
              (r.value.index == 0 <==> forall k: nat, args: seq<Argument> :: !FillsRule(lib, texts, k, args, url))
    ensures r.Some? && r.value.index != 0 ==>
              exists k: nat, args: seq<Argument> ::
                FillsRule(lib, texts, k, args, url) && texts[k].index == r.value.index &&
                HandlerCall(texts[k].text, r.value.params) == Some(ValuesOf(args))
    ensures r.Some? ==>
              forall k: nat, args: seq<Argument> ::
                FillsRule(lib, texts, k, args, url) ==> r.value.index <= texts[k].index
  {
    hide DistinctTokens, OneRoot, LinearScan, FillsFrom, Match, HandlerCall, GoodText, Tokens;
    r := Route(lib, texts, url);
    if r.Some? {
      ghost var rules := RulesOf(texts);
      LinearScanIsBest(lib, rules, url);
      forall k: nat, args | FillsRule(lib, texts, k, args, url)
        ensures 0 != r.value.index <= texts[k].index
      {
        HandlerFilled(lib, texts[k].text, args, url);
        assert AtLeast(r.value, Found(rules[k].index, NoParams));
      }
      if r.value.index != 0 {
        ghost var k :| 0 <= k < |rules| && r.value.index == rules[k].index &&
            Match(lib, rules[k].tokens, url, 0, NoParams) == Some(r.value.params);
        MatchPushesValues(lib, rules[k].tokens, url, 0, NoParams);
        ghost var args := MatchedFills(lib, rules[k].tokens, url, 0);
        assert FillsRule(lib, texts, k, args, url);
        HandlerFilled(lib, texts[k].text, args, url);
      }
    }
  }
}

/** The JSON reader and writer of crow/json.h on values: what the reader accepts and returns, what the
    writer prints, and that the reader undoes the writer. A character stands for one byte. */
module Json {
  import opened Sequences

  /** A JSON value. Numbers are kept as the text that stands for them; the members of an object are
      listed in the order in which they are written or read. */
  datatype Value =
    | Null
    | False
    | True
    | Number(text: string)
    | Str(s: string)
    | List(items: seq<Value>)
    | Object(members: seq<Member>)

  datatype Member = Member(key: string, value: Value)

  // ---------------------------------------------------------------- strings

  function HexDigit(n: nat): char
    requires n < 16
  {
    if n < 10 then '0' + n as char else 'a' + (n - 10) as char
  }

  /** escape of one character */
  function EscapeChar(c: char): string {
    if c == '"' then "\\\""
    else if c == '\\' then "\\\\"
    else if c == '\n' then "\\n"
    else if c == 8 as char then "\\b"
    else if c == 12 as char then "\\f"
    else if c == '\r' then "\\r"
    else if c == '\t' then "\\t"
    else if c < 32 as char then "\\u00" + [HexDigit(c as nat / 16), HexDigit(c as nat % 16)]
    else [c]
  }

  function Escape(s: string): string {
    if s == "" then "" else EscapeChar(s[0]) + Escape(s[1..])
  }

  predicate IsHex(c: char) {
    '0' <= c <= '9' || 'a' <= c <= 'f' || 'A' <= c <= 'F'
  }

  function FromHex(c: char): int {
    if c >= 'a' then c as int - 'a' as int + 10
    else if c >= 'A' then c as int - 'A' as int + 10
    else c as int - '0' as int
  }

  /** The code point of four hexadecimal digits. */
  function Code(a: char, b: char, c: char, d: char): (n: nat)
    requires IsHex(a) && IsHex(b) && IsHex(c) && IsHex(d)
    ensures n < 0x10000
  {
    FromHex(a) * 4096 + FromHex(b) * 256 + FromHex(c) * 16 + FromHex(d)
  }

  /** The UTF-8 bytes of a code point below 0x10000. */
  function Utf8(code: nat): (r: string)
    requires code < 0x10000
    ensures 1 <= |r| <= 3
  {
    if code >= 0x800 then
      [(0xE0 + code / 4096) as char, (0x80 + code / 64 % 64) as char, (0x80 + code % 64) as char]
    else if code >= 0x80 then [(0xC0 + code / 64) as char, (0x80 + code % 64) as char]
    else [code as char]
  }

  /** What the character behind a backslash stands for. */
  function Simple(c: char): Option<char> {
    match c
    case '"' => Some('"')
    case '\\' => Some('\\')
    case '/' => Some('/')
    case 'b' => Some(8 as char)
    case 'f' => Some(12 as char)
    case 'n' => Some('\n')
    case 'r' => Some('\r')
    case 't' => Some('\t')
    case _ => None
  }

  function Peek(s: string, i: nat): char {
    if i < |s| then s[i] else '\0'
  }

  predicate HexAt(s: string, i: nat) {
    i + 4 <= |s| && IsHex(s[i]) && IsHex(s[i + 1]) && IsHex(s[i + 2]) && IsHex(s[i + 3])
  }

  /** The length of the raw character or escape sequence at the start of a raw string, 0 when
      decode_string would refuse it. */
  function Unit(s: string, i: nat): (n: nat)
    ensures n > 0 ==> i + n <= |s|
  {
    if i >= |s| || s[i] == '\0' || s[i] == '"' then 0
    else if s[i] != '\\' then 1
    else if Peek(s, i + 1) == 'u' then if HexAt(s, i + 2) then 6 else 0
    else if Simple(Peek(s, i + 1)).Some? then 2
    else 0
  }

  /** The bytes a unit stands for. */
  function UnitText(s: string, i: nat): (r: string)
    requires Unit(s, i) > 0
    ensures 1 <= |r| <= Unit(s, i)
  {
    if Unit(s, i) == 1 then [s[i]]
    else if Unit(s, i) == 2 then [Simple(s[i + 1]).value]
    else Utf8(Code(s[i + 2], s[i + 3], s[i + 4], s[i + 5]))
  }

  /** The position of the closing quote of a raw string that starts at i. */
  function StringEnd(s: string, i: nat): (e: Option<nat>)
    requires i <= |s|
    ensures e.Some? ==> i <= e.value < |s| && s[e.value] == '"'
    decreases |s| - i
  {
    if i < |s| && s[i] == '"' then Some(i)
    else if Unit(s, i) == 0 then None
    else StringEnd(s, i + Unit(s, i))
  }

  /** The decoded bytes of the raw string from i to its closing quote. */
  function Decoded(s: string, i: nat): (r: string)
    requires i <= |s| && StringEnd(s, i).Some?
    ensures |r| <= StringEnd(s, i).value - i
    decreases |s| - i
  {
    if s[i] == '"' then "" else UnitText(s, i) + Decoded(s, i + Unit(s, i))
  }

  // ---------------------------------------------------------------- numbers

  datatype NumberState = Minus | AfterMinus | ZeroFirst | Digits | DigitsAfterPoint | E | DigitsAfterE | Invalid

  predicate IsDigit(c: char) {
    '0' <= c <= '9'
  }

  predicate NumberChar(c: char) {
    IsDigit(c) || c == '.' || c == '-' || c == '+' || c == 'e' || c == 'E'
  }

  /** The transition tables of decode_number. */
  function NextState(st: NumberState, c: char): NumberState
    requires NumberChar(c)
  {
    if c == '0' then
      match st
      case Minus | AfterMinus => ZeroFirst
      case Digits => Digits
      case DigitsAfterPoint => DigitsAfterPoint
      case E | DigitsAfterE => DigitsAfterE
      case ZeroFirst | Invalid => Invalid
    else if IsDigit(c) then
      match st
      case Minus | AfterMinus | Digits => Digits
      case DigitsAfterPoint => DigitsAfterPoint
      case E | DigitsAfterE => DigitsAfterE
      case ZeroFirst | Invalid => Invalid
    else if c == '.' then if st == ZeroFirst || st == Digits then DigitsAfterPoint else Invalid
    else if c == '-' then if st == Minus then AfterMinus else if st == E then DigitsAfterE else Invalid
    else if c == '+' then if st == E then DigitsAfterE else Invalid
    else if st == Digits || st == DigitsAfterPoint then E else Invalid
  }

  predicate Accepting(st: NumberState) {
    st == ZeroFirst || st == Digits || st == DigitsAfterPoint || st == DigitsAfterE
  }

  /** The position behind a run of digits. */
  function DigitsEnd(s: string, i: nat): (e: nat)
    requires i <= |s|
    ensures i <= e <= |s| && forall k :: i <= k < e ==> IsDigit(s[k])
    ensures e < |s| ==> !IsDigit(s[e])
    decreases |s| - i
  {
    if i < |s| && IsDigit(s[i]) then DigitsEnd(s, i + 1) else i
  }

  /** The automaton from state st at position i: the end of the number, or None. A digit other than 0
      takes the digits behind it along. */
  function NumberEnd(s: string, i: nat, st: NumberState): (e: Option<nat>)
    requires i <= |s|
    ensures e.Some? ==> i <= e.value <= |s| && (st == Minus ==> i < e.value)
    decreases |s| - i
  {
    if st == Invalid then None
    else if i == |s| || !NumberChar(s[i]) then if Accepting(st) then Some(i) else None
    else
      NumberEnd(s, if '1' <= s[i] <= '9' then DigitsEnd(s, i + 1) else i + 1, NextState(st, s[i]))
  }

  // ---------------------------------------------------------------- the reader

  const MAX_DEPTH := 10000

  datatype Parsed<T> = Ok(value: T, pos: nat) | Fail

  predicate IsSpace(c: char) {
    c == ' ' || c == '\t' || c == '\r' || c == '\n'
  }

  function SkipSpace(s: string, i: nat): (j: nat)
    requires i <= |s|
    ensures i <= j <= |s| && !IsSpace(Peek(s, j))
    ensures forall k :: i <= k < j ==> IsSpace(s[k])
    decreases |s| - i
  {
    if IsSpace(Peek(s, i)) then SkipSpace(s, i + 1) else i
  }

  function ParseString(s: string, i: nat): (r: Parsed<string>)
    requires i <= |s|
    ensures r.Ok? ==> i < r.pos <= |s|
  {
    if Peek(s, i) != '"' then Fail
    else
      match StringEnd(s, i + 1)
      case None => Fail
      case Some(e) => Ok(Decoded(s, i + 1), e + 1)
  }

  predicate WordAt(s: string, i: nat, w: string) {
    i + |w| <= |s| && s[i..i + |w|] == w
  }

  function ParseWord(s: string, i: nat, w: string, v: Value): (r: Parsed<Value>)
    requires i <= |s| && w != ""
    ensures r.Ok? ==> i < r.pos <= |s|
  {
    if WordAt(s, i, w) then Ok(v, i + |w|) else Fail
  }

  /** decode_value; a container is entered with one more unit of depth. */
  function ParseValue(s: string, i: nat, depth: nat): (r: Parsed<Value>)
    requires i <= |s|
    ensures r.Ok? ==> i < r.pos <= |s|
    decreases |s| - i, 1
  {
    match Peek(s, i)
    case '[' => ParseList(s, i, depth + 1)
    case '{' => ParseObject(s, i, depth + 1)
    case '"' =>
      (match ParseString(s, i)
       case Fail => Fail
       case Ok(t, pos) => Ok(Str(t), pos))
    case 't' => ParseWord(s, i, "true", True)
    case 'f' => ParseWord(s, i, "false", False)
    case 'n' => ParseWord(s, i, "null", Null)
    case _ =>
      match NumberEnd(s, i, Minus)
      case None => Fail
      case Some(e) => Ok(Number(s[i..e]), e)
  }

  function ParseList(s: string, i: nat, depth: nat): (r: Parsed<Value>)
    requires i < |s|
    ensures r.Ok? ==> i < r.pos <= |s|
    decreases |s| - i, 0
  {
    if depth > MAX_DEPTH then Fail
    else
      var j := SkipSpace(s, i + 1);
      if Peek(s, j) == ']' then Ok(List([]), j + 1)
      else
        match ParseItems(s, j, depth)
        case Fail => Fail
        case Ok(items, pos) => Ok(List(items), pos)
  }

  /** The items of a list and its closing bracket; every item spends another unit of depth. */
  function ParseItems(s: string, i: nat, depth: nat): (r: Parsed<seq<Value>>)
    requires i <= |s|
    ensures r.Ok? ==> i < r.pos <= |s|
    decreases |s| - i, 2
  {
    match ParseValue(s, i, depth + 1)
    case Fail => Fail
    case Ok(v, pos) =>
      var j := SkipSpace(s, pos);
      if Peek(s, j) == ']' then Ok([v], j + 1)
      else if Peek(s, j) != ',' then Fail
      else
        match ParseItems(s, SkipSpace(s, j + 1), depth)
        case Fail => Fail
        case Ok(vs, end) => Ok([v] + vs, end)
  }

  function ParseObject(s: string, i: nat, depth: nat): (r: Parsed<Value>)
    requires i < |s|
    ensures r.Ok? ==> i < r.pos <= |s|
    decreases |s| - i, 0
  {
    if depth > MAX_DEPTH then Fail
    else
      var j := SkipSpace(s, i + 1);
      if Peek(s, j) == '}' then Ok(Object([]), j + 1)
      else
        match ParseMembers(s, j, depth)
        case Fail => Fail
        case Ok(ms, pos) => Ok(Object(ms), pos)
  }

  function ParseMembers(s: string, i: nat, depth: nat): (r: Parsed<seq<Member>>)
    requires i <= |s|
    ensures r.Ok? ==> i < r.pos <= |s|
    decreases |s| - i, 3
  {
    match ParseMember(s, i, depth)
    case Fail => Fail
    case Ok(m, pos) =>
      var j := SkipSpace(s, pos);
      if Peek(s, j) == '}' then Ok([m], j + 1)
      else if Peek(s, j) != ',' then Fail
      else
        match ParseMembers(s, SkipSpace(s, j + 1), depth)
        case Fail => Fail
        case Ok(ms, end) => Ok([m] + ms, end)
  }

  /** A key, a colon and a value. */
  function ParseMember(s: string, i: nat, depth: nat): (r: Parsed<Member>)
    requires i <= |s|
    ensures r.Ok? ==> i < r.pos <= |s|
    decreases |s| - i, 2
  {
    match ParseString(s, i)
    case Fail => Fail
    case Ok(key, pos) =>
      var j := SkipSpace(s, pos);
      if Peek(s, j) != ':' then Fail
      else
        match ParseValue(s, SkipSpace(s, j + 1), depth + 1)
        case Fail => Fail
        case Ok(v, end) => Ok(Member(key, v), end)
  }

  /** load: a value surrounded by space, up to the end of the text or a NUL. */
  function Load(s: string): Option<Value> {
    match ParseValue(s, SkipSpace(s, 0), 0)
    case Fail => None
    case Ok(v, pos) => if Peek(s, SkipSpace(s, pos)) == '\0' then Some(v) else None
  }

  // ---------------------------------------------------------------- the writer

  /** The arguments of dump: a negative width prints everything on one line. */
  datatype Format = Format(indent: int, separator: char)

  function Repeat(n: nat, c: char): string {
    seq(n, _ => c)
  }

  /** dump_indentation_part, when indenting is on */
  function Indentation(f: Format, level: nat): string {
    if f.indent < 0 then "" else "\n" + Repeat(level * f.indent, f.separator)
  }

  function Quoted(s: string): string {
    "\"" + Escape(s) + "\""
  }

  function Dump(v: Value, f: Format, level: nat): string
    decreases v, 0
  {
    match v
    case Null => "null"
    case False => "false"
    case True => "true"
    case Number(text) => text
    case Str(s) => Quoted(s)
    case List(items) =>
      "[" + Indentation(f, level + 1) + DumpItems(items, f, level) +
      Indentation(f, level) + "]"
    case Object(ms) =>
      "{" + Indentation(f, level + 1) + DumpMembers(ms, f, level) +
      Indentation(f, level) + "}"
  }

  /** The items with commas between them. */
  function DumpItems(items: seq<Value>, f: Format, level: nat): string
    decreases items, 1
  {
    if items == [] then ""
    else
      Dump(items[0], f, level + 1) +
      if |items| == 1 then "" else
        "," + Indentation(f, level + 1) + DumpItems(items[1..], f, level)
  }

  function DumpMember(m: Member, f: Format, level: nat): string
    decreases m, 1
  {
    Quoted(m.key) + ":" + (if f.indent < 0 then "" else " ") + Dump(m.value, f, level + 1)
  }

  function DumpMembers(ms: seq<Member>, f: Format, level: nat): string
    decreases ms, 1
  {
    if ms == [] then ""
    else
      DumpMember(ms[0], f, level) +
      if |ms| == 1 then "" else
        "," + Indentation(f, level + 1) + DumpMembers(ms[1..], f, level)
  }

  /** std::to_string of an integer */
  function Decimal(n: int): string {
    if n < 0 then "-" + DecimalNat(-n) else DecimalNat(n)
  }

  function DecimalNat(n: nat): (r: string)
    ensures |r| >= 1 && forall i :: 0 <= i < |r| ==> IsDigit(r[i])
    ensures r[0] == '0' ==> r == "0"
    ensures n > 0 ==> r[0] != '0'
  {
    if n < 10 then ['0' + n as char] else DecimalNat(n / 10) + ['0' + (n % 10) as char]
  }

  // ---------------------------------------------------------------- texts inside a text

  lemma AtChar(s: string, i: nat, c: char)
    requires At(s, i, [c])
    ensures i < |s| && s[i] == c && Peek(s, i) == c
  {
    assert [c][0] == c;
  }

  // ---------------------------------------------------------------- unescape undoes escape

  lemma HexDigitsOf(n: nat)
    requires n < 16
    ensures IsHex(HexDigit(n)) && FromHex(HexDigit(n)) == n
  {
  }

  /** An escaped character is one unit, and stands for that character. */
  lemma EscapedUnit(s: string, i: nat, c: char)
    requires At(s, i, EscapeChar(c))
    ensures Unit(s, i) == |EscapeChar(c)| && UnitText(s, i) == [c]
  {
    var t := EscapeChar(c);
    assert s[i] == t[0];
    if |t| == 2 {
      assert s[i + 1] == t[1];
    } else if |t| == 6 {
      EscapedControl(s, i, c);
    }
  }

  lemma EscapedControl(s: string, i: nat, c: char)
    requires At(s, i, EscapeChar(c)) && |EscapeChar(c)| == 6
    ensures Unit(s, i) == 6 && UnitText(s, i) == [c]
  {
    var t := EscapeChar(c);
    var hi, lo := c as nat / 16, c as nat % 16;
    assert s[i] == t[0] && s[i + 1] == t[1] && s[i + 2] == t[2] && s[i + 3] == t[3] && s[i + 4] == t[4] &&
           s[i + 5] == t[5];
    HexDigitsOf(hi);
    HexDigitsOf(lo);
    assert Code('0', '0', HexDigit(hi), HexDigit(lo)) == c as nat;
  }

  /** decode_string finds the end of an escaped string and unescape gives the string back. */
  lemma {:induction false} EscapedString(s: string, i: nat, t: string)
    requires At(s, i, Escape(t)) && Peek(s, i + |Escape(t)|) == '"'
    ensures StringEnd(s, i) == Some(i + |Escape(t)|)
    ensures Decoded(s, i) == t
    decreases |t|
  {
    hide EscapeChar, UnitText;
    if t != "" {
      AtConcat(s, i, EscapeChar(t[0]), Escape(t[1..]));
      EscapedUnit(s, i, t[0]);
      EscapedString(s, i + |EscapeChar(t[0])|, t[1..]);
      assert t == [t[0]] + t[1..];
    }
  }

  lemma QuotedString(s: string, i: nat, t: string)
    requires At(s, i, Quoted(t))
    ensures ParseString(s, i) == Ok(t, i + |Quoted(t)|)
  {
    AtConcat(s, i, "\"" + Escape(t), "\"");
    AtConcat(s, i, "\"", Escape(t));
    AtChar(s, i, '"');
    AtChar(s, i + 1 + |Escape(t)|, '"');
    EscapedString(s, i + 1, t);
  }

  // ---------------------------------------------------------------- decimal numbers

  predicate Integer64(n: int) {
    -0x8000_0000_0000_0000 <= n < 0x1_0000_0000_0000_0000
  }

  lemma DigitsEndIs(s: string, i: nat, e: nat)
    requires i <= e <= |s| && (forall k :: i <= k < e ==> IsDigit(s[k])) && !IsDigit(Peek(s, e))
    ensures DigitsEnd(s, i) == e
  {
  }

  /** A run of digits without a leading zero takes the automaton to its end. */
  lemma NaturalNumber(s: string, i: nat, n: nat, st: NumberState)
    requires At(s, i, DecimalNat(n)) && !NumberChar(Peek(s, i + |DecimalNat(n)|))
    requires st == Minus || st == AfterMinus
    ensures NumberEnd(s, i, st) == Some(i + |DecimalNat(n)|)
  {
    var t := DecimalNat(n);
    var e := i + |t|;
    assert s[i] == t[0];
    if t == "0" {
      assert NumberEnd(s, i + 1, ZeroFirst) == Some(e);
    } else {
      assert forall k :: i <= k < e ==> s[k] == t[k - i];
      DigitsEndIs(s, i + 1, e);
      assert NumberEnd(s, e, Digits) == Some(e);
    }
  }

  lemma NegativeNumber(s: string, i: nat, n: nat)
    requires At(s, i, "-" + DecimalNat(n)) && !NumberChar(Peek(s, i + 1 + |DecimalNat(n)|))
    ensures NumberEnd(s, i, Minus) == Some(i + 1 + |DecimalNat(n)|)
  {
    AtConcat(s, i, "-", DecimalNat(n));
    AtChar(s, i, '-');
    NaturalNumber(s, i + 1, n, AfterMinus);
  }

  lemma DecimalNumber(s: string, i: nat, n: int)
    requires At(s, i, Decimal(n)) && !NumberChar(Peek(s, i + |Decimal(n)|))
    ensures NumberEnd(s, i, Minus) == Some(i + |Decimal(n)|)
  {
    if n < 0 {
      NegativeNumber(s, i, -n);
    } else {
      NaturalNumber(s, i, n, Minus);
    }
  }

  lemma DecimalHead(n: int)
    ensures Decimal(n) != "" && (IsDigit(Decimal(n)[0]) || Decimal(n)[0] == '-')
  {
  }

  /** lexical_cast of a decimal text */
  function Numeral(t: string): int {
    if t != "" && t[0] == '-' then -NumeralNat(t[1..]) else NumeralNat(t)
  }

  function NumeralNat(t: string): int {
    if t == "" then 0 else NumeralNat(t[..|t| - 1]) * 10 + (t[|t| - 1] as int - '0' as int)
  }

  lemma {:induction false} NumeralNatOfDecimal(n: nat)
    ensures NumeralNat(DecimalNat(n)) == n
  {
    if n < 10 {
      var t := ['0' + n as char];
      assert t[..0] == "" && NumeralNat("") == 0;
    } else {
      NumeralNatOfDecimal(n / 10);
      var t := DecimalNat(n);
      assert t[..|t| - 1] == DecimalNat(n / 10);
    }
  }

  /** A printed integer is read back as the same number. */
  lemma NumeralOfDecimal(n: int)
    ensures Numeral(Decimal(n)) == n
  {
    if n < 0 {
      NumeralNatOfDecimal(-n);
      assert Decimal(n)[1..] == DecimalNat(-n);
    } else {
      NumeralNatOfDecimal(n);
    }
  }

  // ---------------------------------------------------------------- load undoes dump

  /** Every number is the decimal text of a 64-bit integer. */
  ghost predicate IntegerText(t: string) {
    exists n: int :: Integer64(n) && t == Decimal(n)
  }

  ghost predicate Integers(v: Value)
    decreases v
  {
    match v
    case Number(t) => IntegerText(t)
    case List(items) => forall i :: 0 <= i < |items| ==> Integers(items[i])
    case Object(ms) => forall i :: 0 <= i < |ms| ==> Integers(ms[i].value)
    case _ => true
  }

  /** The depth that the containers of v spend stays within the limit. */
  predicate Fits(v: Value, depth: nat)
    decreases v
  {
    match v
    case List(items) => depth + 1 <= MAX_DEPTH && forall i :: 0 <= i < |items| ==> Fits(items[i], depth + 2)
    case Object(ms) => depth + 1 <= MAX_DEPTH && forall i :: 0 <= i < |ms| ==> Fits(ms[i].value, depth + 2)
    case _ => true
  }

  lemma SkipSpaceIs(s: string, i: nat, j: nat)
    requires i <= j <= |s| && (forall k :: i <= k < j ==> IsSpace(s[k])) && !IsSpace(Peek(s, j))
    ensures SkipSpace(s, i) == j
  {
  }

  /** ws_skip jumps over an indentation. */
  lemma SkipIndentation(s: string, i: nat, f: Format, level: nat)
    requires IsSpace(f.separator) && At(s, i, Indentation(f, level))
    requires !IsSpace(Peek(s, i + |Indentation(f, level)|))
    ensures SkipSpace(s, i) == i + |Indentation(f, level)|
  {
    var t := Indentation(f, level);
    assert forall k :: 0 <= k < |t| ==> IsSpace(t[k]);
    assert forall k :: i <= k < i + |t| ==> s[k] == t[k - i];
    SkipSpaceIs(s, i, i + |t|);
  }

  /** The first character of a printed value starts a value. */
  predicate Starts(c: char) {
    !IsSpace(c) && c != ']' && c != '}'
  }

  /** What may follow a printed value. */
  predicate Follows(c: char) {
    !NumberChar(c)
  }

  lemma DumpHead(v: Value, f: Format, level: nat)
    requires Integers(v)
    ensures Dump(v, f, level) != "" && Starts(Dump(v, f, level)[0])
  {
    if v.Number? {
      var n :| Integer64(n) && v.text == Decimal(n);
      DecimalHead(n);
    }
  }

  // ---- decode_value by the first character

  lemma ValueIsList(s: string, i: nat, depth: nat)
    requires i < |s| && s[i] == '['
    ensures ParseValue(s, i, depth) == ParseList(s, i, depth + 1)
  {
  }

  lemma ValueIsObject(s: string, i: nat, depth: nat)
    requires i < |s| && s[i] == '{'
    ensures ParseValue(s, i, depth) == ParseObject(s, i, depth + 1)
  {
  }

  lemma ValueIsString(s: string, i: nat, depth: nat, t: string)
    requires At(s, i, Quoted(t))
    ensures ParseValue(s, i, depth) == Ok(Str(t), i + |Quoted(t)|)
  {
    QuotedString(s, i, t);
    assert s[i] == Quoted(t)[0] == '"';
  }

  lemma ValueIsNull(s: string, i: nat, depth: nat)
    requires At(s, i, "null")
    ensures ParseValue(s, i, depth) == Ok(Null, i + 4)
  {
    AtSlice(s, i, "null");
    assert s[i] == "null"[0];
  }

  lemma ValueIsTrue(s: string, i: nat, depth: nat)
    requires At(s, i, "true")
    ensures ParseValue(s, i, depth) == Ok(True, i + 4)
  {
    AtSlice(s, i, "true");
    assert s[i] == "true"[0];
  }

  lemma ValueIsFalse(s: string, i: nat, depth: nat)
    requires At(s, i, "false")
    ensures ParseValue(s, i, depth) == Ok(False, i + 5)
  {
    AtSlice(s, i, "false");
    assert s[i] == "false"[0];
  }

  lemma ValueIsNumber(s: string, i: nat, depth: nat, n: int)
    requires At(s, i, Decimal(n)) && Follows(Peek(s, i + |Decimal(n)|))
    ensures ParseValue(s, i, depth) == Ok(Number(Decimal(n)), i + |Decimal(n)|)
  {
    DecimalHead(n);
    assert s[i] == Decimal(n)[0];
    DecimalNumber(s, i, n);
    AtSlice(s, i, Decimal(n));
    NumberRule(s, i, depth);
  }

  lemma NumberRule(s: string, i: nat, depth: nat)
    requires i < |s| && (IsDigit(s[i]) || s[i] == '-')
    ensures ParseValue(s, i, depth) ==
            match NumberEnd(s, i, Minus) case None => Fail case Some(e) => Ok(Number(s[i..e]), e)
  {
  }

  lemma ScalarRoundTrip(s: string, i: nat, v: Value, f: Format, level: nat, depth: nat)
    requires !v.List? && !v.Object? && Integers(v)
    requires At(s, i, Dump(v, f, level)) && Follows(Peek(s, i + |Dump(v, f, level)|))
    ensures ParseValue(s, i, depth) == Ok(v, i + |Dump(v, f, level)|)
  {
    match v
    case Str(t) => ValueIsString(s, i, depth, t);
    case Number(text) =>
      var n :| Integer64(n) && text == Decimal(n);
      ValueIsNumber(s, i, depth, n);
    case Null => ValueIsNull(s, i, depth);
    case True => ValueIsTrue(s, i, depth);
    case False => ValueIsFalse(s, i, depth);
  }

  /** From i on there is only space up to q, where c stands. */
  predicate Closes(s: string, i: nat, q: nat, c: char) {
    i <= q < |s| && s[q] == c && SkipSpace(s, i) == q && Follows(Peek(s, i))
  }

  /** The space and the bracket that end a printed container. */
  lemma ClosingBracket(s: string, i: nat, f: Format, level: nat, c: char)
    requires IsSpace(f.separator) && (c == ']' || c == '}')
    requires At(s, i, Indentation(f, level) + [c])
    ensures Closes(s, i, i + |Indentation(f, level)|, c)
  {
    var t := Indentation(f, level);
    AtConcat(s, i, t, [c]);
    AtChar(s, i + |t|, c);
    SkipIndentation(s, i, f, level);
    if |t| > 0 {
      assert s[i] == t[0];
    }
  }

  /** Two indentations in a row, as an empty container prints them. */
  lemma SkipTwo(s: string, i: nat, f: Format, a: nat, b: nat)
    requires IsSpace(f.separator)
    requires At(s, i, Indentation(f, a)) && At(s, i + |Indentation(f, a)|, Indentation(f, b))
    requires !IsSpace(Peek(s, i + |Indentation(f, a)| + |Indentation(f, b)|))
    ensures SkipSpace(s, i) == i + |Indentation(f, a)| + |Indentation(f, b)|
  {
    var t, u := Indentation(f, a), Indentation(f, b);
    assert forall k :: 0 <= k < |t| ==> IsSpace(t[k]);
    assert forall k :: 0 <= k < |u| ==> IsSpace(u[k]);
    assert forall k :: i <= k < i + |t| ==> s[k] == t[k - i];
    assert forall k :: i + |t| <= k < i + |t| + |u| ==> s[k] == u[k - i - |t|];
    SkipSpaceIs(s, i, i + |t| + |u|);
  }

  /** A container as it is printed. */
  function Container(open: char, inner: string, close: char, f: Format, level: nat): string {
    [open] + Indentation(f, level + 1) + inner + Indentation(f, level) + [close]
  }

  lemma DumpIsContainer(v: Value, f: Format, level: nat)
    ensures v.List? ==> Dump(v, f, level) == Container('[', DumpItems(v.items, f, level), ']', f, level)
    ensures v == List([]) ==> DumpItems(v.items, f, level) == ""
    ensures v.Object? ==> Dump(v, f, level) == Container('{', DumpMembers(v.members, f, level), '}', f, level)
    ensures v == Object([]) ==> DumpMembers(v.members, f, level) == ""
  {
  }

  /** Where the entries of a printed container start, and where its closing bracket is found. */
  lemma ContainerLayout(s: string, i: nat, open: char, inner: string, close: char, f: Format, level: nat)
    requires IsSpace(f.separator) && (close == ']' || close == '}') && (inner != "" ==> Starts(inner[0]))
    requires At(s, i, Container(open, inner, close, f, level))
    ensures i < |s| && s[i] == open
    ensures var j := SkipSpace(s, i + 1);
            var q := i + |Container(open, inner, close, f, level)| - 1;
            if inner == "" then j == q && s[q] == close
            else At(s, j, inner) && Starts(Peek(s, j)) && Closes(s, j + |inner|, q, close)
  {
    hide Indentation, SkipSpace;
    var a, b := Indentation(f, level + 1), Indentation(f, level);
    assert Container(open, inner, close, f, level) == [open] + a + inner + (b + [close]);
    AtConcat(s, i, [open] + a + inner, b + [close]);
    AtConcat(s, i, [open] + a, inner);
    AtConcat(s, i, [open], a);
    AtChar(s, i, open);
    var p := i + 1 + |a|;
    ClosingBracket(s, p + |inner|, f, level, close);
    if inner == "" {
      AtConcat(s, p, b, [close]);
      SkipTwo(s, i + 1, f, level + 1, level);
    } else {
      assert s[p] == inner[0];
      SkipIndentation(s, i + 1, f, level + 1);
    }
  }

  /** Reading what was written gives the value back, unless its containers are nested too deep. */
  lemma {:induction false} ValueRoundTrip(s: string, i: nat, v: Value, f: Format, level: nat, depth: nat)
    requires IsSpace(f.separator) && Integers(v)
    requires At(s, i, Dump(v, f, level)) && Follows(Peek(s, i + |Dump(v, f, level)|))
    ensures ParseValue(s, i, depth) == if Fits(v, depth) then Ok(v, i + |Dump(v, f, level)|) else Fail
    decreases v, 1
  {
    hide Dump, ParseValue, ParseList, ParseObject;
    if v.List? {
      ValueIsList(s, i, depth) by { ContainerHead(s, i, v, f, level); }
      ListRoundTrip(s, i, v.items, f, level, depth + 1);
    } else if v.Object? {
      ValueIsObject(s, i, depth) by { ContainerHead(s, i, v, f, level); }
      ObjectRoundTrip(s, i, v.members, f, level, depth + 1);
    } else {
      ScalarRoundTrip(s, i, v, f, level, depth);
    }
  }

  lemma ContainerHead(s: string, i: nat, v: Value, f: Format, level: nat)
    requires At(s, i, Dump(v, f, level))
    ensures v.List? ==> i < |s| && s[i] == '['
    ensures v.Object? ==> i < |s| && s[i] == '{'
  {
    var t := Dump(v, f, level);
    if v.List? || v.Object? {
      assert s[i] == t[0];
    }
  }

  predicate AllFit(items: seq<Value>, depth: nat) {
    forall i :: 0 <= i < |items| ==> Fits(items[i], depth)
  }

  lemma {:induction false} ListRoundTrip(s: string, i: nat, items: seq<Value>, f: Format, level: nat, depth: nat)
    requires IsSpace(f.separator) && (forall k :: 0 <= k < |items| ==> Integers(items[k]))
    requires At(s, i, Dump(List(items), f, level))
    ensures i < |s|
    ensures ParseList(s, i, depth) == if depth <= MAX_DEPTH && AllFit(items, depth + 1)
                                      then Ok(List(items), i + |Dump(List(items), f, level)|) else Fail
    decreases items, 3
  {
    hide Dump, ParseItems, SkipSpace, Indentation, Integers;
    var inner := DumpItems(items, f, level);
    if items != [] {
      DumpItemsHead(items, f, level);
    }
    DumpIsContainer(List(items), f, level);
    ContainerLayout(s, i, '[', inner, ']', f, level);
    if items != [] {
      ItemsRoundTrip(s, SkipSpace(s, i + 1), items, f, level, depth,
                     i + |Dump(List(items), f, level)| - 1);
    }
  }

  lemma DumpItemsHead(items: seq<Value>, f: Format, level: nat)
    requires items != [] && Integers(items[0])
    ensures DumpItems(items, f, level) != "" && Starts(DumpItems(items, f, level)[0])
  {
    DumpHead(items[0], f, level + 1);
  }

  /** The comma between two entries of a container, and the space behind it. */
  lemma Comma(s: string, i: nat, f: Format, level: nat, rest: string)
    requires IsSpace(f.separator) && rest != "" && Starts(rest[0])
    requires At(s, i, "," + Indentation(f, level) + rest)
    ensures Closes(s, i, i, ',')
    ensures At(s, SkipSpace(s, i + 1), rest)
    ensures SkipSpace(s, i + 1) == i + 1 + |Indentation(f, level)|
  {
    var t := Indentation(f, level);
    AtConcat(s, i, "," + t, rest);
    AtConcat(s, i, ",", t);
    AtChar(s, i, ',');
    assert s[i + 1 + |t|] == rest[0];
    SkipIndentation(s, i + 1, f, level);
  }

  // ---- one entry of a list, then the bracket or the comma

  lemma LastItem(s: string, i: nat, depth: nat, pos: nat, q: nat, items: seq<Value>)
    requires i <= |s| && |items| == 1 && Closes(s, pos, q, ']')
    requires ParseValue(s, i, depth + 1) == if Fits(items[0], depth + 1) then Ok(items[0], pos) else Fail
    ensures ParseItems(s, i, depth) == if AllFit(items, depth + 1) then Ok(items, q + 1) else Fail
  {
    hide ParseValue, SkipSpace, Fits;
    assert items == [items[0]];
  }

  lemma MoreItems(s: string, i: nat, depth: nat, pos: nat, v: Value)
    requires i <= |s| && ParseValue(s, i, depth + 1) == Ok(v, pos) && Closes(s, pos, pos, ',')
    ensures ParseItems(s, i, depth) ==
            match ParseItems(s, SkipSpace(s, pos + 1), depth) case Fail => Fail case Ok(vs, end) => Ok([v] + vs, end)
  {
  }

  lemma ItemsCombine(s: string, i: nat, depth: nat, pos: nat, items: seq<Value>, q: nat)
    requires i <= |s| && |items| > 1 && Closes(s, pos, pos, ',')
    requires ParseValue(s, i, depth + 1) == if Fits(items[0], depth + 1) then Ok(items[0], pos) else Fail
    requires ParseItems(s, SkipSpace(s, pos + 1), depth) ==
             if AllFit(items[1..], depth + 1) then Ok(items[1..], q + 1) else Fail
    ensures ParseItems(s, i, depth) == if AllFit(items, depth + 1) then Ok(items, q + 1) else Fail
  {
    hide ParseValue, SkipSpace, Fits;
    AllFitCons(items, depth + 1);
    if Fits(items[0], depth + 1) {
      MoreItems(s, i, depth, pos, items[0]);
      assert items == [items[0]] + items[1..];
    }
  }

  /** The first of several items, the comma and the others. */
  lemma ItemsLayout(s: string, i: nat, items: seq<Value>, f: Format, level: nat)
    requires |items| > 1 && IsSpace(f.separator) && Integers(items[1])
    requires At(s, i, DumpItems(items, f, level))
    ensures var pos := i + |Dump(items[0], f, level + 1)|;
            && At(s, i, Dump(items[0], f, level + 1)) && Closes(s, pos, pos, ',')
            && At(s, SkipSpace(s, pos + 1), DumpItems(items[1..], f, level))
            && SkipSpace(s, pos + 1) + |DumpItems(items[1..], f, level)| == i + |DumpItems(items, f, level)|
  {
    hide Dump, SkipSpace, Indentation;
    var first, ind, rest := Dump(items[0], f, level + 1), Indentation(f, level + 1), DumpItems(items[1..], f, level);
    AtConcat(s, i, first, "," + ind + rest);
    DumpItemsHead(items[1..], f, level);
    Comma(s, i + |first|, f, level + 1, rest);
  }

  lemma {:induction false} ItemsRoundTrip(s: string, i: nat, items: seq<Value>, f: Format, level: nat, depth: nat,
      q: nat)
    requires items != [] && IsSpace(f.separator) && (forall k :: 0 <= k < |items| ==> Integers(items[k]))
    requires At(s, i, DumpItems(items, f, level))
    requires Closes(s, i + |DumpItems(items, f, level)|, q, ']')
    ensures ParseItems(s, i, depth) == if AllFit(items, depth + 1) then Ok(items, q + 1) else Fail
    decreases items, 2
  {
    hide Dump, ParseValue, ParseItems, SkipSpace, Integers;
    var pos := i + |Dump(items[0], f, level + 1)|;
    if |items| == 1 {
      AtConcat(s, i, Dump(items[0], f, level + 1), "");
      ValueRoundTrip(s, i, items[0], f, level + 1, depth + 1);
      assert items == [items[0]];
      LastItem(s, i, depth, pos, q, items);
    } else {
      ItemsLayout(s, i, items, f, level);
      ValueRoundTrip(s, i, items[0], f, level + 1, depth + 1);
      ItemsRoundTrip(s, SkipSpace(s, pos + 1), items[1..], f, level, depth, q);
      ItemsCombine(s, i, depth, pos, items, q);
    }
  }

  lemma AllFitCons(items: seq<Value>, depth: nat)
    requires items != []
    ensures AllFit(items, depth) <==> Fits(items[0], depth) && AllFit(items[1..], depth)
  {
    assert items == [items[0]] + items[1..];
  }

  // ---- the same for the members of an object

  predicate AllMembersFit(ms: seq<Member>, depth: nat) {
    forall i :: 0 <= i < |ms| ==> Fits(ms[i].value, depth)
  }

  lemma AllMembersFitCons(ms: seq<Member>, depth: nat)
    requires ms != []
    ensures AllMembersFit(ms, depth) <==> Fits(ms[0].value, depth) && AllMembersFit(ms[1..], depth)
  {
    assert ms == [ms[0]] + ms[1..];
  }

  lemma {:induction false} ObjectRoundTrip(s: string, i: nat, ms: seq<Member>, f: Format, level: nat, depth: nat)
    requires IsSpace(f.separator) && (forall k :: 0 <= k < |ms| ==> Integers(ms[k].value))
    requires At(s, i, Dump(Object(ms), f, level))
    ensures i < |s|
    ensures ParseObject(s, i, depth) == if depth <= MAX_DEPTH && AllMembersFit(ms, depth + 1)
                                        then Ok(Object(ms), i + |Dump(Object(ms), f, level)|) else Fail
    decreases ms, 5
  {
    hide Dump, ParseMembers, SkipSpace, Indentation, Integers;
    var inner := DumpMembers(ms, f, level);
    if ms != [] {
      DumpMembersHead(ms, f, level);
    }
    DumpIsContainer(Object(ms), f, level);
    ContainerLayout(s, i, '{', inner, '}', f, level);
    if ms != [] {
      MembersRoundTrip(s, SkipSpace(s, i + 1), ms, f, level, depth,
                       i + |Dump(Object(ms), f, level)| - 1);
    }
  }

  lemma DumpMembersHead(ms: seq<Member>, f: Format, level: nat)
    requires ms != []
    ensures DumpMembers(ms, f, level) != "" && DumpMembers(ms, f, level)[0] == '"'
  {
  }

  lemma LastMember(s: string, i: nat, depth: nat, pos: nat, q: nat, ms: seq<Member>)
    requires i <= |s| && |ms| == 1 && Closes(s, pos, q, '}')
    requires ParseMember(s, i, depth) == if Fits(ms[0].value, depth + 1) then Ok(ms[0], pos) else Fail
    ensures ParseMembers(s, i, depth) == if AllMembersFit(ms, depth + 1) then Ok(ms, q + 1) else Fail
  {
    hide ParseMember, SkipSpace, Fits;
    assert ms == [ms[0]];
  }

  lemma MoreMembers(s: string, i: nat, depth: nat, pos: nat, m: Member)
    requires i <= |s| && ParseMember(s, i, depth) == Ok(m, pos) && Closes(s, pos, pos, ',')
    ensures ParseMembers(s, i, depth) ==
            match ParseMembers(s, SkipSpace(s, pos + 1), depth) case Fail => Fail case Ok(ms, end) => Ok([m] + ms, end)
  {
  }

  lemma MembersCombine(s: string, i: nat, depth: nat, pos: nat, ms: seq<Member>, q: nat)
    requires i <= |s| && |ms| > 1 && Closes(s, pos, pos, ',')
    requires ParseMember(s, i, depth) == if Fits(ms[0].value, depth + 1) then Ok(ms[0], pos) else Fail
    requires ParseMembers(s, SkipSpace(s, pos + 1), depth) ==
             if AllMembersFit(ms[1..], depth + 1) then Ok(ms[1..], q + 1) else Fail
    ensures ParseMembers(s, i, depth) == if AllMembersFit(ms, depth + 1) then Ok(ms, q + 1) else Fail
  {
    hide ParseMember, SkipSpace, Fits;
    AllMembersFitCons(ms, depth + 1);
    if Fits(ms[0].value, depth + 1) {
      MoreMembers(s, i, depth, pos, ms[0]);
      assert ms == [ms[0]] + ms[1..];
    }
  }

  lemma MembersLayout(s: string, i: nat, ms: seq<Member>, f: Format, level: nat)
    requires |ms| > 1 && IsSpace(f.separator)
    requires At(s, i, DumpMembers(ms, f, level))
    ensures var pos := i + |DumpMember(ms[0], f, level)|;
            && At(s, i, DumpMember(ms[0], f, level)) && Closes(s, pos, pos, ',')
            && At(s, SkipSpace(s, pos + 1), DumpMembers(ms[1..], f, level))
            && SkipSpace(s, pos + 1) + |DumpMembers(ms[1..], f, level)| == i + |DumpMembers(ms, f, level)|
  {
    hide Dump, DumpMember, SkipSpace, Indentation;
    var first, ind, rest := DumpMember(ms[0], f, level), Indentation(f, level + 1), DumpMembers(ms[1..], f, level);
    AtConcat(s, i, first, "," + ind + rest);
    DumpMembersHead(ms[1..], f, level);
    Comma(s, i + |first|, f, level + 1, rest);
  }

  lemma {:induction false} MembersRoundTrip(s: string, i: nat, ms: seq<Member>, f: Format, level: nat, depth: nat,
      q: nat)
    requires ms != [] && IsSpace(f.separator) && (forall k :: 0 <= k < |ms| ==> Integers(ms[k].value))
    requires At(s, i, DumpMembers(ms, f, level))
    requires Closes(s, i + |DumpMembers(ms, f, level)|, q, '}')
    ensures ParseMembers(s, i, depth) == if AllMembersFit(ms, depth + 1) then Ok(ms, q + 1) else Fail
    decreases ms, 4
  {
    hide DumpMember, Dump, ParseMember, ParseMembers, SkipSpace, Integers;
    var pos := i + |DumpMember(ms[0], f, level)|;
    if |ms| == 1 {
      AtConcat(s, i, DumpMember(ms[0], f, level), "");
      MemberRoundTrip(s, i, ms[0], f, level, depth);
      assert ms == [ms[0]];
      LastMember(s, i, depth, pos, q, ms);
    } else {
      MembersLayout(s, i, ms, f, level);
      MemberRoundTrip(s, i, ms[0], f, level, depth);
      MembersRoundTrip(s, SkipSpace(s, pos + 1), ms[1..], f, level, depth, q);
      MembersCombine(s, i, depth, pos, ms, q);
    }
  }

  /** The key, the colon and the space behind it. */
  lemma MemberLayout(s: string, i: nat, m: Member, f: Format, level: nat)
    requires Integers(m.value) && At(s, i, DumpMember(m, f, level))
    ensures ParseString(s, i) == Ok(m.key, i + |Quoted(m.key)|)
    ensures var p := i + |Quoted(m.key)|;
            && p < |s| && s[p] == ':' && SkipSpace(s, p) == p
            && SkipSpace(s, p + 1) == i + |DumpMember(m, f, level)| - |Dump(m.value, f, level + 1)|
            && At(s, SkipSpace(s, p + 1), Dump(m.value, f, level + 1))
  {
    hide Dump, Quoted, ParseString, SkipSpace;
    var key, gap, value := Quoted(m.key), if f.indent < 0 then "" else " ", Dump(m.value, f, level + 1);
    AtConcat(s, i, key + ":" + gap, value);
    AtConcat(s, i, key + ":", gap);
    AtConcat(s, i, key, ":");
    QuotedString(s, i, m.key);
    var p := i + |key|;
    AtChar(s, p, ':');
    SkipSpaceIs(s, p, p);
    DumpHead(m.value, f, level + 1);
    assert s[p + 1 + |gap|] == value[0];
    if |gap| == 1 {
      AtChar(s, p + 1, ' ');
    }
    SkipSpaceIs(s, p + 1, p + 1 + |gap|);
  }

  lemma {:induction false} MemberRoundTrip(s: string, i: nat, m: Member, f: Format, level: nat, depth: nat)
    requires IsSpace(f.separator) && Integers(m.value)
    requires At(s, i, DumpMember(m, f, level)) && Follows(Peek(s, i + |DumpMember(m, f, level)|))
    ensures ParseMember(s, i, depth) ==
            if Fits(m.value, depth + 1) then Ok(m, i + |DumpMember(m, f, level)|) else Fail
    decreases m, 2
  {
    hide Dump, ParseValue, ParseString, SkipSpace, DumpMember, Integers;
    MemberLayout(s, i, m, f, level);
    ValueRoundTrip(s, SkipSpace(s, i + |Quoted(m.key)| + 1), m.value, f, level + 1, depth + 1);
  }

  // ---- the depth limit in terms of nesting

  function Max(a: nat, b: nat): nat {
    if a >= b then a else b
  }

  /** How deep containers are nested: 0 for a scalar. */
  function Nesting(v: Value): nat
    decreases v, 0
  {
    match v
    case List(items) => 1 + ItemsNesting(items)
    case Object(ms) => 1 + MembersNesting(ms)
    case _ => 0
  }

  function ItemsNesting(items: seq<Value>): nat
    decreases items, 1
  {
    if items == [] then 0 else Max(Nesting(items[0]), ItemsNesting(items[1..]))
  }

  function MembersNesting(ms: seq<Member>): nat
    decreases ms, 1
  {
    if ms == [] then 0 else Max(Nesting(ms[0].value), MembersNesting(ms[1..]))
  }

  /** n levels of containers entered at the given depth stay within the limit. */
  predicate Within(n: nat, depth: nat) {
    n == 0 || depth + 2 * n - 1 <= MAX_DEPTH
  }

  lemma {:induction false} FitsIsNesting(v: Value, depth: nat)
    ensures Fits(v, depth) <==> Within(Nesting(v), depth)
    decreases v, 0
  {
    if v.List? {
      AllFitIsNesting(v.items, depth + 2);
    } else if v.Object? {
      AllMembersFitIsNesting(v.members, depth + 2);
    }
  }

  lemma {:induction false} AllFitIsNesting(items: seq<Value>, depth: nat)
    ensures AllFit(items, depth) <==> Within(ItemsNesting(items), depth)
    decreases items, 1
  {
    if items != [] {
      FitsIsNesting(items[0], depth);
      AllFitIsNesting(items[1..], depth);
      AllFitCons(items, depth);
    }
  }

  lemma {:induction false} AllMembersFitIsNesting(ms: seq<Member>, depth: nat)
    ensures AllMembersFit(ms, depth) <==> Within(MembersNesting(ms), depth)
    decreases ms, 1
  {
    if ms != [] {
      FitsIsNesting(ms[0].value, depth);
      AllMembersFitIsNesting(ms[1..], depth);
      AllMembersFitCons(ms, depth);
    }
  }

  /** load gives back what dump printed, at any indentation, exactly when at most 5000 containers are
      nested: every level spends two of the 10000 units of depth. */
  lemma LoadUndoesDump(v: Value, f: Format)
    requires IsSpace(f.separator) && Integers(v)
    ensures Load(Dump(v, f, 0)) == if Nesting(v) <= 5000 then Some(v) else None
  {
    hide Dump, ParseValue, Integers, Fits, Nesting;
    var s := Dump(v, f, 0);
    DumpHead(v, f, 0);
    SkipSpaceIs(s, 0, 0);
    SkipSpaceIs(s, |s|, |s|);
    FitsIsNesting(v, 0);
    ValueRoundTrip(s, 0, v, f, 0, 0);
  }
}

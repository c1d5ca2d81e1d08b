/** What the strings and numbers of a JSON text stand for (crow/json.h), said without the functions that read
    them: escapes by the table of section 7 of RFC 8259, code points by decoding UTF-8, numbers by the
    grammar of section 6 of RFC 8259 and exactly where the code departs from it. */
module JsonText {
  import opened Sequences
  import opened Texts
  import opened Json

  // ---------------------------------------------------------------- UTF-8

  predicate Continuation(c: char) {
    0x80 <= c as nat <= 0xBF
  }

  /** A code point and the number of bytes it takes. */
  datatype CodePoint = CodePoint(code: nat, len: nat)

  /** The code point at the start of a text, by the bits of its lead and continuation bytes; None when the
      bytes are no code point below 0x10000 in its shortest form. */
  function FirstCode(b: string): (r: Option<CodePoint>)
    ensures r.Some? ==> 1 <= r.value.len <= |b|
  {
    if b == "" then None
    else if b[0] as nat < 0x80 then Some(CodePoint(b[0] as nat, 1))
    else if 0xC2 <= b[0] as nat <= 0xDF && |b| >= 2 && Continuation(b[1]) then
      Some(CodePoint((b[0] as nat - 0xC0) * 64 + (b[1] as nat - 0x80), 2))
    else if 0xE0 <= b[0] as nat <= 0xEF && |b| >= 3 && Continuation(b[1]) && Continuation(b[2]) then
      var code := (b[0] as nat - 0xE0) * 4096 + (b[1] as nat - 0x80) * 64 + (b[2] as nat - 0x80);
      if code >= 0x800 then Some(CodePoint(code, 3)) else None
    else None
  }

  /** The code points of a text of bytes. */
  function CodePoints(b: string): Option<seq<nat>> {
    if b == "" then Some([])
    else
      match FirstCode(b)
      case None => None
      case Some(c) =>
        match CodePoints(b[c.len..])
        case None => None
        case Some(rest) => Some([c.code] + rest)
  }

  /** The bytes of a code point decode to it, whatever follows them. */
  lemma Utf8Decodes(code: nat, rest: string)
    requires code < 0x10000
    ensures FirstCode(Utf8(code) + rest) == Some(CodePoint(code, |Utf8(code)|))
  {
    var r := Utf8(code);
    var b := r + rest;
    assert b[0] == r[0];
    if code >= 0x800 {
      assert b[1] == r[1] && b[2] == r[2];
      assert code == code / 4096 * 4096 + code / 64 % 64 * 64 + code % 64;
    } else if code >= 0x80 {
      assert b[1] == r[1];
      assert code == code / 64 * 64 + code % 64;
    }
  }

  /** Bytes decode to one code point exactly when they are its UTF-8. */
  lemma Utf8Exactly(code: nat, b: string)
    requires code < 0x10000
    ensures FirstCode(b) == Some(CodePoint(code, |b|)) <==> b == Utf8(code)
  {
    Utf8Decodes(code, "");
    assert Utf8(code) + "" == Utf8(code);
    if FirstCode(b) == Some(CodePoint(code, |b|)) {
      if |b| == 3 {
        var x, y, z := b[0] as nat - 0xE0, b[1] as nat - 0x80, b[2] as nat - 0x80;
        assert code / 4096 == x && code / 64 % 64 == y && code % 64 == z;
      } else if |b| == 2 {
        var x, y := b[0] as nat - 0xC0, b[1] as nat - 0x80;
        assert code / 64 == x && code % 64 == y;
      }
    }
  }

  // ---------------------------------------------------------------- escapes

  /** Both cases of a hexadecimal digit are read as its value, and nothing else is taken for a digit. */
  lemma HexExactly(c: char, n: nat)
    ensures IsHex(c) && FromHex(c) == n <==> HexDigitOf(c, n)
  {
  }

  /** Section 7 of RFC 8259: the characters that follow a backslash, and what they stand for. */
  const ShortEscapes: seq<(char, nat)> := [('"', 0x22), ('\\', 0x5C), ('/', 0x2F), ('b', 0x08), ('f', 0x0C),
    ('n', 0x0A), ('r', 0x0D), ('t', 0x09)]

  lemma ShortExactly(c: char, x: char)
    ensures Simple(c) == Some(x) <==> (c, x as nat) in ShortEscapes
  {
    assert forall k :: 0 <= k < |ShortEscapes| ==> Simple(ShortEscapes[k].0) == Some(ShortEscapes[k].1 as char);
    match c
    case '"' => assert ShortEscapes[0].0 == c;
    case '\\' => assert ShortEscapes[1].0 == c;
    case '/' => assert ShortEscapes[2].0 == c;
    case 'b' => assert ShortEscapes[3].0 == c;
    case 'f' => assert ShortEscapes[4].0 == c;
    case 'n' => assert ShortEscapes[5].0 == c;
    case 'r' => assert ShortEscapes[6].0 == c;
    case 't' => assert ShortEscapes[7].0 == c;
    case _ =>
  }

  /** The value of four hexadecimal digits. */
  function HexNumber(a: nat, b: nat, c: nat, d: nat): nat {
    ((a * 16 + b) * 16 + c) * 16 + d
  }

  /** A two-character escape, or \u and four hexadecimal digits, of this code. */
  ghost predicate Escaped(code: nat, t: string) {
    || (|t| == 2 && t[0] == '\\' && (t[1], code) in ShortEscapes)
    || (|t| == 6 && t[0] == '\\' && t[1] == 'u' &&
        exists a, b, c, d ::
          HexDigitOf(t[2], a) && HexDigitOf(t[3], b) && HexDigitOf(t[4], c) && HexDigitOf(t[5], d) &&
          code == HexNumber(a, b, c, d))
  }

  /** A byte that stands for itself in a string. */
  predicate Plain(c: char) {
    c != '"' && c != '\\' && c != '\0'
  }

  lemma HexCode(t: string, code: nat)
    requires |t| == 6 && t[1] == 'u' && Escaped(code, t)
    ensures forall k :: 2 <= k < 6 ==> IsHex(t[k])
    ensures Code(t[2], t[3], t[4], t[5]) == code
  {
    hide HexDigitOf, FromHex, IsHex;
    var a, b, c, d :| HexDigitOf(t[2], a) && HexDigitOf(t[3], b) && HexDigitOf(t[4], c) && HexDigitOf(t[5], d) &&
      code == HexNumber(a, b, c, d);
    HexExactly(t[2], a);
    HexExactly(t[3], b);
    HexExactly(t[4], c);
    HexExactly(t[5], d);
  }

  lemma CodeIsHex(t: string)
    requires |t| == 6 && t[0] == '\\' && t[1] == 'u' && forall k :: 2 <= k < 6 ==> IsHex(t[k])
    ensures Escaped(Code(t[2], t[3], t[4], t[5]), t)
  {
    hide HexDigitOf;
    var a, b, c, d := FromHex(t[2]), FromHex(t[3]), FromHex(t[4]), FromHex(t[5]);
    HexExactly(t[2], a);
    HexExactly(t[3], b);
    HexExactly(t[4], c);
    HexExactly(t[5], d);
    assert Code(t[2], t[3], t[4], t[5]) == HexNumber(a, b, c, d);
  }

  /** An escape is taken as a whole exactly when it is one of RFC 8259, and then stands for the UTF-8 of
      its code. */
  lemma EscapeExactly(s: string, i: nat, t: string)
    requires At(s, i, t) && |t| >= 2 && t[0] == '\\'
    ensures Unit(s, i) == |t| <==> exists code :: Escaped(code, t)
    ensures forall code :: Escaped(code, t) ==>
      Unit(s, i) == |t| && code < 0x10000 && UnitText(s, i) == Utf8(code)
  {
    hide FromHex, HexDigitOf, Utf8;
    assert s[i] == t[0] && s[i + 1] == t[1];
    if |t| == 6 {
      assert s[i + 2] == t[2] && s[i + 3] == t[3] && s[i + 4] == t[4] && s[i + 5] == t[5];
    }
    forall code | Escaped(code, t)
      ensures Unit(s, i) == |t| && code < 0x10000 && UnitText(s, i) == Utf8(code)
    {
      if |t| == 6 {
        HexCode(t, code);
      } else {
        ShortCode(t[1], code);
      }
    }
    if Unit(s, i) == |t| {
      if |t| == 6 {
        CodeIsHex(t);
      } else {
        var x := Simple(t[1]).value;
        ShortExactly(t[1], x);
        assert Escaped(x as nat, t);
      }
    }
  }

  lemma ShortCode(c: char, code: nat)
    requires (c, code) in ShortEscapes
    ensures c != 'u' && code < 0x80 && Simple(c) == Some(code as char) && Utf8(code) == [code as char]
  {
    ShortExactly(c, code as char);
  }

  // ---------------------------------------------------------------- strings

  /** A text that stands for one character of a string: its UTF-8, or an escape. */
  ghost predicate Spells(code: nat, t: string) {
    || (FirstCode(t) == Some(CodePoint(code, |t|)) && forall k :: 0 <= k < |t| ==> Plain(t[k]))
    || Escaped(code, t)
  }

  /** The texts spell the codes one by one. */
  ghost predicate SpellsAll(codes: seq<nat>, ts: seq<string>) {
    |codes| == |ts| && forall k :: 0 <= k < |ts| ==> Spells(codes[k], ts[k])
  }

  /** Bytes that stand for themselves are copied. */
  lemma {:induction false} PlainRead(s: string, i: nat, t: string)
    requires At(s, i, t) && StringEnd(s, i + |t|).Some? && forall k :: 0 <= k < |t| ==> Plain(t[k])
    ensures StringEnd(s, i) == StringEnd(s, i + |t|)
    ensures Decoded(s, i) == t + Decoded(s, i + |t|)
    decreases |t|
  {
    hide StringEnd, Decoded, At;
    if t != "" {
      assert t == [t[0]] + t[1..];
      AtConcat(s, i, [t[0]], t[1..]);
      AtOne(s, i, t[0]);
      PlainRead(s, i + 1, t[1..]);
      PlainOne(s, i);
    }
  }

  lemma PlainOne(s: string, i: nat)
    requires i < |s| && Plain(s[i]) && StringEnd(s, i + 1).Some?
    ensures StringEnd(s, i) == StringEnd(s, i + 1) && Decoded(s, i) == [s[i]] + Decoded(s, i + 1)
  {
  }

  lemma EscapeRead(s: string, i: nat, t: string, code: nat)
    requires At(s, i, t) && StringEnd(s, i + |t|).Some? && Escaped(code, t)
    ensures StringEnd(s, i) == StringEnd(s, i + |t|)
    ensures code < 0x10000 && Decoded(s, i) == Utf8(code) + Decoded(s, i + |t|)
  {
    hide Unit, UnitText, Utf8;
    assert |t| >= 2 && s[i] == t[0] == '\\';
    EscapeExactly(s, i, t);
  }

  lemma SpelledRead(s: string, i: nat, t: string, code: nat)
    requires At(s, i, t) && StringEnd(s, i + |t|).Some? && Spells(code, t)
    ensures StringEnd(s, i) == StringEnd(s, i + |t|)
    ensures code < 0x10000 && Decoded(s, i) == Utf8(code) + Decoded(s, i + |t|)
  {
    hide StringEnd, Decoded, Escaped, Utf8;
    if Escaped(code, t) {
      EscapeRead(s, i, t, code);
    } else {
      PlainRead(s, i, t);
      Utf8Exactly(code, t);
    }
  }

  /** However the characters of a string are written in a JSON text, the bytes that are read are the
      UTF-8 of these characters. */
  lemma {:induction false} StringMeaning(s: string, i: nat, codes: seq<nat>, ts: seq<string>)
    requires SpellsAll(codes, ts) && At(s, i, Joined(ts) + "\"")
    ensures StringEnd(s, i) == Some(i + |Joined(ts)|)
    ensures CodePoints(Decoded(s, i)) == Some(codes)
    decreases |ts|
  {
    hide Spells, Utf8, FirstCode, StringEnd, Decoded, At;
    if ts == [] {
      assert Joined(ts) + "\"" == "\"";
      AtOne(s, i, '"');
      QuoteRead(s, i);
    } else {
      var t, rest := ts[0], Joined(ts[1..]);
      assert Spells(codes[0], t);
      assert Joined(ts) + "\"" == t + (rest + "\"");
      AtConcat(s, i, t, rest + "\"");
      StringMeaning(s, i + |t|, codes[1..], ts[1..]);
      SpelledRead(s, i, t, codes[0]);
      CodesCons(codes[0], Decoded(s, i + |t|));
      assert codes == [codes[0]] + codes[1..];
    }
  }

  lemma QuoteRead(s: string, i: nat)
    requires i < |s| && s[i] == '"'
    ensures StringEnd(s, i) == Some(i) && Decoded(s, i) == ""
  {
  }

  lemma CodesCons(code: nat, rest: string)
    requires code < 0x10000
    ensures CodePoints(rest).Some? ==> CodePoints(Utf8(code) + rest) == Some([code] + CodePoints(rest).value)
  {
    hide Utf8, FirstCode;
    Utf8Decodes(code, rest);
    assert (Utf8(code) + rest)[|Utf8(code)|..] == rest;
  }

  // ---- strings of any bytes

  /** A byte that is copied, or an escape and the UTF-8 of its code. */
  ghost predicate Piece(t: string, b: string) {
    || (|t| == 1 && Plain(t[0]) && b == t)
    || (exists code :: Escaped(code, t) && FirstCode(b) == Some(CodePoint(code, |b|)))
  }

  ghost predicate Pieces(ts: seq<string>, bs: seq<string>) {
    |ts| == |bs| && forall k :: 0 <= k < |ts| ==> Piece(ts[k], bs[k])
  }

  lemma PieceRead(s: string, i: nat, t: string, b: string)
    requires Piece(t, b) && At(s, i, t) && StringEnd(s, i + |t|).Some?
    ensures StringEnd(s, i) == StringEnd(s, i + |t|) && Decoded(s, i) == b + Decoded(s, i + |t|)
  {
    hide StringEnd, Decoded, Escaped, FirstCode, Utf8;
    if code :| Escaped(code, t) && FirstCode(b) == Some(CodePoint(code, |b|)) {
      EscapeRead(s, i, t, code);
      Utf8Exactly(code, b);
    } else {
      PlainRead(s, i, t);
    }
  }

  lemma {:induction false} PiecesRead(s: string, i: nat, ts: seq<string>, bs: seq<string>)
    requires Pieces(ts, bs) && At(s, i, Joined(ts) + "\"")
    ensures StringEnd(s, i) == Some(i + |Joined(ts)|) && Decoded(s, i) == Joined(bs)
    decreases |ts|
  {
    hide Piece, StringEnd, Decoded, At;
    if ts == [] {
      assert Joined(ts) + "\"" == "\"";
      AtOne(s, i, '"');
      QuoteRead(s, i);
    } else {
      var t, rest := ts[0], Joined(ts[1..]);
      assert Joined(ts) + "\"" == t + (rest + "\"");
      AtConcat(s, i, t, rest + "\"");
      PiecesRead(s, i + |t|, ts[1..], bs[1..]);
      PieceRead(s, i, t, bs[0]);
    }
  }

  lemma UnitPiece(s: string, i: nat)
    requires i <= |s| && Unit(s, i) > 0
    ensures Piece(s[i..i + Unit(s, i)], UnitText(s, i))
  {
    hide Escaped, FirstCode;
    var n := Unit(s, i);
    var t := s[i..i + n];
    if n > 1 {
      assert At(s, i, t) && t[0] == s[i] == '\\';
      EscapeExactly(s, i, t);
      var code :| Escaped(code, t);
      Utf8Exactly(code, UnitText(s, i));
    }
  }

  lemma {:induction false} PiecesFound(s: string, i: nat) returns (ts: seq<string>, bs: seq<string>)
    requires i <= |s| && StringEnd(s, i).Some?
    ensures Pieces(ts, bs) && s[i..StringEnd(s, i).value] == Joined(ts) && Decoded(s, i) == Joined(bs)
    decreases |s| - i
  {
    hide Piece, Unit, UnitText;
    if s[i] == '"' {
      ts, bs := [], [];
    } else {
      var n := Unit(s, i);
      var us, cs := PiecesFound(s, i + n);
      UnitPiece(s, i);
      ts, bs := [s[i..i + n]] + us, [UnitText(s, i)] + cs;
      assert s[i..StringEnd(s, i).value] == s[i..i + n] + s[i + n..StringEnd(s, i).value];
    }
  }

  /** The text of s between i and e is the inside of a string of these bytes. */
  ghost predicate Inside(s: string, i: nat, bytes: string, e: nat) {
    i <= e <= |s| && exists ts, bs :: Pieces(ts, bs) && s[i..e] == Joined(ts) && bytes == Joined(bs)
  }

  /** A string ends at its first quote that is no part of an escape: what is read is what is written. */
  lemma StringExactly(s: string, i: nat, bytes: string, e: nat)
    requires i <= |s|
    ensures StringEnd(s, i) == Some(e) && Decoded(s, i) == bytes <==>
            Inside(s, i, bytes, e) && e < |s| && s[e] == '"'
  {
    hide Pieces, Joined, StringEnd, Decoded;
    if StringEnd(s, i) == Some(e) && Decoded(s, i) == bytes {
      var ts, bs := PiecesFound(s, i);
    } else if Inside(s, i, bytes, e) && e < |s| && s[e] == '"' {
      var ts, bs :| Pieces(ts, bs) && s[i..e] == Joined(ts) && bytes == Joined(bs);
      assert s[i..e + 1] == Joined(ts) + "\"";
      assert At(s, i, s[i..e + 1]);
      PiecesRead(s, i, ts, bs);
    }
  }

  predicate HighSurrogate(code: nat) {
    0xD800 <= code < 0xDC00
  }

  predicate LowSurrogate(code: nat) {
    0xDC00 <= code < 0xE000
  }

  predicate PairAt(codes: seq<nat>, k: nat) {
    k + 1 < |codes| && HighSurrogate(codes[k]) && LowSurrogate(codes[k + 1])
  }

  /** Section 7 of RFC 8259: two surrogates beside each other stand for one character above 0xFFFF. */
  function Characters(codes: seq<nat>): seq<nat> {
    if codes == [] then []
    else if PairAt(codes, 0) then
      [0x10000 + (codes[0] - 0xD800) * 0x400 + (codes[1] - 0xDC00)] + Characters(codes[2..])
    else [codes[0]] + Characters(codes[1..])
  }

  lemma {:induction false} CharactersShorter(codes: seq<nat>)
    ensures |Characters(codes)| <= |codes|
    decreases |codes|
  {
    if codes != [] {
      CharactersShorter(if PairAt(codes, 0) then codes[2..] else codes[1..]);
    }
  }

  lemma PairsBehind(codes: seq<nat>)
    requires codes != [] && !PairAt(codes, 0)
    ensures (forall k :: !PairAt(codes, k)) <==> forall k :: !PairAt(codes[1..], k)
  {
    var rest := codes[1..];
    if k: nat :| PairAt(codes, k) {
      assert PairAt(rest, k - 1);
    } else if k: nat :| PairAt(rest, k) {
      assert PairAt(codes, k + 1);
    }
  }

  /** The code reads escapes one by one: the string is what RFC 8259 says exactly when its escapes have no
      pair of surrogates. */
  lemma {:induction false} SurrogatesExactly(codes: seq<nat>)
    ensures Characters(codes) == codes <==> forall k :: !PairAt(codes, k)
    decreases |codes|
  {
    if codes != [] {
      if PairAt(codes, 0) {
        CharactersShorter(codes[2..]);
      } else {
        SurrogatesExactly(codes[1..]);
        PairsBehind(codes);
        assert codes == [codes[0]] + codes[1..];
        assert Characters(codes)[1..] == Characters(codes[1..]);
      }
    }
  }

  // ---------------------------------------------------------------- numbers

  datatype Fraction = NoFraction | Fraction(digits: string)

  datatype Exponent = NoExponent | Exponent(mark: char, sign: string, digits: string)

  /** A number as section 6 of RFC 8259 takes it apart. */
  datatype Numeral = Numeral(minus: bool, whole: string, fraction: Fraction, exponent: Exponent)

  function MinusText(minus: bool): string {
    if minus then "-" else ""
  }

  function FractionText(f: Fraction): string {
    if f.NoFraction? then "" else "." + f.digits
  }

  function ExponentText(x: Exponent): string {
    if x.NoExponent? then "" else [x.mark] + x.sign + x.digits
  }

  function NumeralText(n: Numeral): string {
    MinusText(n.minus) + n.whole + FractionText(n.fraction) + ExponentText(n.exponent)
  }

  predicate AllDigits(t: string) {
    forall k :: 0 <= k < |t| ==> IsDigit(t[k])
  }

  /** What both the standard and the code ask for: no leading zero, and digits where they belong. */
  predicate Shaped(n: Numeral) {
    && AllDigits(n.whole) && n.whole != "" && (n.whole[0] == '0' ==> n.whole == "0")
    && (n.fraction.Fraction? ==> AllDigits(n.fraction.digits))
    && (n.exponent.Exponent? ==>
          n.exponent.mark in "eE" && n.exponent.sign in ["", "+", "-"] && AllDigits(n.exponent.digits))
  }

  /** Section 6 of RFC 8259: the digits of a fraction and of an exponent are not missing. */
  predicate Standard(n: Numeral) {
    && Shaped(n)
    && (n.fraction.Fraction? ==> n.fraction.digits != "")
    && (n.exponent.Exponent? ==> n.exponent.digits != "")
  }

  /** What the code takes: digits may be missing behind the point and behind the sign of the exponent,
      and a lone zero has no exponent. */
  predicate Tolerated(n: Numeral) {
    && Shaped(n)
    && (n.exponent.Exponent? ==>
          (n.exponent.sign != "" || n.exponent.digits != "") && (n.whole != "0" || n.fraction.Fraction?))
  }

  /** No character of a number follows. */
  predicate Ends(s: string, e: nat) {
    e == |s| || (e < |s| && !NumberChar(s[e]))
  }

  // ---- from the pieces to the end

  predicate InDigits(st: NumberState) {
    st == Digits || st == DigitsAfterPoint || st == DigitsAfterE
  }

  /** Among digits the automaton stays in its state up to their end. */
  lemma {:induction false} DigitsSkip(s: string, i: nat, st: NumberState)
    requires i <= |s| && InDigits(st)
    ensures NumberEnd(s, i, st) == NumberEnd(s, DigitsEnd(s, i), st)
    decreases |s| - i
  {
    if i < |s| && s[i] == '0' {
      DigitsSkip(s, i + 1, st);
    }
  }

  lemma DigitsEndIs(s: string, i: nat, t: string)
    requires At(s, i, t) && AllDigits(t) && (i + |t| == |s| || !IsDigit(s[i + |t|]))
    ensures DigitsEnd(s, i) == i + |t|
  {
    forall k | i <= k < i + |t|
      ensures IsDigit(s[k])
    {
      assert s[i + (k - i)] == t[k - i];
    }
  }

  /** Digits in front of something else. */
  lemma DigitsRead(s: string, i: nat, t: string, st: NumberState)
    requires At(s, i, t) && AllDigits(t) && (i + |t| == |s| || !IsDigit(s[i + |t|])) && InDigits(st)
    ensures NumberEnd(s, i, st) == NumberEnd(s, i + |t|, st)
  {
    hide NumberEnd;
    DigitsSkip(s, i, st);
    DigitsEndIs(s, i, t);
  }

  lemma ExponentRead(s: string, i: nat, x: Exponent, st: NumberState)
    requires At(s, i, ExponentText(x)) && Ends(s, i + |ExponentText(x)|) && (st == Digits || st == DigitsAfterPoint)
    requires x.Exponent? ==> x.mark in "eE" && x.sign in ["", "+", "-"] && AllDigits(x.digits)
    requires x.Exponent? ==> x.sign != "" || x.digits != ""
    ensures NumberEnd(s, i, st) == Some(i + |ExponentText(x)|)
  {
    hide At, AllDigits;
    if x.Exponent? {
      AtConcat(s, i, [x.mark] + x.sign, x.digits);
      AtConcat(s, i, [x.mark], x.sign);
      AtOne(s, i, x.mark);
      var d := i + 1 + |x.sign|;
      assert NumberEnd(s, i, st) == NumberEnd(s, i + 1, E);
      if x.sign == "" {
        ExponentDigits(s, d, x.digits);
      } else {
        assert x.sign == [x.sign[0]];
        AtOne(s, i + 1, x.sign[0]);
        SignedDigits(s, i + 1, x.digits);
      }
    }
  }

  lemma SignedDigits(s: string, i: nat, t: string)
    requires i < |s| && s[i] in "+-" && At(s, i + 1, t) && AllDigits(t) && Ends(s, i + 1 + |t|)
    ensures NumberEnd(s, i, E) == Some(i + 1 + |t|)
  {
    DigitsRead(s, i + 1, t, DigitsAfterE);
    assert NumberEnd(s, i, E) == NumberEnd(s, i + 1, DigitsAfterE);
  }

  lemma ExponentDigits(s: string, i: nat, t: string)
    requires At(s, i, t) && t != "" && AllDigits(t) && Ends(s, i + |t|)
    ensures NumberEnd(s, i, E) == Some(i + |t|)
  {
    assert s[i + 0] == t[0];
    DigitsRead(s, i, t, DigitsAfterE);
    assert NumberEnd(s, i, E) == NumberEnd(s, i, DigitsAfterE);
  }

  lemma NotDigit(s: string, i: nat, x: Exponent)
    requires At(s, i, ExponentText(x)) && Ends(s, i + |ExponentText(x)|)
    requires x.Exponent? ==> x.mark in "eE"
    ensures i == |s| || !IsDigit(s[i])
  {
    if x.Exponent? {
      AtConcat(s, i, [x.mark] + x.sign, x.digits);
      AtConcat(s, i, [x.mark], x.sign);
      AtOne(s, i, x.mark);
    }
  }

  predicate GoodExponent(x: Exponent) {
    x.Exponent? ==>
      x.mark in "eE" && x.sign in ["", "+", "-"] && AllDigits(x.digits) && (x.sign != "" || x.digits != "")
  }

  predicate GoodTail(f: Fraction, x: Exponent, st: NumberState) {
    && (st == ZeroFirst || st == Digits) && GoodExponent(x)
    && (f.Fraction? ==> AllDigits(f.digits))
    && (st == ZeroFirst && x.Exponent? ==> f.Fraction?)
  }

  lemma PointRead(s: string, i: nat, st: NumberState)
    requires i < |s| && s[i] == '.' && (st == ZeroFirst || st == Digits)
    ensures NumberEnd(s, i, st) == NumberEnd(s, i + 1, DigitsAfterPoint)
  {
  }

  /** The fraction and the exponent behind the whole part. */
  lemma TailRead(s: string, i: nat, f: Fraction, x: Exponent, st: NumberState)
    requires GoodTail(f, x, st)
    requires At(s, i, FractionText(f) + ExponentText(x)) && Ends(s, i + |FractionText(f) + ExponentText(x)|)
    ensures NumberEnd(s, i, st) == Some(i + |FractionText(f) + ExponentText(x)|)
  {
    hide At, AllDigits, ExponentText;
    AtConcat(s, i, FractionText(f), ExponentText(x));
    if f.Fraction? {
      AtConcat(s, i, ".", f.digits);
      AtOne(s, i, '.');
      var d := i + 1 + |f.digits|;
      NotDigit(s, d, x);
      PointRead(s, i, st);
      DigitsRead(s, i + 1, f.digits, DigitsAfterPoint);
      ExponentRead(s, d, x, DigitsAfterPoint);
    } else {
      assert FractionText(f) + ExponentText(x) == ExponentText(x);
      if st == Digits {
        ExponentRead(s, i, x, st);
      } else {
        NoText();
        NothingRead(s, i, x);
      }
    }
  }

  lemma NothingRead(s: string, i: nat, x: Exponent)
    requires x.NoExponent? && i <= |s| && Ends(s, i)
    ensures NumberEnd(s, i, ZeroFirst) == Some(i + |ExponentText(x)|)
  {
  }

  predicate BeforeWhole(st: NumberState) {
    st == Minus || st == AfterMinus
  }

  function WholeState(whole: string): NumberState {
    if whole == "0" then ZeroFirst else Digits
  }

  /** The whole part, without a leading zero. */
  lemma WholeRead(s: string, i: nat, whole: string, st: NumberState)
    requires BeforeWhole(st) && At(s, i, whole)
    requires AllDigits(whole) && whole != "" && (whole[0] == '0' ==> whole == "0")
    requires whole != "0" ==> i + |whole| == |s| || !IsDigit(s[i + |whole|])
    ensures NumberEnd(s, i, st) == NumberEnd(s, i + |whole|, WholeState(whole))
  {
    assert whole == [whole[0]] + whole[1..];
    AtConcat(s, i, [whole[0]], whole[1..]);
    AtOne(s, i, whole[0]);
    if whole[0] != '0' {
      DigitsEndIs(s, i + 1, whole[1..]);
    }
  }

  /** A numeral that the code tolerates, in front of anything but a character of a number, is taken as a
      whole. */
  lemma NumeralRead(s: string, i: nat, n: Numeral)
    requires Tolerated(n) && At(s, i, NumeralText(n)) && Ends(s, i + |NumeralText(n)|)
    ensures NumberEnd(s, i, Minus) == Some(i + |NumeralText(n)|)
  {
    hide At, AllDigits, ExponentText, FractionText, NumberEnd;
    var tail := FractionText(n.fraction) + ExponentText(n.exponent);
    assert NumeralText(n) == MinusText(n.minus) + (n.whole + tail);
    AtConcat(s, i, MinusText(n.minus), n.whole + tail);
    var w := i + |MinusText(n.minus)|;
    AtConcat(s, w, n.whole, tail);
    var t := w + |n.whole|;
    AtConcat(s, t, FractionText(n.fraction), ExponentText(n.exponent));
    TailRead(s, t, n.fraction, n.exponent, WholeState(n.whole));
    TailNotDigit(s, t, n.fraction, n.exponent);
    if n.minus {
      AtOne(s, i, '-');
      MinusRead(s, i);
      WholeRead(s, w, n.whole, AfterMinus);
    } else {
      WholeRead(s, w, n.whole, Minus);
    }
  }

  lemma TailNotDigit(s: string, i: nat, f: Fraction, x: Exponent)
    requires At(s, i, FractionText(f)) && At(s, i + |FractionText(f)|, ExponentText(x))
    requires Ends(s, i + |FractionText(f) + ExponentText(x)|) && GoodExponent(x)
    ensures i == |s| || !IsDigit(s[i])
  {
    hide At, ExponentText, AllDigits;
    if f.Fraction? {
      AtConcat(s, i, ".", f.digits);
      AtOne(s, i, '.');
    } else {
      NotDigit(s, i, x);
    }
  }

  lemma MinusRead(s: string, i: nat)
    requires i < |s| && s[i] == '-'
    ensures NumberEnd(s, i, Minus) == NumberEnd(s, i + 1, AfterMinus)
  {
  }

  // ---- from the end to the pieces

  /** Digits to the end. */
  lemma DigitsFound(s: string, i: nat, e: nat)
    requires i <= |s| && NumberEnd(s, i, DigitsAfterE) == Some(e)
    ensures e == DigitsEnd(s, i) && Ends(s, e) && AllDigits(s[i..e])
  {
    DigitsSkip(s, i, DigitsAfterE);
    PowerEnds(s, DigitsEnd(s, i));
  }

  lemma PowerEnds(s: string, i: nat)
    requires i <= |s| && NumberEnd(s, i, DigitsAfterE).Some? && (i < |s| ==> !IsDigit(s[i]))
    ensures Ends(s, i) && NumberEnd(s, i, DigitsAfterE) == Some(i)
  {
  }

  lemma PowerFound(s: string, i: nat, e: nat) returns (sign: string, digits: string)
    requires i <= |s| && NumberEnd(s, i, E) == Some(e)
    ensures i < e && Ends(s, e) && s[i..e] == sign + digits
    ensures sign in ["", "+", "-"] && AllDigits(digits) && (sign != "" || digits != "")
  {
    assert i < |s| && (IsDigit(s[i]) || s[i] in "+-");
    if IsDigit(s[i]) {
      assert NumberEnd(s, i, E) == NumberEnd(s, i, DigitsAfterE);
      DigitsFound(s, i, e);
      assert i < e;
      sign, digits := "", s[i..e];
    } else {
      assert NumberEnd(s, i, E) == NumberEnd(s, i + 1, DigitsAfterE);
      DigitsFound(s, i + 1, e);
      sign, digits := [s[i]], s[i + 1..e];
    }
  }

  /** Behind digits, without a point: an exponent or nothing. */
  lemma ExponentFound(s: string, i: nat, st: NumberState, e: nat) returns (x: Exponent)
    requires i <= |s| && NumberEnd(s, i, st) == Some(e) && (st == Digits || st == DigitsAfterPoint)
    requires i < |s| ==> !IsDigit(s[i]) && (st == Digits ==> s[i] != '.')
    ensures Ends(s, e) && GoodExponent(x) && s[i..e] == ExponentText(x)
  {
    if Ends(s, i) {
      x := NoExponent;
    } else {
      assert s[i] in "eE" && NumberEnd(s, i, st) == NumberEnd(s, i + 1, E);
      var sign, digits := PowerFound(s, i + 1, e);
      x := Exponent(s[i], sign, digits);
      assert s[i..e] == [s[i]] + s[i + 1..e];
      assert [s[i]] + (sign + digits) == [s[i]] + sign + digits;
    }
  }

  lemma TailFound(s: string, i: nat, st: NumberState, e: nat) returns (f: Fraction, x: Exponent)
    requires i <= |s| && NumberEnd(s, i, st) == Some(e) && (st == ZeroFirst || st == Digits)
    requires i < |s| ==> !IsDigit(s[i])
    ensures Ends(s, e) && GoodTail(f, x, st) && s[i..e] == FractionText(f) + ExponentText(x)
  {
    hide ExponentText, AllDigits, NumberEnd;
    if i < |s| && s[i] == '.' {
      PointRead(s, i, st);
      DigitsSkip(s, i + 1, DigitsAfterPoint);
      var d := DigitsEnd(s, i + 1);
      f := Fraction(s[i + 1..d]);
      AllDigitsOf(s, i + 1);
      x := ExponentFound(s, d, DigitsAfterPoint, e);
      PointPieces(s, i, d, e);
    } else if st == Digits {
      f := NoFraction;
      x := ExponentFound(s, i, st, e);
      assert FractionText(f) + ExponentText(x) == ExponentText(x);
    } else {
      f, x := NoFraction, NoExponent;
      NothingFound(s, i, e);
      assert FractionText(f) + ExponentText(x) == "" by { NoText(); }
    }
  }

  lemma PointPieces(s: string, i: nat, d: nat, e: nat)
    requires i < d <= e <= |s| && s[i] == '.'
    ensures s[i..e] == "." + s[i + 1..d] + s[d..e]
  {
    assert s[i..e] == [s[i]] + s[i + 1..d] + s[d..e];
  }

  lemma NoText()
    ensures ExponentText(NoExponent) == ""
  {
  }

  lemma AllDigitsOf(s: string, i: nat)
    requires i <= |s|
    ensures AllDigits(s[i..DigitsEnd(s, i)])
  {
  }

  lemma NothingFound(s: string, i: nat, e: nat)
    requires i <= |s| && NumberEnd(s, i, ZeroFirst) == Some(e) && (i < |s| ==> !IsDigit(s[i]) && s[i] != '.')
    ensures e == i && Ends(s, e)
  {
  }

  lemma WholeFound(s: string, i: nat, st: NumberState, e: nat) returns (w: nat)
    requires i <= |s| && NumberEnd(s, i, st) == Some(e) && BeforeWhole(st)
    requires st == Minus ==> i < |s| && s[i] != '-'
    ensures i < w <= |s| && AllDigits(s[i..w]) && (s[i] == '0' ==> w == i + 1)
    ensures NumberEnd(s, w, WholeState(s[i..w])) == Some(e) && (w < |s| ==> !IsDigit(s[w]))
  {
    assert i < |s| && IsDigit(s[i]);
    w := if s[i] == '0' then i + 1 else DigitsEnd(s, i + 1);
    if s[i] == '0' {
      assert s[i..w] == "0";
      NoDigitBehindZero(s, w);
    } else {
      assert s[i..w][0] == s[i];
    }
  }

  lemma NoDigitBehindZero(s: string, i: nat)
    requires i <= |s| && NumberEnd(s, i, ZeroFirst).Some?
    ensures i < |s| ==> !IsDigit(s[i])
  {
  }

  /** What the code takes is a numeral that it tolerates. */
  lemma NumeralFound(s: string, i: nat, e: nat) returns (n: Numeral)
    requires i <= |s| && NumberEnd(s, i, Minus) == Some(e)
    ensures Ends(s, e) && Tolerated(n) && s[i..e] == NumeralText(n)
  {
    hide AllDigits, ExponentText, FractionText, NumberEnd;
    var minus := i < |s| && s[i] == '-';
    var v := if minus then i + 1 else i;
    if minus {
      MinusRead(s, i);
    } else {
      FirstOfNumber(s, i);
    }
    var w := WholeFound(s, v, if minus then AfterMinus else Minus, e);
    var f, x := TailFound(s, w, WholeState(s[v..w]), e);
    n := Numeral(minus, s[v..w], f, x);
    FourPieces(s, i, v, w, e);
    assert s[v..w][0] == s[v];
    assert s[v] == '0' ==> s[v..w] == "0";
  }

  lemma FirstOfNumber(s: string, i: nat)
    requires i <= |s| && NumberEnd(s, i, Minus).Some?
    ensures i < |s|
  {
  }

  lemma FourPieces(s: string, i: nat, v: nat, w: nat, e: nat)
    requires i <= v <= w <= e <= |s|
    ensures s[i..e] == s[i..v] + s[v..w] + s[w..e]
    ensures v == i ==> s[i..v] == ""
    ensures v == i + 1 ==> s[i..v] == [s[i]]
  {
  }

  /** A number of the text is taken if and only if it is a numeral that the code tolerates, with no character
      of a number behind it. */
  lemma NumberExactly(s: string, i: nat, e: nat)
    requires i <= e <= |s|
    ensures NumberEnd(s, i, Minus) == Some(e) <==>
            Ends(s, e) && exists n :: Tolerated(n) && s[i..e] == NumeralText(n)
  {
    hide Ends, Tolerated, NumeralText, NumberEnd;
    if NumberEnd(s, i, Minus) == Some(e) {
      var n := NumeralFound(s, i, e);
    } else if Ends(s, e) {
      forall n | Tolerated(n) && s[i..e] == NumeralText(n)
        ensures NumberEnd(s, i, Minus) == Some(e)
      {
        SliceStands(s, i, e);
        NumeralRead(s, i, n);
      }
    }
  }

  lemma SliceStands(s: string, i: nat, e: nat)
    requires i <= e <= |s|
    ensures At(s, i, s[i..e]) && i + |s[i..e]| == e
  {
  }

  /** The numbers of RFC 8259 are taken, except a lone zero with an exponent; and beyond them only numbers
      whose fraction or exponent has no digits. */
  lemma StandardExactly(n: Numeral)
    requires Shaped(n)
    ensures Standard(n) ==> (Tolerated(n) <==> !(n.whole == "0" && n.fraction.NoFraction? && n.exponent.Exponent?))
    ensures Tolerated(n) ==>
              (Standard(n) <==> n.fraction != Fraction("") && (n.exponent.Exponent? ==> n.exponent.digits != ""))
  {
  }
}

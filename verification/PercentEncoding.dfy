/** What a value of a query string (crow/query_string.h) stands for, however it is written: section 2.1 of
    RFC 3986 with hexadecimal digits in either case, a plus sign for a space, and any other character for
    itself. */
module PercentEncoding {
  import opened Sequences
  import opened Texts
  import opened QueryString

  /** Upper and lower case digits are read alike, and nothing else is taken for a digit. */
  lemma HexExactly(c: char, n: nat)
    ensures IsHex(c) && HexToDec(c) == n <==> HexDigitOf(c, n)
  {
  }

  /** A text that stands for one byte of a value. */
  ghost predicate Spells(c: char, t: string) {
    || (|t| == 1 && t[0] == c && c !in ['+', '%', '=', '#', '&', '\0'])
    || (t == "+" && c == ' ')
    || (|t| == 3 && t[0] == '%' &&
        exists h: nat, l: nat :: HexDigitOf(t[1], h) && HexDigitOf(t[2], l) && c as nat == 16 * h + l)
  }

  /** The texts spell the bytes one by one. */
  ghost predicate SpellsAll(cs: string, ts: seq<string>) {
    |cs| == |ts| && forall k :: 0 <= k < |ts| ==> Spells(cs[k], ts[k])
  }

  /** Where a value ends: a character between pairs, the end of the text, or a percent sign without two
      digits behind it. */
  predicate Stops(s: string, i: nat) {
    Peek(s, i) in ['=', '#', '&', '\0'] || (Peek(s, i) == '%' && !(IsHex(Peek(s, i + 1)) && IsHex(Peek(s, i + 2))))
  }

  lemma SpelledUnit(s: string, i: nat, c: char, t: string)
    requires At(s, i, t) && Spells(c, t)
    ensures Unit(s, i) == |t| && |t| > 0 && UnitChar(s, i) == c
  {
    hide HexDigitOf;
    assert s[i + 0] == t[0];
    if |t| == 3 {
      var h: nat, l: nat :| HexDigitOf(t[1], h) && HexDigitOf(t[2], l) && c as nat == 16 * h + l;
      HexExactly(t[1], h);
      HexExactly(t[2], l);
      assert s[i + 1] == t[1] && s[i + 2] == t[2];
    }
  }

  /** However the bytes of a value are written, these bytes are decoded. */
  lemma {:induction false} ValueMeaning(s: string, i: nat, cs: string, ts: seq<string>)
    requires SpellsAll(cs, ts) && At(s, i, Joined(ts)) && Stops(s, i + |Joined(ts)|)
    ensures Decoded(s, i) == cs
    decreases |ts|
  {
    hide Spells, At;
    if ts != [] {
      var t, rest := ts[0], Joined(ts[1..]);
      assert Spells(cs[0], t);
      AtConcat(s, i, t, rest);
      SpelledUnit(s, i, cs[0], t);
      ValueMeaning(s, i + |t|, cs[1..], ts[1..]);
      assert cs == [cs[0]] + cs[1..];
    }
  }

  /** And what is decoded is written in this way, up to where the value ends. */
  lemma {:induction false} ValueFound(s: string, i: nat) returns (ts: seq<string>)
    requires i <= |s|
    ensures SpellsAll(Decoded(s, i), ts)
    ensures At(s, i, Joined(ts)) && Stops(s, i + |Joined(ts)|)
    decreases |s| - i
  {
    hide Spells;
    var n := Unit(s, i);
    if n == 0 {
      ts := [];
    } else {
      var us := ValueFound(s, i + n);
      UnitSpelled(s, i);
      ts := [s[i..i + n]] + us;
      Together(s, i, n, Joined(us));
    }
  }

  lemma Together(s: string, i: nat, n: nat, t: string)
    requires i + n <= |s| && At(s, i + n, t)
    ensures At(s, i, s[i..i + n] + t)
  {
    var w := s[i..i + n] + t;
    forall k | 0 <= k < |w|
      ensures s[i + k] == w[k]
    {
      if k >= n {
        assert s[i + n + (k - n)] == t[k - n];
      }
    }
  }

  lemma UnitSpelled(s: string, i: nat)
    requires i <= |s| && Unit(s, i) > 0
    ensures Spells(UnitChar(s, i), s[i..i + Unit(s, i)])
  {
    if Unit(s, i) == 3 {
      var t := s[i..i + 3];
      var h, l := HexToDec(t[1]), HexToDec(t[2]);
      HexExactly(t[1], h);
      HexExactly(t[2], l);
      assert UnitChar(s, i) as nat == 16 * h + l;
    } else {
      assert s[i..i + 1] == [s[i]];
    }
  }
}

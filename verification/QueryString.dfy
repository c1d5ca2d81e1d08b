/** The query string of crow/query_string.h: pairs are found in the text of the URL and their values
    decoded in place; a lookup compares the key with the buffer. A character stands for one byte. */
module QueryString {
  import opened Sequences

  const MAX_PAIRS: nat := 256

  // ---------------------------------------------------------------- characters

  /** Not one of the characters that end a key or value. */
  predicate IsQsChr(c: char) {
    c != '=' && c != '#' && c != '&' && c != '\0'
  }

  predicate IsHex(c: char) {
    '0' <= c <= '9' || 'A' <= c <= 'F' || 'a' <= c <= 'f'
  }

  function HexToDec(c: char): (n: nat)
    ensures n < 16
  {
    if '0' <= c <= '9' then c as nat - 48
    else if 'A' <= c <= 'F' then c as nat - 55
    else if 'a' <= c <= 'f' then c as nat - 87
    else 0
  }

  function HexByte(hi: char, lo: char): char {
    (HexToDec(hi) * 16 + HexToDec(lo)) as char
  }

  function Peek(s: string, i: nat): char {
    if i < |s| then s[i] else '\0'
  }

  // ---------------------------------------------------------------- decoding

  /** How many characters stand for the byte at i of a raw value; 0 where decoding stops. */
  function Unit(s: string, i: nat): (n: nat)
    ensures i + n <= |s| || n == 0
  {
    if !IsQsChr(Peek(s, i)) then 0
    else if s[i] != '%' then 1
    else if IsHex(Peek(s, i + 1)) && IsHex(Peek(s, i + 2)) then 3
    else 0
  }

  function UnitChar(s: string, i: nat): char
    requires Unit(s, i) > 0
  {
    if s[i] == '+' then ' ' else if s[i] == '%' then HexByte(s[i + 1], s[i + 2]) else s[i]
  }

  /** The value that the raw text from i on stands for. */
  function Decoded(s: string, i: nat): (r: string)
    requires i <= |s|
    ensures |r| <= |s| - i
    decreases |s| - i
  {
    if Unit(s, i) == 0 then "" else [UnitChar(s, i)] + Decoded(s, i + Unit(s, i))
  }

  function HexDigit(n: nat): char
    requires n < 16
  {
    if n < 10 then (48 + n) as char else (55 + n) as char
  }

  predicate Unreserved(c: char) {
    'a' <= c <= 'z' || 'A' <= c <= 'Z' || '0' <= c <= '9' || c == '-' || c == '.' || c == '_' || c == '~'
  }

  /** The percent-encoding of section 2.1 of RFC 3986. */
  function EncodeChar(c: char): string
    requires c < 256 as char
  {
    if Unreserved(c) then [c] else ['%', HexDigit(c as nat / 16), HexDigit(c as nat % 16)]
  }

  predicate Bytes(s: string) {
    forall i :: 0 <= i < |s| ==> s[i] < 256 as char
  }

  function Encoded(s: string): string
    requires Bytes(s)
  {
    if s == "" then "" else EncodeChar(s[0]) + Encoded(s[1..])
  }

  lemma HexDigitBack(n: nat)
    requires n < 16
    ensures IsHex(HexDigit(n)) && HexToDec(HexDigit(n)) == n
  {
  }

  lemma EncodedUnit(c: char, rest: string)
    requires c < 256 as char
    ensures var s := EncodeChar(c) + rest;
            Unit(s, 0) == |EncodeChar(c)| > 0 && UnitChar(s, 0) == c
  {
    HexDigitBack(c as nat / 16);
    HexDigitBack(c as nat % 16);
  }

  lemma {:induction false} DecodedShift(a: string, b: string, i: nat)
    requires i <= |b|
    ensures Decoded(a + b, |a| + i) == Decoded(b, i)
    decreases |b| - i
  {
    hide Unit, UnitChar;
    UnitShift(a, b, i);
    if Unit(b, i) > 0 {
      DecodedShift(a, b, i + Unit(b, i));
    }
  }

  lemma UnitShift(a: string, b: string, i: nat)
    requires i <= |b|
    ensures Unit(a + b, |a| + i) == Unit(b, i)
    ensures Unit(b, i) > 0 ==> UnitChar(a + b, |a| + i) == UnitChar(b, i)
  {
    assert Peek(a + b, |a| + i) == Peek(b, i);
    assert Peek(a + b, |a| + i + 1) == Peek(b, i + 1);
    assert Peek(a + b, |a| + i + 2) == Peek(b, i + 2);
  }

  /** Decoding undoes percent-encoding, for every byte string. */
  lemma {:induction false} DecodeUndoesEncode(s: string)
    requires Bytes(s)
    ensures Decoded(Encoded(s), 0) == s
  {
    hide Unit, UnitChar, EncodeChar;
    if s != "" {
      DecodeUndoesEncode(s[1..]);
      var first, rest := EncodeChar(s[0]), Encoded(s[1..]);
      EncodedUnit(s[0], rest);
      DecodedShift(first, rest, 0);
      assert Encoded(s) == first + rest;
      DecodedUnfold(first + rest, 0);
      assert s == [s[0]] + s[1..];
    } else {
      NothingDecoded();
    }
  }

  lemma NothingDecoded()
    ensures Decoded("", 0) == ""
  {
  }

  // ---------------------------------------------------------------- the buffer

  predicate Same(b: string, c: string, lo: nat, hi: nat) {
    lo <= hi <= |b| && |c| == |b| && forall i :: lo <= i < hi ==> b[i] == c[i]
  }

  predicate Ends(c: char) {
    c == '&' || c == '\0'
  }

  /** A raw value: it reaches up to the next pair. */
  predicate RawValue(b: string, i: nat, raw: string) {
    At(b, i, raw) && i + |raw| < |b| && Ends(b[i + |raw|]) && forall k :: 0 <= k < |raw| ==> !Ends(raw[k])
  }

  /** What decoding has not read yet is untouched. */
  predicate Unread(b: string, start: nat, raw: string, j: nat) {
    j <= |raw| && start + |raw| < |b| && Ends(b[start + |raw|]) &&
    forall k :: j <= k < |raw| ==> b[start + k] == raw[k]
  }

  lemma UnitInBuffer(b: string, start: nat, raw: string, j: nat)
    requires Unread(b, start, raw, j) && (forall k :: 0 <= k < |raw| ==> !Ends(raw[k]))
    ensures IsQsChr(b[start + j]) == IsQsChr(Peek(raw, j))
    ensures IsQsChr(b[start + j]) ==>
              j < |raw| && start + j + 1 < |b| && b[start + j] == raw[j] &&
              (IsHex(b[start + j + 1]) ==> start + j + 2 < |b|) &&
              ((IsHex(b[start + j + 1]) && IsHex(b[start + j + 2])) ==
               (IsHex(Peek(raw, j + 1)) && IsHex(Peek(raw, j + 2)))) &&
              (IsHex(Peek(raw, j + 1)) && IsHex(Peek(raw, j + 2)) ==>
                 b[start + j + 1] == raw[j + 1] && b[start + j + 2] == raw[j + 2])
  {
    if j < |raw| {
      assert b[start + j] == raw[j];
      if j + 1 < |raw| {
        assert b[start + (j + 1)] == raw[j + 1];
        if j + 2 < |raw| {
          assert b[start + (j + 2)] == raw[j + 2];
        }
      }
    }
  }

  /** qs_decode: the value is decoded in place and closed by a NUL; nothing beyond it is touched. */
  method QsDecode(b: array<char>, start: nat, ghost raw: string) returns (i: nat)
    requires RawValue(b[..], start, raw)
    modifies b
    ensures i == |Decoded(raw, 0)| <= |raw|
    ensures b[start..start + i] == Decoded(raw, 0) && b[start + i] == '\0'
    ensures Same(old(b[..]), b[..], 0, start) && Same(old(b[..]), b[..], start + |raw| + 1, b.Length)
  {
    hide Decoded, IsQsChr, Unread, RawValue;
    i := 0;
    var j := 0;
    RawUnread(b[..], start, raw);
    assert b[start..start + 0] == "";
    while IsQsChr(b[start + j])
      invariant i <= j <= |raw| && Unread(b[..], start, raw, j) && start + |raw| < b.Length
      invariant b[start..start + i] + Decoded(raw, j) == Decoded(raw, 0)
      invariant Same(old(b[..]), b[..], 0, start) && Same(old(b[..]), b[..], start + |raw|, b.Length)
      decreases |raw| - j
    {
      ghost var done := b[start..start + i];
      var more, j' := DecodeUnit(b, start, i, j, raw);
      if !more {
        return;
      }
      assert b[start..start + i + 1] == done + [b[start + i]];
      assert done + ([b[start + i]] + Decoded(raw, j')) == done + [b[start + i]] + Decoded(raw, j');
      i := i + 1;
      j := j';
    }
    DecodeStep(b[..], start, raw, j);
    b[start + i] := '\0';
  }

  lemma RawUnread(b: string, start: nat, raw: string)
    requires RawValue(b, start, raw)
    ensures Unread(b, start, raw, 0) && (forall k :: 0 <= k < |raw| ==> !Ends(raw[k])) && start + |raw| < |b|
  {
  }

  /** One character of the loop; a bad escape ends the value at once. */
  method DecodeUnit(b: array<char>, start: nat, i: nat, j: nat, ghost raw: string) returns (more: bool, j': nat)
    requires Unread(b[..], start, raw, j) && (forall k :: 0 <= k < |raw| ==> !Ends(raw[k]))
    requires i <= j && start + j < b.Length && IsQsChr(b[start + j])
    modifies b
    ensures more ==>
              j < j' <= |raw| && Decoded(raw, j) == [b[start + i]] + Decoded(raw, j') && Unread(b[..], start, raw, j')
    ensures !more ==> Decoded(raw, j) == "" && b[start + i] == '\0'
    ensures j < |raw| && Same(old(b[..]), b[..], 0, start + i) && Same(old(b[..]), b[..], start + i + 1, b.Length)
  {
    hide Decoded, HexByte, IsHex, IsQsChr;
    DecodeStep(b[..], start, raw, j);
    j' := j;
    if b[start + j] == '+' {
      b[start + i] := ' ';
    } else if b[start + j] == '%' {
      if !IsHex(b[start + j + 1]) || !IsHex(b[start + j + 2]) {
        b[start + i] := '\0';
        return false, j';
      }
      b[start + i] := HexByte(b[start + j + 1], b[start + j + 2]);
      j' := j' + 2;
    } else {
      b[start + i] := b[start + j];
    }
    return true, j' + 1;
  }

  /** What the characters in the buffer say about the rest of the value. */
  lemma DecodeStep(b: string, start: nat, raw: string, j: nat)
    requires Unread(b, start, raw, j) && (forall k :: 0 <= k < |raw| ==> !Ends(raw[k]))
    ensures !IsQsChr(b[start + j]) ==> Decoded(raw, j) == ""
    ensures IsQsChr(b[start + j]) ==> j < |raw| && (IsHex(b[start + j + 1]) ==> start + j + 2 < |b|)
    ensures IsQsChr(b[start + j]) && b[start + j] != '%' ==>
              Decoded(raw, j) == [if b[start + j] == '+' then ' ' else b[start + j]] + Decoded(raw, j + 1)
    ensures IsQsChr(b[start + j]) && b[start + j] == '%' ==>
              if IsHex(b[start + j + 1]) && IsHex(b[start + j + 2]) then
                j + 3 <= |raw| && Decoded(raw, j) == [HexByte(b[start + j + 1], b[start + j + 2])] + Decoded(raw, j + 3)
              else Decoded(raw, j) == ""
  {
    hide Decoded, HexByte;
    UnitInBuffer(b, start, raw, j);
    DecodedUnfold(raw, j);
  }

  lemma DecodedUnfold(s: string, i: nat)
    requires i <= |s|
    ensures Decoded(s, i) == if Unit(s, i) == 0 then "" else [UnitChar(s, i)] + Decoded(s, i + Unit(s, i))
  {
  }

  // ---------------------------------------------------------------- pairs

  /** A key, and the raw value behind the first '=' if there is one. */
  datatype Pair = Pair(key: string, value: Option<string>)

  /** No character that ends a key; it may be escaped. */
  predicate KeyChars(k: string) {
    forall i :: 0 <= i < |k| ==> IsQsChr(k[i])
  }

  predicate GoodPair(p: Pair) {
    KeyChars(p.key) && (p.value.Some? ==> forall i :: 0 <= i < |p.value.value| ==> !Ends(p.value.value[i]))
  }

  predicate GoodPairs(ps: seq<Pair>) {
    forall i :: 0 <= i < |ps| ==> GoodPair(ps[i])
  }

  function TextOf(p: Pair): string {
    p.key + match p.value case None => "" case Some(v) => "=" + v
  }

  /** Where pair j starts, when the first one starts at i. */
  function StartOf(ps: seq<Pair>, i: nat, j: nat): nat
    requires j <= |ps|
  {
    if j == 0 then i else StartOf(ps, i, j - 1) + |TextOf(ps[j - 1])| + 1
  }

  /** The pairs are in the buffer from i on, with '&' between them and a NUL behind the last. */
  predicate PairsAt(b: string, ps: seq<Pair>, i: nat) {
    forall j :: 0 <= j < |ps| ==> RawPair(b, ps[j], StartOf(ps, i, j), j == |ps| - 1)
  }

  predicate RawPair(b: string, p: Pair, i: nat, last: bool) {
    At(b, i, TextOf(p)) && i + |TextOf(p)| < |b| && b[i + |TextOf(p)|] == if last then '\0' else '&'
  }

  function Query(ps: seq<Pair>): string {
    if ps == [] then "" else if |ps| == 1 then TextOf(ps[0]) else TextOf(ps[0]) + "&" + Query(ps[1..])
  }

  lemma {:induction false} StartShift(ps: seq<Pair>, i: nat, j: nat)
    requires 0 < j <= |ps|
    ensures StartOf(ps, i, j) == StartOf(ps[1..], i + |TextOf(ps[0])| + 1, j - 1)
    decreases j
  {
    hide TextOf;
    if j > 1 {
      StartShift(ps, i, j - 1);
    }
  }

  /** The joined text of the pairs lays them out. */
  lemma {:induction false} QueryLaysOut(b: string, ps: seq<Pair>, i: nat)
    requires ps != [] && At(b, i, Query(ps)) && i + |Query(ps)| < |b| && b[i + |Query(ps)|] == '\0'
    ensures PairsAt(b, ps, i)
  {
    hide TextOf, At;
    if |ps| > 1 {
      var text, rest := TextOf(ps[0]), ps[1..];
      assert Query(ps) == (text + "&") + Query(rest);
      AtConcat(b, i, text + "&", Query(rest));
      AtConcat(b, i, text, "&");
      AtOne(b, i + |text|, '&');
      QueryLaysOut(b, rest, i + |text| + 1);
      forall j | 0 <= j < |ps|
        ensures RawPair(b, ps[j], StartOf(ps, i, j), j == |ps| - 1)
      {
        if j > 0 {
          StartShift(ps, i, j);
          assert rest[j - 1] == ps[j];
        }
      }
    }
  }

  // ---------------------------------------------------------------- parsing

  /** strcspn with "&": the length up to the next pair. */
  method Span(b: array<char>, pos: nat, ghost p: Pair, ghost last: bool) returns (n: nat)
    requires GoodPair(p) && RawPair(b[..], p, pos, last)
    ensures n == |TextOf(p)|
  {
    forall x | pos <= x < pos + |TextOf(p)|
      ensures !Ends(b[x])
    {
      InsidePair(b[..], p, pos, last, x - pos);
    }
    n := 0;
    while b[pos + n] != '&' && b[pos + n] != '\0'
      invariant n <= |TextOf(p)| && pos + n < b.Length
      decreases |TextOf(p)| - n
    {
      n := n + 1;
    }
  }

  lemma InsidePair(b: string, p: Pair, pos: nat, last: bool, n: nat)
    requires GoodPair(p) && RawPair(b, p, pos, last) && n < |TextOf(p)|
    ensures !Ends(b[pos + n]) && (n < |p.key| ==> IsQsChr(b[pos + n])) && (n == |p.key| ==> b[pos + n] == '=')
  {
    assert b[pos + n] == TextOf(p)[n];
  }

  /** strcspn with "=&#": the length of the key. */
  method KeySpan(b: array<char>, pos: nat, ghost p: Pair, ghost last: bool) returns (n: nat)
    requires GoodPair(p) && RawPair(b[..], p, pos, last)
    ensures n == |p.key|
  {
    forall x | pos <= x < pos + |TextOf(p)|
      ensures (x < pos + |p.key| ==> IsQsChr(b[x])) && (x == pos + |p.key| ==> b[x] == '=')
    {
      InsidePair(b[..], p, pos, last, x - pos);
    }
    assert |p.key| == |TextOf(p)| || b[pos + |p.key|] == '=';
    n := 0;
    while b[pos + n] != '=' && b[pos + n] != '&' && b[pos + n] != '#' && b[pos + n] != '\0'
      invariant n <= |p.key| && pos + n < b.Length
      decreases |p.key| - n
    {
      n := n + 1;
    }
  }

  function Min(a: nat, b: nat): nat {
    if a < b then a else b
  }

  lemma StartFirst(ps: seq<Pair>, i: nat)
    ensures StartOf(ps, i, 0) == i
  {
  }

  lemma StartNext(ps: seq<Pair>, i: nat, j: nat)
    requires j < |ps|
    ensures StartOf(ps, i, j + 1) == StartOf(ps, i, j) + |TextOf(ps[j])| + 1
  {
  }

  lemma PairEnd(b: string, p: Pair, i: nat, last: bool)
    requires RawPair(b, p, i, last)
    ensures i + |TextOf(p)| < |b| && b[i + |TextOf(p)|] == if last then '\0' else '&'
  {
  }

  /** The first loop of qs_parse: where the pairs start. */
  method FindPairs(b: array<char>, start: nat, ghost ps: seq<Pair>) returns (kv: seq<nat>)
    requires GoodPairs(ps) && ps != [] && PairsAt(b[..], ps, start)
    ensures |kv| == Min(|ps|, MAX_PAIRS)
    ensures forall j :: 0 <= j < |kv| ==> kv[j] == StartOf(ps, start, j)
  {
    hide TextOf, RawPair, GoodPair, StartOf;
    StartFirst(ps, start);
    kv := [];
    var pos := start;
    while |kv| < MAX_PAIRS
      invariant |kv| <= MAX_PAIRS && |kv| < |ps| && pos == StartOf(ps, start, |kv|)
      invariant forall j :: 0 <= j < |kv| ==> kv[j] == StartOf(ps, start, j)
      decreases MAX_PAIRS - |kv|
    {
      ghost var k := |kv|;
      kv := kv + [pos];
      var j := Span(b, pos, ps[k], k == |ps| - 1);
      PairEnd(b[..], ps[k], pos, k == |ps| - 1);
      StartNext(ps, start, k);
      if b[pos + j] == '\0' {
        return;
      }
      pos := pos + j + 1;
    }
  }

  // ---------------------------------------------------------------- decoding all pairs

  /** A pair that has been decoded: its key as it was, then its value and a NUL. */
  predicate Decoded1(b: string, p: Pair, i: nat) {
    At(b, i, p.key) &&
    match p.value
    case None => i + |p.key| < |b| && b[i + |p.key|] == '\0'
    case Some(v) =>
      i + |p.key| < |b| && b[i + |p.key|] == '=' &&
      At(b, i + |p.key| + 1, Decoded(v, 0)) && i + |p.key| + 1 + |Decoded(v, 0)| < |b| &&
      b[i + |p.key| + 1 + |Decoded(v, 0)|] == '\0'
  }

  /** The pairs before j are decoded. */
  predicate AllDecoded(b: string, ps: seq<Pair>, start: nat, j: nat) {
    j <= |ps| && forall k :: 0 <= k < j ==> Decoded1(b, ps[k], StartOf(ps, start, k))
  }

  /** The pairs from j on are raw. */
  predicate AllRaw(b: string, ps: seq<Pair>, start: nat, j: nat) {
    forall k :: j <= k < |ps| ==> RawPair(b, ps[k], StartOf(ps, start, k), k == |ps| - 1)
  }

  lemma AtFrame(b: string, c: string, lo: nat, hi: nat, i: nat, t: string)
    requires Same(b, c, lo, hi) && lo <= i && i + |t| <= hi
    ensures At(b, i, t) == At(c, i, t)
  {
    if At(c, i, t) {
      forall k | 0 <= k < |t|
        ensures b[i + k] == t[k]
      {
        assert c[i + k] == t[k];
      }
    }
  }

  lemma RawPairFrame(b: string, c: string, lo: nat, p: Pair, i: nat, last: bool)
    requires Same(b, c, lo, |b|) && lo <= i && RawPair(b, p, i, last)
    ensures RawPair(c, p, i, last)
  {
    hide TextOf, At;
    assert At(b, i, TextOf(p));
    AtBound(b, i, TextOf(p));
    AtFrame(b, c, lo, |b|, i, TextOf(p));
  }

  lemma AtBound(b: string, i: nat, t: string)
    requires At(b, i, t)
    ensures i + |t| <= |b|
  {
  }

  /** A decoded pair stays inside the room of the raw one. */
  lemma DecodedFrame(b: string, c: string, hi: nat, p: Pair, i: nat)
    requires Same(b, c, 0, hi) && i + |TextOf(p)| < hi && Decoded1(b, p, i)
    ensures Decoded1(c, p, i)
  {
    hide At, Decoded;
    assert |p.key| <= |TextOf(p)|;
    AtFrame(b, c, 0, hi, i, p.key);
    if p.value.Some? {
      assert |TextOf(p)| == |p.key| + 1 + |p.value.value|;
      AtFrame(b, c, 0, hi, i + |p.key| + 1, Decoded(p.value.value, 0));
    }
  }

  lemma {:induction false} StartsGrow(ps: seq<Pair>, start: nat, j: nat, k: nat)
    requires j < k <= |ps|
    ensures StartOf(ps, start, j) + |TextOf(ps[j])| + 1 <= StartOf(ps, start, k)
    decreases k
  {
    hide TextOf;
    if j < k - 1 {
      StartsGrow(ps, start, j, k - 1);
    }
  }

  /** Where key, '=' and raw value of a pair are. */
  lemma RawPairParts(b: string, p: Pair, i: nat, last: bool)
    requires GoodPair(p) && RawPair(b, p, i, last)
    ensures At(b, i, p.key) && i + |p.key| < |b|
    ensures p.value.None? ==> TextOf(p) == p.key && Ends(b[i + |p.key|])
    ensures p.value.Some? ==> b[i + |p.key|] == '=' && RawValue(b, i + |p.key| + 1, p.value.value)
  {
    if p.value.Some? {
      var v := p.value.value;
      assert TextOf(p) == p.key + ("=" + v);
      AtConcat(b, i, p.key, "=" + v);
      AtConcat(b, i + |p.key|, "=", v);
      AtOne(b, i + |p.key|, '=');
    } else {
      assert TextOf(p) == p.key;
    }
  }

  /** One round of the second loop of qs_parse. */
  method DecodePair(b: array<char>, pos: nat, ghost p: Pair, ghost last: bool)
    requires GoodPair(p) && RawPair(b[..], p, pos, last)
    modifies b
    ensures Decoded1(b[..], p, pos)
    ensures Same(old(b[..]), b[..], 0, pos) && Same(old(b[..]), b[..], pos + |TextOf(p)| + 1, b.Length)
  {
    hide At, Decoded;
    RawPairParts(b[..], p, pos, last);
    var n := KeySpan(b, pos, p, last);
    ghost var before := b[..];
    if b[pos + n] == '&' || b[pos + n] == '\0' {
      b[pos + n] := '\0';
      AtFrame(before, b[..], 0, pos + n, pos, p.key);
    } else {
      var len := QsDecode(b, pos + n + 1, p.value.value);
      AtFrame(before, b[..], 0, pos + n + 1, pos, p.key);
      SliceAt(b[..], pos + n + 1, pos + n + 1 + len);
      assert b[..][pos + n + 1..pos + n + 1 + len] == b[pos + n + 1..pos + n + 1 + len];
    }
  }

  lemma SliceAt(b: string, i: nat, j: nat)
    requires i <= j <= |b|
    ensures At(b, i, b[i..j])
  {
  }

  lemma DecodedStay(b: string, c: string, ps: seq<Pair>, start: nat, j: nat)
    requires AllDecoded(b, ps, start, j) && j < |ps|
    requires Same(b, c, 0, StartOf(ps, start, j)) && Decoded1(c, ps[j], StartOf(ps, start, j))
    ensures AllDecoded(c, ps, start, j + 1)
  {
    hide TextOf, Decoded1, StartOf, Same;
    forall k | 0 <= k < j
      ensures Decoded1(c, ps[k], StartOf(ps, start, k))
    {
      StartsGrow(ps, start, k, j);
      DecodedFrame(b, c, StartOf(ps, start, j), ps[k], StartOf(ps, start, k));
    }
  }

  lemma RawStay(b: string, c: string, ps: seq<Pair>, start: nat, j: nat)
    requires AllRaw(b, ps, start, j) && j < |ps|
    requires Same(b, c, StartOf(ps, start, j) + |TextOf(ps[j])| + 1, |b|)
    ensures AllRaw(c, ps, start, j + 1)
  {
    hide TextOf, RawPair, StartOf, Same;
    var lo := StartOf(ps, start, j) + |TextOf(ps[j])| + 1;
    forall k | j < k < |ps|
      ensures RawPair(c, ps[k], StartOf(ps, start, k), k == |ps| - 1)
    {
      StartsGrow(ps, start, j, k);
      RawPairFrame(b, c, lo, ps[k], StartOf(ps, start, k), k == |ps| - 1);
    }
  }

  /** The second loop of qs_parse: every value is decoded in its own room. */
  method DecodePairs(b: array<char>, kv: seq<nat>, ghost ps: seq<Pair>, ghost start: nat)
    requires GoodPairs(ps) && PairsAt(b[..], ps, start) && |kv| <= |ps|
    requires forall j :: 0 <= j < |kv| ==> kv[j] == StartOf(ps, start, j)
    modifies b
    ensures forall j :: 0 <= j < |kv| ==> Decoded1(b[..], ps[j], kv[j])
  {
    hide TextOf, Decoded1, RawPair, StartOf, GoodPair, At;
    var j := 0;
    while j < |kv|
      invariant j <= |kv| && AllDecoded(b[..], ps, start, j) && AllRaw(b[..], ps, start, j)
    {
      ghost var before := b[..];
      DecodePair(b, kv[j], ps[j], j == |ps| - 1);
      DecodedStay(before, b[..], ps, start, j);
      RawStay(before, b[..], ps, start, j);
      j := j + 1;
    }
  }

  // ---------------------------------------------------------------- lookup

  /** One character of a key, decoded; a character that ends a key counts as NUL. */
  function KeyChar(s: string, i: nat): char {
    var c := Peek(s, i);
    if !IsQsChr(c) then '\0'
    else if c == '+' then ' '
    else if c == '%' then
      if IsHex(Peek(s, i + 1)) && IsHex(Peek(s, i + 2)) then HexByte(Peek(s, i + 1), Peek(s, i + 2)) else '\0'
    else c
  }

  function KeyWidth(s: string, i: nat): nat {
    if Peek(s, i) == '%' then 3 else 1
  }

  /** qs_strncmp of n characters */
  function Compare(s: string, i: nat, q: string, j: nat, n: nat): int
    decreases n
  {
    if n == 0 then if IsQsChr(Peek(q, j)) then -1 else 0
    else if KeyChar(s, i) != KeyChar(q, j) then KeyChar(s, i) as int - KeyChar(q, j) as int
    else if KeyChar(s, i) == '\0' then 0
    else Compare(s, i + KeyWidth(s, i), q, j + KeyWidth(q, j), n - 1)
  }

  /** What a raw key stands for, up to where it ends or is malformed. */
  function KeyText(s: string, i: nat): (r: string)
    ensures |r| + i <= |s| || r == ""
    decreases |s| - i
  {
    if KeyChar(s, i) == '\0' then "" else [KeyChar(s, i)] + KeyText(s, i + KeyWidth(s, i))
  }

  /** Where that is. */
  function KeyStop(s: string, i: nat): nat
    decreases |s| - i
  {
    if KeyChar(s, i) == '\0' then i else KeyStop(s, i + KeyWidth(s, i))
  }

  /** The key that is asked for means the same as the raw key. When it is written without escapes, the raw
      key must also be well-formed to its end. */
  predicate Matches(name: string, key: string) {
    KeyText(name, 0) == KeyText(key, 0) && (|KeyText(name, 0)| == |name| ==> KeyStop(key, 0) == |key|)
  }

  lemma {:induction false} KeyStopInside(s: string, i: nat)
    requires i <= |s|
    ensures i <= KeyStop(s, i) <= |s|
    decreases |s| - i
  {
    if KeyChar(s, i) != '\0' {
      KeyStopInside(s, i + KeyWidth(s, i));
    }
  }

  lemma {:induction false} CompareTexts(s: string, i: nat, q: string, j: nat, n: nat)
    requires |KeyText(s, i)| <= n
    ensures Compare(s, i, q, j, n) == 0 <==>
            KeyText(s, i) == KeyText(q, j) && (|KeyText(s, i)| == n ==> !IsQsChr(Peek(q, KeyStop(q, j))))
    decreases n
  {
    hide KeyChar, KeyWidth;
    EmptyKeyText(q, j);
    EmptyKeyText(s, i);
    if n > 0 && KeyChar(s, i) == KeyChar(q, j) != '\0' {
      var s', q' := i + KeyWidth(s, i), j + KeyWidth(q, j);
      CompareTexts(s, s', q, q', n - 1);
      assert KeyText(s, i) == [KeyChar(s, i)] + KeyText(s, s');
      assert KeyText(q, j) == [KeyChar(q, j)] + KeyText(q, q');
      SameTail(KeyChar(s, i), KeyText(s, s'), KeyText(q, q'));
    } else if KeyChar(s, i) != KeyChar(q, j) {
      assert KeyText(s, i) != "" && KeyText(q, j) != "" ==> KeyText(s, i)[0] != KeyText(q, j)[0];
    }
  }

  lemma SameTail(c: char, a: string, b: string)
    ensures [c] + a == [c] + b <==> a == b
  {
    assert ([c] + a)[1..] == a && ([c] + b)[1..] == b;
  }

  lemma EmptyKeyText(s: string, i: nat)
    ensures KeyText(s, i) == "" <==> KeyChar(s, i) == '\0'
    ensures KeyText(s, i) != "" ==> KeyText(s, i)[0] == KeyChar(s, i)
    ensures KeyChar(s, i) == '\0' ==> KeyStop(s, i) == i
    ensures !IsQsChr(Peek(s, i)) ==> KeyChar(s, i) == '\0'
  {
  }

  /** A character of the key, in the buffer and in the key alone. */
  lemma KeyCharInBuffer(b: string, p: Pair, pos: nat, j: nat)
    requires KeyChars(p.key) && Decoded1(b, p, pos) && j <= |p.key|
    ensures KeyChar(b, pos + j) == KeyChar(p.key, j) && IsQsChr(Peek(b, pos + j)) == IsQsChr(Peek(p.key, j))
    ensures KeyChar(p.key, j) != '\0' ==>
              KeyWidth(b, pos + j) == KeyWidth(p.key, j) && j + KeyWidth(p.key, j) <= |p.key|
  {
    if j < |p.key| {
      assert b[pos + j] == p.key[j];
      if j + 1 < |p.key| {
        assert b[pos + (j + 1)] == p.key[j + 1];
        if j + 2 < |p.key| {
          assert b[pos + (j + 2)] == p.key[j + 2];
        }
      }
    }
  }

  lemma {:induction false} CompareInBuffer(name: string, i: nat, b: string, p: Pair, pos: nat, j: nat, n: nat)
    requires KeyChars(p.key) && Decoded1(b, p, pos) && j <= |p.key|
    ensures Compare(name, i, b, pos + j, n) == Compare(name, i, p.key, j, n)
    decreases n
  {
    hide Decoded1, KeyChar, KeyWidth;
    KeyCharInBuffer(b, p, pos, j);
    if n > 0 && KeyChar(name, i) == KeyChar(p.key, j) != '\0' {
      CompareInBuffer(name, i + KeyWidth(name, i), b, p, pos, j + KeyWidth(p.key, j), n - 1);
    }
  }

  /** The comparison is 0 exactly when the key in the buffer matches the key that is asked for. */
  lemma CompareKeys(name: string, b: string, p: Pair, pos: nat)
    requires KeyChars(p.key) && Decoded1(b, p, pos)
    ensures Compare(name, 0, b, pos, |name|) == 0 <==> Matches(name, p.key)
  {
    hide Compare, KeyText, KeyStop, Decoded1;
    CompareInBuffer(name, 0, b, p, pos, 0, |name|);
    CompareTexts(name, 0, p.key, 0, |name|);
    KeyStopInside(p.key, 0);
  }

  /** qs_strncmp: both pointers advance, over three characters for a percent sign. */
  method StrNCmp(s: string, b: array<char>, pos: nat, n: nat) returns (r: int)
    ensures r == Compare(s, 0, b[..], pos, n)
  {
    var i: nat, j: nat, left: nat := 0, pos, n;
    while left > 0
      invariant left <= n && Compare(s, i, b[..], j, left) == Compare(s, 0, b[..], pos, n)
      decreases left
    {
      var u1, u2 := KeyChar(s, i), KeyChar(b[..], j);
      if u1 != u2 {
        return u1 as int - u2 as int;
      }
      if u1 == '\0' {
        return 0;
      }
      i, j, left := i + KeyWidth(s, i), j + KeyWidth(b[..], j), left - 1;
    }
    return if IsQsChr(Peek(b[..], j)) then -1 else 0;
  }

  /** The value that a decoded pair points to. */
  function ValuePosition(p: Pair, pos: nat): nat {
    pos + |p.key| + if p.value.Some? then 1 else 0
  }

  lemma InsideKey(b: string, p: Pair, pos: nat, n: nat)
    requires KeyChars(p.key) && Decoded1(b, p, pos) && n < |p.key|
    ensures IsQsChr(b[pos + n])
  {
    assert b[pos + n] == p.key[n];
  }

  /** strcspn with "=": behind the key, and behind the '=' if there is one. */
  method SkipKey(b: array<char>, pos: nat, ghost p: Pair) returns (v: nat)
    requires KeyChars(p.key) && Decoded1(b[..], p, pos)
    ensures v == ValuePosition(p, pos)
  {
    forall x | pos <= x < pos + |p.key|
      ensures IsQsChr(b[x])
    {
      InsideKey(b[..], p, pos, x - pos);
    }
    var skip := 0;
    while b[pos + skip] != '=' && b[pos + skip] != '\0'
      invariant skip <= |p.key| && pos + skip < b.Length
      decreases |p.key| - skip
    {
      skip := skip + 1;
    }
    if b[pos + skip] == '=' {
      skip := skip + 1;
    }
    return pos + skip;
  }

  /** The first of the pairs whose key matches. */
  function FirstWith(ps: seq<Pair>, name: string): (r: Option<nat>)
    ensures r.Some? ==>
              r.value < |ps| && Matches(name, ps[r.value].key) &&
                forall k :: 0 <= k < r.value ==> !Matches(name, ps[k].key)
    ensures r.None? ==> forall k :: 0 <= k < |ps| ==> !Matches(name, ps[k].key)
  {
    if ps == [] then None
    else
      var r := FirstWith(ps[..|ps| - 1], name);
      if r.Some? then r else if Matches(name, ps[|ps| - 1].key) then Some(|ps| - 1) else None
  }

  /** qs_k2v for the first occurrence of a C string */
  method K2V(name: string, b: array<char>, kv: seq<nat>, ghost ps: seq<Pair>) returns (r: Option<nat>)
    requires |kv| <= |ps| && GoodPairs(ps)
    requires forall j :: 0 <= j < |kv| ==> Decoded1(b[..], ps[j], kv[j])
    ensures r == match FirstWith(ps[..|kv|], name) case None => None case Some(j) => Some(ValuePosition(ps[j], kv[j]))
  {
    hide Decoded1, Compare, KeyChars, Matches;
    var i := 0;
    while i < |kv|
      invariant i <= |kv| && forall j :: 0 <= j < i ==> !Matches(name, ps[j].key)
    {
      GoodPairKey(ps[i]);
      CompareKeys(name, b[..], ps[i], kv[i]);
      var cmp := StrNCmp(name, b, kv[i], |name|);
      if cmp == 0 {
        var v := SkipKey(b, kv[i], ps[i]);
        return Some(v);
      }
      i := i + 1;
    }
    return None;
  }

  lemma GoodPairKey(p: Pair)
    requires GoodPair(p)
    ensures KeyChars(p.key)
  {
  }

  /** The C string at a position. */
  function CString(b: string, i: nat): string
    decreases |b| - i
  {
    if i >= |b| || b[i] == '\0' then "" else [b[i]] + CString(b, i + 1)
  }

  /** A text as a C string shows it. */
  function UntilNul(t: string): (r: string)
    ensures '\0' !in t ==> r == t
  {
    if t == "" || t[0] == '\0' then "" else [t[0]] + UntilNul(t[1..])
  }

  lemma {:induction false} CStringIs(b: string, i: nat, t: string)
    requires At(b, i, t) && i + |t| < |b| && b[i + |t|] == '\0'
    ensures CString(b, i) == UntilNul(t)
    decreases |t|
  {
    if t != "" {
      assert b[i + 0] == t[0];
      forall k | 0 <= k < |t| - 1
        ensures b[i + 1 + k] == t[1..][k]
      {
        assert b[i + (k + 1)] == t[k + 1];
      }
      CStringIs(b, i + 1, t[1..]);
    }
  }

  /** What a pair answers: the decoded value, nothing when there is none. */
  function ValueOf(p: Pair): string {
    match p.value
    case None => ""
    case Some(v) => Decoded(v, 0)
  }

  lemma ValueFound(b: string, p: Pair, pos: nat)
    requires Decoded1(b, p, pos)
    ensures CString(b, ValuePosition(p, pos)) == UntilNul(ValueOf(p))
  {
    CStringIs(b, ValuePosition(p, pos), ValueOf(p));
  }

  /** The text that is parsed: a URL, whose query if any is behind the first '?' or '#', or a query alone. */
  datatype Source = Url(path: string, mark: Option<char>) | Alone

  predicate GoodText(t: Source) {
    t.Url? ==> (forall i :: 0 <= i < |t.path| ==> t.path[i] != '?' && t.path[i] != '#' && t.path[i] != '\0') &&
               (t.mark.Some? ==> t.mark.value == '?' || t.mark.value == '#')
  }

  predicate HasQuery(t: Source) {
    t.Alone? || t.mark.Some?
  }

  function Rendered(t: Source, ps: seq<Pair>): string {
    match t
    case Alone => Query(ps)
    case Url(path, mark) => if mark.None? then path else path + [mark.value] + Query(ps)
  }

  /** The buffer holds a text and its closing NUL. */
  predicate Holds(b: string, t: string) {
    |b| == |t| + 1 && At(b, 0, t) && b[|t|] == '\0'
  }

  /** strcspn with "?#", and one more */
  method FindQuery(b: array<char>, ghost t: Source, ghost ps: seq<Pair>) returns (start: Option<nat>)
    requires t.Url? && GoodText(t) && Holds(b[..], Rendered(t, ps))
    ensures start.Some? == HasQuery(t)
    ensures start.Some? ==> start.value + |Query(ps)| + 1 == b.Length && At(b[..], start.value, Query(ps))
  {
    hide Query;
    var n := 0;
    MarkAt(b[..], t, ps);
    forall k | 0 <= k < |t.path|
      ensures b[k] != '?' && b[k] != '#' && b[k] != '\0'
    {
      InsidePath(b[..], t, ps, k);
    }
    while b[n] != '?' && b[n] != '#' && b[n] != '\0'
      invariant n <= |t.path|
      decreases |t.path| - n
    {
      n := n + 1;
    }
    if b[n] == '\0' {
      return None;
    }
    return Some(n + 1);
  }

  lemma InsidePath(b: string, t: Source, ps: seq<Pair>, n: nat)
    requires t.Url? && GoodText(t) && Holds(b, Rendered(t, ps)) && n < |t.path|
    ensures b[n] != '?' && b[n] != '#' && b[n] != '\0'
  {
    assert b[0 + n] == Rendered(t, ps)[n] == t.path[n];
  }

  lemma MarkAt(b: string, t: Source, ps: seq<Pair>)
    requires t.Url? && Holds(b, Rendered(t, ps))
    ensures b[|t.path|] == if t.mark.Some? then t.mark.value else '\0'
    ensures t.mark.Some? ==> At(b, |t.path| + 1, Query(ps))
  {
    hide Query;
    if t.mark.Some? {
      AtConcat(b, 0, t.path + [t.mark.value], Query(ps));
      AtConcat(b, 0, t.path, [t.mark.value]);
      AtOne(b, |t.path|, t.mark.value);
    }
  }

  /** qs_parse */
  method QsParse(b: array<char>, parseUrl: bool, ghost t: Source, ghost ps: seq<Pair>) returns (kv: seq<nat>)
    requires parseUrl == t.Url? && GoodText(t) && GoodPairs(ps) && ps != [] && Holds(b[..], Rendered(t, ps))
    modifies b
    ensures |kv| == if HasQuery(t) then Min(|ps|, MAX_PAIRS) else 0
    ensures forall j :: 0 <= j < |kv| ==> Decoded1(b[..], ps[j], kv[j])
  {
    hide Decoded1, GoodPair, RawPair, Query, At, StartOf;
    var start := Some(0);
    if parseUrl {
      start := FindQuery(b, t, ps);
      if start.None? {
        return [];
      }
    }
    QueryLaysOut(b[..], ps, start.value);
    kv := FindPairs(b, start.value, ps);
    DecodePairs(b, kv, ps, start.value);
  }

  class QueryParams {
    const url: array<char>
    var kv: seq<nat>
    ghost const pairs: seq<Pair>

    ghost predicate Valid()
      reads this, url
    {
      GoodPairs(pairs) && |kv| <= |pairs| && forall j :: 0 <= j < |kv| ==> Decoded1(url[..], pairs[j], kv[j])
    }

    constructor (text: string, parseUrl: bool, ghost t: Source, ghost ps: seq<Pair>)
      requires parseUrl == t.Url? && GoodText(t) && GoodPairs(ps) && ps != [] && text == Rendered(t, ps)
      ensures Valid() && pairs == ps && fresh(url)
      ensures |kv| == if text != "" && HasQuery(t) then Min(|ps|, MAX_PAIRS) else 0
    {
      var buf := new char[|text| + 1](i => if 0 <= i < |text| then text[i] else '\0');
      url := buf;
      pairs := ps;
      kv := [];
      new;
      hide Decoded1, GoodPair, Rendered;
      if text != "" {
        kv := QsParse(url, parseUrl, t, ps);
      }
    }

    /** get: the decoded value of the first of the first 256 pairs whose key matches, or nothing; the name
        goes down as a C string. */
    method Get(name: string) returns (r: Option<nat>)
      requires Valid()
      ensures r.None? <==> FirstWith(pairs[..|kv|], UntilNul(name)).None?
      ensures r.Some? ==>
                var p := pairs[FirstWith(pairs[..|kv|], UntilNul(name)).value];
                Matches(UntilNul(name), p.key) && CString(url[..], r.value) == UntilNul(ValueOf(p))
    {
      r := K2V(UntilNul(name), url, kv, pairs);
      if r.Some? {
        ghost var j := FirstWith(pairs[..|kv|], UntilNul(name)).value;
        ValueFound(url[..], pairs[j], kv[j]);
      }
    }
  }

  predicate AllBytes(vs: seq<string>) {
    forall i :: 0 <= i < |vs| ==> Bytes(vs[i]) && '\0' !in vs[i]
  }

  // ---------------------------------------------------------------- forms

  /** The pairs of a form: keys and values percent-encoded. */
  function FormPairs(keys: seq<string>, values: seq<string>): (ps: seq<Pair>)
    requires |keys| == |values| && AllBytes(keys) && AllBytes(values)
    ensures |ps| == |keys|
    ensures forall i :: 0 <= i < |ps| ==> ps[i] == Pair(Encoded(keys[i]), Some(Encoded(values[i])))
  {
    seq(|keys|, i requires 0 <= i < |keys| => Pair(Encoded(keys[i]), Some(Encoded(values[i]))))
  }

  lemma {:induction false} EncodedHasNoEnd(s: string)
    requires Bytes(s)
    ensures KeyChars(Encoded(s)) && forall i :: 0 <= i < |Encoded(s)| ==> !Ends(Encoded(s)[i])
  {
    if s != "" {
      EncodedHasNoEnd(s[1..]);
      EncodeCharHasNoEnd(s[0]);
    }
  }

  lemma EncodeCharHasNoEnd(c: char)
    requires c < 256 as char
    ensures forall i :: 0 <= i < |EncodeChar(c)| ==> IsQsChr(EncodeChar(c)[i])
  {
    HexDigitBack(c as nat / 16);
    HexDigitBack(c as nat % 16);
  }

  lemma KeyCharIsUnit(s: string, i: nat)
    requires Unit(s, i) > 0
    ensures KeyChar(s, i) == UnitChar(s, i) && KeyWidth(s, i) == Unit(s, i)
  {
  }

  /** The key that a percent-encoded key stands for, behind any text. */
  lemma {:induction false} EncodedKeyFrom(a: string, k: string)
    requires Bytes(k) && '\0' !in k
    ensures KeyText(a + Encoded(k), |a|) == k && KeyStop(a + Encoded(k), |a|) == |a + Encoded(k)|
    decreases |k|
  {
    hide Unit, UnitChar, EncodeChar, KeyChar, KeyWidth;
    if k == "" {
      EndOfKey(a);
      assert a + Encoded(k) == a;
    } else {
      var first, rest := EncodeChar(k[0]), Encoded(k[1..]);
      var s := a + Encoded(k);
      assert s == a + (first + rest) == (a + first) + rest;
      EncodedUnit(k[0], rest);
      UnitShift(a, first + rest, 0);
      KeyCharIsUnit(s, |a|);
      EncodedKeyFrom(a + first, k[1..]);
      assert k == [k[0]] + k[1..];
    }
  }

  lemma EndOfKey(s: string)
    ensures KeyText(s, |s|) == "" && KeyStop(s, |s|) == |s|
  {
  }

  lemma EncodedKey(k: string)
    requires Bytes(k) && '\0' !in k
    ensures KeyText(Encoded(k), 0) == k && KeyStop(Encoded(k), 0) == |Encoded(k)|
  {
    EncodedKeyFrom("", k);
    assert "" + Encoded(k) == Encoded(k);
  }

  /** A key that needs no encoding. */
  predicate PlainKey(k: string) {
    forall i :: 0 <= i < |k| ==> IsQsChr(k[i]) && k[i] != '+' && k[i] != '%'
  }

  lemma {:induction false} PlainKeyFrom(k: string, i: nat)
    requires PlainKey(k) && i <= |k|
    ensures KeyText(k, i) == k[i..]
    decreases |k| - i
  {
    if i < |k| {
      PlainKeyFrom(k, i + 1);
    }
  }

  /** Asking for a name as it is, or percent-encoded, finds exactly the keys that are this name. */
  lemma FormKeysMatch(asked: string, name: string, key: string)
    requires Bytes(key) && '\0' !in key && Bytes(name) && '\0' !in name
    requires asked == Encoded(name) || (PlainKey(name) && asked == name)
    ensures Matches(asked, Encoded(key)) <==> name == key
  {
    hide KeyText, KeyStop;
    EncodedKey(key);
    if asked == Encoded(name) {
      EncodedKey(name);
    } else {
      PlainKeyFrom(name, 0);
    }
  }

  /** For every form with keys and values of any bytes but NUL, get answers the value of the first of the
      first 256 pairs with the name, asked for as it is or percent-encoded. */
  method FormLookup(keys: seq<string>, values: seq<string>, name: string, asked: string) returns (r: Option<string>)
    requires |keys| == |values| && keys != [] && AllBytes(keys) && AllBytes(values) && Bytes(name) && '\0' !in name
    requires asked == Encoded(name) || (PlainKey(name) && asked == name)
    ensures r.None? ==> forall i :: 0 <= i < |keys| && i < MAX_PAIRS ==> keys[i] != name
    ensures r.Some? ==>
              exists i :: 0 <= i < |keys| && i < MAX_PAIRS && keys[i] == name && r.value == values[i] &&
                forall k :: 0 <= k < i ==> keys[k] != name
  {
    hide Decoded1, Encoded, Decoded, Matches;
    var ps := FormPairs(keys, values);
    FormPairsGood(keys, values);
    QueryNotEmpty(ps);
    var q := new QueryParams(Query(ps), false, Alone, ps);
    AskedIsCString(asked, name);
    var pos := q.Get(asked);
    forall k | 0 <= k < |q.kv|
      ensures Matches(asked, ps[..|q.kv|][k].key) <==> keys[k] == name
    {
      FormKeysMatch(asked, name, keys[k]);
    }
    if pos.None? {
      return None;
    }
    ghost var i := FirstWith(ps[..|q.kv|], asked).value;
    DecodeUndoesEncode(values[i]);
    assert forall k :: 0 <= k < i ==> keys[k] != name;
    return Some(CString(q.url[..], pos.value));
  }

  lemma AskedIsCString(asked: string, name: string)
    requires Bytes(name) && '\0' !in name
    requires asked == Encoded(name) || (PlainKey(name) && asked == name)
    ensures UntilNul(asked) == asked
  {
    hide Encoded;
    EncodedHasNoEnd(name);
    assert '\0' !in asked;
  }

  lemma QueryNotEmpty(ps: seq<Pair>)
    requires ps != [] && ps[0].value.Some?
    ensures Query(ps) != ""
  {
    assert TextOf(ps[0]) != "";
  }

  lemma FormPairsGood(keys: seq<string>, values: seq<string>)
    requires |keys| == |values| && AllBytes(keys) && AllBytes(values)
    ensures GoodPairs(FormPairs(keys, values))
  {
    hide Encoded;
    forall i | 0 <= i < |keys|
      ensures GoodPair(FormPairs(keys, values)[i])
    {
      EncodedHasNoEnd(keys[i]);
      EncodedHasNoEnd(values[i]);
    }
  }
}

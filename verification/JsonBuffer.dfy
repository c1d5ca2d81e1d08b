/** The JSON reader of crow/json.h as it works in place: the parser overwrites the quotes of every
    string in the text it reads, keys are unescaped at once inside the buffer and other strings when
    they are first asked for. It is proved to find exactly the values of the reader in module Json. */
module JsonBuffer {
  import opened Sequences
  import opened Json

  /** rvalue: a tree whose strings and numbers are ranges of the buffer. */
  datatype RValue =
    | RNull
    | RFalse
    | RTrue
    | RNumber(start: nat, end: nat)
    | RString(start: nat, end: nat)
    | RList(items: seq<RValue>)
    | RObject(members: seq<RMember>)

  /** A member value with the range of its key. */
  datatype RMember = RMember(keyStart: nat, keyEnd: nat, value: RValue)

  function Slice(b: string, i: nat, j: nat): string {
    if i <= j <= |b| then b[i..j] else ""
  }

  /** The bytes that the raw string behind position i of s stands for. */
  function Unescaped(s: string, i: nat): string
    decreases |s| - i
  {
    if i >= |s| || Unit(s, i) == 0 then "" else UnitText(s, i) + Unescaped(s, i + Unit(s, i))
  }

  /** The string between two positions: it still carries its escapes when the character before it,
      once its opening quote, is not 0. */
  function ReadString(b: string, start: nat, end: nat): string {
    if start > 0 && Peek(b, start - 1) == '\0' then Slice(b, start, end)
    else Unescaped(Slice(b, start, end), 0)
  }

  /** The value that a tree stands for. */
  function Read(b: string, v: RValue): Value
    decreases v, 0
  {
    match v
    case RNull => Null
    case RFalse => False
    case RTrue => True
    case RNumber(start, end) => Number(Slice(b, start, end))
    case RString(start, end) => Str(ReadString(b, start, end))
    case RList(items) => List(ReadAll(b, items))
    case RObject(ms) => Object(ReadMembers(b, ms))
  }

  function ReadAll(b: string, items: seq<RValue>): seq<Value>
    decreases items, 2
  {
    if items == [] then [] else ReadAll(b, items[..|items| - 1]) + [Read(b, items[|items| - 1])]
  }

  function ReadMember(b: string, m: RMember): Member
    decreases m, 1
  {
    Member(Slice(b, m.keyStart, m.keyEnd), Read(b, m.value))
  }

  function ReadMembers(b: string, ms: seq<RMember>): seq<Member>
    decreases ms, 2
  {
    if ms == [] then [] else ReadMembers(b, ms[..|ms| - 1]) + [ReadMember(b, ms[|ms| - 1])]
  }

  /** The buffers agree between lo and hi. */
  predicate Same(b: string, c: string, lo: nat, hi: nat) {
    lo <= hi <= |b| && hi <= |c| && forall i :: lo <= i < hi ==> b[i] == c[i]
  }

  // ---------------------------------------------------------------- readiness

  /** What unescape may rely on. */
  predicate StringReady(b: string, start: nat, end: nat) {
    0 < start <= end < |b| && (b[start - 1] != '\0' ==> WholeUnits(b[start..end], 0))
  }

  /** All ranges of v lie between lo and hi, a string with the two characters that were its quotes; the
      ranges of different values lie apart, in order, and every string is ready to be unescaped. */
  ghost predicate Ready(b: string, v: RValue, lo: nat, hi: nat)
    decreases v, 0
  {
    match v
    case RNumber(start, end) => lo <= start <= end <= hi
    case RString(start, end) => lo + 1 <= start <= end < hi && StringReady(b, start, end)
    case RList(items) => AllReady(b, items, lo, hi)
    case RObject(ms) => MembersReady(b, ms, lo, hi)
    case _ => true
  }

  ghost predicate AllReady(b: string, items: seq<RValue>, lo: nat, hi: nat)
    decreases items, 2
  {
    items == [] ||
    var front, last := items[..|items| - 1], items[|items| - 1];
    exists mid: nat :: lo <= mid <= hi && AllReady(b, front, lo, mid) && Ready(b, last, mid, hi)
  }

  /** The key is text already, in front of its value. */
  ghost predicate MemberReady(b: string, m: RMember, lo: nat, hi: nat)
    decreases m, 1
  {
    lo <= m.keyStart <= m.keyEnd <= hi && Ready(b, m.value, m.keyEnd, hi)
  }

  ghost predicate MembersReady(b: string, ms: seq<RMember>, lo: nat, hi: nat)
    decreases ms, 2
  {
    ms == [] ||
    var front, last := ms[..|ms| - 1], ms[|ms| - 1];
    exists mid: nat :: lo <= mid <= hi && MembersReady(b, front, lo, mid) && MemberReady(b, last, mid, hi)
  }

  lemma SliceFrame(b: string, c: string, lo: nat, hi: nat, i: nat, j: nat)
    requires Same(b, c, lo, hi) && lo <= i <= j <= hi
    ensures Slice(b, i, j) == Slice(c, i, j)
  {
  }

  lemma StringFrame(b: string, c: string, lo: nat, hi: nat, start: nat, end: nat)
    requires Same(b, c, lo, hi) && lo + 1 <= start <= end < hi && StringReady(b, start, end)
    ensures StringReady(c, start, end) && ReadString(c, start, end) == ReadString(b, start, end)
  {
    SliceFrame(b, c, lo, hi, start, end);
    assert b[start..end] == c[start..end];
    assert Peek(b, start - 1) == Peek(c, start - 1);
  }

  /** A tree is read from its own range only, and stays ready when that range stays. */
  lemma {:induction false} ReadFrame(b: string, c: string, v: RValue, lo: nat, hi: nat)
    requires Ready(b, v, lo, hi) && Same(b, c, lo, hi)
    ensures Ready(c, v, lo, hi) && Read(b, v) == Read(c, v)
    decreases v, 0
  {
    match v
    case RNumber(start, end) => SliceFrame(b, c, lo, hi, start, end);
    case RString(start, end) => StringFrame(b, c, lo, hi, start, end);
    case RList(items) => ReadAllFrame(b, c, items, lo, hi);
    case RObject(ms) => ReadMembersFrame(b, c, ms, lo, hi);
    case RNull | RFalse | RTrue =>
  }

  lemma {:induction false} ReadAllFrame(b: string, c: string, items: seq<RValue>, lo: nat, hi: nat)
    requires AllReady(b, items, lo, hi) && Same(b, c, lo, hi)
    ensures AllReady(c, items, lo, hi) && ReadAll(b, items) == ReadAll(c, items)
    decreases items, 2
  {
    if items != [] {
      var front, last := items[..|items| - 1], items[|items| - 1];
      var mid: nat :| lo <= mid <= hi && AllReady(b, front, lo, mid) && Ready(b, last, mid, hi);
      ReadAllFrame(b, c, front, lo, mid);
      ReadFrame(b, c, last, mid, hi);
    }
  }

  lemma {:induction false} ReadMemberFrame(b: string, c: string, m: RMember, lo: nat, hi: nat)
    requires MemberReady(b, m, lo, hi) && Same(b, c, lo, hi)
    ensures MemberReady(c, m, lo, hi) && ReadMember(b, m) == ReadMember(c, m)
    decreases m, 1
  {
    SliceFrame(b, c, lo, hi, m.keyStart, m.keyEnd);
    ReadFrame(b, c, m.value, m.keyEnd, hi);
  }

  lemma {:induction false} ReadMembersFrame(b: string, c: string, ms: seq<RMember>, lo: nat, hi: nat)
    requires MembersReady(b, ms, lo, hi) && Same(b, c, lo, hi)
    ensures MembersReady(c, ms, lo, hi) && ReadMembers(b, ms) == ReadMembers(c, ms)
    decreases ms, 2
  {
    if ms != [] {
      var front, last := ms[..|ms| - 1], ms[|ms| - 1];
      var mid: nat :| lo <= mid <= hi && MembersReady(b, front, lo, mid) && MemberReady(b, last, mid, hi);
      ReadMembersFrame(b, c, front, lo, mid);
      ReadMemberFrame(b, c, last, mid, hi);
    }
  }

  lemma {:induction false} ReadyWiden(b: string, v: RValue, lo: nat, hi: nat, lo': nat, hi': nat)
    requires Ready(b, v, lo, hi) && lo' <= lo && hi <= hi'
    ensures Ready(b, v, lo', hi')
    decreases v, 0
  {
    if v.RList? {
      AllReadyWiden(b, v.items, lo, hi, lo', hi');
    } else if v.RObject? {
      MembersReadyWiden(b, v.members, lo, hi, lo', hi');
    }
  }

  lemma {:induction false} AllReadyWiden(b: string, items: seq<RValue>, lo: nat, hi: nat, lo': nat, hi': nat)
    requires AllReady(b, items, lo, hi) && lo' <= lo && hi <= hi'
    ensures AllReady(b, items, lo', hi')
    decreases items, 2
  {
    if items != [] {
      var front, last := items[..|items| - 1], items[|items| - 1];
      var mid: nat :| lo <= mid <= hi && AllReady(b, front, lo, mid) && Ready(b, last, mid, hi);
      AllReadyWiden(b, front, lo, mid, lo', mid);
      ReadyWiden(b, last, mid, hi, mid, hi');
    }
  }

  lemma {:induction false} MemberReadyWiden(b: string, m: RMember, lo: nat, hi: nat, lo': nat, hi': nat)
    requires MemberReady(b, m, lo, hi) && lo' <= lo && hi <= hi'
    ensures MemberReady(b, m, lo', hi')
    decreases m, 1
  {
    ReadyWiden(b, m.value, m.keyEnd, hi, m.keyEnd, hi');
  }

  lemma {:induction false} MembersReadyWiden(b: string, ms: seq<RMember>, lo: nat, hi: nat, lo': nat, hi': nat)
    requires MembersReady(b, ms, lo, hi) && lo' <= lo && hi <= hi'
    ensures MembersReady(b, ms, lo', hi')
    decreases ms, 2
  {
    if ms != [] {
      var front, last := ms[..|ms| - 1], ms[|ms| - 1];
      var mid: nat :| lo <= mid <= hi && MembersReady(b, front, lo, mid) && MemberReady(b, last, mid, hi);
      MembersReadyWiden(b, front, lo, mid, lo', mid);
      MemberReadyWiden(b, last, mid, hi, mid, hi');
    }
  }

  // ---------------------------------------------------------------- raw strings

  /** Behind position i the string consists of whole characters and escapes. */
  predicate WholeUnits(s: string, i: nat)
    decreases |s| - i
  {
    i >= |s| || (Unit(s, i) > 0 && WholeUnits(s, i + Unit(s, i)))
  }

  predicate Plain(s: string) {
    forall i :: 0 <= i < |s| ==> s[i] != '\\'
  }

  lemma UnitInside(s: string, i: nat, e: nat, k: nat)
    requires i <= e <= |s| && k < e - i && 0 < Unit(s, i + k) <= e - i - k
    ensures Unit(s[i..e], k) == Unit(s, i + k)
    ensures UnitText(s[i..e], k) == UnitText(s, i + k)
  {
  }

  /** What decode_string found between the quotes decodes, taken alone, to the reader's string. */
  lemma {:induction false} RawString(s: string, i: nat, e: nat, k: nat)
    requires i <= e < |s| && k <= e - i && StringEnd(s, i + k) == Some(e)
    ensures WholeUnits(s[i..e], k) && Unescaped(s[i..e], k) == Decoded(s, i + k)
    decreases e - i - k
  {
    hide Unit, UnitText;
    if s[i + k] != '"' {
      UnitInside(s, i, e, k);
      RawString(s, i, e, k + Unit(s, i + k));
    } else {
      assert StringEnd(s, i + k) == Some(i + k);
    }
  }

  lemma {:induction false} PlainUnescaped(s: string, k: nat)
    requires Plain(s) && WholeUnits(s, k) && k <= |s|
    ensures Unescaped(s, k) == s[k..]
    decreases |s| - k
  {
    if k < |s| {
      PlainUnescaped(s, k + 1);
    }
  }

  /** The part of the string that is still to be read is untouched. */
  predicate Ahead(b: string, raw: string, start: nat, head: nat) {
    start <= head <= start + |raw| < |b| &&
    forall i :: head - start <= i < |raw| ==> b[start + i] == raw[i]
  }

  /** The loop body of unescape: one character or escape is moved from head to tail. */
  method UnescapeUnit(b: array<char>, ghost raw: string, start: nat, head: nat, tail: nat)
    returns (head': nat, tail': nat)
    requires Ahead(b[..], raw, start, head) && start <= tail <= head < start + |raw|
    requires Unit(raw, head - start) > 0
    modifies b
    ensures head' == head + Unit(raw, head - start) && tail' == tail + |UnitText(raw, head - start)|
    ensures head' <= start + |raw| && tail' <= head'
    ensures b[tail..tail'] == UnitText(raw, head - start)
    ensures Same(old(b[..]), b[..], 0, tail) && Same(old(b[..]), b[..], tail', b.Length)
  {
    assert b[head] == raw[head - start];
    head', tail' := head, tail;
    if b[head'] == '\\' {
      head' := head' + 1;
      assert b[head'] == raw[head' - start];
      if b[head'] == 'u' {
        tail' := PutCode(b, raw, start, head', tail');
        head' := head' + 4;
      } else {
        tail' := PutSimple(b, b[head'], tail');
      }
    } else {
      b[tail'] := b[head'];
      tail' := tail' + 1;
    }
    head' := head' + 1;
  }

  /** The character behind a backslash. */
  method PutSimple(b: array<char>, c: char, tail: nat) returns (tail': nat)
    requires Simple(c).Some? && tail < b.Length
    modifies b
    ensures tail' == tail + 1 && b[tail] == Simple(c).value
    ensures forall i :: 0 <= i < b.Length && i != tail ==> b[i] == old(b[i])
  {
    tail' := tail + 1;
    match c
    case '"' => b[tail] := '"';
    case '\\' => b[tail] := '\\';
    case '/' => b[tail] := '/';
    case 'b' => b[tail] := 8 as char;
    case 'f' => b[tail] := 12 as char;
    case 'n' => b[tail] := '\n';
    case 'r' => b[tail] := '\r';
    case _ => b[tail] := '\t';
  }

  /** The bytes of a four-digit escape whose u is at head. */
  method PutCode(b: array<char>, ghost raw: string, start: nat, head: nat, tail: nat) returns (tail': nat)
    requires Ahead(b[..], raw, start, head) && start <= tail < head <= start + |raw| - 5
    requires HexAt(raw, head - start + 1)
    modifies b
    ensures tail <= tail' <= tail + 3
    ensures b[tail..tail'] ==
            Utf8(Code(raw[head - start + 1], raw[head - start + 2], raw[head - start + 3], raw[head - start + 4]))
    ensures Same(old(b[..]), b[..], 0, tail) && Same(old(b[..]), b[..], tail', b.Length)
  {
    ghost var u := head - start;
    assert b[start + (u + 1)] == raw[u + 1] && b[start + (u + 2)] == raw[u + 2];
    assert b[start + (u + 3)] == raw[u + 3] && b[start + (u + 4)] == raw[u + 4];
    hide Utf8;
    var code := FromHex(b[head + 1]) * 4096 + FromHex(b[head + 2]) * 256 + FromHex(b[head + 3]) * 16 +
        FromHex(b[head + 4]);
    assert code == Code(raw[head - start + 1], raw[head - start + 2], raw[head - start + 3], raw[head - start + 4]);
    tail' := PutUtf8(b, code, tail);
  }

  method PutUtf8(b: array<char>, code: nat, tail: nat) returns (tail': nat)
    requires code < 0x10000 && tail + 3 <= b.Length
    modifies b
    ensures tail <= tail' <= tail + 3 && b[tail..tail'] == Utf8(code)
    ensures Same(old(b[..]), b[..], 0, tail) && Same(old(b[..]), b[..], tail', b.Length)
  {
    tail' := tail;
    if code >= 0x800 {
      b[tail'] := (0xE0 + code / 4096) as char;
      b[tail' + 1] := (0x80 + code / 64 % 64) as char;
      b[tail' + 2] := (0x80 + code % 64) as char;
      tail' := tail' + 3;
    } else if code >= 0x80 {
      b[tail'] := (0xC0 + code / 64) as char;
      b[tail' + 1] := (0x80 + code % 64) as char;
      tail' := tail' + 2;
    } else {
      b[tail'] := code as char;
      tail' := tail' + 1;
    }
  }

  lemma SliceGrows(b: string, c: string, start: nat, tail: nat, tail': nat)
    requires start <= tail <= tail' <= |c| && Same(b, c, 0, tail)
    ensures c[start..tail'] == b[start..tail] + c[tail..tail']
  {
  }

  lemma UnescapeStep(b: string, c: string, raw: string, start: nat, head: nat, tail: nat, head': nat, tail': nat)
    requires Ahead(b, raw, start, head) && start <= tail <= head < start + |raw| && |b| == |c|
    requires Unit(raw, head - start) > 0 && WholeUnits(raw, head - start)
    requires head' == head + Unit(raw, head - start) && tail' == tail + |UnitText(raw, head - start)|
    requires c[tail..tail'] == UnitText(raw, head - start)
    requires Same(b, c, 0, tail) && Same(b, c, tail', |b|)
    requires b[start..tail] + Unescaped(raw, head - start) == Unescaped(raw, 0)
    ensures Ahead(c, raw, start, head') && WholeUnits(raw, head' - start)
    ensures c[start..tail'] + Unescaped(raw, head' - start) == Unescaped(raw, 0)
  {
    hide Unit, UnitText;
    SliceGrows(b, c, start, tail, tail');
    var t, rest := UnitText(raw, head - start), Unescaped(raw, head' - start);
    assert b[start..tail] + (t + rest) == b[start..tail] + t + rest;
  }

  /** The loop of unescape: the write position never passes the read position, and what it leaves
      behind is exactly the decoded string. */
  method UnescapeRange(b: array<char>, start: nat, end: nat) returns (tail: nat)
    requires 0 < start <= end < b.Length && WholeUnits(b[start..end], 0)
    modifies b
    ensures start <= tail <= end && b[start..tail] == Unescaped(old(b[start..end]), 0)
    ensures Same(old(b[..]), b[..], 0, start) && Same(old(b[..]), b[..], end, b.Length)
  {
    hide Unit, UnitText;
    ghost var raw := b[start..end];
    var head := start;
    tail := start;
    while head != end
      invariant start <= tail <= head <= end && Ahead(b[..], raw, start, head)
      invariant WholeUnits(raw, head - start)
      invariant b[start..tail] + Unescaped(raw, head - start) == Unescaped(raw, 0)
      invariant Same(old(b[..]), b[..], 0, start) && Same(old(b[..]), b[..], end, b.Length)
      decreases end - head
    {
      ghost var before := b[..];
      assert before[start..tail] == b[start..tail];
      var head', tail' := UnescapeUnit(b, raw, start, head, tail);
      assert b[..][tail..tail'] == b[tail..tail'];
      UnescapeStep(before, b[..], raw, start, head, tail, head', tail');
      assert b[..][start..tail'] == b[start..tail'];
      head, tail := head', tail';
    }
  }

  /** unescape: what is left is the string that the range stood for, and a second call changes nothing
      because the flag is cleared. */
  method Unescape(b: array<char>, start: nat, end: nat) returns (newEnd: nat)
    requires 0 < start <= end < b.Length
    requires b[start - 1] != '\0' ==> WholeUnits(b[start..end], 0)
    modifies b
    ensures start <= newEnd <= end && b[start - 1] == '\0'
    ensures b[start..newEnd] == ReadString(old(b[..]), start, end)
    ensures Same(old(b[..]), b[..], 0, start - 1) && Same(old(b[..]), b[..], end + 1, b.Length)
    ensures old(b[start - 1]) == '\0' ==> newEnd == end && b[..] == old(b[..])
    ensures old(b[start - 1]) != '\0' ==> b[newEnd] == '\0'
  {
    hide Unescaped, WholeUnits;
    newEnd := end;
    assert b[start..end] == Slice(b[..], start, end);
    if b[start - 1] != '\0' {
      newEnd := UnescapeRange(b, start, end);
      b[newEnd] := '\0';
      b[start - 1] := '\0';
    }
  }

  // ---------------------------------------------------------------- the parser

  /** The outcome v of a parsing step from lo to pos in buffer b is the outcome of the reader. */
  ghost predicate Yields(b: string, v: Option<RValue>, lo: nat, pos: nat, p: Parsed<Value>) {
    match p
    case Fail => v.None?
    case Ok(x, end) => v.Some? && pos == end && Ready(b, v.value, lo, pos) && Read(b, v.value) == x
  }

  /** The same for decode_string; the string is ready to be unescaped. */
  predicate Spells(b: string, v: Option<RValue>, lo: nat, pos: nat, p: Parsed<string>) {
    match p
    case Fail => v.None?
    case Ok(x, end) =>
      v.Some? && v.value.RString? && pos == end && v.value.start == lo + 1 && v.value.end + 1 == pos &&
      StringReady(b, v.value.start, v.value.end) && ReadString(b, v.value.start, v.value.end) == x
  }

  lemma StringYields(b: string, text: string, start: nat, e: nat)
    requires 0 < start <= e < |text| && text[start - 1] == '"' && StringEnd(text, start) == Some(e)
    requires |b| == |text| + 1 && Same(b, text, start, e)
    requires b[start - 1] == '\0' ==> Plain(text[start..e])
    ensures StringReady(b, start, e)
    ensures ReadString(b, start, e) == Decoded(text, start)
  {
    RawString(text, start, e, 0);
    assert b[start..e] == text[start..e] == Slice(b, start, e);
    if b[start - 1] == '\0' {
      PlainUnescaped(text[start..e], 0);
    }
  }

  class JsonParser {
    const buf: array<char>
    ghost const text: string
    var data: nat

    /** From data on the buffer still holds the text and its closing NUL. */
    ghost predicate Valid()
      reads this, buf
    {
      buf.Length == |text| + 1 && data <= |text| &&
      forall i :: data <= i <= |text| ==> buf[i] == Peek(text, i)
    }

    /** load: a fresh copy of the text with a NUL behind it */
    constructor (input: string)
      ensures Valid() && fresh(buf) && text == input && data == 0
    {
      text := input;
      data := 0;
      buf := new char[|input| + 1](i => if 0 <= i < |input| then input[i] else '\0');
    }

    method Consume(c: char) returns (ok: bool)
      requires Valid() && c != '\0'
      modifies this`data
      ensures Valid() && ok == (Peek(text, old(data)) == c) && data == old(data) + if ok then 1 else 0
    {
      if buf[data] != c {
        return false;
      }
      data := data + 1;
      return true;
    }

    method WsSkip()
      requires Valid()
      modifies this`data
      ensures Valid() && data == SkipSpace(text, old(data))
    {
      while IsSpace(buf[data])
        invariant Valid() && old(data) <= data && buf[data] == Peek(text, data)
        invariant SkipSpace(text, data) == SkipSpace(text, old(data))
        decreases |text| - data
      {
        data := data + 1;
      }
    }

    /** What decode_string accepts behind a backslash. */
    method SkipEscape() returns (ok: bool)
      requires Valid() && Peek(text, data) == '\\'
      modifies this`data
      ensures Valid() && old(data) <= data && ok == (Unit(text, old(data)) > 0)
      ensures ok ==> data == old(data) + Unit(text, old(data))
    {
      data := data + 1;
      if buf[data] == 'u' {
        if !(IsHex(buf[data + 1]) && IsHex(buf[data + 2]) && IsHex(buf[data + 3]) && IsHex(buf[data + 4])) {
          return false;
        }
        data := data + 5;
      } else if Simple(buf[data]).Some? {
        data := data + 1;
      } else {
        return false;
      }
      return true;
    }

    method CloseString(start: nat, escaping: char)
      requires Valid() && 0 < start <= data && StringEnd(text, start) == Some(data) && text[start - 1] == '"'
      requires escaping == '\0' ==> forall k :: start <= k < data ==> text[k] != '\\'
      requires Same(buf[..], text, start, data)
      modifies this`data, buf
      ensures Valid() && data == old(data) + 1 && Same(old(buf[..]), buf[..], 0, start - 1)
      ensures StringReady(buf[..], start, data - 1)
      ensures ReadString(buf[..], start, data - 1) == Decoded(text, start)
    {
      buf[data] := '\0';
      buf[start - 1] := escaping;
      data := data + 1;
      StringYields(buf[..], text, start, data - 1);
    }

    /** The loop of decode_string: it stops at the closing quote, and says whether it met an escape. */
    method ScanString() returns (ok: bool, escaping: char)
      requires Valid()
      modifies this`data
      ensures Valid() && old(data) <= data
      ensures StringEnd(text, old(data)) == if ok then Some(data) else None
      ensures ok && escaping == '\0' ==> forall k :: old(data) <= k < data ==> text[k] != '\\'
    {
      escaping := '\0';
      while true
        invariant old(data) <= data && Valid()
        invariant StringEnd(text, old(data)) == StringEnd(text, data)
        invariant escaping == '\0' ==> forall k :: old(data) <= k < data ==> text[k] != '\\'
        decreases |text| - data
      {
        if buf[data] != '"' && buf[data] != '\\' && buf[data] != '\0' {
          data := data + 1;
        } else if buf[data] == '"' {
          return true, escaping;
        } else if buf[data] == '\\' {
          escaping := 1 as char;
          ok := SkipEscape();
          if !ok {
            return false, escaping;
          }
        } else {
          return false, escaping;
        }
      }
    }

    /** decode_string: the closing quote becomes a NUL and the opening quote the flag that says whether
        there is something to unescape. */
    method DecodeString() returns (r: Option<RValue>)
      requires Valid()
      modifies this`data, buf
      ensures Valid() && old(data) <= data && Same(old(buf[..]), buf[..], 0, old(data))
      ensures Spells(buf[..], r, old(data), data, ParseString(text, old(data)))
    {
      hide StringEnd, Decoded, StringReady, ReadString;
      var ok := Consume('"');
      if !ok {
        return None;
      }
      var start := data;
      assert Same(buf[..], text, start, |text|);
      var closed, escaping := ScanString();
      if !closed {
        return None;
      }
      CloseString(start, escaping);
      return Some(RString(start, data - 1));
    }

    method DecodeNumber() returns (r: Option<RValue>)
      requires Valid()
      modifies this`data
      ensures Valid() && old(data) <= data
      ensures NumberEnd(text, old(data), Minus) == if r.Some? then Some(data) else None
      ensures r.Some? ==> r.value == RNumber(old(data), data)
    {
      var start := data;
      var state := Minus;
      while state != Invalid
        invariant Valid() && start <= data && NumberEnd(text, data, state) == NumberEnd(text, start, Minus)
        decreases state != Invalid, |text| - data
      {
        if !NumberChar(buf[data]) {
          if Accepting(state) {
            return Some(RNumber(start, data));
          }
          return None;
        }
        state := NextState(state, buf[data]);
        if '1' <= buf[data] <= '9' {
          SkipDigits();
        }
        data := data + 1;
      }
      return None;
    }

    /** The digits behind the one at data. */
    method SkipDigits()
      requires Valid() && data < |text|
      modifies this`data
      ensures Valid() && data < |text| && data + 1 == DigitsEnd(text, old(data) + 1)
    {
      while IsDigit(buf[data + 1])
        invariant Valid() && old(data) <= data < |text| && buf[data + 1] == Peek(text, data + 1)
        invariant DigitsEnd(text, data + 1) == DigitsEnd(text, old(data) + 1)
        decreases |text| - data
      {
        data := data + 1;
      }
    }

    method DecodeWord(w: string, r: RValue) returns (v: Option<RValue>)
      requires Valid() && w != "" && '\0' !in w
      modifies this`data
      ensures Valid() && old(data) <= data
      ensures v == if WordAt(text, old(data), w) then Some(r) else None
      ensures v.Some? ==> data == old(data) + |w|
    {
      var k := 0;
      while k < |w| && buf[data + k] == w[k]
        invariant k <= |w| && data + k <= |text|
        invariant forall j :: 0 <= j < k ==> text[data + j] == w[j]
      {
        k := k + 1;
      }
      if k < |w| {
        return None;
      }
      data := data + |w|;
      return Some(r);
    }

    method DecodeValue(depth: nat) returns (v: Option<RValue>)
      requires Valid()
      modifies this`data, buf
      ensures Valid() && old(data) <= data && Same(old(buf[..]), buf[..], 0, old(data))
      ensures Yields(buf[..], v, old(data), data, ParseValue(text, old(data), depth))
      decreases |text| - data, 1
    {
      hide StringEnd, Decoded, WholeUnits, ReadString, NumberEnd, ParseList, ParseObject, ParseString, ReadAll,
          ReadMembers;
      match buf[data]
      case '[' => v := DecodeList(depth + 1);
      case '{' => v := DecodeObject(depth + 1);
      case '"' => v := DecodeString();
      case 't' => v := DecodeWord("true", RTrue);
      case 'f' => v := DecodeWord("false", RFalse);
      case 'n' => v := DecodeWord("null", RNull);
      case _ =>
        v := DecodeNumber();
        assert v.Some? ==> buf[old(data)..data] == text[old(data)..data] == Slice(buf[..], old(data), data);
    }

    method DecodeList(depth: nat) returns (v: Option<RValue>)
      requires Valid() && Peek(text, data) == '['
      modifies this`data, buf
      ensures Valid() && old(data) <= data && Same(old(buf[..]), buf[..], 0, old(data))
      ensures Yields(buf[..], v, old(data), data, ParseList(text, old(data), depth))
      decreases |text| - data, 0
    {
      var ok := Consume('[');
      if !ok || depth > MAX_DEPTH {
        return None;
      }
      WsSkip();
      if buf[data] == ']' {
        data := data + 1;
        return Some(RList([]));
      }
      ghost var at := data;
      var items := DecodeItems(depth);
      if items.None? {
        return None;
      }
      AllReadyWiden(buf[..], items.value, at, data, old(data), data);
      return Some(RList(items.value));
    }

    /** The loop of decode_list. */
    method DecodeItems(depth: nat) returns (v: Option<seq<RValue>>)
      requires Valid()
      modifies this`data, buf
      ensures Valid() && old(data) <= data && Same(old(buf[..]), buf[..], 0, old(data))
      ensures ItemsYield(buf[..], v, old(data), data, ParseItems(text, old(data), depth))
      decreases |text| - data, 2
    {
      hide ParseValue, ParseItems, ReadAll, Read, Ready, AllReady, SkipSpace;
      var items: seq<RValue> := [];
      ItemsStart(buf[..], ParseItems(text, data, depth), data);
      while true
        invariant Valid() && old(data) <= data && Same(old(buf[..]), buf[..], 0, old(data))
        invariant AllReady(buf[..], items, old(data), data)
        invariant Extend(ReadAll(buf[..], items), ParseItems(text, data, depth)) == ParseItems(text, old(data), depth)
        decreases |text| - data
      {
        ghost var at, before := data, buf[..];
        var x := DecodeValue(depth + 1);
        if x.None? {
          NoItem(text, at, depth);
          return None;
        }
        NextItem(before, buf[..], text, items, x.value, old(data), at, data, depth);
        AllReadyWiden(buf[..], items + [x.value], old(data), data, old(data), SkipSpace(text, data));
        WsSkip();
        items := items + [x.value];
        if buf[data] == ']' {
          data := data + 1;
          AllReadyWiden(buf[..], items, old(data), data - 1, old(data), data);
          return Some(items);
        }
        var ok := Consume(',');
        if !ok {
          return None;
        }
        AllReadyWiden(buf[..], items, old(data), data - 1, old(data), SkipSpace(text, data));
        WsSkip();
      }
    }

    method DecodeObject(depth: nat) returns (v: Option<RValue>)
      requires Valid() && Peek(text, data) == '{'
      modifies this`data, buf
      ensures Valid() && old(data) <= data && Same(old(buf[..]), buf[..], 0, old(data))
      ensures Yields(buf[..], v, old(data), data, ParseObject(text, old(data), depth))
      decreases |text| - data, 0
    {
      var ok := Consume('{');
      if !ok || depth > MAX_DEPTH {
        return None;
      }
      WsSkip();
      if buf[data] == '}' {
        data := data + 1;
        return Some(RObject([]));
      }
      ghost var at := data;
      var ms := DecodeMembers(depth);
      if ms.None? {
        return None;
      }
      MembersReadyWiden(buf[..], ms.value, at, data, old(data), data);
      return Some(RObject(ms.value));
    }

    /** The loop of decode_object. */
    method DecodeMembers(depth: nat) returns (v: Option<seq<RMember>>)
      requires Valid()
      modifies this`data, buf
      ensures Valid() && old(data) <= data && Same(old(buf[..]), buf[..], 0, old(data))
      ensures MembersYield(buf[..], v, old(data), data, ParseMembers(text, old(data), depth))
      decreases |text| - data, 3
    {
      hide ParseMember, ParseMembers, ReadMembers, ReadMember, MemberReady, MembersReady, SkipSpace;
      var ms: seq<RMember> := [];
      MembersStart(buf[..], ParseMembers(text, data, depth), data);
      while true
        invariant Valid() && old(data) <= data && Same(old(buf[..]), buf[..], 0, old(data))
        invariant MembersReady(buf[..], ms, old(data), data)
        invariant Extend(ReadMembers(buf[..], ms), ParseMembers(text, data, depth)) ==
                  ParseMembers(text, old(data), depth)
        decreases |text| - data
      {
        ghost var at, before := data, buf[..];
        var m := DecodeMember(depth);
        if m.None? {
          NoMember(text, at, depth);
          return None;
        }
        NextMember(before, buf[..], text, ms, m.value, old(data), at, data, depth);
        MembersReadyWiden(buf[..], ms + [m.value], old(data), data, old(data), SkipSpace(text, data));
        WsSkip();
        ms := ms + [m.value];
        if buf[data] == '}' {
          data := data + 1;
          MembersReadyWiden(buf[..], ms, old(data), data - 1, old(data), data);
          return Some(ms);
        }
        var ok := Consume(',');
        if !ok {
          return None;
        }
        MembersReadyWiden(buf[..], ms, old(data), data - 1, old(data), SkipSpace(text, data));
        WsSkip();
      }
    }

    /** The key of a member, unescaped in the buffer at once, and the colon behind it. */
    method DecodeKey() returns (ok: bool, start: nat, end: nat)
      requires Valid()
      modifies this`data, buf
      ensures Valid() && old(data) <= data && Same(old(buf[..]), buf[..], 0, old(data))
      ensures KeyYields(buf[..], ok, start, end, old(data), data, text)
    {
      hide StringEnd, Decoded, ReadString, ParseString, WholeUnits, SkipSpace;
      var t := DecodeString();
      if t.None? {
        return false, 0, 0;
      }
      start, end := t.value.start, t.value.end;
      WsSkip();
      ok := Consume(':');
      if !ok {
        return;
      }
      assert buf[start..end] == buf[..][start..end];
      end := Unescape(buf, start, end);
      assert buf[start..end] == Slice(buf[..], start, end);
      WsSkip();
    }

    /** The loop body of decode_object: the key is unescaped before its value is read. */
    method DecodeMember(depth: nat) returns (m: Option<RMember>)
      requires Valid()
      modifies this`data, buf
      ensures Valid() && old(data) <= data && Same(old(buf[..]), buf[..], 0, old(data))
      ensures MemberYields(buf[..], m, old(data), data, ParseMember(text, old(data), depth))
      decreases |text| - data, 2
    {
      hide ParseString, ParseValue, Ready, Read, Slice, SkipSpace;
      var ok, start, end := DecodeKey();
      if !ok {
        return None;
      }
      ghost var at, before := data, buf[..];
      var v := DecodeValue(depth + 1);
      if v.None? {
        return None;
      }
      SliceFrame(before, buf[..], 0, at, start, end);
      ReadyWiden(buf[..], v.value, at, data, end, data);
      return Some(RMember(start, end, v.value));
    }

    method Parse() returns (v: Option<RValue>)
      requires Valid() && data == 0
      modifies this`data, buf
      ensures Load(text).None? == v.None?
      ensures v.Some? ==> Ready(buf[..], v.value, 0, |text|) && Read(buf[..], v.value) == Load(text).value
    {
      hide ParseValue;
      WsSkip();
      ghost var at := data;
      v := DecodeValue(0);
      if v.Some? {
        ReadyWiden(buf[..], v.value, at, data, 0, |text|);
      }
      WsSkip();
      if v.Some? && buf[data] != '\0' {
        v := None;
      }
    }
  }

  // ---------------------------------------------------------------- loops of the parser

  /** Yields, for a member. */
  ghost predicate MemberYields(b: string, m: Option<RMember>, lo: nat, pos: nat, p: Parsed<Member>) {
    match p
    case Fail => m.None?
    case Ok(x, end) => m.Some? && pos == end && MemberReady(b, m.value, lo, pos) && ReadMember(b, m.value) == x
  }

  /** The outcome of reading a key and its colon from lo to pos. */
  predicate KeyYields(b: string, ok: bool, start: nat, end: nat, lo: nat, pos: nat, text: string)
    requires lo <= |text|
  {
    match ParseString(text, lo)
    case Fail => !ok
    case Ok(key, p) =>
      var j := SkipSpace(text, p);
      if Peek(text, j) != ':' then !ok
      else ok && pos == SkipSpace(text, j + 1) && lo < start <= end < pos && Slice(b, start, end) == key
  }

  ghost predicate ItemsYield(b: string, v: Option<seq<RValue>>, lo: nat, pos: nat, p: Parsed<seq<Value>>) {
    match p
    case Fail => v.None?
    case Ok(xs, end) => v.Some? && pos == end && AllReady(b, v.value, lo, pos) && ReadAll(b, v.value) == xs
  }

  ghost predicate MembersYield(b: string, v: Option<seq<RMember>>, lo: nat, pos: nat, p: Parsed<seq<Member>>) {
    match p
    case Fail => v.None?
    case Ok(xs, end) => v.Some? && pos == end && MembersReady(b, v.value, lo, pos) && ReadMembers(b, v.value) == xs
  }

  lemma ItemsStart(b: string, p: Parsed<seq<Value>>, lo: nat)
    ensures AllReady(b, [], lo, lo) && Extend(ReadAll(b, []), p) == p
  {
    ExtendNil(p);
  }

  lemma MembersStart(b: string, p: Parsed<seq<Member>>, lo: nat)
    ensures MembersReady(b, [], lo, lo) && Extend(ReadMembers(b, []), p) == p
  {
    ExtendNil(p);
  }

  lemma NoItem(text: string, at: nat, depth: nat)
    requires at <= |text| && ParseValue(text, at, depth + 1).Fail?
    ensures ParseItems(text, at, depth).Fail?
  {
  }

  lemma NoMember(text: string, at: nat, depth: nat)
    requires at <= |text| && ParseMember(text, at, depth).Fail?
    ensures ParseMembers(text, at, depth).Fail?
  {
  }

  function Extend<T>(vs: seq<T>, p: Parsed<seq<T>>): Parsed<seq<T>> {
    match p
    case Fail => Fail
    case Ok(ws, end) => Ok(vs + ws, end)
  }

  lemma ExtendNil<T>(p: Parsed<seq<T>>)
    ensures Extend([], p) == p
  {
    if p.Ok? {
      assert [] + p.value == p.value;
    }
  }

  lemma ExtendOne<T>(vs: seq<T>, v: T, p: Parsed<seq<T>>)
    ensures Extend(vs, Extend([v], p)) == Extend(vs + [v], p)
  {
    if p.Ok? {
      assert vs + ([v] + p.value) == vs + [v] + p.value;
    }
  }

  lemma ReadAllSnoc(b: string, c: string, items: seq<RValue>, x: RValue, lo: nat, at: nat, pos: nat)
    requires lo <= at <= pos && Same(b, c, 0, at) && AllReady(b, items, lo, at) && Ready(c, x, at, pos)
    ensures AllReady(c, items + [x], lo, pos) && ReadAll(c, items + [x]) == ReadAll(b, items) + [Read(c, x)]
  {
    assert (items + [x])[..|items|] == items;
    ReadAllFrame(b, c, items, lo, at);
  }

  lemma ReadMembersSnoc(b: string, c: string, ms: seq<RMember>, m: RMember, lo: nat, at: nat, pos: nat)
    requires lo <= at <= pos && Same(b, c, 0, at) && MembersReady(b, ms, lo, at) && MemberReady(c, m, at, pos)
    ensures MembersReady(c, ms + [m], lo, pos)
    ensures ReadMembers(c, ms + [m]) == ReadMembers(b, ms) + [ReadMember(c, m)]
  {
    assert (ms + [m])[..|ms|] == ms;
    ReadMembersFrame(b, c, ms, lo, at);
  }

  lemma ItemsUnfold(text: string, at: nat, depth: nat, v: Value, pos: nat)
    requires at <= |text| && ParseValue(text, at, depth + 1) == Ok(v, pos)
    ensures var j := SkipSpace(text, pos);
            ParseItems(text, at, depth) ==
            if Peek(text, j) == ']' then Ok([v], j + 1)
            else if Peek(text, j) != ',' then Fail
            else Extend([v], ParseItems(text, SkipSpace(text, j + 1), depth))
  {
    hide ParseValue;
  }

  lemma MembersUnfold(text: string, at: nat, depth: nat, m: Member, pos: nat)
    requires at <= |text| && ParseMember(text, at, depth) == Ok(m, pos)
    ensures var j := SkipSpace(text, pos);
            ParseMembers(text, at, depth) ==
            if Peek(text, j) == '}' then Ok([m], j + 1)
            else if Peek(text, j) != ',' then Fail
            else Extend([m], ParseMembers(text, SkipSpace(text, j + 1), depth))
  {
    hide ParseMember;
  }

  /** One more item of a list. */
  lemma NextItem(b: string, c: string, text: string, items: seq<RValue>, x: RValue,
                 lo: nat, at: nat, pos: nat, depth: nat)
    requires lo <= at <= pos <= |text| && Same(b, c, 0, at) && AllReady(b, items, lo, at)
    requires Yields(c, Some(x), at, pos, ParseValue(text, at, depth + 1))
    ensures AllReady(c, items + [x], lo, pos)
    ensures var all, j := ReadAll(c, items + [x]), SkipSpace(text, pos);
            Extend(ReadAll(b, items), ParseItems(text, at, depth)) ==
            if Peek(text, j) == ']' then Ok(all, j + 1)
            else if Peek(text, j) != ',' then Fail
            else Extend(all, ParseItems(text, SkipSpace(text, j + 1), depth))
  {
    hide ParseValue, ParseItems, Read, ReadAll, Ready, AllReady;
    ItemsUnfold(text, at, depth, Read(c, x), pos);
    ReadAllSnoc(b, c, items, x, lo, at, pos);
    var j := SkipSpace(text, pos);
    if Peek(text, j) == ',' {
      ExtendOne(ReadAll(b, items), Read(c, x), ParseItems(text, SkipSpace(text, j + 1), depth));
    }
  }

  /** One more member of an object. */
  lemma NextMember(b: string, c: string, text: string, ms: seq<RMember>, m: RMember,
                   lo: nat, at: nat, pos: nat, depth: nat)
    requires lo <= at <= pos <= |text| && Same(b, c, 0, at) && MembersReady(b, ms, lo, at)
    requires MemberYields(c, Some(m), at, pos, ParseMember(text, at, depth))
    ensures MembersReady(c, ms + [m], lo, pos)
    ensures var all, j := ReadMembers(c, ms + [m]), SkipSpace(text, pos);
            Extend(ReadMembers(b, ms), ParseMembers(text, at, depth)) ==
            if Peek(text, j) == '}' then Ok(all, j + 1)
            else if Peek(text, j) != ',' then Fail
            else Extend(all, ParseMembers(text, SkipSpace(text, j + 1), depth))
  {
    hide ParseMember, ParseMembers, ReadMember, ReadMembers, MemberReady, MembersReady;
    MembersUnfold(text, at, depth, ReadMember(c, m), pos);
    ReadMembersSnoc(b, c, ms, m, lo, at, pos);
    var j := SkipSpace(text, pos);
    if Peek(text, j) == ',' {
      ExtendOne(ReadMembers(b, ms), ReadMember(c, m), ParseMembers(text, SkipSpace(text, j + 1), depth));
    }
  }

  /** load of a text: the tree and the buffer it points into. */
  method LoadCopy(input: string) returns (v: Option<RValue>, buf: array<char>)
    ensures fresh(buf) && buf.Length == |input| + 1
    ensures Load(input) == if v.Some? then Some(Read(buf[..], v.value)) else None
    ensures v.Some? ==> Ready(buf[..], v.value, 0, |input|)
  {
    var parser := new JsonParser(input);
    v := parser.Parse();
    buf := parser.buf;
  }

  /** The in-place reader undoes the writer exactly up to 5000 nested containers. */
  method ReloadDump(v: Value, f: Format) returns (r: Option<RValue>, buf: array<char>)
    requires IsSpace(f.separator) && Integers(v)
    ensures r.Some? <==> Nesting(v) <= 5000
    ensures r.Some? ==> Ready(buf[..], r.value, 0, buf.Length) && Read(buf[..], r.value) == v
  {
    r, buf := LoadCopy(Dump(v, f, 0));
    LoadUndoesDump(v, f);
    if r.Some? {
      ReadyWiden(buf[..], r.value, 0, buf.Length - 1, 0, buf.Length);
    }
  }

  // ---------------------------------------------------------------- asking for strings

  /** The path leads to a string of the tree. */
  predicate LeadsToString(v: RValue, path: seq<nat>)
    decreases path
  {
    if path == [] then v.RString?
    else if v.RList? then path[0] < |v.items| && LeadsToString(v.items[path[0]], path[1..])
    else if v.RObject? then path[0] < |v.members| && LeadsToString(v.members[path[0]].value, path[1..])
    else false
  }

  function StringAt(v: RValue, path: seq<nat>): (s: RValue)
    requires LeadsToString(v, path)
    ensures s.RString?
    decreases path
  {
    if path == [] then v
    else if v.RList? then StringAt(v.items[path[0]], path[1..])
    else StringAt(v.members[path[0]].value, path[1..])
  }

  /** The tree with another end_ of the string at the path. */
  function WithEnd(v: RValue, path: seq<nat>, end: nat): RValue
    requires LeadsToString(v, path)
    decreases path
  {
    if path == [] then v.(end := end)
    else if v.RList? then RList(v.items[path[0] := WithEnd(v.items[path[0]], path[1..], end)])
    else
      var m := v.members[path[0]];
      RObject(v.members[path[0] := m.(value := WithEnd(m.value, path[1..], end))])
  }

  /** What unescape does to the buffer. */
  predicate Rewritten(b: string, c: string, start: nat, end: nat, newEnd: nat) {
    0 < start <= newEnd <= end < |b| == |c| && c[start - 1] == '\0' && c[start..newEnd] == ReadString(b, start, end) &&
    Same(b, c, 0, start - 1) && Same(b, c, end + 1, |b|)
  }

  /** A string of a ready tree lies in the range of the tree. */
  lemma {:induction false} StringInside(b: string, v: RValue, path: seq<nat>, lo: nat, hi: nat)
    requires LeadsToString(v, path) && Ready(b, v, lo, hi)
    ensures var s := StringAt(v, path); lo < s.start <= s.end < hi && StringReady(b, s.start, s.end)
    decreases path, 0
  {
    if path != [] {
      if v.RList? {
        StringInsideAll(b, v.items, path, lo, hi);
      } else {
        StringInsideMembers(b, v.members, path, lo, hi);
      }
    }
  }

  lemma {:induction false} StringInsideAll(b: string, items: seq<RValue>, path: seq<nat>, lo: nat, hi: nat)
    requires path != [] && path[0] < |items| && LeadsToString(items[path[0]], path[1..]) && AllReady(b, items, lo, hi)
    ensures var s := StringAt(items[path[0]], path[1..]); lo < s.start <= s.end < hi && StringReady(b, s.start, s.end)
    decreases path[1..], |items|
  {
    var front, last := items[..|items| - 1], items[|items| - 1];
    var mid: nat :| lo <= mid <= hi && AllReady(b, front, lo, mid) && Ready(b, last, mid, hi);
    if path[0] == |items| - 1 {
      StringInside(b, last, path[1..], mid, hi);
    } else {
      StringInsideAll(b, front, path, lo, mid);
    }
  }

  lemma {:induction false} StringInsideMembers(b: string, ms: seq<RMember>, path: seq<nat>, lo: nat, hi: nat)
    requires path != [] && path[0] < |ms| && LeadsToString(ms[path[0]].value, path[1..]) && MembersReady(b, ms, lo, hi)
    ensures var s := StringAt(ms[path[0]].value, path[1..]);
            lo < s.start <= s.end < hi && StringReady(b, s.start, s.end)
    decreases path[1..], |ms|
  {
    var front, last := ms[..|ms| - 1], ms[|ms| - 1];
    var mid: nat :| lo <= mid <= hi && MembersReady(b, front, lo, mid) && MemberReady(b, last, mid, hi);
    if path[0] == |ms| - 1 {
      StringInside(b, last.value, path[1..], last.keyEnd, hi);
    } else {
      StringInsideMembers(b, front, path, lo, mid);
    }
  }

  lemma RewrittenString(b: string, c: string, start: nat, end: nat, newEnd: nat, lo: nat, hi: nat)
    requires Rewritten(b, c, start, end, newEnd) && lo + 1 <= start <= end < hi
    ensures Ready(c, RString(start, newEnd), lo, hi) &&
            Read(c, RString(start, newEnd)) == Str(ReadString(b, start, end))
  {
    assert Slice(c, start, newEnd) == c[start..newEnd];
  }

  /** Unescaping any string of a ready tree leaves what the tree stands for, and leaves it ready. */
  lemma {:induction false} StringRewritten(b: string, c: string, v: RValue, path: seq<nat>, lo: nat, hi: nat, n: nat)
    requires LeadsToString(v, path) && Ready(b, v, lo, hi) && hi <= |b|
    requires Rewritten(b, c, StringAt(v, path).start, StringAt(v, path).end, n)
    ensures Ready(c, WithEnd(v, path, n), lo, hi) && Read(c, WithEnd(v, path, n)) == Read(b, v)
    decreases path, 0
  {
    hide Rewritten;
    if path == [] {
      RewrittenString(b, c, v.start, v.end, n, lo, hi);
    } else if v.RList? {
      AllRewritten(b, c, v.items, path, lo, hi, n);
    } else {
      MembersRewritten(b, c, v.members, path, lo, hi, n);
    }
  }

  lemma RewrittenElsewhere(b: string, c: string, start: nat, end: nat, n: nat, lo: nat, hi: nat)
    requires Rewritten(b, c, start, end, n) && lo <= hi <= |b| && (hi < start || end < lo)
    ensures Same(b, c, lo, hi)
  {
  }

  lemma {:induction false} AllRewritten(
    b: string, c: string, items: seq<RValue>, path: seq<nat>, lo: nat, hi: nat, n: nat)
    requires path != [] && path[0] < |items| && LeadsToString(items[path[0]], path[1..])
    requires AllReady(b, items, lo, hi) && hi <= |b|
    requires var s := StringAt(items[path[0]], path[1..]); Rewritten(b, c, s.start, s.end, n)
    ensures var put := items[path[0] := WithEnd(items[path[0]], path[1..], n)];
            AllReady(c, put, lo, hi) && ReadAll(c, put) == ReadAll(b, items)
    decreases path[1..], |items|
  {
    hide Rewritten, Read, Ready;
    var k, front, last := path[0], items[..|items| - 1], items[|items| - 1];
    var mid: nat :| lo <= mid <= hi && AllReady(b, front, lo, mid) && Ready(b, last, mid, hi);
    var s, put := StringAt(items[k], path[1..]), items[k := WithEnd(items[k], path[1..], n)];
    if k == |items| - 1 {
      StringInside(b, last, path[1..], mid, hi);
      RewrittenElsewhere(b, c, s.start, s.end, n, lo, mid);
      ReadAllFrame(b, c, front, lo, mid);
      StringRewritten(b, c, last, path[1..], mid, hi, n);
      assert put[..|put| - 1] == front;
    } else {
      StringInsideAll(b, front, path, lo, mid);
      RewrittenElsewhere(b, c, s.start, s.end, n, mid, hi);
      ReadFrame(b, c, last, mid, hi);
      AllRewritten(b, c, front, path, lo, mid, n);
      assert put[..|put| - 1] == front[k := WithEnd(items[k], path[1..], n)];
    }
  }

  lemma {:induction false} MembersRewritten(
    b: string, c: string, ms: seq<RMember>, path: seq<nat>, lo: nat, hi: nat, n: nat)
    requires path != [] && path[0] < |ms| && LeadsToString(ms[path[0]].value, path[1..])
    requires MembersReady(b, ms, lo, hi) && hi <= |b|
    requires var s := StringAt(ms[path[0]].value, path[1..]); Rewritten(b, c, s.start, s.end, n)
    ensures var m := ms[path[0]];
            var put := ms[path[0] := m.(value := WithEnd(m.value, path[1..], n))];
            MembersReady(c, put, lo, hi) && ReadMembers(c, put) == ReadMembers(b, ms)
    decreases path[1..], |ms|
  {
    hide Rewritten, Read, Ready;
    var k, front, last := path[0], ms[..|ms| - 1], ms[|ms| - 1];
    var mid: nat :| lo <= mid <= hi && MembersReady(b, front, lo, mid) && MemberReady(b, last, mid, hi);
    var s := StringAt(ms[k].value, path[1..]);
    var m := ms[k].(value := WithEnd(ms[k].value, path[1..], n));
    var put := ms[k := m];
    if k == |ms| - 1 {
      StringInside(b, last.value, path[1..], last.keyEnd, hi);
      RewrittenElsewhere(b, c, s.start, s.end, n, lo, mid);
      ReadMembersFrame(b, c, front, lo, mid);
      RewrittenElsewhere(b, c, s.start, s.end, n, last.keyStart, last.keyEnd);
      SliceFrame(b, c, last.keyStart, last.keyEnd, last.keyStart, last.keyEnd);
      StringRewritten(b, c, last.value, path[1..], last.keyEnd, hi, n);
      assert put[..|put| - 1] == front;
    } else {
      StringInsideMembers(b, front, path, lo, mid);
      RewrittenElsewhere(b, c, s.start, s.end, n, mid, hi);
      ReadMemberFrame(b, c, last, mid, hi);
      MembersRewritten(b, c, front, path, lo, mid, n);
      assert put[..|put| - 1] == front[k := m];
    }
  }

  /** s(): a string of a tree is unescaped in the buffer when it is asked for. Its text is then there, and
      the whole tree, this string and all others, stands for what it stood for. */
  method AskString(b: array<char>, v: RValue, path: seq<nat>, ghost hi: nat) returns (v': RValue, text: string)
    requires LeadsToString(v, path) && Ready(b[..], v, 0, hi) && hi <= b.Length
    modifies b
    ensures Str(text) == Read(old(b[..]), StringAt(v, path))
    ensures Ready(b[..], v', 0, hi) && Read(b[..], v') == Read(old(b[..]), v)
    ensures exists n: nat :: v' == WithEnd(v, path, n)
  {
    hide Ready, ReadString, WholeUnits, Unescaped;
    var s := StringAt(v, path);
    StringInside(b[..], v, path, 0, hi);
    ghost var before := b[..];
    assert b[s.start..s.end] == b[..][s.start..s.end];
    var newEnd := Unescape(b, s.start, s.end);
    assert b[..][s.start..newEnd] == b[s.start..newEnd];
    assert Rewritten(before, b[..], s.start, s.end, newEnd);
    StringRewritten(before, b[..], v, path, 0, hi, newEnd);
    v', text := WithEnd(v, path, newEnd), b[s.start..newEnd];
  }

  /** A text is loaded and its strings are asked for in any order, any number of times: the tree always
      stands for the value that was read. */
  method LoadAndAsk(input: string, paths: seq<seq<nat>>) returns (v: Option<RValue>, buf: array<char>)
    ensures buf.Length == |input| + 1
    ensures Load(input) == if v.Some? then Some(Read(buf[..], v.value)) else None
    ensures v.Some? ==> Ready(buf[..], v.value, 0, |input|)
  {
    v, buf := LoadCopy(input);
    if v.None? {
      return;
    }
    var i := 0;
    while i < |paths|
      invariant v.Some? && buf.Length == |input| + 1 && fresh(buf)
      invariant Load(input) == Some(Read(buf[..], v.value)) && Ready(buf[..], v.value, 0, |input|)
    {
      if LeadsToString(v.value, paths[i]) {
        var v', _ := AskString(buf, v.value, paths[i], |input|);
        v := Some(v');
      }
      i := i + 1;
    }
  }

  // ---------------------------------------------------------------- children

  /** The growing child array l_ of a list or object: lsize_ children, and room for lremain_ more, a
      16-bit counter. */
  class Children<T(0)> {
    var l: array<T>
    var lsize: nat
    var lremain: nat

    ghost predicate Valid()
      reads this
    {
      lsize + lremain == l.Length && lremain < 0x1_0000
    }

    ghost function Contents(): seq<T>
      requires Valid()
      reads this, l
    {
      l[..lsize]
    }

    constructor ()
      ensures Valid() && fresh(l) && Contents() == []
    {
      l := new T[0];
      lsize, lremain := 0, 0;
    }

    /** emplace_back: the array doubles, but by at most 60000 so that the room fits its counter; the
        sizes stay in the range of int. */
    method EmplaceBack(v: T)
      requires Valid() && lsize < 0x4000_0000
      modifies this, l
      ensures Valid() && (l == old(l) || fresh(l))
      ensures Contents() == old(Contents()) + [v]
      ensures old(lremain) > 0 ==> l == old(l) && lremain == old(lremain) - 1
      ensures old(lremain) == 0 ==> l.Length <= old(lsize) + 60000 && (old(lsize) >= 4 ==> l.Length <= 2 * old(lsize))
    {
      if lremain == 0 {
        var newSize := lsize + lsize;
        if newSize - lsize > 60000 {
          newSize := lsize + 60000;
        }
        if newSize < 4 {
          newSize := 4;
        }
        var p := new T[newSize];
        var k := 0;
        while k < lsize
          invariant unchanged(this) && unchanged(l)
          invariant k <= lsize <= p.Length && p[..k] == l[..k]
        {
          p[k] := l[k];
          k := k + 1;
        }
        l := p;
        lremain := newSize - lsize;
      }
      l[lsize] := v;
      lsize := lsize + 1;
      lremain := lremain - 1;
    }
  }
}

/** Multipart messages of crow/multipart.h: the writer, the reader that erases what it has read, and that
    the reader undoes the writer. The headers and parameters of a part are listed in the order in which
    the writer goes through them. */
module Multipart {
  import opened Sequences

  datatype Param = Param(key: string, value: string)

  datatype Header = Header(key: string, value: string, params: seq<Param>)

  datatype Part = Part(headers: seq<Header>, body: string)

  // ---------------------------------------------------------------- text

  predicate Contains(s: string, t: string) {
    exists i :: 0 <= i <= |s| && At(s, i, t)
  }

  /** find: the first position from i on where t stands. */
  function FindFrom(s: string, t: string, i: nat): (r: Option<nat>)
    requires i <= |s|
    ensures r.Some? ==> i <= r.value && At(s, r.value, t) && forall k :: i <= k < r.value ==> !At(s, k, t)
    ensures r.None? ==> forall k :: i <= k <= |s| ==> !At(s, k, t)
    decreases |s| - i
  {
    if At(s, i, t) then Some(i) else if i == |s| then None else FindFrom(s, t, i + 1)
  }

  function Find(s: string, t: string): (r: Option<nat>)
    ensures r.Some? ==> At(s, r.value, t) && forall k :: 0 <= k < r.value ==> !At(s, k, t)
    ensures r.None? ==> !Contains(s, t)
  {
    FindFrom(s, t, 0)
  }

  /** substr(0, n), where None stands for npos. */
  function Take(s: string, n: Option<nat>): string {
    if n.None? || n.value >= |s| then s else s[..n.value]
  }

  /** erase(0, n) */
  function Erase(s: string, n: nat): string {
    if n >= |s| then "" else s[n..]
  }

  /** found + k, which wraps around for npos. */
  function Plus(found: Option<nat>, k: nat): nat
    requires k > 0
  {
    match found
    case None => k - 1
    case Some(i) => i + k
  }

  const CRLF := "\r\n"

  lemma FindIs(s: string, t: string, i: nat)
    requires At(s, i, t) && forall k :: 0 <= k < i ==> !At(s, k, t)
    ensures Find(s, t) == Some(i)
  {
    assert Contains(s, t);
  }

  /** When nothing before i starts like t, the t at i is the first. */
  lemma FindFirst(s: string, t: string, i: nat)
    requires At(s, i, t) && t != "" && forall k :: 0 <= k < i ==> s[k] != t[0]
    ensures Find(s, t) == Some(i)
  {
    forall k | 0 <= k < i
      ensures !At(s, k, t)
    {
      assert s[k + 0] != t[0];
    }
    FindIs(s, t, i);
  }

  /** A separator of two characters. */
  lemma PairAt(s: string, k: nat, sep: string)
    requires |sep| == 2
    ensures At(s, k, sep) <==> k + 1 < |s| && s[k] == sep[0] && s[k + 1] == sep[1]
  {
    if At(s, k, sep) {
      assert s[k + 0] == sep[0] && s[k + 1] == sep[1];
    }
  }

  lemma NoPair(s: string, k: nat, sep: string)
    requires |sep| == 2 && !Contains(s, sep) && k + 1 < |s|
    ensures s[k] != sep[0] || s[k + 1] != sep[1]
  {
    PairAt(s, k, sep);
    assert !At(s, k, sep);
  }

  // ---------------------------------------------------------------- the writer

  function ParamText(p: Param): string {
    p.key + "=" + "\"" + p.value + "\""
  }

  function DumpParams(ps: seq<Param>): string {
    if ps == [] then "" else "; " + (ParamText(ps[0]) + DumpParams(ps[1..]))
  }

  function DumpLine(h: Header): string {
    h.key + ": " + h.value + DumpParams(h.params)
  }

  function DumpHead(hs: seq<Header>): string {
    if hs == [] then "" else DumpLine(hs[0]) + CRLF + DumpHead(hs[1..])
  }

  function DumpPart(p: Part): string {
    DumpHead(p.headers) + CRLF + p.body + CRLF
  }

  function DumpParts(ps: seq<Part>, delimiter: string): string {
    if ps == [] then "" else delimiter + CRLF + DumpPart(ps[0]) + DumpParts(ps[1..], delimiter)
  }

  function Delimiter(boundary: string): string {
    "--" + boundary
  }

  function Dump(ps: seq<Part>, boundary: string): string {
    DumpParts(ps, Delimiter(boundary)) + Delimiter(boundary) + "--" + CRLF
  }

  // ---------------------------------------------------------------- the reader

  /** trim: the value without the quotes around it */
  function Trim(s: string): string {
    if |s| > 1 && s[0] == '"' && s[|s| - 1] == '"' then s[1..|s| - 1] else s
  }

  /** emplace does not replace a parameter that is there. */
  function Emplace(ps: seq<Param>, p: Param): seq<Param> {
    if exists i :: 0 <= i < |ps| && ps[i].key == p.key then ps else ps + [p]
  }

  function ParseParam(param: string): Param {
    var split := Find(param, "=");
    Param(Take(param, split), Trim(Erase(param, Plus(split, 1))))
  }

  /** What is left of a line behind the first "; ". */
  function RestOf(line: string): string {
    match Find(line, "; ")
    case None => ""
    case Some(i) => Erase(line, i + 2)
  }

  lemma RestShorter(line: string)
    requires line != ""
    ensures |RestOf(line)| < |line|
  {
  }

  function ParseParams(line: string, ps: seq<Param>): seq<Param>
    decreases |line|
  {
    if line == "" then ps
    else
      RestShorter(line);
      ParseParams(RestOf(line), Emplace(ps, ParseParam(Take(line, Find(line, "; ")))))
  }

  /** A header line; None when the standard library throws. */
  function ParseLine(line: string): Option<Header> {
    if line == "" then Some(Header("", "", []))
    else
      var header := Take(line, Find(line, "; "));
      var split := Find(header, ": ");
      if Plus(split, 2) > |header| then None
      else Some(Header(Take(header, split), header[Plus(split, 2)..], ParseParams(RestOf(line), [])))
  }

  function ParseHead(lines: string): Option<seq<Header>>
    decreases |lines|
  {
    if lines == "" then Some([])
    else
      var found := Find(lines, CRLF);
      match ParseLine(Take(lines, found))
      case None => None
      case Some(h) =>
        match ParseHead(Erase(lines, Plus(found, 2)))
        case None => None
        case Some(hs) => Some([h] + hs)
  }

  /** All but the last two characters; a shorter text is kept. */
  function DropTwo(s: string): string {
    if |s| < 2 then s else s[..|s| - 2]
  }

  function ParseSection(section: string): Option<Part> {
    var found := Find(section, CRLF + CRLF);
    match ParseHead(Take(section, Some(Plus(found, 2))))
    case None => None
    case Some(hs) => Some(Part(hs, DropTwo(Erase(section, Plus(found, 4)))))
  }

  // ---------------------------------------------------------------- names

  function Upper(c: char): char {
    if 'a' <= c <= 'z' then c - 32 as char else c
  }

  /** Keys of headers are compared without case. */
  predicate SameKey(a: string, b: string) {
    |a| == |b| && forall i :: 0 <= i < |a| ==> Upper(a[i]) == Upper(b[i])
  }

  /** The same letter of the alphabet, the first one small and the second one capital. */
  predicate SmallAndCapital(c: char, d: char) {
    'a' <= c <= 'z' && 'A' <= d <= 'Z' && c as int - 'a' as int == d as int - 'A' as int
  }

  /** Keys are the same exactly when they differ at most in the case of letters. */
  lemma SameKeyExactly(a: string, b: string)
    ensures SameKey(a, b) <==>
            |a| == |b| &&
            forall i :: 0 <= i < |a| ==>
              a[i] == b[i] || SmallAndCapital(a[i], b[i]) || SmallAndCapital(b[i], a[i])
  {
    hide Upper, SmallAndCapital;
    forall c, d
      ensures Upper(c) == Upper(d) <==> c == d || SmallAndCapital(c, d) || SmallAndCapital(d, c)
    {
      UpperExactly(c, d);
    }
  }

  lemma UpperExactly(c: char, d: char)
    ensures Upper(c) == Upper(d) <==> c == d || SmallAndCapital(c, d) || SmallAndCapital(d, c)
  {
  }

  /** get_header_object: the first header with this key. */
  function HeaderOf(hs: seq<Header>, key: string): Option<Header> {
    if hs == [] then None else if SameKey(hs[0].key, key) then Some(hs[0]) else HeaderOf(hs[1..], key)
  }

  function ParamOf(ps: seq<Param>, key: string): Option<string> {
    if ps == [] then None else if ps[0].key == key then Some(ps[0].value) else ParamOf(ps[1..], key)
  }

  /** The name under which a part is entered into the part map. Without one the code reads behind the end
      of the parameters, which is undefined. */
  function NameOf(p: Part): Option<string> {
    match HeaderOf(p.headers, "Content-Disposition")
    case None => None
    case Some(h) => ParamOf(h.params, "name")
  }

  /** parse_body; None for a bad request, an exception of the standard library, or a part without a name. */
  function ParseBody(body: string, delimiter: string): Option<seq<Part>>
    requires delimiter != ""
    decreases |body|
  {
    if body == CRLF then Some([])
    else
      match Find(body, delimiter)
      case None => None
      case Some(i) =>
        var rest := Erase(body, i + |delimiter| + 2);
        if i == 0 then ParseBody(rest, delimiter)
        else
          match ParseSection(body[..i])
          case None => None
          case Some(p) =>
            if NameOf(p).None? then None
            else
              match ParseBody(rest, delimiter)
              case None => None
              case Some(ps) => Some([p] + ps)
  }

  // ---------------------------------------------------------------- separators

  predicate NoBreak(s: string) {
    '\r' !in s && '\n' !in s
  }

  /** A text without the two-character separator, in front of nothing or of that separator. */
  lemma SplitAt(a: string, rest: string, sep: string)
    requires |sep| == 2 && sep[0] != sep[1] && !Contains(a, sep) && (rest == "" || At(rest, 0, sep))
    ensures Find(a + rest, sep) == if rest == "" then None else Some(|a|)
  {
    forall k | 0 <= k < |a|
      ensures !At(a + rest, k, sep)
    {
      PairAt(a + rest, k, sep);
      if k + 1 < |a| {
        NoPair(a, k, sep);
      } else if rest != "" {
        PairAt(rest, 0, sep);
      }
    }
    if rest == "" {
      assert a + rest == a;
    } else {
      PairAt(rest, 0, sep);
      PairAt(a + rest, |a|, sep);
      FindIs(a + rest, sep, |a|);
    }
  }

  lemma JoinWithout(a: string, b: string, sep: string)
    requires |sep| == 2 && !Contains(a, sep) && !Contains(b, sep)
    requires a == "" || b == "" || a[|a| - 1] != sep[0] || b[0] != sep[1]
    ensures !Contains(a + b, sep)
  {
    forall k | 0 <= k <= |a + b|
      ensures !At(a + b, k, sep)
    {
      PairAt(a + b, k, sep);
      if k + 1 < |a| {
        NoPair(a, k, sep);
      } else if k >= |a| && k + 1 < |a + b| {
        NoPair(b, k - |a|, sep);
      }
    }
  }

  lemma TakeErase(a: string, rest: string, n: nat)
    requires n <= |rest|
    ensures Take(a + rest, Some(|a|)) == a && Erase(a + rest, |a| + n) == rest[n..]
  {
  }

  // ---------------------------------------------------------------- parameters

  predicate GoodParam(p: Param) {
    NoBreak(p.key) && NoBreak(p.value) && '=' !in p.key && !Contains(p.key, "; ") && !Contains(p.value, "; ")
  }

  predicate GoodParams(ps: seq<Param>) {
    (forall i :: 0 <= i < |ps| ==> GoodParam(ps[i])) &&
    forall i, j :: 0 <= i < j < |ps| ==> ps[i].key != ps[j].key
  }

  lemma ParamTextSplits(p: Param)
    requires GoodParam(p)
    ensures !Contains(ParamText(p), "; ") && NoBreak(ParamText(p))
  {
    JoinWithout(p.key, "=", "; ");
    JoinWithout(p.key + "=", "\"", "; ");
    JoinWithout(p.key + "=" + "\"", p.value, "; ");
    JoinWithout(p.key + "=" + "\"" + p.value, "\"", "; ");
  }

  lemma ParamRoundTrip(p: Param)
    requires GoodParam(p)
    ensures ParseParam(ParamText(p)) == p
  {
    var t := ParamText(p);
    var quoted := "\"" + p.value + "\"";
    assert t == p.key + ("=" + quoted);
    assert At(t, |p.key|, "=");
    FindFirst(t, "=", |p.key|);
    TakeErase(p.key, "=" + quoted, 1);
    assert ("=" + quoted)[1..] == quoted;
    assert quoted[1..|quoted| - 1] == p.value;
  }

  /** The parameters behind their first separator. */
  function ParamsText(ps: seq<Param>): string {
    if ps == [] then "" else ParamText(ps[0]) + DumpParams(ps[1..])
  }

  lemma DumpParamsText(ps: seq<Param>)
    ensures DumpParams(ps) == if ps == [] then "" else "; " + ParamsText(ps)
  {
  }

  lemma SeparatorFirst(t: string)
    ensures At("; " + t, 0, "; ") && ("; " + t)[2..] == t
  {
  }

  /** The first item of a line and what is left of the line. */
  lemma LineSplits(a: string, ps: seq<Param>)
    requires !Contains(a, "; ")
    ensures var line := a + DumpParams(ps);
            Take(line, Find(line, "; ")) == a && RestOf(line) == ParamsText(ps)
  {
    DumpParamsText(ps);
    var rest := DumpParams(ps);
    if ps == [] {
      SplitAt(a, "", "; ");
      assert a + "" == a;
    } else {
      SeparatorFirst(ParamsText(ps));
      SplitAt(a, rest, "; ");
      TakeErase(a, rest, 2);
    }
  }

  lemma EmplaceNew(ps: seq<Param>, p: Param)
    requires forall i :: 0 <= i < |ps| ==> ps[i].key != p.key
    ensures Emplace(ps, p) == ps + [p]
  {
  }

  lemma ParamTextNotEmpty(p: Param)
    ensures ParamText(p) != ""
  {
  }

  lemma {:induction false} ParamsRoundTrip(ps: seq<Param>, acc: seq<Param>)
    requires GoodParams(ps) && forall i, j :: 0 <= i < |acc| && 0 <= j < |ps| ==> acc[i].key != ps[j].key
    ensures ParseParams(ParamsText(ps), acc) == acc + ps
    decreases |ps|
  {
    hide Find, Contains, ParamText, ParseParam, GoodParam, RestOf, Take, Emplace, DumpParams;
    if ps == [] {
      assert acc + ps == acc;
    } else {
      var p, rest := ps[0], ps[1..];
      EmplaceNew(acc, p);
      ParamTextNotEmpty(p);
      ParamTextSplits(p);
      ParamRoundTrip(p);
      LineSplits(ParamText(p), rest);
      ParamsRoundTrip(rest, acc + [p]);
      assert acc + ps == acc + [p] + rest;
    }
  }

  // ---------------------------------------------------------------- headers

  predicate GoodHeader(h: Header) {
    NoBreak(h.key) && NoBreak(h.value) && !Contains(h.key, "; ") && !Contains(h.value, "; ") &&
    !Contains(h.key, ": ") && GoodParams(h.params)
  }

  lemma {:induction false} DumpParamsNoBreak(ps: seq<Param>)
    requires GoodParams(ps)
    ensures NoBreak(DumpParams(ps))
  {
    if ps != [] {
      DumpParamsNoBreak(ps[1..]);
      ParamTextSplits(ps[0]);
    }
  }

  lemma LineRoundTrip(h: Header)
    requires GoodHeader(h)
    ensures ParseLine(DumpLine(h)) == Some(h) && NoBreak(DumpLine(h)) && DumpLine(h) != ""
  {
    hide Find, Contains, DumpParams, ParseParams;
    DumpParamsNoBreak(h.params);
    assert !Contains(": ", "; ") by {
      SplitNothing();
    }
    JoinWithout(h.key, ": ", "; ");
    JoinWithout(h.key + ": ", h.value, "; ");
    var first := h.key + ": " + h.value;
    LineSplits(first, h.params);
    HeaderSplits(h.key, h.value);
    ParamsRoundTrip(h.params, []);
    assert [] + h.params == h.params;
  }

  lemma SplitNothing()
    ensures !Contains(": ", "; ")
  {
    PairAt(": ", 0, "; ");
    PairAt(": ", 1, "; ");
    PairAt(": ", 2, "; ");
  }

  lemma HeaderSplits(key: string, value: string)
    requires !Contains(key, ": ")
    ensures var first := key + ": " + value;
            Find(first, ": ") == Some(|key|) && Take(first, Some(|key|)) == key && first[|key| + 2..] == value
  {
    var rest := ": " + value;
    assert key + ": " + value == key + rest;
    SplitAt(key, rest, ": ");
    TakeErase(key, rest, 2);
  }

  predicate GoodHeaders(hs: seq<Header>) {
    forall i :: 0 <= i < |hs| ==> GoodHeader(hs[i])
  }

  lemma FirstBreak(line: string, rest: string)
    requires NoBreak(line)
    ensures Find(line + CRLF + rest, CRLF) == Some(|line|)
    ensures Take(line + CRLF + rest, Some(|line|)) == line && Erase(line + CRLF + rest, |line| + 2) == rest
  {
    var s := line + CRLF + rest;
    assert At(s, |line|, CRLF);
    FindFirst(s, CRLF, |line|);
  }

  lemma {:induction false} HeadRoundTrip(hs: seq<Header>)
    requires GoodHeaders(hs)
    ensures ParseHead(DumpHead(hs)) == Some(hs)
  {
    hide ParseLine, DumpLine, Find, GoodHeader;
    if hs != [] {
      HeadRoundTrip(hs[1..]);
      LineRoundTrip(hs[0]);
      FirstBreak(DumpLine(hs[0]), DumpHead(hs[1..]));
      assert hs == [hs[0]] + hs[1..];
    }
  }

  /** The empty line behind the headers is the first one. */
  lemma {:induction false} HeadEnds(hs: seq<Header>, t: string)
    requires GoodHeaders(hs) && hs != []
    ensures |DumpHead(hs)| >= 2 && Find(DumpHead(hs) + CRLF + t, CRLF + CRLF) == Some(|DumpHead(hs)| - 2)
  {
    hide DumpLine, DumpHead, Find, GoodHeader, ParseLine, NoBreak;
    var line, tail := DumpLine(hs[0]), DumpHead(hs[1..]);
    DumpHeadUnfold(hs);
    LineRoundTrip(hs[0]);
    Associate(line, tail, t);
    if |hs| == 1 {
      assert "" + CRLF + t == CRLF + t;
      EmptyLineHere(line, t);
    } else {
      HeadEnds(hs[1..], t);
      LineRoundTrip(hs[1]);
      DumpHeadFirst(hs[1..]);
      assert (tail + CRLF + t)[0] == tail[0];
      EmptyLineLater(line, tail + CRLF + t, |tail| - 2);
    }
  }

  lemma DumpHeadUnfold(hs: seq<Header>)
    requires hs != []
    ensures DumpHead(hs) == DumpLine(hs[0]) + CRLF + DumpHead(hs[1..])
    ensures |hs| == 1 ==> DumpHead(hs[1..]) == ""
  {
  }

  lemma Associate(line: string, tail: string, t: string)
    ensures line + CRLF + tail + CRLF + t == line + CRLF + (tail + CRLF + t)
  {
  }

  lemma DumpHeadFirst(hs: seq<Header>)
    requires hs != [] && NoBreak(DumpLine(hs[0])) && DumpLine(hs[0]) != ""
    ensures DumpHead(hs) != "" && DumpHead(hs)[0] != '\r'
  {
    hide DumpLine;
    assert DumpHead(hs)[0] == DumpLine(hs[0])[0];
  }

  lemma EmptyLineHere(line: string, t: string)
    requires NoBreak(line)
    ensures Find(line + CRLF + (CRLF + t), CRLF + CRLF) == Some(|line|)
  {
    var s := line + CRLF + (CRLF + t);
    assert At(s, |line|, CRLF + CRLF);
    FindFirst(s, CRLF + CRLF, |line|);
  }

  lemma EmptyLineLater(line: string, rest: string, i: nat)
    requires NoBreak(line) && rest != "" && rest[0] != '\r' && Find(rest, CRLF + CRLF) == Some(i)
    ensures Find(line + CRLF + rest, CRLF + CRLF) == Some(|line| + 2 + i)
  {
    var s, four := line + CRLF + rest, CRLF + CRLF;
    forall k | 0 <= k < |line| + 2 + i
      ensures !At(s, k, four)
    {
      if At(s, k, four) {
        assert s[k] == four[0] && s[k + 2] == four[2];
        if k >= |line| + 2 {
          Shift(line + CRLF, rest, k, four);
        }
      }
    }
    Shift(line + CRLF, rest, |line| + 2 + i, four);
    FindIs(s, four, |line| + 2 + i);
  }

  lemma Shift(a: string, b: string, k: nat, t: string)
    requires k >= |a|
    ensures At(a + b, k, t) == At(b, k - |a|, t)
  {
    if At(b, k - |a|, t) {
      forall j | 0 <= j < |t|
        ensures (a + b)[k + j] == t[j]
      {
        assert b[k - |a| + j] == t[j];
      }
    }
    if At(a + b, k, t) {
      forall j | 0 <= j < |t|
        ensures b[k - |a| + j] == t[j]
      {
        assert (a + b)[k + j] == t[j];
      }
    }
  }

  // ---------------------------------------------------------------- parts

  /** What the writer can send: clean header text, and no delimiter inside the rendering of the part. */
  predicate GoodPart(p: Part, delimiter: string) {
    GoodHeaders(p.headers) && !Contains(DumpPart(p), delimiter)
  }

  lemma PartLayout(p: Part)
    ensures DumpPart(p) == DumpHead(p.headers) + CRLF + (p.body + CRLF)
  {
  }

  lemma SectionSplits(head: string, body: string, n: nat)
    requires n + 2 == |head|
    ensures var s := head + CRLF + (body + CRLF);
            Take(s, Some(n + 2)) == head && DropTwo(Erase(s, n + 4)) == body
  {
    var s := head + CRLF + (body + CRLF);
    assert s[n + 4..] == body + CRLF;
  }

  lemma SectionRoundTrip(p: Part)
    requires GoodHeaders(p.headers) && p.headers != []
    ensures ParseSection(DumpPart(p)) == Some(p)
  {
    hide DumpHead, ParseHead, GoodHeaders, DumpPart, Take, Erase, DropTwo, Find;
    PartLayout(p);
    HeadEnds(p.headers, p.body + CRLF);
    HeadRoundTrip(p.headers);
    SectionSplits(DumpHead(p.headers), p.body, |DumpHead(p.headers)| - 2);
  }

  /** The delimiter behind a part is the first one. */
  lemma DelimiterFound(p: string, delimiter: string, rest: string)
    requires !Contains(p, delimiter) && p != "" && p[|p| - 1] == '\n' && '\n' !in delimiter
    ensures Find(p + delimiter + rest, delimiter) == Some(|p|)
  {
    var s := p + delimiter + rest;
    forall k | 0 <= k < |p|
      ensures !At(s, k, delimiter)
    {
      if k + |delimiter| <= |p| {
        SameInside(p, delimiter + rest, k, delimiter);
        assert p + (delimiter + rest) == s;
      } else {
        assert delimiter[|p| - 1 - k] in delimiter;
        assert s[k + (|p| - 1 - k)] == '\n';
      }
    }
    assert At(s, |p|, delimiter);
    FindIs(s, delimiter, |p|);
  }

  lemma SameInside(a: string, b: string, k: nat, t: string)
    requires k + |t| <= |a|
    ensures At(a + b, k, t) == At(a, k, t)
  {
    assert forall j :: k <= j < k + |t| ==> (a + b)[j] == a[j];
    if At(a + b, k, t) {
      forall j | 0 <= j < |t|
        ensures a[k + j] == t[j]
      {
        assert (a + b)[k + j] == t[j];
      }
    }
  }

  /** The message from the delimiter in front of the parts on. */
  function Tail(ps: seq<Part>, d: string): string {
    DumpParts(ps, d) + d + "--" + CRLF
  }

  /** The message behind a delimiter and the two characters after it. */
  function Behind(ps: seq<Part>, d: string): string {
    if ps == [] then CRLF else DumpPart(ps[0]) + Tail(ps[1..], d)
  }

  lemma TailBehind(ps: seq<Part>, d: string) returns (two: string)
    ensures |two| == 2 && Tail(ps, d) == d + two + Behind(ps, d)
  {
    hide DumpPart;
    if ps == [] {
      two := "--";
      assert "" + d == d;
    } else {
      two := CRLF;
      TailAssociates(d, DumpPart(ps[0]), DumpParts(ps[1..], d));
    }
  }

  lemma TailAssociates(d: string, p: string, rest: string)
    ensures d + CRLF + p + rest + d + "--" + CRLF == d + CRLF + (p + (rest + d + "--" + CRLF))
  {
  }

  lemma DumpPartEnds(p: Part)
    ensures |DumpPart(p)| >= 4 && DumpPart(p)[|DumpPart(p)| - 1] == '\n'
  {
  }

  predicate GoodParts(ps: seq<Part>, boundary: string) {
    '\n' !in boundary && forall i :: 0 <= i < |ps| ==> GoodPart(ps[i], Delimiter(boundary))
  }

  lemma {:induction false} PartsRoundTrip(ps: seq<Part>, boundary: string)
    requires GoodParts(ps, boundary) && HaveNames(ps)
    ensures ParseBody(Behind(ps, Delimiter(boundary)), Delimiter(boundary)) == Some(ps)
    decreases ps
  {
    hide DumpPart, Tail, ParseSection, ParseBody, Find, Contains, GoodHeaders, NameOf;
    if ps == [] {
      NothingBehind(Delimiter(boundary));
    } else {
      var d, p, rest := Delimiter(boundary), ps[0], ps[1..];
      PartsRoundTrip(rest, boundary);
      NamedHasHeader(p);
      SectionRoundTrip(p);
      DumpPartEnds(p);
      var two := TailBehind(rest, d);
      var more := two + Behind(rest, d);
      assert d + two + Behind(rest, d) == d + more;
      DelimiterFound(DumpPart(p), d, more);
      BodyStep(DumpPart(p), d, two, Behind(rest, d));
      assert ps == [p] + rest;
    }
  }

  lemma NothingBehind(d: string)
    requires d != ""
    ensures ParseBody(CRLF, d) == Some([])
  {
  }

  /** One round of parse_body. */
  lemma BodyStep(p: string, d: string, two: string, rest: string)
    requires |p| >= 4 && d != "" && |two| == 2 && Find(p + d + (two + rest), d) == Some(|p|)
    ensures ParseBody(p + (d + two + rest), d) ==
            match ParseSection(p)
            case None => None
            case Some(q) =>
              if NameOf(q).None? then None
              else
                match ParseBody(rest, d)
                case None => None
                case Some(qs) => Some([q] + qs)
  {
    hide ParseSection, Find, Erase, NameOf;
    BodyPieces(p, d, two, rest);
  }

  lemma BodyPieces(p: string, d: string, two: string, rest: string)
    requires |p| >= 4 && |two| == 2
    ensures var s := p + (d + two + rest);
            s == p + d + (two + rest) && s[..|p|] == p && Erase(s, |p| + |d| + 2) == rest && s != CRLF
  {
  }

  lemma FirstDelimiter(d: string, two: string, rest: string)
    requires d != "" && d[0] != '\r' && |two| == 2
    ensures ParseBody(d + two + rest, d) == ParseBody(rest, d)
  {
    var s := d + two + rest;
    assert At(s, 0, d);
    FindIs(s, d, 0);
    assert s[0] == d[0];
    assert Erase(s, |d| + 2) == rest;
  }

  lemma ReloadDump(ps: seq<Part>, boundary: string)
    requires GoodParts(ps, boundary) && HaveNames(ps)
    ensures ParseBody(Dump(ps, boundary), Delimiter(boundary)) == Some(ps)
  {
    hide ParseBody;
    var d := Delimiter(boundary);
    var two := TailBehind(ps, d);
    FirstDelimiter(d, two, Behind(ps, d));
    PartsRoundTrip(ps, boundary);
  }

  // ---------------------------------------------------------------- parts without a name

  predicate HaveNames(ps: seq<Part>) {
    forall i :: 0 <= i < |ps| ==> NameOf(ps[i]).Some?
  }

  lemma NamedHasHeader(p: Part)
    requires NameOf(p).Some?
    ensures p.headers != []
  {
  }

  lemma HeadNotEmpty(lines: string)
    requires lines != "" && ParseHead(lines).Some?
    ensures ParseHead(lines).value != []
  {
  }

  /** A section that was read always has a header, if only one without a key. */
  lemma SectionHasHeader(section: string)
    requires section != "" && ParseSection(section).Some?
    ensures ParseSection(section).value.headers != []
  {
    hide ParseHead;
    HeadNotEmpty(Take(section, Some(Plus(Find(section, CRLF + CRLF), 2))));
  }

  lemma HaveNamesCons(p: Part, ps: seq<Part>)
    requires NameOf(p).Some? && HaveNames(ps)
    ensures HaveNames([p] + ps)
  {
  }

  lemma EraseShorter(s: string, n: nat)
    requires s != "" && n > 0
    ensures |Erase(s, n)| < |s|
  {
  }

  /** Every part of a message that was read has a name. */
  lemma {:induction false} BodyHasNames(body: string, d: string)
    requires d != "" && ParseBody(body, d).Some?
    ensures HaveNames(ParseBody(body, d).value)
    decreases |body|
  {
    hide ParseSection, Find, Erase, HaveNames, NameOf;
    if body == CRLF {
      NoParts();
    } else {
      var i := Find(body, d).value;
      var rest := Erase(body, i + |d| + 2);
      EraseShorter(body, i + |d| + 2);
      BodyHasNames(rest, d);
      if i > 0 {
        HaveNamesCons(ParseSection(body[..i]).value, ParseBody(rest, d).value);
      }
    }
  }

  lemma NoParts()
    ensures HaveNames([])
  {
  }

  /** The reader undoes the writer exactly when every part has a Content-Disposition header with a name. */
  lemma ReloadsExactly(ps: seq<Part>, boundary: string)
    requires GoodParts(ps, boundary)
    ensures ParseBody(Dump(ps, boundary), Delimiter(boundary)) == Some(ps) <==> HaveNames(ps)
  {
    hide ParseBody, Dump, GoodParts;
    if HaveNames(ps) {
      ReloadDump(ps, boundary);
    } else if ParseBody(Dump(ps, boundary), Delimiter(boundary)).Some? {
      BodyHasNames(Dump(ps, boundary), Delimiter(boundary));
    }
  }

  /** A part with a header and no name: what was written is not read back. */
  lemma UnnamedPartLost(body: string, boundary: string)
    requires '\n' !in boundary
    requires !Contains(DumpPart(Part([Header("X", "y", [])], body)), Delimiter(boundary))
    ensures var ps := [Part([Header("X", "y", [])], body)];
            GoodParts(ps, boundary) && ParseBody(Dump(ps, boundary), Delimiter(boundary)) != Some(ps)
  {
    var p := Part([Header("X", "y", [])], body);
    assert HeaderOf([Header("X", "y", [])][1..], "Content-Disposition") == None;
    assert NameOf([p][0]) == None;
    assert GoodHeader(p.headers[0]);
    ReloadsExactly([p], boundary);
  }

  // ---------------------------------------------------------------- the message object

  function Prepend<T>(xs: seq<T>, r: Option<seq<T>>): Option<seq<T>> {
    match r
    case None => None
    case Some(ys) => Some(xs + ys)
  }

  lemma PrependNone<T>(r: Option<seq<T>>)
    ensures Prepend([], r) == r
  {
    if r.Some? {
      assert [] + r.value == r.value;
    }
  }

  lemma PrependOne<T>(xs: seq<T>, x: T, r: Option<seq<T>>)
    ensures Prepend(xs, Prepend([x], r)) == Prepend(xs + [x], r)
  {
    if r.Some? {
      assert xs + ([x] + r.value) == xs + [x] + r.value;
    }
  }

  lemma HeadUnfolds(lines: string)
    requires lines != ""
    ensures var found := Find(lines, CRLF);
            var h := ParseLine(Take(lines, found));
            ParseHead(lines) == if h.None? then None else Prepend([h.value], ParseHead(Erase(lines, Plus(found, 2))))
  {
    hide ParseLine, Find;
  }

  lemma BodyUnfolds(body: string, d: string)
    requires d != "" && body != CRLF && Find(body, d).Some?
    ensures var i := Find(body, d).value;
            var rest := ParseBody(Erase(body, i + |d| + 2), d);
            ParseBody(body, d) ==
            if i == 0 then rest
            else if ParseSection(body[..i]).None? || NameOf(ParseSection(body[..i]).value).None? then None
            else Prepend([ParseSection(body[..i]).value], rest)
  {
    hide ParseSection, Find, NameOf;
  }

  /** An entry of the part map. */
  datatype Entry = Entry(name: string, part: Part)

  function Entries(ps: seq<Part>): (es: seq<Entry>)
    requires HaveNames(ps)
    ensures |es| == |ps|
  {
    seq(|ps|, i requires 0 <= i < |ps| => Entry(NameOf(ps[i]).value, ps[i]))
  }

  lemma EntriesNext(ps: seq<Part>, p: Part)
    requires HaveNames(ps) && NameOf(p).Some?
    ensures HaveNames(ps + [p]) && Entries(ps + [p]) == Entries(ps) + [Entry(NameOf(p).value, p)]
  {
    hide NameOf;
  }

  class MultipartMessage {
    const boundary: string
    var parts: seq<Part>
    var partMap: seq<Entry>

    constructor (boundary: string)
      ensures this.boundary == boundary && parts == [] && partMap == []
    {
      this.boundary := boundary;
      this.parts, this.partMap := [], [];
    }

    /** The constructor from parts: every part is entered into the part map under its name, which is
        undefined when there is none. */
    method SetParts(ps: seq<Part>) returns (ok: bool)
      modifies this
      ensures ok == HaveNames(ps) && parts == ps && (ok ==> partMap == Entries(ps))
    {
      hide NameOf, Entries;
      parts, partMap := ps, [];
      var i := 0;
      NoEntries();
      assert ps[..0] == [];
      while i < |ps|
        invariant i <= |ps| && parts == ps && HaveNames(ps[..i]) && partMap == Entries(ps[..i])
      {
        var name := NameOf(ps[i]);
        if name.None? {
          return false;
        }
        EntriesNext(ps[..i], ps[i]);
        assert ps[..i + 1] == ps[..i] + [ps[i]];
        partMap := partMap + [Entry(name.value, ps[i])];
        i := i + 1;
      }
      assert ps[..i] == ps;
      return true;
    }

    /** get_part_by_name: an entry whose name is the same but for case, if there is one. */
    method PartByName(name: string) returns (r: Option<Part>)
      requires HaveNames(parts) && partMap == Entries(parts)
      ensures r.Some? ==>
                exists i :: 0 <= i < |parts| && parts[i] == r.value && SameKey(NameOf(parts[i]).value, name)
      ensures r.None? ==> forall i :: 0 <= i < |parts| ==> !SameKey(NameOf(parts[i]).value, name)
    {
      var i := 0;
      while i < |partMap|
        invariant i <= |partMap| && forall k :: 0 <= k < i ==> !SameKey(NameOf(parts[k]).value, name)
      {
        if SameKey(partMap[i].name, name) {
          return Some(partMap[i].part);
        }
        i := i + 1;
      }
      return None;
    }

    /** The parameters of a header line, which is eaten up. */
    method ReadParams(rest: string) returns (ps: seq<Param>)
      ensures ps == ParseParams(rest, [])
    {
      hide Find, ParseParam, Emplace;
      var line := rest;
      ps := [];
      while line != ""
        invariant ParseParams(line, ps) == ParseParams(rest, [])
        decreases |line|
      {
        var found := Find(line, "; ");
        var param := Take(line, found);
        RestShorter(line);
        line := if found.Some? then Erase(line, found.value + 2) else "";
        ps := Emplace(ps, ParseParam(param));
      }
    }

    method ReadLine(line: string) returns (h: Option<Header>)
      ensures h == ParseLine(line)
    {
      hide Find, ParseParams;
      if line == "" {
        return Some(Header("", "", []));
      }
      var found := Find(line, "; ");
      var header := Take(line, found);
      var rest := if found.Some? then Erase(line, found.value + 2) else "";
      var split := Find(header, ": ");
      if Plus(split, 2) > |header| {
        return None;
      }
      var ps := ReadParams(rest);
      return Some(Header(Take(header, split), header[Plus(split, 2)..], ps));
    }

    /** parse_section_head: the lines are eaten up one by one. */
    method ReadHead(head: string) returns (r: Option<seq<Header>>)
      ensures r == ParseHead(head)
    {
      hide Find, ParseLine, ParseHead;
      var lines := head;
      var hs: seq<Header> := [];
      PrependNone(ParseHead(head));
      while lines != ""
        invariant Prepend(hs, ParseHead(lines)) == ParseHead(head)
        decreases |lines|
      {
        HeadUnfolds(lines);
        var found := Find(lines, CRLF);
        var line := Take(lines, found);
        EraseShorter(lines, Plus(found, 2));
        lines := Erase(lines, Plus(found, 2));
        var h := ReadLine(line);
        if h.None? {
          return None;
        }
        PrependOne(hs, h.value, ParseHead(lines));
        hs := hs + [h.value];
      }
      HeadOfNothing(hs);
      return Some(hs);
    }

    method ReadSection(section: string) returns (p: Option<Part>)
      ensures p == ParseSection(section)
    {
      hide Find, ParseHead;
      var found := Find(section, CRLF + CRLF);
      var hs := ReadHead(Take(section, Some(Plus(found, 2))));
      if hs.None? {
        return None;
      }
      return Some(Part(hs.value, DropTwo(Erase(section, Plus(found, 4)))));
    }

    /** parse_body: the body is eaten up section by section. */
    method ReadBody(text: string) returns (ok: bool)
      requires parts == [] && partMap == []
      modifies this
      ensures ParseBody(text, Delimiter(boundary)) == if ok then Some(parts) else None
      ensures HaveNames(parts) && partMap == Entries(parts)
    {
      hide Find, ParseSection, ParseBody, NameOf, Entries;
      NoEntries();
      var delimiter := Delimiter(boundary);
      var body := text;
      PrependNone(ParseBody(text, delimiter));
      while body != CRLF
        invariant Prepend(parts, ParseBody(body, delimiter)) == ParseBody(text, delimiter)
        invariant HaveNames(parts) && partMap == Entries(parts)
        decreases |body|
      {
        var found := Find(body, delimiter);
        if found.None? {
          NoDelimiter(body, delimiter);
          return false;
        }
        BodyUnfolds(body, delimiter);
        var section := body[..found.value];
        EraseShorter(body, found.value + |delimiter| + 2);
        body := Erase(body, found.value + |delimiter| + 2);
        if section != "" {
          var p := ReadSection(section);
          if p.None? {
            return false;
          }
          var name := NameOf(p.value);
          if name.None? {
            return false;
          }
          PrependOne(parts, p.value, ParseBody(body, delimiter));
          EntriesNext(parts, p.value);
          partMap := partMap + [Entry(name.value, p.value)];
          parts := parts + [p.value];
        }
      }
      NothingBehind(delimiter);
      assert parts + [] == parts;
      return true;
    }

    /** dump of one part */
    method WritePart(p: Part) returns (out: string)
      ensures out == DumpPart(p)
    {
      hide DumpLine;
      out := "";
      var i := 0;
      while i < |p.headers|
        invariant i <= |p.headers| && out + DumpHead(p.headers[i..]) == DumpHead(p.headers)
      {
        var line := WriteLine(p.headers[i]);
        OneMore(out, line + CRLF, DumpHead(p.headers[i + 1..]));
        out := out + (line + CRLF);
        i := i + 1;
      }
      out := out + CRLF;
      out := out + p.body + CRLF;
    }

    method WriteLine(h: Header) returns (out: string)
      ensures out == DumpLine(h)
    {
      hide ParamText;
      out := h.key + ": " + h.value;
      var i := 0;
      while i < |h.params|
        invariant i <= |h.params| && out + DumpParams(h.params[i..]) == DumpLine(h)
      {
        var text := "; " + ParamText(h.params[i]);
        assert h.params[i..][1..] == h.params[i + 1..];
        OneMore(out, text, DumpParams(h.params[i + 1..]));
        OneMore("; ", ParamText(h.params[i]), DumpParams(h.params[i + 1..]));
        out := out + text;
        i := i + 1;
      }
    }

    /** dump of the message */
    method Write() returns (out: string)
      ensures out == Dump(parts, boundary)
    {
      hide DumpPart;
      var delimiter := Delimiter(boundary);
      out := "";
      var i := 0;
      while i < |parts|
        invariant i <= |parts| && out + DumpParts(parts[i..], delimiter) == DumpParts(parts, delimiter)
      {
        var part := WritePart(parts[i]);
        OneMore(out, delimiter + CRLF + part, DumpParts(parts[i + 1..], delimiter));
        out := out + (delimiter + CRLF + part);
        i := i + 1;
      }
      out := out + delimiter + "--" + CRLF;
    }
  }

  lemma NoEntries()
    ensures HaveNames([]) && Entries([]) == []
  {
  }

  lemma HeadOfNothing(hs: seq<Header>)
    ensures Prepend(hs, ParseHead("")) == Some(hs)
  {
    assert hs + [] == hs;
  }

  lemma NoDelimiter(body: string, d: string)
    requires d != "" && body != CRLF && Find(body, d).None?
    ensures ParseBody(body, d) == None
  {
    hide Find;
  }

  lemma OneMore(a: string, b: string, c: string)
    ensures a + (b + c) == a + b + c
  {
  }

  /** A message that is written and read again. */
  method WriteAndRead(ps: seq<Part>, boundary: string) returns (ok: bool, read: seq<Part>)
    requires GoodParts(ps, boundary)
    ensures (ok && read == ps) <==> HaveNames(ps)
  {
    hide ParseBody, Dump, GoodParts, HaveNames;
    var sent := new MultipartMessage(boundary);
    sent.parts := ps;
    var text := sent.Write();
    var received := new MultipartMessage(boundary);
    ok := received.ReadBody(text);
    read := received.parts;
    ReloadsExactly(ps, boundary);
  }

  // ---------------------------------------------------------------- the text of a form

  /** A form field, as section 5.1 of RFC 2046 and section 4.2 of RFC 7578 lay it out. */
  function FormField(name: string, body: string): Part {
    Part([Header("Content-Disposition", "form-data", [Param("name", name)])], body)
  }

  function Line(text: string, rest: string): string {
    text + ("\r\n" + rest)
  }

  function Lines(texts: seq<string>): string {
    if texts == [] then "" else Line(texts[0], Lines(texts[1..]))
  }

  function FieldLine(name: string): string {
    "Content-Disposition: form-data; name=\"" + name + "\""
  }

  /** The text of a form with two fields, line by line. */
  lemma FormText(boundary: string, a: string, x: string, b: string, y: string)
    ensures Dump([FormField(a, x), FormField(b, y)], boundary) ==
            Lines(["--" + boundary, FieldLine(a), "", x, "--" + boundary, FieldLine(b), "", y, "--" + boundary + "--"])
  {
    hide DumpPart, FieldLine, Line;
    var p, q := FormField(a, x), FormField(b, y);
    var d := Delimiter(boundary);
    var last := Line(d + "--", "");
    assert [p, q][1..] == [q] && [q][1..] == [];
    assert DumpParts([q], d) == d + CRLF + DumpPart(q);
    assert DumpParts([p, q], d) == d + CRLF + DumpPart(p) + DumpParts([q], d);
    LastLine(d);
    Concat(d + CRLF + DumpPart(p), DumpParts([q], d), last);
    Concat(d + CRLF + DumpPart(p) + DumpParts([q], d), d + "--", CRLF);
    Concat(d + CRLF + DumpPart(p) + DumpParts([q], d), d, "--");
    FieldText(d, b, y, last);
    FieldText(d, a, x, d + CRLF + DumpPart(q) + last);
    FieldLines(d, b, y, ["--" + boundary + "--"]);
    var more := [d, FieldLine(b), "", y, "--" + boundary + "--"];
    FieldLines(d, a, x, more);
    assert Lines(["--" + boundary + "--"]) == last by {
      assert ["--" + boundary + "--"][1..] == [];
    }
    assert [d, FieldLine(a), "", x] + more ==
           ["--" + boundary, FieldLine(a), "", x, "--" + boundary, FieldLine(b), "", y, "--" + boundary + "--"];
    assert [d, FieldLine(b), "", y] + ["--" + boundary + "--"] == more;
  }

  lemma Concat(a: string, b: string, c: string)
    ensures (a + b) + c == a + (b + c)
  {
  }

  lemma LastLine(d: string)
    ensures Line(d + "--", "") == d + "--" + CRLF
  {
    assert "\r\n" + "" == CRLF;
  }

  /** A field and what follows it. */
  lemma FieldText(d: string, name: string, body: string, rest: string)
    ensures d + CRLF + DumpPart(FormField(name, body)) + rest ==
            Line(d, Line(FieldLine(name), Line("", Line(body, rest))))
  {
    hide DumpHead, FieldLine;
    FieldHead(name);
    var h := FieldLine(name);
    var tail := CRLF + rest;
    assert "" + (CRLF + (body + tail)) == CRLF + (body + tail);
    Concat(d + CRLF, h + CRLF + CRLF + body + CRLF, rest);
    Concat(h + CRLF + CRLF + body, CRLF, rest);
    Concat(h + CRLF + CRLF, body, tail);
    Concat(h + CRLF, CRLF, body + tail);
    Concat(h, CRLF, CRLF + (body + tail));
    Concat(d, CRLF, h + (CRLF + (CRLF + (body + tail))));
  }

  lemma FieldHead(name: string)
    ensures DumpHead(FormField(name, "").headers) == FieldLine(name) + CRLF
  {
    var ps := [Param("name", name)];
    var h := Header("Content-Disposition", "form-data", ps);
    assert ps[1..] == [] && [h][1..] == [];
    FieldParams(ps, name);
    assert DumpLine(h) == "Content-Disposition: form-data" + ("; name=\"" + name + "\"");
    assert DumpLine(h) == FieldLine(name);
    assert DumpHead([h]) == DumpLine(h) + CRLF + DumpHead([]);
  }

  lemma FieldParams(ps: seq<Param>, name: string)
    requires ps == [Param("name", name)]
    ensures DumpParams(ps) == "; name=\"" + name + "\""
  {
    assert ParamText(ps[0]) == "name=\"" + name + "\"";
    assert DumpParams(ps) == "; " + (ParamText(ps[0]) + DumpParams([]));
  }

  lemma FieldLines(d: string, name: string, body: string, more: seq<string>)
    ensures Lines([d, FieldLine(name), "", body] + more) ==
            Line(d, Line(FieldLine(name), Line("", Line(body, Lines(more)))))
  {
    hide Line, FieldLine;
    LinesCons(body, more);
    LinesCons("", [body] + more);
    LinesCons(FieldLine(name), [""] + ([body] + more));
    LinesCons(d, [FieldLine(name)] + ([""] + ([body] + more)));
    assert [d, FieldLine(name), "", body] + more == [d] + ([FieldLine(name)] + ([""] + ([body] + more)));
  }

  lemma LinesCons(text: string, more: seq<string>)
    ensures Lines([text] + more) == Line(text, Lines(more))
  {
    assert ([text] + more)[1..] == more;
  }
}

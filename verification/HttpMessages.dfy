/** Lengths and whole messages of the HTTP parser modelled in HttpBody: what Content-Length values and
    chunk sizes it accepts, what chunked messages and messages of known length are decoded to, and what
    surplus and wrong bytes do. */
module HttpMessages {
  import opened Sequences
  import opened Texts
  import opened HttpBody

  // ---------------------------------------------------------------- lengths

  predicate Digits(base: nat, ds: seq<nat>) {
    forall i :: 0 <= i < |ds| ==> ds[i] < base
  }

  /** The number that digits stand for. */
  function NumberOf(base: nat, ds: seq<nat>): nat {
    if ds == [] then 0 else NumberOf(base, ds[..|ds| - 1]) * base + ds[|ds| - 1]
  }

  /** The counter after the digits of a length: the first is taken over, the others are added. */
  function Accumulated(base: nat, ds: seq<nat>): Option<nat>
    requires 0 < base
  {
    if ds == [] then None
    else if |ds| == 1 then Some(ds[0])
    else
      match Accumulated(base, ds[..|ds| - 1])
      case None => None
      case Some(n) => AddDigit(base, n, ds[|ds| - 1])
  }

  lemma NumberOfGrows(base: nat, ds: seq<nat>)
    requires ds != [] && (base == 10 || base == 16)
    ensures NumberOf(base, ds[..|ds| - 1]) <= NumberOf(base, ds)
  {
    var n := NumberOf(base, ds[..|ds| - 1]);
    assert n <= if base == 10 then n * 10 else n * 16;
  }

  /** A length is read exactly or refused: it never wraps around and never becomes the all-ones value.
      It is refused exactly when the digits before the last exceed the limit. */
  lemma {:induction false} AccumulatedExact(base: nat, ds: seq<nat>)
    requires (base == 10 || base == 16) && Digits(base, ds) && ds != []
    ensures Accumulated(base, ds) ==
            if NumberOf(base, ds[..|ds| - 1]) <= (MAX - base) / base then Some(NumberOf(base, ds)) else None
    ensures Accumulated(base, ds).Some? ==> Accumulated(base, ds).value < MAX
  {
    var front := ds[..|ds| - 1];
    if |ds| == 1 {
      assert front == [] && NumberOf(base, ds) == ds[0];
    } else {
      AccumulatedExact(base, front);
      NumberOfGrows(base, front);
      AddDigitExact(base, NumberOf(base, front), ds[|ds| - 1]);
      if Accumulated(base, front).None? {
        assert NumberOf(base, front[..|front| - 1]) > (MAX - base) / base;
      }
    }
  }

  predicate IsNum(ch: char) {
    '0' <= ch <= '9'
  }

  function DigitOf(ch: char): (d: nat)
    requires IsNum(ch)
    ensures d < 10
  {
    ch as int - '0' as int
  }

  function DecimalDigits(s: string): (ds: seq<nat>)
    requires forall i :: 0 <= i < |s| ==> IsNum(s[i])
    ensures |ds| == |s| && Digits(10, ds)
  {
    seq(|s|, i requires 0 <= i < |s| => DigitOf(s[i]))
  }

  /** The value of a Content-Length header: digits, then spaces. */
  predicate LengthText(s: string, k: int) {
    0 < k <= |s| && (forall i :: 0 <= i < k ==> IsNum(s[i])) && forall i :: k <= i < |s| ==> s[i] == ' '
  }

  /** The states h_content_length, h_content_length_num and h_content_length_ws of the header value. */
  datatype LengthState = First | Num | Ws

  /** The value of a Content-Length header, character by character: it is accepted exactly when it is a
      decimal number within the limit, and read as that number. */
  method ReadContentLength(s: string) returns (r: Option<nat>)
    ensures r.Some? ==>
              exists k :: LengthText(s, k) && r.value == NumberOf(10, DecimalDigits(s[..k])) < MAX &&
                NumberOf(10, DecimalDigits(s[..k - 1])) <= (MAX - 10) / 10
    ensures forall k :: LengthText(s, k) && NumberOf(10, DecimalDigits(s[..k - 1])) <= (MAX - 10) / 10 ==> r.Some?
  {
    hide Accumulated, NumberOf, DecimalDigits;
    var contentLength := MAX;
    var st := First;
    var i := 0;
    ghost var k := 0;
    while i < |s|
      invariant i <= |s| && k <= i && (st == First <==> i == 0) && (st == First <==> k == 0)
      invariant (st == Num ==> k == i) && (st == Ws ==> k < i)
      invariant forall j :: 0 <= j < k ==> IsNum(s[j])
      invariant forall j :: k <= j < i ==> s[j] == ' '
      invariant st != First ==> Accumulated(10, DecimalDigits(s[..k])) == Some(contentLength)
    {
      var ch := s[i];
      match st {
        case First =>
          if !IsNum(ch) {
            return None;
          }
          LengthStarts(s);
          contentLength := ch as int - '0' as int;
          st := Num;
          k := 1;
        case Num =>
          if ch == ' ' {
            st := Ws;
          } else if !IsNum(ch) {
            return None;
          } else {
            LengthStep(s, k);
            var t := (contentLength * 10 + (ch as int - '0' as int)) % (MAX + 1);
            if (MAX - 10) / 10 < contentLength {
              LengthRefused(s, k + 1);
              return None;
            }
            contentLength := t;
            k := k + 1;
          }
        case Ws =>
          if ch != ' ' {
            assert s[k] == ' ';
            return None;
          }
      }
      i := i + 1;
    }
    if st == First {
      return None;
    }
    LengthTaken(s, k, contentLength);
    return Some(contentLength);
  }

  lemma LengthTaken(s: string, k: nat, n: nat)
    requires LengthText(s, k) && Accumulated(10, DecimalDigits(s[..k])) == Some(n)
    ensures n == NumberOf(10, DecimalDigits(s[..k])) < MAX
    ensures NumberOf(10, DecimalDigits(s[..k - 1])) <= (MAX - 10) / 10
  {
    hide Accumulated, NumberOf;
    AccumulatedExact(10, DecimalDigits(s[..k]));
    assert DecimalDigits(s[..k])[..k - 1] == DecimalDigits(s[..k - 1]);
  }

  lemma LengthStarts(s: string)
    requires s != "" && IsNum(s[0])
    ensures Accumulated(10, DecimalDigits(s[..1])) == Some(DigitOf(s[0]))
  {
  }

  lemma LengthStep(s: string, k: nat)
    requires 0 < k < |s| && forall j :: 0 <= j <= k ==> IsNum(s[j])
    ensures Accumulated(10, DecimalDigits(s[..k + 1])) ==
            match Accumulated(10, DecimalDigits(s[..k]))
            case None => None
            case Some(n) => AddDigit(10, n, DigitOf(s[k]))
  {
    var ds := DecimalDigits(s[..k + 1]);
    assert ds[..k] == DecimalDigits(s[..k]);
  }

  /** Once a prefix of the digits is refused, so is the whole. */
  lemma {:induction false} LengthRefused(s: string, k: nat)
    requires 0 < k <= |s| && forall j :: 0 <= j < k ==> IsNum(s[j])
    requires Accumulated(10, DecimalDigits(s[..k])).None?
    ensures forall n :: LengthText(s, n) ==> n >= k && NumberOf(10, DecimalDigits(s[..n - 1])) > (MAX - 10) / 10
  {
    forall n | LengthText(s, n)
      ensures n >= k && NumberOf(10, DecimalDigits(s[..n - 1])) > (MAX - 10) / 10
    {
      assert IsNum(s[k - 1]);
      RefusedLater(s, k, n);
      var ds := DecimalDigits(s[..n]);
      assert ds[..n - 1] == DecimalDigits(s[..n - 1]);
      AccumulatedExact(10, ds);
    }
  }

  lemma {:induction false} RefusedLater(s: string, k: nat, n: nat)
    requires 0 < k <= n <= |s| && forall j :: 0 <= j < n ==> IsNum(s[j])
    requires Accumulated(10, DecimalDigits(s[..k])).None?
    ensures Accumulated(10, DecimalDigits(s[..n])).None?
    decreases n
  {
    if k < n {
      RefusedLater(s, k, n - 1);
      LengthStep(s, n - 1);
    }
  }

  // ---------------------------------------------------------------- messages

  /** A chunk: size, extension and data. The size is one that the parser takes, see SizeText. */
  datatype Chunk = Chunk(size: string, extension: string, data: string)

  function HexDigits(s: string): (ds: seq<nat>)
    requires forall i :: 0 <= i < |s| ==> Unhex(s[i]) >= 0
    ensures |ds| == |s|
  {
    seq(|s|, i requires 0 <= i < |s| => Unhex(s[i]))
  }

  /** A size that the parser takes: the table has a value for every byte, and the number stays within the
      limit of the counter. */
  predicate SizeText(size: string, n: nat) {
    (forall i :: 0 <= i < |size| ==> Unhex(size[i]) >= 0) && size != "" &&
    Accumulated(16, HexDigits(size)) == Some(n)
  }

  predicate ExtensionText(e: string) {
    e == "" || ((e[0] == ';' || e[0] == ' ') && '\r' !in e)
  }

  /** The line fits the limit on header bytes, which counts it from 0. */
  predicate GoodLine(size: string, extension: string, n: nat) {
    SizeText(size, n) && ExtensionText(extension) && |size| + |extension| + 2 <= MAX_HEADER_SIZE
  }

  predicate GoodChunk(c: Chunk) {
    c.data != "" && GoodLine(c.size, c.extension, |c.data|)
  }

  function EncodeChunk(c: Chunk): string {
    c.size + c.extension + "\r\n" + c.data + "\r\n"
  }

  function EncodeChunks(cs: seq<Chunk>): string {
    if cs == [] then "" else EncodeChunks(cs[..|cs| - 1]) + EncodeChunk(cs[|cs| - 1])
  }

  function BodyOf(cs: seq<Chunk>): string {
    if cs == [] then "" else BodyOf(cs[..|cs| - 1]) + cs[|cs| - 1].data
  }

  predicate AtChunkStart(m: Machine) {
    m.state == ChunkSizeStart && m.error.None? && m.nread == 0
  }

  lemma FirstSizeStep(f: Framing, m: Machine, ch: char)
    requires AtChunkStart(m) && Unhex(ch) >= 0
    ensures Step(f, m, ch) == m.(state := ChunkSize, contentLength := Unhex(ch), nread := 1)
  {
  }

  lemma NextSizeStep(f: Framing, m: Machine, ch: char)
    requires m.state == ChunkSize && m.error.None? && m.nread < MAX_HEADER_SIZE && Unhex(ch) >= 0
    requires AddDigit(16, m.contentLength, Unhex(ch)).Some?
    ensures Step(f, m, ch) ==
            m.(contentLength := AddDigit(16, m.contentLength, Unhex(ch)).value, nread := m.nread + 1)
  {
    hide AddDigit;
  }

  lemma {:induction false} RunSize(f: Framing, m: Machine, size: string, n: nat)
    requires AtChunkStart(m) && SizeText(size, n) && |size| <= MAX_HEADER_SIZE
    ensures Run(f, m, size) == m.(state := ChunkSize, contentLength := n, nread := |size|)
  {
    hide Step, AddDigit, Unhex;
    var front, last := size[..|size| - 1], size[|size| - 1];
    if |size| == 1 {
      assert front == "";
      RunNothing(f, m);
      FirstSizeStep(f, m, last);
    } else {
      assert HexDigits(size)[..|size| - 1] == HexDigits(front);
      RunSize(f, m, front, Accumulated(16, HexDigits(front)).value);
      NextSizeStep(f, Run(f, m, front), last);
    }
  }

  predicate Sized(size: string) {
    (forall i :: 0 <= i < |size| ==> Unhex(size[i]) >= 0) && size != "" && Accumulated(16, HexDigits(size)).Some?
  }

  lemma SizedFront(size: string)
    requires |size| > 1
    ensures var front, last := size[..|size| - 1], size[|size| - 1];
            Sized(size) <==> Sized(front) && Unhex(last) >= 0 &&
                             AddDigit(16, Accumulated(16, HexDigits(front)).value, Unhex(last)).Some?
  {
    hide AddDigit, Unhex;
    var front := size[..|size| - 1];
    if forall i :: 0 <= i < |size| ==> Unhex(size[i]) >= 0 {
      assert HexDigits(size)[..|size| - 1] == HexDigits(front);
    } else {
      assert Unhex(size[|size| - 1]) >= 0 ==> exists i :: 0 <= i < |front| && Unhex(front[i]) < 0;
    }
  }

  lemma SizeByte(f: Framing, m: Machine, ch: char)
    requires m.error.None? && m.state == ChunkSize && ch != '\r'
    ensures var r := Step(f, m, ch);
            (r.error.None? ==> r.state == ChunkSize || r.state == ChunkParameters) &&
            (r.error.None? && r.state == ChunkSize <==>
             m.nread < MAX_HEADER_SIZE && Unhex(ch) >= 0 && AddDigit(16, m.contentLength, Unhex(ch)).Some?)
  {
    hide AddDigit, Unhex;
  }

  lemma ParameterByte(f: Framing, m: Machine, ch: char)
    requires m.error.None? && m.state == ChunkParameters && ch != '\r'
    ensures Step(f, m, ch).state == ChunkParameters
  {
  }

  lemma FirstByte(f: Framing, m: Machine, ch: char)
    requires AtChunkStart(m)
    ensures Step(f, m, ch).error.None? <==> Unhex(ch) >= 0
    ensures Step(f, m, ch).error.None? ==> Step(f, m, ch).state == ChunkSize
  {
    hide Unhex;
  }

  /** Up to the end of the line the machine takes a text as a chunk size exactly when it is one, and fits
      the limit on header bytes. */
  lemma {:induction false} SizeTakenExactly(f: Framing, m: Machine, s: string)
    requires AtChunkStart(m) && s != "" && '\r' !in s
    ensures var r := Run(f, m, s);
            (r.error.None? ==> r.state == ChunkSize || r.state == ChunkParameters) &&
            (r.error.None? && r.state == ChunkSize <==> |s| <= MAX_HEADER_SIZE && Sized(s))
  {
    hide Step, Sized, AddDigit;
    var front, last := s[..|s| - 1], s[|s| - 1];
    if |s| == 1 {
      assert front == "";
      RunNothing(f, m);
      FirstByte(f, m, last);
      SizedOne(s);
    } else {
      SizeTakenExactly(f, m, front);
      SizedFront(s);
      var r := Run(f, m, front);
      if r.error.None? {
        if r.state == ChunkSize {
          SizedText(front);
          RunSize(f, m, front, Accumulated(16, HexDigits(front)).value);
          SizeByte(f, r, last);
        } else {
          ParameterByte(f, r, last);
        }
      } else {
        RunError(f, r, [last]);
        RunOne(f, r, last);
      }
    }
  }

  lemma SizedOne(s: string)
    requires |s| == 1
    ensures Sized(s) <==> Unhex(s[0]) >= 0
  {
    hide Unhex;
  }

  lemma SizedText(s: string)
    requires Sized(s)
    ensures SizeText(s, Accumulated(16, HexDigits(s)).value)
  {
  }

  /** The chunk-size of section 4.1 of RFC 7230. */
  predicate HexText(s: string) {
    s != "" && forall i :: 0 <= i < |s| ==> '0' <= s[i] <= '9' || 'a' <= s[i] <= 'f' || 'A' <= s[i] <= 'F'
  }

  /** A size that the parser takes is hexadecimal exactly when all its bytes are below 128. */
  lemma SizeIsHexExactly(s: string)
    requires Sized(s)
    ensures HexText(s) <==> forall i :: 0 <= i < |s| ==> s[i] < 128 as char
  {
    if forall i :: 0 <= i < |s| ==> s[i] < 128 as char {
      forall i | 0 <= i < |s|
        ensures '0' <= s[i] <= '9' || 'a' <= s[i] <= 'f' || 'A' <= s[i] <= 'F'
      {
        assert Unhex(s[i]) >= 0;
      }
    }
  }

  /** Below byte 128 the table has the hexadecimal digits of both cases with their values, and nothing else. */
  lemma UnhexExactly(ch: char, v: nat)
    requires ch < 128 as char
    ensures Unhex(ch) == v <==> HexDigitOf(ch, v)
  {
  }

  /** A size written with these digits is taken exactly when it is within the limit of the counter, and then
      it is the number that the digits stand for to the base 16. */
  lemma HexSizeExactly(size: string, ds: seq<nat>, n: nat)
    requires size != "" && |ds| == |size| && forall i :: 0 <= i < |size| ==> HexDigitOf(size[i], ds[i])
    ensures SizeText(size, n) <==>
            n == NumberOf(16, ds) && NumberOf(16, ds[..|ds| - 1]) <= (MAX - 16) / 16
  {
    hide Unhex, HexDigitOf, Accumulated, NumberOf;
    forall i | 0 <= i < |size|
      ensures Unhex(size[i]) == ds[i]
    {
      HexBelow128(size[i], ds[i]);
      UnhexExactly(size[i], ds[i]);
    }
    assert HexDigits(size) == ds;
    AccumulatedExact(16, ds);
  }

  lemma HexBelow128(ch: char, v: nat)
    requires HexDigitOf(ch, v)
    ensures ch < 128 as char
  {
  }

  /** The decimal digits of a length have their values. */
  lemma DecimalExactly(ch: char, v: nat)
    ensures IsNum(ch) && DigitOf(ch) == v <==> v < 10 && ch == "0123456789"[v]
  {
  }

  /** A single byte from 128 on is taken as the size 0: the parser believes that the chunks have ended. */
  lemma HighByteEndsChunks(f: Framing, m: Machine, ch: char)
    requires AtChunkStart(m) && ch as int >= 128
    ensures Run(f, m, [ch] + "\r\n") == m.(state := HeaderFieldStart, contentLength := 0, trailing := true)
    ensures !HexText([ch])
  {
    assert Unhex(ch) == 0;
    assert HexDigits([ch]) == [0];
    assert [ch] + "" == [ch];
    RunLine(f, m, [ch], "", 0);
  }

  lemma {:induction false} RunExtension(f: Framing, m: Machine, e: string)
    requires m.state == ChunkSize && m.error.None? && ExtensionText(e) && m.nread + |e| <= MAX_HEADER_SIZE
    ensures Run(f, m, e) == m.(state := if e == "" then ChunkSize else ChunkParameters, nread := m.nread + |e|)
  {
    if e != "" {
      RunExtension(f, m, e[..|e| - 1]);
    }
  }

  lemma RunTwo(f: Framing, m: Machine, a: char, b: char)
    ensures Run(f, m, [a, b]) == Step(f, Step(f, m, a), b)
  {
    hide Step;
    assert [a, b][..1] == [a];
    assert [a][..0] == [];
    assert Run(f, m, [a]) == Step(f, m, a);
  }

  lemma RunLineEnd(f: Framing, m: Machine)
    requires m.state == ChunkSize || m.state == ChunkParameters
    requires m.error.None? && m.nread + 2 <= MAX_HEADER_SIZE
    ensures Run(f, m, "\r\n") ==
            if m.contentLength == 0 then m.(state := HeaderFieldStart, trailing := true, nread := 0)
            else m.(state := ChunkData, nread := 0)
  {
    RunTwo(f, m, '\r', '\n');
  }

  /** A whole chunk line. */
  lemma RunLine(f: Framing, m: Machine, size: string, e: string, n: nat)
    requires AtChunkStart(m) && GoodLine(size, e, n)
    ensures Run(f, m, size + e + "\r\n") ==
            if n == 0 then m.(state := HeaderFieldStart, contentLength := 0, trailing := true)
            else m.(state := ChunkData, contentLength := n)
  {
    hide Run, SizeText, ExtensionText;
    RunSize(f, m, size, n);
    RunExtension(f, Run(f, m, size), e);
    RunConcat(f, m, size, e);
    RunLineEnd(f, Run(f, m, size + e));
    RunConcat(f, m, size + e, "\r\n");
  }

  lemma RunChunkEnd(f: Framing, m: Machine)
    requires m.state == ChunkDataAlmostDone && m.error.None?
    ensures Run(f, m, "\r\n") == m.(state := ChunkSizeStart, nread := 0)
  {
    RunTwo(f, m, '\r', '\n');
  }

  lemma RunChunk(f: Framing, m: Machine, c: Chunk)
    requires AtChunkStart(m) && GoodChunk(c)
    ensures Run(f, m, EncodeChunk(c)) == m.(contentLength := 0, body := m.body + c.data)
  {
    hide Run, GoodLine;
    var line := c.size + c.extension + "\r\n";
    RunLine(f, m, c.size, c.extension, |c.data|);
    var m1 := Run(f, m, line);
    RunChunkData(f, m1, c.data);
    RunConcat(f, m, line, c.data);
    RunChunkEnd(f, Run(f, m, line + c.data));
    RunConcat(f, m, line + c.data, "\r\n");
  }

  lemma {:induction false} RunChunks(f: Framing, m: Machine, cs: seq<Chunk>)
    requires AtChunkStart(m) && forall i :: 0 <= i < |cs| ==> GoodChunk(cs[i])
    ensures Run(f, m, EncodeChunks(cs)) ==
            m.(contentLength := if cs == [] then m.contentLength else 0, body := m.body + BodyOf(cs))
  {
    hide GoodChunk, EncodeChunk, Run;
    if cs == [] {
      RunNothing(f, m);
      assert m.body + "" == m.body;
    } else {
      var front, c := cs[..|cs| - 1], cs[|cs| - 1];
      RunChunks(f, m, front);
      var m1 := Run(f, m, EncodeChunks(front));
      RunChunk(f, m1, c);
      RunConcat(f, m, EncodeChunks(front), EncodeChunk(c));
      assert m.body + BodyOf(cs) == m.body + BodyOf(front) + c.data;
    }
  }

  lemma StepHandled(f: Framing, m: Machine, ch: char)
    ensures m.handled <= Step(f, m, ch).handled
  {
    hide Dispatch;
    DispatchHandled(f, Count(m), ch);
  }

  lemma DispatchHandled(f: Framing, m: Machine, ch: char)
    ensures var hs := Dispatch(f, m, ch).handled;
            hs == m.handled || hs == m.handled + [m.body] || hs == m.handled + [m.body + [ch]]
  {
    hide AddDigit, Unhex;
  }

  /** Messages are never taken back. */
  lemma {:induction false} RunHandled(f: Framing, m: Machine, s: string, k: nat)
    requires k <= |s|
    ensures Run(f, m, s[..k]).handled <= Run(f, m, s).handled
    decreases |s|
  {
    hide Step;
    if k < |s| {
      var t := s[..|s| - 1];
      RunHandled(f, m, t, k);
      assert t[..k] == s[..k];
      StepHandled(f, Run(f, m, t), s[|s| - 1]);
    } else {
      assert s[..k] == s;
    }
  }

  lemma NothingBeforeLast(f: Framing, m: Machine, s: string)
    requires s != "" && Run(f, m, s[..|s| - 1]).handled == []
    ensures CompletesLast(f, m, s)
  {
    hide Run;
    var t := s[..|s| - 1];
    forall k: nat | k < |s|
      ensures Run(f, m, s[..k]).handled == []
    {
      RunHandled(f, m, t, k);
      assert t[..k] == s[..k];
    }
  }

  /** A chunked message from the line feed that ends its header section on. */
  function ChunkedMessage(cs: seq<Chunk>, last: Chunk): string {
    "\n" + EncodeChunks(cs) + (last.size + last.extension + "\r\n") + "\r" + "\n"
  }

  predicate AcceptsChunked(f: Framing) {
    f.chunked && (f.transferEncoding && f.lengthSeen ==> f.allowChunkedLength)
  }

  predicate GoodChunks(cs: seq<Chunk>, last: Chunk) {
    (forall i :: 0 <= i < |cs| ==> GoodChunk(cs[i])) && GoodLine(last.size, last.extension, 0)
  }

  lemma RunOne(f: Framing, m: Machine, ch: char)
    ensures Run(f, m, [ch]) == Step(f, m, ch)
  {
    assert [ch][..0] == [];
  }

  /** Everything but the last line feed of a chunked message. */
  lemma RunChunkedFront(f: Framing, length: nat, nread: nat, cs: seq<Chunk>, last: Chunk)
    requires AcceptsChunked(f) && GoodChunks(cs, last) && nread < MAX_HEADER_SIZE
    ensures var s := "\n" + EncodeChunks(cs) + (last.size + last.extension + "\r\n") + "\r";
            Run(f, Start(length, nread), s) == Machine(HeadersAlmostDone, 0, 1, true, None, BodyOf(cs), [], false)
  {
    hide Run, GoodChunk, GoodLine, EncodeChunks, BodyOf;
    var m := Start(length, nread);
    RunOne(f, m, '\n');
    RunChunks(f, Run(f, m, "\n"), cs);
    RunConcat(f, m, "\n", EncodeChunks(cs));
    var m2 := Run(f, m, "\n" + EncodeChunks(cs));
    var line := last.size + last.extension + "\r\n";
    RunLine(f, m2, last.size, last.extension, 0);
    RunConcat(f, m, "\n" + EncodeChunks(cs), line);
    var m3 := Run(f, m, "\n" + EncodeChunks(cs) + line);
    RunOne(f, m3, '\r');
    RunConcat(f, m, "\n" + EncodeChunks(cs) + line, "\r");
    assert "" + BodyOf(cs) == BodyOf(cs);
  }

  /** The machine behind a chunked message. */
  function ChunkedEnd(f: Framing, body: string): Machine {
    Complete(f, Machine(HeadersAlmostDone, 0, 2, true, None, body, [], false))
  }

  /** A chunked message is decoded to the data of its chunks, and is complete once, with its last byte. */
  lemma ChunkedDecoded(f: Framing, length: nat, nread: nat, cs: seq<Chunk>, last: Chunk)
    requires AcceptsChunked(f) && GoodChunks(cs, last) && nread < MAX_HEADER_SIZE
    ensures Run(f, Start(length, nread), ChunkedMessage(cs, last)) == ChunkedEnd(f, BodyOf(cs))
    ensures CompletesLast(f, Start(length, nread), ChunkedMessage(cs, last))
  {
    hide Run, GoodChunks, EncodeChunks, BodyOf, CompletesLast;
    var m := Start(length, nread);
    RunChunkedFront(f, length, nread, cs, last);
    var front := "\n" + EncodeChunks(cs) + (last.size + last.extension + "\r\n") + "\r";
    RunOne(f, Run(f, m, front), '\n');
    RunConcat(f, m, front, "\n");
    var s := ChunkedMessage(cs, last);
    assert s == front + "\n" && s[..|s| - 1] == front;
    NothingBeforeLast(f, m, s);
  }

  /** The machine behind a message of known length. */
  function IdentityEnd(f: Framing, body: string): Machine {
    Complete(f, Machine(if body == "" then HeadersDone else MessageDone, 0, 0, false, None, body, [], false))
  }

  /** A message whose length was given is its own body, and is complete once, with its last byte. */
  lemma IdentityDecoded(f: Framing, body: string, nread: nat)
    requires !f.chunked && !f.transferEncoding && |body| < MAX && nread < MAX_HEADER_SIZE
    ensures Run(f, Start(|body|, nread), "\n" + body) == IdentityEnd(f, body)
    ensures CompletesLast(f, Start(|body|, nread), "\n" + body)
  {
    hide Run, CompletesLast;
    var m, s := Start(|body|, nread), "\n" + body;
    RunOne(f, m, '\n');
    RunConcat(f, m, "\n", body);
    assert "" + body == body;
    if body == "" {
      RunNothing(f, m);
      RunNothing(f, Run(f, m, "\n"));
      assert s[..|s| - 1] == "";
    } else {
      var front := body[..|body| - 1];
      RunBodyIdentity(f, Run(f, m, "\n"), body);
      RunBodyIdentity(f, Run(f, m, "\n"), front);
      RunConcat(f, m, "\n", front);
      assert s[..|s| - 1] == "\n" + front;
    }
    NothingBeforeLast(f, m, s);
  }

  /** Both kinds of messages, however the bytes are split into buffers, reach the handler exactly once
      and with their whole body. */
  method ReceiveChunked(f: Framing, length: nat, nread: nat, cs: seq<Chunk>, last: Chunk, buffers: seq<string>)
    returns (handled: seq<string>)
    requires AcceptsChunked(f) && GoodChunks(cs, last) && nread < MAX_HEADER_SIZE && length <= MAX
    requires (forall i :: 0 <= i < |buffers| ==> buffers[i] != "") && Concat(buffers) == ChunkedMessage(cs, last)
    ensures handled == [BodyOf(cs)]
  {
    hide Run, GoodChunks, EncodeChunks, BodyOf, CompletesLast, Concat;
    ChunkedDecoded(f, length, nread, cs, last);
    var parser := new HttpParser(f, length, nread);
    var _, used := parser.FeedAll(buffers);
    UsesAll(f, Start(length, nread), buffers, used);
    handled := parser.handled;
  }

  method ReceiveIdentity(f: Framing, body: string, nread: nat, buffers: seq<string>) returns (handled: seq<string>)
    requires !f.chunked && !f.transferEncoding && |body| < MAX && nread < MAX_HEADER_SIZE
    requires (forall i :: 0 <= i < |buffers| ==> buffers[i] != "") && Concat(buffers) == "\n" + body
    ensures handled == [body]
  {
    hide Run, CompletesLast, Concat;
    IdentityDecoded(f, body, nread);
    var parser := new HttpParser(f, |body|, nread);
    var _, used := parser.FeedAll(buffers);
    UsesAll(f, Start(|body|, nread), buffers, used);
    handled := parser.handled;
  }

  // ---------------------------------------------------------------- surplus bytes

  function Again(body: string, n: nat): seq<string> {
    seq(n, _ => body)
  }

  lemma AgainNext(hs: seq<string>, body: string, n: nat)
    ensures hs + Again(body, n + 1) == hs + Again(body, n) + [body]
  {
    assert Again(body, n + 1) == Again(body, n) + [body];
  }

  lemma AgainNone(hs: seq<string>, body: string)
    ensures hs + Again(body, 0) == hs
  {
  }

  /** A message that waits for its answer. */
  predicate Waits(f: Framing, m: Machine) {
    !f.answersAtOnce && m.error.None? && m.complete
  }

  /** Behind a cleared parser every byte belongs to the next request: nothing is completed again, and
      only line ends are passed over. */
  lemma {:induction false} NextRequestStarts(f: Framing, m: Machine, extra: string)
    requires m.state == StartReq && m.error.None?
    ensures var r := Run(f, m, extra);
            r.state == StartReq && r.handled == m.handled && r.body == m.body &&
            (r.error.None? ==> forall i :: 0 <= i < |extra| ==> extra[i] == '\r' || extra[i] == '\n')
  {
    hide Step;
    if extra != "" {
      NextRequestStarts(f, m, extra[..|extra| - 1]);
      StartStep(f, Run(f, m, extra[..|extra| - 1]), extra[|extra| - 1]);
    }
  }

  lemma StartStep(f: Framing, m: Machine, ch: char)
    requires m.state == StartReq
    ensures var r := Step(f, m, ch);
            r.state == StartReq && r.handled == m.handled && r.body == m.body && (m.error.Some? ==> r.error.Some?) &&
            (r.error.None? ==> ch == '\r' || ch == '\n')
  {
  }

  lemma {:induction false} MessageDoneAgain(f: Framing, m: Machine, extra: string)
    requires m.state == MessageDone && Waits(f, m)
    ensures Run(f, m, extra) == m.(handled := m.handled + Again(m.body, |extra|))
  {
    hide Again;
    if extra == "" {
      AgainNone(m.handled, m.body);
    } else {
      MessageDoneAgain(f, m, extra[..|extra| - 1]);
      AgainNext(m.handled, m.body, |extra| - 1);
    }
  }

  /** Behind a body of known length every byte of the same buffer completes the message once more as long
      as its answer is deferred. So it is complete once exactly when the handler answers at once, and the
      bytes start the next request, or when there are none. */
  lemma SurplusAfterBody(f: Framing, body: string, nread: nat, extra: string)
    requires !f.chunked && !f.transferEncoding && 0 < |body| < MAX && nread < MAX_HEADER_SIZE
    ensures var r := Run(f, Start(|body|, nread), "\n" + body + extra);
            r.handled == [body] + (if f.answersAtOnce then [] else Again(body, |extra|)) &&
            (if f.answersAtOnce then r.state == StartReq else r.error.None? && r.body == body) &&
            (r.handled == [body] <==> f.answersAtOnce || extra == "")
  {
    hide Run;
    IdentityDecoded(f, body, nread);
    RunConcat(f, Start(|body|, nread), "\n" + body, extra);
    if f.answersAtOnce {
      NextRequestStarts(f, IdentityEnd(f, body), extra);
    } else {
      MessageDoneAgain(f, IdentityEnd(f, body), extra);
    }
  }

  /** How many line feeds a text starts with. */
  function LineFeeds(s: string): (k: nat)
    ensures k <= |s| && (forall i :: 0 <= i < k ==> s[i] == '\n') && (k < |s| ==> s[k] != '\n')
  {
    if s == "" || s[0] != '\n' then 0 else 1 + LineFeeds(s[1..])
  }

  lemma {:induction false} HeadersDoneAgain(f: Framing, m: Machine, s: string)
    requires !f.chunked && !f.transferEncoding && m.state == HeadersDone && Waits(f, m) && m.nread == 0
    requires m.contentLength == 0 || m.contentLength == MAX
    requires forall i :: 0 <= i < |s| ==> s[i] == '\n'
    ensures Run(f, m, s) == m.(handled := m.handled + Again(m.body, |s|))
  {
    hide Again;
    if s == "" {
      AgainNone(m.handled, m.body);
    } else {
      HeadersDoneAgain(f, m, s[..|s| - 1]);
      AgainNext(m.handled, m.body, |s| - 1);
    }
  }

  /** A text after its leading line feeds: the first other byte, and what is behind it. */
  lemma FirstOther(f: Framing, m: Machine, s: string)
    ensures var k := LineFeeds(s);
            var r := Run(f, m, s[..k]);
            Run(f, m, s) == if k == |s| then r else Run(f, Step(f, r, s[k]), s[k + 1..])
  {
    hide Step;
    var k := LineFeeds(s);
    if k == |s| {
      assert s[..k] == s;
    } else {
      assert s == s[..k] + ([s[k]] + s[k + 1..]);
      RunConcat(f, m, s[..k], [s[k]] + s[k + 1..]);
      RunConcat(f, Run(f, m, s[..k]), [s[k]], s[k + 1..]);
      RunOne(f, Run(f, m, s[..k]), s[k]);
    }
  }

  lemma HeadersDoneOther(f: Framing, m: Machine, ch: char)
    requires m.state == HeadersDone && m.error.None? && m.nread == 0 && ch != '\n'
    ensures Step(f, m, ch) == Raise(m.(nread := 1), Strict)
  {
  }

  lemma EmptyMessage(f: Framing, length: nat, nread: nat)
    requires !f.chunked && !f.transferEncoding && (length == 0 || length == MAX) && nread < MAX_HEADER_SIZE
    ensures Run(f, Start(length, nread), "\n") ==
            Complete(f, Machine(HeadersDone, length, 0, false, None, "", [], false))
  {
    RunOne(f, Start(length, nread), '\n');
  }

  /** Behind a message without a body a surplus line feed completes it once more as long as its answer is
      deferred, and any other byte is an error then. It is complete once exactly when the handler answers at
      once, and the bytes start the next request, or when no line feed follows at once. */
  lemma SurplusAfterNoBody(f: Framing, length: nat, nread: nat, extra: string)
    requires !f.chunked && !f.transferEncoding && (length == 0 || length == MAX) && nread < MAX_HEADER_SIZE
    ensures var r, k := Run(f, Start(length, nread), "\n" + extra), LineFeeds(extra);
            r.handled == [""] + (if f.answersAtOnce then [] else Again("", k)) &&
            (if f.answersAtOnce then r.state == StartReq
             else r.error == if k == |extra| then None else Some(Strict)) &&
            (r.handled == [""] <==> f.answersAtOnce || extra == "" || extra[0] != '\n')
  {
    hide Run, Step;
    var m := Start(length, nread);
    EmptyMessage(f, length, nread);
    RunConcat(f, m, "\n", extra);
    var e, k := Run(f, m, "\n"), LineFeeds(extra);
    if f.answersAtOnce {
      NextRequestStarts(f, e, extra);
    } else {
      FirstOther(f, e, extra);
      HeadersDoneAgain(f, e, extra[..k]);
      if k < |extra| {
        HeadersDoneOther(f, Run(f, e, extra[..k]), extra[k]);
        RunError(f, Step(f, Run(f, e, extra[..k]), extra[k]), extra[k + 1..]);
      }
    }
  }

  /** The line feeds that still fit the limit on header bytes behind a chunked message. */
  const ROOM: nat := MAX_HEADER_SIZE - 2

  lemma {:induction false} TrailingAgain(f: Framing, m: Machine, s: string)
    requires m.state == HeadersAlmostDone && m.trailing && Waits(f, m) && m.nread + |s| <= MAX_HEADER_SIZE
    requires forall i :: 0 <= i < |s| ==> s[i] == '\n'
    ensures Run(f, m, s) == m.(nread := m.nread + |s|, handled := m.handled + Again(m.body, |s|))
  {
    hide Again;
    if s == "" {
      AgainNone(m.handled, m.body);
    } else {
      TrailingAgain(f, m, s[..|s| - 1]);
      AgainNext(m.handled, m.body, |s| - 1);
    }
  }

  lemma TrailingOther(f: Framing, m: Machine, ch: char)
    requires m.state == HeadersAlmostDone && m.error.None? && m.nread <= MAX_HEADER_SIZE
    requires ch != '\n' || m.nread == MAX_HEADER_SIZE
    ensures var r := Step(f, m, ch);
            r.error == Some(if m.nread == MAX_HEADER_SIZE then HeaderOverflow else Strict) && r.handled == m.handled
  {
  }

  /** The machine behind c line feeds and all that follows. */
  lemma TrailingSurplus(f: Framing, e: Machine, extra: string, c: nat)
    requires e.state == HeadersAlmostDone && e.trailing && Waits(f, e) && e.nread == 2
    requires c == if LineFeeds(extra) <= ROOM then LineFeeds(extra) else ROOM
    ensures var r := Run(f, e, extra);
            r.handled == e.handled + Again(e.body, c) &&
            r.error == if c == |extra| then None else if c == ROOM then Some(HeaderOverflow) else Some(Strict)
  {
    hide Run, Step;
    TrailingAgain(f, e, extra[..c]);
    if c == |extra| {
      assert extra[..c] == extra;
    } else {
      var r := Run(f, e, extra[..c]);
      assert extra == extra[..c] + ([extra[c]] + extra[c + 1..]);
      RunConcat(f, e, extra[..c], [extra[c]] + extra[c + 1..]);
      RunConcat(f, r, [extra[c]], extra[c + 1..]);
      RunOne(f, r, extra[c]);
      TrailingOther(f, r, extra[c]);
      RunError(f, Step(f, r, extra[c]), extra[c + 1..]);
    }
  }

  /** Behind a chunked message a surplus line feed completes it once more, as long as its answer is
      deferred and the limit on header bytes allows, and any other byte is an error then. It is complete
      once exactly when the handler answers at once or no line feed follows at once. */
  lemma SurplusAfterChunked(f: Framing, length: nat, nread: nat, cs: seq<Chunk>, last: Chunk, extra: string)
    requires AcceptsChunked(f) && GoodChunks(cs, last) && nread < MAX_HEADER_SIZE
    ensures var r := Run(f, Start(length, nread), ChunkedMessage(cs, last) + extra);
            var c := if LineFeeds(extra) <= ROOM then LineFeeds(extra) else ROOM;
            r.handled == [BodyOf(cs)] + (if f.answersAtOnce then [] else Again(BodyOf(cs), c)) &&
            (if f.answersAtOnce then r.state == StartReq
             else r.error == if c == |extra| then None else if c == ROOM then Some(HeaderOverflow) else Some(Strict)) &&
            (r.handled == [BodyOf(cs)] <==> f.answersAtOnce || extra == "" || extra[0] != '\n')
  {
    hide Run, Step, GoodChunks, ChunkedMessage, BodyOf;
    ChunkedDecoded(f, length, nread, cs, last);
    RunConcat(f, Start(length, nread), ChunkedMessage(cs, last), extra);
    var e := ChunkedEnd(f, BodyOf(cs));
    if f.answersAtOnce {
      NextRequestStarts(f, e, extra);
    } else {
      TrailingSurplus(f, e, extra, if LineFeeds(extra) <= ROOM then LineFeeds(extra) else ROOM);
    }
  }

  // ---------------------------------------------------------------- a wrong byte behind a chunk

  /** The header line feed, and the line and data of a chunk. */
  function OpenChunk(c: Chunk): string {
    "\n" + (c.size + c.extension + "\r\n") + c.data
  }

  /** Up to any byte of the data of the first chunk. */
  lemma RunOpenChunk(f: Framing, length: nat, nread: nat, c: Chunk, j: nat)
    requires AcceptsChunked(f) && GoodChunk(c) && nread < MAX_HEADER_SIZE && j <= |c.data|
    ensures var n := |OpenChunk(c)| - |c.data|;
            var r := Run(f, Start(length, nread), OpenChunk(c)[..n + j]);
            r.error.None? && r.body == c.data[..j] && r.handled == [] &&
            r.state == if j == |c.data| then ChunkDataAlmostDone else ChunkData
  {
    hide Run, GoodLine;
    var m, line := Start(length, nread), c.size + c.extension + "\r\n";
    RunOne(f, m, '\n');
    RunLine(f, Run(f, m, "\n"), c.size, c.extension, |c.data|);
    RunConcat(f, m, "\n", line);
    var open := Run(f, m, "\n" + line);
    RunChunkData(f, open, c.data[..j]);
    RunConcat(f, m, "\n" + line, c.data[..j]);
    assert OpenChunk(c)[..|"\n" + line| + j] == "\n" + line + c.data[..j];
    assert "" + c.data[..j] == c.data[..j];
  }

  /** The same bytes, a chunk's data and a wrong byte, fed at once and in two buffers: both end in the same
      error, but at once the data is lost. */
  method WrongByteFed(f: Framing, length: nat, nread: nat, c: Chunk, wrong: char)
    returns (once: string, split: string, onceError: Option<Error>, splitError: Option<Error>)
    requires AcceptsChunked(f) && GoodChunk(c) && nread < MAX_HEADER_SIZE && length <= MAX && wrong != '\r'
    ensures once == "" && split == c.data != "" && onceError == splitError == Some(Strict)
  {
    hide Run, Stopped, GoodChunk, OpenChunk;
    var bytes := OpenChunk(c);
    ghost var m := Start(length, nread);
    WrongByteRun(f, length, nread, c, wrong);
    var parser := new HttpParser(f, length, nread);
    var n := parser.Execute(bytes + [wrong]);
    WrongByteOnce(f, length, nread, c, wrong, parser.Value(), n);
    once, onceError := parser.body, parser.error;
    var again := new HttpParser(f, length, nread);
    var k := again.Execute(bytes);
    if again.error.Some? {
      StoppedFails(f, m, bytes, again.Value(), k);
    }
    ghost var m1 := again.Value();
    WrongByteFails(f, m1, wrong);
    k := again.Execute([wrong]);
    WrongByteAlone(f, m1, wrong, again.Value(), k);
    split, splitError := again.body, again.error;
  }

  /** The machine takes the data and refuses the wrong byte. */
  lemma WrongByteRun(f: Framing, length: nat, nread: nat, c: Chunk, wrong: char)
    requires AcceptsChunked(f) && GoodChunk(c) && nread < MAX_HEADER_SIZE && wrong != '\r'
    ensures var m, s := Start(length, nread), OpenChunk(c);
            var r := Run(f, m, s);
            s != "" && c.data != "" && r.error.None? && r.body == c.data && r.state == ChunkDataAlmostDone &&
            Run(f, m, s + [wrong]) == Raise(r, Strict)
  {
    hide Run, GoodLine;
    var m, s := Start(length, nread), OpenChunk(c);
    RunOpenChunk(f, length, nread, c, |c.data|);
    assert s[..|s|] == s && c.data[..|c.data|] == c.data;
    RunConcat(f, m, s, [wrong]);
    RunOne(f, Run(f, m, s), wrong);
  }

  lemma WrongByteOnce(f: Framing, length: nat, nread: nat, c: Chunk, wrong: char, r: Machine, n: nat)
    requires AcceptsChunked(f) && GoodChunk(c) && nread < MAX_HEADER_SIZE && wrong != '\r'
    requires Stopped(f, Start(length, nread), OpenChunk(c) + [wrong], r, n)
    ensures r.body == "" && r.error == Some(Strict)
  {
    hide Run, GoodChunk, OpenChunk;
    var m, s := Start(length, nread), OpenChunk(c);
    var data := s + [wrong];
    WrongByteRun(f, length, nread, c, wrong);
    assert data[..|s|] == s && data[..|s| + 1] == data;
    if n < |s| {
      assert IsPrefix(data[..n + 1], s);
      RunPrefixError(f, m, s, data[..n + 1]);
    }
    assert n == |s|;
    var k: nat :| Lost(f, m, data, r.body, k, n);
    LostIsAll(f, length, nread, c, wrong, r.body, k);
  }

  /** The stretch of chunk data that ends the text starts with the chunk. */
  lemma LostIsAll(f: Framing, length: nat, nread: nat, c: Chunk, wrong: char, body: string, k: nat)
    requires AcceptsChunked(f) && GoodChunk(c) && nread < MAX_HEADER_SIZE
    requires Lost(f, Start(length, nread), OpenChunk(c) + [wrong], body, k, |OpenChunk(c)|)
    requires Run(f, Start(length, nread), OpenChunk(c)).body == c.data
    ensures body == ""
  {
    hide Run, GoodChunk;
    var m, s := Start(length, nread), OpenChunk(c);
    var data, n := s + [wrong], |s| - |c.data|;
    assert data[..|s|] == s && data[..k] == s[..k] && (k > 0 ==> data[..k - 1] == s[..k - 1]);
    assert |data[k..|s|]| == |s| - k;
    if k >= n {
      RunOpenChunk(f, length, nread, c, k - n);
      if k > n {
        RunOpenChunk(f, length, nread, c, k - 1 - n);
      }
    }
  }

  lemma WrongByteFails(f: Framing, m: Machine, wrong: char)
    requires m.error.None? && m.state == ChunkDataAlmostDone && wrong != '\r'
    ensures Run(f, m, [wrong]) == Raise(m, Strict)
  {
    RunOne(f, m, wrong);
  }

  lemma WrongByteAlone(f: Framing, m: Machine, wrong: char, r: Machine, n: nat)
    requires Stopped(f, m, [wrong], r, n) && m.error.None?
    requires m.state == ChunkDataAlmostDone && wrong != '\r'
    ensures r.body == m.body && r.error == Some(Strict)
  {
    RunSnoc(f, m, [wrong], 0);
  }
}

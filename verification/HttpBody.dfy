/** The body states of the HTTP parser (crow/http_parser_merged.h) with the callbacks of crow/parser.h:
    a machine that takes one byte at a time, the parser that jumps over body data and reports it by
    marks, and the message bodies that they find. The model starts at the line feed that ends the header
    section; a character stands for one byte. */
module HttpBody {
  import opened Sequences

  const MAX: nat := 0xFFFF_FFFF_FFFF_FFFF
  const MAX_HEADER_SIZE: nat := 80 * 1024

  datatype Error =
    | HeaderOverflow
    | Strict
    | UnexpectedContentLength
    | InvalidContentLength
    | InvalidTransferEncoding
    | InvalidChunkSize
    | InvalidEofState
    | TrailerField // a trailer field: the model stops here
    | NextRequest  // the first byte of another request: the model stops here

  /** The states from the end of the header section on. */
  datatype State =
    | StartReq
    | HeaderFieldStart
    | ChunkSizeStart
    | ChunkSize
    | ChunkParameters
    | ChunkSizeAlmostDone
    | HeadersAlmostDone
    | HeadersDone
    | ChunkData
    | ChunkDataAlmostDone
    | ChunkDataDone
    | BodyIdentity
    | BodyIdentityEof
    | MessageDone

  /** What the header section said, how lenient the parser is, and whether the handler answers inside the
      callback that completes the message, which clears the parser for the next request. */
  datatype Framing = Framing(
    chunked: bool, transferEncoding: bool, lengthSeen: bool, lenient: bool, allowChunkedLength: bool,
    answersAtOnce: bool)

  /** The fields of the parser, the body collected by on_body, for every on_message_complete the body that
      the request had when it was handled, and the flag message_complete. */
  datatype Machine = Machine(
    state: State, contentLength: nat, nread: nat, trailing: bool, error: Option<Error>,
    body: string, handled: seq<string>, complete: bool)

  predicate InHeader(st: State) {
    st != ChunkData && st != ChunkDataAlmostDone && st != ChunkDataDone && st != BodyIdentity &&
    st != BodyIdentityEof && st != MessageDone
  }

  function Raise(m: Machine, e: Error): Machine {
    m.(error := Some(e))
  }

  function Goto(m: Machine, st: State): Machine {
    m.(state := st)
  }

  /** on_message_complete, with clear when the handler answers at once. */
  function Complete(f: Framing, m: Machine): Machine {
    var done := m.(handled := m.handled + [m.body]);
    if f.answersAtOnce then done.(body := "", complete := false, state := StartReq) else done.(complete := true)
  }

  /** The table unhex: -1 for what is no digit, and 0 for every byte from 128 on, because the table
      lists its first half only. */
  function Unhex(ch: char): (v: int)
    ensures -1 <= v < 16
  {
    if '0' <= ch <= '9' then ch as int - '0' as int
    else if 'A' <= ch <= 'F' then ch as int - 'A' as int + 10
    else if 'a' <= ch <= 'f' then ch as int - 'a' as int + 10
    else if ch as int >= 128 then 0
    else -1
  }

  /** One digit of a length: the sum is taken modulo 2^64, and refused against a conservative limit. */
  function AddDigit(base: nat, n: nat, digit: nat): Option<nat>
    requires 0 < base
  {
    if (MAX - base) / base < n then None else Some((n * base + digit) % (MAX + 1))
  }

  // ---------------------------------------------------------------- one byte at a time

  function HeadersDoneStep(f: Framing, m: Machine, ch: char): Machine {
    if ch != '\n' then Raise(m, Strict)
    else
      var m := m.(nread := 0);
      if f.chunked then Goto(m, ChunkSizeStart)
      else if f.transferEncoding then
        if f.lenient then Goto(m, BodyIdentityEof) else Raise(m, InvalidTransferEncoding)
      else if m.contentLength == 0 || m.contentLength == MAX then Complete(f, m)
      else Goto(m, BodyIdentity)
  }

  function HeadersAlmostDoneStep(f: Framing, m: Machine, ch: char): Machine {
    if ch != '\n' then Raise(m, Strict)
    else if m.trailing then Complete(f, m)
    else if f.transferEncoding && f.lengthSeen && (if f.chunked then !f.allowChunkedLength else !f.lenient) then
      Raise(m, UnexpectedContentLength)
    else HeadersDoneStep(f, Goto(m, HeadersDone), ch)
  }

  function HeaderFieldStartStep(f: Framing, m: Machine, ch: char): Machine {
    if ch == '\r' then Goto(m, HeadersAlmostDone)
    else if ch == '\n' then HeadersAlmostDoneStep(f, Goto(m, HeadersAlmostDone), ch)
    else Raise(m, TrailerField)
  }

  function ChunkSizeStep(m: Machine, ch: char): Machine {
    if ch == '\r' then Goto(m, ChunkSizeAlmostDone)
    else if Unhex(ch) == -1 then
      if ch == ';' || ch == ' ' then Goto(m, ChunkParameters) else Raise(m, InvalidChunkSize)
    else
      match AddDigit(16, m.contentLength, Unhex(ch))
      case None => Raise(m, InvalidContentLength)
      case Some(n) => m.(contentLength := n)
  }

  function ChunkSizeAlmostDoneStep(m: Machine, ch: char): Machine {
    if ch != '\n' then Raise(m, Strict)
    else if m.contentLength == 0 then m.(nread := 0, trailing := true, state := HeaderFieldStart)
    else m.(nread := 0, state := ChunkData)
  }

  function Dispatch(f: Framing, m: Machine, ch: char): Machine {
    match m.state
    case StartReq => if ch == '\r' || ch == '\n' then m else Raise(m, NextRequest)
    case HeadersAlmostDone => HeadersAlmostDoneStep(f, m, ch)
    case HeadersDone => HeadersDoneStep(f, m, ch)
    case HeaderFieldStart => HeaderFieldStartStep(f, m, ch)
    case ChunkSizeStart =>
      if Unhex(ch) == -1 then Raise(m, InvalidChunkSize)
      else m.(contentLength := Unhex(ch), state := ChunkSize)
    case ChunkSize => ChunkSizeStep(m, ch)
    case ChunkParameters => if ch == '\r' then Goto(m, ChunkSizeAlmostDone) else m
    case ChunkSizeAlmostDone => ChunkSizeAlmostDoneStep(m, ch)
    case ChunkData =>
      if m.contentLength <= 1 then m.(contentLength := 0, state := ChunkDataAlmostDone, body := m.body + [ch])
      else m.(contentLength := m.contentLength - 1, body := m.body + [ch])
    case ChunkDataAlmostDone => if ch != '\r' then Raise(m, Strict) else Goto(m, ChunkDataDone)
    case ChunkDataDone =>
      if ch != '\n' then Raise(m, Strict) else m.(nread := 0, state := ChunkSizeStart)
    case BodyIdentity =>
      if m.contentLength <= 1 then Complete(f, m.(contentLength := 0, state := MessageDone, body := m.body + [ch]))
      else m.(contentLength := m.contentLength - 1, body := m.body + [ch])
    case BodyIdentityEof => m.(body := m.body + [ch])
    case MessageDone => Complete(f, m)
  }

  /** Every byte of the header section is counted. */
  function Count(m: Machine): Machine {
    if !InHeader(m.state) then m
    else if m.nread + 1 > MAX_HEADER_SIZE then Raise(m.(nread := m.nread + 1), HeaderOverflow)
    else m.(nread := m.nread + 1)
  }

  function Step(f: Framing, m: Machine, ch: char): Machine {
    if m.error.Some? then m
    else
      var counted := Count(m);
      if counted.error.Some? then counted else Dispatch(f, counted, ch)
  }

  function Run(f: Framing, m: Machine, s: string): Machine {
    if s == "" then m else Step(f, Run(f, m, s[..|s| - 1]), s[|s| - 1])
  }

  // ---------------------------------------------------------------- runs

  lemma {:induction false} RunConcat(f: Framing, m: Machine, a: string, b: string)
    ensures Run(f, m, a + b) == Run(f, Run(f, m, a), b)
  {
    hide Step;
    if b == "" {
      assert a + b == a;
    } else {
      RunConcat(f, m, a, b[..|b| - 1]);
      assert (a + b)[..|a + b| - 1] == a + b[..|b| - 1];
    }
  }

  lemma RunSnoc(f: Framing, m: Machine, s: string, p: nat)
    requires p < |s|
    ensures Run(f, m, s[..p + 1]) == Step(f, Run(f, m, s[..p]), s[p])
  {
    hide Step;
    assert s[..p + 1][..p] == s[..p];
  }

  lemma {:induction false} RunError(f: Framing, m: Machine, s: string)
    requires m.error.Some?
    ensures Run(f, m, s) == m
  {
    if s != "" {
      RunError(f, m, s[..|s| - 1]);
    }
  }

  predicate SizeState(st: State) {
    st == ChunkSize || st == ChunkParameters || st == ChunkSizeAlmostDone
  }

  predicate ChunkState(st: State) {
    SizeState(st) || st == ChunkSizeStart || st == ChunkData || st == ChunkDataAlmostDone || st == ChunkDataDone
  }

  /** The length that is still to be read never is 0, nor the all-ones value that means no length, where
      data is expected. */
  predicate LengthGood(m: Machine) {
    m.contentLength <= MAX &&
    (SizeState(m.state) ==> m.contentLength < MAX) &&
    (m.state == ChunkData || m.state == BodyIdentity ==> 0 < m.contentLength < MAX) &&
    (m.state == ChunkDataAlmostDone || m.state == ChunkDataDone || m.state == MessageDone ==> m.contentLength == 0)
  }

  /** The count of header bytes, between two bytes: it starts from 0 with every chunk size. */
  predicate CountGood(m: Machine) {
    m.error.None? ==> m.nread <= MAX_HEADER_SIZE && (m.state == ChunkSizeStart ==> m.nread == 0)
  }

  predicate FramingGood(f: Framing, m: Machine) {
    m.trailing || ChunkState(m.state) ==> f.chunked
  }

  predicate CompleteGood(m: Machine) {
    m.complete ==> m.handled != []
  }

  /** What every state promises; the parser asserts it. */
  predicate Good(f: Framing, m: Machine) {
    LengthGood(m) && CountGood(m) && FramingGood(f, m) && CompleteGood(m)
  }

  lemma AddDigitExact(base: nat, n: nat, digit: nat)
    requires (base == 10 || base == 16) && digit < base
    ensures AddDigit(base, n, digit) ==
            if n <= (MAX - base) / base then Some(n * base + digit) else None
    ensures n <= (MAX - base) / base ==> n * base + digit < MAX
  {
  }

  lemma HeadersDoneLength(f: Framing, m: Machine, ch: char)
    requires LengthGood(m) && m.state == HeadersDone
    ensures LengthGood(HeadersDoneStep(f, m, ch))
  {
  }

  lemma HeaderStepsLength(f: Framing, m: Machine, ch: char)
    requires LengthGood(m)
    ensures m.state == HeadersAlmostDone ==> LengthGood(HeadersAlmostDoneStep(f, m, ch))
    ensures m.state == HeaderFieldStart ==> LengthGood(HeaderFieldStartStep(f, m, ch))
  {
    hide HeadersDoneStep;
    HeadersDoneLength(f, Goto(m, HeadersDone), ch);
    HeadersDoneLength(f, Goto(Goto(m, HeadersAlmostDone), HeadersDone), ch);
  }

  lemma ChunkSizeLength(m: Machine, ch: char)
    requires LengthGood(m) && m.state == ChunkSize
    ensures LengthGood(ChunkSizeStep(m, ch))
  {
    hide AddDigit, Unhex;
    if Unhex(ch) >= 0 {
      AddDigitExact(16, m.contentLength, Unhex(ch));
    }
  }

  lemma DispatchLength(f: Framing, m: Machine, ch: char)
    requires LengthGood(m)
    ensures LengthGood(Dispatch(f, m, ch))
  {
    hide AddDigit, Unhex, HeadersDoneStep, HeadersAlmostDoneStep, HeaderFieldStartStep, ChunkSizeStep;
    HeaderStepsLength(f, m, ch);
    if m.state == HeadersDone {
      HeadersDoneLength(f, m, ch);
    }
    if m.state == ChunkSize {
      ChunkSizeLength(m, ch);
    }
  }

  lemma DispatchCount(f: Framing, m: Machine, ch: char)
    requires m.error.None? && m.nread <= MAX_HEADER_SIZE && (m.state == ChunkSizeStart ==> m.nread == 1)
    ensures CountGood(Dispatch(f, m, ch))
  {
    hide AddDigit, Unhex;
  }

  lemma DispatchFraming(f: Framing, m: Machine, ch: char)
    requires FramingGood(f, m)
    ensures FramingGood(f, Dispatch(f, m, ch))
  {
    hide AddDigit, Unhex;
  }

  lemma CompleteIsGood(f: Framing, m: Machine)
    ensures CompleteGood(Complete(f, m))
  {
  }

  lemma HeadersDoneComplete(f: Framing, m: Machine, ch: char)
    requires CompleteGood(m)
    ensures CompleteGood(HeadersDoneStep(f, m, ch))
  {
    hide Complete;
    CompleteIsGood(f, m.(nread := 0));
  }

  lemma HeaderStepsComplete(f: Framing, m: Machine, ch: char)
    requires CompleteGood(m)
    ensures CompleteGood(HeadersAlmostDoneStep(f, m, ch)) && CompleteGood(HeaderFieldStartStep(f, m, ch))
  {
    hide Complete, HeadersDoneStep;
    CompleteIsGood(f, m);
    CompleteIsGood(f, Goto(m, HeadersAlmostDone));
    HeadersDoneComplete(f, Goto(m, HeadersDone), ch);
    HeadersDoneComplete(f, Goto(Goto(m, HeadersAlmostDone), HeadersDone), ch);
  }

  lemma DispatchComplete(f: Framing, m: Machine, ch: char)
    requires CompleteGood(m)
    ensures CompleteGood(Dispatch(f, m, ch))
  {
    hide AddDigit, Unhex, Complete, HeadersDoneStep, HeadersAlmostDoneStep, HeaderFieldStartStep;
    HeadersDoneComplete(f, m, ch);
    HeaderStepsComplete(f, m, ch);
    CompleteIsGood(f, m);
    CompleteIsGood(f, m.(contentLength := 0, state := MessageDone, body := m.body + [ch]));
  }

  lemma StepGood(f: Framing, m: Machine, ch: char)
    requires Good(f, m)
    ensures Good(f, Step(f, m, ch))
  {
    hide Dispatch;
    if m.error.None? && Count(m).error.None? {
      DispatchLength(f, Count(m), ch);
      DispatchCount(f, Count(m), ch);
      DispatchFraming(f, Count(m), ch);
      DispatchComplete(f, Count(m), ch);
    }
  }

  lemma {:induction false} RunGood(f: Framing, m: Machine, s: string)
    requires Good(f, m)
    ensures Good(f, Run(f, m, s))
  {
    if s != "" {
      RunGood(f, m, s[..|s| - 1]);
      StepGood(f, Run(f, m, s[..|s| - 1]), s[|s| - 1]);
    }
  }

  // ---------------------------------------------------------------- jumps over data

  /** The machine after the bytes s of a chunk. */
  function AfterData(m: Machine, s: string): Machine
    requires |s| <= m.contentLength
  {
    m.(contentLength := m.contentLength - |s|, body := m.body + s,
       state := if |s| == m.contentLength then ChunkDataAlmostDone else ChunkData)
  }

  lemma ChunkDataStep(f: Framing, m: Machine, ch: char)
    requires m.error.None? && m.state == ChunkData && 0 < m.contentLength
    ensures Step(f, m, ch) == AfterData(m, [ch])
  {
  }

  lemma {:induction false} RunChunkData(f: Framing, m: Machine, s: string)
    requires m.error.None? && m.state == ChunkData && 0 < m.contentLength && |s| <= m.contentLength
    ensures Run(f, m, s) == AfterData(m, s)
  {
    hide Step;
    if s == "" {
      assert m.body + s == m.body;
    } else {
      var t := s[..|s| - 1];
      RunChunkData(f, m, t);
      ChunkDataStep(f, Run(f, m, t), s[|s| - 1]);
      assert m.body + s == (m.body + t) + [s[|s| - 1]];
    }
  }

  /** The machine after the bytes s of a body of known length. */
  function AfterIdentity(f: Framing, m: Machine, s: string): Machine
    requires |s| <= m.contentLength
  {
    var read := m.(contentLength := m.contentLength - |s|, body := m.body + s);
    if |s| == m.contentLength then Complete(f, read.(state := MessageDone)) else read
  }

  lemma IdentityStep(f: Framing, m: Machine, ch: char)
    requires m.error.None? && m.state == BodyIdentity && 0 < m.contentLength
    ensures Step(f, m, ch) == AfterIdentity(f, m, [ch])
  {
  }

  lemma {:induction false} RunBodyIdentity(f: Framing, m: Machine, s: string)
    requires m.error.None? && m.state == BodyIdentity && 0 < m.contentLength && |s| <= m.contentLength
    ensures Run(f, m, s) == AfterIdentity(f, m, s)
  {
    hide Step;
    if s == "" {
      assert m.body + s == m.body;
    } else {
      var t := s[..|s| - 1];
      RunBodyIdentity(f, m, t);
      IdentityStep(f, Run(f, m, t), s[|s| - 1]);
      assert m.body + s == (m.body + t) + [s[|s| - 1]];
    }
  }

  lemma EofStep(f: Framing, m: Machine, ch: char)
    requires m.error.None? && m.state == BodyIdentityEof
    ensures Step(f, m, ch) == m.(body := m.body + [ch])
  {
  }

  lemma {:induction false} RunBodyIdentityEof(f: Framing, m: Machine, s: string)
    requires m.error.None? && m.state == BodyIdentityEof
    ensures Run(f, m, s) == m.(body := m.body + s)
  {
    hide Step;
    if s != "" {
      var t := s[..|s| - 1];
      RunBodyIdentityEof(f, m, t);
      EofStep(f, Run(f, m, t), s[|s| - 1]);
      assert m.body + s == (m.body + t) + [s[|s| - 1]];
    } else {
      assert m.body + s == m.body;
    }
  }

  // ---------------------------------------------------------------- the parser

  /** The bytes between the body mark and p. */
  function Pending(data: string, mark: Option<nat>, p: nat): string {
    if mark.Some? && mark.value <= p <= |data| then data[mark.value..p] else ""
  }

  function Delivered(m: Machine, data: string, mark: Option<nat>, p: nat): Machine {
    m.(body := m.body + Pending(data, mark, p))
  }

  /** Byte k is the first byte of chunk data in the buffer, or in this stretch of it. */
  predicate ChunkStarts(f: Framing, m0: Machine, data: string, k: nat) {
    k < |data| && Run(f, m0, data[..k]).state == ChunkData &&
    (k == 0 || Run(f, m0, data[..k - 1]).state != ChunkData)
  }

  /** What an open mark says: the bytes behind it are not reported yet, and behind the data of a chunk it
      stands where that data starts. */
  predicate MarkGood(f: Framing, m0: Machine, data: string, m: Machine, p: nat, k: nat) {
    k < p <= |data| && (p < |data| ==> m.state == ChunkDataAlmostDone) && Run(f, m0, data[..k]).body == m.body &&
    (m.state == ChunkDataAlmostDone ==> ChunkStarts(f, m0, data, k))
  }

  /** Without a mark the data of a chunk has not started in this buffer. */
  predicate NoMarkGood(f: Framing, m0: Machine, data: string, m: Machine, p: nat) {
    p <= |data| && (p > 0 ==> m.state != ChunkDataAlmostDone) &&
    (m.state == ChunkData && p < |data| ==> ChunkStarts(f, m0, data, p))
  }

  /** Before the byte at p: nothing but the bytes behind the mark is still to be reported, and a mark is
      open only at the end of a chunk or of the buffer. */
  predicate Scanned(f: Framing, m0: Machine, data: string, m: Machine, p: nat, mark: Option<nat>) {
    p <= |data| && m.error.None? && Good(f, m) &&
    (if mark.Some? then MarkGood(f, m0, data, m, p, mark.value) else NoMarkGood(f, m0, data, m, p)) &&
    Run(f, m0, data[..p]) == Delivered(m, data, mark, p)
  }

  /** The bytes of a chunk from k on are in the machine's body, but not in the reported one. */
  predicate Lost(f: Framing, m0: Machine, data: string, body: string, k: nat, n: nat) {
    k < n < |data| && ChunkStarts(f, m0, data, k) && Run(f, m0, data[..k]).body == body &&
    Run(f, m0, data[..n]).body == body + data[k..n]
  }

  /** The parser stopped at byte n: the machine fails there too. The reported body is the machine's, unless
      a chunk's data in the same buffer is followed by the wrong byte: then that data is lost. */
  ghost predicate Stopped(f: Framing, m0: Machine, data: string, m: Machine, n: nat) {
    n < |data| && m.error.Some? && Run(f, m0, data[..n]).error.None? &&
    m == Run(f, m0, data[..n + 1]).(body := m.body) &&
    if n > 0 && Run(f, m0, data[..n]).state == ChunkDataAlmostDone then exists k: nat :: Lost(f, m0, data, m.body, k, n)
    else m.body == Run(f, m0, data[..n + 1]).body
  }

  /** On an error the whole body was reported exactly when the byte is not one that ends the data of a
      chunk in this buffer. */
  lemma ReportedExactly(f: Framing, m0: Machine, data: string, m: Machine, n: nat)
    requires Stopped(f, m0, data, m, n)
    ensures m.body == Run(f, m0, data[..n + 1]).body <==>
            n == 0 || Run(f, m0, data[..n]).state != ChunkDataAlmostDone
    ensures m.body <= Run(f, m0, data[..n + 1]).body
  {
    RunSnoc(f, m0, data, n);
    if n > 0 && Run(f, m0, data[..n]).state == ChunkDataAlmostDone {
      var k: nat :| Lost(f, m0, data, m.body, k, n);
      assert |Run(f, m0, data[..n]).body| == |m.body| + (n - k);
    }
  }

  lemma ByteState(f: Framing, m: Machine, ch: char)
    requires m.state != ChunkData && m.state != ChunkDataAlmostDone
    ensures Step(f, m, ch).state != ChunkDataAlmostDone
  {
    hide AddDigit, Unhex;
  }

  lemma ByteScanned(f: Framing, m0: Machine, data: string, m: Machine, p: nat)
    requires Scanned(f, m0, data, m, p, None) && p < |data| && m.state != ChunkData && m.state != ChunkDataAlmostDone
    ensures var m' := Step(f, m, data[p]);
            if m'.error.None? then Scanned(f, m0, data, m', p + 1, None) else Stopped(f, m0, data, m', p)
  {
    hide Step, Good;
    RunSnoc(f, m0, data, p);
    StepGood(f, m, data[p]);
    ByteState(f, m, data[p]);
    assert m == Delivered(m, data, None, p);
    var m' := Step(f, m, data[p]);
    assert m' == Delivered(m', data, None, p + 1);
  }

  lemma JumpScanned(f: Framing, m0: Machine, data: string, m: Machine, p: nat, m': Machine, q: nat, mark: Option<nat>)
    requires Scanned(f, m0, data, m, p, None) && p < q <= |data|
    requires Delivered(m', data, mark, q) == Run(f, m, data[p..q]) && m'.error.None?
    requires mark.Some? ==> mark.value == p && m'.body == m.body && (q < |data| ==> m'.state == ChunkDataAlmostDone)
    requires if mark.Some? then m'.state == ChunkDataAlmostDone ==> m.state == ChunkData
             else m'.state != ChunkDataAlmostDone && m'.state != ChunkData
    ensures Scanned(f, m0, data, m', q, mark)
  {
    hide Step, Run, Good;
    assert m == Delivered(m, data, None, p);
    assert data[..q] == data[..p] + data[p..q];
    RunConcat(f, m0, data[..p], data[p..q]);
    RunGood(f, m, data[p..q]);
    GoodWithoutBody(f, Run(f, m, data[p..q]), m'.body);
  }

  lemma GoodWithoutBody(f: Framing, m: Machine, body: string)
    requires Good(f, m)
    ensures Good(f, m.(body := body))
  {
  }

  lemma AlmostDoneStep(f: Framing, m: Machine, ch: char)
    requires m.state == ChunkDataAlmostDone && m.error.None?
    ensures Step(f, m, ch) == if ch == '\r' then Goto(m, ChunkDataDone) else Raise(m, Strict)
  {
  }

  /** The byte behind the data of a chunk: the open mark is reported, unless the byte is wrong. */
  lemma AlmostDoneScanned(f: Framing, m0: Machine, data: string, m: Machine, p: nat, mark: Option<nat>)
    requires Scanned(f, m0, data, m, p, mark) && p < |data| && m.state == ChunkDataAlmostDone
    ensures data[p] != '\r' ==> Stopped(f, m0, data, Raise(m, Strict), p)
    ensures data[p] == '\r' ==>
              Scanned(f, m0, data, Goto(m, ChunkDataDone).(body := m.body + Pending(data, mark, p)), p + 1, None)
  {
    hide Run, Step;
    RunSnoc(f, m0, data, p);
    AlmostDoneStep(f, Run(f, m0, data[..p]), data[p]);
    if data[p] != '\r' {
      if mark.Some? {
        assert Lost(f, m0, data, m.body, mark.value, p);
      } else {
        assert m.body + "" == m.body;
      }
    } else {
      var m' := Goto(m, ChunkDataDone).(body := m.body + Pending(data, mark, p));
      assert m' == Delivered(m', data, None, p + 1);
    }
  }

  class HttpParser {
    const f: Framing
    var state: State
    var contentLength: nat
    var nread: nat
    var trailing: bool
    var error: Option<Error>
    var body: string
    var handled: seq<string>
    var complete: bool

    ghost function Value(): Machine
      reads this
    {
      Machine(state, contentLength, nread, trailing, error, body, handled, complete)
    }

    /** At the line feed that ends a header section of nread bytes so far. */
    constructor (f: Framing, contentLength: nat, nread: nat)
      requires contentLength <= MAX && nread <= MAX_HEADER_SIZE
      ensures Value() == Start(contentLength, nread) && this.f == f && Good(f, Value())
    {
      this.f := f;
      this.state := HeadersAlmostDone;
      this.contentLength := contentLength;
      this.nread := nread;
      this.trailing := false;
      this.error := None;
      this.body := "";
      this.handled := [];
      this.complete := false;
    }

    method OnBody(slice: string)
      modifies this`body
      ensures body == old(body) + slice
    {
      body := body + slice;
    }

    /** The handler gets the request; when it answers at once, the parser is cleared before this returns. */
    method OnMessageComplete()
      modifies this
      ensures Value() == Complete(f, old(Value()))
    {
      complete := true;
      handled := handled + [body];
      if f.answersAtOnce {
        Clear();
      }
    }

    method Clear()
      modifies this
      ensures Value() == old(Value()).(body := "", complete := false, state := StartReq)
    {
      body := "";
      complete := false;
      state := StartReq;
    }

    method AtHeadersDone(ch: char)
      modifies this
      ensures Value() == HeadersDoneStep(f, old(Value()), ch)
    {
      if ch != '\n' {
        error := Some(Strict);
        return;
      }
      nread := 0;
      if f.chunked {
        state := ChunkSizeStart;
      } else if f.transferEncoding {
        if !f.lenient {
          error := Some(InvalidTransferEncoding);
        } else {
          state := BodyIdentityEof;
        }
      } else if contentLength == 0 {
        OnMessageComplete();
      } else if contentLength != MAX {
        state := BodyIdentity;
      } else {
        OnMessageComplete();
      }
    }

    method AtHeadersAlmostDone(ch: char)
      modifies this
      ensures Value() == HeadersAlmostDoneStep(f, old(Value()), ch)
    {
      if ch != '\n' {
        error := Some(Strict);
        return;
      }
      if trailing {
        OnMessageComplete();
        return;
      }
      if f.transferEncoding && f.lengthSeen {
        if f.chunked {
          if !f.allowChunkedLength {
            error := Some(UnexpectedContentLength);
            return;
          }
        } else if !f.lenient {
          error := Some(UnexpectedContentLength);
          return;
        }
      }
      state := HeadersDone;
      AtHeadersDone(ch);
    }

    method AtHeaderFieldStart(ch: char)
      modifies this
      ensures Value() == HeaderFieldStartStep(f, old(Value()), ch)
    {
      if ch == '\r' {
        state := HeadersAlmostDone;
      } else if ch == '\n' {
        state := HeadersAlmostDone;
        AtHeadersAlmostDone(ch);
      } else {
        error := Some(TrailerField);
      }
    }

    method AtChunkSize(ch: char)
      requires contentLength < MAX
      modifies this
      ensures Value() == ChunkSizeStep(old(Value()), ch)
    {
      if ch == '\r' {
        state := ChunkSizeAlmostDone;
        return;
      }
      var unhex := Unhex(ch);
      if unhex == -1 {
        if ch == ';' || ch == ' ' {
          state := ChunkParameters;
          return;
        }
        error := Some(InvalidChunkSize);
        return;
      }
      var t := (contentLength * 16 + unhex) % (MAX + 1);
      if (MAX - 16) / 16 < contentLength {
        error := Some(InvalidContentLength);
        return;
      }
      contentLength := t;
    }

    method AtChunkSizeAlmostDone(ch: char)
      modifies this
      ensures Value() == ChunkSizeAlmostDoneStep(old(Value()), ch)
    {
      if ch != '\n' {
        error := Some(Strict);
        return;
      }
      nread := 0;
      if contentLength == 0 {
        trailing := true;
        state := HeaderFieldStart;
      } else {
        state := ChunkData;
      }
    }

    /** The states that look at one byte and report no data. */
    method AtByte(ch: char)
      requires LengthGood(Value()) && state != ChunkData && state != ChunkDataAlmostDone
      requires state != BodyIdentity && state != BodyIdentityEof
      modifies this
      ensures Value() == Dispatch(f, old(Value()), ch)
    {
      if state == StartReq {
        if ch != '\r' && ch != '\n' {
          error := Some(NextRequest);
        }
      } else if state == HeadersAlmostDone {
        AtHeadersAlmostDone(ch);
      } else if state == HeadersDone {
        AtHeadersDone(ch);
      } else if state == HeaderFieldStart {
        AtHeaderFieldStart(ch);
      } else if state == ChunkSizeStart {
        var unhex := Unhex(ch);
        if unhex == -1 {
          error := Some(InvalidChunkSize);
        } else {
          contentLength := unhex;
          state := ChunkSize;
        }
      } else if state == ChunkSize {
        AtChunkSize(ch);
      } else if state == ChunkParameters {
        if ch == '\r' {
          state := ChunkSizeAlmostDone;
        }
      } else if state == ChunkSizeAlmostDone {
        AtChunkSizeAlmostDone(ch);
      } else if state == ChunkDataDone {
        if ch != '\n' {
          error := Some(Strict);
        } else {
          nread := 0;
          state := ChunkSizeStart;
        }
      } else {
        OnMessageComplete();
      }
    }

    /** s_body_identity: all the data there is; with the last byte the message is complete. */
    method TakeBody(data: string, p: nat, ghost m0: Machine) returns (p': nat, mark: Option<nat>)
      requires Scanned(f, m0, data, Value(), p, None) && p < |data| && state == BodyIdentity
      modifies this
      ensures p < p' && Scanned(f, m0, data, Value(), p', mark)
    {
      hide Run, CountGood, FramingGood;
      ghost var m := Value();
      var toRead := if contentLength < |data| - p then contentLength else |data| - p;
      RunBodyIdentity(f, m, data[p..p + toRead]);
      mark := Some(p);
      contentLength := contentLength - toRead;
      p' := p + toRead;
      if contentLength == 0 {
        state := MessageDone;
        OnBody(data[p..p']);
        mark := None;
        OnMessageComplete();
        assert Pending(data, mark, p') == "";
        assert body + "" == body;
      }
      JumpScanned(f, m0, data, m, p, Value(), p', mark);
    }

    /** s_body_identity_eof */
    method TakeRest(data: string, p: nat, ghost m0: Machine) returns (p': nat, mark: Option<nat>)
      requires Scanned(f, m0, data, Value(), p, None) && p < |data| && state == BodyIdentityEof
      modifies this
      ensures p < p' && Scanned(f, m0, data, Value(), p', mark)
    {
      RunBodyIdentityEof(f, Value(), data[p..]);
      mark := Some(p);
      p' := |data|;
      assert data[p..] == data[p..p'];
      JumpScanned(f, m0, data, Value(), p, Value(), p', mark);
    }

    /** s_chunk_data */
    method TakeChunk(data: string, p: nat, ghost m0: Machine) returns (p': nat, mark: Option<nat>)
      requires Scanned(f, m0, data, Value(), p, None) && p < |data| && state == ChunkData
      modifies this
      ensures p < p' && Scanned(f, m0, data, Value(), p', mark)
    {
      hide Run, CountGood, FramingGood;
      ghost var m := Value();
      var toRead := if contentLength < |data| - p then contentLength else |data| - p;
      RunChunkData(f, m, data[p..p + toRead]);
      mark := Some(p);
      contentLength := contentLength - toRead;
      p' := p + toRead;
      if contentLength == 0 {
        state := ChunkDataAlmostDone;
      }
      JumpScanned(f, m0, data, m, p, Value(), p', mark);
    }

    /** s_chunk_data_almost_done */
    method EndChunk(data: string, p: nat, mark: Option<nat>, ghost m0: Machine)
      requires Scanned(f, m0, data, Value(), p, mark) && p < |data| && state == ChunkDataAlmostDone
      modifies this
      ensures error.None? ==> Scanned(f, m0, data, Value(), p + 1, None)
      ensures error.Some? ==> Stopped(f, m0, data, Value(), p)
    {
      AlmostDoneScanned(f, m0, data, Value(), p, mark);
      if data[p] != '\r' {
        error := Some(Strict);
        return;
      }
      state := ChunkDataDone;
      if mark.Some? {
        OnBody(data[mark.value..p]);
      } else {
        assert body + "" == body;
      }
    }

    /** One round of the byte loop. */
    method Iterate(data: string, p: nat, mark: Option<nat>, ghost m0: Machine) returns (p': nat, mark': Option<nat>)
      requires Scanned(f, m0, data, Value(), p, mark) && p < |data|
      modifies this
      ensures error.None? ==> p < p' && Scanned(f, m0, data, Value(), p', mark')
      ensures error.Some? ==> Stopped(f, m0, data, Value(), p')
    {
      hide CountGood, FramingGood, Run, Dispatch, Stopped;
      if state == ChunkDataAlmostDone {
        EndChunk(data, p, mark, m0);
        p', mark' := if error.None? then p + 1 else p, None;
        return;
      }
      assert mark.None?;
      if state == ChunkData {
        p', mark' := TakeChunk(data, p, m0);
      } else if state == BodyIdentity {
        p', mark' := TakeBody(data, p, m0);
      } else if state == BodyIdentityEof {
        p', mark' := TakeRest(data, p, m0);
      } else {
        ByteScanned(f, m0, data, Value(), p);
        p', mark' := p, None;
        if InHeader(state) {
          nread := nread + 1;
          if nread > MAX_HEADER_SIZE {
            error := Some(HeaderOverflow);
            return;
          }
        }
        AtByte(data[p]);
        p' := if error.None? then p + 1 else p;
      }
    }

    /** http_parser_execute on the body states: it does what the machine does byte by byte. A refused
        buffer is left at the byte that the machine refuses. */
    method Execute(data: string) returns (n: nat)
      requires Good(f, Value())
      modifies this
      ensures old(error).Some? ==> n == 0 && Value() == old(Value())
      ensures data == "" && old(error).None? ==>
                Value() == if old(state) == BodyIdentityEof then Complete(f, old(Value()))
                           else if old(state) == StartReq then old(Value())
                           else Raise(old(Value()), InvalidEofState)
      ensures data != "" && old(error).None? ==>
                if error.None? then n == |data| && Good(f, Value()) && Value() == Run(f, old(Value()), data)
                else Stopped(f, old(Value()), data, Value(), n)
    {
      if error.Some? {
        return 0;
      }
      if |data| == 0 {
        if state == BodyIdentityEof {
          OnMessageComplete();
          return 0;
        }
        if state == StartReq {
          return 0;
        }
        error := Some(InvalidEofState);
        return 1;
      }
      ghost var m0 := Value();
      n := Loop(data, m0);
    }

    /** The byte loop and the report of a mark that is left open. */
    method Loop(data: string, ghost m0: Machine) returns (n: nat)
      requires Good(f, Value()) && error.None? && m0 == Value()
      modifies this
      ensures if error.None? then n == |data| && Good(f, Value()) && Value() == Run(f, m0, data)
              else Stopped(f, m0, data, Value(), n)
    {
      var p, mark := 0, None;
      ScanStart(f, m0, data);
      while p != |data|
        invariant Scanned(f, m0, data, Value(), p, mark)
        decreases |data| - p
      {
        p, mark := Iterate(data, p, mark, m0);
        if error.Some? {
          return p;
        }
      }
      ScanEnd(f, m0, data, Value(), mark);
      if mark.Some? {
        OnBody(data[mark.value..p]);
      }
      return |data|;
    }

    /** feed: nothing is read once the message is complete. */
    method Feed(buffer: string) returns (ok: bool)
      requires Good(f, Value()) && buffer != "" && error.None?
      modifies this
      ensures old(complete) ==> ok && Value() == old(Value())
      ensures !old(complete) ==> ok == error.None? == Run(f, old(Value()), buffer).error.None?
      ensures !old(complete) && ok ==> Good(f, Value()) && Value() == Run(f, old(Value()), buffer)
      ensures !old(complete) && !ok ==> exists n: nat :: Stopped(f, old(Value()), buffer, Value(), n)
      ensures !old(complete) && !ok ==> Value() == Run(f, old(Value()), buffer).(body := body)
    {
      hide Run, Stopped, Good;
      if complete {
        return true;
      }
      ghost var m0 := Value();
      var n := Execute(buffer);
      if error.Some? {
        StoppedFails(f, m0, buffer, Value(), n);
        return false;
      }
      return n == |buffer|;
    }

    /** Buffers as they come in from the connection, whatever they hold: the first used of them are read,
        up to the one with which the message is complete or wrong, and the result is that of the machine on
        their concatenation, but for a body slice that is lost with a wrong byte. */
    method FeedAll(buffers: seq<string>) returns (ok: bool, used: nat)
      requires Good(f, Value()) && error.None? && !complete
      requires forall i :: 0 <= i < |buffers| ==> buffers[i] != ""
      modifies this
      ensures used <= |buffers| && ok == error.None?
      ensures forall j :: 0 <= j < used ==> Goes(Run(f, old(Value()), Concat(buffers[..j])))
      ensures used < |buffers| ==> !Goes(Run(f, old(Value()), Concat(buffers[..used])))
      ensures Value() == Run(f, old(Value()), Concat(buffers[..used])).(body := body)
      ensures ok ==> Value() == Run(f, old(Value()), Concat(buffers[..used]))
    {
      hide Run, Good, Concat, Stopped;
      ghost var m0 := Value();
      var i := 0;
      ok, used := true, 0;
      ConcatNone(buffers);
      RunNothing(f, m0);
      while i < |buffers|
        invariant used <= i <= |buffers| && ok && error.None? && Good(f, Value())
        invariant Value() == Run(f, m0, Concat(buffers[..used]))
        invariant forall j :: 0 <= j < used ==> Goes(Run(f, m0, Concat(buffers[..j])))
        invariant if !complete then used == i else !Goes(Run(f, m0, Concat(buffers[..used])))
      {
        ConcatNext(buffers, i);
        RunConcat(f, m0, Concat(buffers[..i]), buffers[i]);
        if !complete {
          used := i + 1;
        }
        ok := Feed(buffers[i]);
        if !ok {
          return;
        }
        i := i + 1;
      }
    }
  }

  /** The machine goes on: no error, and no message complete that waits for its answer. */
  predicate Goes(m: Machine) {
    m.error.None? && !m.complete
  }

  lemma ConcatNone(ss: seq<string>)
    ensures Concat(ss[..0]) == ""
  {
  }

  lemma ConcatNext(ss: seq<string>, i: nat)
    requires i < |ss|
    ensures Concat(ss[..i + 1]) == Concat(ss[..i]) + ss[i]
  {
    assert ss[..i + 1][..i] == ss[..i];
  }

  function Concat(ss: seq<string>): string {
    if ss == [] then "" else Concat(ss[..|ss| - 1]) + ss[|ss| - 1]
  }

  /** No message is complete before the last byte of s. */
  ghost predicate CompletesLast(f: Framing, m: Machine, s: string) {
    forall k: nat :: k < |s| ==> Run(f, m, s[..k]).handled == []
  }

  predicate IsPrefix(a: string, s: string) {
    |a| <= |s| && a == s[..|a|]
  }

  lemma {:induction false} ConcatGrows(ss: seq<string>, i: nat)
    requires i <= |ss|
    ensures IsPrefix(Concat(ss[..i]), Concat(ss))
    decreases |ss|
  {
    if i < |ss| {
      ConcatGrows(ss[..|ss| - 1], i);
      assert ss[..|ss| - 1][..i] == ss[..i];
    } else {
      assert ss[..i] == ss;
    }
  }

  lemma RunPrefixError(f: Framing, m: Machine, s: string, a: string)
    requires IsPrefix(a, s) && Run(f, m, s).error.None?
    ensures Run(f, m, a).error.None?
  {
    hide Run;
    assert s == a + s[|a|..];
    RunConcat(f, m, a, s[|a|..]);
    if Run(f, m, a).error.Some? {
      RunError(f, Run(f, m, a), s[|a|..]);
    }
  }

  /** Of a message that is right and complete with its last byte, all buffers are used. */
  lemma UsesAll(f: Framing, m: Machine, buffers: seq<string>, used: nat)
    requires used <= |buffers| && forall i :: 0 <= i < |buffers| ==> buffers[i] != ""
    requires CompletesLast(f, m, Concat(buffers)) && Run(f, m, Concat(buffers)).error.None?
    requires Good(f, m) && (used < |buffers| ==> !Goes(Run(f, m, Concat(buffers[..used]))))
    ensures buffers[..used] == buffers
  {
    hide Run;
    if used < |buffers| {
      var a, s := Concat(buffers[..used]), Concat(buffers);
      ConcatNext(buffers, used);
      ConcatGrows(buffers, used);
      ConcatGrows(buffers, used + 1);
      assert a == s[..|a|] && |a| < |s|;
      RunPrefixError(f, m, s, a);
      RunGood(f, m, a);
    }
  }

  lemma RunNothing(f: Framing, m: Machine)
    ensures Run(f, m, "") == m
  {
  }

  lemma ScanStart(f: Framing, m: Machine, data: string)
    requires Good(f, m) && m.error.None?
    ensures Scanned(f, m, data, m, 0, None)
  {
    assert m == Delivered(m, data, None, 0);
  }

  lemma ScanEnd(f: Framing, m0: Machine, data: string, m: Machine, mark: Option<nat>)
    requires Scanned(f, m0, data, m, |data|, mark)
    ensures Run(f, m0, data) == Delivered(m, data, mark, |data|)
    ensures Good(f, Run(f, m0, data)) && (mark.None? ==> m == Run(f, m0, data))
  {
    assert data[..|data|] == data;
    GoodWithoutBody(f, m, m.body + Pending(data, mark, |data|));
    if mark.None? {
      assert m.body + "" == m.body;
    }
  }

  lemma StoppedFails(f: Framing, m0: Machine, data: string, m: Machine, n: nat)
    requires Stopped(f, m0, data, m, n)
    ensures m == Run(f, m0, data).(body := m.body) && m.error.Some?
  {
    hide Run;
    assert data == data[..n + 1] + data[n + 1..];
    RunConcat(f, m0, data[..n + 1], data[n + 1..]);
    RunError(f, Run(f, m0, data[..n + 1]), data[n + 1..]);
  }

  function Start(contentLength: nat, nread: nat): Machine {
    Machine(HeadersAlmostDone, contentLength, nread, false, None, "", [], false)
  }
}

/** WebSocket framing of crow/websocket.h: the header writer, the reader that goes through header, length,
    mask and payload in separate reads, and the reassembly of fragmented messages. */
module WebSocket {
  import opened Sequences

  type byte = n: nat | n < 256

  // ---------------------------------------------------------------- masking

  /** Exclusive or of the lowest n bits. */
  function XorBits(a: nat, b: nat, n: nat): (r: nat) {
    if n == 0 then 0 else 2 * XorBits(a / 2, b / 2, n - 1) + if a % 2 != b % 2 then 1 else 0
  }

  function Power2(n: nat): (r: nat)
    ensures r > 0
  {
    if n == 0 then 1 else 2 * Power2(n - 1)
  }

  lemma {:induction false} XorBitsBound(a: nat, b: nat, n: nat)
    ensures XorBits(a, b, n) < Power2(n)
  {
    if n > 0 {
      XorBitsBound(a / 2, b / 2, n - 1);
    }
  }

  lemma {:induction false} XorBitsTwice(a: nat, b: nat, n: nat)
    requires a < Power2(n)
    ensures XorBits(XorBits(a, b, n), b, n) == a
  {
    if n > 0 {
      XorBitsTwice(a / 2, b / 2, n - 1);
      var x := XorBits(a / 2, b / 2, n - 1);
      var bit := if a % 2 != b % 2 then 1 else 0;
      assert (2 * x + bit) / 2 == x && (2 * x + bit) % 2 == bit;
    }
  }

  lemma Power2Of8()
    ensures Power2(8) == 256
  {
    assert Power2(4) == 16;
  }

  function Xor(a: byte, b: byte): byte {
    XorBitsBound(a, b, 8);
    Power2Of8();
    XorBits(a, b, 8)
  }

  lemma XorTwice(a: byte, b: byte)
    ensures Xor(Xor(a, b), b) == a
  {
    Power2Of8();
    XorBitsTwice(a, b, 8);
  }

  /** The payload under a mask of four bytes. */
  function Masked(mask: seq<byte>, s: seq<byte>): seq<byte>
    requires |mask| == 4
  {
    seq(|s|, i requires 0 <= i < |s| => Xor(s[i], mask[i % 4]))
  }

  lemma MaskedTwice(mask: seq<byte>, s: seq<byte>)
    requires |mask| == 4
    ensures Masked(mask, Masked(mask, s)) == s
  {
    forall i | 0 <= i < |s|
      ensures Masked(mask, Masked(mask, s))[i] == s[i]
    {
      XorTwice(s[i], mask[i % 4]);
    }
  }

  // ---------------------------------------------------------------- lengths

  /** The n lowest bytes of v, most significant first. */
  function BigEndian(v: nat, n: nat): (r: seq<byte>)
    ensures |r| == n
  {
    if n == 0 then [] else BigEndian(v / 256, n - 1) + [v % 256]
  }

  function FromBigEndian(s: seq<byte>): nat {
    if s == [] then 0 else FromBigEndian(s[..|s| - 1]) * 256 + s[|s| - 1]
  }

  /** The least significant byte first, as the machine stores a number. */
  function LittleEndian(v: nat, n: nat): (r: seq<byte>)
    ensures |r| == n
  {
    if n == 0 then [] else [v % 256] + LittleEndian(v / 256, n - 1)
  }

  function FromLittleEndian(s: seq<byte>): nat {
    if s == [] then 0 else s[0] + 256 * FromLittleEndian(s[1..])
  }

  function Power256(n: nat): (r: nat)
    ensures r > 0
  {
    if n == 0 then 1 else 256 * Power256(n - 1)
  }

  lemma {:induction false} BigEndianRoundTrip(v: nat, n: nat)
    requires v < Power256(n)
    ensures FromBigEndian(BigEndian(v, n)) == v
  {
    if n > 0 {
      BigEndianRoundTrip(v / 256, n - 1);
      assert BigEndian(v, n)[..n - 1] == BigEndian(v / 256, n - 1);
    }
  }

  lemma {:induction false} FromBigEndianConcat(s: seq<byte>, t: seq<byte>)
    ensures FromBigEndian(s + t) == FromBigEndian(s) * Power256(|t|) + FromBigEndian(t)
  {
    if t == [] {
      assert s + t == s;
    } else {
      var front := t[..|t| - 1];
      FromBigEndianConcat(s, front);
      assert (s + t)[..|s + t| - 1] == s + front;
      Distribute(FromBigEndian(s), Power256(|front|), FromBigEndian(front));
    }
  }

  lemma Distribute(a: nat, b: nat, c: nat)
    ensures (a * b + c) * 256 == a * (256 * b) + c * 256
  {
  }

  lemma {:induction false} LittleEndianRoundTrip(s: seq<byte>)
    ensures LittleEndian(FromLittleEndian(s), |s|) == s
  {
    if s != [] {
      LittleEndianRoundTrip(s[1..]);
      LowestByte(s[0], FromLittleEndian(s[1..]));
    }
  }

  lemma LowestByte(b: byte, rest: nat)
    ensures (b + 256 * rest) % 256 == b && (b + 256 * rest) / 256 == rest
  {
  }

  lemma {:induction false} FromLittleEndianBound(s: seq<byte>)
    ensures FromLittleEndian(s) < Power256(|s|)
  {
    if s != [] {
      FromLittleEndianBound(s[1..]);
    }
  }

  lemma {:induction false} LittleEndianConcat(x: nat, y: nat, k: nat, m: nat)
    requires x < Power256(k)
    ensures LittleEndian(x + Power256(k) * y, k + m) == LittleEndian(x, k) + LittleEndian(y, m)
  {
    if k > 0 {
      var v, w := x + Power256(k) * y, x / 256 + Power256(k - 1) * y;
      Regroup(x, Power256(k - 1), y);
      LittleEndianConcat(x / 256, y, k - 1, m);
    }
  }

  lemma Regroup(x: nat, p: nat, y: nat)
    ensures (x + 256 * p * y) / 256 == x / 256 + p * y && (x + 256 * p * y) % 256 == x % 256
  {
    var q := p * y;
    assert 256 * p * y == 256 * q;
  }

  lemma {:induction false} BigEndianConcat(a: nat, b: nat, k: nat, m: nat)
    requires b < Power256(m)
    ensures BigEndian(a * Power256(m) + b, k + m) == BigEndian(a, k) + BigEndian(b, m)
    decreases m
  {
    hide BigEndian;
    BigEndianNone(b);
    if m > 0 {
      var p := Power256(m - 1);
      RegroupTop(a, p, b);
      BigEndianConcat(a, b / 256, k, m - 1);
      BigEndianLast(a * Power256(m) + b, k + m);
      BigEndianLast(b, m);
    }
  }

  lemma BigEndianNone(v: nat)
    ensures BigEndian(v, 0) == []
  {
  }

  lemma BigEndianLast(v: nat, n: nat)
    requires n > 0
    ensures BigEndian(v, n) == BigEndian(v / 256, n - 1) + [v % 256]
  {
  }

  lemma RegroupTop(a: nat, p: nat, b: nat)
    ensures (a * (256 * p) + b) / 256 == a * p + b / 256 && (a * (256 * p) + b) % 256 == b % 256
  {
    var q := a * p;
    assert a * (256 * p) == 256 * q;
  }

  /** htonl and ntohl on a little-endian machine; htons and ntohs likewise, on two bytes. */
  function Swap(x: nat, n: nat): nat {
    FromLittleEndian(BigEndian(x, n))
  }

  /** The number that the bytes of a number mean when they are taken most significant first. */
  function SwapBack(x: nat, n: nat): nat {
    FromBigEndian(LittleEndian(x, n))
  }

  const WORD: nat := 0x1_0000_0000

  lemma WordIsPower()
    ensures Power256(4) == WORD && Power256(2) == 0x1_0000 && Power256(8) == WORD * WORD
  {
    assert Power256(2) == 0x1_0000;
    assert Power256(6) == 0x1_0000_0000_0000;
  }

  /** The two swapped halves that build_header stores are the length, most significant byte first. */
  lemma StoredLength(size: nat)
    requires size < WORD * WORD
    ensures LittleEndian(Swap(size % WORD, 4) * WORD + Swap(size / WORD, 4), 8) == BigEndian(size, 8)
  {
    hide BigEndian, LittleEndian, FromLittleEndian;
    WordIsPower();
    var lo, hi := size % WORD, size / WORD;
    LittleEndianRoundTrip(BigEndian(lo, 4));
    LittleEndianRoundTrip(BigEndian(hi, 4));
    FromLittleEndianBound(BigEndian(hi, 4));
    LittleEndianConcat(Swap(hi, 4), Swap(lo, 4), 4, 4);
    BigEndianConcat(hi, lo, 4, 4);
  }

  /** The swap of the 64 bits that were read gives the number that the bytes spell. */
  lemma LoadedLength(s: seq<byte>)
    requires |s| == 8
    ensures var raw := FromLittleEndian(s);
            SwapBack(raw % WORD, 4) * WORD + SwapBack(raw / WORD, 4) == FromBigEndian(s)
  {
    hide BigEndian, LittleEndian, FromLittleEndian, FromBigEndian;
    WordIsPower();
    var a, b := s[..4], s[4..];
    assert s == a + b;
    LittleEndianRoundTrip(a);
    LittleEndianRoundTrip(b);
    FromLittleEndianBound(a);
    FromLittleEndianConcat(a, b);
    FromBigEndianConcat(a, b);
  }

  lemma {:induction false} FromLittleEndianConcat(s: seq<byte>, t: seq<byte>)
    ensures FromLittleEndian(s + t) == FromLittleEndian(s) + Power256(|s|) * FromLittleEndian(t)
  {
    if s == [] {
      assert s + t == t;
    } else {
      FromLittleEndianConcat(s[1..], t);
      assert (s + t)[1..] == s[1..] + t;
      Scale(FromLittleEndian(s[1..]), Power256(|s| - 1), FromLittleEndian(t));
    }
  }

  lemma Scale(a: nat, p: nat, b: nat)
    ensures 256 * (a + p * b) == 256 * a + 256 * p * b
  {
    var q := p * b;
    assert 256 * p * b == 256 * q;
  }

  // ---------------------------------------------------------------- frames

  /** A frame of section 5.2 of RFC 6455; the length may be written in 7 bits, or in 2 or 8 bytes. */
  datatype Frame = Frame(fin: bool, reserved: nat, opcode: nat, mask: Option<seq<byte>>, ext: nat, payload: seq<byte>)

  predicate GoodFrame(f: Frame) {
    f.reserved < 8 && f.opcode < 16 && (f.mask.Some? ==> |f.mask.value| == 4) &&
    ((f.ext == 0 && |f.payload| < 126) || (f.ext == 2 && |f.payload| < 0x1_0000) ||
     (f.ext == 8 && |f.payload| < WORD * WORD))
  }

  function Bit(b: bool): nat {
    if b then 1 else 0
  }

  function FirstByte(f: Frame): byte
    requires GoodFrame(f)
  {
    Bit(f.fin) * 128 + f.reserved * 16 + f.opcode
  }

  function SecondByte(f: Frame): byte
    requires GoodFrame(f)
  {
    Bit(f.mask.Some?) * 128 + if f.ext == 0 then |f.payload| else if f.ext == 2 then 126 else 127
  }

  function MaskBytes(f: Frame): seq<byte> {
    if f.mask.Some? then f.mask.value else []
  }

  /** The payload as it is sent. */
  function Wire(f: Frame): (w: seq<byte>)
    requires GoodFrame(f)
    ensures |w| == |f.payload|
  {
    if f.mask.Some? then Masked(f.mask.value, f.payload) else f.payload
  }

  function Header(f: Frame): (h: seq<byte>)
    requires GoodFrame(f)
    ensures |h| == 2 + f.ext
  {
    [FirstByte(f), SecondByte(f)] + BigEndian(|f.payload|, f.ext)
  }

  function Encode(f: Frame): seq<byte>
    requires GoodFrame(f)
  {
    Header(f) + MaskBytes(f) + Wire(f)
  }

  /** The unmasked final frame with the shortest length that the server sends. */
  function Sent(opcode: nat, payload: seq<byte>): Frame {
    Frame(true, 0, opcode, None, if |payload| < 126 then 0 else if |payload| < 0x1_0000 then 2 else 8, payload)
  }

  /** build_header: the header is filled into a buffer of ten bytes; numbers are stored as the machine
      stores them, after a swap. */
  method BuildHeader(opcode: nat, size: nat) returns (h: seq<byte>)
    requires opcode < 16 && size < WORD * WORD
    ensures forall payload: seq<byte> :: |payload| == size ==>
              GoodFrame(Sent(opcode, payload)) && h == Header(Sent(opcode, payload))
  {
    hide BigEndian, LittleEndian, FromLittleEndian, FromBigEndian;
    BigEndianNone(size);
    var buf := new byte[10](_ => 0);
    buf[0] := 0x80 + opcode;
    if size < 126 {
      buf[1] := buf[1] + size;
      return buf[..2];
    } else if size < 0x1_0000 {
      buf[1] := buf[1] + 126;
      LittleEndianRoundTrip(BigEndian(size, 2));
      Store(buf, Swap(size, 2), 2);
      assert buf[..4] == buf[..2] + buf[2..4];
      return buf[..4];
    } else {
      buf[1] := buf[1] + 127;
      StoredLength(size);
      Store(buf, Swap(size % WORD, 4) * WORD + Swap(size / WORD, 4), 8);
      assert buf[..10] == buf[..2] + buf[2..10];
      return buf[..10];
    }
  }

  /** A store of an n-byte number behind the first two bytes. */
  method Store(buf: array<byte>, v: nat, n: nat)
    requires n + 2 <= buf.Length
    modifies buf
    ensures buf[..2] == old(buf[..2]) && buf[2..2 + n] == LittleEndian(v, n)
  {
    var k, w := 0, v;
    while k < n
      invariant k <= n && buf[..2] == old(buf[..2])
      invariant buf[2..2 + k] + LittleEndian(w, n - k) == LittleEndian(v, n)
    {
      ghost var done, rest := buf[2..2 + k], LittleEndian(w / 256, n - k - 1);
      assert done + ([w % 256] + rest) == done + [w % 256] + rest;
      buf[2 + k] := w % 256;
      assert buf[2..2 + (k + 1)] == done + [w % 256];
      w := w / 256;
      k := k + 1;
    }
  }

  // ---------------------------------------------------------------- messages

  datatype Message = Message(data: seq<byte>, binary: bool)

  /** What a connection has seen: the message in progress, the messages given to the handler, the pongs
      it answered, and the end of the connection. */
  datatype Inbox = Inbox(
    message: seq<byte>, binary: bool, messages: seq<Message>, pongs: seq<seq<byte>>, pongReceived: bool, closed: bool)

  function Append(c: Inbox, fin: bool, data: seq<byte>): Inbox {
    var all := c.message + data;
    if fin then c.(message := [], messages := c.messages + [Message(all, c.binary)]) else c.(message := all)
  }

  /** handle_fragment on unmasked data; after a close frame nothing is read any more. */
  function Handle(c: Inbox, fin: bool, opcode: nat, data: seq<byte>): Inbox {
    match opcode
    case 0 => Append(c, fin, data)
    case 1 => Append(c.(binary := false), fin, data)
    case 2 => Append(c.(binary := true), fin, data)
    case 8 => c.(closed := true)
    case 9 => c.(pongs := c.pongs + [data])
    case 10 => c.(pongReceived := true)
    case _ => c
  }

  function HandleAll(c: Inbox, fs: seq<Frame>): Inbox {
    if fs == [] then c
    else
      var f := fs[|fs| - 1];
      Handle(HandleAll(c, fs[..|fs| - 1]), f.fin, f.opcode, f.payload)
  }

  // ---------------------------------------------------------------- the reader

  datatype ReadState = MiniHeader | Len16 | Len64 | Mask | Payload

  const BUFFER_SIZE: nat := 4096

  /** Where the parts of a frame at position i are. */
  lemma FrameLayout(s: seq<byte>, i: nat, f: Frame)
    requires GoodFrame(f) && At(s, i, Encode(f))
    ensures At(s, i, [FirstByte(f), SecondByte(f)]) && At(s, i + 2, BigEndian(|f.payload|, f.ext))
    ensures At(s, i + 2 + f.ext, MaskBytes(f)) && At(s, i + 2 + f.ext + |MaskBytes(f)|, Wire(f))
  {
    hide BigEndian, FirstByte, SecondByte, Wire, At;
    AtConcat(s, i, Header(f) + MaskBytes(f), Wire(f));
    AtConcat(s, i, Header(f), MaskBytes(f));
    AtConcat(s, i, [FirstByte(f), SecondByte(f)], BigEndian(|f.payload|, f.ext));
  }

  predicate GoodFrames(fs: seq<Frame>) {
    forall i :: 0 <= i < |fs| ==> GoodFrame(fs[i])
  }

  function EncodeAll(fs: seq<Frame>): seq<byte>
    requires GoodFrames(fs)
  {
    if fs == [] then [] else EncodeAll(fs[..|fs| - 1]) + Encode(fs[|fs| - 1])
  }

  lemma EncodeNone()
    ensures EncodeAll([]) == []
  {
  }

  lemma AtEnd(a: seq<byte>, b: seq<byte>)
    ensures At(a + b, |a|, b)
  {
  }

  lemma AtLonger(a: seq<byte>, b: seq<byte>, i: nat, t: seq<byte>)
    requires At(a, i, t)
    ensures At(a + b, i, t)
  {
  }

  lemma {:induction false} EncodeAllAt(fs: seq<Frame>, k: nat)
    requires GoodFrames(fs) && k < |fs|
    ensures At(EncodeAll(fs), |EncodeAll(fs[..k])|, Encode(fs[k]))
    ensures |EncodeAll(fs[..k + 1])| == |EncodeAll(fs[..k])| + |Encode(fs[k])|
    decreases |fs|
  {
    hide Encode, GoodFrame, At;
    var front := fs[..|fs| - 1];
    assert fs[..k + 1][..k] == fs[..k];
    if k == |fs| - 1 {
      assert fs[..k] == front;
      AtEnd(EncodeAll(front), Encode(fs[k]));
    } else {
      EncodeAllAt(front, k);
      assert front[..k] == fs[..k];
      AtLonger(EncodeAll(front), Encode(fs[|fs| - 1]), |EncodeAll(fs[..k])|, Encode(fs[k]));
      assert fs[..k + 1] == front[..k + 1];
    }
  }

  /** No frame is empty, so bytes are left while frames are left. */
  lemma EncodeAllShorter(fs: seq<Frame>, k: nat)
    requires GoodFrames(fs) && k < |fs|
    ensures |EncodeAll(fs[..k])| < |EncodeAll(fs)|
  {
    assert fs[..|fs|] == fs;
    EncodeAllGrows(fs, k);
    EncodeAllAt(fs, |fs| - 1);
  }

  lemma {:induction false} EncodeAllGrows(fs: seq<Frame>, k: nat)
    requires GoodFrames(fs) && k < |fs|
    ensures |EncodeAll(fs[..k])| <= |EncodeAll(fs[..|fs| - 1])|
    decreases |fs|
  {
    hide Encode, GoodFrame;
    var front := fs[..|fs| - 1];
    if k < |fs| - 1 {
      EncodeAllGrows(front, k);
      assert front[..k] == fs[..k];
    }
  }

  lemma HandleAllNext(c: Inbox, fs: seq<Frame>, k: nat)
    requires k < |fs|
    ensures HandleAll(c, fs[..k + 1]) == Handle(HandleAll(c, fs[..k]), fs[k].fin, fs[k].opcode, fs[k].payload)
  {
    assert fs[..k + 1][..k] == fs[..k];
  }

  function HeaderSize(f: Frame): nat {
    2 + f.ext + |MaskBytes(f)|
  }

  lemma EncodeSize(f: Frame)
    requires GoodFrame(f)
    ensures |Encode(f)| == HeaderSize(f) + |f.payload|
  {
  }

  /** What the reader had in hand when it handled a frame. */
  datatype Handled = Handled(fin: bool, opcode: nat, data: seq<byte>)

  function Contents(fs: seq<Frame>): seq<Handled> {
    seq(|fs|, i requires 0 <= i < |fs| => Handled(fs[i].fin, fs[i].opcode, fs[i].payload))
  }

  lemma ContentsNone()
    ensures Contents([]) == []
  {
  }

  lemma ContentsNext(fs: seq<Frame>, k: nat)
    requires k < |fs|
    ensures Contents(fs[..k + 1]) == Contents(fs[..k]) + [Handled(fs[k].fin, fs[k].opcode, fs[k].payload)]
  {
  }

  /** The first k frames are within the limit and close nothing. */
  predicate Passes(fs: seq<Frame>, k: nat, maxPayload: nat) {
    k <= |fs| && forall i :: 0 <= i < k ==> |fs[i].payload| <= maxPayload && fs[i].opcode != 8
  }

  /** How many frames are handled: up to the first close frame, or before the first that is too big. */
  function Reach(fs: seq<Frame>, maxPayload: nat): (n: nat)
    ensures n <= |fs|
  {
    if fs == [] || |fs[0].payload| > maxPayload then 0
    else if fs[0].opcode == 8 then 1
    else 1 + Reach(fs[1..], maxPayload)
  }

  /** The reader stops at a frame that is too big. */
  predicate Refuses(fs: seq<Frame>, maxPayload: nat) {
    var n := Reach(fs, maxPayload);
    n < |fs| && |fs[n].payload| > maxPayload && (n == 0 || fs[n - 1].opcode != 8)
  }

  lemma {:induction false} ReachFrom(fs: seq<Frame>, k: nat, maxPayload: nat)
    requires Passes(fs, k, maxPayload)
    ensures Reach(fs, maxPayload) == k + Reach(fs[k..], maxPayload)
    decreases k
  {
    if k == 0 {
      assert fs[0..] == fs;
    } else {
      assert forall i :: 0 <= i < k - 1 ==> fs[1..][i] == fs[i + 1];
      ReachFrom(fs[1..], k - 1, maxPayload);
      assert fs[1..][k - 1..] == fs[k..];
    }
  }

  lemma ReachHere(fs: seq<Frame>, k: nat, maxPayload: nat)
    requires Passes(fs, k, maxPayload) && k < |fs|
    ensures |fs[k].payload| > maxPayload ==> Reach(fs, maxPayload) == k && Refuses(fs, maxPayload)
    ensures |fs[k].payload| <= maxPayload && fs[k].opcode == 8 ==>
              Reach(fs, maxPayload) == k + 1 && !Refuses(fs, maxPayload)
  {
    ReachFrom(fs, k, maxPayload);
    assert fs[k..][0] == fs[k];
  }

  lemma ReachAll(fs: seq<Frame>, maxPayload: nat)
    requires Passes(fs, |fs|, maxPayload)
    ensures Reach(fs, maxPayload) == |fs| && fs[..|fs|] == fs && !Refuses(fs, maxPayload)
  {
    ReachFrom(fs, |fs|, maxPayload);
  }

  lemma HandleCloses(c: Inbox, f: Frame)
    ensures Handle(c, f.fin, f.opcode, f.payload).closed == (c.closed || f.opcode == 8)
  {
  }

  class FrameReader {
    const maxPayload: nat
    var state: ReadState
    var miniHeader: nat
    var remaining: nat
    var hasMask: bool
    var mask: seq<byte>
    var fragment: seq<byte>
    var inbox: Inbox
    var tooBig: bool
    ghost var log: seq<Handled>

    constructor (maxPayload: nat, inbox: Inbox)
      ensures Idle() && this.maxPayload == maxPayload && this.inbox == inbox && !tooBig && log == []
    {
      this.maxPayload := maxPayload;
      state, miniHeader, remaining, hasMask, mask := MiniHeader, 0, 0, false, [0, 0, 0, 0];
      fragment, tooBig, log := [], false, [];
      this.inbox := inbox;
    }

    /** Between two frames. */
    predicate Idle()
      reads this
    {
      state == MiniHeader && fragment == [] && |mask| == 4
    }

    predicate IsFin()
      reads this
    {
      miniHeader / 0x8000 % 2 == 1
    }

    function Opcode(): nat
      reads this
    {
      miniHeader / 0x100 % 16
    }

    /** The reader stands at pos inside a frame that starts at position start. */
    ghost predicate Inside(f: Frame, s: seq<byte>, start: nat, pos: nat)
      requires GoodFrame(f)
      reads this
    {
      |mask| == 4 && !tooBig && At(s, start, Encode(f)) &&
      (state != MiniHeader ==> IsFin() == f.fin && Opcode() == f.opcode && hasMask == f.mask.Some?) &&
      match state
      case MiniHeader => fragment == [] && pos == start
      case Len16 => fragment == [] && pos == start + 2 && f.ext == 2
      case Len64 => fragment == [] && pos == start + 2 && f.ext == 8
      case Mask => fragment == [] && pos == start + 2 + f.ext && remaining == |f.payload|
      case Payload =>
        pos == start + HeaderSize(f) + |fragment| && remaining + |fragment| == |f.payload| &&
        |f.payload| <= maxPayload && fragment == Wire(f)[..|fragment|] && (f.mask.Some? ==> mask == f.mask.value)
    }

    /** The frame is done: its final bit, opcode and payload were handled, and the reader waits for the
        next one, unless the connection was closed. */
    ghost predicate Past(f: Frame, start: nat, pos: nat, before: Inbox, logged: seq<Handled>)
      requires GoodFrame(f)
      reads this
    {
      Idle() && !tooBig && pos == start + |Encode(f)| && inbox == Handle(before, f.fin, f.opcode, f.payload) &&
      IsFin() == f.fin && Opcode() == f.opcode && log == logged + [Handled(f.fin, f.opcode, f.payload)]
    }

    method ReadMiniHeader(s: seq<byte>, pos: nat, ghost f: Frame)
      requires GoodFrame(f) && Inside(f, s, pos, pos) && state == MiniHeader
      modifies this
      ensures Inside(f, s, pos, pos + 2) && state != MiniHeader && state != Payload && inbox == old(inbox) &&
              log == old(log)
    {
      FrameLayout(s, pos, f);
      AtSlice(s, pos, [FirstByte(f), SecondByte(f)]);
      var first: nat, second: nat := s[pos..pos + 2][0], s[pos..pos + 2][1];
      MiniHeaderBits(f, first * 256 + second);
      miniHeader := first * 256 + second;
      hasMask := miniHeader / 0x80 % 2 == 1;
      if miniHeader % 0x80 == 127 {
        state := Len64;
      } else if miniHeader % 0x80 == 126 {
        state := Len16;
      } else {
        remaining := miniHeader % 0x80;
        state := Mask;
      }
    }

    method ReadLen16(s: seq<byte>, pos: nat, ghost f: Frame, ghost start: nat)
      requires GoodFrame(f) && Inside(f, s, start, pos) && state == Len16
      modifies this`remaining, this`state
      ensures Inside(f, s, start, pos + 2) && state == Mask
    {
      FrameLayout(s, start, f);
      AtSlice(s, pos, BigEndian(|f.payload|, 2));
      BigEndianRoundTrip(|f.payload|, 2) by {
        WordIsPower();
      }
      LittleEndianRoundTrip(s[pos..pos + 2]);
      remaining := SwapBack(FromLittleEndian(s[pos..pos + 2]), 2);
      state := Mask;
    }

    method ReadLen64(s: seq<byte>, pos: nat, ghost f: Frame, ghost start: nat)
      requires GoodFrame(f) && Inside(f, s, start, pos) && state == Len64
      modifies this`remaining, this`state
      ensures Inside(f, s, start, pos + 8) && state == Mask
    {
      FrameLayout(s, start, f);
      AtSlice(s, pos, BigEndian(|f.payload|, 8));
      WordIsPower();
      BigEndianRoundTrip(|f.payload|, 8);
      LoadedLength(s[pos..pos + 8]);
      var raw := FromLittleEndian(s[pos..pos + 8]);
      remaining := SwapBack(raw % WORD, 4) * WORD + SwapBack(raw / WORD, 4);
      state := Mask;
    }

    method ReadMask(s: seq<byte>, pos: nat, ghost f: Frame, ghost start: nat) returns (pos': nat)
      requires GoodFrame(f) && Inside(f, s, start, pos) && state == Mask
      modifies this
      ensures inbox == old(inbox) && log == old(log) && tooBig == (|f.payload| > maxPayload)
      ensures !tooBig ==> Inside(f, s, start, pos') && state == Payload
    {
      pos' := pos;
      if remaining > maxPayload {
        tooBig := true;
        return;
      }
      FrameLayout(s, start, f);
      if hasMask {
        AtSlice(s, pos, MaskBytes(f));
        mask := s[pos..pos + 4];
        pos' := pos + 4;
      }
      state := Payload;
    }

    /** One piece of the payload: the socket delivers piece bytes of those that were asked for. */
    method ReadPayload(s: seq<byte>, pos: nat, piece: nat, ghost f: Frame, ghost start: nat) returns (pos': nat)
      requires GoodFrame(f) && Inside(f, s, start, pos) && state == Payload
      modifies this
      ensures pos <= pos'
      ensures if remaining == 0 then Past(f, start, pos', old(inbox), old(log))
              else Inside(f, s, start, pos') && state == Payload && inbox == old(inbox) && log == old(log) &&
                   remaining < old(remaining)
    {
      hide Encode, Handle, At, Wire;
      EncodeSize(f);
      var toRead := if remaining < BUFFER_SIZE then remaining else BUFFER_SIZE;
      var n := if toRead == 0 then 0 else 1 + piece % toRead;
      FrameLayout(s, start, f);
      PieceAt(s, start + HeaderSize(f), Wire(f), |fragment|, n);
      fragment := fragment + s[pos..pos + n];
      remaining := remaining - n;
      pos' := pos + n;
      if remaining == 0 {
        assert Wire(f)[..|fragment|] == Wire(f);
        HandleFragment(f);
        state := MiniHeader;
      }
    }

    /** do_read, until the frame at pos has been handled or is refused for its length. */
    method ReadFrame(s: seq<byte>, pos: nat, pieces: nat -> nat, ghost f: Frame) returns (pos': nat)
      requires GoodFrame(f) && Idle() && !tooBig && At(s, pos, Encode(f))
      modifies this
      ensures tooBig == (|f.payload| > maxPayload)
      ensures if tooBig then inbox == old(inbox) && log == old(log) else Past(f, pos, pos', old(inbox), old(log))
    {
      hide Encode, Handle;
      ReadMiniHeader(s, pos, f);
      pos' := pos + 2;
      if state == Len16 {
        ReadLen16(s, pos', f, pos);
        pos' := pos' + 2;
      } else if state == Len64 {
        ReadLen64(s, pos', f, pos);
        pos' := pos' + 8;
      }
      pos' := ReadMask(s, pos', f, pos);
      if tooBig {
        return;
      }
      var more := true;
      while more
        invariant !tooBig
        invariant more ==> Inside(f, s, pos, pos') && state == Payload && inbox == old(inbox) && log == old(log)
        invariant !more ==> Past(f, pos, pos', old(inbox), old(log))
        decreases more, remaining
      {
        pos' := ReadPayload(s, pos', pieces(pos'), f, pos);
        more := remaining != 0;
      }
    }

    /** Everything that arrives, frame after frame, in any payload pieces: the reader handles the frames
        up to the first close frame, or up to the first frame above the payload limit, which it refuses. */
    method ReadAll(s: seq<byte>, pieces: nat -> nat, ghost fs: seq<Frame>)
      requires Idle() && !tooBig && !inbox.closed && GoodFrames(fs) && s == EncodeAll(fs)
      modifies this
      ensures var n := Reach(fs, maxPayload);
              inbox == HandleAll(old(inbox), fs[..n]) && log == old(log) + Contents(fs[..n]) &&
              tooBig == Refuses(fs, maxPayload)
    {
      hide HandleAll, EncodeAll, Encode, Handle, GoodFrame, Contents, Reach, Refuses;
      var pos := 0;
      ghost var k := 0;
      assert fs[..0] == [];
      EncodeNone();
      HandleNone(inbox);
      ContentsNone();
      while pos < |s|
        invariant k <= |fs| && pos == |EncodeAll(fs[..k])| && Idle() && !tooBig && !inbox.closed
        invariant inbox == HandleAll(old(inbox), fs[..k]) && log == old(log) + Contents(fs[..k])
        invariant Passes(fs, k, maxPayload)
        decreases |fs| - k
      {
        assert fs[..|fs|] == fs;
        EncodeAllAt(fs, k);
        HandleAllNext(old(inbox), fs, k);
        ContentsNext(fs, k);
        ReachHere(fs, k, maxPayload);
        ghost var before := inbox;
        pos := ReadFrame(s, pos, pieces, fs[k]);
        if tooBig {
          return;
        }
        HandleCloses(before, fs[k]);
        k := k + 1;
        if inbox.closed {
          return;
        }
      }
      if k < |fs| {
        EncodeAllShorter(fs, k);
      }
      ReachAll(fs, maxPayload);
    }

    /** The mask is taken off in place. */
    method Unmask()
      requires |mask| == 4
      modifies this`fragment
      ensures fragment == Masked(mask, old(fragment))
    {
      var i := 0;
      while i < |fragment|
        invariant i <= |fragment| == |old(fragment)|
        invariant forall k :: 0 <= k < i ==> fragment[k] == Xor(old(fragment)[k], mask[k % 4])
        invariant forall k :: i <= k < |fragment| ==> fragment[k] == old(fragment)[k]
      {
        fragment := fragment[i := Xor(fragment[i], mask[i % 4])];
        i := i + 1;
      }
    }

    method HandleFragment(ghost f: Frame)
      requires GoodFrame(f) && fragment == Wire(f) && |mask| == 4 && (f.mask.Some? ==> mask == f.mask.value)
      requires IsFin() == f.fin && Opcode() == f.opcode && hasMask == f.mask.Some?
      modifies this`fragment, this`inbox, this`log
      ensures fragment == [] && inbox == Handle(old(inbox), f.fin, f.opcode, f.payload)
      ensures log == old(log) + [Handled(f.fin, f.opcode, f.payload)]
    {
      if hasMask {
        Unmask();
        MaskedTwice(mask, f.payload);
      }
      assert fragment == f.payload;
      var op := Opcode();
      log := log + [Handled(IsFin(), op, fragment)];
      if op == 0 {
        AddFragment();
      } else if op == 1 {
        inbox := inbox.(binary := false);
        AddFragment();
      } else if op == 2 {
        inbox := inbox.(binary := true);
        AddFragment();
      } else if op == 8 {
        inbox := inbox.(closed := true);
      } else if op == 9 {
        inbox := inbox.(pongs := inbox.pongs + [fragment]);
      } else if op == 10 {
        inbox := inbox.(pongReceived := true);
      }
      fragment := [];
    }

    method AddFragment()
      modifies this`inbox
      ensures inbox == Append(old(inbox), IsFin(), fragment)
    {
      inbox := inbox.(message := inbox.message + fragment);
      if IsFin() {
        inbox := inbox.(messages := inbox.messages + [Message(inbox.message, inbox.binary)]);
        inbox := inbox.(message := []);
      }
    }
  }

  lemma PieceAt(s: seq<byte>, i: nat, w: seq<byte>, k: nat, n: nat)
    requires At(s, i, w) && k + n <= |w|
    ensures i + k + n <= |s| && w[..k] + s[i + k..i + k + n] == w[..k + n]
  {
    var piece := s[i + k..i + k + n];
    forall j | 0 <= j < |piece|
      ensures piece[j] == w[k + j]
    {
      assert s[i + (k + j)] == w[k + j];
    }
    assert piece == w[k..k + n];
  }

  /** The bits of the two header bytes, as the reader takes them. */
  lemma MiniHeaderBits(f: Frame, m: nat)
    requires GoodFrame(f) && m == FirstByte(f) as nat * 256 + SecondByte(f)
    ensures (m / 0x8000 % 2 == 1) == f.fin && m / 0x100 % 16 == f.opcode && (m / 0x80 % 2 == 1) == f.mask.Some?
    ensures m % 0x80 == if f.ext == 0 then |f.payload| else if f.ext == 2 then 126 else 127
  {
  }

  // ---------------------------------------------------------------- reassembly

  predicate IsControl(f: Frame) {
    f.opcode == 9 || f.opcode == 10
  }

  predicate AllControl(fs: seq<Frame>) {
    forall i :: 0 <= i < |fs| ==> IsControl(fs[i])
  }

  /** A fragment of a message, behind any pings and pongs. */
  datatype Part = Part(controls: seq<Frame>, data: Frame)

  function FramesOf(parts: seq<Part>): seq<Frame> {
    if parts == [] then []
    else FramesOf(parts[..|parts| - 1]) + parts[|parts| - 1].controls + [parts[|parts| - 1].data]
  }

  function DataOf(parts: seq<Part>): seq<byte> {
    if parts == [] then [] else DataOf(parts[..|parts| - 1]) + parts[|parts| - 1].data.payload
  }

  /** The fragments of a message as section 5.4 of RFC 6455 asks for them: the first one has the type,
      the last one is final. */
  predicate Fragmented(parts: seq<Part>, binary: bool) {
    parts != [] &&
    forall i :: 0 <= i < |parts| ==>
      AllControl(parts[i].controls) && parts[i].data.fin == (i == |parts| - 1) &&
      parts[i].data.opcode == if i > 0 then 0 else if binary then 2 else 1
  }

  function PingsOf(fs: seq<Frame>): seq<seq<byte>> {
    if fs == [] then []
    else PingsOf(fs[..|fs| - 1]) + if fs[|fs| - 1].opcode == 9 then [fs[|fs| - 1].payload] else []
  }

  lemma {:induction false} HandleAllConcat(c: Inbox, a: seq<Frame>, b: seq<Frame>)
    ensures HandleAll(c, a + b) == HandleAll(HandleAll(c, a), b)
  {
    hide Handle;
    if b == [] {
      assert a + b == a;
    } else {
      HandleAllConcat(c, a, b[..|b| - 1]);
      assert (a + b)[..|a + b| - 1] == a + b[..|b| - 1];
    }
  }

  lemma HandleOne(c: Inbox, f: Frame)
    ensures HandleAll(c, [f]) == Handle(c, f.fin, f.opcode, f.payload)
  {
    assert [f][..0] == [];
  }

  /** The message in progress and the messages so far, without what pings and pongs leave behind. */
  predicate SameMessages(c: Inbox, d: Inbox) {
    c.message == d.message && c.binary == d.binary && c.messages == d.messages && c.closed == d.closed
  }

  lemma {:induction false} ControlsPass(c: Inbox, fs: seq<Frame>)
    requires AllControl(fs)
    ensures SameMessages(HandleAll(c, fs), c)
  {
    if fs != [] {
      ControlsPass(c, fs[..|fs| - 1]);
    }
  }

  /** Every ping is answered with its own data, in order. */
  lemma {:induction false} PingsAnswered(c: Inbox, fs: seq<Frame>)
    ensures HandleAll(c, fs).pongs == c.pongs + PingsOf(fs)
  {
    if fs != [] {
      PingsAnswered(c, fs[..|fs| - 1]);
      PingAnswered(HandleAll(c, fs[..|fs| - 1]), fs[|fs| - 1]);
    }
  }

  lemma PingAnswered(c: Inbox, f: Frame)
    ensures Handle(c, f.fin, f.opcode, f.payload).pongs == c.pongs + if f.opcode == 9 then [f.payload] else []
  {
  }

  /** After the first k of the fragments, not all of them, the message is in progress. */
  lemma {:induction false} PartsInProgress(c: Inbox, parts: seq<Part>, binary: bool, k: nat)
    requires Fragmented(parts, binary) && k < |parts| && c.message == []
    ensures var d := HandleAll(c, FramesOf(parts[..k]));
            d.message == DataOf(parts[..k]) && d.messages == c.messages && d.closed == c.closed &&
            (k > 0 ==> d.binary == binary)
  {
    hide HandleAll;
    if k == 0 {
      assert parts[..0] == [];
      HandleNone(c);
    } else {
      PartsInProgress(c, parts, binary, k - 1);
      NextPart(c, parts, k - 1);
    }
  }

  lemma HandleNone(c: Inbox)
    ensures HandleAll(c, []) == c
  {
  }

  /** Fragment k and the controls before it. */
  lemma NextPart(c: Inbox, parts: seq<Part>, k: nat)
    requires k < |parts| && AllControl(parts[k].controls)
    ensures var d := HandleAll(c, FramesOf(parts[..k]));
            var f := parts[k].data;
            exists e :: SameMessages(e, d) &&
              HandleAll(c, FramesOf(parts[..k + 1])) == Handle(e, f.fin, f.opcode, f.payload)
    ensures DataOf(parts[..k + 1]) == DataOf(parts[..k]) + parts[k].data.payload
  {
    hide HandleAll, Handle;
    var front, p := parts[..k], parts[k];
    assert parts[..k + 1][..k] == front;
    var d := HandleAll(c, FramesOf(front));
    var e := HandleAll(d, p.controls);
    ControlsPass(d, p.controls);
    HandleAllConcat(c, FramesOf(front), p.controls);
    HandleAllConcat(c, FramesOf(front) + p.controls, [p.data]);
    HandleOne(e, p.data);
  }

  /** A fragmented message reaches the handler as a whole, with its type, and leaves nothing behind. */
  lemma MessageReassembled(c: Inbox, parts: seq<Part>, binary: bool)
    requires Fragmented(parts, binary) && c.message == []
    ensures var d := HandleAll(c, FramesOf(parts));
            d.message == [] && d.messages == c.messages + [Message(DataOf(parts), binary)] && d.closed == c.closed
  {
    hide HandleAll;
    var k := |parts| - 1;
    PartsInProgress(c, parts, binary, k);
    NextPart(c, parts, k);
    assert parts[..k + 1] == parts;
  }

  /** Messages sent one after the other, each in fragments of its own. */
  function FramesOfAll(all: seq<seq<Part>>): seq<Frame> {
    if all == [] then [] else FramesOfAll(all[..|all| - 1]) + FramesOf(all[|all| - 1])
  }

  /** The handler sees exactly the messages that were sent, in order, each with its type, however they
      are fragmented and whatever pings and pongs come in between. */
  lemma {:induction false} MessagesReassembled(c: Inbox, all: seq<seq<Part>>, ms: seq<Message>)
    requires |all| == |ms| && c.message == []
    requires forall i :: 0 <= i < |all| ==> Fragmented(all[i], ms[i].binary) && DataOf(all[i]) == ms[i].data
    ensures var d := HandleAll(c, FramesOfAll(all));
            d.message == [] && d.messages == c.messages + ms && d.closed == c.closed
  {
    hide HandleAll, Fragmented, DataOf;
    if all == [] {
      HandleNone(c);
    } else {
      var k := |all| - 1;
      MessagesReassembled(c, all[..k], ms[..k]);
      var d := HandleAll(c, FramesOfAll(all[..k]));
      MessageReassembled(d, all[k], ms[k].binary);
      HandleAllConcat(c, FramesOfAll(all[..k]), FramesOf(all[k]));
      assert ms == ms[..k] + [ms[k]];
    }
  }

  /** From bytes to messages: all frames of the messages, masked in any way and delivered in any payload
      pieces, give the handler exactly these messages. */
  method ReceiveMessages(
    maxPayload: nat, s: seq<byte>, pieces: nat -> nat, ghost all: seq<seq<Part>>, ghost ms: seq<Message>)
    returns (messages: seq<Message>, pongs: seq<seq<byte>>)
    requires |all| == |ms|
    requires forall i :: 0 <= i < |all| ==> Fragmented(all[i], ms[i].binary) && DataOf(all[i]) == ms[i].data
    requires GoodFrames(FramesOfAll(all)) && s == EncodeAll(FramesOfAll(all))
    requires forall i :: 0 <= i < |FramesOfAll(all)| ==> |FramesOfAll(all)[i].payload| <= maxPayload
    ensures messages == ms && pongs == PingsOf(FramesOfAll(all))
  {
    hide HandleAll, EncodeAll, Fragmented, PingsOf;
    var empty := Inbox([], false, [], [], false, false);
    var reader := new FrameReader(maxPayload, empty);
    NoCloseInMessages(all, ms);
    ReachAll(FramesOfAll(all), maxPayload);
    reader.ReadAll(s, pieces, FramesOfAll(all));
    MessagesReassembled(empty, all, ms);
    PingsAnswered(empty, FramesOfAll(all));
    messages, pongs := reader.inbox.messages, reader.inbox.pongs;
  }

  predicate NoClose(fs: seq<Frame>) {
    forall i :: 0 <= i < |fs| ==> fs[i].opcode != 8
  }

  lemma {:induction false} NoCloseInParts(parts: seq<Part>)
    requires forall i :: 0 <= i < |parts| ==> AllControl(parts[i].controls) && parts[i].data.opcode != 8
    ensures NoClose(FramesOf(parts))
  {
    if parts != [] {
      NoCloseInParts(parts[..|parts| - 1]);
    }
  }

  lemma {:induction false} NoCloseInMessages(all: seq<seq<Part>>, ms: seq<Message>)
    requires |all| == |ms| && forall i :: 0 <= i < |all| ==> Fragmented(all[i], ms[i].binary)
    ensures NoClose(FramesOfAll(all))
  {
    if all != [] {
      NoCloseInMessages(all[..|all| - 1], ms[..|all| - 1]);
      NoCloseInParts(all[|all| - 1]);
    }
  }

  /** The reader takes back what the writer sent: for every opcode and every length within the limit it
      finds the final bit, the opcode and the payload, and handles them. */
  method SendAndReceive(opcode: nat, payload: seq<byte>, maxPayload: nat, inbox: Inbox, pieces: nat -> nat)
    returns (fin: bool, op: nat, ghost data: seq<byte>, inbox': Inbox)
    requires opcode < 16 && |payload| < WORD * WORD && |payload| <= maxPayload
    ensures fin && op == opcode && data == payload && inbox' == Handle(inbox, fin, op, data)
  {
    var header := BuildHeader(opcode, |payload|);
    var f := Sent(opcode, payload);
    assert GoodFrame(f);
    var reader := new FrameReader(maxPayload, inbox);
    var s := header + payload;
    assert s == Encode(f) by {
      assert Header(f) + [] == Header(f);
    }
    var _ := reader.ReadFrame(s, 0, pieces, f);
    fin, op, inbox' := reader.IsFin(), reader.Opcode(), reader.inbox;
    data := reader.log[0].data;
  }
}

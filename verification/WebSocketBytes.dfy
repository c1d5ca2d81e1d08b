/** The bytes of a WebSocket frame, said without the functions that make them: masking bit by bit as
    section 5.3 of RFC 6455 defines it, lengths digit by digit, and the frames that section 5.7 of RFC 6455
    gives as examples. */
module WebSocketBytes {
  import opened Sequences
  import opened WebSocket

  // ---------------------------------------------------------------- masking

  /** Bit k of a number, the lowest bit first. */
  function BitAt(a: nat, k: nat): nat {
    a / Power2(k) % 2
  }

  lemma BitAbove(a: nat, k: nat)
    requires k > 0
    ensures BitAt(a, k) == BitAt(a / 2, k - 1)
  {
    var p := Power2(k - 1);
    DivideTwice(a, p);
  }

  lemma DivideTwice(a: nat, p: nat)
    requires p > 0
    ensures a / (2 * p) == a / 2 / p
  {
    var q := a / 2 / p;
    var r := a / 2 % p;
    assert a / 2 == q * p + r;
    assert a == (2 * p) * q + (2 * r + a % 2);
    Quotient(2 * p, q, 2 * r + a % 2);
  }

  lemma Quotient(d: nat, q: nat, r: nat)
    requires r < d
    ensures (d * q + r) / d == q
  {
    var x := d * q + r;
    assert x == d * (x / d) + x % d;
    if x / d < q {
      Larger(d, x / d + 1, q);
    } else if x / d > q {
      Larger(d, q + 1, x / d);
    }
  }

  lemma Larger(d: nat, a: nat, b: nat)
    requires a <= b
    ensures d * a <= d * b
  {
  }

  lemma {:induction false} XorBitsAt(a: nat, b: nat, n: nat, k: nat)
    requires k < n
    ensures BitAt(XorBits(a, b, n), k) == 1 <==> BitAt(a, k) != BitAt(b, k)
    decreases n
  {
    hide BitAt;
    var x := XorBits(a, b, n);
    if k > 0 {
      XorBitsAt(a / 2, b / 2, n - 1, k - 1);
      BitAbove(a, k);
      BitAbove(b, k);
      BitAbove(x, k);
      assert x / 2 == XorBits(a / 2, b / 2, n - 1);
    } else {
      LowestBit(a);
      LowestBit(b);
      LowestBit(x);
    }
  }

  lemma LowestBit(a: nat)
    ensures BitAt(a, 0) == a % 2
  {
  }

  /** A number below 2^n is known by its bits. */
  lemma {:induction false} SameBits(x: nat, y: nat, n: nat)
    requires x < Power2(n) && y < Power2(n) && forall k :: 0 <= k < n ==> BitAt(x, k) == BitAt(y, k)
    ensures x == y
  {
    hide BitAt;
    if n > 0 {
      forall k | 0 <= k < n - 1
        ensures BitAt(x / 2, k) == BitAt(y / 2, k)
      {
        BitAbove(x, k + 1);
        BitAbove(y, k + 1);
      }
      SameBits(x / 2, y / 2, n - 1);
      LowestBit(x);
      LowestBit(y);
      assert BitAt(x, 0) == BitAt(y, 0);
    }
  }

  /** A byte is the exclusive or of two bytes if and only if its bits are set exactly where theirs differ. */
  lemma XorExactly(a: byte, b: byte, x: byte)
    ensures x == Xor(a, b) <==> forall k :: 0 <= k < 8 ==> (BitAt(x, k) == 1 <==> BitAt(a, k) != BitAt(b, k))
  {
    hide XorBits;
    forall k | 0 <= k < 8
      ensures BitAt(Xor(a, b), k) == 1 <==> BitAt(a, k) != BitAt(b, k)
    {
      XorBitsAt(a, b, 8, k);
    }
    if forall k :: 0 <= k < 8 ==> (BitAt(x, k) == 1 <==> BitAt(a, k) != BitAt(b, k)) {
      Power2Of8();
      forall k | 0 <= k < 8
        ensures BitAt(x, k) == BitAt(Xor(a, b), k)
      {
        assert BitAt(x, k) == 1 <==> BitAt(a, k) != BitAt(b, k);
      }
      SameBits(x, Xor(a, b), 8);
    }
  }

  lemma XorOfThree(a: byte, b: byte, c: byte)
    ensures c == Xor(a, b) <==> b == Xor(a, c)
  {
    XorExactly(a, b, c);
    XorExactly(a, c, b);
    BitsAreTwo(a);
    BitsAreTwo(b);
    BitsAreTwo(c);
  }

  lemma BitsAreTwo(a: byte)
    ensures forall k :: 0 <= k < 8 ==> BitAt(a, k) == 0 || BitAt(a, k) == 1
  {
  }

  lemma ZeroMask(b: byte)
    ensures Xor(0, b) == b && Xor(b, 0) == b
  {
    XorExactly(0, b, b);
    XorExactly(b, 0, b);
    forall k | 0 <= k < 8
      ensures BitAt(0, k) == 0
    {
    }
    BitsAreTwo(b);
  }

  /** Byte i of a masked payload differs from the payload in exactly the bits of mask byte i modulo 4, so
      what is sent and what is meant give the mask away. */
  lemma MaskedBits(mask: seq<byte>, s: seq<byte>, w: seq<byte>)
    requires |mask| == 4 && |w| == |s|
    ensures w == Masked(mask, s) <==>
            forall i, k :: 0 <= i < |s| && 0 <= k < 8 ==>
              (BitAt(w[i], k) == 1 <==> BitAt(s[i], k) != BitAt(mask[i % 4], k))
    ensures w == Masked(mask, s) <==> forall i :: 0 <= i < |s| ==> mask[i % 4] == Xor(s[i], w[i])
  {
    hide BitAt, Xor;
    forall i | 0 <= i < |s|
      ensures w[i] == Xor(s[i], mask[i % 4]) <==>
              forall k :: 0 <= k < 8 ==> (BitAt(w[i], k) == 1 <==> BitAt(s[i], k) != BitAt(mask[i % 4], k))
      ensures w[i] == Xor(s[i], mask[i % 4]) <==> mask[i % 4] == Xor(s[i], w[i])
    {
      XorExactly(s[i], mask[i % 4], w[i]);
      XorOfThree(s[i], mask[i % 4], w[i]);
    }
  }

  // ---------------------------------------------------------------- lengths

  /** Byte k of a length: its digit to the base 256, the most significant one first. */
  lemma {:induction false} LengthByte(v: nat, n: nat, k: nat)
    requires k < n
    ensures BigEndian(v, n)[k] == v / Power256(n - 1 - k) % 256
    decreases n
  {
    if k < n - 1 {
      LengthByte(v / 256, n - 1, k);
      DivideBy256(v, Power256(n - 2 - k));
    }
  }

  lemma DivideBy256(v: nat, p: nat)
    requires p > 0
    ensures v / (256 * p) == v / 256 / p
  {
    var q := v / 256 / p;
    var r := v / 256 % p;
    assert v / 256 == q * p + r;
    assert v == (256 * p) * q + (256 * r + v % 256);
    Quotient(256 * p, q, 256 * r + v % 256);
  }

  // ---------------------------------------------------------------- the examples of RFC 6455

  const Hello: seq<byte> := [0x48, 0x65, 0x6C, 0x6C, 0x6F]

  const HelloMask: seq<byte> := [0x37, 0xFA, 0x21, 0x3D]

  lemma HelloByte0()
    ensures XorBits(0x48, 0x37, 8) == 0x7F
  {
    assert XorBits(0x4, 0x3, 4) == 0x7;
  }

  lemma HelloByte1()
    ensures XorBits(0x65, 0xFA, 8) == 0x9F
  {
    assert XorBits(0x6, 0xF, 4) == 0x9;
  }

  lemma HelloByte2()
    ensures XorBits(0x6C, 0x21, 8) == 0x4D
  {
    assert XorBits(0x6, 0x2, 4) == 0x4;
  }

  lemma HelloByte3()
    ensures XorBits(0x6C, 0x3D, 8) == 0x51
  {
    assert XorBits(0x6, 0x3, 4) == 0x5;
  }

  lemma HelloByte4()
    ensures XorBits(0x6F, 0x37, 8) == 0x58
  {
    assert XorBits(0x6, 0x3, 4) == 0x5;
  }

  lemma HelloMasked()
    ensures Masked(HelloMask, Hello) == [0x7F, 0x9F, 0x4D, 0x51, 0x58]
  {
    hide XorBits;
    HelloByte0();
    HelloByte1();
    HelloByte2();
    HelloByte3();
    HelloByte4();
  }

  /** Section 5.7 of RFC 6455: the eleven bytes of a masked text frame reach the handler as "Hello". */
  method ReceiveHello(pieces: nat -> nat) returns (messages: seq<Message>)
    ensures messages == [Message(Hello, false)]
  {
    var bytes: seq<byte> := [0x81, 0x85, 0x37, 0xFA, 0x21, 0x3D, 0x7F, 0x9F, 0x4D, 0x51, 0x58];
    ghost var f := Frame(true, 0, 1, Some(HelloMask), 0, Hello);
    HelloMasked();
    HelloBytes(f);
    var reader := new FrameReader(5, Inbox([], false, [], [], false, false));
    var _ := reader.ReadFrame(bytes, 0, pieces, f);
    assert [] + Hello == Hello;
    return reader.inbox.messages;
  }

  lemma HelloBytes(f: Frame)
    requires f == Frame(true, 0, 1, Some(HelloMask), 0, Hello)
    ensures GoodFrame(f) && Encode(f) == [0x81, 0x85, 0x37, 0xFA, 0x21, 0x3D, 0x7F, 0x9F, 0x4D, 0x51, 0x58]
  {
    HelloMasked();
    BigEndianNone(5);
    assert Header(f) == [0x81, 0x85];
  }

  /** The unmasked frames of section 5.7 of RFC 6455 that a server sends: 5, 256 and 65536 bytes of payload,
      each with the shortest length. */
  method SendExamples() returns (text: seq<byte>, binary: seq<byte>, large: seq<byte>)
    ensures text == [0x81, 0x05]
    ensures binary == [0x82, 0x7E, 0x01, 0x00]
    ensures large == [0x82, 0x7F, 0x00, 0x00, 0x00, 0x00, 0x00, 0x01, 0x00, 0x00]
  {
    hide BigEndian;
    BigEndianNone(5);
    SixteenBits();
    SixtyFourBits();
    text := BuildHeader(1, 5);
    assert text == Header(Sent(1, seq(5, _ => 0)));
    binary := BuildHeader(2, 256);
    assert binary == Header(Sent(2, seq(256, _ => 0)));
    large := BuildHeader(2, 65536);
    assert large == Header(Sent(2, seq(65536, _ => 0)));
  }

  lemma SixteenBits()
    ensures BigEndian(256, 2) == [1, 0]
  {
    BigEndianNone(0);
  }

  lemma SixtyFourBits()
    ensures BigEndian(65536, 8) == [0, 0, 0, 0, 0, 1, 0, 0]
  {
    ZeroBytes(5);
    BigEndianLast(65536, 8);
    BigEndianLast(256, 7);
    BigEndianLast(1, 6);
  }

  lemma {:induction false} ZeroBytes(n: nat)
    ensures BigEndian(0, n) == seq(n, _ => 0)
  {
    if n > 0 {
      ZeroBytes(n - 1);
    }
  }
}

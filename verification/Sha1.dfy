/** SHA-1 as crow/TinySHA1.hpp computes it byte by byte, against the definition of FIPS 180-4. */
module Sha1 {

  type Byte = bv8
  type Word = bv32

  datatype Hash = Hash(a: Word, b: Word, c: Word, d: Word, e: Word)

  // ---------------------------------------------------------------- the standard

  /** ROTL of section 3.2 */
  function RotL(x: Word, n: nat): Word
    requires 0 < n < 32
  {
    (x << n) | (x >> (32 - n))
  }

  /** The functions of section 4.1.1 */
  function F(t: nat, x: Word, y: Word, z: Word): Word {
    if t < 20 then (x & y) ^ (!x & z)
    else if 40 <= t < 60 then (x & y) ^ (x & z) ^ (y & z)
    else x ^ y ^ z
  }

  /** The constants of section 4.2.1 */
  function K(t: nat): Word {
    if t < 20 then 0x5A827999 else if t < 40 then 0x6ED9EBA1 else if t < 60 then 0x8F1BBCDC else 0xCA62C1D6
  }

  /** Four bytes, the first one most significant. */
  function ToWord(a: Byte, b: Byte, c: Byte, d: Byte): Word {
    (a as Word << 24) | (b as Word << 16) | (c as Word << 8) | (d as Word)
  }

  /** The message schedule of section 6.1.2, step 1 */
  function Schedule(block: seq<Byte>, t: nat): Word
    requires |block| == 64
  {
    if t < 16 then ToWord(block[4 * t], block[4 * t + 1], block[4 * t + 2], block[4 * t + 3])
    else
      RotL(Xor4(Schedule(block, t - 3), Schedule(block, t - 8), Schedule(block, t - 14), Schedule(block, t - 16)), 1)
  }

  function Xor4(a: Word, b: Word, c: Word, d: Word): Word {
    a ^ b ^ c ^ d
  }

  function Sum5(a: Word, f: Word, e: Word, k: Word, w: Word): Word {
    a + f + e + k + w
  }

  /** Step 3 for one t */
  function Round(t: nat, h: Hash, w: Word): Hash {
    Hash(Sum5(RotL(h.a, 5), F(t, h.b, h.c, h.d), h.e, K(t), w), h.a, RotL(h.b, 30), h.c, h.d)
  }

  function Rounds(block: seq<Byte>, h: Hash, n: nat): Hash
    requires |block| == 64
  {
    if n == 0 then h else Round(n - 1, Rounds(block, h, n - 1), Schedule(block, n - 1))
  }

  function Plus(x: Word, y: Word): Word {
    x + y
  }

  /** Step 4 */
  function Sum(g: Hash, h: Hash): Hash {
    Hash(Plus(g.a, h.a), Plus(g.b, h.b), Plus(g.c, h.c), Plus(g.d, h.d), Plus(g.e, h.e))
  }

  function Compress(h: Hash, block: seq<Byte>): Hash
    requires |block| == 64
  {
    Sum(h, Rounds(block, h, 80))
  }

  /** The initial value of section 5.3.1 */
  function Initial(): Hash {
    Hash(0x67452301, 0xEFCDAB89, 0x98BADCFE, 0x10325476, 0xC3D2E1F0)
  }

  /** The hash after the first n blocks. */
  function Blocks(s: seq<Byte>, n: nat): Hash
    requires 64 * n <= |s|
  {
    if n == 0 then Initial() else Compress(Blocks(s, n - 1), s[64 * (n - 1)..64 * n])
  }

  function Zeros(n: nat): seq<Byte> {
    seq(n, _ => 0)
  }

  /** The n lowest bytes of v, most significant first. */
  function BigEndian(v: nat, n: nat): (r: seq<Byte>)
    ensures |r| == n
  {
    if n == 0 then [] else BigEndian(v / 256, n - 1) + [(v % 256) as Byte]
  }

  /** The number of zero bytes between the bit 1 and the length. */
  function Gap(n: nat): (k: nat)
    ensures k < 64 && (n + 1 + k) % 64 == 56
  {
    (119 - n % 64) % 64
  }

  /** The padding of section 5.1.1, to whole blocks */
  function Padded(s: seq<Byte>): (r: seq<Byte>)
    ensures |r| % 64 == 0
  {
    WholeBlocks(|s| + 1 + Gap(|s|));
    s + [0x80] + Zeros(Gap(|s|)) + BigEndian(8 * |s|, 8)
  }

  lemma WholeBlocks(n: nat)
    requires n % 64 == 56
    ensures (n + 8) % 64 == 0
  {
  }

  function Digest(s: seq<Byte>): Hash {
    Blocks(Padded(s), |Padded(s)| / 64)
  }

  // ---------------------------------------------------------------- the operations on words

  /** Room for sums of words without overflow. */
  type Wide = bv64

  /** A word is the number that its bytes spell to the base 256, the first one most significant. */
  lemma WordNumber(a: Byte, b: Byte, c: Byte, d: Byte)
    ensures ToWord(a, b, c, d) as Wide == ((a as Wide * 256 + b as Wide) * 256 + c as Wide) * 256 + d as Wide
  {
  }

  /** Addition of section 3.2 is addition modulo 2^32. */
  lemma PlusModulo(x: Word, y: Word)
    ensures Plus(x, y) as Wide == (x as Wide + y as Wide) % 0x1_0000_0000
  {
  }

  lemma SumModulo(a: Word, f: Word, e: Word, k: Word, w: Word)
    ensures Sum5(a, f, e, k, w) as Wide ==
            (a as Wide + f as Wide + e as Wide + k as Wide + w as Wide) % 0x1_0000_0000
  {
  }

  /** The rotations that are used: what leaves a word at the top comes back at the bottom. */
  lemma RotateByOne(x: Word)
    ensures RotL(x, 1) as Wide == (x as Wide << 1) % 0x1_0000_0000 + (x as Wide << 1) / 0x1_0000_0000
  {
  }

  lemma RotateByFive(x: Word)
    ensures RotL(x, 5) as Wide == (x as Wide << 5) % 0x1_0000_0000 + (x as Wide << 5) / 0x1_0000_0000
  {
  }

  lemma RotateByThirty(x: Word)
    ensures RotL(x, 30) as Wide == (x as Wide << 30) % 0x1_0000_0000 + (x as Wide << 30) / 0x1_0000_0000
  {
  }

  /** Ch takes the bits of y where x is set and those of z elsewhere. */
  lemma ChooseBits(t: nat, x: Word, y: Word, z: Word)
    requires t < 20
    ensures F(t, x, y, z) & x == y & x && F(t, x, y, z) & !x == z & !x
  {
  }

  /** Maj takes the bit that two of the three have. */
  lemma MajorityBits(t: nat, x: Word, y: Word, z: Word)
    requires 40 <= t < 60
    ensures F(t, x, y, z) & !(x ^ y) == x & !(x ^ y) && F(t, x, y, z) & (x ^ y) == z & (x ^ y)
  {
  }

  // ---------------------------------------------------------------- the code's forms

  /** The function of a round as the code writes it. */
  function Mixed(t: nat, x: Word, y: Word, z: Word): Word {
    if t < 20 then Choose(x, y, z) else if 40 <= t < 60 then Majority(x, y, z) else Parity(x, y, z)
  }

  function Choose(x: Word, y: Word, z: Word): Word {
    (x & y) | (!x & z)
  }

  function Majority(x: Word, y: Word, z: Word): Word {
    (x & y) | (x & z) | (y & z)
  }

  function Parity(x: Word, y: Word, z: Word): Word {
    x ^ y ^ z
  }

  lemma MixedForm(t: nat, x: Word, y: Word, z: Word)
    ensures Mixed(t, x, y, z) == F(t, x, y, z)
  {
    assert (x & y) | (!x & z) == (x & y) ^ (!x & z);
    assert (x & y) | (x & z) | (y & z) == (x & y) ^ (x & z) ^ (y & z);
  }

  /** LeftRotate, with an exclusive or */
  function LeftRotate(x: Word, n: nat): Word
    requires 0 < n < 32
  {
    (x << n) ^ (x >> (32 - n))
  }

  lemma RotateForm(x: Word)
    ensures LeftRotate(x, 1) == RotL(x, 1) && LeftRotate(x, 5) == RotL(x, 5) && LeftRotate(x, 30) == RotL(x, 30)
  {
  }

  lemma {:induction false} BlocksPrefix(s: seq<Byte>, t: seq<Byte>, n: nat)
    requires 64 * n <= |s|
    ensures Blocks(s + t, n) == Blocks(s, n)
  {
    hide Compress;
    if n > 0 {
      BlocksPrefix(s, t, n - 1);
      assert (s + t)[64 * (n - 1)..64 * n] == s[64 * (n - 1)..64 * n];
    }
  }

  lemma BlocksNext(s: seq<Byte>, n: nat)
    requires 64 * (n + 1) == |s|
    ensures Blocks(s, n + 1) == Compress(Blocks(s, n), s[64 * n..])
  {
    hide Compress;
    assert s[64 * n..64 * (n + 1)] == s[64 * n..];
  }

  lemma ScheduleFirst(block: seq<Byte>, t: nat)
    requires |block| == 64 && t < 16
    ensures Schedule(block, t) == ToWord(block[4 * t], block[4 * t + 1], block[4 * t + 2], block[4 * t + 3])
  {
  }

  lemma ScheduleLater(block: seq<Byte>, t: nat)
    requires |block| == 64 && t >= 16
    ensures Schedule(block, t) ==
            RotL(Xor4(Schedule(block, t - 3), Schedule(block, t - 8), Schedule(block, t - 14), Schedule(block,
              t - 16)), 1)
  {
    hide Xor4, RotL;
  }

  lemma GapFrom(n: nat)
    ensures var index := (n + 1) % 64;
            Gap(n) == if index > 56 then 64 - index + 56 else 56 - index
  {
  }

  lemma ZerosNone()
    ensures Zeros(0) == []
  {
  }

  lemma ZerosNext(n: nat)
    ensures Zeros(n + 1) == Zeros(n) + [0]
  {
  }

  lemma NextIndex(n: nat)
    ensures (n + 1) % 64 == if n % 64 == 63 then 0 else n % 64 + 1
  {
  }

  lemma TwoFills(s: seq<Byte>, m: nat, n: nat)
    ensures s + Zeros(m) + Zeros(n) == s + Zeros(m + n)
  {
    hide Zeros;
    ZerosConcat(m, n);
    assert s + Zeros(m) + Zeros(n) == s + (Zeros(m) + Zeros(n));
  }

  lemma ZerosConcat(m: nat, n: nat)
    ensures Zeros(m) + Zeros(n) == Zeros(m + n)
  {
  }

  /** The padding that the code writes: only 32 bits of the length. */
  function Finished(s: seq<Byte>): seq<Byte> {
    s + [0x80] + Zeros(Gap(|s|)) + [0, 0, 0, 0] + LowBytes(8 * |s|)
  }

  function LowBytes(v: nat): (r: seq<Byte>)
    ensures |r| == 4
  {
    [(v / 0x100_0000 % 256) as Byte, (v / 0x1_0000 % 256) as Byte, (v / 0x100 % 256) as Byte, (v % 256) as Byte]
  }

  lemma LowBytesAre(v: nat)
    ensures BigEndian(v, 4) == LowBytes(v)
  {
    assert v / 256 / 256 == v / 0x1_0000 && v / 0x1_0000 / 256 == v / 0x100_0000;
    assert BigEndian(v, 4) == BigEndian(v / 256, 3) + [(v % 256) as Byte];
    assert BigEndian(v / 256, 3) == BigEndian(v / 256 / 256, 2) + [(v / 256 % 256) as Byte];
    assert BigEndian(v / 0x1_0000, 2) == BigEndian(v / 0x1_0000 / 256, 1) + [(v / 0x1_0000 % 256) as Byte];
    assert BigEndian(v / 0x100_0000, 1) == [] + [(v / 0x100_0000 % 256) as Byte];
  }

  lemma {:induction false} BigEndianSplit(v: nat, n: nat)
    ensures BigEndian(v, n + 4) == BigEndian(v / 0x1_0000_0000, n) + BigEndian(v, 4)
  {
    assert v / 256 / 256 / 256 / 256 == v / 0x1_0000_0000;
    var v1, v2, v3 := v / 256, v / 256 / 256, v / 256 / 256 / 256;
    BigEndianLast(v, n + 4);
    BigEndianLast(v1, n + 3);
    BigEndianLast(v2, n + 2);
    BigEndianLast(v3, n + 1);
    BigEndianLast(v, 4);
    BigEndianLast(v1, 3);
    BigEndianLast(v2, 2);
    BigEndianLast(v3, 1);
    BigEndianNone(v3 / 256);
    Reassociate(BigEndian(v3 / 256, n), (v3 % 256) as Byte, (v2 % 256) as Byte, (v1 % 256) as Byte, (v % 256) as Byte);
  }

  lemma BigEndianNone(v: nat)
    ensures BigEndian(v, 0) == []
  {
  }

  lemma BigEndianLast(v: nat, n: nat)
    requires n > 0
    ensures BigEndian(v, n) == BigEndian(v / 256, n - 1) + [(v % 256) as Byte]
  {
  }

  lemma Reassociate(s: seq<Byte>, a: Byte, b: Byte, c: Byte, d: Byte)
    ensures s + [a] + [b] + [c] + [d] == s + ([] + [a] + [b] + [c] + [d])
  {
  }

  lemma ByteIsZero(n: nat)
    requires n < 256
    ensures n as Byte == 0 <==> n == 0
  {
    assert (n as Byte) as nat == n;
  }

  lemma LowBytesZero(u: nat)
    requires u < 0x1_0000_0000
    ensures LowBytes(u) == [0, 0, 0, 0] <==> u == 0
  {
    ByteIsZero(u / 0x100_0000 % 256);
    ByteIsZero(u / 0x1_0000 % 256);
    ByteIsZero(u / 0x100 % 256);
    ByteIsZero(u % 256);
  }

  /** The code pads as the standard does exactly when the message is shorter than 2^29 bytes. */
  lemma PaddingExact(s: seq<Byte>)
    requires |s| < 0x2000_0000_0000_0000
    ensures Finished(s) == Padded(s) <==> |s| < 0x2000_0000
  {
    hide BigEndian, LowBytes;
    var v, u := 8 * |s|, 8 * |s| / 0x1_0000_0000;
    BigEndianSplit(v, 4);
    LowBytesAre(v);
    LowBytesAre(u);
    LowBytesZero(u);
    var front := s + [0x80] + Zeros(Gap(|s|));
    SameTail(front, [0, 0, 0, 0], LowBytes(u), LowBytes(v));
  }

  lemma SameTail(front: seq<Byte>, a: seq<Byte>, b: seq<Byte>, c: seq<Byte>)
    requires |a| == |b|
    ensures front + a + c == front + (b + c) <==> a == b
  {
    var x, y := front + a + c, front + (b + c);
    assert x[|front|..|front| + |a|] == a && y[|front|..|front| + |a|] == b;
    if a == b {
      assert x == y;
    }
  }

  function Concat(ss: seq<seq<Byte>>): seq<Byte> {
    if ss == [] then [] else Concat(ss[..|ss| - 1]) + ss[|ss| - 1]
  }

  /** However a message is split over calls, its digest is that of the standard. */
  method HashAll(pieces: seq<seq<Byte>>) returns (r: Hash)
    requires |Concat(pieces)| < 0x2000_0000
    ensures r == Digest(Concat(pieces))
  {
    hide Blocks, BigEndian, LowBytes;
    var hasher := new Hasher();
    var i := 0;
    assert pieces[..0] == [];
    while i < |pieces|
      invariant i <= |pieces| && hasher.Valid() && hasher.fed == Concat(pieces[..i])
      invariant fresh(hasher) && fresh(hasher.digest) && fresh(hasher.block)
    {
      hasher.ProcessBytes(pieces[i]);
      assert pieces[..i + 1][..i] == pieces[..i];
      i := i + 1;
    }
    assert pieces[..i] == pieces;
    PaddingExact(Concat(pieces));
    r := hasher.GetDigest();
  }

  class Hasher {
    const digest: array<Word>
    const block: array<Byte>
    var blockByteIndex: nat
    var byteCount: nat
    ghost var fed: seq<Byte>

    /** The bytes fed so far: whole blocks are in the digest, the rest is in the block. */
    ghost predicate Valid()
      reads this, digest, block
    {
      digest.Length == 5 && block.Length == 64 &&
      byteCount == |fed| && blockByteIndex == |fed| % 64 &&
      block[..blockByteIndex] == fed[|fed| - blockByteIndex..] &&
      Value() == Blocks(fed, |fed| / 64)
    }

    ghost function Value(): Hash
      requires digest.Length == 5
      reads digest
    {
      Hash(digest[0], digest[1], digest[2], digest[3], digest[4])
    }

    constructor ()
      ensures Valid() && fed == [] && fresh(digest) && fresh(block)
    {
      digest := new Word[5];
      block := new Byte[64];
      blockByteIndex, byteCount, fed := 0, 0, [];
      new;
      digest[0], digest[1], digest[2], digest[3], digest[4] :=
        0x67452301, 0xEFCDAB89, 0x98BADCFE, 0x10325476, 0xC3D2E1F0;
    }

    /** The two loops that fill the schedule. */
    method FillSchedule() returns (w: array<Word>)
      requires block.Length == 64
      ensures fresh(w) && w.Length == 80 && forall t :: 0 <= t < 80 ==> w[t] == Schedule(block[..], t)
    {
      hide ToWord, Schedule;
      w := new Word[80];
      var i := 0;
      while i < 16
        invariant i <= 16 && forall t :: 0 <= t < i ==> w[t] == Schedule(block[..], t)
      {
        ScheduleFirst(block[..], i);
        w[i] := ToWord(block[i * 4], block[i * 4 + 1], block[i * 4 + 2], block[i * 4 + 3]);
        i := i + 1;
      }
      ExtendSchedule(w);
    }

    method ExtendSchedule(w: array<Word>)
      requires block.Length == 64 && w.Length == 80 && forall t :: 0 <= t < 16 ==> w[t] == Schedule(block[..], t)
      modifies w
      ensures forall t :: 0 <= t < 80 ==> w[t] == Schedule(block[..], t)
    {
      hide Schedule, RotL, LeftRotate, Xor4;
      var i := 16;
      while i < 80
        invariant 16 <= i <= 80 && forall t :: 0 <= t < i ==> w[t] == Schedule(block[..], t)
      {
        var x := Xor4(w[i - 3], w[i - 8], w[i - 14], w[i - 16]);
        RotateForm(x);
        ScheduleLater(block[..], i);
        w[i] := LeftRotate(x, 1);
        i := i + 1;
      }
    }

    /** processBlock on the full block */
    method ProcessBlock()
      requires digest.Length == 5 && block.Length == 64
      modifies digest
      ensures Value() == Compress(old(Value()), block[..])
    {
      hide Schedule, RotL, Round;
      var w := FillSchedule();
      var a, b, c, d, e := digest[0], digest[1], digest[2], digest[3], digest[4];
      ghost var start, bytes := Value(), block[..];
      var i := 0;
      while i < 80
        invariant i <= 80 && Hash(a, b, c, d, e) == Rounds(bytes, start, i)
        invariant Value() == start && forall t :: 0 <= t < 80 ==> w[t] == Schedule(bytes, t)
      {
        a, b, c, d, e := ProcessRound(i, a, b, c, d, e, w[i]);
        i := i + 1;
      }
      AddUp(a, b, c, d, e);
    }

    method AddUp(a: Word, b: Word, c: Word, d: Word, e: Word)
      requires digest.Length == 5
      modifies digest
      ensures Value() == Sum(old(Value()), Hash(a, b, c, d, e))
    {
      hide Plus;
      digest[0] := Plus(digest[0], a);
      digest[1] := Plus(digest[1], b);
      digest[2] := Plus(digest[2], c);
      digest[3] := Plus(digest[3], d);
      digest[4] := Plus(digest[4], e);
    }

    method ProcessRound(i: nat, a: Word, b: Word, c: Word, d: Word, e: Word, w: Word)
      returns (a': Word, b': Word, c': Word, d': Word, e': Word)
      ensures Hash(a', b', c', d', e') == Round(i, Hash(a, b, c, d, e), w)
    {
      hide RotL, LeftRotate, F, Sum5;
      var f, k := ChooseFunction(i, b, c, d);
      MixedForm(i, b, c, d);
      RotateForm(a);
      RotateForm(b);
      var temp := Sum5(LeftRotate(a, 5), f, e, k, w);
      return temp, a, LeftRotate(b, 30), c, d;
    }

    method ChooseFunction(i: nat, b: Word, c: Word, d: Word) returns (f: Word, k: Word)
      ensures f == Mixed(i, b, c, d) && k == K(i)
    {
      hide Choose, Majority, Parity;
      if i < 20 {
        f := Choose(b, c, d);
        k := 0x5A827999;
      } else if i < 40 {
        f := Parity(b, c, d);
        k := 0x6ED9EBA1;
      } else if i < 60 {
        f := Majority(b, c, d);
        k := 0x8F1BBCDC;
      } else {
        f := Parity(b, c, d);
        k := 0xCA62C1D6;
      }
    }

    method ProcessByte(octet: Byte)
      requires Valid()
      modifies this, digest, block
      ensures Valid() && fed == old(fed) + [octet]
    {
      hide Compress, Blocks;
      ghost var n := |fed| / 64;
      BlocksPrefix(fed, [octet], n);
      block[blockByteIndex] := octet;
      blockByteIndex := blockByteIndex + 1;
      byteCount := byteCount + 1;
      fed := fed + [octet];
      assert block[..blockByteIndex] == fed[|fed| - blockByteIndex..];
      if blockByteIndex == 64 {
        blockByteIndex := 0;
        assert |fed| == 64 * (n + 1) && block[..] == fed[64 * n..];
        BlocksNext(fed, n);
        ProcessBlock();
        assert |fed| / 64 == n + 1;
      } else {
        assert |fed| / 64 == n;
      }
    }

    method ProcessBytes(data: seq<Byte>)
      requires Valid()
      modifies this, digest, block
      ensures Valid() && fed == old(fed) + data
    {
      var i := 0;
      while i < |data|
        invariant i <= |data| && Valid() && fed == old(fed) + data[..i]
      {
        ProcessByte(data[i]);
        assert data[..i + 1] == data[..i] + [data[i]];
        i := i + 1;
      }
      assert data[..i] == data;
    }

    /** Zero bytes up to the end of the block. */
    method FillBlock()
      requires Valid() && blockByteIndex > 0
      modifies this, digest, block
      ensures Valid() && blockByteIndex == 0 && fed == old(fed) + Zeros(64 - old(blockByteIndex))
    {
      hide Blocks, Zeros;
      ghost var n, from := 0, blockByteIndex;
      ZerosNone();
      while blockByteIndex != 0
        invariant Valid() && n <= 64 - from && fed == old(fed) + Zeros(n)
        invariant blockByteIndex == if n == 64 - from then 0 else from + n
        decreases 64 - from - n
      {
        NextIndex(|fed|);
        ProcessByte(0);
        ZerosNext(n);
        n := n + 1;
      }
    }

    /** Zero bytes up to the place of the length. */
    method FillTo56()
      requires Valid() && blockByteIndex <= 56
      modifies this, digest, block
      ensures Valid() && fed == old(fed) + Zeros(56 - old(blockByteIndex))
    {
      hide Blocks, Zeros;
      ghost var n, from := 0, blockByteIndex;
      ZerosNone();
      while blockByteIndex < 56
        invariant Valid() && from + n == blockByteIndex <= 56 && fed == old(fed) + Zeros(n)
        decreases 56 - blockByteIndex
      {
        NextIndex(|fed|);
        ProcessByte(0);
        ZerosNext(n);
        n := n + 1;
      }
    }

    /** The zero bytes up to the length. */
    method Align(ghost s: seq<Byte>)
      requires Valid() && fed == s + [0x80]
      modifies this, digest, block
      ensures Valid() && fed == s + [0x80] + Zeros(Gap(|s|))
    {
      hide Blocks, Zeros, Gap;
      ghost var index := blockByteIndex;
      GapFrom(|s|);
      if blockByteIndex > 56 {
        FillBlock();
        FillTo56();
        TwoFills(s + [0x80], 64 - index, 56);
      } else {
        FillTo56();
      }
    }

    method FeedLength(bitCount: nat)
      requires Valid()
      modifies this, digest, block
      ensures Valid() && fed == old(fed) + [0, 0, 0, 0] + LowBytes(bitCount)
    {
      hide Blocks, LowBytes;
      ProcessBytes([0, 0, 0, 0]);
      ProcessBytes(LowBytes(bitCount));
    }

    /** getDigest: the padding is fed, and the digest read off. */
    method GetDigest() returns (r: Hash)
      requires Valid()
      modifies this, digest, block
      ensures Valid() && fed == Finished(old(fed)) && r == Blocks(fed, |fed| / 64)
    {
      hide Blocks, Zeros, LowBytes, Gap;
      ghost var s := fed;
      var bitCount := byteCount * 8;
      ProcessByte(0x80);
      Align(s);
      FeedLength(bitCount);
      r := Hash(digest[0], digest[1], digest[2], digest[3], digest[4]);
    }
  }
}

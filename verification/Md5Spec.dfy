/** The MD5 message digest as RFC 1321 defines it, section by section, without any streaming. */
module Md5Spec {
  import opened Common
  import opened Bits

  // ---------------------------------------------------------------------------------------------------------
  // Words and bytes (section 2: the low-order byte comes first)
  // ---------------------------------------------------------------------------------------------------------

  function WordOf(b0: Byte, b1: Byte, b2: Byte, b3: Byte): Word {
    b0 + 0x100 * b1 + 0x1_0000 * b2 + 0x100_0000 * b3
  }

  function BytesOf(w: Word): (b: seq<Byte>)
    ensures |b| == 4
  {
    [w % 0x100, w / 0x100 % 0x100, w / 0x1_0000 % 0x100, w / 0x100_0000 % 0x100]
  }

  function Words(bytes: seq<Byte>): (ws: seq<Word>)
    requires |bytes| % 4 == 0
    ensures |ws| == |bytes| / 4
  {
    seq(|bytes| / 4, i requires 0 <= i < |bytes| / 4 =>
      WordOf(bytes[4 * i], bytes[4 * i + 1], bytes[4 * i + 2], bytes[4 * i + 3]))
  }

  function Bytes(words: seq<Word>): (bs: seq<Byte>)
    ensures |bs| == 4 * |words|
  {
    if words == [] then [] else BytesOf(words[0]) + Bytes(words[1..])
  }

  // ---------------------------------------------------------------------------------------------------------
  // Sections 3.1 and 3.2: padding and length
  // ---------------------------------------------------------------------------------------------------------

  /** One bit, then as many zero bits as bring the length to 448 modulo 512, then the length in bits modulo 2^64. */
  function Padded(message: seq<Byte>): seq<Byte> {
    message + Padding(|message|) + LengthBytes(|message|)
  }

  function Padding(n: nat): (p: seq<Byte>)
    ensures 1 <= |p| <= 64 && (n + |p|) % 64 == 56
  {
    var zeros := (55 - n) % 64;
    [0x80] + seq(zeros, _ => 0)
  }

  function LengthBytes(n: nat): (b: seq<Byte>)
    ensures |b| == 8
  {
    BytesOf(8 * n % TWO_32) + BytesOf(8 * n / TWO_32 % TWO_32)
  }

  // ---------------------------------------------------------------------------------------------------------
  // Sections 3.3 and 3.4: the buffer and the four rounds
  // ---------------------------------------------------------------------------------------------------------

  datatype Registers = Registers(a: Word, b: Word, c: Word, d: Word)

  const Initial := Registers(0x67452301, 0xefcdab89, 0x98badcfe, 0x10325476)

  function Add(x: Word, y: Word): Word { (x + y) % TWO_32 }

  function F(x: Word, y: Word, z: Word): Word { Or(And(x, y), And(Not(x), z)) }
  function G(x: Word, y: Word, z: Word): Word { Or(And(x, z), And(y, Not(z))) }
  function H(x: Word, y: Word, z: Word): Word { Xor(Xor(x, y), z) }
  function I(x: Word, y: Word, z: Word): Word { Xor(y, Or(x, Not(z))) }

  /** The function of the round that operation i belongs to. */
  function Mix(i: nat, x: Word, y: Word, z: Word): Word {
    if i < 16 then F(x, y, z) else if i < 32 then G(x, y, z) else if i < 48 then H(x, y, z) else I(x, y, z)
  }

  /** Which word of the block operation i reads. */
  function K(i: nat): (k: nat)
    ensures k < 16
  {
    if i < 16 then i
    else if i < 32 then (5 * i + 1) % 16
    else if i < 48 then (3 * i + 5) % 16
    else 7 * i % 16
  }

  /** By how much operation i rotates. */
  function S(i: nat): (s: nat)
    ensures 0 < s < 32
  {
    if i < 16 then (match i % 4 case 0 => 7 case 1 => 12 case 2 => 17 case _ => 22)
    else if i < 32 then (match i % 4 case 0 => 5 case 1 => 9 case 2 => 14 case _ => 20)
    else if i < 48 then (match i % 4 case 0 => 4 case 1 => 11 case 2 => 16 case _ => 23)
    else (match i % 4 case 0 => 6 case 1 => 10 case 2 => 15 case _ => 21)
  }

  /** The table constructed from the sine function: entry i is the integer part of 2^32 times abs(sin(i + 1)). */
  function T(i: nat): Word {
    match i
    case 0 => 0xd76aa478 case 1 => 0xe8c7b756 case 2 => 0x242070db case 3 => 0xc1bdceee
    case 4 => 0xf57c0faf case 5 => 0x4787c62a case 6 => 0xa8304613 case 7 => 0xfd469501
    case 8 => 0x698098d8 case 9 => 0x8b44f7af case 10 => 0xffff5bb1 case 11 => 0x895cd7be
    case 12 => 0x6b901122 case 13 => 0xfd987193 case 14 => 0xa679438e case 15 => 0x49b40821
    case 16 => 0xf61e2562 case 17 => 0xc040b340 case 18 => 0x265e5a51 case 19 => 0xe9b6c7aa
    case 20 => 0xd62f105d case 21 => 0x02441453 case 22 => 0xd8a1e681 case 23 => 0xe7d3fbc8
    case 24 => 0x21e1cde6 case 25 => 0xc33707d6 case 26 => 0xf4d50d87 case 27 => 0x455a14ed
    case 28 => 0xa9e3e905 case 29 => 0xfcefa3f8 case 30 => 0x676f02d9 case 31 => 0x8d2a4c8a
    case 32 => 0xfffa3942 case 33 => 0x8771f681 case 34 => 0x6d9d6122 case 35 => 0xfde5380c
    case 36 => 0xa4beea44 case 37 => 0x4bdecfa9 case 38 => 0xf6bb4b60 case 39 => 0xbebfbc70
    case 40 => 0x289b7ec6 case 41 => 0xeaa127fa case 42 => 0xd4ef3085 case 43 => 0x04881d05
    case 44 => 0xd9d4d039 case 45 => 0xe6db99e5 case 46 => 0x1fa27cf8 case 47 => 0xc4ac5665
    case 48 => 0xf4292244 case 49 => 0x432aff97 case 50 => 0xab9423a7 case 51 => 0xfc93a039
    case 52 => 0x655b59c3 case 53 => 0x8f0ccc92 case 54 => 0xffeff47d case 55 => 0x85845dd1
    case 56 => 0x6fa87e4f case 57 => 0xfe2ce6e0 case 58 => 0xa3014314 case 59 => 0x4e0811a1
    case 60 => 0xf7537e82 case 61 => 0xbd3af235 case 62 => 0x2ad7d2bb case _ => 0xeb86d391
  }

  /** b + ((a + mix + x + t) rotated left by s), modulo 2^32. */
  function Operation(a: Word, b: Word, mix: Word, x: Word, s: nat, t: Word): Word
    requires 0 < s < 32
  {
    (b + Rotate((a + mix + x + t) % TWO_32, s)) % TWO_32
  }

  /** Operation i; the registers change their roles from one operation to the next. */
  function Step(i: nat, r: Registers, x: seq<Word>): Registers
    requires |x| == 16
  {
    Registers(r.d, Operation(r.a, r.b, Mix(i, r.b, r.c, r.d), x[K(i)], S(i), T(i)), r.b, r.c)
  }

  /** The registers after the first n operations. */
  function Steps(n: nat, r: Registers, x: seq<Word>): Registers
    requires |x| == 16
  {
    if n == 0 then r else Step(n - 1, Steps(n - 1, r, x), x)
  }

  /** One block of sixteen words: four rounds, each with one operation for every word. */
  function Compress(r: Registers, block: seq<Byte>): Registers
    requires |block| == 64
  {
    var x := Words(block);
    var q := Steps(4 * |x|, r, x);
    Registers(Add(r.a, q.a), Add(r.b, q.b), Add(r.c, q.c), Add(r.d, q.d))
  }

  lemma Multiple64(n: nat)
    requires n % 64 == 0
    ensures n == 0 || (n >= 64 && (n - 64) % 64 == 0)
  {
  }

  function Blocks(r: Registers, data: seq<Byte>): Registers
    requires |data| % 64 == 0
    decreases |data|
  {
    Multiple64(|data|);
    if data == [] then r else Blocks(Compress(r, data[..64]), data[64..])
  }

  // ---------------------------------------------------------------------------------------------------------
  // Section 3.5: the output
  // ---------------------------------------------------------------------------------------------------------

  function Output(r: Registers): (d: seq<Byte>)
    ensures |d| == 16
  {
    Bytes([r.a, r.b, r.c, r.d])
  }

  lemma PaddedLength(message: seq<Byte>)
    ensures |Padded(message)| % 64 == 0
  {
    Aligned(|message| + |Padding(|message|)|);
    hide Padding, LengthBytes;
  }

  lemma Aligned(n: nat)
    requires n % 64 == 56
    ensures (n + 8) % 64 == 0
  {
    assert n + 8 == 64 * (n / 64 + 1);
  }

  function Digest(message: seq<Byte>): (d: seq<Byte>)
    ensures |d| == 16
  {
    PaddedLength(message);
    Output(Blocks(Initial, Padded(message)))
  }

  // ---------------------------------------------------------------------------------------------------------
  // Facts used by the streaming form
  // ---------------------------------------------------------------------------------------------------------

  lemma {:induction false} BlocksAppend(r: Registers, a: seq<Byte>, b: seq<Byte>)
    requires |a| % 64 == 0 && |b| % 64 == 0
    ensures Blocks(r, a + b) == Blocks(Blocks(r, a), b)
    decreases |a|
  {
    if a == [] {
      assert a + b == b;
    } else {
      Multiple64(|a|);
      hide Compress;
      assert (a + b)[..64] == a[..64] && (a + b)[64..] == a[64..] + b;
      BlocksAppend(Compress(r, a[..64]), a[64..], b);
    }
  }

  lemma OneBlock(r: Registers, a: seq<Byte>, block: seq<Byte>)
    requires |a| % 64 == 0 && |block| == 64
    ensures Blocks(r, a + block) == Compress(Blocks(r, a), block)
  {
    BlocksAppend(r, a, block);
    hide Compress;
    assert block[..64] == block && block[64..] == [];
  }

  lemma Divide256(q: nat, r: nat)
    requires r < 0x100
    ensures (q * 0x100 + r) / 0x100 == q && (q * 0x100 + r) % 0x100 == r
  {
  }

  lemma DivideHigher(q: nat, r: nat)
    ensures r < 0x1_0000 ==> (q * 0x1_0000 + r) / 0x1_0000 == q
    ensures r < 0x100_0000 ==> (q * 0x100_0000 + r) / 0x100_0000 == q
  {
  }

  lemma ByteRoundTrip(b0: Byte, b1: Byte, b2: Byte, b3: Byte)
    ensures BytesOf(WordOf(b0, b1, b2, b3)) == [b0, b1, b2, b3]
  {
    var w := WordOf(b0, b1, b2, b3);
    Divide256(b1 + 0x100 * b2 + 0x1_0000 * b3, b0);
    Divide256(b2 + 0x100 * b3, b1);
    Divide256(b3, b2);
    DivideHigher(b2 + 0x100 * b3, b0 + 0x100 * b1);
    DivideHigher(b3, b0 + 0x100 * b1 + 0x1_0000 * b2);
    assert w == (b1 + 0x100 * b2 + 0x1_0000 * b3) * 0x100 + b0;
    assert w == (b2 + 0x100 * b3) * 0x1_0000 + (b0 + 0x100 * b1);
    assert w == b3 * 0x100_0000 + (b0 + 0x100 * b1 + 0x1_0000 * b2);
  }

  lemma WordRoundTrip(w: Word)
    ensures var b := BytesOf(w); WordOf(b[0], b[1], b[2], b[3]) == w
  {
    var b0, q0 := w % 0x100, w / 0x100;
    var b1, q1 := q0 % 0x100, q0 / 0x100;
    var b2, q2 := q1 % 0x100, q1 / 0x100;
    assert w == WordOf(b0, b1, b2, q2);
    ByteRoundTrip(b0, b1, b2, q2);
  }

  lemma {:induction false} BytesAt(words: seq<Word>, i: nat)
    requires i < |words|
    ensures Bytes(words)[4 * i..4 * i + 4] == BytesOf(words[i])
  {
    var rest := Bytes(words[1..]);
    if i > 0 {
      BytesAt(words[1..], i - 1);
      assert Bytes(words)[4 * i..4 * i + 4] == rest[4 * (i - 1)..4 * (i - 1) + 4];
    } else {
      assert Bytes(words)[0..4] == BytesOf(words[0]);
    }
  }

  /** MD5Encode and MD5Decode are inverse to each other. */
  lemma DecodeEncode(words: seq<Word>)
    ensures Words(Bytes(words)) == words
  {
    hide WordOf, BytesOf, Bytes;
    forall i | 0 <= i < |words| ensures Words(Bytes(words))[i] == words[i] {
      BytesAt(words, i);
      WordRoundTrip(words[i]);
      var b := Bytes(words);
      assert b[4 * i..4 * i + 4] == [b[4 * i], b[4 * i + 1], b[4 * i + 2], b[4 * i + 3]];
    }
  }

  lemma EncodeDecode(bytes: seq<Byte>)
    requires |bytes| % 4 == 0
    ensures Bytes(Words(bytes)) == bytes
  {
    var ws := Words(bytes);
    forall j | 0 <= j < |bytes| ensures Bytes(ws)[j] == bytes[j] {
      var i := j / 4;
      BytesAt(ws, i);
      ByteRoundTrip(bytes[4 * i], bytes[4 * i + 1], bytes[4 * i + 2], bytes[4 * i + 3]);
      assert Bytes(ws)[j] == Bytes(ws)[4 * i..4 * i + 4][j - 4 * i];
    }
  }
}

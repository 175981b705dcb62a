/** The streaming MD5 of md5.c and md5.h, which absorbs a message in pieces of any size. */
module Md5 {
  import opened Common
  import opened Bits
  import opened BitFacts
  import opened Md5Spec

  // ---------------------------------------------------------------------------------------------------------
  // The step macros
  // ---------------------------------------------------------------------------------------------------------

  /** What the four macros have in common: a += mix + x + ac, a = ROTATE_LEFT(a, s), a += b. */
  function Macro(a: Word, b: Word, mix: Word, x: Word, s: nat, ac: Word): (r: Word)
    requires 0 < s < 32
    ensures r == Operation(a, b, mix, x, s, ac)
  {
    SumOfFour(a, mix, x, ac);
    var a1 := Add(a, Add(Add(mix, x), ac));
    var a2 := Rotate(a1, s);
    Add(a2, b)
  }

  lemma SumOfFour(a: Word, b: Word, c: Word, d: Word)
    ensures Add(a, Add(Add(b, c), d)) == (a + b + c + d) % TWO_32
  {
    AddModulo(b + c, d);
    AddModulo(b + c + d, a);
  }

  function FF(a: Word, b: Word, c: Word, d: Word, x: Word, s: nat, ac: Word): Word
    requires 0 < s < 32
  {
    Macro(a, b, F(b, c, d), x, s, ac)
  }

  function GG(a: Word, b: Word, c: Word, d: Word, x: Word, s: nat, ac: Word): Word
    requires 0 < s < 32
  {
    Macro(a, b, G(b, c, d), x, s, ac)
  }

  function HH(a: Word, b: Word, c: Word, d: Word, x: Word, s: nat, ac: Word): Word
    requires 0 < s < 32
  {
    Macro(a, b, H(b, c, d), x, s, ac)
  }

  function II(a: Word, b: Word, c: Word, d: Word, x: Word, s: nat, ac: Word): Word
    requires 0 < s < 32
  {
    Macro(a, b, I(b, c, d), x, s, ac)
  }

  lemma FourSteps(n: nat, r: Registers, x: seq<Word>)
    requires |x| == 16
    ensures Steps(n + 4, r, x) == Step(n + 3, Step(n + 2, Step(n + 1, Step(n, Steps(n, r, x), x), x), x), x)
  {
    hide Step;
    assert Steps(n + 1, r, x) == Step(n, Steps(n, r, x), x);
    assert Steps(n + 2, r, x) == Step(n + 1, Steps(n + 1, r, x), x);
    assert Steps(n + 3, r, x) == Step(n + 2, Steps(n + 2, r, x), x);
  }

  /** Four operations of the first round bring the registers back to their roles. */
  lemma FourFF(n: nat, r: Registers, x: seq<Word>)
    requires |x| == 16 && n % 4 == 0 && 0 <= n < 16
    ensures var q := Steps(n, r, x);
            var a := FF(q.a, q.b, q.c, q.d, x[K(n)], 7, T(n));
            var d := FF(q.d, a, q.b, q.c, x[K(n + 1)], 12, T(n + 1));
            var c := FF(q.c, d, a, q.b, x[K(n + 2)], 17, T(n + 2));
            var b := FF(q.b, c, d, a, x[K(n + 3)], 22, T(n + 3));
            Steps(n + 4, r, x) == Registers(a, b, c, d)
  {
    hide Operation, Macro, F, G, H, I, T, K;
    FourSteps(n, r, x);
  }

  /** Four operations of the second round bring the registers back to their roles. */
  lemma FourGG(n: nat, r: Registers, x: seq<Word>)
    requires |x| == 16 && n % 4 == 0 && 16 <= n < 32
    ensures var q := Steps(n, r, x);
            var a := GG(q.a, q.b, q.c, q.d, x[K(n)], 5, T(n));
            var d := GG(q.d, a, q.b, q.c, x[K(n + 1)], 9, T(n + 1));
            var c := GG(q.c, d, a, q.b, x[K(n + 2)], 14, T(n + 2));
            var b := GG(q.b, c, d, a, x[K(n + 3)], 20, T(n + 3));
            Steps(n + 4, r, x) == Registers(a, b, c, d)
  {
    hide Operation, Macro, F, G, H, I, T, K;
    FourSteps(n, r, x);
  }

  /** Four operations of the third round bring the registers back to their roles. */
  lemma FourHH(n: nat, r: Registers, x: seq<Word>)
    requires |x| == 16 && n % 4 == 0 && 32 <= n < 48
    ensures var q := Steps(n, r, x);
            var a := HH(q.a, q.b, q.c, q.d, x[K(n)], 4, T(n));
            var d := HH(q.d, a, q.b, q.c, x[K(n + 1)], 11, T(n + 1));
            var c := HH(q.c, d, a, q.b, x[K(n + 2)], 16, T(n + 2));
            var b := HH(q.b, c, d, a, x[K(n + 3)], 23, T(n + 3));
            Steps(n + 4, r, x) == Registers(a, b, c, d)
  {
    hide Operation, Macro, F, G, H, I, T, K;
    FourSteps(n, r, x);
  }

  /** Four operations of the fourth round bring the registers back to their roles. */
  lemma FourII(n: nat, r: Registers, x: seq<Word>)
    requires |x| == 16 && n % 4 == 0 && 48 <= n < 64
    ensures var q := Steps(n, r, x);
            var a := II(q.a, q.b, q.c, q.d, x[K(n)], 6, T(n));
            var d := II(q.d, a, q.b, q.c, x[K(n + 1)], 10, T(n + 1));
            var c := II(q.c, d, a, q.b, x[K(n + 2)], 15, T(n + 2));
            var b := II(q.b, c, d, a, x[K(n + 3)], 21, T(n + 3));
            Steps(n + 4, r, x) == Registers(a, b, c, d)
  {
    hide Operation, Macro, F, G, H, I, T, K;
    FourSteps(n, r, x);
  }

  method Round1(ghost r: Registers, a0: Word, b0: Word, c0: Word, d0: Word, x: seq<Word>)
    returns (a: Word, b: Word, c: Word, d: Word)
    requires |x| == 16 && Registers(a0, b0, c0, d0) == Steps(0, r, x)
    ensures Registers(a, b, c, d) == Steps(16, r, x)
  {
    hide Operation, Macro, Steps, FF;
    a, b, c, d := a0, b0, c0, d0;
    a := FF(a, b, c, d, x[0], 7, 0xd76aa478);
    d := FF(d, a, b, c, x[1], 12, 0xe8c7b756);
    c := FF(c, d, a, b, x[2], 17, 0x242070db);
    b := FF(b, c, d, a, x[3], 22, 0xc1bdceee);
    FourFF(0, r, x);
    a := FF(a, b, c, d, x[4], 7, 0xf57c0faf);
    d := FF(d, a, b, c, x[5], 12, 0x4787c62a);
    c := FF(c, d, a, b, x[6], 17, 0xa8304613);
    b := FF(b, c, d, a, x[7], 22, 0xfd469501);
    FourFF(4, r, x);
    a := FF(a, b, c, d, x[8], 7, 0x698098d8);
    d := FF(d, a, b, c, x[9], 12, 0x8b44f7af);
    c := FF(c, d, a, b, x[10], 17, 0xffff5bb1);
    b := FF(b, c, d, a, x[11], 22, 0x895cd7be);
    FourFF(8, r, x);
    a := FF(a, b, c, d, x[12], 7, 0x6b901122);
    d := FF(d, a, b, c, x[13], 12, 0xfd987193);
    c := FF(c, d, a, b, x[14], 17, 0xa679438e);
    b := FF(b, c, d, a, x[15], 22, 0x49b40821);
    FourFF(12, r, x);
  }

  method Round2(ghost r: Registers, a0: Word, b0: Word, c0: Word, d0: Word, x: seq<Word>)
    returns (a: Word, b: Word, c: Word, d: Word)
    requires |x| == 16 && Registers(a0, b0, c0, d0) == Steps(16, r, x)
    ensures Registers(a, b, c, d) == Steps(32, r, x)
  {
    hide Operation, Steps, GG;
    a, b, c, d := a0, b0, c0, d0;
    a := GG(a, b, c, d, x[1], 5, 0xf61e2562);
    d := GG(d, a, b, c, x[6], 9, 0xc040b340);
    c := GG(c, d, a, b, x[11], 14, 0x265e5a51);
    b := GG(b, c, d, a, x[0], 20, 0xe9b6c7aa);
    FourGG(16, r, x);
    a := GG(a, b, c, d, x[5], 5, 0xd62f105d);
    d := GG(d, a, b, c, x[10], 9, 0x02441453);
    c := GG(c, d, a, b, x[15], 14, 0xd8a1e681);
    b := GG(b, c, d, a, x[4], 20, 0xe7d3fbc8);
    FourGG(20, r, x);
    a := GG(a, b, c, d, x[9], 5, 0x21e1cde6);
    d := GG(d, a, b, c, x[14], 9, 0xc33707d6);
    c := GG(c, d, a, b, x[3], 14, 0xf4d50d87);
    b := GG(b, c, d, a, x[8], 20, 0x455a14ed);
    FourGG(24, r, x);
    a := GG(a, b, c, d, x[13], 5, 0xa9e3e905);
    d := GG(d, a, b, c, x[2], 9, 0xfcefa3f8);
    c := GG(c, d, a, b, x[7], 14, 0x676f02d9);
    b := GG(b, c, d, a, x[12], 20, 0x8d2a4c8a);
    FourGG(28, r, x);
  }

  method Round3(ghost r: Registers, a0: Word, b0: Word, c0: Word, d0: Word, x: seq<Word>)
    returns (a: Word, b: Word, c: Word, d: Word)
    requires |x| == 16 && Registers(a0, b0, c0, d0) == Steps(32, r, x)
    ensures Registers(a, b, c, d) == Steps(48, r, x)
  {
    hide Operation, Steps, HH;
    a, b, c, d := a0, b0, c0, d0;
    a := HH(a, b, c, d, x[5], 4, 0xfffa3942);
    d := HH(d, a, b, c, x[8], 11, 0x8771f681);
    c := HH(c, d, a, b, x[11], 16, 0x6d9d6122);
    b := HH(b, c, d, a, x[14], 23, 0xfde5380c);
    FourHH(32, r, x);
    a := HH(a, b, c, d, x[1], 4, 0xa4beea44);
    d := HH(d, a, b, c, x[4], 11, 0x4bdecfa9);
    c := HH(c, d, a, b, x[7], 16, 0xf6bb4b60);
    b := HH(b, c, d, a, x[10], 23, 0xbebfbc70);
    FourHH(36, r, x);
    a := HH(a, b, c, d, x[13], 4, 0x289b7ec6);
    d := HH(d, a, b, c, x[0], 11, 0xeaa127fa);
    c := HH(c, d, a, b, x[3], 16, 0xd4ef3085);
    b := HH(b, c, d, a, x[6], 23, 0x04881d05);
    FourHH(40, r, x);
    a := HH(a, b, c, d, x[9], 4, 0xd9d4d039);
    d := HH(d, a, b, c, x[12], 11, 0xe6db99e5);
    c := HH(c, d, a, b, x[15], 16, 0x1fa27cf8);
    b := HH(b, c, d, a, x[2], 23, 0xc4ac5665);
    FourHH(44, r, x);
  }

  method Round4(ghost r: Registers, a0: Word, b0: Word, c0: Word, d0: Word, x: seq<Word>)
    returns (a: Word, b: Word, c: Word, d: Word)
    requires |x| == 16 && Registers(a0, b0, c0, d0) == Steps(48, r, x)
    ensures Registers(a, b, c, d) == Steps(64, r, x)
  {
    hide Operation, Steps, II;
    a, b, c, d := a0, b0, c0, d0;
    a := II(a, b, c, d, x[0], 6, 0xf4292244);
    d := II(d, a, b, c, x[7], 10, 0x432aff97);
    c := II(c, d, a, b, x[14], 15, 0xab9423a7);
    b := II(b, c, d, a, x[5], 21, 0xfc93a039);
    FourII(48, r, x);
    a := II(a, b, c, d, x[12], 6, 0x655b59c3);
    d := II(d, a, b, c, x[3], 10, 0x8f0ccc92);
    c := II(c, d, a, b, x[10], 15, 0xffeff47d);
    b := II(b, c, d, a, x[1], 21, 0x85845dd1);
    FourII(52, r, x);
    a := II(a, b, c, d, x[8], 6, 0x6fa87e4f);
    d := II(d, a, b, c, x[15], 10, 0xfe2ce6e0);
    c := II(c, d, a, b, x[6], 15, 0xa3014314);
    b := II(b, c, d, a, x[13], 21, 0x4e0811a1);
    FourII(56, r, x);
    a := II(a, b, c, d, x[4], 6, 0xf7537e82);
    d := II(d, a, b, c, x[11], 10, 0xbd3af235);
    c := II(c, d, a, b, x[2], 15, 0x2ad7d2bb);
    b := II(b, c, d, a, x[9], 21, 0xeb86d391);
    FourII(60, r, x);
  }

  /** Four bytes, shifted to their places and joined by |. */
  function JoinBytes(b0: Byte, b1: Byte, b2: Byte, b3: Byte): Word {
    Or(Or(Or(b0, b1 * 0x100), b2 * 0x1_0000), b3 * 0x100_0000)
  }

  /** Bytes of different weight have no bit in common, so joining them is adding them. */
  lemma JoinIsSum(b0: Byte, b1: Byte, b2: Byte, b3: Byte)
    ensures JoinBytes(b0, b1, b2, b3) == WordOf(b0, b1, b2, b3)
  {
    Sizes();
    Powers();
    JoinAt(8, b0, b1);
    JoinAt(16, b0 + b1 * 0x100, b2);
    JoinAt(24, b0 + b1 * 0x100 + b2 * 0x1_0000, b3);
    hide Or;
  }

  lemma Powers()
    ensures Pow2(8) == 0x100 && Pow2(16) == 0x1_0000 && Pow2(24) == 0x100_0000
  {
    assert Pow2(4) == 0x10 && Pow2(12) == 0x1000 && Pow2(20) == 0x10_0000;
  }

  lemma JoinAt(k: nat, x: nat, b: nat)
    requires k <= 32 && x < Pow2(k) && Pow2(k) * b < TWO_32 && x < TWO_32
    ensures Or(x, Pow2(k) * b) == x + Pow2(k) * b
  {
    Sizes();
    RaisedIs(k, b);
    JoinHigh(32, k, x, b);
    hide Bitwise, Pow2;
  }

  /** MD5Decode. */
  method Decode(output: array<Word>, input: seq<Byte>)
    requires |input| % 4 == 0 && output.Length * 4 >= |input|
    modifies output
    ensures output[..|input| / 4] == Words(input)
  {
    hide WordOf, Or;
    var i, j := 0, 0;
    while j < |input|
      invariant 0 <= j <= |input| && j == 4 * i
      invariant forall k :: 0 <= k < i ==> output[k] == Words(input)[k]
    {
      JoinIsSum(input[j], input[j + 1], input[j + 2], input[j + 3]);
      output[i] := JoinBytes(input[j], input[j + 1], input[j + 2], input[j + 3]);
      i := i + 1;
      j := j + 4;
    }
  }

  /** MD5Encode. */
  method Encode(output: array<Byte>, input: seq<Word>)
    requires output.Length == 4 * |input|
    modifies output
    ensures output[..] == Bytes(input)
  {
    var i, j := 0, 0;
    while j < output.Length
      invariant 0 <= j <= output.Length && j == 4 * i
      invariant output[..j] == Bytes(input[..i])
    {
      output[j] := input[i] % 0x100;
      output[j + 1] := input[i] / 0x100 % 0x100;
      output[j + 2] := input[i] / 0x1_0000 % 0x100;
      output[j + 3] := input[i] / 0x100_0000 % 0x100;
      BytesAppend(input[..i], input[i]);
      assert input[..i] + [input[i]] == input[..i + 1];
      i := i + 1;
      j := j + 4;
    }
    assert input[..i] == input;
    assert output[..j] == output[..];
  }

  lemma {:induction false} BytesAppend(ws: seq<Word>, w: Word)
    ensures Bytes(ws + [w]) == Bytes(ws) + BytesOf(w)
  {
    if ws == [] {
      assert [w][1..] == [];
    } else {
      assert (ws + [w])[1..] == ws[1..] + [w];
      BytesAppend(ws[1..], w);
    }
  }

  function StateOf(s: seq<Word>): Registers
    requires |s| == 4
  {
    Registers(s[0], s[1], s[2], s[3])
  }

  /** The four rounds of MD5Transform. */
  method Rounds(ghost r: Registers, a0: Word, b0: Word, c0: Word, d0: Word, x: seq<Word>)
    returns (a: Word, b: Word, c: Word, d: Word)
    requires |x| == 16 && Registers(a0, b0, c0, d0) == r
    ensures Registers(a, b, c, d) == Steps(64, r, x)
  {
    hide Step;
    assert Steps(0, r, x) == r;
    hide Steps;
    a, b, c, d := Round1(r, a0, b0, c0, d0, x);
    a, b, c, d := Round2(r, a, b, c, d, x);
    a, b, c, d := Round3(r, a, b, c, d, x);
    a, b, c, d := Round4(r, a, b, c, d, x);
  }

  /** MD5Transform. */
  method Transform(state: array<Word>, block: seq<Byte>)
    requires state.Length == 4 && |block| == 64
    modifies state
    ensures StateOf(state[..]) == Compress(old(StateOf(state[..])), block)
  {
    hide Step, Steps, Add, WordOf;
    ghost var r := StateOf(state[..]);
    var words := new Word[64];
    Decode(words, block);
    var x := words[..16];
    var a, b, c, d := Rounds(r, state[0], state[1], state[2], state[3], x);
    state[0] := Add(state[0], a);
    state[1] := Add(state[1], b);
    state[2] := Add(state[2], c);
    state[3] := Add(state[3], d);
  }

  // ---------------------------------------------------------------------------------------------------------
  // The bit count
  // ---------------------------------------------------------------------------------------------------------

  /** The two words of 8 * n modulo 2^64. */
  function CountLow(n: nat): Word { 8 * n % TWO_32 }
  function CountHigh(n: nat): Word { 8 * n / TWO_32 % TWO_32 }

  lemma DivideWord(q: nat, r: nat)
    requires r < TWO_32
    ensures (q * TWO_32 + r) / TWO_32 == q && (q * TWO_32 + r) % TWO_32 == r
  {
  }

  lemma AddModulo(x: nat, y: nat)
    ensures (x % TWO_32 + y) % TWO_32 == (x + y) % TWO_32
  {
    var q, r := x / TWO_32 + (x % TWO_32 + y) / TWO_32, (x % TWO_32 + y) % TWO_32;
    assert x + y == q * TWO_32 + r;
    DivideWord(q, r);
  }

  /** Adding in two words with a carry is adding modulo 2^64. */
  lemma CountAdds(n: nat, len: nat)
    requires len < TWO_32
    ensures var shifted := len * 8 % TWO_32;
            var low := (CountLow(n) + shifted) % TWO_32;
            var carried := if low < shifted then (CountHigh(n) + 1) % TWO_32 else CountHigh(n);
            low == CountLow(n + len) && (carried + len / 0x2000_0000) % TWO_32 == CountHigh(n + len)
  {
    var q, r := len / 0x2000_0000, len % 0x2000_0000;
    var high, low, shifted := 8 * n / TWO_32, 8 * n % TWO_32, 8 * r;
    assert len * 8 == q * TWO_32 + shifted;
    DivideWord(q, shifted);
    assert 8 * n == high * TWO_32 + low;
    if low + shifted < TWO_32 {
      assert 8 * (n + len) == (high + q) * TWO_32 + (low + shifted);
      DivideWord(high + q, low + shifted);
      AddModulo(high, q);
    } else {
      assert 8 * (n + len) == (high + 1 + q) * TWO_32 + (low + shifted - TWO_32);
      DivideWord(high + 1 + q, low + shifted - TWO_32);
      DivideWord(1, low + shifted - TWO_32);
      AddModulo(high, 1);
      AddModulo(high + 1, q);
    }
  }

  /** The low word of the count tells how many bytes wait in the buffer. */
  lemma IndexOfCount(n: nat)
    ensures CountLow(n) / 8 % 64 == n % 64
  {
    var q, r := n / 0x2000_0000, n % 0x2000_0000;
    assert 8 * n == q * TWO_32 + 8 * r;
    DivideWord(q, 8 * r);
    assert n == 64 * (q * 0x80_0000 + r / 64) + r % 64;
    Remainder64(q * 0x80_0000 + r / 64, r % 64);
  }

  lemma Remainder64(q: nat, r: nat)
    requires r < 64
    ensures (64 * q + r) % 64 == r
  {
  }

  // ---------------------------------------------------------------------------------------------------------
  // The 32-bit loop counter of MD5Update
  // ---------------------------------------------------------------------------------------------------------

  /** The shortest input for which `i + 64` wraps around before the loop of MD5Update ends. */
  function Limit(index: nat): (l: nat)
    requires index < 64
    ensures TWO_32 - 64 <= l < TWO_32
  {
    if index == 0 then TWO_32 - 64 else TWO_32 - index
  }

  /** The loop counter after n turns. */
  function Counter(index: nat, n: nat): nat
    requires index < 64
  {
    (64 - index + 64 * n) % TWO_32
  }

  lemma CounterBelowLimit(index: nat, n: nat)
    requires index < 64
    ensures (Counter(index, n) + 64) % TWO_32 <= Limit(index)
  {
    var x := 64 - index + 64 * n;
    AddModulo(x, 64);
    var q, r := (x + 64) / TWO_32, (x + 64) % TWO_32;
    var k := n + 2 - q * 0x400_0000;
    assert r == 64 * k - index;
    if index == 0 {
      assert k <= 0x400_0000 - 1;
    } else {
      assert k <= 0x400_0000;
    }
  }

  /** The loop of MD5Update comes to its end exactly when the input is shorter than the limit; otherwise it runs for
      ever, reading the input again and again. */
  lemma LoopEndsExactlyBelowLimit(index: nat, len: nat)
    requires index < 64 && 64 - index <= len < TWO_32
    ensures (exists n: nat :: (Counter(index, n) + 64) % TWO_32 > len) <==> len < Limit(index)
  {
    if len >= Limit(index) {
      forall n: nat ensures (Counter(index, n) + 64) % TWO_32 <= len {
        CounterBelowLimit(index, n);
      }
    } else {
      var n := (len - (64 - index)) / 64;
      var i := 64 - index + 64 * n;
      assert len - 64 < i <= len;
      NextTurnFits(index, i, len, n);
      DivideWord(0, i);
      DivideWord(0, i + 64);
      assert (Counter(index, n) + 64) % TWO_32 > len;
    }
  }

  lemma NextTurnFits(index: nat, i: nat, len: nat, n: nat)
    requires index < 64 && i == 64 - index + 64 * n && i <= len < Limit(index)
    ensures i + 64 < TWO_32
  {
    if index == 0 {
    } else {
      assert 64 * n < TWO_32 - 64;
      assert n < 0x400_0000 - 1;
    }
  }
}

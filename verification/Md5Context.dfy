/** The MD5 context of md5.c: a 64-byte buffer, the chaining state and the bit count. */
module Md5Context {
  import opened Common
  import opened Bits
  import opened Md5Spec
  import opened Md5

  /** The length of the complete blocks among the first n bytes. */
  function Full(n: nat): (f: nat)
    ensures f % 64 == 0 && f <= n < f + 64
  {
    FullMultiple(n / 64);
    n / 64 * 64
  }

  lemma FullMultiple(q: nat)
    ensures q * 64 % 64 == 0
  {
  }

  /** A multiple of 64 at most 63 below n is the length of its complete blocks. */
  lemma FullIs(n: nat, f: nat)
    requires f % 64 == 0 && f <= n < f + 64
    ensures Full(n) == f && n % 64 == n - f
  {
  }

  /** The chaining state after the complete blocks of a message. */
  ghost function Chained(message: seq<Byte>): Registers {
    Blocks(Initial, message[..Full(|message|)])
  }

  lemma ChainBlock(all: seq<Byte>, from: nat)
    requires from % 64 == 0 && from + 64 <= |all|
    ensures (from + 64) % 64 == 0
    ensures Compress(Blocks(Initial, all[..from]), all[from..from + 64]) == Blocks(Initial, all[..from + 64])
  {
    hide Compress;
    OneBlock(Initial, all[..from], all[from..from + 64]);
    assert all[..from + 64] == all[..from] + all[from..from + 64];
  }

  lemma NothingAbsorbed(message: seq<Byte>, input: seq<Byte>)
    requires |message| - Full(|message|) + |input| < 64
    ensures Full(|message| + |input|) == Full(|message|)
    ensures Chained(message) == Blocks(Initial, (message + input)[..Full(|message|)])
  {
    var f := Full(|message|);
    FullIs(|message| + |input|, f);
    assert (message + input)[..f] == message[..f];
  }

  lemma Slice(a: seq<Byte>, b: seq<Byte>, i: nat, j: nat)
    requires i <= j <= |b|
    ensures (a + b)[|a| + i..|a| + j] == b[i..j]
  {
  }

  class Context {
    var count0: Word
    var count1: Word
    const state: array<Word>
    const buffer: array<Byte>

    // everything absorbed so far
    ghost var message: seq<Byte>

    ghost predicate Valid()
      reads this, state, buffer
    {
      && state.Length == 4 && buffer.Length == 64
      && count0 == CountLow(|message|) && count1 == CountHigh(|message|)
      && StateOf(state[..]) == Chained(message)
      && buffer[..|message| - Full(|message|)] == message[Full(|message|)..]
    }

    /** MD5Init. */
    constructor ()
      ensures Valid() && message == [] && fresh(state) && fresh(buffer)
    {
      count0, count1 := 0, 0;
      state := new Word[4];
      buffer := new Byte[64];
      message := [];
      new;
      state[0], state[1], state[2], state[3] := 0x67452301, 0xefcdab89, 0x98badcfe, 0x10325476;
      FullIs(0, 0);
    }

    /** memcpy into the buffer. */
    method Store(at: nat, bytes: seq<Byte>)
      requires buffer.Length == 64 && at + |bytes| <= 64
      modifies buffer
      ensures buffer[..] == old(buffer[..at]) + bytes + old(buffer[at + |bytes|..])
    {
      forall k | 0 <= k < |bytes| {
        buffer[at + k] := bytes[k];
      }
    }

    /** MD5Update, on an input for which its 32-bit loop counter comes to an end. */
    method Update(input: seq<Byte>)
      requires Valid() && |input| < Limit(|message| - Full(|message|))
      modifies this, state, buffer
      ensures Valid() && message == old(message) + input
    {
      hide Blocks, StateOf, Full, Limit, CountLow, CountHigh, Chained;
      var index := Index();
      var partlen := 64 - index;
      Count(|message|, |input|);
      var i := 0;
      if |input| >= partlen {
        i := AbsorbBlocks(index, input);
        index := 0;
      } else {
        NothingAbsorbed(message, input);
      }
      Keep(index, i, input);
    }

    /** How many bytes wait in the buffer, told from the low word of the count. */
    method Index() returns (index: nat)
      requires Valid()
      ensures index == |message| - Full(|message|)
    {
      IndexOfCount(|message|);
      FullIs(|message|, Full(|message|));
      index := count0 / 8 % 64;
    }

    /** The bit count of MD5Update. */
    method Count(ghost n: nat, len: nat)
      requires count0 == CountLow(n) && count1 == CountHigh(n) && len < TWO_32
      modifies `count0, `count1
      ensures count0 == CountLow(n + len) && count1 == CountHigh(n + len)
    {
      CountAdds(n, len);
      hide CountLow, CountHigh;
      var shifted := len * 8 % TWO_32;
      count0 := (count0 + shifted) % TWO_32;
      if count0 < shifted {
        count1 := (count1 + 1) % TWO_32;
      }
      count1 := (count1 + len / 0x2000_0000) % TWO_32;
    }

    /** The last part of MD5Update: what is left of the input waits in the buffer. */
    method Keep(index: nat, i: nat, input: seq<Byte>)
      requires state.Length == 4 && buffer.Length == 64 && i <= |input| && index + |input| - i < 64
      requires i == 0 || index == 0
      requires i == 0 ==> index == |message| - Full(|message|) && buffer[..index] == message[Full(|message|)..]
      requires |message| + i - index == Full(|message| + |input|)
      requires StateOf(state[..]) == Blocks(Initial, (message + input)[..|message| + i - index])
      requires count0 == CountLow(|message| + |input|) && count1 == CountHigh(|message| + |input|)
      modifies `message, buffer
      ensures Valid() && message == old(message) + input
    {
      ghost var n, all := |message|, message + input;
      hide Blocks, StateOf, Full, CountLow, CountHigh;
      Store(index, input[i..]);
      message := all;
      assert buffer[..index + |input| - i] == all[n + i - index..];
    }

    /** The part of MD5Update that runs when the input completes a block; the result is how much of it is used up. */
    method AbsorbBlocks(index: nat, input: seq<Byte>) returns (i: nat)
      requires state.Length == 4 && buffer.Length == 64
      requires index == |message| - Full(|message|) && 64 - index <= |input| < Limit(index)
      requires StateOf(state[..]) == Chained(message) && buffer[..index] == message[Full(|message|)..]
      modifies state, buffer
      ensures i <= |input| < i + 64 && |message| + i == Full(|message| + |input|)
      ensures StateOf(state[..]) == Blocks(Initial, (message + input)[..|message| + i])
    {
      ghost var n, all := |message|, message + input;
      var partlen := 64 - index;
      hide Compress, StateOf;
      Store(index, input[..partlen]);
      assert buffer[..] == all[n - index..n - index + 64];
      assert all[..n - index] == message[..Full(n)];
      ChainBlock(all, n - index);
      Transform(state, buffer[..]);
      i := partlen;
      ghost var turn := 0;
      while (i + 64) % TWO_32 <= |input|
        invariant i <= |input| && i == 64 - index + 64 * turn && (n + i) % 64 == 0
        invariant (i + 64) % TWO_32 == i + 64
        invariant StateOf(state[..]) == Blocks(Initial, all[..n + i])
        decreases |input| - i
      {
        Slice(message, input, i, i + 64);
        ChainBlock(all, n + i);
        Transform(state, input[i..i + 64]);
        i := (i + 64) % TWO_32;
        turn := turn + 1;
        NextTurnFits(index, i, |input|, turn);
      }
      FullIs(n + |input|, n + i);
    }

    /** The first part of MD5Final: the padding and the length. */
    method Pad()
      requires Valid()
      modifies this, state, buffer
      ensures Valid() && message == old(message) + Padding(|old(message)|) + LengthBytes(|old(message)|)
    {
      PaddingLength(|message|);
      hide *;
      var index := Index();
      var padlen := if index < 56 then 56 - index else 120 - index;
      var bits := EncodeCount();
      Update(PADDING()[..padlen]);
      Update(bits);
    }

    /** MD5Final. */
    method Final() returns (digest: array<Byte>)
      requires Valid()
      modifies this, state, buffer
      ensures digest.Length == 16 && fresh(digest) && digest[..] == Digest(old(message))
    {
      DigestIs(message);
      hide *;
      Pad();
      digest := EncodeState();
    }

    /** MD5Encode of the state, all blocks being complete. */
    method EncodeState() returns (digest: array<Byte>)
      requires Valid() && |message| % 64 == 0
      ensures digest.Length == 16 && fresh(digest) && digest[..] == Output(Blocks(Initial, message))
    {
      Completed(message);
      hide Blocks, Bytes, StateOf, Chained;
      digest := new Byte[16];
      Encode(digest, state[..]);
      Output4(state[..]);
    }

    /** MD5Encode of the bit count. */
    method EncodeCount() returns (bits: seq<Byte>)
      requires Valid()
      ensures bits == LengthBytes(|message|)
    {
      var a := new Byte[8];
      Encode(a, [count0, count1]);
      bits := a[..];
      TwoWords(count0, count1);
      hide *;
      LengthIsCount(|message|);
    }
  }

  lemma DigestIs(m: seq<Byte>)
    ensures m + Padding(|m|) + LengthBytes(|m|) == Padded(m) && |Padded(m)| % 64 == 0
    ensures Digest(m) == Output(Blocks(Initial, Padded(m)))
  {
    PaddedLength(m);
  }

  lemma Completed(message: seq<Byte>)
    requires |message| % 64 == 0
    ensures Full(|message|) == |message| && Chained(message) == Blocks(Initial, message)
  {
    FullIs(|message|, |message|);
    assert message[..|message|] == message;
  }

  /** The 64 bytes of PADDING. */
  function PADDING(): seq<Byte> {
    [0x80] + seq(63, _ => 0)
  }

  lemma PaddingLength(n: nat)
    ensures var index := n - Full(n);
            var padlen := if index < 56 then 56 - index else 120 - index;
            1 <= padlen <= 64 && |PADDING()| == 64 && PADDING()[..padlen] == Padding(n)
  {
    FullIs(n, Full(n));
    var index := n % 64;
    var padlen := if index < 56 then 56 - index else 120 - index;
    assert (55 - n) % 64 == padlen - 1 by {
      var q := n / 64;
      assert 55 - n == 64 * (-q) + (55 - index);
      ZeroCount(q, index);
    }
    assert PADDING()[..padlen] == Padding(n);
  }

  lemma ZeroCount(q: int, index: nat)
    requires index < 64
    ensures (64 * (-q) + (55 - index)) % 64 == if index < 56 then 55 - index else 119 - index
  {
  }

  lemma TwoWords(a: Word, b: Word)
    ensures Bytes([a, b]) == BytesOf(a) + BytesOf(b)
  {
    BytesAppend([a], b);
    BytesAppend([], a);
    assert [] + [a] == [a] && [a] + [b] == [a, b];
  }

  lemma LengthIsCount(n: nat)
    ensures LengthBytes(n) == BytesOf(CountLow(n)) + BytesOf(CountHigh(n))
  {
  }

  lemma Output4(words: seq<Word>)
    requires |words| == 4
    ensures Bytes(words) == Output(StateOf(words))
  {
    assert words == [words[0], words[1], words[2], words[3]];
  }

  function Joined(parts: seq<seq<Byte>>): seq<Byte> {
    if parts == [] then [] else Joined(parts[..|parts| - 1]) + parts[|parts| - 1]
  }

  lemma FullRest(n: nat)
    ensures n - Full(n) == n % 64
  {
  }

  /** A digest computed piece by piece, as the firmware loader does it with one piece.  However the message is cut, the
      result is the digest of the whole. */
  method DigestOfParts(parts: seq<seq<Byte>>) returns (digest: array<Byte>)
    requires forall k :: 0 <= k < |parts| ==> |parts[k]| < Limit(|Joined(parts[..k])| % 64)
    ensures digest.Length == 16 && digest[..] == Digest(Joined(parts))
  {
    var context := new Context();
    var k := 0;
    while k < |parts|
      invariant k <= |parts| && context.Valid() && context.message == Joined(parts[..k])
      invariant fresh(context) && fresh(context.state) && fresh(context.buffer)
    {
      assert parts[..k + 1][..k] == parts[..k];
      FullRest(|context.message|);
      context.Update(parts[k]);
      k := k + 1;
    }
    assert parts[..k] == parts;
    digest := context.Final();
  }
}

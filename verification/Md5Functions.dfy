/** The functions of MD5 digit by digit, as sections 2 and 3.4 of RFC 1321 describe them. */
module Md5Functions {
  import opened Common
  import opened Bits
  import opened BitDigits
  import opened Md5Spec

  /** In each position F acts as a conditional: if x then y else z. */
  lemma FChooses(x: Word, y: Word, z: Word, j: nat)
    requires j < 32
    ensures Bit(F(x, y, z), j) == if Bit(x, j) then Bit(y, j) else Bit(z, j)
  {
    hide Bit, And, Or, Not;
    OrBit(And(x, y), And(Not(x), z), j);
    AndBit(x, y, j);
    AndBit(Not(x), z, j);
    NotBit(x, j);
  }

  /** G is the same with z deciding. */
  lemma GChooses(x: Word, y: Word, z: Word, j: nat)
    requires j < 32
    ensures Bit(G(x, y, z), j) == if Bit(z, j) then Bit(x, j) else Bit(y, j)
  {
    hide Bit, And, Or, Not;
    OrBit(And(x, z), And(y, Not(z)), j);
    AndBit(x, z, j);
    AndBit(y, Not(z), j);
    NotBit(z, j);
  }

  function Ones(p: bool, q: bool, r: bool): nat {
    (if p then 1 else 0) + (if q then 1 else 0) + if r then 1 else 0
  }

  /** H is the parity. */
  lemma HIsParity(x: Word, y: Word, z: Word, j: nat)
    requires j < 32
    ensures Bit(H(x, y, z), j) <==> Ones(Bit(x, j), Bit(y, j), Bit(z, j)) % 2 == 1
  {
    hide Bit, Xor;
    XorBit(Xor(x, y), z, j);
    XorBit(x, y, j);
  }

  lemma IDiffers(x: Word, y: Word, z: Word, j: nat)
    requires j < 32
    ensures Bit(I(x, y, z), j) == (Bit(y, j) != (Bit(x, j) || !Bit(z, j)))
  {
    hide Bit, Xor, Or, Not;
    XorBit(y, Or(x, Not(z)), j);
    OrBit(x, Not(z), j);
    NotBit(z, j);
  }

  /** An operation adds b to the sum of the other four, of which digit j has moved to position j + s around the word. */
  lemma OperationRotates(a: Word, b: Word, mix: Word, x: Word, s: nat, t: Word, j: nat)
    requires 0 < s < 32 && j < 32
    ensures Bit((Operation(a, b, mix, x, s, t) - b) % TWO_32, (j + s) % 32) == Bit((a + mix + x + t) % TWO_32, j)
  {
    var sum := (a + mix + x + t) % TWO_32;
    RotateBit(sum, s, j);
    Cancel(Rotate(sum, s), b);
    hide Bit, Rotate;
  }

  lemma Cancel(r: Word, b: Word)
    ensures ((b + r) % TWO_32 - b) % TWO_32 == r
  {
    if b + r >= TWO_32 {
      assert (b + r) % TWO_32 == b + r - TWO_32;
    }
  }

  /** Section 3.3 gives the initial registers as bytes, low-order byte first. */
  lemma InitialBytes()
    ensures Bytes([Initial.a]) == [0x01, 0x23, 0x45, 0x67] && Bytes([Initial.b]) == [0x89, 0xab, 0xcd, 0xef]
    ensures Bytes([Initial.c]) == [0xfe, 0xdc, 0xba, 0x98] && Bytes([Initial.d]) == [0x76, 0x54, 0x32, 0x10]
  {
    OneWord(Initial.a);
    OneWord(Initial.b);
    OneWord(Initial.c);
    OneWord(Initial.d);
  }

  lemma OneWord(w: Word)
    ensures Bytes([w]) == BytesOf(w)
  {
    assert Bytes([w][1..]) == [];
  }
}

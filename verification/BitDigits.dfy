/** Single binary digits: what the bit operations on words do to each of them. */
module BitDigits {
  import opened Common
  import opened Bits
  import opened BitFacts

  /** The j-th binary digit of w. */
  predicate Bit(w: nat, j: nat) {
    w / Pow2(j) % 2 == 1
  }

  lemma NextBit(w: nat, j: nat)
    ensures Bit(w, j + 1) == Bit(w / 2, j)
    ensures Bit(w, 0) == (w % 2 == 1)
  {
    Halves(w, Pow2(j));
  }

  lemma {:induction false} BitwiseBit(n: nat, f: (bool, bool) -> bool, x: nat, y: nat, j: nat)
    requires j < n
    ensures Bit(Bitwise(n, f, x, y), j) == f(Bit(x, j), Bit(y, j))
  {
    hide Bit, Pow2;
    var r := Bitwise(n, f, x, y);
    assert r / 2 == Bitwise(n - 1, f, x / 2, y / 2);
    var i := if j > 0 then j - 1 else 0;
    NextBit(r, i);
    NextBit(x, i);
    NextBit(y, i);
    if j > 0 {
      BitwiseBit(n - 1, f, x / 2, y / 2, i);
    }
  }

  lemma AndBit(x: Word, y: Word, j: nat)
    requires j < 32
    ensures Bit(And(x, y), j) == (Bit(x, j) && Bit(y, j))
  {
    hide Bit;
    BitwiseBit(32, Both, x, y, j);
  }

  lemma OrBit(x: Word, y: Word, j: nat)
    requires j < 32
    ensures Bit(Or(x, y), j) == (Bit(x, j) || Bit(y, j))
  {
    hide Bit;
    BitwiseBit(32, Either, x, y, j);
  }

  lemma XorBit(x: Word, y: Word, j: nat)
    requires j < 32
    ensures Bit(Xor(x, y), j) == (Bit(x, j) != Bit(y, j))
  {
    hide Bit;
    BitwiseBit(32, Differ, x, y, j);
  }

  lemma {:induction false} ComplementBit(n: nat, x: nat, j: nat)
    requires j < n && x < Pow2(n)
    ensures Bit(Pow2(n) - 1 - x, j) == !Bit(x, j)
  {
    hide Bit;
    var y := Pow2(n) - 1 - x;
    var i := if j > 0 then j - 1 else 0;
    NextBit(y, i);
    NextBit(x, i);
    HalfOfComplement(Pow2(n - 1), x);
    if j > 0 {
      ComplementBit(n - 1, x / 2, i);
    }
  }

  lemma HalfOfComplement(p: nat, x: nat)
    requires x < 2 * p
    ensures (2 * p - 1 - x) / 2 == p - 1 - x / 2 && (2 * p - 1 - x) % 2 == 1 - x % 2 && x / 2 < p
  {
  }

  lemma NotBit(x: Word, j: nat)
    requires j < 32
    ensures Bit(Not(x), j) == !Bit(x, j)
  {
    Sizes();
    hide Bit;
    ComplementBit(32, x, j);
  }

  lemma NoBit(x: nat, j: nat)
    requires x < Pow2(j)
    ensures !Bit(x, j)
  {
    hide Pow2;
    Quotient(x, Pow2(j), 0, x);
  }

  lemma {:induction false} RaisedBit(n: nat, x: nat, j: nat)
    ensures Bit(Raised(n, x), j) == (j >= n && Bit(x, j - n))
    decreases n
  {
    if n > 0 {
      var r := Raised(n - 1, x);
      assert 2 * r / 2 == r && 2 * r % 2 == 0;
      if j > 0 {
        NextBit(2 * r, j - 1);
        hide Bit;
        RaisedBit(n - 1, x, j - 1);
      }
    }
  }

  lemma {:induction false} ShiftedBit(n: nat, x: Word, j: nat)
    ensures Bit(ShiftRight(x, n), j) == Bit(x, j + n)
    decreases n
  {
    if n > 0 {
      NextBit(x, j + n - 1);
      hide Bit;
      ShiftedBit(n - 1, x / 2, j);
    }
  }

  /** The digits below the n-th do not depend on what is above them. */
  lemma {:induction false} LowBit(n: nat, x: nat, j: nat)
    requires j < n
    ensures Bit(x % Pow2(n), j) == Bit(x, j)
    decreases n
  {
    var p := Pow2(n - 1);
    var r := x % (2 * p);
    HalfOfRest(x, p);
    if j > 0 {
      NextBit(r, j - 1);
      NextBit(x, j - 1);
      hide Bit;
      LowBit(n - 1, x / 2, j - 1);
    }
  }

  lemma HalfOfRest(x: nat, p: nat)
    requires p > 0
    ensures x % (2 * p) / 2 == x / 2 % p && x % (2 * p) % 2 == x % 2
  {
    Halves(x, p);
    var q := x / (2 * p);
    assert x == 2 * p * q + x % (2 * p);
    assert x / 2 == p * q + x / 2 % p;
    assert 2 * p * q == 2 * (p * q);
  }

  /** Rotating left by n moves digit j to digit j + n, around the end of the word. */
  lemma RotateBit(x: Word, n: nat, j: nat)
    requires 0 < n < 32 && j < 32
    ensures Bit(Rotate(x, n), (j + n) % 32) == Bit(x, j)
  {
    hide *;
    var i := (j + n) % 32;
    RaisedBelow(x, n, i);
    ShiftedBit(32 - n, x, i);
    RotateIs(x, n, i);
    if j + n < 32 {
      assert i == j + n;
      AboveTheWord(x, i + (32 - n));
    } else {
      assert i == j + n - 32;
    }
  }

  lemma RotateIs(x: Word, n: nat, i: nat)
    requires 0 < n < 32 && i < 32
    ensures Bit(Rotate(x, n), i) == (Bit(x * Pow2(n) % TWO_32, i) || Bit(ShiftRight(x, 32 - n), i))
  {
    hide Bit, Or, ShiftRight;
    OrBit(x * Pow2(n) % TWO_32, ShiftRight(x, 32 - n), i);
  }

  lemma RaisedBelow(x: Word, n: nat, i: nat)
    requires i < 32
    ensures Bit(x * Pow2(n) % TWO_32, i) == (i >= n && Bit(x, i - n))
  {
    hide Bit, Raised;
    Sizes();
    RaisedIs(n, x);
    LowBit(32, x * Pow2(n), i);
    RaisedBit(n, x, i);
  }

  lemma AboveTheWord(x: Word, j: nat)
    requires j >= 32
    ensures !Bit(x, j)
  {
    Sizes();
    Grows(32, j);
    NoBit(x, j);
  }

  lemma {:induction false} Grows(m: nat, n: nat)
    requires m <= n
    ensures Pow2(m) <= Pow2(n)
    decreases n
  {
    if m < n {
      Grows(m, n - 1);
    }
  }

  /** A number is determined by its digits. */
  lemma {:induction false} DigitsDetermine(n: nat, x: nat, y: nat)
    requires x < Pow2(n) && y < Pow2(n) && forall j: nat :: j < n ==> Bit(x, j) == Bit(y, j)
    ensures x == y
  {
    if n > 0 {
      forall j: nat | j < n - 1 ensures Bit(x / 2, j) == Bit(y / 2, j) {
        NextBit(x, j);
        NextBit(y, j);
        assert Bit(x, j + 1) == Bit(y, j + 1);
      }
      NextBit(x, 0);
      NextBit(y, 0);
      hide Bit;
      assert Bit(x, 0) == Bit(y, 0);
      DigitsDetermine(n - 1, x / 2, y / 2);
    }
  }
}

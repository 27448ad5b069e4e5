/**
 Python's `^` on non-negative integers: bitwise exclusive or of
 arbitrary-precision naturals, defined bit by bit from the least
 significant end.
 */
module BitXor {

  function Pow2(k: nat): (r: nat)
    ensures r >= 1
  {
    if k == 0 then 1 else 2 * Pow2(k - 1)
  }

  /** The exclusive or of the lowest bits of x and y. */
  function LowBit(x: nat, y: nat): nat {
    if x % 2 == y % 2 then 0 else 1
  }

  function Xor(a: nat, b: nat): nat
    decreases a + b
  {
    if a == 0 && b == 0 then 0
    else 2 * Xor(a / 2, b / 2) + LowBit(a, b)
  }

  /** `x >> n`: n halvings, rounding down. */
  function Shift(x: nat, n: nat): nat {
    if n == 0 then x else Shift(x / 2, n - 1)
  }

  /** The recursive equation of Xor holds also where the definition stops. */
  lemma XorUnfold(x: nat, y: nat)
    ensures Xor(x, y) == 2 * Xor(x / 2, y / 2) + LowBit(x, y)
    ensures Xor(x, y) / 2 == Xor(x / 2, y / 2)
    ensures Xor(x, y) % 2 == LowBit(x, y)
  {
  }

  lemma {:induction false} XorZero(a: nat)
    ensures Xor(a, 0) == a
    ensures Xor(0, a) == a
    decreases a
  {
    if a != 0 {
      XorZero(a / 2);
    }
  }

  lemma {:induction false} XorSelf(a: nat)
    ensures Xor(a, a) == 0
    decreases a
  {
    if a != 0 {
      XorSelf(a / 2);
    }
  }

  lemma {:induction false} XorComm(a: nat, b: nat)
    ensures Xor(a, b) == Xor(b, a)
    decreases a + b
  {
    if a != 0 || b != 0 {
      XorComm(a / 2, b / 2);
    }
  }

  lemma {:induction false} XorAssoc(a: nat, b: nat, c: nat)
    ensures Xor(Xor(a, b), c) == Xor(a, Xor(b, c))
    decreases a + b + c
  {
    if a + b + c != 0 {
      XorAssoc(a / 2, b / 2, c / 2);
      XorUnfold(a, b);
      XorUnfold(b, c);
      XorUnfold(Xor(a, b), c);
      XorUnfold(a, Xor(b, c));
    }
  }

  /** XOR-ing twice with the same value is the identity. */
  lemma XorCancel(a: nat, k: nat)
    ensures Xor(Xor(a, k), k) == a
  {
    XorAssoc(a, k, k);
    XorSelf(k);
    XorZero(a);
  }

  /** Shifting distributes over XOR. */
  lemma {:induction false} XorShift(a: nat, b: nat, n: nat)
    ensures Shift(Xor(a, b), n) == Xor(Shift(a, n), Shift(b, n))
    decreases n
  {
    if n != 0 {
      XorUnfold(a, b);
      XorShift(a / 2, b / 2, n - 1);
    }
  }

  lemma Shift8(x: nat)
    ensures Shift(x, 8) == x / 256
  {
    var x1, x2, x3, x4 := x / 2, x / 4, x / 8, x / 16;
    var x5, x6, x7 := x / 32, x / 64, x / 128;
    assert x1 / 2 == x2 && x2 / 2 == x3 && x3 / 2 == x4 && x4 / 2 == x5;
    assert x5 / 2 == x6 && x6 / 2 == x7 && x7 / 2 == x / 256;
    assert Shift(x7, 1) == x / 256;
    assert Shift(x6, 2) == Shift(x7, 1);
    assert Shift(x5, 3) == Shift(x6, 2);
    assert Shift(x4, 4) == Shift(x5, 3);
    assert Shift(x3, 5) == Shift(x4, 4);
    assert Shift(x2, 6) == Shift(x3, 5);
    assert Shift(x1, 7) == Shift(x2, 6);
  }

  /** XOR with a byte changes nothing above the lowest eight bits. */
  lemma XorByteHigh(a: nat, k: nat)
    requires k < 256
    ensures Xor(a, k) / 256 == a / 256
  {
    XorShift(a, k, 8);
    Shift8(Xor(a, k));
    Shift8(a);
    Shift8(k);
    XorZero(Shift(a, 8));
  }

  /** XOR-ing a Unicode code point with a byte yields a code point. */
  lemma XorByteCodePoint(c: nat, k: nat)
    requires c < 0x110000 && k < 256
    ensures Xor(c, k) < 0x110000
  {
    XorByteHigh(c, k);
  }

  /** The XOR of two bytes is a byte. */
  lemma XorByte(a: nat, b: nat)
    requires a < 256 && b < 256
    ensures Xor(a, b) < 256
  {
    XorByteHigh(a, b);
  }
}

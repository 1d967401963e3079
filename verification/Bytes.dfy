/** Bytes: unsigned, eight bits wide. A byte doubles as a position in a 256-cell ring. */
module Bytes {
  type byte = i: int | 0 <= i < 256

  type Index = byte

  function Pow2(n: nat): (r: nat)
    ensures r > 0
  {
    if n == 0 then 1 else 2 * Pow2(n - 1)
  }

  /** Exclusive or of the low n bits, bit by bit. */
  function XorBits(a: nat, b: nat, n: nat): (r: nat)
    ensures r < Pow2(n)
  {
    if n == 0 then 0 else (a + b) % 2 + 2 * XorBits(a / 2, b / 2, n - 1)
  }

  function Xor(a: byte, b: byte): byte {
    assert Pow2(8) == 256;
    XorBits(a, b, 8)
  }

  lemma ParityTwice(a: nat, k: nat, x: nat)
    requires x % 2 == (a + k) % 2
    ensures (x + k) % 2 == a % 2
  {}

  lemma {:induction false} XorBitsTwice(a: nat, k: nat, n: nat)
    requires a < Pow2(n)
    ensures XorBits(XorBits(a, k, n), k, n) == a
  {
    if n > 0 {
      var x := XorBits(a, k, n);
      assert x == (a + k) % 2 + 2 * XorBits(a / 2, k / 2, n - 1);
      assert x / 2 == XorBits(a / 2, k / 2, n - 1);
      ParityTwice(a, k, x);
      XorBitsTwice(a / 2, k / 2, n - 1);
    }
  }

  /** What a key covers, the same key uncovers. */
  lemma XorTwice(a: byte, k: byte)
    ensures Xor(Xor(a, k), k) == a
  {
    assert Pow2(8) == 256;
    XorBitsTwice(a, k, 8);
  }

  // What Xor is, in terms of the binary digits of its arguments.

  /** Each binary digit of x is 1 exactly when those of a and b differ. */
  predicate DigitsDiffer(x: byte, a: byte, b: byte) {
    && (x % 2 == 1 <==> a % 2 != b % 2)
    && (x / 2 % 2 == 1 <==> a / 2 % 2 != b / 2 % 2)
    && (x / 4 % 2 == 1 <==> a / 4 % 2 != b / 4 % 2)
    && (x / 8 % 2 == 1 <==> a / 8 % 2 != b / 8 % 2)
    && (x / 16 % 2 == 1 <==> a / 16 % 2 != b / 16 % 2)
    && (x / 32 % 2 == 1 <==> a / 32 % 2 != b / 32 % 2)
    && (x / 64 % 2 == 1 <==> a / 64 % 2 != b / 64 % 2)
    && (x / 128 % 2 == 1 <==> a / 128 % 2 != b / 128 % 2)
  }

  function Halved(a: nat, i: nat): nat {
    if i == 0 then a else Halved(a / 2, i - 1)
  }

  lemma XorBitsSplit(a: nat, b: nat, n: nat)
    requires n > 0
    ensures XorBits(a, b, n) % 2 == (a + b) % 2 && XorBits(a, b, n) / 2 == XorBits(a / 2, b / 2, n - 1)
  {}

  lemma {:induction false} XorBitsDigit(a: nat, b: nat, n: nat, i: nat)
    requires i < n
    ensures Halved(XorBits(a, b, n), i) % 2 == 1 <==> Halved(a, i) % 2 != Halved(b, i) % 2
  {
    var x, a', b' := XorBits(a, b, n), a / 2, b / 2;
    XorBitsSplit(a, b, n);
    if i == 0 {
      ParityOfSum(a, b);
    } else {
      XorBitsDigit(a', b', n - 1, i - 1);
      assert Halved(x, i) == Halved(XorBits(a', b', n - 1), i - 1);
    }
  }

  lemma ParityOfSum(a: nat, b: nat)
    ensures (a + b) % 2 == 1 <==> a % 2 != b % 2
  {}

  lemma {:induction false} HalvedOnceMore(a: nat, i: nat)
    ensures Halved(a, i + 1) == Halved(a, i) / 2
  {
    if i > 0 {
      HalvedOnceMore(a / 2, i - 1);
    }
  }

  lemma HalvedIs(a: byte)
    ensures Halved(a, 0) == a && Halved(a, 1) == a / 2 && Halved(a, 2) == a / 4 && Halved(a, 3) == a / 8
    ensures Halved(a, 4) == a / 16 && Halved(a, 5) == a / 32 && Halved(a, 6) == a / 64 && Halved(a, 7) == a / 128
  {
    HalvedOnceMore(a, 0);
    HalvedOnceMore(a, 1);
    HalvedOnceMore(a, 2);
    HalvedOnceMore(a, 3);
    HalvedOnceMore(a, 4);
    HalvedOnceMore(a, 5);
    HalvedOnceMore(a, 6);
  }

  lemma XorIsExclusive(a: byte, b: byte)
    ensures DigitsDiffer(Xor(a, b), a, b)
  {
    var x := Xor(a, b);
    XorBitsDigit(a, b, 8, 0);
    XorBitsDigit(a, b, 8, 1);
    XorBitsDigit(a, b, 8, 2);
    XorBitsDigit(a, b, 8, 3);
    XorBitsDigit(a, b, 8, 4);
    XorBitsDigit(a, b, 8, 5);
    XorBitsDigit(a, b, 8, 6);
    XorBitsDigit(a, b, 8, 7);
    HalvedIs(a);
    HalvedIs(b);
    HalvedIs(x);
  }

  lemma {:induction false} SameDigits(x: nat, y: nat, n: nat)
    requires x < Pow2(n) && y < Pow2(n) && forall i: nat :: i < n ==> Halved(x, i) % 2 == Halved(y, i) % 2
    ensures x == y
  {
    if n > 0 {
      assert Halved(x, 0) == x && Halved(y, 0) == y;
      assert forall i: nat :: i < n - 1 ==> Halved(x / 2, i) == Halved(x, i + 1) && Halved(y / 2, i) == Halved(y, i + 1);
      SameDigits(x / 2, y / 2, n - 1);
    }
  }

  lemma CoveredByXor(x: byte, a: byte, b: byte)
    requires x == Xor(a, b)
    ensures DigitsDiffer(x, a, b)
  {
    XorIsExclusive(a, b);
  }

  /** The digits leave nothing open: Xor is the only such number. */
  lemma ExclusiveIsXor(x: byte, a: byte, b: byte)
    requires DigitsDiffer(x, a, b)
    ensures x == Xor(a, b)
  {
    XorIsExclusive(a, b);
    SameByte(x, Xor(a, b));
  }

  lemma SameByte(x: byte, y: byte)
    requires x % 2 == y % 2 && x / 2 % 2 == y / 2 % 2 && x / 4 % 2 == y / 4 % 2 && x / 8 % 2 == y / 8 % 2
    requires x / 16 % 2 == y / 16 % 2 && x / 32 % 2 == y / 32 % 2 && x / 64 % 2 == y / 64 % 2 && x / 128 % 2 == y / 128 % 2
    ensures x == y
  {
    HalvedIs(x);
    HalvedIs(y);
    assert Pow2(8) == 256;
    SameDigits(x, y, 8);
  }
}

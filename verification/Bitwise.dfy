/** Go's bitwise operators on small unsigned integers, as operations on binary digits. */
module Bitwise {
  import opened Wrappers
  import opened Numerals

  /** `(b & (1 << (7 - j))) != 0`: bit `j` of a byte, counted from the top. */
  predicate HasBit(b: byte, j: nat)
    requires j < 8
  {
    Digits(b, 2, 8)[j] == 1
  }

  /** `(n & (1 << (10 - j))) != 0`: bit `j` of an 11-bit word index, counted from the top. */
  predicate HasBit11(n: int, j: nat)
    requires j < 11
  {
    Digits(n, 2, 11)[j] == 1
  }

  /** `b | (1 << (7 - j))`: the byte with bit `j` set as well. */
  function OrBit(b: byte, j: nat): byte
    requires j < 8
  {
    var ds := Digits(b, 2, 8)[j := 1];
    ValueBound(ds, 2);
    SmallPowers();
    Value(ds, 2)
  }

  /** Exclusive or of the low `w` bits, bit by bit. */
  function XorBits(a: nat, b: nat, w: nat): (r: nat)
    ensures r < Pow(2, w)
    decreases w, a
  {
    if w == 0 then 0 else XorBits(a / 2, b / 2, w - 1) * 2 + (a + b) % 2
  }

  /** `a ^ b` on bytes. */
  function Xor(a: byte, b: byte): byte
  {
    SmallPowers();
    XorBits(a, b, 8)
  }

  /** Binary digits of a bit slice. */
  function ToDigits(bits: seq<bool>): (r: seq<int>)
    ensures |r| == |bits| && InBase(r, 2)
  {
    seq(|bits|, i requires 0 <= i < |bits| => if bits[i] then 1 else 0)
  }

  lemma SmallPowers()
    ensures Pow(2, 0) == 1 && Pow(2, 1) == 2 && Pow(2, 2) == 4 && Pow(2, 3) == 8
    ensures Pow(2, 4) == 16 && Pow(2, 5) == 32 && Pow(2, 6) == 64 && Pow(2, 7) == 128
    ensures Pow(2, 8) == 256 && Pow(2, 9) == 512 && Pow(2, 10) == 1024 && Pow(2, 11) == 2048
  {
  }

  lemma OrBitSets(b: byte, j: nat, m: nat)
    requires j < 8 && m < 8
    ensures HasBit(OrBit(b, j), m) == (HasBit(b, m) || m == j)
  {
    DigitsOfValue(Digits(b, 2, 8)[j := 1], 2);
  }

  lemma ZeroHasNoBit(j: nat)
    requires j < 8
    ensures !HasBit(0, j)
  {
    PowPositive(2, 7 - j);
    DigitAt(0, 2, 8, j);
    DivModUnique(0, Pow(2, 7 - j), 0, 0);
  }

  /** A byte is determined by its bits. */
  lemma BitsDetermine(a: byte, b: byte)
    requires forall j :: 0 <= j < 8 ==> HasBit(a, j) == HasBit(b, j)
    ensures a == b
  {
    hide Digits, Value, Pow;
    SmallPowers();
    ValueOfDigits(a, 2, 8);
    ValueOfDigits(b, 2, 8);
    forall j | 0 <= j < 8 ensures Digits(a, 2, 8)[j] == 1 <==> Digits(b, 2, 8)[j] == 1 {
      assert HasBit(a, j) == HasBit(b, j);
    }
    SameBinary(Digits(a, 2, 8), Digits(b, 2, 8));
  }

  lemma SameBinary(xs: seq<int>, ys: seq<int>)
    requires |xs| == |ys| && InBase(xs, 2) && InBase(ys, 2)
    requires forall j :: 0 <= j < |xs| ==> (xs[j] == 1 <==> ys[j] == 1)
    ensures xs == ys
  {
  }

  lemma XorBitsUnfold(a: nat, b: nat, w: nat)
    requires w > 0
    ensures XorBits(a, b, w) / 2 == XorBits(a / 2, b / 2, w - 1)
    ensures XorBits(a, b, w) % 2 == (a + b) % 2
  {
  }

  lemma Parity(x: nat, y: nat, a: nat, b: nat, c: nat, d: nat)
    requires x % 2 == (a + b) % 2 && y % 2 == (c + d) % 2
    ensures (x + y) % 2 == (a + b + c + d) % 2
  {
  }

  lemma {:induction false} XorBitsBack(a: nat, c: nat, w: nat)
    requires a < Pow(2, w)
    ensures XorBits(XorBits(a, c, w), c, w) == a
    decreases w
  {
    hide XorBits;
    if w == 0 {
      XorNoBits(a, c);
      XorNoBits(XorBits(a, c, w), c);
    } else {
      var x := XorBits(a, c, w);
      XorBitsUnfold(a, c, w);
      XorBitsUnfold(x, c, w);
      XorBitsBack(a / 2, c / 2, w - 1);
      hide Pow;
      Parity(x, c, a, c, c, 0);
    }
  }

  lemma XorNoBits(a: nat, c: nat)
    ensures XorBits(a, c, 0) == 0
  {
  }

  /** XOR with the same mask twice is the identity. */
  lemma XorInvolutive(a: byte, c: byte)
    ensures Xor(Xor(a, c), c) == a
  {
    SmallPowers();
    XorBitsBack(a, c, 8);
  }

  lemma {:induction false} XorBitsZero(a: nat, b: nat, w: nat)
    requires a < Pow(2, w) && b < Pow(2, w)
    ensures XorBits(a, b, w) == 0 <==> a == b
    ensures XorBits(a, 0, w) == a
    decreases w
  {
    if w > 0 {
      XorBitsZero(a / 2, b / 2, w - 1);
    }
  }

  /** XOR of two bytes is zero exactly when they are equal, and zero is its unit. */
  lemma XorZero(a: byte, b: byte)
    ensures Xor(a, b) == 0 <==> a == b
    ensures Xor(a, 0) == a
  {
    SmallPowers();
    XorBitsZero(a, b, 8);
  }

  lemma {:induction false} XorBitsExchange(a: nat, b: nat, c: nat, d: nat, w: nat)
    ensures XorBits(XorBits(a, b, w), XorBits(c, d, w), w) == XorBits(XorBits(a, c, w), XorBits(b, d, w), w)
    decreases w
  {
    if w > 0 {
      XorBitsExchange(a / 2, b / 2, c / 2, d / 2, w - 1);
      var ab, cd, ac, bd := XorBits(a, b, w), XorBits(c, d, w), XorBits(a, c, w), XorBits(b, d, w);
      XorBitsUnfold(a, b, w);
      XorBitsUnfold(c, d, w);
      XorBitsUnfold(a, c, w);
      XorBitsUnfold(b, d, w);
      Parity(ab, cd, a, b, c, d);
      Parity(ac, bd, a, c, b, d);
      XorBitsUnfold(ab, cd, w);
      XorBitsUnfold(ac, bd, w);
    }
  }

  lemma XorExchange(a: byte, b: byte, c: byte, d: byte)
    ensures Xor(Xor(a, b), Xor(c, d)) == Xor(Xor(a, c), Xor(b, d))
  {
    SmallPowers();
    XorBitsExchange(a, b, c, d, 8);
  }

  lemma {:induction false} XorBitsCommute(a: nat, b: nat, w: nat)
    ensures XorBits(a, b, w) == XorBits(b, a, w)
    decreases w
  {
    if w > 0 {
      XorBitsCommute(a / 2, b / 2, w - 1);
    }
  }

  lemma XorCommutes(a: byte, b: byte)
    ensures Xor(a, b) == Xor(b, a)
  {
    XorBitsCommute(a, b, 8);
  }

  lemma {:induction false} XorBitsWiden(a: nat, b: nat, w: nat)
    requires a < Pow(2, w) && b < Pow(2, w)
    ensures XorBits(a, b, w + 1) == XorBits(a, b, w)
    decreases w
  {
    if w > 0 {
      XorBitsWiden(a / 2, b / 2, w - 1);
    }
  }

  /** Shifting right by one distributes over XOR, and the low bits add modulo two. */
  lemma XorHalves(a: byte, b: byte)
    ensures Xor(a, b) / 2 == Xor(a / 2, b / 2)
    ensures Xor(a, b) % 2 == (a + b) % 2
  {
    SmallPowers();
    XorBitsWiden(a / 2, b / 2, 7);
  }

  lemma {:induction false} XorBitsTop(a: nat, b: nat, w: nat)
    requires a < Pow(2, w) && Pow(2, w) <= b < Pow(2, w + 1)
    ensures XorBits(a, b, w + 1) >= Pow(2, w)
    decreases w
  {
    if w > 0 {
      XorBitsTop(a / 2, b / 2, w - 1);
    }
  }

  /** A clear top bit XORed with a set one is set. */
  lemma XorTop(a: byte, b: byte)
    requires a < 128 <= b
    ensures Xor(a, b) >= 128
  {
    SmallPowers();
    XorBitsTop(a, b, 7);
  }
}

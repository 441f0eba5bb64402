/** What the CRC of legacy phrases is: the remainder of division by one polynomial over two
    elements. The changes it misses are the multiples of that polynomial. */
module CrcLaws {
  import opened Wrappers
  import opened Numerals
  import opened Sequences
  import opened Bitwise
  import opened Crc8

  /** x^8 + x^6 + x^3 + x^2 + 1, highest power first. */
  const GENERATOR: seq<bool> := [true, false, true, false, false, true, true, false, true]

  // ---------------------------------------------------------------- bit by bit

  function Bit(on: bool): byte
  {
    if on then 1 else 0
  }

  /** The low `k` bits of a number, lowest first: the order in which bytes enter the register. */
  function BitsOf(d: nat, k: nat): (r: seq<bool>)
    ensures |r| == k
    decreases k
  {
    if k == 0 then [] else [d % 2 == 1] + BitsOf(d / 2, k - 1)
  }

  function Bits(data: seq<byte>): (r: seq<bool>)
    ensures |r| == 8 * |data|
  {
    if data == [] then [] else Bits(data[..|data| - 1]) + BitsOf(data[|data| - 1], 8)
  }

  /** The register after single bits have been fed to it. */
  function Fed(c: byte, bits: seq<bool>): byte
    decreases |bits|
  {
    if bits == [] then c else Fed(Shift(Xor(c, Bit(bits[0]))), bits[1..])
  }

  function Zeros(n: nat): (r: seq<bool>)
    ensures |r| == n && forall i :: 0 <= i < n ==> !r[i]
  {
    seq(n, _ => false)
  }

  function XorBools(a: seq<bool>, b: seq<bool>): (r: seq<bool>)
    requires |a| == |b|
    ensures |r| == |a| && forall i :: 0 <= i < |r| ==> r[i] == (a[i] != b[i])
  {
    seq(|a|, i requires 0 <= i < |a| => a[i] != b[i])
  }

  lemma {:induction false} FedConcat(c: byte, a: seq<bool>, b: seq<bool>)
    ensures Fed(c, a + b) == Fed(Fed(c, a), b)
    decreases |a|
  {
    hide Shift, Xor;
    if a == [] {
      assert a + b == b;
    } else {
      assert (a + b)[1..] == a[1..] + b;
      FedConcat(Shift(Xor(c, Bit(a[0]))), a[1..], b);
    }
  }

  lemma BitXor(a: bool, b: bool)
    ensures Bit(a != b) == Xor(Bit(a), Bit(b))
  {
    XorZero(1, 1);
    XorZero(1, 0);
    XorZero(0, 0);
    XorCommutes(0, 1);
  }

  lemma {:induction false} FedLinear(c: byte, d: byte, a: seq<bool>, b: seq<bool>)
    requires |a| == |b|
    ensures Fed(Xor(c, d), XorBools(a, b)) == Xor(Fed(c, a), Fed(d, b))
    decreases |a|
  {
    hide Shift, Xor, Bit;
    if a != [] {
      BitXor(a[0], b[0]);
      XorExchange(c, d, Bit(a[0]), Bit(b[0]));
      var x, y := Xor(c, Bit(a[0])), Xor(d, Bit(b[0]));
      ShiftLinear(x, y);
      assert XorBools(a, b)[1..] == XorBools(a[1..], b[1..]);
      FedLinear(Shift(x), Shift(y), a[1..], b[1..]);
    }
  }

  lemma {:induction false} FedZeros(n: nat)
    ensures Fed(0, Zeros(n)) == 0
  {
    hide Shift, Xor;
    if n > 0 {
      XorZero(0, 0);
      ShiftOfZero();
      assert Zeros(n)[1..] == Zeros(n - 1);
      FedZeros(n - 1);
    }
  }

  // ---------------------------------------------------------------- bytes are their bits

  lemma {:induction false} ShiftsFirst(c: byte, k: nat)
    requires k > 0
    ensures Shifts(c, k) == Shifts(Shift(c), k - 1)
  {
    hide Shift;
    if k > 1 {
      ShiftsFirst(c, k - 1);
    }
  }

  /** A byte is its low bit and the rest, and the rest moves down by one in a shift. */
  lemma LowBit(c: byte, d: byte)
    ensures Shift(Xor(c, d)) == Xor(Shift(Xor(c, d % 2)), d / 2)
  {
    hide Shift, Xor;
    var low, high: byte := d % 2, d / 2 * 2;
    XorEven(high);
    SplitXor(d);
    XorZero(c, 0);
    XorZero(high, 0);
    XorCommutes(0, high);
    XorExchange(c, low, 0, high);
    ShiftLinear(Xor(c, low), high);
  }

  lemma XorEven(d: byte)
    requires d % 2 == 0
    ensures Shift(d) == d / 2
  {
    XorZero(d / 2, 0);
  }

  lemma SplitXor(d: byte)
    ensures Xor(d % 2, d / 2 * 2) == d
  {
    hide Xor;
    var high: byte := d / 2 * 2;
    XorHalves(d % 2, high);
    XorZero(d / 2, 0);
    XorCommutes(0, d / 2);
  }

  lemma {:induction false} FedByte(c: byte, d: byte, k: nat)
    requires d < Pow(2, k)
    ensures Fed(c, BitsOf(d, k)) == Shifts(Xor(c, d), k)
    decreases k
  {
    hide Shift, Xor;
    if k == 0 {
      XorZero(c, 0);
    } else {
      LowBit(c, d);
      ShiftsFirst(Xor(c, d), k);
      FedByte(Shift(Xor(c, d % 2)), d / 2, k - 1);
      assert BitsOf(d, k)[1..] == BitsOf(d / 2, k - 1);
    }
  }

  lemma {:induction false} RegisterIsFed(c: byte, data: seq<byte>)
    ensures Register(c, data) == Fed(c, Bits(data))
  {
    hide Shift, Xor, Fed;
    if data == [] {
      FedNothing(c);
    } else {
      var n := |data| - 1;
      RegisterIsFed(c, data[..n]);
      SmallPowers();
      FedByte(Register(c, data[..n]), data[n], 8);
      FedConcat(c, Bits(data[..n]), BitsOf(data[n], 8));
    }
  }

  lemma FedNothing(c: byte)
    ensures Fed(c, []) == c
  {
  }

  // ---------------------------------------------------------------- multiples

  /** The generator times a polynomial, by long multiplication. */
  function Product(q: seq<bool>): (r: seq<bool>)
    ensures |r| == |q| + 8
  {
    if q == [] then Zeros(8)
    else XorBools((if q[0] then GENERATOR else Zeros(9)) + Zeros(|q| - 1), [false] + Product(q[1..]))
  }

  predicate IsProduct(bits: seq<bool>, q: seq<bool>)
  {
    |bits| == |q| + 8 && Product(q) == bits
  }

  lemma FedGenerator()
    ensures Fed(0, GENERATOR) == 0
  {
    hide Fed, Xor, Shift;
    FedFirst(GENERATOR[1..]);
    assert GENERATOR == [true] + GENERATOR[1..];
    FedEven(0xb2, false, [true, false, false, true, true, false, true]);
    assert [false] + [true, false, false, true, true, false, true]
        == [false, true, false, false, true, true, false, true];
    FedEven(0x59, true, [false, false, true, true, false, true]);
    assert [true] + [false, false, true, true, false, true] == [true, false, false, true, true, false, true];
    FedEven(0x2c, false, [false, true, true, false, true]);
    assert [false] + [false, true, true, false, true] == [false, false, true, true, false, true];
    FedEven(0x16, false, [true, true, false, true]);
    assert [false] + [true, true, false, true] == [false, true, true, false, true];
    FedEven(0x0b, true, [true, false, true]);
    assert [true] + [true, false, true] == [true, true, false, true];
    FedEven(0x05, true, [false, true]);
    assert [true] + [false, true] == [true, false, true];
    FedEven(0x02, false, [true]);
    assert [false] + [true] == [false, true];
    FedEven(0x01, true, []);
    assert [true] + [] == [true];
    FedNothing(0);
  }

  /** A bit fed to an empty register is shifted out at once. */
  lemma FedFirst(rest: seq<bool>)
    ensures Fed(0, [true] + rest) == Fed(0xb2, rest)
  {
    XorZero(1, 0);
    XorZero(0xb2, 0);
    XorCommutes(0, 1);
    XorCommutes(0, 0xb2);
    hide Xor;
    assert ([true] + rest)[1..] == rest;
  }

  /** A bit that meets its like at the low end is not fed back. */
  lemma FedEven(c: byte, on: bool, rest: seq<bool>)
    requires on == (c % 2 == 1)
    ensures Fed(c, [on] + rest) == Fed(c / 2, rest)
  {
    hide Xor, Shift;
    FlipLow(c);
    XorZero(c, 0);
    XorEven(Xor(c, Bit(on)));
    assert ([on] + rest)[1..] == rest;
  }

  lemma FlipLow(c: byte)
    ensures Xor(c, 1) == if c % 2 == 1 then c - 1 else c + 1
  {
    hide Xor;
    XorHalves(c, 1);
    XorZero(c / 2, 0);
  }

  /** Every multiple of the generator leaves the register as it was. */
  lemma {:induction false} FedProduct(q: seq<bool>)
    ensures Fed(0, Product(q)) == 0
  {
    hide Xor, Shift, Fed;
    if q == [] {
      FedZeros(8);
    } else {
      var first := if q[0] then GENERATOR else Zeros(9);
      FedGenerator();
      FedZeros(9);
      FedZeros(|q| - 1);
      FedConcat(0, first, Zeros(|q| - 1));
      FedProduct(q[1..]);
      FedLeadingZero(Product(q[1..]));
      FedLinear(0, 0, first + Zeros(|q| - 1), [false] + Product(q[1..]));
      XorZero(0, 0);
    }
  }

  lemma FedLeadingZero(bits: seq<bool>)
    ensures Fed(0, [false] + bits) == Fed(0, bits)
  {
    hide Xor, Shift;
    XorZero(0, 0);
    ShiftOfZero();
    assert ([false] + bits)[1..] == bits;
  }

  /** And nothing else does: long division. */
  lemma {:induction false} Quotient(bits: seq<bool>) returns (q: seq<bool>)
    requires |bits| >= 8 && Fed(0, bits) == 0
    ensures IsProduct(bits, q)
    decreases |bits|
  {
    hide Xor, Shift, Fed, Product;
    if |bits| == 8 {
      EightBits(bits);
      q := [];
      ProductStep(q);
    } else {
      var m := |bits| - 9;
      var first := if bits[0] then GENERATOR else Zeros(9);
      var rest := XorBools(bits, first + Zeros(m));
      FedGenerator();
      FedZeros(9);
      FedZeros(m);
      FedConcat(0, first, Zeros(m));
      FedLinear(0, 0, bits, first + Zeros(m));
      XorZero(0, 0);
      assert !rest[0] && rest == [false] + rest[1..];
      FedLeadingZero(rest[1..]);
      var q' := Quotient(rest[1..]);
      q := [bits[0]] + q';
      assert q[1..] == q';
      ProductStep(q);
      assert XorBools(first + Zeros(m), rest) == bits;
    }
  }

  lemma ProductStep(q: seq<bool>)
    ensures Product(q) == if q == [] then Zeros(8)
                          else XorBools((if q[0] then GENERATOR else Zeros(9)) + Zeros(|q| - 1),
                                        [false] + Product(q[1..]))
  {
  }

  function NumberOf(bits: seq<bool>): (d: nat)
    ensures d < Pow(2, |bits|)
    decreases |bits|
  {
    if bits == [] then 0 else 2 * NumberOf(bits[1..]) + if bits[0] then 1 else 0
  }

  lemma {:induction false} BitsOfNumber(bits: seq<bool>)
    ensures BitsOf(NumberOf(bits), |bits|) == bits
    decreases |bits|
  {
    if bits != [] {
      BitsOfNumber(bits[1..]);
    }
  }

  /** Eight bits are a byte, and only a zero byte leaves the register at zero. */
  lemma EightBits(bits: seq<bool>)
    requires |bits| == 8 && Fed(0, bits) == 0
    ensures bits == Zeros(8)
  {
    hide Xor, Shift, Fed;
    SmallPowers();
    var d: byte := NumberOf(bits);
    BitsOfNumber(bits);
    FedByte(0, d, 8);
    ShiftsZero(Xor(0, d), 8);
    XorZero(0, d);
    ZeroBits(8);
  }

  lemma {:induction false} ZeroBits(k: nat)
    ensures BitsOf(0, k) == Zeros(k)
  {
    if k > 0 {
      ZeroBits(k - 1);
    }
  }

  /** Which changes escape: exactly those whose pattern, over the bytes before the last, is a
      multiple of the generator. */
  lemma EscapesExactly(a: seq<byte>, b: seq<byte>)
    requires |a| == |b| >= 2
    ensures Checksum(a) == Checksum(b) <==> exists q :: IsProduct(Bits(XorSeq(Covered(a), Covered(b))), q)
  {
    hide Register, Fed, Product;
    var e := XorSeq(Covered(a), Covered(b));
    UndetectedErrors(a, b);
    RegisterIsFed(0, e);
    if Fed(0, Bits(e)) == 0 {
      var q := Quotient(Bits(e));
    }
    forall q | IsProduct(Bits(e), q) ensures Fed(0, Bits(e)) == 0 {
      FedProduct(q);
    }
  }

  /** The shortest change that escapes: the generator itself, over two bytes. */
  lemma ShortestEscape(x: byte, y: byte, z: byte, z': byte)
    ensures Checksum([x, y, z]) == Checksum([Xor(x, 0x65), Xor(y, 0x01), z'])
  {
    hide Xor, Checksum, Product, GENERATOR;
    var a, b := [x, y, z], [Xor(x, 0x65), Xor(y, 0x01), z'];
    XorBack(x, 0x65);
    XorBack(y, 0x01);
    assert XorSeq(Covered(a), Covered(b)) == [0x65, 0x01];
    PatternBits();
    EscapesExactly(a, b);
    GeneratorDivides();
  }

  lemma XorBack(x: byte, m: byte)
    ensures Xor(x, Xor(x, m)) == m
  {
    hide Xor;
    XorCommutes(x, m);
    XorCommutes(x, Xor(m, x));
    XorInvolutive(m, x);
  }

  lemma PatternBits()
    ensures Bits([0x65, 0x01]) == GENERATOR + Zeros(7)
  {
    hide BitsOf;
    LowPattern();
    HighPattern();
    assert [0x65 as byte, 0x01][..1] == [0x65] && [0x65 as byte][..0] == [];
    assert Bits([0x65]) == BitsOf(0x65, 8);
  }

  lemma LowPattern()
    ensures BitsOf(0x65, 8) == [true, false, true, false, false, true, true, false]
  {
    hide BitsOf;
    BitsOfStep(0x65, 8);
    BitsOfStep(0x32, 7);
    BitsOfStep(0x19, 6);
    BitsOfStep(0x0c, 5);
    BitsOfStep(0x06, 4);
    BitsOfStep(0x03, 3);
    BitsOfStep(0x01, 2);
    BitsOfStep(0x00, 1);
  }

  lemma HighPattern()
    ensures BitsOf(0x01, 8) == [true] + Zeros(7)
  {
    hide BitsOf;
    BitsOfStep(1, 8);
    ZeroBits(7);
  }

  lemma BitsOfStep(d: nat, k: nat)
    requires k > 0
    ensures BitsOf(d, k) == [d % 2 == 1] + BitsOf(d / 2, k - 1)
  {
  }

  lemma GeneratorDivides()
    ensures IsProduct(GENERATOR + Zeros(7), [true] + Zeros(7))
  {
    hide Product;
    ProductOfZeros(7);
    ProductStep([true] + Zeros(7));
    assert ([true] + Zeros(7))[1..] == Zeros(7);
    assert XorBools(GENERATOR + Zeros(7), [false] + Zeros(15)) == GENERATOR + Zeros(7);
    assert [false] + Zeros(15) == Zeros(16);
  }

  lemma {:induction false} ProductOfZeros(n: nat)
    ensures Product(Zeros(n)) == Zeros(n + 8)
  {
    if n > 0 {
      ProductOfZeros(n - 1);
      assert Zeros(n)[1..] == Zeros(n - 1);
      assert XorBools(Zeros(9) + Zeros(n - 1), [false] + Zeros(n + 7)) == Zeros(n + 8);
    }
  }

  // ---------------------------------------------------------------- a known answer

  lemma {:induction false} XorNumbers(a: seq<bool>, b: seq<bool>)
    requires |a| == |b|
    ensures XorBits(NumberOf(a), NumberOf(b), |a|) == NumberOf(XorBools(a, b))
    decreases |a|
  {
    hide XorBits, NumberOf;
    if a == [] {
      XorNoBits(0, 0);
      NoNumber();
    } else {
      XorNumbers(a[1..], b[1..]);
      assert XorBools(a, b)[1..] == XorBools(a[1..], b[1..]);
      NumberStep(a);
      NumberStep(b);
      NumberStep(XorBools(a, b));
      XorBitsUnfold(NumberOf(a), NumberOf(b), |a|);
    }
  }

  lemma NoNumber()
    ensures NumberOf([]) == 0
  {
  }

  lemma NumberStep(bits: seq<bool>)
    requires bits != []
    ensures NumberOf(bits) == 2 * NumberOf(bits[1..]) + if bits[0] then 1 else 0
    ensures NumberOf(bits) / 2 == NumberOf(bits[1..]) && NumberOf(bits) % 2 == if bits[0] then 1 else 0
  {
  }

  /** The register bit by bit. */
  datatype Cells = Cells(b0: bool, b1: bool, b2: bool, b3: bool, b4: bool, b5: bool, b6: bool, b7: bool)
  {
    function ToSeq(): seq<bool> {
      [b0, b1, b2, b3, b4, b5, b6, b7]
    }

    function Half(): Cells {
      Cells(b1, b2, b3, b4, b5, b6, b7, false)
    }

    /** A shift: what is shifted out flips bits 1, 4, 5 and 7. */
    function Next(): Cells {
      if b0 then Cells(b1, !b2, b3, b4, !b5, !b6, b7, true) else Half()
    }
  }

  function After(c: Cells, k: nat): Cells
    decreases k
  {
    if k == 0 then c else After(c.Next(), k - 1)
  }

  function ByteOf(c: Cells): byte
  {
    SmallPowers();
    NumberOf(c.ToSeq())
  }

  lemma XorCells(c: Cells, d: Cells, e: Cells)
    requires e.ToSeq() == XorBools(c.ToSeq(), d.ToSeq())
    ensures Xor(ByteOf(c), ByteOf(d)) == ByteOf(e)
  {
    XorNumbers(c.ToSeq(), d.ToSeq());
  }

  /** Positions 1, 4, 5 and 7. */
  const FEEDBACK: Cells := Cells(false, true, false, false, true, true, false, true)

  lemma ByteOfHalf(c: Cells)
    ensures ByteOf(c) % 2 == (if c.b0 then 1 else 0)
    ensures ByteOf(c) / 2 == ByteOf(c.Half())
  {
    hide NumberOf;
    var d := c.Half();
    NumberStep(c.ToSeq());
    LeadingZero(c.ToSeq()[1..]);
    assert d.ToSeq() == c.ToSeq()[1..] + [false];
  }

  lemma {:induction false} LeadingZero(bits: seq<bool>)
    ensures NumberOf(bits + [false]) == NumberOf(bits)
    decreases |bits|
  {
    if bits != [] {
      LeadingZero(bits[1..]);
      assert (bits + [false])[1..] == bits[1..] + [false];
    } else {
      assert (bits + [false])[1..] == [];
    }
  }

  function One(on: bool): nat
  {
    if on then 1 else 0
  }

  lemma ByteOfIs(c: Cells)
    ensures ByteOf(c) == One(c.b0) + 2 * One(c.b1) + 4 * One(c.b2) + 8 * One(c.b3) + 16 * One(c.b4)
                       + 32 * One(c.b5) + 64 * One(c.b6) + 128 * One(c.b7)
  {
    hide NumberOf, One, Cells.ToSeq;
    NumberOfCells(c);
  }

  lemma NumberOfCells(c: Cells)
    ensures NumberOf(c.ToSeq())
         == One(c.b0) + 2 * One(c.b1) + 4 * One(c.b2) + 8 * One(c.b3) + 16 * One(c.b4)
            + 32 * One(c.b5) + 64 * One(c.b6) + 128 * One(c.b7)
  {
    hide NumberOf, One, Cells.ToSeq;
    CellsInOrder(c);
    var s := c.ToSeq();
    NumberOfEight(s);
    SameOnes(s[0], c.b0, s[1], c.b1, s[2], c.b2, s[3], c.b3);
    SameOnes(s[4], c.b4, s[5], c.b5, s[6], c.b6, s[7], c.b7);
  }

  lemma SameOnes(a: bool, a': bool, b: bool, b': bool, c: bool, c': bool, d: bool, d': bool)
    requires a == a' && b == b' && c == c' && d == d'
    ensures One(a) == One(a') && One(b) == One(b') && One(c) == One(c') && One(d) == One(d')
  {
  }

  lemma CellsInOrder(c: Cells)
    ensures var s := c.ToSeq();
            && |s| == 8 && s[0] == c.b0 && s[1] == c.b1 && s[2] == c.b2 && s[3] == c.b3
            && s[4] == c.b4 && s[5] == c.b5 && s[6] == c.b6 && s[7] == c.b7
  {
  }

  lemma NumberOfEight(s: seq<bool>)
    requires |s| == 8
    ensures NumberOf(s)
         == One(s[0]) + 2 * One(s[1]) + 4 * One(s[2]) + 8 * One(s[3]) + 16 * One(s[4])
            + 32 * One(s[5]) + 64 * One(s[6]) + 128 * One(s[7])
  {
    hide NumberOf, One;
    NoNumber();
    NumberOfFour(s);
    NumberOfFour(s[4..]);
    assert s[4..][4..] == [];
  }

  lemma NumberOfFour(s: seq<bool>)
    requires |s| >= 4
    ensures NumberOf(s) == One(s[0]) + 2 * One(s[1]) + 4 * One(s[2]) + 8 * One(s[3]) + 16 * NumberOf(s[4..])
  {
    hide NumberOf;
    NumberStep(s);
    NumberStep(s[1..]);
    NumberStep(s[2..]);
    NumberStep(s[3..]);
    assert s[1..][1..] == s[2..] && s[2..][1..] == s[3..] && s[3..][1..] == s[4..];
  }

  lemma NextFlips(c: Cells)
    requires c.b0
    ensures c.Next().ToSeq() == XorBools(c.Half().ToSeq(), FEEDBACK.ToSeq())
  {
  }

  lemma NextIsShift(c: Cells)
    ensures Shift(ByteOf(c)) == ByteOf(c.Next())
  {
    hide Xor, ByteOf, XorBits, NumberOf;
    ByteOfHalf(c);
    XorZero(ByteOf(c.Half()), 0);
    ByteOfIs(FEEDBACK);
    if c.b0 {
      NextFlips(c);
      XorCells(c.Half(), FEEDBACK, c.Next());
    }
  }

  lemma {:induction false} AfterShifts(c: Cells, k: nat)
    ensures Shifts(ByteOf(c), k) == ByteOf(After(c, k))
    decreases k
  {
    hide Shift, ByteOf;
    if k > 0 {
      ShiftsFirst(ByteOf(c), k);
      NextIsShift(c);
      AfterShifts(c.Next(), k - 1);
    }
  }

  function ZeroBytes(n: nat): (r: seq<byte>)
    ensures |r| == n
  {
    seq(n, _ => 0)
  }

  /** Zero bytes only shift the register. */
  lemma {:induction false} ZerosShift(c: byte, n: nat)
    ensures Register(c, ZeroBytes(n)) == Shifts(c, 8 * n)
  {
    hide Xor;
    if n > 0 {
      ZerosShift(c, n - 1);
      assert ZeroBytes(n)[..n - 1] == ZeroBytes(n - 1);
      XorZero(Shifts(c, 8 * n - 8), 0);
      ShiftsAdd(c, 8 * n - 8, 8);
    }
  }

  lemma {:induction false} ShiftsAdd(c: byte, j: nat, k: nat)
    ensures Shifts(Shifts(c, j), k) == Shifts(c, j + k)
    decreases k
  {
    hide Shift;
    if k > 0 {
      ShiftsAdd(c, j, k - 1);
    }
  }

  const ONES: Cells := Cells(true, true, true, true, true, true, true, true)

  lemma {:induction false} AfterMore(c: Cells, j: nat, k: nat)
    ensures After(After(c, j), k) == After(c, j + k)
    decreases j
  {
    if j > 0 {
      AfterMore(c.Next(), j - 1, k);
    }
  }

  /** Eight shifts: a zero byte. */
  lemma AfterByte(n: nat, d: Cells)
    requires d == After(ONES, 8 * n).Next().Next().Next().Next().Next().Next().Next().Next()
    ensures After(ONES, 8 * n + 8) == d
  {
    var c := After(ONES, 8 * n);
    AfterMore(ONES, 8 * n, 8);
    assert After(c.Next().Next().Next().Next(), 4) == d;
  }

  lemma AfterBytes8()
    ensures After(ONES, 64) == Cells(false, true, true, true, false, false, false, true)
  {
    hide After;
    AfterNone();
    AfterByte(0, Cells(true, false, true, false, true, false, false, false));
    AfterByte(1, Cells(true, false, false, true, false, false, false, true));
    AfterByte(2, Cells(true, false, false, true, true, false, false, false));
    AfterByte(3, Cells(false, false, true, false, false, true, true, true));
    AfterByte(4, Cells(true, false, true, true, false, false, false, true));
    AfterByte(5, Cells(true, false, false, false, false, true, true, true));
    AfterByte(6, Cells(true, true, false, true, false, false, true, false));
    AfterByte(7, Cells(false, true, true, true, false, false, false, true));
  }

  lemma AfterBytes16()
    ensures After(ONES, 128) == Cells(false, true, false, true, true, false, true, true)
  {
    hide After;
    AfterBytes8();
    AfterByte(8, Cells(true, true, false, false, false, true, false, true));
    AfterByte(9, Cells(false, true, true, true, false, true, true, false));
    AfterByte(10, Cells(false, true, true, false, true, false, true, true));
    AfterByte(11, Cells(false, false, false, false, false, true, false, false));
    AfterByte(12, Cells(false, true, true, true, true, false, false, true));
    AfterByte(13, Cells(false, false, true, true, false, true, true, true));
    AfterByte(14, Cells(false, false, false, true, true, false, false, false));
    AfterByte(15, Cells(false, true, false, true, true, false, true, true));
  }

  lemma AfterBytes24()
    ensures After(ONES, 192) == Cells(false, false, true, true, true, false, false, true)
  {
    hide After;
    AfterBytes16();
    AfterByte(16, Cells(true, false, true, true, false, false, true, false));
    AfterByte(17, Cells(false, true, false, true, false, false, false, false));
    AfterByte(18, Cells(true, false, false, true, false, true, true, true));
    AfterByte(19, Cells(false, true, true, true, true, false, true, true));
    AfterByte(20, Cells(true, false, true, false, true, true, false, true));
    AfterByte(21, Cells(true, false, true, false, false, true, false, true));
    AfterByte(22, Cells(false, true, false, true, false, true, true, true));
    AfterByte(23, Cells(false, false, true, true, true, false, false, true));
  }

  lemma AfterBytes31()
    ensures After(ONES, 248) == Cells(true, false, true, true, false, true, false, false)
  {
    hide After;
    AfterBytes24();
    AfterByte(24, Cells(false, false, false, false, true, false, false, true));
    AfterByte(25, Cells(true, false, true, true, true, true, true, true));
    AfterByte(26, Cells(true, false, false, true, false, true, true, false));
    AfterByte(27, Cells(false, false, true, true, false, true, true, false));
    AfterByte(28, Cells(false, true, false, true, false, true, false, true));
    AfterByte(29, Cells(true, false, true, false, false, false, true, true));
    AfterByte(30, Cells(true, false, true, true, false, true, false, false));
  }

  lemma AfterNone()
    ensures After(ONES, 0) == ONES
  {
  }

  /** The checksum of 32 zero bytes, of which it reads 31. */
  lemma ZeroChecksum()
    ensures Checksum(ZeroBytes(32)) == 0xd2
  {
    hide Register, Shifts, After, Xor, ByteOf;
    assert Covered(ZeroBytes(32)) == ZeroBytes(31);
    ZerosShift(0xff, 31);
    ByteOfIs(ONES);
    AfterShifts(ONES, 248);
    AfterBytes31();
    var left := Cells(true, false, true, true, false, true, false, false);
    var answer := Cells(false, true, false, false, true, false, true, true);
    XorCells(left, ONES, answer);
    ByteOfIs(answer);
  }
}

/** The 8-bit checksum of legacy phrases: a reflected CRC with polynomial 0xb2, started
    at 0xff and complemented at the end. It reads every byte except the last. */
module Crc8 {
  import opened Wrappers
  import opened Numerals
  import opened Bitwise

  // The feedback polynomial, bits reversed.
  const POLYNOMIAL: byte := 0xb2

  /** What the bit shifted out feeds back into the register. */
  function Mask(on: bool, m: byte): byte
  {
    if on then m else 0
  }

  function ShiftBy(c: byte, polynomial: byte): byte
  {
    Xor(c / 2, Mask(c % 2 == 1, polynomial))
  }

  /** One shift of the register. */
  function Shift(c: byte): byte
  {
    ShiftBy(c, POLYNOMIAL)
  }

  function Shifts(c: byte, k: nat): byte
  {
    if k == 0 then c else Shift(Shifts(c, k - 1))
  }

  /** The register after absorbing `data`, started at `c`. */
  function Register(c: byte, data: seq<byte>): byte
  {
    if data == [] then c
    else Shifts(Xor(Register(c, data[..|data| - 1]), data[|data| - 1]), 8)
  }

  function Covered(data: seq<byte>): seq<byte>
  {
    if data == [] then [] else data[..|data| - 1]
  }

  function Checksum(data: seq<byte>): byte
  {
    Xor(Register(0xff, Covered(data)), 0xff)
  }

  method Compute(data: seq<byte>) returns (r: byte)
    ensures r == Checksum(data)
  {
    hide Xor;
    var crc: byte := 0xff;
    var i := 0;
    while i < |data| - 1
      invariant 0 <= i <= |Covered(data)|
      invariant crc == Register(0xff, data[..i])
    {
      crc := Xor(crc, data[i]);
      ghost var start := crc;
      var j := 0;
      while j < 8
        invariant 0 <= j <= 8
        invariant crc == Shifts(start, j)
      {
        var temp: byte := if crc % 2 == 0 then 0 else POLYNOMIAL;
        crc := Xor(crc / 2, temp);
        j := j + 1;
      }
      assert data[..i + 1][..i] == data[..i];
      i := i + 1;
    }
    r := Xor(crc, 0xff);
  }

  function XorSeq(a: seq<byte>, b: seq<byte>): (r: seq<byte>)
    requires |a| == |b|
    ensures |r| == |a|
  {
    seq(|a|, i requires 0 <= i < |a| => Xor(a[i], b[i]))
  }

  lemma MaskLinear(on: bool, on': bool, m: byte)
    ensures Xor(Mask(on, m), Mask(on', m)) == Mask(on != on', m)
  {
    var zero: byte := 0;
    XorZero(m, m);
    XorZero(m, zero);
    XorZero(zero, zero);
    XorCommutes(zero, m);
  }

  lemma OddSum(c: nat, d: nat, x: nat)
    requires x % 2 == (c + d) % 2
    ensures (x % 2 == 1) == ((c % 2 == 1) != (d % 2 == 1))
  {
  }

  lemma ShiftByLinear(c: byte, d: byte, m: byte)
    ensures ShiftBy(Xor(c, d), m) == Xor(ShiftBy(c, m), ShiftBy(d, m))
  {
    var oc, od := c % 2 == 1, d % 2 == 1;
    calc {
      ShiftBy(Xor(c, d), m);
      { XorHalves(c, d); OddSum(c, d, Xor(c, d)); }
      Xor(Xor(c / 2, d / 2), Mask(oc != od, m));
      { MaskLinear(oc, od, m); }
      Xor(Xor(c / 2, d / 2), Xor(Mask(oc, m), Mask(od, m)));
      { XorExchange(c / 2, Mask(oc, m), d / 2, Mask(od, m)); }
      Xor(ShiftBy(c, m), ShiftBy(d, m));
    }
  }

  lemma ShiftLinear(c: byte, d: byte)
    ensures Shift(Xor(c, d)) == Xor(Shift(c), Shift(d))
  {
    ShiftByLinear(c, d, POLYNOMIAL);
  }

  /** A shift loses nothing: the bit shifted out decides the top bit of the result. */
  lemma ShiftInjective(c: byte)
    requires Shift(c) == 0
    ensures c == 0
  {
    XorZero(c / 2, 0);
    if c % 2 == 1 {
      XorTop(c / 2, POLYNOMIAL);
    }
  }

  lemma ShiftOfZero()
    ensures Shift(0) == 0
  {
    XorZero(0, 0);
  }

  lemma {:induction false} ShiftsLinear(c: byte, d: byte, k: nat)
    ensures Shifts(Xor(c, d), k) == Xor(Shifts(c, k), Shifts(d, k))
  {
    hide Xor, Shift;
    if k > 0 {
      ShiftsLinear(c, d, k - 1);
      ShiftLinear(Shifts(c, k - 1), Shifts(d, k - 1));
    }
  }

  lemma {:induction false} ShiftsZero(c: byte, k: nat)
    ensures Shifts(c, k) == 0 <==> c == 0
  {
    hide Xor, Shift;
    if k > 0 {
      ShiftsZero(c, k - 1);
      ShiftOfZero();
      if Shifts(c, k) == 0 {
        ShiftInjective(Shifts(c, k - 1));
      }
    }
  }

  /** The register is linear: XORing two runs is running on the XORed bytes. */
  lemma {:induction false} RegisterLinear(c: byte, d: byte, a: seq<byte>, b: seq<byte>)
    requires |a| == |b|
    ensures Register(Xor(c, d), XorSeq(a, b)) == Xor(Register(c, a), Register(d, b))
  {
    if a != [] {
      var n := |a| - 1;
      RegisterLinear(c, d, a[..n], b[..n]);
      assert XorSeq(a, b)[..n] == XorSeq(a[..n], b[..n]);
      XorExchange(Register(c, a[..n]), Register(d, b[..n]), a[n], b[n]);
      ShiftsLinear(Xor(Register(c, a[..n]), a[n]), Xor(Register(d, b[..n]), b[n]), 8);
    }
  }

  /** Exactly which corruptions escape: those whose error pattern, without its last byte,
      drives a zero register back to zero. */
  lemma UndetectedErrors(a: seq<byte>, b: seq<byte>)
    requires |a| == |b|
    ensures Checksum(a) == Checksum(b) <==> Register(0, XorSeq(Covered(a), Covered(b))) == 0
  {
    var p, q := Register(0xff, Covered(a)), Register(0xff, Covered(b));
    RegisterLinear(0xff, 0xff, Covered(a), Covered(b));
    XorZero(0xff, 0xff);
    XorZero(p, q);
    XorInvolutive(p, 0xff);
    XorInvolutive(q, 0xff);
  }

  /** After the last nonzero byte of an error pattern the register stays nonzero. */
  lemma {:induction false} SingleErrorRegister(e: seq<byte>, p: nat)
    requires p < |e|
    requires forall i :: 0 <= i < |e| && i != p ==> e[i] == 0
    ensures Register(0, e) == 0 <==> e[p] == 0
    decreases |e|
  {
    var n := |e| - 1;
    XorZero(0, 0);
    if p < n {
      SingleErrorRegister(e[..n], p);
      var r := Register(0, e[..n]);
      XorZero(r, 0);
      ShiftsZero(r, 8);
    } else {
      ZeroRegister(e[..n]);
      XorZero(0, e[n]);
      ShiftsZero(Xor(0, e[n]), 8);
    }
  }

  lemma {:induction false} ZeroRegister(e: seq<byte>)
    requires forall i :: 0 <= i < |e| ==> e[i] == 0
    ensures Register(0, e) == 0
  {
    if e != [] {
      ZeroRegister(e[..|e| - 1]);
      XorZero(0, 0);
      ShiftsZero(0, 8);
    }
  }

  /** A change confined to one byte is missed only when that byte is the last one. */
  lemma SingleByteDetected(a: seq<byte>, b: seq<byte>, p: nat)
    requires |a| == |b| && p < |a|
    requires forall i :: 0 <= i < |a| && i != p ==> a[i] == b[i]
    ensures Checksum(a) == Checksum(b) <==> a[p] == b[p] || p == |a| - 1
  {
    if p == |a| - 1 {
      assert Covered(a) == Covered(b);
    } else {
      UndetectedErrors(a, b);
      var e := XorSeq(Covered(a), Covered(b));
      forall i | 0 <= i < |e| ensures e[i] == 0 <==> a[i] == b[i] {
        XorZero(a[i], b[i]);
      }
      SingleErrorRegister(e, p);
    }
  }
}

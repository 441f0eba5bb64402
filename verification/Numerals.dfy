/** Positional numerals, most significant digit first: the meaning of every big-endian
    field, radix conversion and bit string in the other modules. */
module Numerals {

  function Pow(b: int, e: nat): int
  {
    if e == 0 then 1 else b * Pow(b, e - 1)
  }

  /** Value of a numeral by Horner's rule. */
  function Value(ds: seq<int>, base: int): int
  {
    if ds == [] then 0 else Value(ds[..|ds| - 1], base) * base + ds[|ds| - 1]
  }

  /** The `len` least significant digits of `n`. */
  function Digits(n: int, base: int, len: nat): (ds: seq<int>)
    requires base > 0
    ensures |ds| == len && InBase(ds, base)
    decreases len, n
  {
    if len == 0 then [] else Digits(n / base, base, len - 1) + [n % base]
  }

  predicate InBase(ds: seq<int>, base: int)
  {
    forall k :: 0 <= k < |ds| ==> 0 <= ds[k] < base
  }

  /** Every digit written out again as `k` digits of the smaller base. */
  function Expand(ds: seq<int>, base: int, k: nat): (r: seq<int>)
    requires base > 0
    ensures InBase(r, base)
  {
    if ds == [] then [] else Expand(ds[..|ds| - 1], base, k) + Digits(ds[|ds| - 1], base, k)
  }

  lemma {:induction false} ExpandLength(ds: seq<int>, base: int, k: nat)
    requires base > 0
    ensures |Expand(ds, base, k)| == |ds| * k
  {
    if ds != [] {
      ExpandLength(ds[..|ds| - 1], base, k);
      assert (|ds| - 1) * k + k == |ds| * k;
    }
  }

  lemma ExpandAppend(init: seq<int>, last: int, base: int, k: nat)
    requires base > 0
    ensures Expand(init + [last], base, k) == Expand(init, base, k) + Digits(last, base, k)
  {
    assert (init + [last])[..|init|] == init;
  }

  lemma {:induction false} PowPositive(b: int, e: nat)
    requires b > 0
    ensures Pow(b, e) > 0
  {
    if e > 0 {
      PowPositive(b, e - 1);
    }
  }

  lemma {:induction false} PowAdd(b: int, d: nat, e: nat)
    ensures Pow(b, d + e) == Pow(b, d) * Pow(b, e)
  {
    if d > 0 {
      PowAdd(b, d - 1, e);
      assert Pow(b, d + e) == b * (Pow(b, d - 1) * Pow(b, e));
    }
  }

  lemma {:induction false} PowPow(b: int, d: nat, e: nat)
    ensures Pow(Pow(b, d), e) == Pow(b, d * e)
  {
    if e > 0 {
      PowPow(b, d, e - 1);
      assert d * e == d + d * (e - 1);
      PowAdd(b, d, d * (e - 1));
    }
  }

  /** `n` split at `base`, then its quotient split at `p`, is `n` split at `base * p`. */
  lemma ModSplit(n: int, base: int, p: int)
    requires base > 0 && p > 0
    ensures base * p > 0
    ensures (n / base) % p * base + n % base == n % (base * p)
    ensures (n / base) / p == n / (base * p)
  {
    var q, r := n / base, n % base;
    var s, t := q / p, q % p;
    SplitTwice(n, base, p, q, r, s, t);
    DivModUnique(n, base * p, s, t * base + r);
  }

  lemma SplitTwice(n: int, base: int, p: int, q: int, r: int, s: int, t: int)
    requires n == base * q + r && 0 <= r < base && q == p * s + t && 0 <= t < p
    ensures base * p > 0 && n == (base * p) * s + (t * base + r) && 0 <= t * base + r < base * p
  {
    assert base * q == (base * p) * s + t * base;
    assert t * base <= (p - 1) * base == base * p - base;
  }

  /** A term reduced beforehand changes nothing. */
  lemma ModOfSum(n: int, d: int, m: int)
    requires m > 0
    ensures (n % m + d) % m == (n + d) % m
  {
    var s := n % m + d;
    DivModUnique(n + d, m, n / m + s / m, s % m);
  }

  lemma DivModUnique(n: int, d: int, q: int, r: int)
    requires d > 0 && n == d * q + r && 0 <= r < d
    ensures n / d == q && n % d == r
  {
    var k := q - n / d;
    assert d * k == n % d - r;
    assert k >= 1 ==> d * k >= d;
    assert k <= -1 ==> d * k <= -d;
  }

  lemma ValueOfAppend(init: seq<int>, last: int, base: int)
    ensures Value(init + [last], base) == Value(init, base) * base + last
  {
    assert (init + [last])[..|init|] == init;
  }

  /** Reading back `len` digits of `n` gives `n` reduced to what `len` digits can hold. */
  lemma {:induction false} ValueOfDigits(n: int, base: int, len: nat)
    requires base > 0
    ensures Pow(base, len) > 0
    ensures Value(Digits(n, base, len), base) == n % Pow(base, len)
    decreases len
  {
    PowPositive(base, len);
    if len > 0 {
      var q, r := n / base, n % base;
      ValueOfDigits(q, base, len - 1);
      ValueOfAppend(Digits(q, base, len - 1), r, base);
      ModSplit(n, base, Pow(base, len - 1));
      calc {
        Value(Digits(n, base, len), base);
        Value(Digits(q, base, len - 1), base) * base + r;
        q % Pow(base, len - 1) * base + r;
        n % Pow(base, len);
      }
    }
  }

  lemma HornerBound(v: int, d: int, base: int, p: int)
    requires 0 <= v < p && 0 <= d < base
    ensures 0 <= v * base + d < base * p
  {
    assert (v + 1) * base <= p * base;
  }

  lemma {:induction false} ValueBound(ds: seq<int>, base: int)
    requires base > 0 && InBase(ds, base)
    ensures 0 <= Value(ds, base) < Pow(base, |ds|)
  {
    if ds != [] {
      var init := ds[..|ds| - 1];
      ValueBound(init, base);
      HornerBound(Value(init, base), ds[|ds| - 1], base, Pow(base, |init|));
    }
  }

  lemma {:induction false} DigitsOfValue(ds: seq<int>, base: int)
    requires base > 0 && InBase(ds, base)
    ensures Digits(Value(ds, base), base, |ds|) == ds
  {
    if ds != [] {
      var init := ds[..|ds| - 1];
      DigitsOfValue(init, base);
      DivModUnique(Value(ds, base), base, Value(init, base), ds[|ds| - 1]);
      assert ds == init + [ds[|ds| - 1]];
    }
  }

  lemma HornerStep(v: int, p: int, w: int, base: int)
    ensures (v * p + w) * base == v * (base * p) + w * base
  {
  }

  lemma {:induction false} ValueConcat(a: seq<int>, b: seq<int>, base: int)
    ensures Value(a + b, base) == Value(a, base) * Pow(base, |b|) + Value(b, base)
  {
    if b == [] {
      assert a + b == a;
    } else {
      var init := b[..|b| - 1];
      ValueConcat(a, init, base);
      ValueOfAppend(a + init, b[|b| - 1], base);
      assert a + b == a + init + [b[|b| - 1]];
      HornerStep(Value(a, base), Pow(base, |init|), Value(init, base), base);
    }
  }

  /** Regrouping: digits of `base^k` written out in `base` denote the same number. */
  lemma {:induction false} ValueOfExpand(ds: seq<int>, base: int, k: nat)
    requires base > 0 && InBase(ds, Pow(base, k))
    ensures Value(Expand(ds, base, k), base) == Value(ds, Pow(base, k))
  {
    if ds != [] {
      var init, last := ds[..|ds| - 1], ds[|ds| - 1];
      ValueOfExpand(init, base, k);
      ValueConcat(Expand(init, base, k), Digits(last, base, k), base);
      ValueOfDigits(last, base, k);
      DivModUnique(last, Pow(base, k), 0, last);
    }
  }

  /** A prefix is the quotient and a suffix the remainder. */
  lemma ValueSplit(ds: seq<int>, base: int, m: nat)
    requires base > 0 && InBase(ds, base) && m <= |ds|
    ensures Pow(base, |ds| - m) > 0
    ensures Value(ds[..m], base) == Value(ds, base) / Pow(base, |ds| - m)
    ensures Value(ds[m..], base) == Value(ds, base) % Pow(base, |ds| - m)
  {
    assert ds == ds[..m] + ds[m..];
    ValueConcat(ds[..m], ds[m..], base);
    ValueBound(ds[m..], base);
    DivModUnique(Value(ds, base), Pow(base, |ds| - m), Value(ds[..m], base), Value(ds[m..], base));
  }

  /** Equal-length numerals with equal value are equal. */
  lemma ValueInjective(a: seq<int>, b: seq<int>, base: int)
    requires base > 0 && InBase(a, base) && InBase(b, base) && |a| == |b|
    requires Value(a, base) == Value(b, base)
    ensures a == b
  {
    DigitsOfValue(a, base);
    DigitsOfValue(b, base);
  }

  /** The digit at position `p` is a quotient's remainder. */
  lemma {:induction false} DigitAt(n: int, base: int, len: nat, p: nat)
    requires base > 0 && p < len
    ensures Pow(base, len - 1 - p) > 0
    ensures Digits(n, base, len)[p] == n / Pow(base, len - 1 - p) % base
    decreases len
  {
    PowPositive(base, len - 1 - p);
    if p < len - 1 {
      DigitAt(n / base, base, len - 1, p);
      ModSplit(n, base, Pow(base, len - 2 - p));
    }
  }

  lemma {:induction false} ExpandPrefix(ds: seq<int>, base: int, k: nat, m: nat)
    requires base > 0 && m <= |ds|
    ensures Expand(ds[..m], base, k) <= Expand(ds, base, k)
    decreases |ds|
  {
    if m == |ds| {
      assert ds[..m] == ds;
    } else {
      ExpandPrefix(ds[..|ds| - 1], base, k, m);
      assert ds[..|ds| - 1][..m] == ds[..m];
    }
  }

  /** The digits that position `i` expands to. */
  lemma ExpandAt(ds: seq<int>, base: int, k: nat, i: nat)
    requires base > 0 && i < |ds|
    ensures 0 <= i * k <= i * k + k <= |Expand(ds, base, k)|
    ensures Expand(ds, base, k)[i * k..i * k + k] == Digits(ds[i], base, k)
  {
    hide Expand, Digits;
    ExpandPrefix(ds, base, k, i + 1);
    ExpandLength(ds[..i], base, k);
    ExpandAppend(ds[..i], ds[i], base, k);
    assert ds[..i + 1] == ds[..i] + [ds[i]];
  }

  lemma ModNext(n: nat, m: nat)
    requires m > 0
    ensures (n % m + 1) % m == (n + 1) % m
  {
    ModOfSum(n, 1, m);
  }
}

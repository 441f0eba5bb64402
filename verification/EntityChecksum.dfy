/** The five-letter checksum of an entity address, as laid down in HIP-15, section
    "Specification". */
module EntityChecksum {
  import opened Wrappers
  import opened Numerals
  import opened Sequences

  const P3: int := 26 * 26 * 26
  const P5: int := 26 * 26 * 26 * 26 * 26
  const M: int := 1000003
  const W: int := 31

  // ---------------------------------------------------------------- specification

  /** A dot counts as ten, a digit as itself; anything else fails to convert and counts as zero. */
  function Symbol(c: char): (d: int)
    ensures 0 <= d <= 10
  {
    if c == '.' then 10 else if '0' <= c <= '9' then c as int - '0' as int else 0
  }

  function Symbols(address: string): (ds: seq<int>)
    ensures |ds| == |address| && InBase(ds, 11)
  {
    seq(|address|, i requires 0 <= i < |address| => Symbol(address[i]))
  }

  /** The address read in base 31, modulo 26^3. */
  function Weighted(ds: seq<int>): (s: int)
    ensures 0 <= s < P3
  {
    if ds == [] then 0 else (W * Weighted(ds[..|ds| - 1]) + ds[|ds| - 1]) % P3
  }

  /** Sum of the symbols at positions of one parity, modulo 11. */
  function Alternate(ds: seq<int>, parity: int): (s: int)
    ensures 0 <= s < 11
  {
    if ds == [] then 0
    else AddIf((|ds| - 1) % 2 == parity, Alternate(ds[..|ds| - 1], parity), ds[|ds| - 1])
  }

  function AddIf(counts: bool, sum: int, d: int): (s: int)
    requires 0 <= sum < 11
    ensures 0 <= s < 11
  {
    if counts then (sum + d) % 11 else sum
  }

  /** The ledger bytes read in base 31, modulo 26^5. */
  function LedgerSum(h: seq<byte>): (s: int)
    ensures 0 <= s < P5
  {
    if h == [] then 0 else (W * LedgerSum(h[..|h| - 1]) + h[|h| - 1]) % P5
  }

  function Padded(ledger: seq<byte>): seq<byte>
  {
    ledger + [0, 0, 0, 0, 0, 0]
  }

  datatype Fingerprint = Fingerprint(length: int, even: int, odd: int, weighted: int)

  function FingerprintOf(address: string): Fingerprint
  {
    var ds := Symbols(address);
    Fingerprint(|address| % 5, Alternate(ds, 0), Alternate(ds, 1), Weighted(ds))
  }

  /** The address's share of the checksum, before the ledger's is added. */
  function Packed(f: Fingerprint): int
  {
    ((f.length * 11 + f.even) * 11 + f.odd) * P3 + f.weighted
  }

  function Spell(ds: seq<int>): (s: string)
    requires InBase(ds, 26)
    ensures |s| == |ds| && forall i :: 0 <= i < |s| ==> 'a' <= s[i] <= 'z'
  {
    seq(|ds|, i requires 0 <= i < |ds| => ('a' as int + ds[i]) as char)
  }

  const LETTERS: nat := 5

  function Letters(n: int): (s: string)
    ensures |s| == LETTERS && forall i :: 0 <= i < LETTERS ==> 'a' <= s[i] <= 'z'
  {
    Spell(Digits(n, 26, LETTERS))
  }

  function Total(ledger: seq<byte>, address: string): (t: int)
    ensures 0 <= t < P5
  {
    (Packed(FingerprintOf(address)) + LedgerSum(Padded(ledger))) % P5
  }

  function Checksum(ledger: seq<byte>, address: string): string
  {
    Letters(Total(ledger, address) * M % P5)
  }

  // ---------------------------------------------------------------- the computation

  method CheckChecksum(ledger: seq<byte>, address: string) returns (answer: string)
    ensures answer == Checksum(ledger, address)
  {
    hide Letters, LedgerSum, Weighted, Alternate, Symbols, Padded;
    var n := |address|;
    var h := new byte[|ledger| + 6](_ => 0);
    CopyInto(h, ledger);
    var digits := ReadSymbols(address);
    var s, s0, s1 := SumSymbols(digits);
    var sh := SumLedger(h);
    var checksum := ((((n % 5) * 11 + s0) * 11 + s1) * P3 + s + sh) % P5;
    checksum := (checksum * M) % P5;
    answer := PrintLetters(checksum);
  }

  method CopyInto(h: array<byte>, ledger: seq<byte>)
    requires h.Length == |ledger| + 6 && forall j :: 0 <= j < h.Length ==> h[j] == 0
    modifies h
    ensures h[..] == Padded(ledger)
  {
    var c := 0;
    while c < |ledger|
      invariant 0 <= c <= |ledger|
      invariant forall j :: 0 <= j < c ==> h[j] == ledger[j]
      invariant forall j :: c <= j < h.Length ==> h[j] == 0
    {
      h[c] := ledger[c];
      c := c + 1;
    }
  }

  method ReadSymbols(address: string) returns (digits: seq<int>)
    ensures digits == Symbols(address)
  {
    digits := [];
    var k := 0;
    while k < |address|
      invariant 0 <= k <= |address|
      invariant digits == Symbols(address[..k])
    {
      digits := digits + [Symbol(address[k])];
      k := k + 1;
    }
    TakeAll(address);
  }

  lemma NoSums()
    ensures Weighted([]) == 0 && Alternate([], 0) == 0 && Alternate([], 1) == 0
  {
  }

  lemma SumsNext(ds: seq<int>, i: nat)
    requires i < |ds|
    ensures Weighted(ds[..i + 1]) == (W * Weighted(ds[..i]) + ds[i]) % P3
    ensures forall parity :: Alternate(ds[..i + 1], parity) == AddIf(i % 2 == parity, Alternate(ds[..i], parity), ds[i])
  {
    assert ds[..i + 1][..i] == ds[..i];
  }

  method SumSymbols(digits: seq<int>) returns (s: int, s0: int, s1: int)
    ensures s == Weighted(digits) && s0 == Alternate(digits, 0) && s1 == Alternate(digits, 1)
  {
    s, s0, s1 := 0, 0, 0;
    hide Weighted, Alternate;
    NoSums();
    var i := 0;
    while i < |digits|
      invariant 0 <= i <= |digits|
      invariant s == Weighted(digits[..i])
      invariant s0 == Alternate(digits[..i], 0) && s1 == Alternate(digits[..i], 1)
    {
      SumsNext(digits, i);
      s := (W * s + digits[i]) % P3;
      if i % 2 == 0 {
        s0 := (s0 + digits[i]) % 11;
      } else {
        s1 := (s1 + digits[i]) % 11;
      }
      i := i + 1;
    }
    TakeAll(digits);
  }

  method SumLedger(h: array<byte>) returns (sh: int)
    ensures sh == LedgerSum(h[..])
  {
    sh := 0;
    var i := 0;
    while i < h.Length
      invariant 0 <= i <= h.Length
      invariant sh == LedgerSum(h[..i])
    {
      assert h[..i + 1][..i] == h[..i];
      sh := (W * sh + h[i]) % P5;
      i := i + 1;
    }
    TakeAll(h[..]);
  }

  /** Prepends the base-26 digits, least significant first. */
  method PrintLetters(total: int) returns (answer: string)
    ensures answer == Letters(total)
  {
    hide Digits, Spell;
    var checksum := total;
    answer := "";
    ghost var printed: seq<int> := [];
    SpellNothing();
    var i := 0;
    while i < LETTERS
      invariant 0 <= i <= LETTERS && InBase(printed, 26)
      invariant Digits(total, 26, LETTERS) == Digits(checksum, 26, LETTERS - i) + printed
      invariant answer == Spell(printed)
    {
      NextLetter(checksum, LETTERS - i, printed);
      answer := [('a' as int + checksum % 26) as char] + answer;
      printed := [checksum % 26] + printed;
      checksum := checksum / 26;
      i := i + 1;
    }
    assert Digits(checksum, 26, LETTERS - i) == [];
    assert Digits(total, 26, LETTERS) == [] + printed == printed;
  }

  lemma SpellNothing()
    ensures Spell([]) == ""
  {
  }

  lemma NextLetter(n: int, len: nat, printed: seq<int>)
    requires len > 0 && InBase(printed, 26)
    ensures Digits(n, 26, len) + printed == Digits(n / 26, 26, len - 1) + ([n % 26] + printed)
    ensures Spell([n % 26] + printed) == [('a' as int + n % 26) as char] + Spell(printed)
  {
  }

  // ---------------------------------------------------------------- collisions

  /** Multiplying by a unit modulo `p` loses nothing. */
  lemma UnitCancels(x: int, y: int, u: int, inverse: int, q: int, p: int)
    requires p > 0 && 0 <= x < p && 0 <= y < p
    requires u * inverse == 1 + q * p
    requires (x * u) % p == (y * u) % p
    ensures x == y
  {
    var t := x * u / p - y * u / p;
    assert x * u - y * u == t * p;
    var d := x - y;
    assert d * u == t * p;
    assert d * (u * inverse) == t * p * inverse;
    assert d * (1 + q * p) == d + d * q * p;
    assert d == (t * inverse - d * q) * p;
    DivModUnique(x, p, 0, x);
    DivModUnique(x, p, t * inverse - d * q, y);
  }

  lemma SpellInjective(a: seq<int>, b: seq<int>)
    requires InBase(a, 26) && InBase(b, 26) && Spell(a) == Spell(b)
    ensures a == b
  {
    forall i | 0 <= i < |a| ensures a[i] == b[i] {
      assert Spell(a)[i] == Spell(b)[i];
    }
  }

  lemma LettersInjective(a: int, b: int)
    requires 0 <= a < P5 && 0 <= b < P5 && Letters(a) == Letters(b)
    ensures a == b
  {
    SpellInjective(Digits(a, 26, LETTERS), Digits(b, 26, LETTERS));
    ValueOfDigits(a, 26, LETTERS);
    ValueOfDigits(b, 26, LETTERS);
    assert Pow(26, 5) == P5;
  }

  /** Two checksums agree exactly when the address and ledger shares add up to the same
      residue. */
  lemma SameChecksum(ledger: seq<byte>, address: string, ledger': seq<byte>, address': string)
    ensures (Checksum(ledger, address) == Checksum(ledger', address'))
         == (Total(ledger, address) == Total(ledger', address'))
  {
    hide Total, Letters;
    var x, y := Total(ledger, address), Total(ledger', address');
    if Checksum(ledger, address) == Checksum(ledger', address') {
      LettersInjective(x * M % P5, y * M % P5);
      MultiplierCancels(x, y);
    }
  }

  lemma MultiplierCancels(x: int, y: int)
    requires 0 <= x < P5 && 0 <= y < P5 && x * M % P5 == y * M % P5
    ensures x == y
  {
    assert M * M_INVERSE == 1 + M_QUOTIENT * P5;
    UnitCancels(x, y, M, M_INVERSE, M_QUOTIENT, P5);
  }

  /** Within one ledger exactly the fingerprint decides: the packed fields stay below 26^5. */
  lemma Collision(ledger: seq<byte>, a: string, b: string)
    ensures Checksum(ledger, a) == Checksum(ledger, b) <==> FingerprintOf(a) == FingerprintOf(b)
  {
    SameChecksum(ledger, a, ledger, b);
    var fa, fb := FingerprintOf(a), FingerprintOf(b);
    PackedBound(fa);
    PackedBound(fb);
    if Total(ledger, a) == Total(ledger, b) {
      ShiftedEqual(Packed(fa), Packed(fb), LedgerSum(Padded(ledger)));
      PackedInjective(fa, fb);
    }
  }

  predicate InRange(f: Fingerprint)
  {
    0 <= f.length < 5 && 0 <= f.even < 11 && 0 <= f.odd < 11 && 0 <= f.weighted < P3
  }

  lemma PackedBound(f: Fingerprint)
    requires InRange(f)
    ensures 0 <= Packed(f) < P5
  {
  }

  lemma ShiftedEqual(x: int, y: int, l: int)
    requires 0 <= x < P5 && 0 <= y < P5 && (x + l) % P5 == (y + l) % P5
    ensures x == y
  {
  }

  lemma PackedInjective(f: Fingerprint, g: Fingerprint)
    requires InRange(f) && InRange(g) && Packed(f) == Packed(g)
    ensures f == g
  {
    var upper, upper' := (f.length * 11 + f.even) * 11 + f.odd, (g.length * 11 + g.even) * 11 + g.odd;
    DivModUnique(Packed(f), P3, upper, f.weighted);
    DivModUnique(Packed(f), P3, upper', g.weighted);
    DivModUnique(upper, 11, f.length * 11 + f.even, f.odd);
    DivModUnique(upper, 11, g.length * 11 + g.even, g.odd);
  }

  // ---------------------------------------------------------------- what is always detected

  lemma {:induction false} AlternateUpdate(ds: seq<int>, p: nat, d: int, parity: int)
    requires p < |ds|
    ensures Alternate(ds[p := d], parity)
         == AddIf(p % 2 == parity, Alternate(ds, parity), d - ds[p])
  {
    var n := |ds| - 1;
    var before := Alternate(ds[..n], parity);
    if p < n {
      AlternateUpdate(ds[..n], p, d, parity);
      assert ds[p := d][..n] == ds[..n][p := d];
      AddIfCommutes(n % 2 == parity, p % 2 == parity, before, ds[n], d - ds[p]);
    } else {
      assert ds[p := d][..n] == ds[..n];
      AddIfReplaces(n % 2 == parity, before, ds[n], d);
    }
  }

  lemma AddIfCommutes(c: bool, c': bool, sum: int, d: int, d': int)
    requires 0 <= sum < 11
    ensures AddIf(c, AddIf(c', sum, d'), d) == AddIf(c', AddIf(c, sum, d), d')
  {
    ModOfSum(sum + d', d, 11);
    ModOfSum(sum + d, d', 11);
  }

  lemma AddIfReplaces(c: bool, sum: int, d: int, d': int)
    requires 0 <= sum < 11
    ensures AddIf(c, sum, d') == AddIf(c, AddIf(c, sum, d), d' - d)
  {
    ModOfSum(sum + d, d' - d, 11);
  }

  lemma AddIfMoves(sum: int, delta: int)
    requires 0 <= sum < 11 && -11 < delta < 11
    ensures AddIf(true, sum, delta) == sum <==> delta == 0
  {
  }

  lemma SymbolsUpdate(a: string, p: nat, c: char)
    requires p < |a|
    ensures Symbols(a[p := c]) == Symbols(a)[p := Symbol(c)]
  {
  }

  lemma SubstitutionFingerprint(a: string, p: nat, c: char)
    requires p < |a|
    ensures FingerprintOf(a) == FingerprintOf(a[p := c]) <==> Symbol(c) == Symbol(a[p])
  {
    SymbolsUpdate(a, p, c);
    if Symbol(c) == Symbol(a[p]) {
      assert Symbols(a)[p := Symbol(c)] == Symbols(a);
    } else {
      AlternateUpdate(Symbols(a), p, Symbol(c), p % 2);
      AddIfMoves(Alternate(Symbols(a), p % 2), Symbol(c) - Symbol(a[p]));
    }
  }

  /** Replacing one symbol by a different one always changes the checksum. */
  lemma SubstitutionDetected(ledger: seq<byte>, a: string, p: nat, c: char)
    requires p < |a|
    ensures Checksum(ledger, a) == Checksum(ledger, a[p := c]) <==> Symbol(c) == Symbol(a[p])
  {
    Collision(ledger, a, a[p := c]);
    SubstitutionFingerprint(a, p, c);
  }

  function SwapNext(a: string, p: nat): (r: string)
    requires p + 1 < |a|
    ensures |r| == |a|
  {
    a[p := a[p + 1]][p + 1 := a[p]]
  }

  lemma SwapSums(ds: seq<int>, p: nat)
    requires p + 1 < |ds|
    ensures var swapped := ds[p := ds[p + 1]][p + 1 := ds[p]];
      Alternate(swapped, p % 2) == AddIf(true, Alternate(ds, p % 2), ds[p + 1] - ds[p])
  {
    var ds' := ds[p := ds[p + 1]];
    AlternateUpdate(ds, p, ds[p + 1], p % 2);
    AlternateUpdate(ds', p + 1, ds[p], p % 2);
    assert (p + 1) % 2 != p % 2;
  }

  lemma SymbolsSwap(a: string, p: nat)
    requires p + 1 < |a|
    ensures Symbols(SwapNext(a, p)) == Symbols(a)[p := Symbol(a[p + 1])][p + 1 := Symbol(a[p])]
  {
  }

  lemma TranspositionFingerprint(a: string, p: nat)
    requires p + 1 < |a|
    ensures FingerprintOf(a) == FingerprintOf(SwapNext(a, p)) <==> Symbol(a[p]) == Symbol(a[p + 1])
  {
    var ds, ds' := Symbols(a), Symbols(SwapNext(a, p));
    SymbolsSwap(a, p);
    if Symbol(a[p]) == Symbol(a[p + 1]) {
      assert ds' == ds;
    } else {
      SwapSums(ds, p);
      AddIfMoves(Alternate(ds, p % 2), ds[p + 1] - ds[p]);
      assert Alternate(ds', p % 2) != Alternate(ds, p % 2);
      assert p % 2 == 0 || p % 2 == 1;
    }
  }

  /** Exchanging two different neighbouring symbols always changes the checksum. */
  lemma TranspositionDetected(ledger: seq<byte>, a: string, p: nat)
    requires p + 1 < |a|
    ensures Checksum(ledger, a) == Checksum(ledger, SwapNext(a, p)) <==> Symbol(a[p]) == Symbol(a[p + 1])
  {
    Collision(ledger, a, SwapNext(a, p));
    TranspositionFingerprint(a, p);
  }

  /** Lengths that differ modulo five never share a checksum. */
  lemma LengthDetected(ledger: seq<byte>, a: string, b: string)
    requires |a| % 5 != |b| % 5
    ensures Checksum(ledger, a) != Checksum(ledger, b)
  {
    Collision(ledger, a, b);
  }

  // ---------------------------------------------------------------- ledgers

  lemma {:induction false} LedgerSumConcat(a: seq<byte>, b: seq<byte>, b': seq<byte>, a': seq<byte>)
    requires b == b' && LedgerSum(a) != LedgerSum(a')
    ensures LedgerSum(a + b) != LedgerSum(a' + b')
    decreases |b|
  {
    hide LedgerSum;
    if b == [] {
      assert a + b == a && a' + b' == a';
    } else {
      var n := |b| - 1;
      LedgerSumConcat(a, b[..n], b[..n], a');
      LedgerSumAppend(a + b[..n], b[n]);
      LedgerSumAppend(a' + b[..n], b[n]);
      assert a + b == a + b[..n] + [b[n]] && a' + b == a' + b[..n] + [b[n]];
      LedgerStepInjective(LedgerSum(a + b[..n]), LedgerSum(a' + b[..n]), b[n]);
    }
  }

  /** Appending a byte is injective in what came before, 31 being a unit modulo 26^5. */
  lemma LedgerStepInjective(x: int, y: int, b: byte)
    requires 0 <= x < P5 && 0 <= y < P5 && x != y
    ensures (W * x + b) % P5 != (W * y + b) % P5
  {
    if (W * x + b) % P5 == (W * y + b) % P5 {
      UnitStep(x, y, b, W, W_INVERSE, (W * W_INVERSE - 1) / P5, P5);
    }
  }

  lemma UnitStep(x: int, y: int, b: int, u: int, inverse: int, q: int, p: int)
    requires p > 0 && 0 <= x < p && 0 <= y < p
    requires u * inverse == 1 + q * p
    requires (u * x + b) % p == (u * y + b) % p
    ensures x == y
  {
    DropAddend(u * x, u * y, b, p);
    UnitCancels(x, y, u, inverse, q, p);
  }

  lemma DropAddend(m: int, n: int, b: int, p: int)
    requires p > 0 && (m + b) % p == (n + b) % p
    ensures m % p == n % p
  {
    ModOfSum(m + b, -b, p);
    ModOfSum(n + b, -b, p);
  }

  lemma LedgerSumByte(ledger: seq<byte>, p: nat, b: byte)
    requires p < |ledger| && b != ledger[p]
    ensures LedgerSum(Padded(ledger)) != LedgerSum(Padded(ledger[p := b]))
  {
    var pre, tail := ledger[..p], Padded(ledger)[p + 1..];
    LedgerSumAppend(pre, ledger[p]);
    LedgerSumAppend(pre, b);
    LastByteCounts(LedgerSum(pre), ledger[p], b);
    LedgerSumConcat(pre + [ledger[p]], tail, tail, pre + [b]);
    assert Padded(ledger) == (pre + [ledger[p]]) + tail;
    assert Padded(ledger[p := b]) == (pre + [b]) + tail;
  }

  lemma LedgerSumAppend(init: seq<byte>, b: byte)
    ensures LedgerSum(init + [b]) == (W * LedgerSum(init) + b) % P5
  {
    assert (init + [b])[..|init|] == init;
  }

  lemma LastByteCounts(s: int, b: byte, c: byte)
    requires 0 <= s < P5 && b != c
    ensures (W * s + b) % P5 != (W * s + c) % P5
  {
  }

  /** For one address the ledger shares alone decide. */
  lemma SameAddress(ledger: seq<byte>, ledger': seq<byte>, address: string)
    ensures Checksum(ledger, address) == Checksum(ledger', address)
       <==> LedgerSum(Padded(ledger)) == LedgerSum(Padded(ledger'))
  {
    SameChecksum(ledger, address, ledger', address);
    if Total(ledger, address) == Total(ledger', address) {
      ShiftedEqual(LedgerSum(Padded(ledger)), LedgerSum(Padded(ledger')), Packed(FingerprintOf(address)));
    }
  }

  /** For one address, ledger IDs of equal length that differ in one byte never share a
      checksum. */
  lemma LedgerByteDetected(ledger: seq<byte>, p: nat, b: byte, address: string)
    requires p < |ledger|
    ensures Checksum(ledger, address) == Checksum(ledger[p := b], address) <==> b == ledger[p]
  {
    SameAddress(ledger, ledger[p := b], address);
    if b == ledger[p] {
      assert ledger[p := b] == ledger;
    } else {
      LedgerSumByte(ledger, p, b);
    }
  }

  const M_INVERSE: int := 8610443
  const M_QUOTIENT: int := 724703
  const W_INVERSE: int := 1916351
}

/** What the printed checksum of an address says: the numbers that can be read off its letters,
    what each symbol contributes to them, and checksums worked out by hand. */
module ChecksumLaws {
  import opened Wrappers
  import opened Numerals
  import opened Sequences
  import opened EntityChecksum

  // ---------------------------------------------------------------- reading the letters back

  /** Letters as digits of base 26, `a` for zero. */
  function DigitsOf(s: string): (ds: seq<int>)
    ensures |ds| == |s|
  {
    seq(|s|, i requires 0 <= i < |s| => s[i] as int - 'a' as int)
  }

  /** The number spelled, with the multiplier 1000003 undone. */
  function Undone(s: string): int
  {
    Value(DigitsOf(s), 26) * 8610443 % 11881376
  }

  /** Sum of the symbols at every other position, the first included or not. */
  function SumAt(ds: seq<int>, first: bool): int
  {
    if ds == [] then 0 else (if first then ds[0] else 0) + SumAt(ds[1..], !first)
  }

  lemma {:induction false} SumAtAppend(ds: seq<int>, d: int, first: bool)
    ensures SumAt(ds + [d], first) == SumAt(ds, first) + if first == (|ds| % 2 == 0) then d else 0
    decreases |ds|
  {
    if ds == [] {
      assert [d][1..] == [];
    } else {
      SumAtAppend(ds[1..], d, !first);
      assert (ds + [d])[1..] == ds[1..] + [d];
    }
  }

  lemma {:induction false} AlternateIsSum(ds: seq<int>, parity: int)
    requires parity == 0 || parity == 1
    ensures Alternate(ds, parity) == SumAt(ds, parity == 0) % 11
  {
    if ds != [] {
      var n := |ds| - 1;
      AlternateIsSum(ds[..n], parity);
      SumAtAppend(ds[..n], ds[n], parity == 0);
      assert ds == ds[..n] + [ds[n]];
      ModOfSum(SumAt(ds[..n], parity == 0), ds[n], 11);
    }
  }

  lemma HornerMod(v: int, w: int, d: int, m: int)
    requires m > 0 && w == v % m
    ensures (31 * w + d) % m == (v * 31 + d) % m
  {
    DivModUnique(31 * w + d, m, (v * 31 + d) / m - 31 * (v / m), (v * 31 + d) % m);
  }

  lemma {:induction false} WeightedIsValue(ds: seq<int>)
    ensures Weighted(ds) == Value(ds, 31) % 17576
  {
    if ds != [] {
      var n := |ds| - 1;
      WeightedIsValue(ds[..n]);
      HornerMod(Value(ds[..n], 31), Weighted(ds[..n]), ds[n], 17576);
    }
  }

  lemma {:induction false} LedgerIsValue(h: seq<byte>)
    ensures LedgerSum(h) == Value(h, 31) % 11881376
  {
    if h != [] {
      var n := |h| - 1;
      LedgerIsValue(h[..n]);
      HornerMod(Value(h[..n], 31), LedgerSum(h[..n]), h[n], 11881376);
    }
  }

  lemma DigitsOfSpell(ds: seq<int>)
    requires InBase(ds, 26)
    ensures DigitsOf(Spell(ds)) == ds
  {
  }

  lemma UndoesLetters(n: int)
    requires 0 <= n < 11881376
    ensures Value(DigitsOf(Letters(n)), 26) == n
  {
    DigitsOfSpell(Digits(n, 26, 5));
    ValueOfDigits(n, 26, 5);
    assert Pow(26, 5) == 11881376;
    DivModUnique(n, 11881376, 0, n);
  }

  lemma UndoesMultiplier(t: int)
    requires 0 <= t < 11881376
    ensures t * 1000003 % 11881376 * 8610443 % 11881376 == t
  {
    var c := t * 1000003;
    var q := c / 11881376;
    DivModUnique(c % 11881376 * 8610443, 11881376, 724703 * t - q * 8610443, t);
  }

  /** Read off the letters: the length modulo five, the two alternating sums modulo eleven and the
      address in base 31 modulo 26^3, packed in this order, plus the ledger ID in base 31 followed
      by six zeros, all modulo 26^5. */
  lemma ChecksumSays(ledger: seq<byte>, a: string)
    ensures var ds := Symbols(a);
            Undone(Checksum(ledger, a))
            == ((|a| % 5 * 121 + SumAt(ds, true) % 11 * 11 + SumAt(ds, false) % 11) * 17576 + Value(ds, 31) % 17576
                + Value(ledger + [0, 0, 0, 0, 0, 0], 31) % 11881376) % 11881376
  {
    hide Letters, Weighted, Alternate, LedgerSum, Value, Symbols;
    var ds := Symbols(a);
    AlternateIsSum(ds, 0);
    AlternateIsSum(ds, 1);
    WeightedIsValue(ds);
    LedgerIsValue(Padded(ledger));
    UndoesLetters(Total(ledger, a) * M % P5);
    UndoesMultiplier(Total(ledger, a));
  }

  // ---------------------------------------------------------------- what one symbol contributes

  lemma {:induction false} SumAtUpdate(ds: seq<int>, p: nat, d: int, first: bool)
    requires p < |ds|
    ensures SumAt(ds[p := d], first) == SumAt(ds, first) + if first == (p % 2 == 0) then d - ds[p] else 0
    decreases |ds|
  {
    if p == 0 {
      assert ds[p := d][1..] == ds[1..];
    } else {
      SumAtUpdate(ds[1..], p - 1, d, !first);
      assert ds[p := d][1..] == ds[1..][p - 1 := d];
    }
  }

  lemma {:induction false} ValueUpdate(ds: seq<int>, p: nat, d: int, base: int)
    requires p < |ds|
    ensures Value(ds[p := d], base) == Value(ds, base) + (d - ds[p]) * Pow(base, |ds| - 1 - p)
    decreases |ds|
  {
    var n := |ds| - 1;
    if p < n {
      ValueUpdate(ds[..n], p, d, base);
      assert ds[p := d][..n] == ds[..n][p := d];
      Distribute(Value(ds[..n], base), d - ds[p], Pow(base, n - 1 - p), base);
    } else {
      assert ds[p := d][..n] == ds[..n];
    }
  }

  lemma Distribute(v: int, d: int, w: int, base: int)
    ensures (v + d * w) * base == v * base + d * (base * w)
  {
  }

  /** Replacing a symbol at an even position moves the even sum, which counts 11 * 26^3, and the address
      in base 31; nothing else. */
  lemma EvenSymbolMoves(ledger: seq<byte>, a: string, p: nat, c: char)
    requires p < |a| && p % 2 == 0
    ensures var d := Symbol(c) - Symbol(a[p]);
            var sum, value := SumAt(Symbols(a), true), Value(Symbols(a), 31);
            && (Undone(Checksum(ledger, a[p := c])) - Undone(Checksum(ledger, a))
                - 193336 * ((sum + d) % 11 - sum % 11)
                - ((value + d * Pow(31, |a| - 1 - p)) % 17576 - value % 17576)) % 11881376 == 0
  {
    hide Checksum, Undone, Value, SumAt, Symbols, Pow, Side, Low;
    SidesMove(ledger, a, p, c);
  }

  /** At an odd position it is the odd sum, which counts 26^3. */
  lemma OddSymbolMoves(ledger: seq<byte>, a: string, p: nat, c: char)
    requires p < |a| && p % 2 == 1
    ensures var d := Symbol(c) - Symbol(a[p]);
            var sum, value := SumAt(Symbols(a), false), Value(Symbols(a), 31);
            && (Undone(Checksum(ledger, a[p := c])) - Undone(Checksum(ledger, a))
                - 17576 * ((sum + d) % 11 - sum % 11)
                - ((value + d * Pow(31, |a| - 1 - p)) % 17576 - value % 17576)) % 11881376 == 0
  {
    hide Checksum, Undone, Value, SumAt, Symbols, Pow, Side, Low;
    SidesMove(ledger, a, p, c);
  }

  lemma SidesMove(ledger: seq<byte>, a: string, p: nat, c: char)
    requires p < |a|
    ensures var ds := Symbols(a);
            var even := (SumAt(ds, true) + if p % 2 == 0 then Symbol(c) - Symbol(a[p]) else 0) % 11;
            var odd := (SumAt(ds, false) + if p % 2 == 0 then 0 else Symbol(c) - Symbol(a[p])) % 11;
            var value := (Value(ds, 31) + (Symbol(c) - Symbol(a[p])) * Pow(31, |a| - 1 - p)) % 17576;
            && (Undone(Checksum(ledger, a[p := c])) - Undone(Checksum(ledger, a))
                - ((even - SumAt(ds, true) % 11) * 193336 + (odd - SumAt(ds, false) % 11) * 17576)
                - (value - Value(ds, 31) % 17576)) % 11881376 == 0
  {
    hide Checksum, Undone, Value, SumAt, Symbols, Pow, Side, Low, Share;
    var ds, ds' := Symbols(a), Symbols(a[p := c]);
    SymbolsUpdate(a, p, c);
    SymbolAt(a, p);
    UndoneIs(ledger, a);
    UndoneIs(ledger, a[p := c]);
    SideUpdate(ds, p, Symbol(c), true);
    SideUpdate(ds, p, Symbol(c), false);
    LowUpdate(ds, p, Symbol(c));
    Moves(Undone(Checksum(ledger, a)), Undone(Checksum(ledger, a[p := c])), Share(ledger, |a|),
          Side(ds, true), Side(ds', true), Side(ds, false), Side(ds', false), Low(ds), Low(ds'));
  }

  function Side(ds: seq<int>, first: bool): int
  {
    SumAt(ds, first) % 11
  }

  function Low(ds: seq<int>): int
  {
    Value(ds, 31) % 17576
  }

  function Share(ledger: seq<byte>, length: nat): int
  {
    length % 5 * 121 * 17576 + Value(ledger + [0, 0, 0, 0, 0, 0], 31) % 11881376
  }

  lemma UndoneIs(ledger: seq<byte>, a: string)
    ensures var ds := Symbols(a);
            Undone(Checksum(ledger, a))
            == (Share(ledger, |a|) + Side(ds, true) * 193336 + Side(ds, false) * 17576 + Low(ds)) % 11881376
  {
    hide Checksum, Undone, Value, SumAt, Symbols;
    ChecksumSays(ledger, a);
  }

  lemma SideUpdate(ds: seq<int>, p: nat, d: int, first: bool)
    requires p < |ds|
    ensures Side(ds, first) == SumAt(ds, first) % 11
    ensures Side(ds[p := d], first)
         == if first == (p % 2 == 0) then (SumAt(ds, first) + (d - ds[p])) % 11 else Side(ds, first)
  {
    hide SumAt;
    SumAtUpdate(ds, p, d, first);
  }

  lemma LowUpdate(ds: seq<int>, p: nat, d: int)
    requires p < |ds|
    ensures Low(ds) == Value(ds, 31) % 17576
    ensures Low(ds[p := d]) == (Value(ds, 31) + (d - ds[p]) * Pow(31, |ds| - 1 - p)) % 17576
  {
    hide Value, Pow;
    ValueUpdate(ds, p, d, 31);
  }

  lemma Moves(u: int, u': int, share: int, even: int, even': int, odd: int, odd': int, value: int, value': int)
    requires u == (share + even * 193336 + odd * 17576 + value) % 11881376
    requires u' == (share + even' * 193336 + odd' * 17576 + value') % 11881376
    ensures (u' - u - ((even' - even) * 193336 + (odd' - odd) * 17576) - (value' - value)) % 11881376 == 0
  {
    Difference(share + even' * 193336 + odd' * 17576 + value', share + even * 193336 + odd * 17576 + value,
               11881376);
  }

  lemma Difference(x: int, y: int, m: int)
    requires m > 0
    ensures (x % m - y % m - (x - y)) % m == 0
  {
    DivModUnique(x % m - y % m - (x - y), m, y / m - x / m, 0);
  }

  lemma SymbolAt(a: string, p: nat)
    requires p < |a|
    ensures Symbols(a)[p] == Symbol(a[p])
  {
  }

  // ---------------------------------------------------------------- known answers

  /** What `ChecksumSays` reads off a list of symbols. */
  predicate Sums(ds: seq<int>, value: int, even: int, odd: int)
  {
    Value(ds, 31) % 17576 == value && SumAt(ds, true) % 11 == even && SumAt(ds, false) % 11 == odd
  }

  /** One more symbol, the last at an even position, with how often 26^3 and 11 are passed. */
  lemma EvenNext(ds: seq<int>, d: int, value: int, even: int, odd: int, q: int, k: int)
    requires Sums(ds, value, even, odd) && |ds| % 2 == 0
    requires 0 <= 31 * value + d - 17576 * q < 17576 && 0 <= even + d - 11 * k < 11
    ensures Sums(ds + [d], 31 * value + d - 17576 * q, even + d - 11 * k, odd)
  {
    hide Value, SumAt;
    ValueNext(ds, d, value, q);
    SumAtAppend(ds, d, true);
    SumAtAppend(ds, d, false);
    ModOfSum(SumAt(ds, true), d, 11);
    DivModUnique(even + d, 11, k, even + d - 11 * k);
  }

  lemma OddNext(ds: seq<int>, d: int, value: int, even: int, odd: int, q: int, k: int)
    requires Sums(ds, value, even, odd) && |ds| % 2 == 1
    requires 0 <= 31 * value + d - 17576 * q < 17576 && 0 <= odd + d - 11 * k < 11
    ensures Sums(ds + [d], 31 * value + d - 17576 * q, even, odd + d - 11 * k)
  {
    hide Value, SumAt;
    ValueNext(ds, d, value, q);
    SumAtAppend(ds, d, true);
    SumAtAppend(ds, d, false);
    ModOfSum(SumAt(ds, false), d, 11);
    DivModUnique(odd + d, 11, k, odd + d - 11 * k);
  }

  lemma ValueNext(ds: seq<int>, d: int, value: int, q: int)
    requires Value(ds, 31) % 17576 == value && 0 <= 31 * value + d - 17576 * q < 17576
    ensures Value(ds + [d], 31) % 17576 == 31 * value + d - 17576 * q
  {
    ValueOfAppend(ds, d, 31);
    HornerMod(Value(ds, 31), value, d, 17576);
    DivModUnique(31 * value + d, 17576, q, 31 * value + d - 17576 * q);
  }

  lemma NoSymbols()
    ensures Sums([], 0, 0, 0)
  {
  }

  /** The shares of the three standard ledger IDs. */
  lemma LedgerShares()
    ensures LedgerSum(Padded([0])) == 0 && LedgerSum(Padded([1])) == 8281857 && LedgerSum(Padded([2])) == 4682338
  {
    LedgerShare(0);
    LedgerShare(1);
    LedgerShare(2);
    hide LedgerSum, Padded;
    DivModUnique(0, 11881376, 0, 0);
    DivModUnique(887503681, 11881376, 74, 8281857);
    DivModUnique(1775007362, 11881376, 149, 4682338);
  }

  lemma LedgerShare(b: byte)
    ensures LedgerSum(Padded([b])) == b * 887503681 % 11881376
  {
    hide Value, LedgerSum;
    LedgerIsValue([b, 0, 0, 0, 0, 0, 0]);
    NoValue();
    ValueOfAppend([], b, 31);
    ValueOfAppend([b], 0, 31);
    ValueOfAppend([b, 0], 0, 31);
    ValueOfAppend([b, 0, 0], 0, 31);
    ValueOfAppend([b, 0, 0, 0], 0, 31);
    ValueOfAppend([b, 0, 0, 0, 0], 0, 31);
    ValueOfAppend([b, 0, 0, 0, 0, 0], 0, 31);
    assert [] + [b as int] == [b] && [b as int] + [0] == [b, 0] && [b as int, 0] + [0] == [b, 0, 0];
    assert [b as int, 0, 0] + [0] == [b, 0, 0, 0] && [b as int, 0, 0, 0] + [0] == [b, 0, 0, 0, 0];
    assert [b as int, 0, 0, 0, 0] + [0] == [b, 0, 0, 0, 0, 0];
    assert [b as int, 0, 0, 0, 0, 0] + [0] == [b, 0, 0, 0, 0, 0, 0];
    assert Padded([b]) == [b, 0, 0, 0, 0, 0, 0];
  }

  lemma NoValue()
    ensures Value([], 31) == 0
  {
  }

  lemma TotalOf(ledger: seq<byte>, a: string, ds: seq<int>, value: int, even: int, odd: int)
    requires Symbols(a) == ds && Sums(ds, value, even, odd)
    ensures Total(ledger, a)
         == ((|a| % 5 * 121 + even * 11 + odd) * 17576 + value + LedgerSum(Padded(ledger))) % 11881376
  {
    hide Weighted, Alternate, LedgerSum, Value, SumAt, Symbols;
    AlternateIsSum(ds, 0);
    AlternateIsSum(ds, 1);
    WeightedIsValue(ds);
  }

  lemma Spelled(n: int, ds: seq<int>, word: string)
    requires |ds| == 5 == |word| && InBase(ds, 26)
    requires n == (((ds[0] * 26 + ds[1]) * 26 + ds[2]) * 26 + ds[3]) * 26 + ds[4]
    requires forall i :: 0 <= i < 5 ==> word[i] as int == 'a' as int + ds[i]
    ensures Letters(n) == word
  {
    DigitsFive(n, ds);
    assert Spell(ds) == word;
  }

  /** A checksum worked out: how often 26^5 is passed by the total, and by the total times the
      multiplier, and what is left each time. */
  lemma Answer(ledger: seq<byte>, a: string, ds: seq<int>, value: int, even: int, odd: int, share: int,
               q: int, total: int, r: int, n: int, letters: seq<int>, word: string)
    requires Symbols(a) == ds && Sums(ds, value, even, odd) && LedgerSum(Padded(ledger)) == share
    requires (|a| % 5 * 121 + even * 11 + odd) * 17576 + value + share == 11881376 * q + total
    requires 0 <= total < 11881376 && 0 <= n < 11881376 && total * 1000003 == 11881376 * r + n
    requires |letters| == 5 == |word| && InBase(letters, 26)
    requires n == (((letters[0] * 26 + letters[1]) * 26 + letters[2]) * 26 + letters[3]) * 26 + letters[4]
    requires forall i :: 0 <= i < 5 ==> word[i] as int == 'a' as int + letters[i]
    ensures Checksum(ledger, a) == word
  {
    hide Sums, Symbols, LedgerSum, Padded, Total, Letters;
    TotalOf(ledger, a, ds, value, even, odd);
    DivModUnique(11881376 * q + total, 11881376, q, total);
    DivModUnique(11881376 * r + n, 11881376, r, n);
    Spelled(n, letters, word);
  }

  lemma NoLetters()
    ensures Value([], 26) == 0
  {
  }

  lemma DigitsFive(n: int, ds: seq<int>)
    requires |ds| == 5 && InBase(ds, 26)
    requires n == (((ds[0] * 26 + ds[1]) * 26 + ds[2]) * 26 + ds[3]) * 26 + ds[4]
    ensures Digits(n, 26, 5) == ds
  {
    hide Value, Digits;
    NoLetters();
    DigitsOfValue(ds, 26);
    ValueOfAppend([], ds[0], 26);
    ValueOfAppend([ds[0]], ds[1], 26);
    ValueOfAppend([ds[0], ds[1]], ds[2], 26);
    ValueOfAppend([ds[0], ds[1], ds[2]], ds[3], 26);
    ValueOfAppend([ds[0], ds[1], ds[2], ds[3]], ds[4], 26);
    assert [] + [ds[0]] == [ds[0]] && [ds[0]] + [ds[1]] == [ds[0], ds[1]];
    assert [ds[0], ds[1]] + [ds[2]] == [ds[0], ds[1], ds[2]];
    assert [ds[0], ds[1], ds[2]] + [ds[3]] == [ds[0], ds[1], ds[2], ds[3]];
    assert [ds[0], ds[1], ds[2], ds[3]] + [ds[4]] == ds;
  }

  lemma Account123Sums()
    ensures Symbols("0.0.123") == [0, 10, 0, 10, 1, 2, 3]
    ensures Sums([0, 10, 0, 10, 1, 2, 3], 13766, 4, 0)
  {
    hide Sums;
    NoSymbols();
    EvenNext([], 0, 0, 0, 0, 0, 0);
    assert [] + [0] == [0];
    OddNext([0], 10, 0, 0, 0, 0, 0);
    assert [0] + [10] == [0, 10];
    EvenNext([0, 10], 0, 10, 0, 10, 0, 0);
    assert [0, 10] + [0] == [0, 10, 0];
    OddNext([0, 10, 0], 10, 310, 0, 10, 0, 1);
    assert [0, 10, 0] + [10] == [0, 10, 0, 10];
    EvenNext([0, 10, 0, 10], 1, 9620, 0, 9, 16, 0);
    assert [0, 10, 0, 10] + [1] == [0, 10, 0, 10, 1];
    OddNext([0, 10, 0, 10, 1], 2, 17005, 1, 9, 29, 1);
    assert [0, 10, 0, 10, 1] + [2] == [0, 10, 0, 10, 1, 2];
    EvenNext([0, 10, 0, 10, 1, 2], 3, 17453, 1, 0, 30, 0);
    assert [0, 10, 0, 10, 1, 2] + [3] == [0, 10, 0, 10, 1, 2, 3];
  }

  /** Account 0.0.123 on mainnet, testnet and previewnet. */
  lemma Account123()
    ensures Checksum([0], "0.0.123") == "vfmkw"
    ensures Checksum([1], "0.0.123") == "esxsf"
    ensures Checksum([2], "0.0.123") == "ogizo"
  {
    hide Sums, Symbols, Checksum, LedgerSum, Padded;
    Account123Sums();
    LedgerShares();
    Answer([0], "0.0.123", [0, 10, 0, 10, 1, 2, 3], 13766, 4, 0, 0,
           0, 5040502, 424236, 9692770, [21, 5, 12, 10, 22], "vfmkw");
    Answer([1], "0.0.123", [0, 10, 0, 10, 1, 2, 3], 13766, 4, 0, 8281857,
           1, 1440983, 121281, 2160293, [4, 18, 23, 18, 5], "esxsf");
    Answer([2], "0.0.123", [0, 10, 0, 10, 1, 2, 3], 13766, 4, 0, 4682338,
           0, 9722840, 818328, 6509192, [14, 6, 8, 25, 14], "ogizo");
  }

  lemma Account12Symbols()
    ensures Symbols("12.345.6789") == [1, 2, 10, 3, 4, 5, 10, 6, 7, 8, 9]
  {
  }

  lemma Account12Half()
    ensures Sums([1, 2, 10, 3, 4, 5], 1539, 4, 10)
  {
    hide Sums;
    NoSymbols();
    EvenNext([], 1, 0, 0, 0, 0, 0);
    assert [] + [1] == [1];
    OddNext([1], 2, 1, 1, 0, 0, 0);
    assert [1] + [2] == [1, 2];
    EvenNext([1, 2], 10, 33, 1, 2, 0, 1);
    assert [1, 2] + [10] == [1, 2, 10];
    OddNext([1, 2, 10], 3, 1033, 0, 2, 1, 0);
    assert [1, 2, 10] + [3] == [1, 2, 10, 3];
    EvenNext([1, 2, 10, 3], 4, 14450, 0, 5, 25, 0);
    assert [1, 2, 10, 3] + [4] == [1, 2, 10, 3, 4];
    OddNext([1, 2, 10, 3, 4], 5, 8554, 4, 5, 15, 0);
    assert [1, 2, 10, 3, 4] + [5] == [1, 2, 10, 3, 4, 5];
  }

  lemma Account12Sums()
    ensures Sums([1, 2, 10, 3, 4, 5, 10, 6, 7, 8, 9], 8601, 8, 2)
  {
    hide Sums;
    Account12Half();
    EvenNext([1, 2, 10, 3, 4, 5], 10, 1539, 4, 10, 2, 1);
    assert [1, 2, 10, 3, 4, 5] + [10] == [1, 2, 10, 3, 4, 5, 10];
    OddNext([1, 2, 10, 3, 4, 5, 10], 6, 12567, 3, 10, 22, 1);
    assert [1, 2, 10, 3, 4, 5, 10] + [6] == [1, 2, 10, 3, 4, 5, 10, 6];
    EvenNext([1, 2, 10, 3, 4, 5, 10, 6], 7, 2911, 3, 5, 5, 0);
    assert [1, 2, 10, 3, 4, 5, 10, 6] + [7] == [1, 2, 10, 3, 4, 5, 10, 6, 7];
    OddNext([1, 2, 10, 3, 4, 5, 10, 6, 7], 8, 2368, 10, 5, 4, 1);
    assert [1, 2, 10, 3, 4, 5, 10, 6, 7] + [8] == [1, 2, 10, 3, 4, 5, 10, 6, 7, 8];
    EvenNext([1, 2, 10, 3, 4, 5, 10, 6, 7, 8], 9, 3112, 10, 2, 5, 1);
    assert [1, 2, 10, 3, 4, 5, 10, 6, 7, 8] + [9] == [1, 2, 10, 3, 4, 5, 10, 6, 7, 8, 9];
  }

  /** An address with its dots at even positions. */
  lemma Account12()
    ensures Checksum([0], "12.345.6789") == "aoyyt"
    ensures Checksum([1], "12.345.6789") == "kckgc"
    ensures Checksum([2], "12.345.6789") == "tpvnl"
  {
    hide Sums, Symbols, Checksum, LedgerSum, Padded;
    Account12Symbols();
    Account12Sums();
    LedgerShares();
    Answer([0], "12.345.6789", [1, 2, 10, 3, 4, 5, 10, 6, 7, 8, 9], 8601, 8, 2, 0,
           0, 3717137, 312855, 262931, [0, 14, 24, 24, 19], "aoyyt");
    Answer([1], "12.345.6789", [1, 2, 10, 3, 4, 5, 10, 6, 7, 8, 9], 8601, 8, 2, 8281857,
           1, 117618, 9899, 4611830, [10, 2, 10, 6, 2], "kckgc");
    Answer([2], "12.345.6789", [1, 2, 10, 3, 4, 5, 10, 6, 7, 8, 9], 8601, 8, 2, 4682338,
           0, 8399475, 706946, 8960729, [19, 15, 21, 13, 11], "tpvnl");
  }
}

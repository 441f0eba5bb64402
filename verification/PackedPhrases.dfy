/** The 24-word form: 11 bits a word packed into bytes, the trailing bits compared with a hash. */
module PackedPhrases {
  import opened Wrappers
  import opened Numerals
  import opened Bitwise
  import opened Sequences
  import Mnemonics

  type WordIndex = m: map<string, int> | forall w :: w in m ==> 0 <= m[w] < Mnemonics.BIP39_WORDS

  // ---------------------------------------------------------------- bits and bytes

  /** The byte spelt by eight bits. */
  function ByteOf(bits: seq<int>): (b: byte)
    requires InBase(bits, 2) && |bits| == 8
    ensures Digits(b, 2, 8) == bits
  {
    SmallPowers();
    ValueBound(bits, 2);
    DigitsOfValue(bits, 2);
    Value(bits, 2)
  }

  /** The first `n` bytes spelt by a bit string. */
  function Pack(bits: seq<int>, n: nat): (r: seq<byte>)
    requires InBase(bits, 2) && 8 * n <= |bits|
    ensures |r| == n
  {
    if n == 0 then [] else Pack(bits, n - 1) + [ByteOf(bits[8 * (n - 1)..8 * n])]
  }

  lemma ExpandPackStep(bits: seq<int>, n: nat)
    requires InBase(bits, 2) && 0 < 8 * n <= |bits|
    ensures Expand(Pack(bits, n), 2, 8) == Expand(Pack(bits, n - 1), 2, 8) + bits[8 * (n - 1)..8 * n]
  {
    ExpandAppend(Pack(bits, n - 1), ByteOf(bits[8 * (n - 1)..8 * n]), 2, 8);
  }

  lemma {:induction false} ExpandPack(bits: seq<int>, n: nat)
    requires InBase(bits, 2) && 8 * n <= |bits|
    ensures Expand(Pack(bits, n), 2, 8) == bits[..8 * n]
  {
    if n > 0 {
      ExpandPack(bits, n - 1);
      ExpandPackStep(bits, n);
      PrefixJoin(bits, 8 * (n - 1), 8 * n);
    }
  }

  /** The first `n` of eight bits are those of the byte; its other bits are clear. */
  ghost predicate BitsAgree(b: byte, bits: seq<int>, n: nat)
    requires |bits| == 8
  {
    forall m :: 0 <= m < 8 ==> (bits[m] == 1 && m < n <==> HasBit(b, m))
  }

  /** Eight set or clear bits determine the byte. */
  lemma ByteFromBits(b: byte, bits: seq<int>)
    requires InBase(bits, 2) && |bits| == 8 && BitsAgree(b, bits, 8)
    ensures ByteOf(bits) == b
  {
    forall m | 0 <= m < 8 ensures HasBit(b, m) == HasBit(ByteOf(bits), m) {
      assert HasBit(b, m) <==> bits[m] == 1;
    }
    BitsDetermine(b, ByteOf(bits));
  }

  lemma ClearByte(bits: seq<int>)
    requires |bits| == 8
    ensures BitsAgree(0, bits, 0)
  {
    forall m | 0 <= m < 8 ensures !HasBit(0, m) {
      ZeroHasNoBit(m);
    }
  }

  lemma BitsAgreeStep(b: byte, bits: seq<int>, n: nat)
    requires |bits| == 8 && n < 8 && BitsAgree(b, bits, n)
    ensures BitsAgree(if bits[n] == 1 then OrBit(b, n) else b, bits, n + 1)
  {
    forall m | 0 <= m < 8 ensures HasBit(OrBit(b, n), m) == (HasBit(b, m) || m == n) {
      OrBitSets(b, n, m);
    }
  }

  lemma PackNext(bits: seq<int>, i: nat, b: byte)
    requires InBase(bits, 2) && 8 * i + 8 <= |bits|
    requires BitsAgree(b, bits[8 * i..8 * i + 8], 8)
    ensures Pack(bits, i + 1) == Pack(bits, i) + [b]
  {
    ByteFromBits(b, bits[8 * i..8 * i + 8]);
  }

  lemma ToDigitsConcat(a: seq<bool>, b: seq<bool>)
    ensures ToDigits(a + b) == ToDigits(a) + ToDigits(b)
  {
  }

  lemma ToDigitsSlice(a: seq<bool>, i: nat, j: nat)
    requires i <= j <= |a|
    ensures ToDigits(a[i..j]) == ToDigits(a)[i..j]
  {
  }

  method BytesToBits(dat: seq<byte>) returns (bits: array<bool>)
    ensures fresh(bits) && ToDigits(bits[..]) == Expand(dat, 2, 8)
  {
    bits := new bool[|dat| * 8](_ => false);
    var i := 0;
    while i < |dat|
      invariant 0 <= i <= |dat|
      invariant ToDigits(bits[..i * 8]) == Expand(dat[..i], 2, 8)
    {
      AppendByte(bits, i, dat[i]);
      ExpandAppend(dat[..i], dat[i], 2, 8);
      TakeAppend(dat, i);
      i := i + 1;
    }
    assert dat[..i] == dat;
    assert bits[..i * 8] == bits[..];
  }

  /** Writes the 8 bits of one byte behind those of the `i` bytes before it. */
  method AppendByte(bits: array<bool>, i: nat, b: byte)
    requires i * 8 + 8 <= bits.Length
    modifies bits
    ensures ToDigits(bits[..(i + 1) * 8]) == old(ToDigits(bits[..i * 8])) + Digits(b, 2, 8)
  {
    ghost var done := bits[..i * 8];
    ghost var next := Digits(b, 2, 8);
    var j := 0;
    while j < 8
      invariant 0 <= j <= 8
      invariant bits[..i * 8] == done
      invariant forall m :: 0 <= m < j ==> (bits[i * 8 + m] <==> next[m] == 1)
    {
      bits[i * 8 + j] := HasBit(b, j);
      j := j + 1;
    }
    assert ToDigits(bits[i * 8..i * 8 + 8]) == next;
    ToDigitsConcat(done, bits[i * 8..i * 8 + 8]);
    PrefixJoin(bits[..], i * 8, i * 8 + 8);
  }

  // ---------------------------------------------------------------- entropy of a phrase

  predicate Known(words: seq<string>, index: WordIndex)
  {
    forall k :: 0 <= k < |words| ==> words[k] in index
  }

  function Lookup(words: seq<string>, index: WordIndex): (r: seq<int>)
    requires Known(words, index)
    ensures |r| == |words| && InBase(r, Mnemonics.BIP39_WORDS)
  {
    seq(|words|, k requires 0 <= k < |words| => index[words[k]])
  }

  function ChecksumBits(n: nat): nat
  {
    n / 3
  }

  function EntropyBytes(n: nat): (r: nat)
    ensures 8 * r <= n * 11 < 8 * r + 8 + ChecksumBits(n)
  {
    (n * 11 - ChecksumBits(n)) / 8
  }

  function PackedEntropy(indices: seq<int>): (r: seq<byte>)
    requires InBase(indices, Mnemonics.BIP39_WORDS)
    ensures |r| == EntropyBytes(|indices|)
  {
    var len := EntropyBytes(|indices|);
    ExpandLength(indices, 2, 11);
    Pack(Expand(indices, 2, 11), len)
  }

  lemma BufferLengths(n: nat)
    ensures n * 11 / 33 == ChecksumBits(n)
    ensures (n * 11 - n * 11 / 33) / 8 == EntropyBytes(n)
  {
  }

  lemma PackedEntropyOf(indices: seq<int>, bits: seq<int>, len: nat)
    requires InBase(indices, Mnemonics.BIP39_WORDS) && len == EntropyBytes(|indices|)
    requires bits == Expand(indices, 2, 11) && |bits| == |indices| * 11
    ensures Pack(bits, len) == PackedEntropy(indices)
  {
  }

  lemma ChecksumHoldsOf(indices: seq<int>, bits: seq<int>, hash: seq<byte>, hashBits: seq<int>, k: nat)
    requires k == ChecksumBits(|indices|) <= |hashBits| == 8 * |hash| && |bits| == |indices| * 11
    requires bits == Expand(indices, 2, 11) && hashBits == Expand(hash, 2, 8)
    ensures ChecksumHolds(indices, hash) <==> bits[|bits| - k..] == hashBits[..k]
  {
  }

  lemma LookupConcat(init: seq<string>, last: string, index: WordIndex)
    requires Known(init, index) && last in index
    ensures Known(init + [last], index)
    ensures Lookup(init + [last], index) == Lookup(init, index) + [index[last]]
  {
  }

  lemma LookupAppend(words: seq<string>, w: nat, index: WordIndex)
    requires w < |words| && Known(words[..w], index) && words[w] in index
    ensures Known(words[..w + 1], index)
    ensures Expand(Lookup(words[..w + 1], index), 2, 11)
        == Expand(Lookup(words[..w], index), 2, 11) + Digits(index[words[w]], 2, 11)
  {
    ExpandAppend(Lookup(words[..w], index), index[words[w]], 2, 11);
    TakeAppend(words, w);
    LookupConcat(words[..w], words[w], index);
  }

  /** The trailing bits of the phrase are the leading bits of the entropy's hash. */
  predicate ChecksumHolds(indices: seq<int>, hash: seq<byte>)
    requires ChecksumBits(|indices|) <= 8 * |hash|
  {
    var k := ChecksumBits(|indices|);
    ExpandLength(indices, 2, 11);
    ExpandLength(hash, 2, 8);
    Expand(indices, 2, 11)[|indices| * 11 - k..] == Expand(hash, 2, 8)[..k]
  }

  method ToLegacyEntropy2(words: seq<string>, index: WordIndex, sha256: seq<byte> -> seq<byte>)
    returns (r: Result<seq<byte>, Mnemonics.MnemonicError>)
    requires forall e: seq<byte> :: |sha256(e)| == 32
    requires Known(words, index) ==> ChecksumBits(|words|) <= 256
    ensures !Known(words, index) ==> r == Err(Mnemonics.UnknownWord)
    ensures Known(words, index) ==>
              var indices := Lookup(words, index);
              var entropy := PackedEntropy(indices);
              r == if ChecksumHolds(indices, sha256(entropy)) then Ok(entropy) else Err(Mnemonics.ChecksumMismatch)
  {
    var known, concatBits := ConcatWords(words, index);
    if !known {
      return Err(Mnemonics.UnknownWord);
    }
    BufferLengths(|words|);
    var checksumBitsLen := concatBits.Length / 33;
    var entropyBitsLen := concatBits.Length - checksumBitsLen;
    var entropy := PackEntropy(Lookup(words, index), concatBits, entropyBitsLen / 8);
    var hash := sha256(entropy);
    var same := CompareHash(Lookup(words, index), concatBits, entropyBitsLen, hash, checksumBitsLen);
    r := if same then Ok(entropy) else Err(Mnemonics.ChecksumMismatch);
  }

  method PackEntropy(ghost indices: seq<int>, concatBits: array<bool>, len: nat) returns (entropy: seq<byte>)
    requires InBase(indices, Mnemonics.BIP39_WORDS) && len == EntropyBytes(|indices|)
    requires concatBits.Length == |indices| * 11 && ToDigits(concatBits[..]) == Expand(indices, 2, 11)
    ensures entropy == PackedEntropy(indices)
  {
    entropy := PackBits(concatBits, len);
    PackedEntropyOf(indices, ToDigits(concatBits[..]), len);
  }

  method CompareHash(ghost indices: seq<int>, concatBits: array<bool>, from: nat, hash: seq<byte>, len: nat)
    returns (same: bool)
    requires concatBits.Length == |indices| * 11 == from + len && ToDigits(concatBits[..]) == Expand(indices, 2, 11)
    requires len == ChecksumBits(|indices|) <= 8 * |hash|
    ensures same <==> ChecksumHolds(indices, hash)
  {
    hide Expand, ToDigits, ChecksumHolds, ChecksumBits;
    ghost var bits := ToDigits(concatBits[..]);
    ExpandLength(hash, 2, 8);
    var hashBits := BytesToBits(hash);
    same := SameBits(concatBits, from, hashBits, len);
    ChecksumHoldsOf(indices, bits, hash, Expand(hash, 2, 8), len);
  }

  /** Compares the last bits of one buffer with the first bits of another. */
  method SameBits(a: array<bool>, from: nat, b: array<bool>, len: nat) returns (same: bool)
    requires from + len == a.Length && len <= b.Length
    ensures same <==> ToDigits(a[..])[from..] == ToDigits(b[..])[..len]
  {
    var i := 0;
    while i < len
      invariant 0 <= i <= len
      invariant forall j :: 0 <= j < i ==> a[from + j] == b[j]
    {
      if a[from + i] != b[i] {
        assert ToDigits(a[..])[from..][i] != ToDigits(b[..])[..len][i];
        return false;
      }
      i := i + 1;
    }
    return true;
  }

  /** The bits of every word in turn, stopping at the first unknown word. */
  method ConcatWords(words: seq<string>, index: WordIndex) returns (known: bool, concatBits: array<bool>)
    ensures known <==> Known(words, index)
    ensures concatBits.Length == |words| * 11
    ensures known ==> ToDigits(concatBits[..]) == Expand(Lookup(words, index), 2, 11)
  {
    concatBits := new bool[|words| * 11](_ => false);
    var w := 0;
    while w < |words|
      invariant 0 <= w <= |words|
      invariant Known(words[..w], index)
      invariant ToDigits(concatBits[..w * 11]) == Expand(Lookup(words[..w], index), 2, 11)
    {
      if words[w] !in index {
        return false, concatBits;
      }
      var nds := index[words[w]];
      AppendWord(concatBits, w, nds);
      LookupAppend(words, w, index);
      w := w + 1;
    }
    assert words[..w] == words;
    assert concatBits[..w * 11] == concatBits[..];
    known := true;
  }

  /** Writes the 11 bits of one word index behind those of the `w` words before it. */
  method AppendWord(concatBits: array<bool>, w: nat, nds: int)
    requires w * 11 + 11 <= concatBits.Length && 0 <= nds < 2048
    modifies concatBits
    ensures ToDigits(concatBits[..(w + 1) * 11]) == old(ToDigits(concatBits[..w * 11])) + Digits(nds, 2, 11)
  {
    ghost var done := concatBits[..w * 11];
    ghost var next := Digits(nds, 2, 11);
    var i := 0;
    while i < 11
      invariant 0 <= i <= 11
      invariant concatBits[..w * 11] == done
      invariant forall m :: 0 <= m < i ==> (concatBits[w * 11 + m] <==> next[m] == 1)
    {
      concatBits[w * 11 + i] := HasBit11(nds, i);
      i := i + 1;
    }
    assert ToDigits(concatBits[w * 11..w * 11 + 11]) == next;
    ToDigitsConcat(done, concatBits[w * 11..w * 11 + 11]);
    PrefixJoin(concatBits[..], w * 11, w * 11 + 11);
  }

  method PackBits(concatBits: array<bool>, len: nat) returns (r: seq<byte>)
    requires 8 * len <= concatBits.Length
    ensures r == Pack(ToDigits(concatBits[..]), len)
  {
    hide Pack, OrBit, BitsAgree;
    ghost var whole := concatBits[..];
    ghost var bits := ToDigits(whole);
    PackNothing(bits);
    var entropy := new byte[len](_ => 0);
    var i := 0;
    while i < len
      invariant 0 <= i <= len
      invariant concatBits[..] == whole
      invariant entropy[..i] == Pack(bits, i)
      invariant forall m :: i <= m < len ==> entropy[m] == 0
    {
      ToDigitsSlice(whole, 8 * i, 8 * i + 8);
      assert whole[8 * i..8 * i + 8] == concatBits[8 * i..8 * i + 8];
      ghost var done := entropy[..i];
      OrByte(entropy, i, concatBits, bits[8 * i..8 * i + 8]);
      assert entropy[..i] == done;
      PackNext(bits, i, entropy[i]);
      TakeAppend(entropy[..], i);
      i := i + 1;
    }
    r := entropy[..];
    assert entropy[..i] == r;
  }

  lemma PackNothing(bits: seq<int>)
    requires InBase(bits, 2)
    ensures Pack(bits, 0) == []
  {
  }

  /** ORs eight bits into a zeroed byte. */
  method OrByte(entropy: array<byte>, i: nat, concatBits: array<bool>, ghost word: seq<int>)
    requires i < entropy.Length && 8 * i + 8 <= concatBits.Length
    requires entropy[i] == 0 && word == ToDigits(concatBits[8 * i..8 * i + 8])
    modifies entropy
    ensures entropy[..i] == old(entropy[..i]) && entropy[i + 1..] == old(entropy[i + 1..])
    ensures BitsAgree(entropy[i], word, 8)
  {
    hide OrBit, BitsAgree;
    ClearByte(word);
    var j := 0;
    while j < 8
      invariant 0 <= j <= 8
      invariant entropy[..i] == old(entropy[..i]) && entropy[i + 1..] == old(entropy[i + 1..])
      invariant BitsAgree(entropy[i], word, j)
    {
      assert concatBits[i * 8 + j] <==> word[j] == 1;
      BitsAgreeStep(entropy[i], word, j);
      if concatBits[i * 8 + j] {
        entropy[i] := OrBit(entropy[i], j);
      }
      j := j + 1;
    }
  }

  // ---------------------------------------------------------------- agreement with radix conversion

  lemma ValueOfBytes(data: seq<byte>)
    ensures Value(Expand(data, 2, 8), 2) == Value(data, 256)
  {
    SmallPowers();
    ValueOfExpand(data, 2, 8);
  }

  lemma PackedValue(bits: seq<int>, len: nat)
    requires InBase(bits, 2) && 8 * len <= |bits|
    ensures Pow(2, |bits| - 8 * len) > 0
    ensures Value(Pack(bits, len), 256) == Value(bits, 2) / Pow(2, |bits| - 8 * len)
  {
    hide Pack, Expand, Value, Pow;
    ValueSplit(bits, 2, 8 * len);
    ExpandPack(bits, len);
    ValueOfBytes(Pack(bits, len));
  }

  /** Bit packing is radix conversion: the entropy is the phrase read in base 2048, shifted
      right past the bits that do not fill a byte of it. */
  lemma PackingIsRadix(indices: seq<int>, rest: nat)
    requires InBase(indices, Mnemonics.BIP39_WORDS) && rest == |indices| * 11 - 8 * EntropyBytes(|indices|)
    ensures Pow(2, rest) > 0
    ensures Value(PackedEntropy(indices), 256) == Value(indices, Mnemonics.BIP39_WORDS) / Pow(2, rest)
  {
    var bits := Expand(indices, 2, 11);
    SmallPowers();
    ExpandLength(indices, 2, 11);
    ValueOfExpand(indices, 2, 11);
    PackedValue(bits, EntropyBytes(|indices|));
    PackedEntropyOf(indices, bits, EntropyBytes(|indices|));
  }

  /** For whole groups of three words the shift is one bit a group. */
  lemma PackingGroups(indices: seq<int>, k: nat)
    requires InBase(indices, Mnemonics.BIP39_WORDS) && |indices| == 3 * k
    ensures |PackedEntropy(indices)| == 4 * k && Pow(2, k) > 0
    ensures Value(PackedEntropy(indices), 256) == Value(indices, Mnemonics.BIP39_WORDS) / Pow(2, k)
  {
    hide Value, Pow, Pack, Expand, EntropyBytes, ChecksumBits, PackedEntropy;
    GroupLengths(k);
    PackingIsRadix(indices, k);
  }

  /** In numbers, for any phrase: the checksum is what is left of the indices' value, and it holds exactly
      when that is the hash's value with all but as many bits shifted out. */
  lemma ChecksumIsRemainder(indices: seq<int>, hash: seq<byte>, k: nat)
    requires InBase(indices, Mnemonics.BIP39_WORDS) && k == |indices| / 3 <= 8 * |hash|
    ensures Pow(2, k) > 0 && Pow(2, 8 * |hash| - k) > 0
    ensures ChecksumHolds(indices, hash)
       <==> Value(indices, 2048) % Pow(2, k) == Value(hash, 256) / Pow(2, 8 * |hash| - k)
  {
    hide Value, Pow, Expand, ChecksumHolds;
    var bits, hashBits := Expand(indices, 2, 11), Expand(hash, 2, 8);
    SmallPowers();
    ExpandLength(indices, 2, 11);
    ExpandLength(hash, 2, 8);
    ValueOfExpand(indices, 2, 11);
    ValueOfBytes(hash);
    ValueSplit(bits, 2, |bits| - k);
    ValueSplit(hashBits, 2, k);
    ChecksumHoldsOf(indices, bits, hash, hashBits, k);
    if Value(bits[|bits| - k..], 2) == Value(hashBits[..k], 2) {
      ValueInjective(bits[|bits| - k..], hashBits[..k], 2);
    }
  }

  lemma GroupLengths(k: nat)
    ensures EntropyBytes(3 * k) == 4 * k
  {
    DivModUnique(3 * k, 3, k, 0);
    DivModUnique(3 * k * 11 - k, 8, 4 * k, 0);
  }

  /** A 24-word phrase packs into the first 32 of the 33 bytes it converts to, and is accepted
      exactly when the 33rd is the first byte of the hash. */
  lemma TwentyFourWords(indices: seq<int>, hash: seq<byte>)
    requires InBase(indices, Mnemonics.BIP39_WORDS) && |indices| == 24 && |hash| == 32
    ensures var data := Digits(Value(indices, Mnemonics.BIP39_WORDS), 256, Mnemonics.LEGACY_BYTES);
      && PackedEntropy(indices) == data[..32]
      && (ChecksumHolds(indices, hash) <==> data[32] == hash[0])
  {
    hide Value, Digits, Pow, Expand, Pack;
    var bits := Expand(indices, 2, 11);
    var data := Digits(Value(indices, Mnemonics.BIP39_WORDS), 256, Mnemonics.LEGACY_BYTES);
    BitsOfData(indices);
    ExpandLength(indices, 2, 11);
    DataPrefix(data, bits);
    PackedEntropyOf(indices, bits, 32);
    LastByte(data, bits, hash);
    ExpandLength(hash, 2, 8);
    ChecksumHoldsOf(indices, bits, hash, Expand(hash, 2, 8), 8);
  }

  lemma DataPrefix(data: seq<byte>, bits: seq<int>)
    requires |data| == 33 && |bits| == 264 && Expand(data, 2, 8) == bits
    ensures Pack(bits, 32) == data[..32]
  {
    ExpandPrefix(data, 2, 8, 32);
    ExpandLength(data[..32], 2, 8);
    ExpandPack(bits, 32);
    ExpandInjective(Pack(bits, 32), data[..32]);
  }

  lemma LastByte(data: seq<byte>, bits: seq<int>, hash: seq<byte>)
    requires |data| == 33 && |hash| == 32 && |bits| == 264 && Expand(data, 2, 8) == bits
    ensures |Expand(hash, 2, 8)| == 256
    ensures bits[256..] == Expand(hash, 2, 8)[..8] <==> data[32] == hash[0]
  {
    ExpandAt(data, 2, 8, 32);
    ExpandAt(hash, 2, 8, 0);
    ExpandLength(hash, 2, 8);
    DigitsInjective(data[32], hash[0]);
  }

  lemma DigitsInjective(a: byte, b: byte)
    ensures Digits(a, 2, 8) == Digits(b, 2, 8) <==> a == b
  {
    if Digits(a, 2, 8) == Digits(b, 2, 8) {
      forall j | 0 <= j < 8 ensures HasBit(a, j) == HasBit(b, j) {
      }
      BitsDetermine(a, b);
    }
  }

  lemma BitsOfData(indices: seq<int>)
    requires InBase(indices, Mnemonics.BIP39_WORDS) && |indices| == 24
    ensures Expand(Digits(Value(indices, Mnemonics.BIP39_WORDS), 256, Mnemonics.LEGACY_BYTES), 2, 8)
        == Expand(indices, 2, 11)
  {
    var v := Value(indices, Mnemonics.BIP39_WORDS);
    var data := Digits(v, 256, Mnemonics.LEGACY_BYTES);
    SmallPowers();
    ValueBound(indices, Mnemonics.BIP39_WORDS);
    Mnemonics.Bip39Capacity();
    ValueOfDigits(v, 256, Mnemonics.LEGACY_BYTES);
    DivModUnique(v, Pow(256, Mnemonics.LEGACY_BYTES), 0, v);
    ExpandLength(indices, 2, 11);
    ExpandLength(data, 2, 8);
    ValueOfExpand(indices, 2, 11);
    ValueOfExpand(data, 2, 8);
    ValueInjective(Expand(data, 2, 8), Expand(indices, 2, 11), 2);
  }

  lemma ExpandInjective(a: seq<byte>, b: seq<byte>)
    requires Expand(a, 2, 8) == Expand(b, 2, 8)
    ensures a == b
  {
    SmallPowers();
    ExpandLength(a, 2, 8);
    ExpandLength(b, 2, 8);
    ValueOfExpand(a, 2, 8);
    ValueOfExpand(b, 2, 8);
    ValueInjective(a, b, 256);
  }
}

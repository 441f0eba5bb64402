/** Mnemonic phrases as entropy: radix conversion, the masked and checksummed 22-word legacy
    form, and the packed 24-word form. Word lists and SHA-256 are parameters. */
module Mnemonics {
  import opened Wrappers
  import opened Numerals
  import opened Bitwise
  import opened Sequences
  import Crc8

  datatype MnemonicError = NotLegacy | WrongLength | UnknownWord | ChecksumMismatch

  const LEGACY_WORDS := 4096
  const BIP39_WORDS := 2048
  const LEGACY_LENGTH: nat := 22
  const LEGACY_BYTES: nat := 33

  // ---------------------------------------------------------------- radix conversion

  /** Horner's rule into a big integer, then repeated division into a fixed-length buffer. */
  method ConvertRadix(nums: seq<int>, fromRadix: int, toRadix: int, toLength: nat) returns (result: array<byte>)
    requires toRadix > 0
    ensures fresh(result) && result.Length == toLength
    ensures result[..] == Truncated(Digits(Value(nums, fromRadix), toRadix, toLength))
  {
    var num := 0;
    var k := 0;
    while k < |nums|
      invariant 0 <= k <= |nums|
      invariant num == Value(nums[..k], fromRadix)
    {
      num := num * fromRadix;
      num := num + nums[k];
      assert nums[..k + 1] == nums[..k] + [nums[k]];
      ValueOfAppend(nums[..k], nums[k], fromRadix);
      k := k + 1;
    }
    assert nums[..k] == nums;
    ghost var whole := Digits(num, toRadix, toLength);
    result := new byte[toLength];
    var i := toLength - 1;
    while i >= 0
      invariant -1 <= i < toLength
      invariant whole == Digits(num, toRadix, i + 1) + whole[i + 1..]
      invariant forall j :: i < j < toLength ==> result[j] == whole[j] % 256
    {
      var rem := num % toRadix;
      assert whole[i] == rem;
      num := num / toRadix;
      result[i] := rem % 256;
      i := i - 1;
    }
  }

  /** `uint8(...)` of every digit; the identity for a radix of at most 256. */
  function Truncated(ds: seq<int>): (r: seq<byte>)
    ensures |r| == |ds|
  {
    seq(|ds|, i requires 0 <= i < |ds| => ds[i] % 256)
  }

  lemma TruncatedIsIdentity(ds: seq<int>)
    requires InBase(ds, 256)
    ensures Truncated(ds) == ds
  {
  }

  /** 22 legacy words and 33 bytes hold the same numbers. */
  lemma LegacyCapacity()
    ensures Pow(LEGACY_WORDS, LEGACY_LENGTH) == Pow(256, LEGACY_BYTES)
  {
    SmallPowers();
    PowPow(2, 12, 22);
    PowPow(2, 8, 33);
    assert Pow(2, 12) == 4096;
  }

  lemma Bip39Capacity()
    ensures Pow(BIP39_WORDS, 24) == Pow(256, LEGACY_BYTES)
  {
    SmallPowers();
    PowPow(2, 11, 24);
    PowPow(2, 8, 33);
  }

  // ---------------------------------------------------------------- legacy phrases

  /** The 33 bytes a list of word indices converts to. */
  function LegacyData(indices: seq<int>): (data: seq<byte>)
    ensures |data| == 33
  {
    Truncated(Digits(Value(indices, LEGACY_WORDS), 256, LEGACY_BYTES))
  }

  function Masked(data: seq<byte>, mask: byte): (r: seq<byte>)
    ensures |r| == |data|
  {
    seq(|data|, i requires 0 <= i < |data| => Xor(data[i], mask))
  }

  function LegacyEntropy(indices: seq<int>): (entropy: seq<byte>)
    ensures |entropy| == 32
  {
    var data := LegacyData(indices);
    Masked(data[..32], data[32])
  }

  function LegacyChecksum(indices: seq<int>): byte
  {
    LegacyData(indices)[32]
  }

  method ToLegacyEntropy(indices: seq<int>) returns (entropy: seq<byte>, checksum: byte)
    ensures entropy == LegacyEntropy(indices) && checksum == LegacyChecksum(indices)
  {
    hide Xor, Digits, Value;
    var data := ConvertRadix(indices, LEGACY_WORDS, 256, LEGACY_BYTES);
    checksum := data[data.Length - 1];
    var result := new byte[data.Length - 1];
    var i := 0;
    while i < data.Length - 1
      invariant 0 <= i <= 32
      invariant data[..] == LegacyData(indices) && checksum == LegacyChecksum(indices)
      invariant forall j :: 0 <= j < i ==> result[j] == Xor(LegacyData(indices)[j], checksum)
    {
      result[i] := Xor(data[i], checksum);
      i := i + 1;
    }
    entropy := result[..];
    assert entropy == LegacyEntropy(indices);
  }

  predicate IsLegacyList(legacy: seq<string>)
  {
    |legacy| == LEGACY_WORDS && NoDuplicates(legacy)
  }

  /** `indices` spells `words` in the given list. */
  predicate Spells(indices: seq<int>, words: seq<string>, legacy: seq<string>)
  {
    && |indices| == |words| && InBase(indices, |legacy|)
    && forall k :: 0 <= k < |words| ==> legacy[indices[k]] == words[k]
  }

  /** Every occurrence of every word in the list, in order. */
  method LegacyIndices(words: seq<string>, legacy: seq<string>) returns (r: Result<seq<int>, MnemonicError>)
    requires IsLegacyList(legacy)
    ensures r.Ok? <==> forall k :: 0 <= k < |words| ==> words[k] in legacy
    ensures r.Ok? ==> Spells(r.value, words, legacy)
    ensures r.Err? ==> r.error == UnknownWord
  {
    var indices: seq<int> := [];
    var k := 0;
    while k < |words|
      invariant 0 <= k <= |words|
      invariant forall j :: 0 <= j < k ==> words[j] in legacy
      invariant Spells(indices, words[..k], legacy)
    {
      var check := false;
      ghost var before := indices;
      var i := 0;
      while i < |legacy|
        invariant 0 <= i <= |legacy|
        invariant check <==> words[k] in legacy[..i]
        invariant if check
                  then && |indices| == k + 1 && indices[..k] == before
                       && 0 <= indices[k] < i && legacy[indices[k]] == words[k]
                  else indices == before
      {
        if words[k] == legacy[i] {
          check := true;
          indices := indices + [i];
        }
        i := i + 1;
      }
      if !check {
        return Err(UnknownWord);
      }
      assert words[..k + 1] == words[..k] + [words[k]];
      k := k + 1;
    }
    assert words[..k] == words;
    r := Ok(indices);
  }

  /** Each word's index in the BIP-39 list. */
  method Bip39Indices(words: seq<string>, bip39: map<string, int>) returns (r: Result<seq<int>, MnemonicError>)
    ensures r.Ok? <==> forall k :: 0 <= k < |words| ==> words[k] in bip39
    ensures r.Ok? ==>
              && |r.value| == |words|
              && forall k :: 0 <= k < |words| ==> words[k] in bip39 && r.value[k] == bip39[words[k]]
    ensures r.Err? ==> r.error == UnknownWord
  {
    var indices: seq<int> := [];
    var k := 0;
    while k < |words|
      invariant 0 <= k <= |words| && |indices| == k
      invariant forall j :: 0 <= j < k ==> words[j] in bip39 && indices[j] == bip39[words[j]]
    {
      if words[k] !in bip39 {
        return Err(UnknownWord);
      }
      indices := indices + [bip39[words[k]]];
      k := k + 1;
    }
    r := Ok(indices);
  }

  /** 22 words are looked up in the legacy list, 24 in the BIP-39 list, and no others anywhere. */
  method Indices(words: seq<string>, legacy: seq<string>, bip39: map<string, int>)
    returns (r: Result<seq<int>, MnemonicError>)
    requires IsLegacyList(legacy)
    ensures r.Ok? <==>
            || (|words| == 22 && forall k :: 0 <= k < |words| ==> words[k] in legacy)
            || (|words| == 24 && forall k :: 0 <= k < |words| ==> words[k] in bip39)
    ensures r.Ok? && |words| == 22 ==> Spells(r.value, words, legacy)
    ensures r.Ok? && |words| == 24 ==>
              |r.value| == 24 && forall k :: 0 <= k < |words| ==> words[k] in bip39 && r.value[k] == bip39[words[k]]
    ensures r.Err? ==> r.error == if |words| == 22 || |words| == 24 then UnknownWord else WrongLength
  {
    if |words| == 22 {
      r := LegacyIndices(words, legacy);
    } else if |words| == 24 {
      r := Bip39Indices(words, bip39);
    } else {
      r := Err(WrongLength);
    }
  }

  /** Index lists that pass the embedded checksum. */
  predicate Accepted(indices: seq<int>)
  {
    && |indices| == 22 && InBase(indices, LEGACY_WORDS)
    && LegacyChecksum(indices) == Crc8.Checksum(LegacyEntropy(indices))
  }

  method LegacyValidate(words: seq<string>, legacy: seq<string>, bip39: map<string, int>)
    returns (r: Result<seq<string>, MnemonicError>)
    requires IsLegacyList(legacy)
    ensures r.Ok? ==> r.value == words
    ensures r.Ok? <==> exists indices :: Spells(indices, words, legacy) && Accepted(indices)
    ensures r.Err? ==> r.error == if |words| != 22 then NotLegacy
                                  else if exists k :: 0 <= k < 22 && words[k] !in legacy then UnknownWord
                                  else ChecksumMismatch
  {
    if |words| != 22 {
      return Err(NotLegacy);
    }
    var indices := Indices(words, legacy, bip39);
    if indices.Err? {
      var k :| 0 <= k < |words| && words[k] !in legacy;
      return Err(indices.error);
    }
    var entropy, checksum := ToLegacyEntropy(indices.value);
    var newChecksum := Crc8.Compute(entropy);
    forall other | Spells(other, words, legacy) ensures other == indices.value {
      SpellingUnique(other, indices.value, words, legacy);
    }
    if checksum != newChecksum {
      return Err(ChecksumMismatch);
    }
    assert Accepted(indices.value);
    r := Ok(words);
  }

  lemma SpellingUnique(a: seq<int>, b: seq<int>, words: seq<string>, legacy: seq<string>)
    requires IsLegacyList(legacy) && Spells(a, words, legacy) && Spells(b, words, legacy)
    ensures a == b
  {
    forall k | 0 <= k < |a| ensures a[k] == b[k] {
      assert legacy[a[k]] == legacy[b[k]];
    }
  }

  /** 22 indices survive the trip through 33 bytes. */
  lemma LegacyDataLossless(indices: seq<int>)
    requires |indices| == 22 && InBase(indices, LEGACY_WORDS)
    ensures Value(LegacyData(indices), 256) == Value(indices, LEGACY_WORDS)
  {
    var v := Value(indices, LEGACY_WORDS);
    TruncatedIsIdentity(Digits(v, 256, LEGACY_BYTES));
    ValueBound(indices, LEGACY_WORDS);
    LegacyCapacity();
    ValueOfDigits(v, 256, LEGACY_BYTES);
    DivModUnique(v, Pow(256, LEGACY_BYTES), 0, v);
  }

  /** The index list an entropy is written as: its CRC is appended and masks it. */
  function LegacyPhrase(entropy: seq<byte>): (indices: seq<int>)
    requires |entropy| == 32
    ensures |indices| == 22 && InBase(indices, LEGACY_WORDS)
  {
    var checksum := Crc8.Checksum(entropy);
    Digits(Value(Masked(entropy, checksum) + [checksum], 256), LEGACY_WORDS, LEGACY_LENGTH)
  }

  lemma MaskTwice(data: seq<byte>, mask: byte)
    ensures Masked(Masked(data, mask), mask) == data
  {
    forall i | 0 <= i < |data| ensures Masked(Masked(data, mask), mask)[i] == data[i] {
      XorInvolutive(data[i], mask);
    }
  }

  /** Accepted index lists and 32-byte entropies correspond one to one: every entropy has an
      accepted phrase, and an accepted phrase is the one its entropy is written as. */
  lemma LegacyBijection(entropy: seq<byte>, indices: seq<int>)
    requires |entropy| == 32
    ensures Accepted(indices) && LegacyEntropy(indices) == entropy <==> indices == LegacyPhrase(entropy)
  {
    var phrase := LegacyPhrase(entropy);
    PhraseAccepted(entropy);
    if Accepted(indices) && LegacyEntropy(indices) == entropy {
      LegacyDataLossless(indices);
      LegacyDataLossless(phrase);
      var data, data' := LegacyData(indices), LegacyData(phrase);
      MaskTwice(data[..32], data[32]);
      MaskTwice(data'[..32], data'[32]);
      assert data == data[..32] + [data[32]];
      assert data' == data'[..32] + [data'[32]];
      ValueInjective(indices, phrase, LEGACY_WORDS);
    }
  }

  lemma PhraseData(entropy: seq<byte>)
    requires |entropy| == 32
    ensures var checksum := Crc8.Checksum(entropy);
      LegacyData(LegacyPhrase(entropy)) == Masked(entropy, checksum) + [checksum]
  {
    var checksum := Crc8.Checksum(entropy);
    var data := Masked(entropy, checksum) + [checksum];
    var v := Value(data, 256);
    ValueBound(data, 256);
    LegacyCapacity();
    ValueOfDigits(v, LEGACY_WORDS, LEGACY_LENGTH);
    DivModUnique(v, Pow(LEGACY_WORDS, LEGACY_LENGTH), 0, v);
    DigitsOfValue(data, 256);
    TruncatedIsIdentity(data);
  }

  lemma PhraseAccepted(entropy: seq<byte>)
    requires |entropy| == 32
    ensures Accepted(LegacyPhrase(entropy)) && LegacyEntropy(LegacyPhrase(entropy)) == entropy
  {
    var checksum := Crc8.Checksum(entropy);
    PhraseData(entropy);
    MaskTwice(entropy, checksum);
    var data := LegacyData(LegacyPhrase(entropy));
    assert data[..32] == Masked(entropy, checksum) && data[32] == checksum;
  }

  /** Two accepted phrases with the same entropy are the same words. */
  lemma EntropyDeterminesPhrase(a: seq<string>, b: seq<string>, ia: seq<int>, ib: seq<int>, legacy: seq<string>)
    requires IsLegacyList(legacy) && Spells(ia, a, legacy) && Spells(ib, b, legacy)
    requires Accepted(ia) && Accepted(ib) && LegacyEntropy(ia) == LegacyEntropy(ib)
    ensures a == b
  {
    LegacyBijection(LegacyEntropy(ia), ia);
    LegacyBijection(LegacyEntropy(ia), ib);
  }
}

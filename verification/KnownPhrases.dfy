/** A legacy phrase worked out by hand: that of 32 zero bytes. */
module KnownPhrases {
  import opened Wrappers
  import opened Numerals
  import opened Bitwise
  import opened Mnemonics
  import Crc8
  import opened CrcLaws

  /** The same numbers `k` times over. */
  function Times(ds: seq<int>, k: nat): (r: seq<int>)
    ensures |r| == k * |ds|
  {
    if k == 0 then [] else Times(ds, k - 1) + ds
  }

  lemma {:induction false} TimesAt(ds: seq<int>, k: nat)
    ensures forall i :: 0 <= i < |Times(ds, k)| ==> Times(ds, k)[i] in ds
  {
    if k > 0 {
      TimesAt(ds, k - 1);
    }
  }

  /** 0xd2d and 0x2d2 are 0xd2 three times. */
  lemma {:induction false} SameNumber(k: nat)
    ensures Value(Times([3373, 722], k), 4096) == Value(Times([210, 210, 210], k), 256)
  {
    hide Value;
    if k > 0 {
      SameNumber(k - 1);
      var a, b := Times([3373, 722], k - 1), Times([210, 210, 210], k - 1);
      ValueOfAppend(a, 3373, 4096);
      ValueOfAppend(a + [3373], 722, 4096);
      ValueOfAppend(b, 210, 256);
      ValueOfAppend(b + [210], 210, 256);
      ValueOfAppend(b + [210] + [210], 210, 256);
      assert a + [3373, 722] == a + [3373] + [722];
      assert b + [210, 210, 210] == b + [210] + [210] + [210];
    } else {
      NoDigits();
    }
  }

  lemma NoDigits()
    ensures Value([], 4096) == 0 == Value([], 256)
  {
  }

  lemma MaskedZeros()
    ensures Masked(ZeroBytes(32), 0xd2) + [0xd2] == Times([210, 210, 210], 11)
  {
    hide Xor;
    XorZero(0xd2, 0);
    XorCommutes(0, 0xd2);
    TimesAt([210, 210, 210], 11);
    var data := Masked(ZeroBytes(32), 0xd2) + [0xd2];
    forall i | 0 <= i < 33 ensures data[i] == Times([210, 210, 210], 11)[i] {
      assert Times([210, 210, 210], 11)[i] in [210, 210, 210];
    }
  }

  /** The phrase of 32 zero bytes: words 3373 and 722 of the list, eleven times. */
  lemma ZeroPhrase()
    ensures LegacyPhrase(ZeroBytes(32)) == Times([3373, 722], 11)
    ensures Accepted(Times([3373, 722], 11)) && LegacyEntropy(Times([3373, 722], 11)) == ZeroBytes(32)
  {
    hide Value, Digits, Accepted, LegacyEntropy;
    var indices := Times([3373, 722], 11);
    ZeroChecksum();
    MaskedZeros();
    SameNumber(11);
    TimesAt([3373, 722], 11);
    assert InBase(indices, LEGACY_WORDS) by {
      forall i | 0 <= i < 22 ensures 0 <= indices[i] < LEGACY_WORDS {
        assert indices[i] in [3373, 722];
      }
    }
    DigitsOfValue(indices, LEGACY_WORDS);
    PhraseAccepted(ZeroBytes(32));
  }
}

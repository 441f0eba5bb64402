/** Encodings written out byte by byte: what the contract at the other end has to find. */
module KnownCalls {
  import opened Wrappers
  import opened Numerals
  import opened Sequences
  import opened BigEndian
  import opened AbiEncoding
  import opened AbiSelector
  import opened AbiResults
  import opened AbiRoundTrip
  import SolidityAddresses

  /** A number below 256 is the last byte of its field. */
  lemma {:induction false} SmallField(n: int, width: nat)
    requires 0 <= n < 256
    ensures Field(n, width + 1) == Zeros(width) + [n]
  {
    NoBytes(width);
    assert n / 256 == 0 && n % 256 == n;
  }

  lemma {:induction false} NoBytes(width: nat)
    ensures Field(0, width) == Zeros(width)
  {
    if width > 0 {
      NoBytes(width - 1);
      assert Zeros(width) == Zeros(width - 1) + [0];
    }
  }

  lemma SmallWord(n: int)
    requires 0 <= n < 256
    ensures Word(n) == Zeros(31) + [n]
  {
    SmallField(n, 7);
    assert Zeros(24) + (Zeros(7) + [n]) == Zeros(31) + [n];
  }

  lemma SmallNumber(n: int, width: nat)
    requires 0 <= n < 256 && 0 < width <= 32
    ensures NumberValue(n, width) == Zeros(31) + [n]
  {
    SmallField(n, width - 1);
    assert Zeros(32 - width) + (Zeros(width - 1) + [n]) == Zeros(31) + [n];
  }

  /** All the bytes of minus one are set. */
  lemma {:induction false} MinusOneField(width: nat)
    ensures Field(-1, width) == seq(width, _ => 255)
  {
    if width > 0 {
      MinusOneField(width - 1);
      assert -1 / 256 == -1 && -1 % 256 == 255;
    }
  }

  /** Minus one fills as many bytes as the Go type has, and no more. */
  lemma MinusOne(bits: nat)
    requires IntBits(bits)
    ensures var full := if bits == 8 then 1 else if bits == 16 then 2 else if bits <= 32 then 4 else 8;
            NumberValue(-1, GoBytes(bits)) == Zeros(32 - full) + seq(full, _ => 255)
  {
    MinusOneField(GoBytes(bits));
  }

  function Arguments(): seq<Argument>
  {
    [Argument(NumberValue(7, 1), false), Argument(BytesValue([1, 2]), true), Argument(NumberValue(1, 1), false)]
  }

  /** A number, two bytes and a truth value: three words, the second pointing at byte 96, where the
      bytes follow their length and are filled up to a word. */
  lemma CallSpelt()
    ensures Encode(Arguments()) == Zeros(31) + [7] + (Zeros(31) + [96]) + (Zeros(31) + [1])
                                   + (Zeros(31) + [2] + [1, 2] + Zeros(30))
  {
    hide Word, NumberValue, Zeros;
    SmallNumber(7, 1);
    SmallNumber(1, 1);
    SmallWord(96);
    BytesSpelt();
    ThreeArguments(Arguments());
    WholeWord(Zeros(31) + [7]);
    WholeWord(Zeros(31) + [1]);
  }

  lemma BytesSpelt()
    ensures BytesValue([1, 2]) == Zeros(31) + [2] + [1, 2] + Zeros(30)
  {
    SmallWord(2);
  }

  lemma WholeWord(word: seq<byte>)
    requires |word| == 32
    ensures StaticWord(word) == word
  {
  }

  lemma ThreeArguments(args: seq<Argument>)
    requires |args| == 3 && !args[0].dynamic && args[1].dynamic && !args[2].dynamic
    ensures Encode(args) == StaticWord(args[0].value) + Word(96) + StaticWord(args[2].value) + args[1].value
  {
    hide StaticWord, Word;
    assert Tails(args, 0) == [] && Tails(args, 1) == [];
    assert Tails(args, 2) == args[1].value;
    assert Tails(args, 3) == args[1].value;
    assert Offset(args, 1) == 96;
    assert Heads(args, 0) == [];
    assert Heads(args, 1) == StaticWord(args[0].value);
    assert Heads(args, 2) == StaticWord(args[0].value) + Word(96);
  }

  /** An array of one string of one byte: the count, the offset just behind it, the length, the byte;
      and an array of one number. */
  lemma ArraysSpelt()
    ensures BytesArrayValue([[9]]) == Zeros(31) + [1] + (Zeros(31) + [32]) + (Zeros(31) + [1] + [9] + Zeros(31))
    ensures NumberArrayValue([5], 4) == Zeros(31) + [1] + (Zeros(31) + [5])
  {
    hide Word, NumberValue, Zeros, Encode, BytesValue;
    SmallWord(1);
    SmallWord(32);
    SmallNumber(5, 4);
    OneByteSpelt();
    var args := BytesArguments([[9]]);
    OneArgument(args);
    NumberWordsOne(5);
  }

  lemma OneByteSpelt()
    ensures BytesValue([9]) == Zeros(31) + [1] + [9] + Zeros(31)
  {
    SmallWord(1);
  }

  lemma OneArgument(args: seq<Argument>)
    requires |args| == 1 && args[0].dynamic
    ensures Encode(args) == Word(32) + args[0].value
  {
    hide Word;
    assert Tails(args, 0) == [] && Tails(args, 1) == args[0].value;
    assert Heads(args, 0) == [] && Heads(args, 1) == Word(32);
  }

  lemma NumberWordsOne(n: int)
    ensures NumberWords([n], 4) == NumberValue(n, 4)
  {
    hide NumberValue;
    assert NumberWords([], 4) == [];
  }

  lemma SignatureSpelt()
    ensures Signature("set", [SolidityType("uint8", false), SolidityType("int32", true), SolidityType("bool", false)])
         == "set(uint8,int32[],bool)"
  {
    ThreeTypes(SolidityType("uint8", false), SolidityType("int32", true), SolidityType("bool", false));
    hide ParamList;
    assert "uint8" + "," + "int32[]" + "," + "bool" == "uint8,int32[],bool";
    assert "set" + "(" + "uint8,int32[],bool" + ")" == "set(uint8,int32[],bool)";
    assert "int32" + "[]" == "int32[]" && "uint8" + "" == "uint8" && "bool" + "" == "bool";
  }

  lemma ThreeTypes(a: SolidityType, b: SolidityType, c: SolidityType)
    ensures ParamList([a, b, c]) == TypeName(a) + "," + TypeName(b) + "," + TypeName(c)
  {
    hide TypeName;
    assert [a, b, c][..2] == [a, b] && [a, b][..1] == [a];
    assert ParamList([a, b]) == TypeName(a) + ("," + TypeName(b));
    var x, y, z := TypeName(a), TypeName(b), TypeName(c);
    assert x + ("," + y) + ("," + z) == x + "," + y + "," + z;
  }

  lemma HexEncodeSpelt()
    ensures HexEncode([0x0a, 0xf9]) == "0af9"
  {
    hide HexEncode;
    EncodeNothing();
    HexEncodeAppend([], 0, 10);
    HexEncodeAppend([0x0a], 15, 9);
    assert [] + [0 * 16 + 10] == [0x0a] && [0x0a] + [15 * 16 + 9] == [0x0a, 0xf9];
    assert HexChar(0) == '0' && HexChar(10) == 'a' && HexChar(15) == 'f' && HexChar(9) == '9';
  }

  /** Both cases of letters are read, but nothing else, and only whole pairs. */
  lemma HexDecodeSpelt()
    ensures HexDecode("0aF9") == Some([0x0a, 0xf9]) && HexDecode("0g") == None && HexDecode("abc") == None
  {
    hide HexDecode, HexDigit;
    DecodeOddOrEmpty();
    Pairs();
    var first, both: seq<byte> := [0x0a], [0x0a, 0xf9];
    HexDecodeAppend("", '0', 'a', 0, 10);
    assert "" + ['0', 'a'] == "0a" && [] + [0 * 16 + 10] == first;
    HexDecodeAppend("0a", 'F', '9', 15, 9);
    assert "0a" + ['F', '9'] == "0aF9" && first + [15 * 16 + 9] == both;
  }

  lemma Pairs()
    ensures HexDigit('0') == Some(0) && HexDigit('9') == Some(9)
    ensures HexDigit('a') == Some(10) && HexDigit('F') == Some(15) && HexDigit('g') == None
  {
  }

  lemma DecodeOddOrEmpty()
    ensures HexDecode("") == Some([]) && HexDecode("0g") == None && HexDecode("abc") == None
  {
    Pairs();
    assert "abc"[..1] == "a" && HexDecode("a") == None;
  }

  /** Shard, realm and number of an ID in its address, eight, sixteen and sixteen digits. */
  lemma AddressSpelt()
    ensures HexEncode(SolidityAddresses.Packed(SolidityAddresses.Id(1, 2, 0xab)))
         == "00000001" + "0000000000000002" + "00000000000000ab"
  {
    hide Field, HexEncode, Zeros;
    PaddedHex(1, 3, "01");
    PaddedHex(2, 7, "02");
    PaddedHex(0xab, 7, "ab");
    HexConcat(Field(1, 4) + Field(2, 8), Field(0xab, 8));
    HexConcat(Field(1, 4), Field(2, 8));
    assert seq(6, _ => '0') == "000000" && seq(14, _ => '0') == "00000000000000";
  }

  lemma PaddedHex(n: int, width: nat, pair: string)
    requires 0 <= n < 256 && pair == [HexChar(n / 16), HexChar(n % 16)]
    ensures HexEncode(Field(n, width + 1)) == seq(2 * width, _ => '0') + pair
  {
    hide HexChar;
    SmallField(n, width);
    HexZeros(width);
    assert (Zeros(width) + [n])[..width] == Zeros(width);
  }

  lemma {:induction false} HexZeros(width: nat)
    ensures HexEncode(Zeros(width)) == seq(2 * width, _ => '0')
  {
    hide HexEncode;
    EncodeNothing();
    if width > 0 {
      HexZeros(width - 1);
      HexEncodeStep(Zeros(width));
      assert Zeros(width)[..width - 1] == Zeros(width - 1);
      assert seq(2 * width, _ => '0') == seq(2 * (width - 1), _ => '0') + ['0', '0'];
    }
  }

  lemma {:induction false} HexConcat(a: seq<byte>, b: seq<byte>)
    ensures HexEncode(a + b) == HexEncode(a) + HexEncode(b)
  {
    hide HexChar, HexEncode;
    EncodeNothing();
    if b == [] {
      assert a + b == a;
    } else {
      HexConcat(a, b[..|b| - 1]);
      HexEncodeStep(b);
      HexEncodeStep(a + b);
      assert (a + b)[..|a + b| - 1] == a + b[..|b| - 1];
    }
  }
}

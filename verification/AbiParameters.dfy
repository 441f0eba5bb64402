/** Building the argument bytes of a contract call. */
module AbiParameters {
  import opened Wrappers
  import opened Numerals
  import opened Sequences
  import opened BigEndian
  import opened AbiEncoding
  import opened AbiSelector
  import opened AbiResults
  import opened AbiRoundTrip
  import EntityIds

  datatype AddressFault = WrongLength | NotHex

  function FaultOf(value: string): Option<AddressFault>
  {
    if |value| != 40 then Some(WrongLength) else if HexDecode(value).None? then Some(NotHex) else None
  }

  /** An address is sound exactly when it is forty hexadecimal digits; of two faults the length is
      found first. */
  lemma FaultExactly(value: string)
    ensures FaultOf(value).None? <==> |value| == 40 && HexDecode(value).Some?
    ensures Reported(FaultOf(value)).Some? <==> |value| == 40 && HexDecode(value).None?
  {
  }

  /** What the caller is told: unwrapping the error for a wrong length leaves none. */
  function Reported(fault: Option<AddressFault>): Option<AddressFault>
  {
    if fault == Some(WrongLength) then None else fault
  }

  /** The name of an integer type, as in `int8` or `uint256`. */
  function IntName(signed: bool, bits: nat): string
  {
    (if signed then "int" else "uint") + EntityIds.Decimal(bits)
  }

  /** The type an integer adder registers. Those of the unsigned types of 16, 24, 40, 48 and 56 bits
      register the signed type. */
  function NumberType(v: AbiValue): SolidityType
    requires v.Int? || v.Uint?
  {
    SolidityType(IntName(v.Int? || v.bits in {16, 24, 40, 48, 56}, v.bits), false)
  }

  /** The type an array adder registers. Those of the signed types of 8, 16 and 24 bits register the
      array of 32 bits, which is how they write their elements. */
  function NumberArrayType(signed: bool, bits: nat): SolidityType
  {
    SolidityType(IntName(signed, if signed && bits < 32 then 32 else bits), true)
  }

  class ContractFunctionParameters {
    const selector: ContractFunctionSelector
    var arguments: seq<Argument>

    ghost predicate Valid()
      reads this, selector
    {
      selector.Valid() && |arguments| == |selector.paramTypes|
    }

    constructor ()
      ensures Valid() && arguments == [] && fresh(selector)
    {
      selector := new ContractFunctionSelector("");
      arguments := [];
    }

    /** What every adder promises: its type is registered, and one more argument is there, the
        value's; through the getter for its type it gives the value back whatever is added around
        it, unless the value is one that getter loses. */
    twostate predicate Added(v: AbiValue, ty: SolidityType)
      requires v.Valid()
      reads this, selector
    {
      && selector.paramTypes == old(selector.paramTypes) + [ty] && selector.function_ == old(selector.function_)
      && arguments == old(arguments) + [v.Argument()]
      && ReadableAt(arguments, |old(arguments)|, v)
    }

    /** Every adder ends the same way: the type joins the selector, the argument the list. */
    method AddArgument(argument: Argument, ty: SolidityType, ghost v: AbiValue)
      requires Valid() && v.Valid() && argument == v.Argument()
      modifies this, selector
      ensures Valid() && Added(v, ty)
    {
      AddedIsReadable(arguments, v);
      selector.AddParam(ty);
      arguments := arguments + [argument];
    }

    method AddBool(value: bool)
      requires Valid()
      modifies this, selector
      ensures Valid() && Added(Bool(value), SolidityType("bool", false))
    {
      hide ReadableAt;
      var word := new byte[32](_ => 0);
      word[31] := if value then 1 else 0;
      OneByte(word[31]);
      assert word[..] == Zeros(31) + [word[31]];
      AddArgument(Argument(word[..], false), SolidityType("bool", false), Bool(value));
    }

    /** The adders for 8 to 64 bits: 1 byte for 8 bits, 2 for 16, 4 for 24 and 32, 8 for 40 to 64.
        Negative numbers are cut to the width, not extended to the word. */
    method AddNumber(v: AbiValue)
      requires Valid() && v.Valid() && (v.Int? || v.Uint?)
      modifies this, selector
      ensures Valid() && Added(v, NumberType(v))
    {
      hide ReadableAt, Field, Pow, Overwrite, NumberType;
      var width := GoBytes(v.bits);
      var word := new byte[32](_ => 0);
      AllZeros(word[..], 32);
      Write(word, 32 - width, Field(v.n, width));
      FieldInWord(Field(v.n, width));
      AddArgument(Argument(word[..], false), NumberType(v), v);
    }

    /** The adders for 72 to 248 bits append the bytes given to the first bytes of a zeroed word:
        in place while they fit it, in a larger buffer otherwise. */
    method AddWide(value: seq<byte>, prefix: nat, signed: bool)
      requires Valid() && 1 <= prefix <= 23
      modifies this, selector
      ensures Valid() && Added(Fixed(value, prefix), SolidityType(IntName(signed, 256 - 8 * prefix), false))
    {
      hide ReadableAt, Overwrite, IntName;
      var word := new byte[32](_ => 0);
      AllZeros(word[..], 32);
      var bytes;
      if prefix + |value| <= 32 {
        Write(word, prefix, value);
        bytes := word[..prefix + |value|];
      } else {
        bytes := word[..prefix] + value;
      }
      AppendedToZeros(word[..], prefix, value, bytes);
      var ty := SolidityType(IntName(signed, (32 - prefix) * 8), false);
      AddArgument(Argument(bytes, false), ty, Fixed(value, prefix));
    }

    /** `AddInt256`, `AddUint256` and `AddBytes32` take the word as it is. */
    method AddWord(value: seq<byte>, ty: string)
      requires Valid()
      modifies this, selector
      ensures Valid() && Added(Fixed(value, 0), SolidityType(ty, false))
    {
      hide ReadableAt;
      assert Zeros(0) + value == value;
      AddArgument(Argument(value, false), SolidityType(ty, false), Fixed(value, 0));
    }

    /** A faulty address adds nothing; of a wrong length the caller is not even told. */
    method AddAddress(value: string) returns (error: Option<AddressFault>)
      requires Valid()
      modifies this, selector
      ensures Valid()
      ensures error == if |value| == 40 && HexDecode(value).None? then Some(NotHex) else None
      ensures arguments == old(arguments) <==> |value| != 40 || HexDecode(value).None?
      ensures FaultOf(value).Some? ==> arguments == old(arguments) && unchanged(selector)
      ensures FaultOf(value).None? ==>
                && |HexDecode(value).value| == 20
                && Added(Fixed(HexDecode(value).value, 12), SolidityType("address", false))
    {
      hide ReadableAt;
      if |value| != 40 {
        return None;
      }
      var bytes := HexDecode(value);
      if bytes.None? {
        return Some(NotHex);
      }
      AddArgument(Argument(Zeros(12) + bytes.value, false), SolidityType("address", false), Fixed(bytes.value, 12));
      error := None;
    }

    /** `AddBytes`, and `AddString` on the bytes of its string: the length is written into a zeroed
        word, then the bytes and the padding are appended. */
    method AddBytes(value: seq<byte>, ty: string)
      requires Valid()
      modifies this, selector
      ensures Valid() && Added(Bytes(value), SolidityType(ty, false))
    {
      hide ReadableAt, Field, Overwrite;
      var word := new byte[32](_ => 0);
      AllZeros(word[..], 32);
      Write(word, 24, Field(|value|, 8));
      FieldInWord(Field(|value|, 8));
      var bytes := word[..];
      bytes := bytes + value;
      bytes := bytes + Zeros(32 - |value| % 32);
      AddArgument(Argument(bytes, true), SolidityType(ty, false), Bytes(value));
    }

    /** `AddBytesArray`, and `AddStringArray` on the bytes of its strings. */
    method AddBytesArray(value: seq<seq<byte>>, ty: string)
      requires Valid() && |BytesArrayValue(value)| < TWO_63
      modifies this, selector
      ensures Valid() && Added(BytesList(value), SolidityType(ty, true))
    {
      hide ReadableAt;
      var encoded := BytesArray(value);
      AddArgument(Argument(encoded[..], true), SolidityType(ty, true), BytesList(value));
    }

    /** The number-array adders, 4 bytes an element up to 32 bits and 8 bytes for 64. */
    method AddNumberArray(value: seq<int>, signed: bool, bits: nat)
      requires Valid() && bits in (if signed then {8, 16, 24, 64} else {32, 64})
      modifies this, selector
      ensures Valid() && Added(NumberArray(value, if bits == 64 then 8 else 4), NumberArrayType(signed, bits))
    {
      hide ReadableAt, NumbersFilled, NumberArrayValue, Field, Word, Zeros, Overwrite, NumberArrayType;
      var width := if bits == 64 then 8 else 4;
      var result := new byte[|value| * 32 + 32](_ => 0);
      AllZeros(result[..], |value| * 32 + 32);
      Write(result, 24, Field(|value|, 8));
      CountWord(|value|, |value| * 32);
      NumbersFilledNone(value, width);
      var i := 0;
      while i < |value|
        invariant 0 <= i <= |value|
        invariant result[..] == NumbersFilled(value, i, width)
        modifies result
      {
        FillNumber(value, i, width);
        Write(result, i * 32 + 32 + (32 - width), Field(value[i], width));
        i := i + 1;
      }
      NumbersFilledAll(value, width);
      AddArgument(Argument(result[..], true), NumberArrayType(signed, bits), NumberArray(value, width));
    }

    /** `AddInt256Array` and `AddUint256Array` take every element as it is. */
    method AddWordArray(value: seq<seq<byte>>, ty: string)
      requires Valid() && forall k :: 0 <= k < |value| ==> |value[k]| == 32
      modifies this, selector
      ensures Valid() && Added(NumberArray(NumbersIn(value), 32), SolidityType(ty, true))
    {
      hide ReadableAt, NumbersFilled, NumberArrayValue, Field, Read, Word, Zeros, Overwrite;
      var result := new byte[|value| * 32 + 32](_ => 0);
      ghost var numbers := NumbersIn(value);
      AllZeros(result[..], |value| * 32 + 32);
      Write(result, 24, Field(|value|, 8));
      CountWord(|value|, |value| * 32);
      NumbersFilledNone(numbers, 32);
      var i := 0;
      while i < |value|
        invariant 0 <= i <= |value|
        invariant result[..] == NumbersFilled(numbers, i, 32)
        modifies result
      {
        FieldRead(value[i]);
        FillNumber(numbers, i, 32);
        Write(result, i * 32 + 32, value[i]);
        i := i + 1;
      }
      NumbersFilledAll(numbers, 32);
      AddArgument(Argument(result[..], true), SolidityType(ty, true), NumberArray(numbers, 32));
    }

    /** Every element is checked and decoded before it is written; a faulty one adds nothing, and
        again a wrong length goes unreported. */
    method AddAddressArray(value: seq<string>) returns (error: Option<AddressFault>)
      requires Valid()
      modifies this, selector
      ensures Valid() && error == Reported(FirstFault(value))
      ensures FirstFault(value).Some? ==> arguments == old(arguments) && unchanged(selector)
      ensures FirstFault(value).None? ==>
                Added(NumberArray(NumbersIn(AddressBytes(value)), 20), SolidityType("address", true))
    {
      hide ReadableAt, NumberArrayValue;
      var fault, result := AddressArray(value);
      if fault.Some? {
        return if fault.value.WrongLength? then None else fault;
      }
      AddArgument(Argument(result, true), SolidityType("address", true),
                  NumberArray(NumbersIn(AddressBytes(value)), 20));
      error := None;
    }

    /** Sizes the buffer, then writes every head in place and every tail behind the last. */
    method Build(functionName: Option<string>, keccak: string -> seq<byte>) returns (result: array<byte>)
      requires Valid() && Fits(arguments)
      requires forall s: string :: |keccak(s)| == 32
      modifies selector`function_
      ensures Valid() && fresh(result)
      ensures functionName.None? ==> result[..] == Encode(arguments) && selector.function_ == old(selector.function_)
      ensures functionName.Some? ==>
                && selector.function_ == functionName
                && result[..] == keccak(Signature(functionName.value, selector.paramTypes))[..4] + Encode(arguments)
    {
      var n := |arguments|;
      var functionOffset := if functionName.Some? then 4 else 0;
      var length := TotalLength(arguments);
      result := new byte[length + functionOffset](_ => 0);
      ghost var prefix: seq<byte> := [];
      if functionName.Some? {
        var bytes := selector.Build(functionName, keccak);
        prefix := bytes;
        Write(result, 0, bytes);
      }
      WriteArguments(result, prefix, functionOffset, arguments);
      assert [] + Encode(arguments) == Encode(arguments);
    }
  }

  // ---------------------------------------------------------------- the types registered

  lemma SameBehind(a: string, x: string, y: string)
    ensures a + x == a + y <==> x == y
  {
    if a + x == a + y {
      assert (a + x)[|a|..] == x && (a + y)[|a|..] == y;
    }
  }

  lemma SameBefore(x: string, y: string, z: string)
    ensures x + z == y + z <==> x == y
  {
    if x + z == y + z {
      assert (x + z)[..|x|] == x && (y + z)[..|y|] == y;
    }
  }

  /** With the same types before it, the last type decides the signature. */
  lemma LastTypeDecides(name: string, types: seq<SolidityType>, a: SolidityType, b: SolidityType)
    ensures Signature(name, types + [a]) == Signature(name, types + [b]) <==> TypeName(a) == TypeName(b)
  {
    var x, y := ParamList(types + [a]), ParamList(types + [b]);
    assert (types + [a])[..|types|] == types && (types + [b])[..|types|] == types;
    var before := if types == [] then "" else ParamList(types) + ",";
    assert x == before + TypeName(a) && y == before + TypeName(b);
    SameBehind(before, TypeName(a), TypeName(b));
    SameBehind(name + "(", x, y);
    SameBefore(name + "(" + x, name + "(" + y, ")");
  }

  lemma NamesSpelt()
    ensures IntName(true, 8) == "int8" && IntName(false, 8) == "uint8"
    ensures IntName(true, 16) == "int16" && IntName(true, 32) == "int32" && IntName(false, 64) == "uint64"
  {
  }

  lemma WideNamesSpelt()
    ensures IntName(true, 72) == "int72" && IntName(false, 248) == "uint248"
  {
    assert EntityIds.Decimal(2) == "2";
    assert EntityIds.Decimal(24) == "24";
    assert EntityIds.Decimal(248) == "248";
  }

  /** Some of the types registered, spelt out; 16 bits unsigned and 8 bits in an array go under another
      name. */
  lemma TypesSpelt()
    ensures NumberType(Int(0, 8)) == SolidityType("int8", false)
    ensures NumberType(Uint(0, 8)) == SolidityType("uint8", false)
    ensures NumberType(Uint(0, 16)) == SolidityType("int16", false)
    ensures NumberArrayType(true, 8) == SolidityType("int32", true)
    ensures NumberArrayType(false, 64) == SolidityType("uint64", true)
  {
    NamesSpelt();
    hide IntName;
  }

  lemma NameSpellsSign(signed: bool, bits: nat)
    ensures IntName(signed, bits)[0] == if signed then 'i' else 'u'
  {
  }

  /** Adding a number selects the function for the number's own type, whatever is added before it,
      unless its type is one of the five the adders take for signed ones. */
  lemma SelectsOwnType(name: string, types: seq<SolidityType>, v: AbiValue)
    requires v.Int? || v.Uint?
    ensures Signature(name, types + [NumberType(v)])
         == Signature(name, types + [SolidityType(IntName(v.Int?, v.bits), false)])
       <==> v.Int? || v.bits !in {16, 24, 40, 48, 56}
  {
    var own := SolidityType(IntName(v.Int?, v.bits), false);
    LastTypeDecides(name, types, NumberType(v), own);
    hide IntName, Signature;
    NameSpellsSign(true, v.bits);
    NameSpellsSign(false, v.bits);
    assert TypeName(own) == own.ty && TypeName(NumberType(v)) == NumberType(v).ty;
  }

  /** For an array the exceptions are the signed types below 32 bits. */
  lemma ArraySelectsOwnType(name: string, types: seq<SolidityType>, signed: bool, bits: nat)
    requires bits in {8, 16, 24, 32, 64}
    ensures Signature(name, types + [NumberArrayType(signed, bits)])
         == Signature(name, types + [SolidityType(IntName(signed, bits), true)])
       <==> !(signed && bits < 32)
  {
    var own := SolidityType(IntName(signed, bits), true);
    LastTypeDecides(name, types, NumberArrayType(signed, bits), own);
    hide Signature;
    if signed && bits < 32 {
      OtherName(bits);
    }
  }

  lemma OtherName(bits: nat)
    requires bits in {8, 16, 24}
    ensures IntName(true, bits) + "[]" != IntName(true, 32) + "[]"
  {
    EntityIds.DecimalRoundTrip(bits);
    EntityIds.DecimalRoundTrip(32);
    hide EntityIds.Decimal, EntityIds.DecimalValue;
    SameBehind("int", EntityIds.Decimal(bits), EntityIds.Decimal(32));
    SameBefore(IntName(true, bits), IntName(true, 32), "[]");
  }

  /** A field written at the end of a zeroed word. */
  lemma FieldInWord(field: seq<byte>)
    requires |field| <= 32
    ensures Overwrite(Zeros(32), 32 - |field|, field) == Zeros(32 - |field|) + field
  {
  }

  lemma AppendedToZeros(word: seq<byte>, prefix: nat, value: seq<byte>, bytes: seq<byte>)
    requires prefix <= 32
    requires if prefix + |value| <= 32
             then word == Overwrite(Zeros(32), prefix, value) && bytes == word[..prefix + |value|]
             else word == Zeros(32) && bytes == word[..prefix] + value
    ensures bytes == Zeros(prefix) + value
  {
  }

  lemma OneByte(b: byte)
    ensures Field(b, 1) == [b]
  {
    DigitsOfValue([b], 256);
    ValueOfAppend([], b, 256);
    assert [] + [b] == [b];
  }

  function NumbersIn(fields: seq<seq<byte>>): (r: seq<int>)
    ensures |r| == |fields| && forall k :: 0 <= k < |r| ==> r[k] == Read(fields[k])
  {
    seq(|fields|, k requires 0 <= k < |fields| => Read(fields[k]))
  }

  /** The fault of the first faulty address. */
  function FirstFault(value: seq<string>): Option<AddressFault>
  {
    if value == [] then None
    else
      var init := FirstFault(value[..|value| - 1]);
      if init.Some? then init else FaultOf(value[|value| - 1])
  }

  function AddressBytes(value: seq<string>): (r: seq<seq<byte>>)
    requires FirstFault(value).None?
    ensures |r| == |value|
  {
    if value == [] then []
    else AddressBytes(value[..|value| - 1]) + [HexDecode(value[|value| - 1]).value]
  }

  lemma {:induction false} FirstFaultIs(value: seq<string>, i: nat)
    requires i < |value| && FirstFault(value[..i]).None? && FaultOf(value[i]).Some?
    ensures FirstFault(value) == FaultOf(value[i])
    decreases |value|
  {
    var n := |value| - 1;
    if i < n {
      assert value[..n][..i] == value[..i];
      FirstFaultIs(value[..n], i);
    }
  }

  lemma NextAddress(value: seq<string>, i: nat, numbers: seq<int>)
    requires i < |value| == |numbers| && FirstFault(value[..i]).None? && FaultOf(value[i]).None?
    requires NumbersIn(AddressBytes(value[..i])) == numbers[..i] && numbers[i] == Read(HexDecode(value[i]).value)
    ensures FirstFault(value[..i + 1]).None? && NumbersIn(AddressBytes(value[..i + 1])) == numbers[..i + 1]
  {
    assert value[..i + 1][..i] == value[..i];
    var all := AddressBytes(value[..i + 1]);
    assert all == AddressBytes(value[..i]) + [HexDecode(value[i]).value];
    forall k | 0 <= k < i + 1 ensures Read(all[k]) == numbers[k] {
      if k < i {
        assert NumbersIn(AddressBytes(value[..i]))[k] == numbers[..i][k];
      }
    }
  }

  /** The count and the addresses behind it, up to the first faulty one. */
  method AddressArray(value: seq<string>) returns (fault: Option<AddressFault>, r: seq<byte>)
    ensures fault == FirstFault(value)
    ensures fault.None? ==> r == NumberArrayValue(NumbersIn(AddressBytes(value)), 20)
  {
    hide NumbersFilled, NumberArrayValue, Field, Read, Word, Zeros, Overwrite, HexDecode;
    var result := new byte[|value| * 32 + 32](_ => 0);
    AllZeros(result[..], |value| * 32 + 32);
    Write(result, 24, Field(|value|, 8));
    CountWord(|value|, |value| * 32);
    ghost var numbers: seq<int> := seq(|value|, _ => 0);
    NumbersFilledNone(numbers, 20);
    var i := 0;
    while i < |value|
      invariant 0 <= i <= |value| && |numbers| == |value|
      invariant FirstFault(value[..i]).None? && NumbersIn(AddressBytes(value[..i])) == numbers[..i]
      invariant result[..] == NumbersFilled(numbers, i, 20)
      modifies result
    {
      if |value[i]| != 40 {
        FirstFaultIs(value, i);
        return Some(WrongLength), [];
      }
      var bytes := HexDecode(value[i]);
      if bytes.None? {
        FirstFaultIs(value, i);
        return Some(NotHex), [];
      }
      ghost var before := numbers;
      numbers := numbers[i := Read(bytes.value)];
      SameFilled(before, numbers, i, 20);
      FieldRead(bytes.value);
      FillNumber(numbers, i, 20);
      Write(result, i * 32 + 32 + 12, bytes.value);
      NextAddress(value, i, numbers);
      i := i + 1;
    }
    TakeAll(value);
    TakeAll(numbers);
    NumbersFilledAll(numbers, 20);
    r, fault := result[..], None;
  }

  /** What is not yet written does not show. */
  lemma SameFilled(a: seq<int>, b: seq<int>, i: nat, width: nat)
    requires i <= |a| == |b| && width <= 32 && a[..i] == b[..i]
    ensures NumbersFilled(a, i, width) == NumbersFilled(b, i, width)
  {
  }

  /** An array argument once its first `i` numbers are written. */
  ghost function NumbersFilled(values: seq<int>, i: nat, width: nat): (r: seq<byte>)
    requires i <= |values| && width <= 32
    ensures |r| == 32 + 32 * |values|
  {
    Buffer(Word(|values|) + NumberWords(values[..i], width), 32 * (|values| - i), [], 0)
  }

  lemma NumbersFilledNone(values: seq<int>, width: nat)
    requires width <= 32
    ensures NumbersFilled(values, 0, width) == Word(|values|) + Zeros(|values| * 32)
  {
  }

  lemma NumbersFilledAll(values: seq<int>, width: nat)
    requires width <= 32
    ensures NumbersFilled(values, |values|, width) == NumberArrayValue(values, width)
  {
    TakeAll(values);
  }

  lemma NumberWordsNext(values: seq<int>, i: nat, width: nat)
    requires i < |values| && width <= 32
    ensures NumberWords(values[..i + 1], width) == NumberWords(values[..i], width) + NumberValue(values[i], width)
  {
    hide NumberValue;
    assert values[..i + 1][..i] == values[..i];
  }

  lemma FillNumber(values: seq<int>, i: nat, width: nat)
    requires i < |values| && width <= 32
    ensures Overwrite(NumbersFilled(values, i, width), i * 32 + 32 + (32 - width), Field(values[i], width))
         == NumbersFilled(values, i + 1, width)
  {
    hide Field, NumberWords, Word, Overwrite;
    var settled := Word(|values|) + NumberWords(values[..i], width);
    WriteHead(settled, 32 * (|values| - i), [], 0, 32 - width, Field(values[i], width));
    NumberWordsNext(values, i, width);
    assert Zeros(32 - width) + Field(values[i], width) + Zeros(0) == NumberValue(values[i], width);
    assert settled + NumberValue(values[i], width) == Word(|values|) + NumberWords(values[..i + 1], width);
  }

  method TotalLength(arguments: seq<Argument>) returns (length: nat)
    ensures length == |Encode(arguments)|
  {
    length := 0;
    var i := 0;
    while i < |arguments|
      invariant 0 <= i <= |arguments|
      invariant length == 32 * i + |Tails(arguments, i)|
    {
      length := length + 32;
      if arguments[i].dynamic {
        length := length + |arguments[i].value|;
      }
      i := i + 1;
    }
  }

  /** Bytes of tails still to be written. */
  ghost function Remaining(args: seq<Argument>, i: nat): nat
    requires i <= |args|
  {
    HeadsPrefix(args, i, |args|);
    |Tails(args, |args|)| - |Tails(args, i)|
  }

  /** The buffer once the first `i` arguments are written. */
  ghost function Filled(prefix: seq<byte>, args: seq<Argument>, i: nat): (r: seq<byte>)
    requires i <= |args|
    ensures |r| == |prefix| + 32 * |args| + |Tails(args, |args|)|
  {
    Buffer(prefix + Heads(args, i), 32 * (|args| - i), Tails(args, i), Remaining(args, i))
  }

  /** The same with the next head written as well. */
  ghost function HeadFilled(prefix: seq<byte>, args: seq<Argument>, i: nat): (r: seq<byte>)
    requires i < |args|
    ensures |r| == |prefix| + 32 * |args| + |Tails(args, |args|)|
  {
    Buffer(prefix + Heads(args, i + 1), 32 * (|args| - i - 1), Tails(args, i), Remaining(args, i))
  }

  lemma FilledNone(prefix: seq<byte>, args: seq<Argument>)
    ensures Filled(prefix, args, 0) == prefix + Zeros(32 * |args| + |Tails(args, |args|)|)
  {
  }

  lemma FilledAll(prefix: seq<byte>, args: seq<Argument>)
    ensures Filled(prefix, args, |args|) == prefix + Encode(args)
  {
  }

  function HeadBytes(arg: Argument, offset: int): (w: seq<byte>)
    ensures HeadSkip(arg) + |w| <= 32
    ensures Zeros(HeadSkip(arg)) + w + Zeros(32 - HeadSkip(arg) - |w|) == Head(arg, offset)
  {
    if arg.dynamic then Field(offset, 8) else if |arg.value| < 32 then arg.value else arg.value[..32]
  }

  function HeadSkip(arg: Argument): nat
  {
    if arg.dynamic then 24 else 0
  }

  lemma SettleHead(prefix: seq<byte>, args: seq<Argument>, i: nat)
    requires i < |args|
    ensures prefix + Heads(args, i) + Head(args[i], Offset(args, i)) == prefix + Heads(args, i + 1)
  {
  }

  lemma FillHead(prefix: seq<byte>, args: seq<Argument>, i: nat, at: nat, w: seq<byte>)
    requires i < |args| && w == HeadBytes(args[i], Offset(args, i)) && at == |prefix| + 32 * i + HeadSkip(args[i])
    ensures at + |w| <= |Filled(prefix, args, i)|
    ensures Overwrite(Filled(prefix, args, i), at, w) == HeadFilled(prefix, args, i)
  {
    hide Heads, Tails, Head, HeadBytes, HeadSkip, Offset, Overwrite, Buffer, Field, Zeros;
    WriteHead(prefix + Heads(args, i), 32 * (|args| - i), Tails(args, i), Remaining(args, i), HeadSkip(args[i]), w);
    SettleHead(prefix, args, i);
  }

  lemma FillTail(prefix: seq<byte>, args: seq<Argument>, i: nat, at: nat, w: seq<byte>)
    requires i < |args| && args[i].dynamic && w == args[i].value && at == |prefix| + Offset(args, i)
    ensures at + |w| <= |HeadFilled(prefix, args, i)|
    ensures Overwrite(HeadFilled(prefix, args, i), at, w) == Filled(prefix, args, i + 1)
  {
    hide Heads, Head, Overwrite, Buffer, Zeros;
    HeadsPrefix(args, i + 1, |args|);
    WriteTail(prefix + Heads(args, i + 1), 32 * (|args| - i - 1), Tails(args, i), Remaining(args, i), w);
  }

  lemma NoTail(prefix: seq<byte>, args: seq<Argument>, i: nat)
    requires i < |args| && !args[i].dynamic
    ensures HeadFilled(prefix, args, i) == Filled(prefix, args, i + 1)
  {
    assert Tails(args, i + 1) == Tails(args, i);
  }

  /** One turn of the writing pass: the head of argument `i`, and its tail when it has one. */
  method WriteArgument(result: array<byte>, ghost prefix: seq<byte>, functionOffset: nat, arguments: seq<Argument>,
                       i: nat, offset: nat)
    requires i < |arguments| && offset == Offset(arguments, i) && functionOffset == |prefix|
    requires result[..] == Filled(prefix, arguments, i)
    modifies result
    ensures result[..] == Filled(prefix, arguments, i + 1)
  {
    var argument := arguments[i];
    var at, w := i * 32 + functionOffset + HeadSkip(argument), HeadBytes(argument, offset);
    FillHead(prefix, arguments, i, at, w);
    Write(result, at, w);
    if argument.dynamic {
      FillTail(prefix, arguments, i, offset + functionOffset, argument.value);
      Write(result, offset + functionOffset, argument.value);
    } else {
      NoTail(prefix, arguments, i);
    }
  }

  lemma OffsetNone(args: seq<Argument>)
    ensures Offset(args, 0) == 32 * |args|
  {
  }

  lemma OffsetNext(args: seq<Argument>, i: nat)
    requires i < |args|
    ensures Offset(args, i + 1) == Offset(args, i) + if args[i].dynamic then |args[i].value| else 0
  {
  }

  lemma EncodedLength(args: seq<Argument>)
    ensures |Encode(args)| == 32 * |args| + |Tails(args, |args|)|
  {
  }

  /** The writing pass over a buffer whose prefix is settled. */
  method WriteArguments(result: array<byte>, ghost prefix: seq<byte>, functionOffset: nat, arguments: seq<Argument>)
    requires functionOffset == |prefix|
    requires result[..] == prefix + Zeros(|Encode(arguments)|)
    modifies result
    ensures result[..] == prefix + Encode(arguments)
  {
    hide Heads, Tails, Offset, Buffer, Filled, Remaining, Encode, Zeros;
    FilledNone(prefix, arguments);
    EncodedLength(arguments);
    OffsetNone(arguments);
    var offset := |arguments| * 32;
    var i := 0;
    while i < |arguments|
      invariant 0 <= i <= |arguments|
      invariant offset == Offset(arguments, i)
      invariant result[..] == Filled(prefix, arguments, i)
    {
      WriteArgument(result, prefix, functionOffset, arguments, i, offset);
      OffsetNext(arguments, i);
      if arguments[i].dynamic {
        offset := offset + |arguments[i].value|;
      }
      i := i + 1;
    }
    FilledAll(prefix, arguments);
  }

  /** Length of an element rounded up to whole words, the extra word included. */
  function PaddedLength(len: nat): (r: nat)
    ensures r == len + 32 - len % 32
  {
    if len / 32 == 0 then 32 else (len / 32 + 1) * 32
  }

  lemma PaddedWord(word: seq<byte>, s: seq<byte>)
    requires |word| == 32
    ensures Overwrite(word + Zeros(PaddedLength(|s|)), 32, s) == word + s + Zeros(32 - |s| % 32)
  {
  }

  /** A zeroed buffer with the length in its first word and the bytes behind it. */
  method ElementBytes(s: seq<byte>) returns (bytes: seq<byte>)
    ensures bytes == BytesValue(s)
  {
    hide Field, Overwrite;
    var buf := new byte[PaddedLength(|s|) + 32](_ => 0);
    AllZeros(buf[..], PaddedLength(|s|) + 32);
    Write(buf, 24, Field(|s|, 8));
    CountWord(|s|, PaddedLength(|s|));
    Write(buf, 32, s);
    PaddedWord(Word(|s|), s);
    bytes := buf[..];
  }

  method Elements(value: seq<seq<byte>>) returns (arguments: seq<Argument>)
    ensures arguments == BytesArguments(value)
  {
    arguments := [];
    var i := 0;
    while i < |value|
      invariant 0 <= i <= |value| && |arguments| == i
      invariant forall j :: 0 <= j < i ==> arguments[j] == Argument(BytesValue(value[j]), true)
    {
      var bytes := ElementBytes(value[i]);
      arguments := arguments + [Argument(bytes, true)];
      i := i + 1;
    }
  }

  /** Writing a count into the first word of a zeroed buffer. */
  lemma CountWord(n: int, len: nat)
    ensures Overwrite(Zeros(len + 32), 24, Field(n, 8)) == Word(n) + Zeros(len)
  {
  }

  lemma AllZeros(s: seq<byte>, n: nat)
    requires |s| == n && forall i :: 0 <= i < n ==> s[i] == 0
    ensures s == Zeros(n)
  {
  }

  lemma ElementTail(value: seq<seq<byte>>, i: nat)
    requires i < |value|
    ensures |Tails(BytesArguments(value), i + 1)| == |Tails(BytesArguments(value), i)| + 32 + PaddedLength(|value[i]|)
  {
    hide Field;
  }

  /** A sizing pass, the elements, then a writing pass over one buffer. */
  method BytesArray(value: seq<seq<byte>>) returns (result: array<byte>)
    requires |BytesArrayValue(value)| < TWO_63
    ensures fresh(result) && result[..] == BytesArrayValue(value)
  {
    hide Field, Word, Overwrite, BytesValue, PaddedLength, Tails, Tail, Heads, Zeros, BytesArguments;
    ghost var args := BytesArguments(value);
    EncodedLength(args);
    OffsetNone(args);
    var length := 0;
    var i := 0;
    while i < |value|
      invariant 0 <= i <= |value|
      invariant length == 32 * i + |Tails(args, i)|
    {
      ElementTail(value, i);
      length := length + 32 + 32 + PaddedLength(|value[i]|);
      i := i + 1;
    }
    result := new byte[length + 32](_ => 0);
    AllZeros(result[..], length + 32);
    Write(result, 24, Field(|value|, 8));
    CountWord(|value|, length);
    var arguments := Elements(value);

    WriteArguments(result, Word(|value|), 32, arguments);
  }
}

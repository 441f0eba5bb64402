/** Decoding what was encoded. */
module AbiRoundTrip {
  import opened Wrappers
  import opened Numerals
  import opened Sequences
  import opened BigEndian
  import opened AbiEncoding
  import opened AbiResults

  // ---------------------------------------------------------------- one word

  /** Within a slice's index range unsigned arithmetic does not wrap. */
  lemma Small(n: nat)
    requires n < TWO_64
    ensures U64(n) == n
  {
  }

  lemma SubSlice(data: seq<byte>, at: nat, len: nat, lo: nat, hi: nat)
    requires at + len <= |data| && lo <= hi <= len
    ensures data[at + lo..at + hi] == data[at..at + len][lo..hi]
  {
    var a, b := data[at + lo..at + hi], data[at..at + len][lo..hi];
    forall i | 0 <= i < |a| ensures a[i] == b[i] {
    }
  }

  lemma WordPartAt(data: seq<byte>, index: nat, w: seq<byte>, from: nat)
    requires 32 * index + 32 <= |data| < TWO_63 && data[32 * index..32 * index + 32] == w && from <= 32
    ensures WordPart(data, index, from) == Some(w[from..])
  {
    Small(index * 32 + from);
    Small((index + 1) * 32);
    SubSlice(data, 32 * index, 32, from, 32);
    assert w[from..32] == w[from..];
  }

  /** The word of argument `i` is its head, from any byte on. */
  lemma WordOfEncode(args: seq<Argument>, i: nat, from: nat)
    requires Fits(args) && i < |args| && from <= 32
    ensures WordPart(Encode(args), i, from) == Some(Head(args[i], Offset(args, i))[from..])
  {
    HeadAt(args, i);
    WordPartAt(Encode(args), i, Head(args[i], Offset(args, i)), from);
  }

  lemma NumberTail(n: int, width: nat)
    requires width <= 32
    ensures NumberValue(n, width)[32 - width..] == Field(n, width)
  {
  }

  lemma NumberHead(n: int, width: nat, offset: int)
    requires width <= 32
    ensures Head(Argument(NumberValue(n, width), false), offset) == NumberValue(n, width)
  {
    assert NumberValue(n, width)[..32] == NumberValue(n, width);
  }

  /** A fixed-width number reads back reduced to its width. */
  lemma NumberOfEncode(args: seq<Argument>, i: nat, n: int, width: nat)
    requires Fits(args) && i < |args| && width <= 32 && args[i] == Argument(NumberValue(n, width), false)
    ensures Pow(256, width) > 0
    ensures GetNumber(Encode(args), i, width) == Some(n % Pow(256, width))
  {
    hide Pow, Field, Encode, Head, Offset, Read;
    WordOfEncode(args, i, 32 - width);
    NumberHead(n, width, Offset(args, i));
    NumberTail(n, width);
    ReadField(n, width);
  }

  /** A dynamic argument's word reads back as the place of its tail. */
  lemma OffsetOfEncode(args: seq<Argument>, i: nat)
    requires Fits(args) && i < |args| && args[i].dynamic
    ensures GetNumber(Encode(args), i, 8) == Some(Offset(args, i))
    ensures Offset(args, i) + |args[i].value| <= |Encode(args)|
  {
    WordOfEncode(args, i, 24);
    TailAt(args, i);
    WordField(Offset(args, i));
  }

  lemma WordField(n: nat)
    requires n < TWO_64
    ensures Word(n)[24..] == Field(n, 8) && Read(Field(n, 8)) == n
  {
    ReadField64(n);
    Small(n);
  }

  // ---------------------------------------------------------------- byte strings

  /** Reading depends only on what it visits: more data behind changes nothing. */
  lemma GetBytesExtends(data: seq<byte>, more: seq<byte>, index: nat)
    requires GetBytes(data, index).Some?
    ensures GetBytes(data + more, index) == GetBytes(data, index)
  {
    hide Slice, Read;
    var offset := GetNumber(data, index, 8).value;
    SliceExtends(data, more, U64(index * 32 + 24), U64((index + 1) * 32));
    SliceExtends(data, more, U64(offset + 24), U64(offset + 32));
    var len := Read(Slice(data, U64(offset + 24), U64(offset + 32)).value);
    SliceExtends(data, more, U64(offset + 32), U64(offset + 32 + len));
  }

  lemma SliceExtends(data: seq<byte>, more: seq<byte>, lo: int, hi: int)
    requires Slice(data, lo, hi).Some?
    ensures Slice(data + more, lo, hi) == Slice(data, lo, hi)
  {
    assert (data + more)[lo..hi] == data[lo..hi];
  }

  /** A length-prefixed byte string at `offset` reads back exactly. */
  lemma BytesAt(data: seq<byte>, offset: nat, payload: seq<byte>)
    requires offset + |BytesValue(payload)| <= |data| < TWO_63
    requires data[offset..offset + |BytesValue(payload)|] == BytesValue(payload)
    ensures Slice(data, U64(offset + 24), U64(offset + 32)) == Some(Field(|payload|, 8))
    ensures Read(Field(|payload|, 8)) == |payload|
    ensures Slice(data, U64(offset + 32), U64(offset + 32 + |payload|)) == Some(payload)
  {
    var v := BytesValue(payload);
    var n := |payload|;
    BytesValueParts(payload);
    WordField(n);
    InnerSlice(data, offset, v, 24, 32);
    InnerSlice(data, offset, v, 32, 32 + n);
  }

  lemma BytesValueParts(payload: seq<byte>)
    ensures BytesValue(payload)[24..32] == Field(|payload|, 8)
    ensures BytesValue(payload)[32..32 + |payload|] == payload
  {
  }

  lemma InnerSlice(data: seq<byte>, at: nat, v: seq<byte>, lo: nat, hi: nat)
    requires at + |v| <= |data| < TWO_63 && data[at..at + |v|] == v && lo <= hi <= |v|
    ensures Slice(data, U64(at + lo), U64(at + hi)) == Some(v[lo..hi])
  {
    SubSlice(data, at, |v|, lo, hi);
    Small(at + lo);
    Small(at + hi);
  }

  lemma BytesOfEncode(args: seq<Argument>, i: nat, payload: seq<byte>)
    requires Fits(args) && i < |args| && args[i] == Argument(BytesValue(payload), true)
    ensures GetBytes(Encode(args), i) == Some(payload)
  {
    OffsetOfEncode(args, i);
    TailAt(args, i);
    BytesThrough(Encode(args), i, Offset(args, i), payload, BytesValue(payload));
  }

  lemma BytesThrough(data: seq<byte>, index: nat, offset: nat, payload: seq<byte>, v: seq<byte>)
    requires v == BytesValue(payload) && offset + |v| <= |data| < TWO_63 && data[offset..offset + |v|] == v
    requires GetNumber(data, index, 8) == Some(offset)
    ensures GetBytes(data, index) == Some(payload)
  {
    BytesAt(data, offset, payload);
    FollowOffset(data, index, offset, Field(|payload|, 8), |payload|, payload);
  }

  lemma FollowOffset(data: seq<byte>, index: nat, offset: nat, len: seq<byte>, n: nat, payload: seq<byte>)
    requires GetNumber(data, index, 8) == Some(offset)
    requires Slice(data, U64(offset + 24), U64(offset + 32)) == Some(len) && Read(len) == n
    requires Slice(data, U64(offset + 32), U64(offset + 32 + n)) == Some(payload)
    ensures GetBytes(data, index) == Some(payload)
  {
  }

  // ---------------------------------------------------------------- arrays

  /** An array argument is found whole at the place its word gives. */
  lemma ArrayOfEncode(args: seq<Argument>, i: nat, count: nat, body: seq<byte>)
    requires Fits(args) && i < |args| && args[i] == Argument(Word(count) + body, true) && count < TWO_64
    ensures var a := ArrayAt(Encode(args), i);
      a.Some? && Read(a.value[..32]) == count && body <= a.value[32..]
  {
    hide Encode, Offset, GetNumber, Word, Read;
    OffsetOfEncode(args, i);
    TailAt(args, i);
    StartsWith(Encode(args), Offset(args, i), Word(count), body);
    ReadWord(count);
  }

  lemma StartsWith(data: seq<byte>, offset: nat, word: seq<byte>, body: seq<byte>)
    requires |word| == 32 && offset + 32 + |body| <= |data|
    requires data[offset..offset + 32 + |body|] == word + body
    ensures data[offset..][..32] == word && body <= data[offset..][32..]
  {
    assert data[offset..][..32 + |body|] == word + body;
    assert data[offset..][..32] == (word + body)[..32];
    assert data[offset..][32..][..|body|] == (word + body)[32..];
  }

  lemma {:induction false} ReadZeros(n: nat, b: seq<byte>)
    ensures Read(Zeros(n) + b) == Read(b)
    decreases n
  {
    ValueConcat(Zeros(n), b, 256);
    ValueOfZeros(n);
  }

  lemma {:induction false} ValueOfZeros(n: nat)
    ensures Value(Zeros(n), 256) == 0
  {
    if n > 0 {
      ValueOfZeros(n - 1);
      assert Zeros(n) == Zeros(n - 1) + [0];
      ValueOfAppend(Zeros(n - 1), 0, 256);
    }
  }

  lemma ReadWord(n: nat)
    requires n < TWO_64
    ensures Read(Word(n)) == n
  {
    hide Read, Field, Zeros;
    ReadZeros(24, Field(n, 8));
    ReadField64(n);
    DivModUnique(n, TWO_64, 0, n);
  }

  lemma {:induction false} BytesElementsOfEncode(items: seq<seq<byte>>, more: seq<byte>, k: nat)
    requires k <= |items| && Fits(BytesArguments(items))
    ensures BytesElements(Encode(BytesArguments(items)) + more, k) == Some(items[..k])
  {
    hide Encode, Fits, GetBytes;
    if k > 0 {
      BytesElementsOfEncode(items, more, k - 1);
      BytesOfEncode(BytesArguments(items), k - 1, items[k - 1]);
      GetBytesExtends(Encode(BytesArguments(items)), more, k - 1);
      TakeAppend(items, k - 1);
    }
  }

  lemma {:induction false} NumberWordAt(numbers: seq<int>, width: nat, k: nat)
    requires width <= 32 && k < |numbers|
    ensures NumberWords(numbers, width)[32 * k..32 * k + 32] == NumberValue(numbers[k], width)
    decreases |numbers|
  {
    var n := |numbers| - 1;
    if k < n {
      NumberWordAt(numbers[..n], width, k);
      assert NumberWords(numbers, width)[..32 * n] == NumberWords(numbers[..n], width);
      assert NumberWords(numbers, width)[32 * k..32 * k + 32]
          == NumberWords(numbers, width)[..32 * n][32 * k..32 * k + 32];
    }
  }

  function Reduced(numbers: seq<int>, width: nat): (r: seq<int>)
    ensures |r| == |numbers|
  {
    PowPositive(256, width);
    seq(|numbers|, k requires 0 <= k < |numbers| => numbers[k] % Pow(256, width))
  }

  lemma SliceWithin(part: seq<byte>, whole: seq<byte>, lo: nat, hi: nat)
    requires part <= whole && lo <= hi <= |part|
    ensures whole[lo..hi] == part[lo..hi]
  {
    assert whole[..|part|] == part;
    assert whole[lo..hi] == whole[..|part|][lo..hi];
  }

  lemma ReducedAt(numbers: seq<int>, width: nat, k: nat)
    requires k < |numbers|
    ensures Pow(256, width) > 0 && Reduced(numbers, width)[k] == numbers[k] % Pow(256, width)
  {
    PowPositive(256, width);
  }

  lemma NumberElementAt(numbers: seq<int>, width: nat, elements: seq<byte>, k: nat)
    requires width <= 32 && k < |numbers| && NumberWords(numbers, width) <= elements && |elements| < TWO_63
    ensures GetNumber(elements, k, width) == Some(Reduced(numbers, width)[k])
  {
    hide Pow, Field, NumberWords, NumberValue, Read, WordPart, Reduced;
    ReducedAt(numbers, width, k);
    NumberPartAt(numbers, width, elements, k);
    ReadField(numbers[k], width);
  }

  lemma NumberPartAt(numbers: seq<int>, width: nat, elements: seq<byte>, k: nat)
    requires width <= 32 && k < |numbers| && NumberWords(numbers, width) <= elements && |elements| < TWO_63
    ensures WordPart(elements, k, 32 - width) == Some(Field(numbers[k], width))
  {
    hide Field, NumberWords, NumberValue, WordPart;
    NumberWordWithin(numbers, width, elements, k);
    NumberTail(numbers[k], width);
    WordPartAt(elements, k, NumberValue(numbers[k], width), 32 - width);
  }

  lemma NumberWordWithin(numbers: seq<int>, width: nat, elements: seq<byte>, k: nat)
    requires width <= 32 && k < |numbers| && NumberWords(numbers, width) <= elements
    ensures 32 * k + 32 <= |elements| && elements[32 * k..32 * k + 32] == NumberValue(numbers[k], width)
  {
    hide NumberWords, NumberValue;
    NumberWordAt(numbers, width, k);
    SliceWithin(NumberWords(numbers, width), elements, 32 * k, 32 * k + 32);
  }

  lemma {:induction false} NumberElementsOfWords(numbers: seq<int>, width: nat, elements: seq<byte>, k: nat)
    requires width <= 32 && k <= |numbers| && NumberWords(numbers, width) <= elements && |elements| < TWO_63
    ensures NumberElements(elements, k, width) == Some(Reduced(numbers, width)[..k])
  {
    hide NumberWords, GetNumber, Reduced;
    if k > 0 {
      NumberElementsOfWords(numbers, width, elements, k - 1);
      NumberElementAt(numbers, width, elements, k - 1);
      TakeAppend(Reduced(numbers, width), k - 1);
    }
  }

  // ---------------------------------------------------------------- every kind of value

  lemma ModFits(n: int, p: int)
    requires p > 0
    ensures n % p == n <==> 0 <= n < p
  {
    if 0 <= n < p {
      DivModUnique(n, p, 0, n);
    }
  }

  lemma UintReads(args: seq<Argument>, i: nat, v: AbiValue)
    requires v.Uint? && v.Valid() && Fits(args) && i < |args| && args[i] == v.Argument()
    ensures ReadAs(Encode(args), i, v.Kind()) == Some(v)
  {
    hide Encode, Fits, GetNumber, Field, Pow;
    NumberOfEncode(args, i, v.n, GoBytes(v.bits));
    ModFits(v.n, Pow(256, GoBytes(v.bits)));
  }

  lemma SignedFits(n: int, p: int)
    requires p > 0
    ensures (if 2 * (n % p) >= p then n % p - p else n % p) == n <==> -p <= 2 * n < p
  {
    if 0 <= 2 * n < p {
      DivModUnique(n, p, 0, n);
    } else if -p <= 2 * n < 0 {
      DivModUnique(n, p, -1, n + p);
    }
  }

  /** A signed number read back, by a getter that returns it signed or not. */
  lemma IntOfEncode(args: seq<Argument>, i: nat, v: AbiValue)
    requires v.Int? && v.Valid() && Fits(args) && i < |args| && args[i] == v.Argument()
    ensures Pow(256, GoBytes(v.bits)) > 0
    ensures GetInt(Encode(args), i, v.bits)
         == Some(if v.bits in {8, 32, 64} then v.n else v.n % Pow(256, GoBytes(v.bits)))
  {
    hide Encode, Fits, GetNumber, Field, Pow;
    NumberOfEncode(args, i, v.n, GoBytes(v.bits));
    SignedFits(v.n, Pow(256, GoBytes(v.bits)));
  }

  lemma IntReads(args: seq<Argument>, i: nat, v: AbiValue)
    requires v.Int? && v.Valid() && Fits(args) && i < |args| && args[i] == v.Argument()
    ensures ReadAs(Encode(args), i, v.Kind()) == Some(v) <==> v.Survives()
  {
    hide Encode, Fits, GetInt, Field, Pow;
    IntOfEncode(args, i, v);
    ModFits(v.n, Pow(256, GoBytes(v.bits)));
  }

  /** Minus one added as an `int16` comes back as 65535. */
  lemma MinusOneReadsUnsigned()
    ensures var args := [Int(-1, 16).Argument()];
            Fits(args) && GetInt(Encode(args), 0, 16) == Some(65535)
  {
    hide Encode, Heads, Field, GetInt;
    var v := Int(-1, 16);
    var args := [v.Argument()];
    assert Pow(256, 2) == 256 * Pow(256, 1) && Pow(256, 1) == 256;
    OneWord(v.Argument());
    IntOfEncode(args, 0, v);
  }

  lemma OneWord(arg: Argument)
    requires !arg.dynamic
    ensures |Encode([arg])| == 32
  {
    hide Heads;
    assert Tails([arg], 1) == Tails([arg], 0) + [];
  }

  lemma BoolReads(args: seq<Argument>, i: nat, v: AbiValue)
    requires v.Bool? && Fits(args) && i < |args| && args[i] == v.Argument()
    ensures ReadAs(Encode(args), i, v.Kind()) == Some(v)
  {
    hide Encode, Fits, Offset, Field, Pow;
    var n := if v.b then 1 else 0;
    WordOfEncode(args, i, 28);
    NumberHead(n, 1, Offset(args, i));
    BitOfWord(n);
  }

  lemma BitOfWord(n: int)
    requires 0 <= n < 256
    ensures Read(NumberValue(n, 1)[28..]) == n
  {
    assert NumberValue(n, 1)[28..] == Zeros(3) + Field(n, 1);
    ReadZeros(3, Field(n, 1));
    ReadField(n, 1);
    assert Pow(256, 1) == 256;
  }

  lemma FixedReads(args: seq<Argument>, i: nat, v: AbiValue)
    requires v.Fixed? && v.Valid() && Fits(args) && i < |args| && args[i] == v.Argument()
    ensures ReadAs(Encode(args), i, v.Kind()) == Some(v) <==> v.Survives()
  {
    hide Encode, Fits, Offset, Field, Read;
    WordOfEncode(args, i, v.prefix);
    var w := StaticWord(Zeros(v.prefix) + v.bytes);
    if |v.bytes| + v.prefix == 32 {
      assert w == Zeros(v.prefix) + v.bytes;
      assert w[v.prefix..] == v.bytes;
    } else {
      assert |w[v.prefix..]| != |v.bytes|;
    }
  }

  lemma BytesReads(args: seq<Argument>, i: nat, v: AbiValue)
    requires v.Bytes? && Fits(args) && i < |args| && args[i] == v.Argument()
    ensures ReadAs(Encode(args), i, v.Kind()) == Some(v)
  {
    hide Encode, Fits, BytesValue, GetBytes;
    BytesOfEncode(args, i, v.payload);
  }

  lemma BodyFits(args: seq<Argument>, i: nat, items: seq<seq<byte>>)
    requires Fits(args) && i < |args| && args[i].value == BytesArrayValue(items)
    requires Offset(args, i) + |args[i].value| <= |Encode(args)|
    ensures Fits(BytesArguments(items)) && |items| <= |Encode(BytesArguments(items))|
  {
  }

  lemma BytesArrayOfEncode(args: seq<Argument>, i: nat, items: seq<seq<byte>>)
    requires Fits(args) && i < |args| && args[i] == Argument(BytesArrayValue(items), true)
    ensures GetBytesArray(Encode(args), i) == Some(items)
  {
    hide Encode, Fits, BytesArguments, GetNumber, Word, Offset;
    var body := Encode(BytesArguments(items));
    OffsetOfEncode(args, i);
    BodyFits(args, i, items);
    ArrayOfEncode(args, i, |items|, body);
    var elements := ArrayAt(Encode(args), i).value[32..];
    var more := elements[|body|..];
    assert elements == body + more;
    BytesElementsOfEncode(items, more, |items|);
    TakeAll(items);
  }

  lemma BytesArrayReads(args: seq<Argument>, i: nat, v: AbiValue)
    requires v.BytesList? && Fits(args) && i < |args| && args[i] == v.Argument()
    ensures ReadAs(Encode(args), i, v.Kind()) == Some(v)
  {
    hide Encode, Fits, BytesArrayValue, GetBytesArray, ReadAs;
    BytesArrayOfEncode(args, i, v.items);
    ReadAsBytesArray(Encode(args), i, v.items);
  }

  lemma ReadAsBytesArray(data: seq<byte>, i: nat, items: seq<seq<byte>>)
    requires GetBytesArray(data, i) == Some(items)
    ensures ReadAs(data, i, KBytesArray) == Some(BytesList(items))
  {
  }

  lemma ReducedFits(numbers: seq<int>, width: nat)
    ensures Reduced(numbers, width) == numbers <==> forall k :: 0 <= k < |numbers| ==> 0 <= numbers[k] < Pow(256, width)
  {
    PowPositive(256, width);
    forall k | 0 <= k < |numbers|
      ensures Reduced(numbers, width)[k] == numbers[k] <==> 0 <= numbers[k] < Pow(256, width) {
      ModFits(numbers[k], Pow(256, width));
    }
  }

  lemma NumberArrayOfEncode(args: seq<Argument>, i: nat, numbers: seq<int>, width: nat)
    requires Fits(args) && i < |args| && width <= 32 && args[i] == Argument(NumberArrayValue(numbers, width), true)
    ensures GetNumberArray(Encode(args), i, width) == Some(Reduced(numbers, width))
  {
    var words := NumberWords(numbers, width);
    OffsetOfEncode(args, i);
    assert |numbers| <= |words|;
    ArrayOfEncode(args, i, |numbers|, words);
    NumberElementsOfWords(numbers, width, ArrayAt(Encode(args), i).value[32..], |numbers|);
    TakeAll(Reduced(numbers, width));
  }

  lemma ReadAsNumberArray(data: seq<byte>, i: nat, numbers: seq<int>, width: nat)
    requires width <= 32 && GetNumberArray(data, i, width) == Some(numbers)
    ensures ReadAs(data, i, KNumberArray(width)) == Some(NumberArray(numbers, width))
  {
  }

  lemma NumberArrayReads(args: seq<Argument>, i: nat, v: AbiValue)
    requires v.NumberArray? && v.Valid() && Fits(args) && i < |args| && args[i] == v.Argument()
    ensures ReadAs(Encode(args), i, v.Kind()) == Some(v) <==> v.Survives()
  {
    NumberArrayOfEncode(args, i, v.numbers, v.width);
    ReadAsNumberArray(Encode(args), i, Reduced(v.numbers, v.width), v.width);
    ReducedFits(v.numbers, v.width);
  }

  /** Whatever the other arguments, the getter for an argument's type gives back the value added
      exactly when the value survives that getter. */
  lemma ReadsBack(args: seq<Argument>, i: nat, v: AbiValue)
    requires v.Valid() && Fits(args) && i < |args| && args[i] == v.Argument()
    ensures ReadAs(Encode(args), i, v.Kind()) == Some(v) <==> v.Survives()
  {
    match v
    case Int(_, _) => IntReads(args, i, v);
    case Uint(_, _) => UintReads(args, i, v);
    case Bool(_) => BoolReads(args, i, v);
    case Fixed(_, _) => FixedReads(args, i, v);
    case Bytes(_) => BytesReads(args, i, v);
    case BytesList(_) => BytesArrayReads(args, i, v);
    case NumberArray(_, _) => NumberArrayReads(args, i, v);
  }

  /** Added at position `i`, a value can be read back through its getter, just when it survives it,
      whatever is added behind. */
  ghost predicate ReadableAt(arguments: seq<Argument>, i: nat, v: AbiValue)
    requires v.Valid()
  {
    forall more: seq<Argument> :: Fits(arguments + more) ==>
                                    (ReadAs(Encode(arguments + more), i, v.Kind()) == Some(v) <==> v.Survives())
  }

  lemma AddedIsReadable(arguments: seq<Argument>, v: AbiValue)
    requires v.Valid()
    ensures ReadableAt(arguments + [v.Argument()], |arguments|, v)
  {
    var added := arguments + [v.Argument()];
    hide Fits, Encode, ReadAs;
    forall more: seq<Argument> | Fits(added + more)
      ensures ReadAs(Encode(added + more), |arguments|, v.Kind()) == Some(v) <==> v.Survives()
    {
      assert (added + more)[|arguments|] == v.Argument();
      ReadsBack(added + more, |arguments|, v);
    }
  }

  /** A value an adder can be given, bytes and elements of its type's width. */
  predicate Exact(v: AbiValue)
  {
    v.Valid() && (v.Int? || v.Survives())
  }

  predicate AllExact(values: seq<AbiValue>)
  {
    forall i :: 0 <= i < |values| ==> Exact(values[i])
  }

  function Arguments(values: seq<AbiValue>): (r: seq<Argument>)
    requires AllExact(values)
    ensures |r| == |values| && forall i :: 0 <= i < |r| ==> r[i] == values[i].Argument()
  {
    seq(|values|, i requires 0 <= i < |values| => values[i].Argument())
  }

  lemma SameAt(args: seq<Argument>, args': seq<Argument>, i: nat, v: AbiValue, w: AbiValue)
    requires Fits(args) && Fits(args') && Encode(args) == Encode(args') && i < |args| && i < |args'|
    requires Exact(v) && Exact(w) && args[i] == v.Argument() && args'[i] == w.Argument() && v.Kind() == w.Kind()
    ensures v == w
  {
    hide Fits, Encode, ReadAs, GetInt, Pow;
    if v.Int? {
      IntOfEncode(args, i, v);
      IntOfEncode(args', i, w);
      SameResidue(v.n, w.n, Pow(256, GoBytes(v.bits)));
    } else {
      ReadsBack(args, i, v);
      ReadsBack(args', i, w);
    }
  }

  /** Given the types, the encoding determines the values, negative numbers included: what an
      unsigned getter loses is in the bytes. */
  lemma EncodingInjective(a: seq<AbiValue>, b: seq<AbiValue>)
    requires AllExact(a) && AllExact(b) && |a| == |b|
    requires forall i :: 0 <= i < |a| ==> a[i].Kind() == b[i].Kind()
    requires Fits(Arguments(a)) && Encode(Arguments(a)) == Encode(Arguments(b))
    ensures a == b
  {
    assert Fits(Arguments(b));
    hide Fits, Encode, Arguments;
    forall i | 0 <= i < |a| ensures a[i] == b[i] {
      SameAt(Arguments(a), Arguments(b), i, a[i], b[i]);
    }
  }

  lemma SameResidue(m: int, n: int, p: int)
    requires p > 0 && -p <= 2 * m < p && -p <= 2 * n < p
    ensures m % p == n % p <==> m == n
  {
    SignedFits(m, p);
    SignedFits(n, p);
  }

  // ---------------------------------------------------------------- where the code departs from the standard

  /** The standard's encoding of a signed number: its two's complement in a whole word. */
  function SignedWord(n: int): seq<byte>
  {
    Field(n, WORD)
  }

  lemma {:induction false} FieldWiden(n: nat, width: nat, more: nat)
    requires n < Pow(256, width)
    ensures Field(n, more + width) == Zeros(more) + Field(n, width)
    decreases width
  {
    if width == 0 {
      FieldOfZero(more);
    } else {
      ModSplit(n, 256, Pow(256, width - 1));
      DivModUnique(n, Pow(256, width), 0, n);
      QuotientBound(n, Pow(256, width - 1));
      FieldWiden(n / 256, width - 1, more);
    }
  }

  lemma QuotientBound(n: nat, p: nat)
    requires n < 256 * p
    ensures n / 256 < p
  {
  }

  lemma {:induction false} FieldOfZero(width: nat)
    ensures Field(0, width) == Zeros(width)
  {
    if width > 0 {
      FieldOfZero(width - 1);
    }
  }

  /** A word with a number's low bytes behind zeros meets the standard exactly when the number is
      not negative: the sign is not extended over the word. */
  lemma SignExtension(n: int, width: nat)
    requires 1 <= width < WORD && -Pow(256, width) <= 2 * n < Pow(256, width)
    ensures NumberValue(n, width) == SignedWord(n) <==> n >= 0
  {
    if n >= 0 {
      FieldWiden(n, width, WORD - width);
    } else {
      PowMonotone(256, width, WORD - 1);
      FieldTop(n);
    }
  }

  /** So do the adders for signed types: those given a number, and those for 72 to 248 bits given
      its bytes. Those for 256 bits are given the standard's word itself. */
  lemma SignedAdders(v: AbiValue, n: int)
    requires v.Valid()
    requires || (v.Int? && v.n == n)
             || (v.Fixed? && 1 <= v.prefix <= 23 && v.bytes == Field(n, WORD - v.prefix)
                 && -Pow(256, WORD - v.prefix) <= 2 * n < Pow(256, WORD - v.prefix))
    ensures v.Argument().value == SignedWord(n) <==> n >= 0
  {
    if v.Int? {
      SignExtension(n, GoBytes(v.bits));
    } else {
      SignExtension(n, WORD - v.prefix);
    }
  }

  lemma {:induction false} PowMonotone(b: int, d: nat, e: nat)
    requires b > 1 && d <= e
    ensures 0 < Pow(b, d) <= Pow(b, e)
  {
    PowPositive(b, d);
    if d < e {
      PowMonotone(b, d, e - 1);
      assert b * Pow(b, e - 1) >= Pow(b, e - 1);
    }
  }

  /** A negative number's word does not start with a zero byte. */
  lemma FieldTop(n: int)
    requires -Pow(256, WORD - 1) <= n < 0
    ensures Field(n, WORD)[0] != 0
  {
    DigitAt(n, 256, WORD, 0);
    QuotientOfNegative(n, Pow(256, WORD - 1));
  }

  const WORD: nat := 32

  lemma QuotientOfNegative(n: int, p: int)
    requires p > 0 && -p <= n < 0
    ensures n / p == -1
  {
    DivModUnique(n, p, -1, n + p);
  }
}

/** Reading a call result by index, and what it gives back of an encoded argument list. A slice
    out of bounds is an absent value. */
module AbiResults {
  import opened Wrappers
  import opened Numerals
  import opened Sequences
  import opened BigEndian
  import opened AbiEncoding

  // ---------------------------------------------------------------- the getters

  /** Unsigned 64-bit arithmetic. */
  function U64(n: int): (r: int)
    ensures 0 <= r < TWO_64
  {
    n % TWO_64
  }

  function Slice(data: seq<byte>, lo: int, hi: int): (r: Option<seq<byte>>)
    ensures r.Some? ==> |r.value| == hi - lo
  {
    if 0 <= lo <= hi <= |data| then Some(data[lo..hi]) else None
  }

  /** The word of argument `index` from byte `from` on. */
  function WordPart(data: seq<byte>, index: nat, from: nat): Option<seq<byte>>
  {
    Slice(data, U64(index * 32 + from), U64((index + 1) * 32))
  }

  function GetNumber(data: seq<byte>, index: nat, width: nat): Option<nat>
    requires width <= 32
  {
    match WordPart(data, index, 32 - width)
    case Some(w) => Some(Read(w))
    case None => None
  }

  /** The two's complement reading of a `width`-byte number. */
  function AsSigned(n: int, width: nat): int
  {
    if 2 * n >= Pow(256, width) then n - Pow(256, width) else n
  }

  function GetSigned(data: seq<byte>, index: nat, width: nat): Option<int>
    requires width <= 32
  {
    match GetNumber(data, index, width)
    case Some(n) => Some(AsSigned(n, width))
    case None => None
  }

  /** Bytes of the Go integer that carries a number of so many bits. */
  function GoBytes(bits: nat): (w: nat)
    ensures 1 <= w <= 8
  {
    if bits <= 8 then 1 else if bits <= 16 then 2 else if bits <= 32 then 4 else 8
  }

  /** Of the getters for signed types only `GetInt8`, `GetInt32` and `GetInt64` return a signed
      number; `GetInt16`, `GetInt24`, `GetInt40`, `GetInt48` and `GetInt56` do not. */
  predicate ReadSigned(bits: nat)
  {
    bits in {8, 32, 64}
  }

  function GetInt(data: seq<byte>, index: nat, bits: nat): Option<int>
  {
    if ReadSigned(bits) then GetSigned(data, index, GoBytes(bits)) else GetNumber(data, index, GoBytes(bits))
  }

  function GetUint(data: seq<byte>, index: nat, bits: nat): Option<int>
  {
    GetNumber(data, index, GoBytes(bits))
  }

  function GetBool(data: seq<byte>, index: nat): Option<bool>
  {
    match GetNumber(data, index, 4)
    case Some(n) => Some(n == 1)
    case None => None
  }

  /** Follows the offset in the argument's word to a length and the bytes behind it. */
  function GetBytes(data: seq<byte>, index: nat): Option<seq<byte>>
  {
    match GetNumber(data, index, 8)
    case None => None
    case Some(offset) =>
      match Slice(data, U64(offset + 24), U64(offset + 32))
      case None => None
      case Some(len) => Slice(data, U64(offset + 32), U64(offset + 32 + Read(len)))
  }

  // ---------------------------------------------------------------- following an array

  /** The bytes an array argument starts at: its count word and everything behind. */
  function ArrayAt(data: seq<byte>, index: nat): (r: Option<seq<byte>>)
    ensures r.Some? ==> |r.value| >= 32
  {
    match GetNumber(data, index, 8)
    case None => None
    case Some(offset) => if offset + 32 <= |data| then Some(data[offset..]) else None
  }

  /** The first `k` byte strings of an array, offsets counted from just after its count. */
  function BytesElements(elements: seq<byte>, k: nat): Option<seq<seq<byte>>>
  {
    if k == 0 then Some([])
    else
      match (BytesElements(elements, k - 1), GetBytes(elements, k - 1))
      case (Some(init), Some(last)) => Some(init + [last])
      case _ => None
  }

  function NumberElements(elements: seq<byte>, k: nat, width: nat): Option<seq<int>>
    requires width <= 32
  {
    if k == 0 then Some([])
    else
      match (NumberElements(elements, k - 1, width), GetNumber(elements, k - 1, width))
      case (Some(init), Some(last)) => Some(init + [last])
      case _ => None
  }

  function GetBytesArray(data: seq<byte>, index: nat): Option<seq<seq<byte>>>
  {
    match ArrayAt(data, index)
    case Some(a) => BytesElements(a[32..], Read(a[..32]))
    case None => None
  }

  function GetNumberArray(data: seq<byte>, index: nat, width: nat): Option<seq<int>>
    requires width <= 32
  {
    match ArrayAt(data, index)
    case Some(a) => NumberElements(a[32..], Read(a[..32]), width)
    case None => None
  }

  // ---------------------------------------------------------------- values and their kinds

  predicate IntBits(bits: nat)
  {
    bits in {8, 16, 24, 32, 40, 48, 56, 64}
  }

  /** The getters, by the type they are for. A fixed value is read from byte `prefix` of its word on:
      wide integers, addresses and whole words. */
  datatype Kind =
    | KInt(bits: nat)
    | KUint(bits: nat)
    | KBool
    | KFixed(prefix: nat)
    | KBytes
    | KBytesArray
    | KNumberArray(width: nat)

  datatype AbiValue =
    | Int(n: int, bits: nat)
    | Uint(n: int, bits: nat)
    | Bool(b: bool)
    | Fixed(bytes: seq<byte>, prefix: nat)
    | Bytes(payload: seq<byte>)
    | BytesList(items: seq<seq<byte>>)
    | NumberArray(numbers: seq<int>, width: nat)
  {
    /** What an adder can be given: its parameter is a Go integer of the width, or bytes. */
    predicate Valid() {
      match this
      case Int(n, bits) => IntBits(bits) && -Pow(256, GoBytes(bits)) <= 2 * n < Pow(256, GoBytes(bits))
      case Uint(n, bits) => IntBits(bits) && 0 <= n < Pow(256, GoBytes(bits))
      case Fixed(_, p) => p <= 32
      case NumberArray(_, w) => w <= 32
      case _ => true
    }

    function Kind(): Kind {
      match this
      case Int(_, bits) => KInt(bits)
      case Uint(_, bits) => KUint(bits)
      case Bool(_) => KBool
      case Fixed(_, p) => KFixed(p)
      case Bytes(_) => KBytes
      case BytesList(_) => KBytesArray
      case NumberArray(_, w) => KNumberArray(w)
    }

    /** The argument the adder for this value appends. */
    function Argument(): Argument
      requires Valid()
    {
      match this
      case Int(n, bits) => AbiEncoding.Argument(NumberValue(n, GoBytes(bits)), false)
      case Uint(n, bits) => AbiEncoding.Argument(NumberValue(n, GoBytes(bits)), false)
      case Bool(b) => AbiEncoding.Argument(NumberValue(if b then 1 else 0, 1), false)
      case Fixed(bytes, p) => AbiEncoding.Argument(Zeros(p) + bytes, false)
      case Bytes(payload) => AbiEncoding.Argument(BytesValue(payload), true)
      case BytesList(items) => AbiEncoding.Argument(BytesArrayValue(items), true)
      case NumberArray(numbers, w) => AbiEncoding.Argument(NumberArrayValue(numbers, w), true)
    }

    /** Whether the matching getter gives the value back: not a negative number through an
        unsigned getter, nor bytes of another than the type's width. */
    predicate Survives() {
      match this
      case Int(n, bits) => ReadSigned(bits) || n >= 0
      case Fixed(bytes, p) => |bytes| + p == 32
      case NumberArray(numbers, w) => forall k :: 0 <= k < |numbers| ==> 0 <= numbers[k] < Pow(256, w)
      case _ => true
    }
  }

  predicate ValidKind(kind: Kind)
  {
    match kind
    case KFixed(p) => p <= 32
    case KNumberArray(w) => w <= 32
    case _ => true
  }

  /** The getter for a kind, knowing nothing of the value added. */
  function ReadAs(data: seq<byte>, index: nat, kind: Kind): Option<AbiValue>
    requires ValidKind(kind)
  {
    match kind
    case KInt(bits) => (match GetInt(data, index, bits) case Some(n) => Some(Int(n, bits)) case None => None)
    case KUint(bits) => (match GetUint(data, index, bits) case Some(n) => Some(Uint(n, bits)) case None => None)
    case KBool => (match GetBool(data, index) case Some(b) => Some(Bool(b)) case None => None)
    case KFixed(p) => (match WordPart(data, index, p) case Some(bytes) => Some(Fixed(bytes, p)) case None => None)
    case KBytes => (match GetBytes(data, index) case Some(payload) => Some(Bytes(payload)) case None => None)
    case KBytesArray => (match GetBytesArray(data, index) case Some(items) => Some(BytesList(items)) case None => None)
    case KNumberArray(w) =>
      (match GetNumberArray(data, index, w) case Some(numbers) => Some(NumberArray(numbers, w)) case None => None)
  }
}

/** What an encoded call looks like: the head of every argument, then the tails of the dynamic
    ones, as in sections "Formal Specification of the Encoding" and "Use of Dynamic Types" of
    the Solidity Contract ABI Specification. */
module AbiEncoding {
  import opened Wrappers
  import opened Numerals
  import opened Sequences
  import opened BigEndian

  datatype Argument = Argument(value: seq<byte>, dynamic: bool)

  function Zeros(n: nat): (r: seq<byte>)
    ensures |r| == n && forall i :: 0 <= i < n ==> r[i] == 0
  {
    seq(n, _ => 0)
  }

  /** A 64-bit number in the last eight bytes of a word. */
  function Word(n: int): (r: seq<byte>)
    ensures |r| == 32
  {
    Zeros(24) + Field(n, 8)
  }

  /** What `copy` leaves in a zeroed word: longer values are cut, shorter ones padded. */
  function StaticWord(value: seq<byte>): (r: seq<byte>)
    ensures |r| == 32
  {
    if |value| >= 32 then value[..32] else value + Zeros(32 - |value|)
  }

  function Head(arg: Argument, offset: int): (r: seq<byte>)
    ensures |r| == 32
  {
    if arg.dynamic then Word(offset) else StaticWord(arg.value)
  }

  function Tail(arg: Argument): seq<byte>
  {
    if arg.dynamic then arg.value else []
  }

  /** Tails of the first `i` arguments. */
  function Tails(args: seq<Argument>, i: nat): seq<byte>
    requires i <= |args|
  {
    if i == 0 then [] else Tails(args, i - 1) + Tail(args[i - 1])
  }

  /** Where the tail of argument `i` starts. */
  function Offset(args: seq<Argument>, i: nat): nat
    requires i <= |args|
  {
    32 * |args| + |Tails(args, i)|
  }

  /** Heads of the first `i` arguments. */
  function Heads(args: seq<Argument>, i: nat): (r: seq<byte>)
    requires i <= |args|
    ensures |r| == 32 * i
  {
    if i == 0 then [] else Heads(args, i - 1) + Head(args[i - 1], Offset(args, i - 1))
  }

  function Encode(args: seq<Argument>): seq<byte>
  {
    Heads(args, |args|) + Tails(args, |args|)
  }

  /** Go's slices are indexed by `int`. */
  predicate Fits(args: seq<Argument>)
  {
    |Encode(args)| < TWO_63
  }

  lemma {:induction false} HeadsPrefix(args: seq<Argument>, i: nat, j: nat)
    requires i <= j <= |args|
    ensures Heads(args, i) <= Heads(args, j)
    ensures Tails(args, i) <= Tails(args, j)
    decreases j
  {
    hide Heads, Tails;
    if i < j {
      HeadsPrefix(args, i, j - 1);
      HeadsGrow(args, j);
    }
  }

  lemma HeadsGrow(args: seq<Argument>, j: nat)
    requires 0 < j <= |args|
    ensures Heads(args, j - 1) <= Heads(args, j) && Tails(args, j - 1) <= Tails(args, j)
  {
  }

  /** The head of argument `i` is at its place, and points past all earlier tails. */
  lemma HeadAt(args: seq<Argument>, i: nat)
    requires i < |args|
    ensures 32 * i + 32 <= |Encode(args)|
    ensures Encode(args)[32 * i..32 * i + 32] == Head(args[i], Offset(args, i))
  {
    HeadsPrefix(args, i + 1, |args|);
    SliceOfPrefix(Heads(args, i), Head(args[i], Offset(args, i)), Heads(args, |args|), Tails(args, |args|));
  }

  lemma SliceOfPrefix(a: seq<byte>, w: seq<byte>, s: seq<byte>, t: seq<byte>)
    requires a + w <= s
    ensures (s + t)[|a|..|a| + |w|] == w
  {
    assert (s + t)[..|a| + |w|] == a + w;
  }

  /** The tail of a dynamic argument is where its head says. */
  lemma TailAt(args: seq<Argument>, i: nat)
    requires i < |args| && args[i].dynamic
    ensures Offset(args, i) + |args[i].value| <= |Encode(args)|
    ensures Encode(args)[Offset(args, i)..Offset(args, i) + |args[i].value|] == args[i].value
  {
    HeadsPrefix(args, i + 1, |args|);
    SlicePast(Heads(args, |args|), Tails(args, |args|), Tails(args, i), args[i].value);
  }

  lemma SlicePast(heads: seq<byte>, tails: seq<byte>, a: seq<byte>, w: seq<byte>)
    requires a + w <= tails
    ensures |heads| + |a| + |w| <= |heads + tails|
    ensures (heads + tails)[|heads| + |a|..|heads| + |a| + |w|] == w
  {
    assert (heads + tails)[|heads|..] == tails;
    assert tails[|a|..|a| + |w|] == w;
  }

  // ---------------------------------------------------------------- argument values

  /** A length, the bytes, and zeros to the next word boundary: a whole extra word when the
      length is already a multiple of 32. */
  function BytesValue(payload: seq<byte>): (r: seq<byte>)
    ensures |r| == 64 + |payload| / 32 * 32
  {
    Word(|payload|) + payload + Zeros(32 - |payload| % 32)
  }

  function BytesArguments(values: seq<seq<byte>>): (r: seq<Argument>)
    ensures |r| == |values|
    ensures forall i :: 0 <= i < |r| ==> r[i] == Argument(BytesValue(values[i]), true)
  {
    seq(|values|, i requires 0 <= i < |values| => Argument(BytesValue(values[i]), true))
  }

  /** A dynamic array of byte strings: its count, then its elements encoded like arguments,
      with offsets counted from just after the count. */
  function BytesArrayValue(values: seq<seq<byte>>): seq<byte>
  {
    Word(|values|) + Encode(BytesArguments(values))
  }

  /** A number in the last `width` bytes of a zeroed word. */
  function NumberValue(n: int, width: nat): (r: seq<byte>)
    requires width <= 32
    ensures |r| == 32
  {
    Zeros(32 - width) + Field(n, width)
  }

  function NumberWords(values: seq<int>, width: nat): (r: seq<byte>)
    requires width <= 32
    ensures |r| == 32 * |values|
  {
    if values == [] then [] else NumberWords(values[..|values| - 1], width) + NumberValue(values[|values| - 1], width)
  }

  function NumberArrayValue(values: seq<int>, width: nat): seq<byte>
    requires width <= 32
  {
    Word(|values|) + NumberWords(values, width)
  }

  // ---------------------------------------------------------------- buffers being filled

  /** A buffer part way through: what is settled, zeros for the heads to come, the tails so
      far, and zeros for the tails to come. */
  function Buffer(settled: seq<byte>, heads: nat, tails: seq<byte>, rest: nat): seq<byte>
  {
    settled + Zeros(heads) + tails + Zeros(rest)
  }

  /** Writing `w` at `skip` bytes into the next head. */
  lemma WriteHead(settled: seq<byte>, heads: nat, tails: seq<byte>, rest: nat, skip: nat, w: seq<byte>)
    requires heads >= 32 && skip + |w| <= 32
    ensures Overwrite(Buffer(settled, heads, tails, rest), |settled| + skip, w)
         == Buffer(settled + (Zeros(skip) + w + Zeros(32 - skip - |w|)), heads - 32, tails, rest)
  {
  }

  /** Writing `w` behind the tails so far. */
  lemma WriteTail(settled: seq<byte>, heads: nat, tails: seq<byte>, rest: nat, w: seq<byte>)
    requires |w| <= rest
    ensures Overwrite(Buffer(settled, heads, tails, rest), |settled| + heads + |tails|, w)
         == Buffer(settled, heads, tails + w, rest - |w|)
  {
  }
}

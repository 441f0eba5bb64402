/** Fixed-width big-endian fields, and their hexadecimal text. */
module BigEndian {
  import opened Wrappers
  import opened Numerals
  import opened Sequences

  /** The `width` low bytes of `n`. */
  function Field(n: int, width: nat): (r: seq<byte>)
    ensures |r| == width
  {
    Digits(n, 256, width)
  }

  function Read(bytes: seq<byte>): nat
  {
    ValueBound(bytes, 256);
    Value(bytes, 256)
  }

  /** Reading back a written field gives the number reduced to the field's width. */
  lemma ReadField(n: int, width: nat)
    ensures Pow(256, width) > 0 && Read(Field(n, width)) == n % Pow(256, width)
  {
    ValueOfDigits(n, 256, width);
  }

  lemma FieldRead(bytes: seq<byte>)
    ensures Field(Read(bytes), |bytes|) == bytes
  {
    DigitsOfValue(bytes, 256);
  }

  lemma Widths()
    ensures Pow(256, 4) == TWO_32 && Pow(256, 8) == TWO_64
  {
  }

  lemma ReadField64(n: int)
    ensures Read(Field(n, 8)) == n % TWO_64
  {
    Widths();
    ReadField(n, 8);
  }

  lemma ReadField32(n: int)
    ensures Read(Field(n, 4)) == n % TWO_32
  {
    Widths();
    ReadField(n, 4);
  }

  lemma ReadBound(bytes: seq<byte>)
    ensures 0 <= Read(bytes) < Pow(256, |bytes|)
  {
    ValueBound(bytes, 256);
  }

  function Overwrite(buf: seq<byte>, at: nat, w: seq<byte>): (r: seq<byte>)
    requires at + |w| <= |buf|
    ensures |r| == |buf|
  {
    buf[..at] + w + buf[at + |w|..]
  }

  /** Go's `copy(buf[at:], bytes)` for a source that fits. */
  method Write(buf: array<byte>, at: nat, bytes: seq<byte>)
    requires at + |bytes| <= buf.Length
    modifies buf
    ensures buf[..] == Overwrite(old(buf[..]), at, bytes)
  {
    var i := 0;
    while i < |bytes|
      invariant 0 <= i <= |bytes|
      invariant buf[..at] == old(buf[..at])
      invariant buf[at..at + i] == bytes[..i]
      invariant buf[at + i..] == old(buf[at + i..])
    {
      buf[at + i] := bytes[i];
      i := i + 1;
    }
  }

  // ---------------------------------------------------------------- hexadecimal

  function HexChar(d: int): (c: char)
    requires 0 <= d < 16
    ensures HexDigit(c) == Some(d)
  {
    if d < 10 then ('0' as int + d) as char else ('a' as int + (d - 10)) as char
  }

  /** Both letter cases are read. */
  function HexDigit(c: char): (r: Option<int>)
    ensures r.Some? ==> 0 <= r.value < 16
  {
    if '0' <= c <= '9' then Some(c as int - '0' as int)
    else if 'a' <= c <= 'f' then Some(c as int - 'a' as int + 10)
    else if 'A' <= c <= 'F' then Some(c as int - 'A' as int + 10)
    else None
  }

  function HexEncode(bytes: seq<byte>): (s: string)
    ensures |s| == 2 * |bytes|
  {
    if bytes == [] then ""
    else
      var last := bytes[|bytes| - 1];
      HexEncode(bytes[..|bytes| - 1]) + [HexChar(last / 16), HexChar(last % 16)]
  }

  /** An odd length or a character that is no digit is an error. */
  function HexDecode(s: string): (r: Option<seq<byte>>)
    ensures r.Some? ==> 2 * |r.value| == |s|
  {
    if s == "" then Some([])
    else if |s| == 1 then None
    else
      var n := |s| - 2;
      match (HexDecode(s[..n]), HexDigit(s[n]), HexDigit(s[n + 1]))
      case (Some(init), Some(high), Some(low)) => Some(init + [high * 16 + low])
      case _ => None
  }

  function LowerHex(s: string): (r: string)
    ensures |r| == |s|
  {
    seq(|s|, i requires 0 <= i < |s| => match HexDigit(s[i]) case Some(d) => HexChar(d) case None => s[i])
  }

  lemma HexEncodeStep(bytes: seq<byte>)
    requires bytes != []
    ensures var n := |bytes| - 1;
            HexEncode(bytes) == HexEncode(bytes[..n]) + [HexChar(bytes[n] / 16), HexChar(bytes[n] % 16)]
  {
    hide HexChar;
  }

  lemma HexDecodeStep(s: string)
    requires |s| >= 2 && HexDecode(s[..|s| - 2]).Some? && HexDigit(s[|s| - 2]).Some? && HexDigit(s[|s| - 1]).Some?
    ensures var n := |s| - 2;
            HexDecode(s) == Some(HexDecode(s[..n]).value + [HexDigit(s[n]).value * 16 + HexDigit(s[n + 1]).value])
  {
    hide HexDigit;
  }

  lemma HexEncodeAppend(init: seq<byte>, high: int, low: int)
    requires 0 <= high < 16 && 0 <= low < 16
    ensures HexEncode(init + [high * 16 + low]) == HexEncode(init) + [HexChar(high), HexChar(low)]
  {
    hide HexChar, HexEncode;
    assert (init + [high * 16 + low])[..|init|] == init;
    HexEncodeStep(init + [high * 16 + low]);
  }

  lemma HexDecodeAppend(init: string, a: char, b: char, high: int, low: int)
    requires HexDecode(init).Some? && HexDigit(a) == Some(high) && HexDigit(b) == Some(low)
    ensures 0 <= high * 16 + low < 256
    ensures HexDecode(init + [a, b]) == Some(HexDecode(init).value + [high * 16 + low])
  {
    hide HexDigit, HexDecode;
    assert (init + [a, b])[..|init|] == init;
    HexDecodeStep(init + [a, b]);
  }

  lemma DecodePair(init: seq<byte>, high: int, low: int, e: string, a: char, b: char)
    requires 0 <= high < 16 && 0 <= low < 16
    requires e == HexEncode(init) && HexDecode(e) == Some(init)
    requires HexDigit(a) == Some(high) && HexDigit(b) == Some(low)
    requires HexEncode(init + [high * 16 + low]) == e + [a, b]
    ensures HexDecode(HexEncode(init + [high * 16 + low])) == Some(init + [high * 16 + low])
  {
    HexDecodeAppend(e, a, b, high, low);
  }

  lemma DecodeEncodeAppend(init: seq<byte>, high: int, low: int)
    requires 0 <= high < 16 && 0 <= low < 16 && HexDecode(HexEncode(init)) == Some(init)
    ensures HexDecode(HexEncode(init + [high * 16 + low])) == Some(init + [high * 16 + low])
  {
    HexEncodeAppend(init, high, low);
    DecodePair(init, high, low, HexEncode(init), HexChar(high), HexChar(low));
  }

  lemma {:induction false} DecodeEncode(bytes: seq<byte>)
    ensures HexDecode(HexEncode(bytes)) == Some(bytes)
  {
    hide HexEncode, HexDecode;
    if bytes == [] {
      DecodeNothing();
    } else {
      var init, last := bytes[..|bytes| - 1], bytes[|bytes| - 1];
      DecodeEncode(init);
      DecodeEncodeAppend(init, last / 16, last % 16);
      assert bytes == init + [last / 16 * 16 + last % 16];
    }
  }

  lemma DecodeNothing()
    ensures HexDecode(HexEncode([])) == Some([])
  {
  }

  /** Encoding what was decoded only changes the letters to lower case. */
  lemma {:induction false} EncodeDecode(s: string)
    requires HexDecode(s).Some?
    ensures HexEncode(HexDecode(s).value) == LowerHex(s)
  {
    hide HexChar, HexEncode, LowerHex;
    EncodeNothing();
    if s != "" {
      var n := |s| - 2;
      EncodeDecode(s[..n]);
      var high, low := HexDigit(s[n]).value, HexDigit(s[n + 1]).value;
      HexEncodeAppend(HexDecode(s[..n]).value, high, low);
      LowerHexPair(s, n);
      calc {
        HexEncode(HexDecode(s).value);
        HexEncode(HexDecode(s[..n]).value + [high * 16 + low]);
        LowerHex(s[..n]) + [HexChar(high), HexChar(low)];
        LowerHex(s);
      }
    }
  }

  lemma EncodeNothing()
    ensures HexEncode([]) == "" == LowerHex("")
  {
  }

  lemma LowerHexPair(s: string, n: nat)
    requires n + 2 == |s| && HexDigit(s[n]).Some? && HexDigit(s[n + 1]).Some?
    ensures LowerHex(s) == LowerHex(s[..n]) + [HexChar(HexDigit(s[n]).value), HexChar(HexDigit(s[n + 1]).value)]
  {
  }
}

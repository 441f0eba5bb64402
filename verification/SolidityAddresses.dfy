/** Entity IDs packed into the 20 bytes of a Solidity address. */
module SolidityAddresses {
  import opened Wrappers
  import opened Numerals
  import opened BigEndian

  datatype AddressError = NotHex | WrongLength

  datatype Id = Id(shard: nat, realm: nat, num: nat)

  function Packed(id: Id): (r: seq<byte>)
    ensures |r| == 20
  {
    Field(id.shard, 4) + Field(id.realm, 8) + Field(id.num, 8)
  }

  /** The shard is cut to 32 bits. */
  method ToSolidityAddress(shard: nat, realm: nat, num: nat) returns (s: string)
    ensures s == HexEncode(Packed(Id(shard, realm, num)))
  {
    var bytes := new byte[20](_ => 0);
    Write(bytes, 0, Field(shard, 4));
    Write(bytes, 4, Field(realm, 8));
    Write(bytes, 12, Field(num, 8));
    assert bytes[..] == Packed(Id(shard, realm, num));
    s := HexEncode(bytes[..]);
  }

  function FromSolidityAddress(s: string): Result<Id, AddressError>
  {
    match HexDecode(s)
    case None => Err(NotHex)
    case Some(bytes) =>
      if |bytes| != 20 then Err(WrongLength)
      else
        ReadBound(bytes[0..4]);
        ReadBound(bytes[4..12]);
        ReadBound(bytes[12..20]);
        Ok(Id(Read(bytes[0..4]), Read(bytes[4..12]), Read(bytes[12..20])))
  }

  /** An address is forty hexadecimal digits; other lengths are reported only of whole bytes. */
  lemma ReadsExactly(s: string)
    ensures FromSolidityAddress(s).Ok? <==> HexDecode(s).Some? && |s| == 40
    ensures FromSolidityAddress(s) == Err(NotHex) <==> HexDecode(s).None?
  {
    hide HexDecode;
  }

  lemma FromPacked(s: string, id: Id)
    requires id.realm < TWO_64 && id.num < TWO_64
    requires HexDecode(s) == Some(Packed(id))
    ensures FromSolidityAddress(s) == Ok(id.(shard := id.shard % TWO_32))
  {
    hide Field, Read, Pow, HexDecode;
    var bytes := Packed(id);
    assert bytes[0..4] == Field(id.shard, 4) && bytes[4..12] == Field(id.realm, 8) && bytes[12..20] == Field(id.num, 8);
    ReadField32(id.shard);
    ReadField64(id.realm);
    ReadField64(id.num);
  }

  /** An ID comes back exactly when its shard fits 32 bits. */
  lemma AddressRoundTrip(id: Id)
    requires id.shard < TWO_64 && id.realm < TWO_64 && id.num < TWO_64
    ensures FromSolidityAddress(HexEncode(Packed(id))) == Ok(id) <==> id.shard < TWO_32
  {
    DecodeEncode(Packed(id));
    FromPacked(HexEncode(Packed(id)), id);
  }

  /** An address that parses prints as itself in lower case. */
  lemma PrintedAddress(s: string)
    requires FromSolidityAddress(s).Ok?
    ensures HexEncode(Packed(FromSolidityAddress(s).value)) == LowerHex(s)
  {
    var bytes := HexDecode(s).value;
    FieldRead(bytes[0..4]);
    FieldRead(bytes[4..12]);
    FieldRead(bytes[12..20]);
    assert bytes == bytes[0..4] + bytes[4..12] + bytes[12..20];
    EncodeDecode(s);
  }
}

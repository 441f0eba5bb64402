/** File 0.0.123 on the standard ledgers, the ID and checksums the SDK's unit tests use. */
module KnownIds {
  import opened Wrappers
  import opened Numerals
  import opened EntityIds
  import EntityChecksum
  import ChecksumLaws

  const FILE_123: FileID := FileID(0, 0, 123, None)

  lemma Printed()
    ensures FILE_123.ToString() == "0.0.123" && FILE_123.Small()
  {
    assert Decimal(12) == "12" && Decimal(123) == "123" && Decimal(0) == "0";
  }

  /** Taken apart with the testnet's ledger ID: right, missing and wrong checksums. */
  lemma AddressTakenApart()
    ensures FindMatch("0.0.123").Some? && FindMatch("0.0.123-esxsf").Some? && FindMatch("0.0.123-vfmkw").Some?
    ensures ChecksumParseAddress(TESTNET, "0.0.123-esxsf")
         == Ok(AddressResult(3, 0, 0, 123, "esxsf", "esxsf", "0.0.123", "0.0.123(esxsf)"))
    ensures ChecksumParseAddress(TESTNET, "0.0.123")
         == Ok(AddressResult(2, 0, 0, 123, "esxsf", "", "0.0.123", "0.0.123(esxsf)"))
    ensures ChecksumParseAddress(TESTNET, "0.0.123-vfmkw")
         == Ok(AddressResult(1, 0, 0, 123, "esxsf", "vfmkw", "0.0.123", "0.0.123(esxsf)"))
  {
    hide FindMatch, ChecksumParseAddress, EntityChecksum.Checksum, IsSuffix;
    ChecksumLaws.Account123();
    Suffixes();
    TakenApart("");
    TakenApart("-esxsf");
    TakenApart("-vfmkw");
  }

  lemma Suffixes()
    ensures "0.0.123" + "" == "0.0.123" && "0.0.123" + "-esxsf" == "0.0.123-esxsf"
    ensures "0.0.123" + "-vfmkw" == "0.0.123-vfmkw" && "0.0.123" + "(" + "esxsf" + ")" == "0.0.123(esxsf)"
    ensures "-esxsf"[1..] == "esxsf" && "-vfmkw"[1..] == "vfmkw"
    ensures IsSuffix("-esxsf") && IsSuffix("-vfmkw")
  {
  }

  lemma TakenApart(suffix: string)
    requires suffix == "" || IsSuffix(suffix)
    ensures FindMatch("0.0.123" + suffix).Some?
    ensures var right, given := EntityChecksum.Checksum(TESTNET, "0.0.123"), if suffix == "" then "" else suffix[1..];
            ChecksumParseAddress(TESTNET, "0.0.123" + suffix)
            == Ok(AddressResult(if given == "" then 2 else if given == right then 3 else 1, 0, 0, 123,
                                right, given, "0.0.123", "0.0.123" + "(" + right + ")"))
  {
    hide FindMatch, Atoi, EntityChecksum.Checksum;
    Matched(suffix);
    Numbers();
    assert "0" + "." + "0" + "." + "123" == "0.0.123";
  }

  lemma Numbers()
    ensures Atoi("0") == Some(0) && Atoi("123") == Some(123)
  {
    assert Decimal(12) == "12" && Decimal(123) == "123" && Decimal(0) == "0";
    AtoiOfDecimal(0);
    AtoiOfDecimal(123);
  }

  lemma Matched(suffix: string)
    requires suffix == "" || IsSuffix(suffix)
    ensures FindMatch("0.0.123" + suffix)
         == Some(AddressMatch("0", "0", "123", if suffix == "" then "" else suffix[1..]))
  {
    Printed();
    assert Decimal(12) == "12" && Decimal(123) == "123" && Decimal(0) == "0";
    PrintedMatches(FILE_123, suffix);
  }

  /** The ID with its testnet checksum is valid there and nowhere else; with another text behind the
      dash it is refused, and the right checksum named. */
  lemma ChecksumValidated()
    ensures FileIDFromString("0.0.123-esxsf") == Ok(FILE_123.(checksum := Some("esxsf")))
    ensures ValidateChecksum(FILE_123.(checksum := Some("esxsf")), Some(Client(Some(TESTNET)))) == None
    ensures ValidateChecksum(FILE_123.(checksum := Some("esxsf")), Some(Client(Some(MAINNET))))
         == Some(NetworkMismatch("esxsf", "vfmkw"))
    ensures ValidateChecksum(FILE_123.(checksum := Some("rmkykd")), Some(Client(Some(TESTNET))))
         == Some(NetworkMismatch("rmkykd", "esxsf"))
    ensures ValidateChecksum(FILE_123, Some(Client(Some(TESTNET)))) == Some(ChecksumMissing)
    ensures ToStringWithChecksum(FILE_123, Client(Some(MAINNET))) == Ok("0.0.123-vfmkw")
  {
    hide ValidateChecksum, FileIDFromString, ToStringWithChecksum, EntityChecksum.Checksum, FileID.ToString;
    Printed();
    ChecksumLaws.Account123();
    ParseInvertsPrintWithChecksum(FILE_123, TESTNET);
    PrintedForm(FILE_123, TESTNET);
    PrintedForm(FILE_123, MAINNET);
    assert "0.0.123" + "-" + "esxsf" == "0.0.123-esxsf" && "0.0.123" + "-" + "vfmkw" == "0.0.123-vfmkw";
    Validated(FILE_123.(checksum := Some("esxsf")), TESTNET);
    Validated(FILE_123.(checksum := Some("esxsf")), MAINNET);
    Validated(FILE_123.(checksum := Some("rmkykd")), TESTNET);
    Validated(FILE_123, TESTNET);
  }

  lemma Validated(id: FileID, ledger: seq<byte>)
    requires id == FILE_123.(checksum := id.checksum)
    ensures ValidateChecksum(id, Some(Client(Some(ledger))))
         == var right := EntityChecksum.Checksum(ledger, "0.0.123");
            if id.checksum.None? then Some(ChecksumMissing)
            else if id.checksum.value == right then None
            else Some(NetworkMismatch(id.checksum.value, right))
  {
    hide FindMatch, Atoi, EntityChecksum.Checksum, Decimal;
    Printed();
    SameText(id);
    Matched("");
    Numbers();
    assert "0.0.123" + "" == "0.0.123";
    assert "0" + "." + "0" + "." + "123" == "0.0.123";
  }

  lemma SameText(id: FileID)
    requires id == FILE_123.(checksum := id.checksum)
    ensures id.ToString() == FILE_123.ToString()
  {
  }
}

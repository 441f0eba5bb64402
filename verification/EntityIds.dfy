/** Entity IDs as text: printing, parsing and validating `shard.realm.num-checksum`. */
module EntityIds {
  import opened Wrappers
  import opened Numerals
  import opened Sequences
  import EntityChecksum

  datatype IdError =
    | BadFormat
    | BadNumber
    | OutOfRange
    | WrongChecksum
    | ChecksumMissing
    | NetworkMismatch(given: string, correct: string)

  // ---------------------------------------------------------------- decimal numbers

  predicate IsDigit(c: char)
  {
    '0' <= c <= '9'
  }

  predicate AllDigits(s: string)
  {
    forall i :: 0 <= i < |s| ==> IsDigit(s[i])
  }

  function DigitChar(d: int): (c: char)
    requires 0 <= d < 10
    ensures IsDigit(c)
  {
    ('0' as int + d) as char
  }

  function DigitsIn(s: string): (ds: seq<int>)
    requires AllDigits(s)
    ensures |ds| == |s| && InBase(ds, 10)
  {
    seq(|s|, i requires 0 <= i < |s| => s[i] as int - '0' as int)
  }

  /** `%d` of a number that is not negative. */
  function Decimal(n: nat): (s: string)
    ensures AllDigits(s) && s != ""
    decreases n
  {
    if n < 10 then [DigitChar(n)] else Decimal(n / 10) + [DigitChar(n % 10)]
  }

  function DecimalValue(s: string): (v: int)
    requires AllDigits(s)
    ensures v >= 0
  {
    ValueBound(DigitsIn(s), 10);
    Value(DigitsIn(s), 10)
  }

  lemma {:induction false} DecimalRoundTrip(n: nat)
    ensures DecimalValue(Decimal(n)) == n
    ensures Decimal(n)[0] == '0' <==> n == 0
    ensures n == 0 ==> |Decimal(n)| == 1
    decreases n
  {
    if n < 10 {
      assert DigitsIn(Decimal(n)) == [] + [n];
      ValueOfAppend([], n, 10);
    } else {
      DecimalRoundTrip(n / 10);
      var init := Decimal(n / 10);
      assert DigitsIn(Decimal(n)) == DigitsIn(init) + [n % 10];
      ValueOfAppend(DigitsIn(init), n % 10, 10);
    }
  }

  /** `strconv.Atoi`: an optional sign and digits, within 64 signed bits. */
  function Atoi(s: string): Option<int>
  {
    if s == "" then None
    else
      var body := if s[0] == '+' || s[0] == '-' then s[1..] else s;
      if body == "" || !AllDigits(body) then None
      else
        var v := if s[0] == '-' then -DecimalValue(body) else DecimalValue(body);
        if -TWO_63 <= v < TWO_63 then Some(v) else None
  }

  lemma AtoiOfDecimal(n: nat)
    ensures Atoi(Decimal(n)) == if n < TWO_63 then Some(n) else None
  {
    DecimalRoundTrip(n);
    assert IsDigit(Decimal(n)[0]);
  }

  lemma AtoiSigned(s: string)
    requires AllDigits(s) && s != ""
    ensures Atoi("+" + s) == Atoi(s) == if DecimalValue(s) < TWO_63 then Some(DecimalValue(s)) else None
    ensures Atoi("-" + s) == if DecimalValue(s) <= TWO_63 then Some(-DecimalValue(s)) else None
  {
    hide DecimalValue;
    assert ("+" + s)[1..] == s && ("-" + s)[1..] == s && IsDigit(s[0]);
  }

  // ---------------------------------------------------------------- parsing

  /** Position of the first `c`, or the length when there is none. */
  function Index(s: string, c: char): (i: nat)
    ensures i <= |s|
    ensures forall j :: 0 <= j < i ==> s[j] != c
    ensures i < |s| ==> s[i] == c
  {
    if s == "" || s[0] == c then 0 else 1 + Index(s[1..], c)
  }

  /** A string taken apart at a separator, which is dropped. */
  datatype Parts = Parts(head: string, tail: string)

  /** `strings.SplitN(s, c, 2)`, when there is a separator to split at. */
  function Cut(s: string, c: char): (r: Option<Parts>)
    ensures r.Some? ==> s == r.value.head + [c] + r.value.tail
    ensures r.None? ==> c !in s
  {
    var i := Index(s, c);
    if i < |s| then Some(Parts(s[..i], s[i + 1..])) else None
  }

  lemma CutAt(s: string, c: char, head: string, tail: string)
    requires s == head + ([c] + tail) && c !in head
    ensures Cut(s, c) == Some(Parts(head, tail))
  {
    Pieces(s, head, c, tail);
    forall j | 0 <= j < |head| ensures s[j] != c {
      assert s[j] == head[j];
    }
  }

  lemma Pieces(s: string, head: string, c: char, tail: string)
    requires s == head + ([c] + tail)
    ensures |s| > |head| && s[..|head|] == head && s[|head|] == c && s[|head| + 1..] == tail
  {
  }

  datatype IdParts = IdParts(shard: int, realm: int, num: int, checksum: Option<string>)

  function ParseNumbers(a: string, b: string, c: string, checksum: Option<string>): Result<IdParts, IdError>
  {
    match (Atoi(a), Atoi(b), Atoi(c))
    case (Some(shard), Some(realm), Some(num)) => Ok(IdParts(shard, realm, num, checksum))
    case _ => Err(BadNumber)
  }

  function SplitNumbers(body: string, checksum: Option<string>): Result<IdParts, IdError>
  {
    match Cut(body, '.')
    case None => Err(BadFormat)
    case Some(p) =>
      match Cut(p.tail, '.')
      case None => Err(BadFormat)
      case Some(q) => ParseNumbers(p.head, q.head, q.tail, checksum)
  }

  /** Everything after the first dash is the checksum; what precedes it splits at its first
      two dots. */
  function IdFromString(s: string): Result<IdParts, IdError>
  {
    match Cut(s, '-')
    case Some(p) => SplitNumbers(p.head, Some(p.tail))
    case None => SplitNumbers(s, None)
  }

  // ---------------------------------------------------------------- address matching

  function DigitRun(s: string): (n: nat)
    ensures n <= |s| && AllDigits(s[..n])
  {
    if s == "" || !IsDigit(s[0]) then 0
    else
      var n := DigitRun(s[1..]);
      assert s[..n + 1] == [s[0]] + s[1..][..n];
      n + 1
  }

  /** Length of the match of `0|[1-9]\d*` at the start, or zero. */
  function Component(s: string): (n: nat)
    ensures n <= |s| && AllDigits(s[..n])
  {
    if s != "" && s[0] == '0' then 1 else DigitRun(s)
  }

  datatype AddressMatch = AddressMatch(shard: string, realm: string, num: string, suffix: string)

  predicate IsSuffix(s: string)
  {
    |s| == 6 && s[0] == '-' && forall i :: 1 <= i < 6 ==> 'a' <= s[i] <= 'z'
  }

  /** A component followed by a dot. */
  function DottedComponent(s: string): (r: Option<Parts>)
    ensures r.Some? ==> r.value.head != "" && AllDigits(r.value.head)
  {
    var n := Component(s);
    if n == 0 || n == |s| || s[n] != '.' then None else Some(Parts(s[..n], s[n + 1..]))
  }

  /** A component ending the string, or followed by nothing but a checksum suffix. */
  function LastComponent(s: string): (r: Option<Parts>)
    ensures r.Some? ==> r.value.head != "" && AllDigits(r.value.head)
  {
    var n := Component(s);
    if n == 0 then None
    else if n == |s| then Some(Parts(s, ""))
    else if IsSuffix(s[n..]) then Some(Parts(s[..n], s[n + 1..]))
    else None
  }

  /** The address pattern anchored at the start of `s`. */
  function MatchHere(s: string): Option<AddressMatch>
  {
    match DottedComponent(s)
    case None => None
    case Some(p) =>
      match DottedComponent(p.tail)
      case None => None
      case Some(q) =>
        match LastComponent(q.tail)
        case None => None
        case Some(r) => Some(AddressMatch(p.head, q.head, r.head, r.tail))
  }

  /** The pattern is not anchored: the leftmost position that matches wins. */
  function FindMatch(s: string): Option<AddressMatch>
  {
    if MatchHere(s).Some? then MatchHere(s) else if s == "" then None else FindMatch(s[1..])
  }

  datatype AddressResult = AddressResult(
    status: int, num1: int, num2: int, num3: int,
    correctChecksum: string, givenChecksum: string, noChecksumFormat: string, withChecksumFormat: string)

  /** Without a match `_ChecksumParseAddress` indexes a missing group, so such strings are excluded. */
  function ChecksumParseAddress(ledger: seq<byte>, address: string): Result<AddressResult, IdError>
    requires FindMatch(address).Some?
  {
    var m := FindMatch(address).value;
    match (Atoi(m.shard), Atoi(m.realm), Atoi(m.num))
    case (Some(a), Some(b), Some(c)) =>
      var ad := m.shard + "." + m.realm + "." + m.num;
      var checksum := EntityChecksum.Checksum(ledger, ad);
      var status := if m.suffix == "" then 2 else if m.suffix == checksum then 3 else 1;
      Ok(AddressResult(status, a, b, c, checksum, m.suffix, ad, ad + "(" + checksum + ")"))
    case _ => Err(OutOfRange)
  }

  function ChecksumVerify(status: int): Option<IdError>
  {
    if status == 2 || status == 3 then None
    else if status == 1 then Some(WrongChecksum)
    else Some(BadFormat)
  }

  // ---------------------------------------------------------------- file IDs

  datatype FileID = FileID(shard: nat, realm: nat, file: nat, checksum: Option<string>)
  {
    predicate Valid() {
      shard < TWO_64 && realm < TWO_64 && file < TWO_64
    }

    /** Every component fits 63 bits, the range the parsers accept. */
    predicate Small() {
      shard < TWO_63 && realm < TWO_63 && file < TWO_63
    }

    predicate IsZero() {
      shard == 0 && realm == 0 && file == 0
    }

    function ToString(): string {
      Decimal(shard) + "." + Decimal(realm) + "." + Decimal(file)
    }
  }

  datatype Client = Client(ledgerID: Option<seq<byte>>)

  function FileIDFromString(data: string): Result<FileID, IdError>
  {
    match IdFromString(data)
    case Ok(p) => Ok(FileID(p.shard % TWO_64, p.realm % TWO_64, p.num % TWO_64, p.checksum))
    case Err(e) => Err(e)
  }

  /** Without a ledger ID the checksum printed is empty. */
  function ToStringWithChecksum(id: FileID, client: Client): Result<string, IdError>
  {
    match client.ledgerID
    case None => Ok(id.ToString() + "-" + "")
    case Some(ledger) =>
      PrintedMatches(id, "");
      assert id.ToString() + "" == id.ToString();
      match ChecksumParseAddress(ledger, id.ToString())
      case Ok(r) => Ok(id.ToString() + "-" + r.correctChecksum)
      case Err(e) => Err(e)
  }

  function ValidateChecksum(id: FileID, client: Option<Client>): Option<IdError>
  {
    if id.IsZero() || client.None? || client.value.ledgerID.None? then None
    else
      PrintedMatches(id, "");
      assert id.ToString() + "" == id.ToString();
      match ChecksumParseAddress(client.value.ledgerID.value, id.ToString())
      case Err(e) => Some(e)
      case Ok(r) =>
        if ChecksumVerify(r.status).Some? then ChecksumVerify(r.status)
        else if id.checksum.None? then Some(ChecksumMissing)
        else if r.correctChecksum != id.checksum.value then Some(NetworkMismatch(id.checksum.value, r.correctChecksum))
        else None
  }

  // ---------------------------------------------------------------- what printing and matching agree on

  lemma {:induction false} DigitRunOfDigits(s: string, rest: string)
    requires AllDigits(s) && (rest == "" || !IsDigit(rest[0]))
    ensures DigitRun(s + rest) == |s|
  {
    if s == "" {
      assert s + rest == rest;
    } else {
      DigitRunOfDigits(s[1..], rest);
      assert (s + rest)[1..] == s[1..] + rest;
    }
  }

  lemma ComponentOfDecimal(n: nat, rest: string)
    requires rest == "" || !IsDigit(rest[0])
    ensures Component(Decimal(n) + rest) == |Decimal(n)|
  {
    DecimalRoundTrip(n);
    DigitRunOfDigits(Decimal(n), rest);
  }

  /** A printed ID, alone or followed by a checksum suffix, matches from its first character
      and comes apart into its three numbers. */
  lemma PrintedMatches(id: FileID, suffix: string)
    requires suffix == "" || IsSuffix(suffix)
    ensures FindMatch(id.ToString() + suffix)
         == Some(AddressMatch(Decimal(id.shard), Decimal(id.realm), Decimal(id.file),
                              if suffix == "" then "" else suffix[1..]))
  {
    var a, b, c := Decimal(id.shard), Decimal(id.realm), Decimal(id.file);
    var s2 := c + suffix;
    var s1 := b + ("." + s2);
    var s := a + ("." + s1);
    PrintedShape(id, suffix);
    DottedDecimal(id.shard, s1);
    DottedDecimal(id.realm, s2);
    LastDecimal(id.file, suffix);
  }

  lemma PrintedShape(id: FileID, suffix: string)
    ensures id.ToString() + suffix
         == Decimal(id.shard) + ("." + (Decimal(id.realm) + ("." + (Decimal(id.file) + suffix))))
  {
  }

  lemma DottedDecimal(n: nat, rest: string)
    ensures DottedComponent(Decimal(n) + ("." + rest)) == Some(Parts(Decimal(n), rest))
  {
    ComponentOfDecimal(n, "." + rest);
    Pieces(Decimal(n) + ("." + rest), Decimal(n), '.', rest);
  }

  lemma LastDecimal(n: nat, suffix: string)
    requires suffix == "" || IsSuffix(suffix)
    ensures LastComponent(Decimal(n) + suffix) == Some(Parts(Decimal(n), if suffix == "" then "" else suffix[1..]))
  {
    ComponentOfDecimal(n, suffix);
    var s := Decimal(n) + suffix;
    if suffix == "" {
      assert s == Decimal(n);
    } else {
      assert s == Decimal(n) + (['-'] + suffix[1..]);
      Pieces(s, Decimal(n), '-', suffix[1..]);
      assert s[|Decimal(n)|..] == suffix;
    }
  }

  /** A suffix typed behind a printed ID is accepted exactly when it is the ID's checksum. */
  lemma SuffixAccepted(id: FileID, ledger: seq<byte>, letters: string)
    requires id.Small() && IsSuffix("-" + letters)
    ensures FindMatch(id.ToString() + ("-" + letters)).Some?
    ensures var r := ChecksumParseAddress(ledger, id.ToString() + ("-" + letters));
      r.Ok? && (ChecksumVerify(r.value.status).None? <==> letters == EntityChecksum.Checksum(ledger, id.ToString()))
  {
    PrintedMatches(id, "-" + letters);
    assert ("-" + letters)[1..] == letters;
    AtoiOfDecimal(id.shard);
    AtoiOfDecimal(id.realm);
    AtoiOfDecimal(id.file);
  }

  // ---------------------------------------------------------------- round trips

  lemma NoChar(s: string, c: char)
    requires AllDigits(s) && !IsDigit(c)
    ensures c !in s
  {
    forall j | 0 <= j < |s| ensures s[j] != c {
      assert IsDigit(s[j]);
    }
  }

  /** All three numbers convert, or the conversion fails. */
  lemma NumbersOf(id: FileID, checksum: Option<string>)
    ensures ParseNumbers(Decimal(id.shard), Decimal(id.realm), Decimal(id.file), checksum)
         == if id.Small() then Ok(IdParts(id.shard, id.realm, id.file, checksum)) else Err(BadNumber)
    ensures id.Small() ==> id.shard % TWO_64 == id.shard && id.realm % TWO_64 == id.realm && id.file % TWO_64 == id.file
  {
    hide Decimal, Atoi;
    AtoiOfDecimal(id.shard);
    AtoiOfDecimal(id.realm);
    AtoiOfDecimal(id.file);
  }

  lemma SplitPrinted(id: FileID, checksum: Option<string>)
    ensures '-' !in id.ToString()
    ensures SplitNumbers(id.ToString(), checksum)
        == ParseNumbers(Decimal(id.shard), Decimal(id.realm), Decimal(id.file), checksum)
  {
    var a, b, c := Decimal(id.shard), Decimal(id.realm), Decimal(id.file);
    NoChar(a, '.');
    NoChar(b, '.');
    NoChar(a, '-');
    NoChar(b, '-');
    NoChar(c, '-');
    assert id.ToString() == a + ("." + (b + ("." + c)));
    CutAt(id.ToString(), '.', a, b + ("." + c));
    CutAt(b + ("." + c), '.', b, c);
  }

  lemma ParsePrinted(id: FileID)
    ensures IdFromString(id.ToString()) == ParseNumbers(Decimal(id.shard), Decimal(id.realm), Decimal(id.file), None)
  {
    SplitPrinted(id, None);
    assert Cut(id.ToString(), '-').None?;
  }

  lemma ParsePrintedWith(id: FileID, tail: string)
    ensures IdFromString(id.ToString() + "-" + tail)
         == ParseNumbers(Decimal(id.shard), Decimal(id.realm), Decimal(id.file), Some(tail))
  {
    SplitPrinted(id, Some(tail));
    assert id.ToString() + "-" + tail == id.ToString() + (['-'] + tail);
    CutAt(id.ToString() + "-" + tail, '-', id.ToString(), tail);
  }

  /** Parsing inverts printing exactly on IDs whose components fit 63 bits. */
  lemma ParseInvertsPrint(id: FileID)
    ensures FileIDFromString(id.ToString())
         == if id.Small() then Ok(id.(checksum := None)) else Err(BadNumber)
  {
    ParsePrinted(id);
    NumbersOf(id, None);
  }

  /** The checksum printed for a ledger is read back with the ID; larger components are
      refused when printing. */
  lemma ParseInvertsPrintWithChecksum(id: FileID, ledger: seq<byte>)
    ensures var printed := ToStringWithChecksum(id, Client(Some(ledger)));
      if id.Small() then
        printed.Ok? && FileIDFromString(printed.value)
            == Ok(id.(checksum := Some(EntityChecksum.Checksum(ledger, id.ToString()))))
      else printed == Err(OutOfRange)
  {
    var checksum := EntityChecksum.Checksum(ledger, id.ToString());
    PrintedForm(id, ledger);
    ParsePrintedWith(id, checksum);
    NumbersOf(id, Some(checksum));
  }

  lemma PrintedForm(id: FileID, ledger: seq<byte>)
    ensures ToStringWithChecksum(id, Client(Some(ledger)))
         == if id.Small() then Ok(id.ToString() + "-" + EntityChecksum.Checksum(ledger, id.ToString()))
            else Err(OutOfRange)
  {
    PrintedMatches(id, "");
    assert id.ToString() + "" == id.ToString();
    AtoiOfDecimal(id.shard);
    AtoiOfDecimal(id.realm);
    AtoiOfDecimal(id.file);
  }

  /** A client without a ledger ID prints a dangling dash, which reads back as an empty checksum. */
  lemma ParseInvertsPrintWithoutLedger(id: FileID)
    requires id.Small()
    ensures var printed := ToStringWithChecksum(id, Client(None));
      printed.Ok? && FileIDFromString(printed.value) == Ok(id.(checksum := Some("")))
  {
    ParsePrintedWith(id, "");
    NumbersOf(id, Some(""));
  }

  lemma Unsigned(n: int)
    requires 0 <= n < TWO_63
    ensures n % TWO_64 == n
  {
  }

  lemma UnsignedIsNonNegative(s: string)
    requires '-' !in s
    ensures Atoi(s).Some? ==> 0 <= Atoi(s).value < TWO_63
  {
  }

  /** No dash precedes the checksum, so no component parses as negative. */
  lemma SplitInRange(body: string, checksum: Option<string>)
    requires '-' !in body && SplitNumbers(body, checksum).Ok?
    ensures var p := SplitNumbers(body, checksum).value;
      0 <= p.shard < TWO_63 && 0 <= p.realm < TWO_63 && 0 <= p.num < TWO_63
  {
    var p := Cut(body, '.').value;
    var q := Cut(p.tail, '.').value;
    UnsignedIsNonNegative(p.head);
    UnsignedIsNonNegative(q.head);
    UnsignedIsNonNegative(q.tail);
  }

  lemma ParsedInRange(data: string)
    requires IdFromString(data).Ok?
    ensures var p := IdFromString(data).value;
      0 <= p.shard < TWO_63 && 0 <= p.realm < TWO_63 && 0 <= p.num < TWO_63
  {
    match Cut(data, '-')
    case Some(p) =>
      assert '-' !in p.head;
      SplitInRange(p.head, Some(p.tail));
    case None => SplitInRange(data, None);
  }

  /** What a parsed ID prints as parses to the same ID: parsing yields no negative component. */
  lemma ParsedIsPrintable(data: string)
    requires FileIDFromString(data).Ok?
    ensures var id := FileIDFromString(data).value;
      id.Small() && FileIDFromString(id.ToString()) == Ok(id.(checksum := None))
  {
    ParsedInRange(data);
    var p := IdFromString(data).value;
    Unsigned(p.shard);
    Unsigned(p.realm);
    Unsigned(p.num);
    ParseInvertsPrint(FileID(p.shard, p.realm, p.num, p.checksum));
  }

  /** An ID printed for one ledger passes validation on another exactly when it is the zero ID
      or the two ledgers give its address the same checksum. */
  lemma ValidateAfterPrint(id: FileID, ledger: seq<byte>, other: seq<byte>)
    requires id.Small()
    ensures var parsed := id.(checksum := Some(EntityChecksum.Checksum(ledger, id.ToString())));
      ValidateChecksum(parsed, Some(Client(Some(other)))).None?
      <==> || id.IsZero()
           || EntityChecksum.Checksum(other, id.ToString()) == EntityChecksum.Checksum(ledger, id.ToString())
  {
    var parsed := id.(checksum := Some(EntityChecksum.Checksum(ledger, id.ToString())));
    assert parsed.ToString() == id.ToString();
    PrintedMatches(parsed, "");
    assert parsed.ToString() + "" == parsed.ToString();
    AtoiOfDecimal(id.shard);
    AtoiOfDecimal(id.realm);
    AtoiOfDecimal(id.file);
  }

  /** Printing on one ledger and reading back: accepted there, and rejected on every ledger
      whose ID of the same length differs in one byte, unless the ID is zero. */
  lemma PrintParseValidate(id: FileID, ledger: seq<byte>, p: nat, b: byte)
    requires id.Small() && p < |ledger|
    ensures var printed := ToStringWithChecksum(id, Client(Some(ledger)));
      && printed.Ok? && FileIDFromString(printed.value).Ok?
      && var parsed := FileIDFromString(printed.value).value;
         && ValidateChecksum(parsed, Some(Client(Some(ledger)))).None?
         && (ValidateChecksum(parsed, Some(Client(Some(ledger[p := b])))).None? <==> id.IsZero() || b == ledger[p])
  {
    ParseInvertsPrintWithChecksum(id, ledger);
    ValidateAfterPrint(id, ledger, ledger);
    ValidateAfterPrint(id, ledger, ledger[p := b]);
    EntityChecksum.LedgerByteDetected(ledger, p, b, id.ToString());
  }

  const MAINNET: seq<byte> := [0]
  const TESTNET: seq<byte> := [1]
  const PREVIEWNET: seq<byte> := [2]

  /** The three standard ledgers never share a checksum. */
  lemma StandardLedgersSeparate(address: string)
    ensures EntityChecksum.Checksum(MAINNET, address) != EntityChecksum.Checksum(TESTNET, address)
    ensures EntityChecksum.Checksum(TESTNET, address) != EntityChecksum.Checksum(PREVIEWNET, address)
    ensures EntityChecksum.Checksum(MAINNET, address) != EntityChecksum.Checksum(PREVIEWNET, address)
  {
    assert MAINNET[0 := 1] == TESTNET && MAINNET[0 := 2] == PREVIEWNET && TESTNET[0 := 2] == PREVIEWNET;
    EntityChecksum.LedgerByteDetected(MAINNET, 0, 1, address);
    EntityChecksum.LedgerByteDetected(MAINNET, 0, 2, address);
    EntityChecksum.LedgerByteDetected(TESTNET, 0, 2, address);
  }
}

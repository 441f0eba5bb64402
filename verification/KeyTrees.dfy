/** Keys, trees of keys, and their wire form. Curve arithmetic and DER parsing are parameters. */
module KeyTrees {
  import opened Wrappers
  import opened Sequences

  type Raw32 = s: seq<byte> | |s| == 32 witness seq(32, _ => 0)
  type Compressed = s: seq<byte> | |s| == 33 witness seq(33, _ => 0)

  datatype ContractID = ContractID(shard: nat, realm: nat, num: nat, evmAddress: Option<seq<byte>>,
                                   checksum: Option<string>)

  /** A key as a caller builds it. A private key is known here by its public key; a public or
      private key may hold neither kind. A contract key read from an empty message is nil. */
  datatype Key =
    | PublicKey(ecdsa: Option<Compressed>, ed25519: Option<Raw32>)
    | PrivateKey(ecdsaPublic: Option<Compressed>, ed25519Public: Option<Raw32>)
    | Contract(id: ContractID)
    | Delegatable(id: ContractID)
    | NilContract
    | NilDelegatable
    | KeyList(keys: seq<Key>, threshold: int)

  type int64 = n: int | -TWO_63 <= n < TWO_63

  datatype ContractRef = Unset | Number(num: int64) | EvmAddress(address: seq<byte>)

  datatype ProtoContractID = ProtoContractID(shard: int64, realm: int64, contract: ContractRef)

  datatype ProtoKey =
    | Null
    | Empty
    | NotImplemented
    | ProtoEd25519(bytes: seq<byte>)
    | ProtoEcdsa(bytes: seq<byte>)
    | ProtoContract(contract: Option<ProtoContractID>)
    | ProtoDelegatable(contract: Option<ProtoContractID>)
    | ProtoThresholdKey(threshold: nat, list: ProtoKeys)
    | ProtoKeyList(list: ProtoKeys)

  datatype ProtoKeys = NoKeys | Keys(keys: seq<ProtoKey>)

  datatype KeyError = ParameterNull | BadKey | NilDereference

  datatype Codecs = Codecs(
    onCurve: Compressed -> bool,
    ed25519Der: seq<byte> -> Option<Raw32>,
    ecdsaDer: seq<byte> -> Option<Compressed>)

  // ---------------------------------------------------------------- integers on the wire

  /** Go's `int64(n)` and `uint64(n)` of 64-bit integers. */
  function Signed(n: nat): int64
  {
    if n % TWO_64 < TWO_63 then n % TWO_64 else n % TWO_64 - TWO_64
  }

  function Unsigned(n: int): nat
  {
    n % TWO_64
  }

  predicate Fits(id: ContractID)
  {
    id.shard < TWO_64 && id.realm < TWO_64 && id.num < TWO_64
  }

  function ToProtoContractID(id: ContractID): ProtoContractID
  {
    ProtoContractID(Signed(id.shard), Signed(id.realm),
                    if id.evmAddress.Some? then EvmAddress(id.evmAddress.value) else Number(Signed(id.num)))
  }

  function ContractIDFromProtobuf(pb: ProtoContractID): ContractID
  {
    match pb.contract
    case Unset => ContractID(Unsigned(pb.shard), Unsigned(pb.realm), 0, None, None)
    case Number(num) => ContractID(Unsigned(pb.shard), Unsigned(pb.realm), Unsigned(num), None, None)
    case EvmAddress(address) => ContractID(Unsigned(pb.shard), Unsigned(pb.realm), 0, Some(address), None)
  }

  /** The wire keeps an address or a number, never both, and no checksum. */
  function PlainContractID(id: ContractID): ContractID
  {
    id.(num := if id.evmAddress.Some? then 0 else id.num, checksum := None)
  }

  lemma ContractIDRoundTrip(id: ContractID)
    requires Fits(id)
    ensures ContractIDFromProtobuf(ToProtoContractID(id)) == PlainContractID(id)
  {
    hide Signed, Unsigned;
    UnsignedBack(id.shard);
    UnsignedBack(id.realm);
    UnsignedBack(id.num);
  }

  lemma UnsignedBack(n: nat)
    requires n < TWO_64
    ensures Unsigned(Signed(n)) == n
  {
  }

  // ---------------------------------------------------------------- encoding

  function EncodeAll(keys: seq<Key>): (r: Result<seq<ProtoKey>, KeyError>)
    ensures r.Ok? ==> |r.value| == |keys|
    decreases keys
  {
    if keys == [] then Ok([])
    else
      var n := |keys| - 1;
      var init := EncodeAll(keys[..n]);
      if init.Err? then init
      else
        var last := Encode(keys[n]);
        if last.Err? then Err(last.error) else Ok(init.value + [last.value])
  }

  function Encode(key: Key): Result<ProtoKey, KeyError>
    decreases key
  {
    match key
    case PublicKey(ecdsa, ed25519) =>
      if ecdsa.Some? then Ok(ProtoEcdsa(ecdsa.value))
      else if ed25519.Some? then Ok(ProtoEd25519(ed25519.value))
      else Ok(Empty)
    case PrivateKey(ecdsa, ed25519) =>
      if ecdsa.Some? then Ok(ProtoEcdsa(ecdsa.value))
      else if ed25519.Some? then Ok(ProtoEd25519(ed25519.value))
      else Ok(Empty)
    case Contract(id) => Ok(ProtoContract(Some(ToProtoContractID(id))))
    case Delegatable(id) => Ok(ProtoContract(Some(ToProtoContractID(id))))
    case NilContract => Err(NilDereference)
    case NilDelegatable => Err(NilDereference)
    case KeyList(keys, threshold) =>
      var list := EncodeAll(keys);
      if list.Err? then Err(list.error)
      else if threshold >= 0 then Ok(ProtoThresholdKey(threshold % TWO_32, Keys(list.value)))
      else Ok(ProtoKeyList(Keys(list.value)))
  }

  method ToProtoKey(key: Key) returns (r: Result<ProtoKey, KeyError>)
    ensures r == Encode(key)
    decreases key
  {
    match key {
      case PublicKey(ecdsa, ed25519) =>
        if ecdsa.Some? {
          return Ok(ProtoEcdsa(ecdsa.value));
        }
        if ed25519.Some? {
          return Ok(ProtoEd25519(ed25519.value));
        }
        r := Ok(Empty);
      case PrivateKey(ecdsa, ed25519) =>
        if ecdsa.Some? {
          return Ok(ProtoEcdsa(ecdsa.value));
        }
        if ed25519.Some? {
          return Ok(ProtoEd25519(ed25519.value));
        }
        r := Ok(Empty);
      case Contract(id) =>
        r := Ok(ProtoContract(Some(ToProtoContractID(id))));
      case Delegatable(id) =>
        r := Ok(ProtoContract(Some(ToProtoContractID(id))));
      case NilContract =>
        r := Err(NilDereference);
      case NilDelegatable =>
        r := Err(NilDereference);
      case KeyList(keys, threshold) =>
        var list := [];
        var i := 0;
        while i < |keys|
          invariant 0 <= i <= |keys| && EncodeAll(keys[..i]) == Ok(list)
        {
          var pb := ToProtoKey(keys[i]);
          assert keys[..i + 1][..i] == keys[..i];
          if pb.Err? {
            EncodingFails(keys, i);
            return Err(pb.error);
          }
          list := list + [pb.value];
          i := i + 1;
        }
        TakeAll(keys);
        if threshold >= 0 {
          return Ok(ProtoThresholdKey(threshold % TWO_32, Keys(list)));
        }
        r := Ok(ProtoKeyList(Keys(list)));
    }
  }

  /** The first key that cannot be encoded decides. */
  lemma {:induction false} EncodingFails(keys: seq<Key>, i: nat)
    requires i < |keys| && EncodeAll(keys[..i]).Ok? && Encode(keys[i]).Err?
    ensures EncodeAll(keys) == Err(Encode(keys[i]).error)
    decreases |keys|
  {
    var n := |keys| - 1;
    if i < n {
      assert keys[..n][..i] == keys[..i];
      EncodingFails(keys[..n], i);
    }
  }

  // ---------------------------------------------------------------- decoding

  function DecodeAll(pbs: seq<ProtoKey>, c: Codecs): (r: Result<seq<Key>, KeyError>)
    ensures r.Ok? ==> |r.value| == |pbs|
    decreases pbs
  {
    if pbs == [] then Ok([])
    else
      var n := |pbs| - 1;
      var init := DecodeAll(pbs[..n], c);
      if init.Err? then init
      else
        var last := Decode(pbs[n], c);
        if last.Err? then Err(last.error) else Ok(init.value + [last.value])
  }

  function DecodeEd25519(bytes: seq<byte>, c: Codecs): Result<Key, KeyError>
  {
    if |bytes| == 32 then Ok(PublicKey(None, Some(bytes)))
    else if |bytes| == 44 && c.ed25519Der(bytes).Some? then Ok(PublicKey(None, c.ed25519Der(bytes)))
    else Err(BadKey)
  }

  function DecodeEcdsa(bytes: seq<byte>, c: Codecs): Result<Key, KeyError>
  {
    if |bytes| == 33 then if c.onCurve(bytes) then Ok(PublicKey(Some(bytes), None)) else Err(BadKey)
    else if |bytes| == 49 && c.ecdsaDer(bytes).Some? then Ok(PublicKey(c.ecdsaDer(bytes), None))
    else Err(BadKey)
  }

  function Decode(pb: ProtoKey, c: Codecs): Result<Key, KeyError>
    decreases pb
  {
    match pb
    case Null => Err(ParameterNull)
    case Empty => Err(BadKey)
    case NotImplemented => Err(BadKey)
    case ProtoEd25519(bytes) => DecodeEd25519(bytes, c)
    case ProtoEcdsa(bytes) => DecodeEcdsa(bytes, c)
    case ProtoContract(contract) =>
      if contract.None? then Ok(NilContract) else Ok(Contract(ContractIDFromProtobuf(contract.value)))
    case ProtoDelegatable(contract) =>
      if contract.None? then Ok(NilDelegatable) else Ok(Delegatable(ContractIDFromProtobuf(contract.value)))
    case ProtoThresholdKey(threshold, list) =>
      if list.NoKeys? then Err(ParameterNull)
      else
        var keys := DecodeAll(list.keys, c);
        if keys.Err? then Err(keys.error) else Ok(KeyList(keys.value, threshold))
    case ProtoKeyList(list) =>
      if list.NoKeys? then Err(ParameterNull)
      else
        var keys := DecodeAll(list.keys, c);
        if keys.Err? then Err(keys.error) else Ok(KeyList(keys.value, -1))
  }

  method KeyFromProtobuf(pb: ProtoKey, c: Codecs) returns (r: Result<Key, KeyError>)
    ensures r == Decode(pb, c)
    decreases pb, 1
  {
    match pb {
      case Null =>
        r := Err(ParameterNull);
      case Empty =>
        r := Err(BadKey);
      case NotImplemented =>
        r := Err(BadKey);
      case ProtoEd25519(bytes) =>
        r := DecodeEd25519(bytes, c);
      case ProtoEcdsa(bytes) =>
        r := DecodeEcdsa(bytes, c);
      case ProtoContract(contract) =>
        r := if contract.None? then Ok(NilContract) else Ok(Contract(ContractIDFromProtobuf(contract.value)));
      case ProtoDelegatable(contract) =>
        r := if contract.None? then Ok(NilDelegatable) else Ok(Delegatable(ContractIDFromProtobuf(contract.value)));
      case ProtoThresholdKey(threshold, list) =>
        if list.NoKeys? {
          return Err(ParameterNull);
        }
        var keys := KeyListFromProtobuf(list.keys, c);
        r := if keys.Err? then Err(keys.error) else Ok(keys.value.(threshold := threshold));
      case ProtoKeyList(list) =>
        if list.NoKeys? {
          return Err(ParameterNull);
        }
        r := KeyListFromProtobuf(list.keys, c);
    }
  }

  method KeyListFromProtobuf(pbs: seq<ProtoKey>, c: Codecs) returns (r: Result<Key, KeyError>)
    ensures r == match DecodeAll(pbs, c) case Ok(keys) => Ok(KeyList(keys, -1)) case Err(e) => Err(e)
    decreases pbs, 0
  {
    var keys := [];
    var i := 0;
    while i < |pbs|
      invariant 0 <= i <= |pbs| && DecodeAll(pbs[..i], c) == Ok(keys)
    {
      var key := KeyFromProtobuf(pbs[i], c);
      assert pbs[..i + 1][..i] == pbs[..i];
      if key.Err? {
        DecodingFails(pbs, c, i);
        return Err(key.error);
      }
      keys := keys + [key.value];
      i := i + 1;
    }
    TakeAll(pbs);
    r := Ok(KeyList(keys, -1));
  }

  /** The first key that cannot be read decides. */
  lemma {:induction false} DecodingFails(pbs: seq<ProtoKey>, c: Codecs, i: nat)
    requires i < |pbs| && DecodeAll(pbs[..i], c).Ok? && Decode(pbs[i], c).Err?
    ensures DecodeAll(pbs, c) == Err(Decode(pbs[i], c).error)
    decreases |pbs|
  {
    var n := |pbs| - 1;
    if i < n {
      assert pbs[..n][..i] == pbs[..i];
      DecodingFails(pbs[..n], c, i);
    }
  }

  /** What is refused of a single message, and why; raw keys have one length, encoded ones another. */
  lemma KeysRefused(bytes: seq<byte>, threshold: nat, c: Codecs)
    ensures Decode(Null, c) == Err(ParameterNull)
    ensures Decode(ProtoKeyList(NoKeys), c) == Decode(ProtoThresholdKey(threshold, NoKeys), c) == Err(ParameterNull)
    ensures Decode(Empty, c) == Decode(NotImplemented, c) == Err(BadKey)
    ensures Decode(ProtoEd25519(bytes), c) == Err(BadKey)
       <==> |bytes| != 32 && (|bytes| != 44 || c.ed25519Der(bytes).None?)
    ensures Decode(ProtoEcdsa(bytes), c) == Err(BadKey)
       <==> if |bytes| == 33 then !c.onCurve(bytes) else |bytes| != 49 || c.ecdsaDer(bytes).None?
    ensures Encode(NilContract) == Encode(NilDelegatable) == Err(NilDereference)
  {
  }

  // ---------------------------------------------------------------- what a round trip keeps

  /** A private key becomes its public key, a delegatable contract a plain one; a threshold keeps
      its low 32 bits, and a negative one becomes a plain list's. */
  function Normalize(key: Key): Key
    decreases key
  {
    match key
    case PublicKey(ecdsa, ed25519) => PublicKey(ecdsa, if ecdsa.Some? then None else ed25519)
    case PrivateKey(ecdsa, ed25519) => PublicKey(ecdsa, if ecdsa.Some? then None else ed25519)
    case Contract(id) => Contract(PlainContractID(id))
    case Delegatable(id) => Contract(PlainContractID(id))
    case NilContract => key
    case NilDelegatable => key
    case KeyList(keys, threshold) => KeyList(NormalizeAll(keys), if threshold >= 0 then threshold % TWO_32 else -1)
  }

  function NormalizeAll(keys: seq<Key>): (r: seq<Key>)
    ensures |r| == |keys|
    decreases keys
  {
    if keys == [] then []
    else NormalizeAll(keys[..|keys| - 1]) + [Normalize(keys[|keys| - 1])]
  }

  /** Every leaf is a key on its curve, or a contract whose numbers fit. */
  predicate Readable(key: Key, c: Codecs)
    decreases key
  {
    match key
    case PublicKey(ecdsa, ed25519) => if ecdsa.Some? then c.onCurve(ecdsa.value) else ed25519.Some?
    case PrivateKey(ecdsa, ed25519) => if ecdsa.Some? then c.onCurve(ecdsa.value) else ed25519.Some?
    case Contract(id) => true
    case Delegatable(id) => true
    case NilContract => false
    case NilDelegatable => false
    case KeyList(keys, _) => forall k :: k in keys ==> Readable(k, c)
  }

  /** Contract numbers are 64-bit, as their type demands. */
  predicate Sized(key: Key)
    decreases key
  {
    match key
    case Contract(id) => Fits(id)
    case Delegatable(id) => Fits(id)
    case KeyList(keys, _) => forall k :: k in keys ==> Sized(k)
    case _ => true
  }

  /** Reading back what was written succeeds just for readable trees, and gives the normal form. */
  lemma {:induction false} ReadBack(key: Key, c: Codecs)
    requires Sized(key)
    ensures Encode(key).Ok? && Decode(Encode(key).value, c).Ok? <==> Readable(key, c)
    ensures Readable(key, c) ==> Decode(Encode(key).value, c) == Ok(Normalize(key))
    decreases key, 0
  {
    hide EncodeAll, DecodeAll, NormalizeAll, ToProtoContractID, ContractIDFromProtobuf, PlainContractID;
    match key
    case Contract(id) => ContractIDRoundTrip(id);
    case Delegatable(id) => ContractIDRoundTrip(id);
    case KeyList(keys, _) => ReadBackAll(keys, c);
    case _ =>
  }

  lemma {:induction false} ReadBackAll(keys: seq<Key>, c: Codecs)
    requires forall k :: k in keys ==> Sized(k)
    ensures EncodeAll(keys).Ok? && DecodeAll(EncodeAll(keys).value, c).Ok? <==> forall k :: k in keys ==> Readable(k, c)
    ensures (forall k :: k in keys ==> Readable(k, c)) ==> DecodeAll(EncodeAll(keys).value, c) == Ok(NormalizeAll(keys))
    decreases keys, 1
  {
    if keys != [] {
      var n := |keys| - 1;
      ReadBackAll(keys[..n], c);
      ReadBack(keys[n], c);
      TakeAppend(keys, n);
      TakeAll(keys);
      if EncodeAll(keys).Ok? {
        var pbs := EncodeAll(keys).value;
        assert pbs[..n] == EncodeAll(keys[..n]).value;
      }
    }
  }

  // ---------------------------------------------------------------- which trees come back unchanged

  /** Nothing in the tree is rewritten by a round trip. */
  predicate Canonical(key: Key)
    decreases key
  {
    match key
    case PublicKey(ecdsa, ed25519) => ecdsa.None? || ed25519.None?
    case PrivateKey(_, _) => false
    case Contract(id) => id == PlainContractID(id)
    case Delegatable(_) => false
    case NilContract => true
    case NilDelegatable => true
    case KeyList(keys, threshold) => -1 <= threshold < TWO_32 && forall k :: k in keys ==> Canonical(k)
  }

  lemma {:induction false} CanonicalIsFixed(key: Key)
    ensures Canonical(key) <==> Normalize(key) == key
    decreases key, 0
  {
    if key.KeyList? {
      CanonicalAllFixed(key.keys);
    }
  }

  lemma {:induction false} CanonicalAllFixed(keys: seq<Key>)
    ensures (forall k :: k in keys ==> Canonical(k)) <==> NormalizeAll(keys) == keys
    decreases keys, 1
  {
    if keys != [] {
      var n := |keys| - 1;
      CanonicalAllFixed(keys[..n]);
      CanonicalIsFixed(keys[n]);
      TakeAppend(keys, n);
      TakeAll(keys);
      LastApart(NormalizeAll(keys[..n]), Normalize(keys[n]), keys);
    }
  }

  lemma LastApart<T>(init: seq<T>, last: T, all: seq<T>)
    requires |all| == |init| + 1
    ensures init + [last] == all <==> init == all[..|init|] && last == all[|init|]
  {
    if init + [last] == all {
      assert (init + [last])[..|init|] == init;
    }
  }

  /** A tree survives the round trip exactly when it is readable and holds nothing a round trip
      rewrites. */
  lemma RoundTripExact(key: Key, c: Codecs)
    requires Sized(key)
    ensures Encode(key).Ok? && Decode(Encode(key).value, c) == Ok(key) <==> Readable(key, c) && Canonical(key)
  {
    ReadBack(key, c);
    CanonicalIsFixed(key);
  }

  /** Normal forms are stable, and encode to the same message. */
  lemma {:induction false} NormalFormStable(key: Key)
    ensures Canonical(Normalize(key)) && Encode(Normalize(key)) == Encode(key)
    decreases key, 0
  {
    hide EncodeAll, NormalizeAll, ToProtoContractID, PlainContractID;
    match key
    case Contract(id) => PlainIsStable(id);
    case Delegatable(id) => PlainIsStable(id);
    case KeyList(keys, _) => NormalFormsStable(keys);
    case _ =>
  }

  lemma PlainIsStable(id: ContractID)
    ensures PlainContractID(PlainContractID(id)) == PlainContractID(id)
    ensures ToProtoContractID(PlainContractID(id)) == ToProtoContractID(id)
  {
  }

  lemma {:induction false} NormalFormsStable(keys: seq<Key>)
    ensures forall k :: k in NormalizeAll(keys) ==> Canonical(k)
    ensures EncodeAll(NormalizeAll(keys)) == EncodeAll(keys)
    decreases keys, 1
  {
    hide Encode, Normalize, Canonical;
    if keys != [] {
      var n := |keys| - 1;
      NormalFormsStable(keys[..n]);
      NormalFormStable(keys[n]);
      var r := NormalizeAll(keys);
      assert r[..|r| - 1] == NormalizeAll(keys[..n]);
    }
  }

  // ---------------------------------------------------------------- what comes off the wire

  predicate WireSized(pb: ProtoKey)
    decreases pb
  {
    match pb
    case ProtoThresholdKey(threshold, list) =>
      threshold < TWO_32 && (list.Keys? ==> forall p :: p in list.keys ==> WireSized(p))
    case ProtoKeyList(list) => list.Keys? ==> forall p :: p in list.keys ==> WireSized(p)
    case _ => true
  }

  predicate NoDelegatable(key: Key)
    decreases key
  {
    match key
    case Delegatable(_) => false
    case KeyList(keys, _) => forall k :: k in keys ==> NoDelegatable(k)
    case _ => true
  }

  /** A tree that was read is in normal form but for its delegatable contracts: those alone are
      lost when it is written again. */
  lemma {:induction false} OnlyDelegatableLost(pb: ProtoKey, c: Codecs)
    requires WireSized(pb) && Decode(pb, c).Ok?
    ensures Canonical(Decode(pb, c).value) <==> NoDelegatable(Decode(pb, c).value)
    decreases pb, 0
  {
    match pb
    case ProtoThresholdKey(_, list) => OnlyDelegatablesLost(list.keys, c);
    case ProtoKeyList(list) => OnlyDelegatablesLost(list.keys, c);
    case _ =>
  }

  lemma {:induction false} OnlyDelegatablesLost(pbs: seq<ProtoKey>, c: Codecs)
    requires DecodeAll(pbs, c).Ok? && forall p :: p in pbs ==> WireSized(p)
    ensures (forall k :: k in DecodeAll(pbs, c).value ==> Canonical(k))
       <==> (forall k :: k in DecodeAll(pbs, c).value ==> NoDelegatable(k))
    decreases pbs, 1
  {
    if pbs != [] {
      var n := |pbs| - 1;
      OnlyDelegatablesLost(pbs[..n], c);
      OnlyDelegatableLost(pbs[n], c);
      InitAndLast(DecodeAll(pbs[..n], c).value, Decode(pbs[n], c).value);
    }
  }

  lemma InitAndLast(init: seq<Key>, last: Key)
    ensures forall k :: k in init + [last] <==> k in init || k == last
  {
  }

  /** No delegatable contract is in the message. */
  predicate PlainContracts(pb: ProtoKey)
    decreases pb
  {
    match pb
    case ProtoDelegatable(contract) => contract.None?
    case ProtoThresholdKey(_, list) => list.Keys? ==> forall p :: p in list.keys ==> PlainContracts(p)
    case ProtoKeyList(list) => list.Keys? ==> forall p :: p in list.keys ==> PlainContracts(p)
    case _ => true
  }

  /** Delegatable contracts are read as such, at any depth. */
  lemma {:induction false} DelegatablesRead(pb: ProtoKey, c: Codecs)
    requires Decode(pb, c).Ok?
    ensures NoDelegatable(Decode(pb, c).value) <==> PlainContracts(pb)
    decreases pb, 0
  {
    match pb
    case ProtoThresholdKey(_, list) => DelegatablesAllRead(list.keys, c);
    case ProtoKeyList(list) => DelegatablesAllRead(list.keys, c);
    case _ =>
  }

  lemma {:induction false} DelegatablesAllRead(pbs: seq<ProtoKey>, c: Codecs)
    requires DecodeAll(pbs, c).Ok?
    ensures (forall k :: k in DecodeAll(pbs, c).value ==> NoDelegatable(k))
       <==> (forall p :: p in pbs ==> PlainContracts(p))
    decreases pbs, 1
  {
    if pbs != [] {
      var n := |pbs| - 1;
      DelegatablesAllRead(pbs[..n], c);
      DelegatablesRead(pbs[n], c);
      InitAndLast(DecodeAll(pbs[..n], c).value, Decode(pbs[n], c).value);
      TakeAppend(pbs, n);
      TakeAll(pbs);
    }
  }

  /** A message in the form the SDK itself writes: raw keys of their length, plain contracts with a
      number or an address, and lists that are there. */
  predicate Settled(pb: ProtoKey)
    decreases pb
  {
    match pb
    case ProtoEd25519(bytes) => |bytes| == 32
    case ProtoEcdsa(bytes) => |bytes| == 33
    case ProtoContract(contract) => contract.Some? && !contract.value.contract.Unset?
    case ProtoThresholdKey(_, list) => list.Keys? && forall p :: p in list.keys ==> Settled(p)
    case ProtoKeyList(list) => list.Keys? && forall p :: p in list.keys ==> Settled(p)
    case _ => false
  }

  /** What was read is written as the same message exactly when the message is of that form. */
  lemma {:induction false} WriteBack(pb: ProtoKey, c: Codecs)
    requires WireSized(pb) && Decode(pb, c).Ok?
    ensures Encode(Decode(pb, c).value) == Ok(pb) <==> Settled(pb)
    decreases pb, 0
  {
    hide EncodeAll, DecodeAll;
    match pb
    case ProtoContract(contract) =>
      if contract.Some? {
        ContractIDWriteBack(contract.value);
      }
    case ProtoThresholdKey(_, list) => WriteAllBack(list.keys, c);
    case ProtoKeyList(list) => WriteAllBack(list.keys, c);
    case _ =>
  }

  lemma ContractIDWriteBack(pb: ProtoContractID)
    ensures ToProtoContractID(ContractIDFromProtobuf(pb)) == pb <==> !pb.contract.Unset?
  {
    hide Signed, Unsigned;
    SignedBack(pb.shard);
    SignedBack(pb.realm);
    if pb.contract.Number? {
      SignedBack(pb.contract.num);
    }
  }

  lemma SignedBack(n: int64)
    ensures Signed(Unsigned(n)) == n
  {
  }

  lemma {:induction false} WriteAllBack(pbs: seq<ProtoKey>, c: Codecs)
    requires DecodeAll(pbs, c).Ok? && forall p :: p in pbs ==> WireSized(p)
    ensures EncodeAll(DecodeAll(pbs, c).value) == Ok(pbs) <==> forall p :: p in pbs ==> Settled(p)
    decreases pbs, 1
  {
    if pbs != [] {
      var n := |pbs| - 1;
      WriteAllBack(pbs[..n], c);
      WriteBack(pbs[n], c);
      TakeAppend(pbs, n);
      TakeAll(pbs);
      var init, last := DecodeAll(pbs[..n], c).value, Decode(pbs[n], c).value;
      assert (init + [last])[..n] == init;
      if EncodeAll(init).Ok? && Encode(last).Ok? {
        LastApart(EncodeAll(init).value, Encode(last).value, pbs);
      }
    }
  }

  /** The elements of a list are written and read one by one, in their order. */
  lemma {:induction false} EncodedAt(keys: seq<Key>, i: nat)
    requires EncodeAll(keys).Ok? && i < |keys|
    ensures Encode(keys[i]) == Ok(EncodeAll(keys).value[i])
  {
    if i < |keys| - 1 {
      EncodedAt(keys[..|keys| - 1], i);
    }
  }

  /** What each key is on the wire. Numbers below 2^63 appear as they are. */
  lemma WrittenAs(key: Key)
    ensures forall b :: Encode(key) == Ok(ProtoEcdsa(b)) <==>
              || (key.PublicKey? && key.ecdsa == Some(b)) || (key.PrivateKey? && key.ecdsaPublic == Some(b))
    ensures key.Contract? && key.id.evmAddress.None? && key.id.shard < TWO_63 && key.id.realm < TWO_63
            && key.id.num < TWO_63 ==>
              Encode(key) == Ok(ProtoContract(Some(ProtoContractID(key.id.shard, key.id.realm, Number(key.id.num)))))
    ensures key.KeyList? && 0 <= key.threshold < TWO_32 && Encode(key).Ok? ==>
              Encode(key).value.ProtoThresholdKey? && Encode(key).value.threshold == key.threshold
    ensures key.KeyList? && Encode(key).Ok? ==> (Encode(key).value.ProtoKeyList? <==> key.threshold < 0)
  {
  }

  /** Read and written again, a delegatable contract key authorises only the contract itself. */
  lemma DelegatableLost(id: ProtoContractID, c: Codecs)
    ensures var pb := ProtoDelegatable(Some(id));
            Decode(pb, c).Ok? && Encode(Decode(pb, c).value).Ok? && Encode(Decode(pb, c).value).value.ProtoContract?
  {
  }
}

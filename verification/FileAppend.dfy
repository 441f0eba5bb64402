/** Appending a large file: the contents are cut into chunks, every chunk is signed once for each
    node under its own transaction ID, and the chunks are sent one after the other. */
module FileAppend {
  import opened Wrappers
  import opened Sequences
  import opened Numerals

  /** A point in time held behind a pointer: every copy of an ID shares it. */
  class Instant {
    var nanos: int

    constructor (nanos: int)
      ensures this.nanos == nanos
    {
      this.nanos := nanos;
    }
  }

  datatype TransactionID = TransactionID(account: int, validStart: Instant, scheduled: bool, nonce: Option<int>)

  /** What an ID looks like on the wire; a missing nonce is zero. */
  datatype IdValue = IdValue(account: int, validStart: int, scheduled: bool, nonce: int)
  {
    /** The ID `k` nanoseconds later. */
    function Later(k: nat): IdValue {
      this.(validStart := validStart + k)
    }
  }

  function ToProtobuf(id: TransactionID): IdValue
    reads id.validStart
  {
    IdValue(id.account, id.validStart.nanos, id.scheduled, if id.nonce.Some? then id.nonce.value else 0)
  }

  /** The wire form `pb` is that of the ID `id` while its time is `at`. */
  predicate SameId(pb: IdValue, id: TransactionID, at: int)
  {
    && pb.account == id.account && pb.validStart == at && pb.scheduled == id.scheduled
    && match id.nonce
       case None => pb.nonce == 0
       case Some(nonce) => pb.nonce == nonce
  }

  lemma WireForm(id: TransactionID)
    ensures SameId(ToProtobuf(id), id, id.validStart.nanos)
  {
  }

  /** A deep copy: the new ID has a time of its own. */
  method FromProtobuf(pb: IdValue) returns (id: TransactionID)
    ensures fresh(id.validStart) && ToProtobuf(id) == pb
  {
    var validStart := new Instant(pb.validStart);
    id := TransactionID(pb.account, validStart, pb.scheduled, if pb.nonce != 0 then Some(pb.nonce) else None);
  }

  /** A marshalled body: a snapshot that later changes do not reach. */
  datatype Signed = Signed(contents: seq<byte>, id: IdValue, node: int)

  // ---------------------------------------------------------------- chunks

  function ChunkCount(length: nat, size: nat): nat
    requires size > 0
  {
    (length + (size - 1)) / size
  }

  function ChunkAt(contents: seq<byte>, size: nat, i: nat): seq<byte>
    requires i * size <= |contents|
  {
    contents[i * size..if i * size + size > |contents| then |contents| else i * size + size]
  }

  lemma CountBounds(length: nat, size: nat)
    requires size > 0
    ensures length <= ChunkCount(length, size) * size < length + size
  {
    ModSplit(length + (size - 1), size, 1);
  }

  lemma StartsInside(length: nat, size: nat, i: nat)
    requires size > 0 && i < ChunkCount(length, size)
    ensures i * size < length
  {
    CountBounds(length, size);
    Below(i, ChunkCount(length, size), size);
  }

  lemma {:induction false} Below(i: nat, n: nat, size: nat)
    requires i < n
    ensures i * size + size <= n * size
    decreases n
  {
    assert n * size == (n - 1) * size + size;
    if i < n - 1 {
      Below(i, n - 1, size);
    }
  }

  /** The first `n` chunks. */
  function Chunks(contents: seq<byte>, size: nat, n: nat): (r: seq<seq<byte>>)
    requires size > 0 && n <= ChunkCount(|contents|, size)
    ensures |r| == n
    decreases n
  {
    if n == 0 then []
    else
      StartsInside(|contents|, size, n - 1);
      Chunks(contents, size, n - 1) + [ChunkAt(contents, size, n - 1)]
  }

  function Concat(parts: seq<seq<byte>>): seq<byte>
  {
    if parts == [] then [] else Concat(parts[..|parts| - 1]) + parts[|parts| - 1]
  }

  function AllChunks(contents: seq<byte>, size: nat): seq<seq<byte>>
    requires size > 0
  {
    Chunks(contents, size, ChunkCount(|contents|, size))
  }

  lemma {:induction false} ChunkEntry(contents: seq<byte>, size: nat, n: nat, i: nat)
    requires size > 0 && i < n <= ChunkCount(|contents|, size)
    ensures i * size < |contents|
    ensures Chunks(contents, size, n)[i] == ChunkAt(contents, size, i)
    decreases n
  {
    StartsInside(|contents|, size, i);
    if i < n - 1 {
      ChunkEntry(contents, size, n - 1, i);
    }
  }

  /** Where the first `n` chunks end. */
  function ChunksEnd(length: nat, size: nat, n: nat): (end: nat)
    ensures end <= length
  {
    if n * size > length then length else n * size
  }

  lemma ChunkSpan(contents: seq<byte>, size: nat, n: nat)
    requires n * size <= |contents|
    ensures contents[..ChunksEnd(|contents|, size, n)] + ChunkAt(contents, size, n)
         == contents[..ChunksEnd(|contents|, size, n + 1)]
  {
    assert (n + 1) * size == n * size + size;
    NextPrefix(contents, size, n * size);
  }

  lemma {:induction false} ChunksPrefix(contents: seq<byte>, size: nat, n: nat)
    requires size > 0 && n <= ChunkCount(|contents|, size)
    ensures Concat(Chunks(contents, size, n)) == contents[..ChunksEnd(|contents|, size, n)]
    decreases n
  {
    if n > 0 {
      StartsInside(|contents|, size, n - 1);
      hide ChunkCount, Concat, ChunksEnd, ChunkAt;
      ChunksPrefix(contents, size, n - 1);
      ChunkSpan(contents, size, n - 1);
      ConcatAppend(Chunks(contents, size, n - 1), ChunkAt(contents, size, n - 1));
    }
  }

  lemma ConcatAppend(parts: seq<seq<byte>>, last: seq<byte>)
    ensures Concat(parts + [last]) == Concat(parts) + last
  {
    assert (parts + [last])[..|parts|] == parts;
  }

  lemma NextPrefix(contents: seq<byte>, size: nat, start: nat)
    requires start <= |contents|
    ensures var end := if start + size > |contents| then |contents| else start + size;
            contents[..start] + contents[start..end] == contents[..end]
  {
  }

  lemma ChunkLength(contents: seq<byte>, size: nat, i: nat)
    requires size > 0 && i < ChunkCount(|contents|, size)
    ensures i * size < |contents| && 0 < |ChunkAt(contents, size, i)| <= size
    ensures i < ChunkCount(|contents|, size) - 1 ==> |ChunkAt(contents, size, i)| == size
  {
    StartsInside(|contents|, size, i);
    if i < ChunkCount(|contents|, size) - 1 {
      StartsInside(|contents|, size, i + 1);
    }
    hide ChunkCount;
    assert (i + 1) * size == i * size + size;
  }

  /** The chunks tile the contents: none is empty, all but the last are full, and laid end to
      end they are the contents. */
  lemma ChunksTile(contents: seq<byte>, size: nat)
    requires size > 0
    ensures var cs := AllChunks(contents, size);
            && Concat(cs) == contents
            && (forall i :: 0 <= i < |cs| ==> 0 < |cs[i]| <= size)
            && (forall i :: 0 <= i < |cs| - 1 ==> |cs[i]| == size)
            && (cs == [] <==> contents == [])
  {
    var n := ChunkCount(|contents|, size);
    CountBounds(|contents|, size);
    ChunksPrefix(contents, size, n);
    hide ChunkCount, ChunkAt, Concat;
    var cs := AllChunks(contents, size);
    forall i | 0 <= i < n ensures 0 < |cs[i]| <= size && (i < n - 1 ==> |cs[i]| == size) {
      ChunkEntry(contents, size, n, i);
      ChunkLength(contents, size, i);
    }
  }

  // ---------------------------------------------------------------- the grid of signed bodies

  /** One chunk for every node. */
  function Row(chunk: seq<byte>, id: IdValue, nodes: seq<int>): (r: seq<Signed>)
    ensures |r| == |nodes|
  {
    if nodes == [] then []
    else Row(chunk, id, nodes[..|nodes| - 1]) + [Signed(chunk, id, nodes[|nodes| - 1])]
  }

  /** Row after row, each under an ID one nanosecond later than the row before. */
  function Grid(chunks: seq<seq<byte>>, first: IdValue, nodes: seq<int>): (r: seq<Signed>)
    ensures |r| == |chunks| * |nodes|
  {
    if chunks == [] then []
    else
      var c := |chunks| - 1;
      Grid(chunks[..c], first, nodes) + Row(chunks[c], first.Later(c), nodes)
  }

  lemma {:induction false} RowEntry(chunk: seq<byte>, id: IdValue, nodes: seq<int>, j: nat)
    requires j < |nodes|
    ensures Row(chunk, id, nodes)[j] == Signed(chunk, id, nodes[j])
    decreases |nodes|
  {
    var n := |nodes| - 1;
    if j < n {
      RowEntry(chunk, id, nodes[..n], j);
    }
  }

  lemma CellInGrid(c: nat, j: nat, rows: nat, width: nat)
    requires c < rows && j < width
    ensures c * width + j < rows * width
  {
    Below(c, rows, width);
  }

  /** The entry a request looks up is its chunk, its ID and its node. */
  lemma {:induction false} GridEntry(chunks: seq<seq<byte>>, first: IdValue, nodes: seq<int>, c: nat, j: nat)
    requires c < |chunks| && j < |nodes|
    ensures c * |nodes| + j < |Grid(chunks, first, nodes)|
    ensures Grid(chunks, first, nodes)[c * |nodes| + j] == Signed(chunks[c], first.Later(c), nodes[j])
    ensures first.Later(c) == IdValue(first.account, first.validStart + c, first.scheduled, first.nonce)
    decreases |chunks|
  {
    var last := |chunks| - 1;
    CellInGrid(c, j, |chunks|, |nodes|);
    if c < last {
      GridEntry(chunks[..last], first, nodes, c, j);
    } else {
      RowEntry(chunks[c], first.Later(c), nodes, j);
    }
  }

  /** The number of requests: as many as there are chunks. */
  lemma QuotientIsChunkCount(chunks: seq<seq<byte>>, first: IdValue, nodes: seq<int>)
    requires nodes != []
    ensures |Grid(chunks, first, nodes)| / |nodes| == |chunks|
  {
    DivModUnique(|chunks| * |nodes|, |nodes|, |chunks|, 0);
  }

  // ---------------------------------------------------------------- the transaction

  datatype Client = Client(operator: Option<int>, nodes: seq<int>)

  datatype AppendError =
    | NoClient
    | NoTransactionID
    | MaxChunksExceeded(chunks: nat, max: nat)
    | EmptyIdList
    | SendFailed

  /** How one chunk fares: how many nodes were reached, and whether the last of them took it. */
  datatype ChunkRun = ChunkRun(reached: nat, taken: bool, receiptOk: bool)

  /** A body and the node it was sent to. */
  datatype Sent = Sent(tx: Signed, to: int)

  class FileAppendTransaction {
    var contents: seq<byte>
    var chunkSize: int
    var maxChunks: nat
    var nodeAccountIDs: seq<int>
    var nodeIndex: nat
    var transactionIDs: seq<TransactionID>
    var idIndex: nat
    var transactionID: Option<TransactionID>
    var signedTransactions: seq<Signed>
    var signedIndex: nat

    constructor ()
      ensures Valid() && !IsFrozen() && chunkSize == 2048 && maxChunks == 20
      ensures contents == [] && nodeAccountIDs == [] && transactionIDs == []
    {
      contents := [];
      chunkSize, maxChunks := 2048, 20;
      nodeAccountIDs, nodeIndex := [], 0;
      transactionIDs, idIndex := [], 0;
      transactionID := None;
      signedTransactions, signedIndex := [], 0;
    }

    predicate IsFrozen()
      reads this
    {
      |signedTransactions| > 0
    }

    /** The positions are inside their lists; nothing ever advances that of the signed bodies. */
    ghost predicate Valid()
      reads this
    {
      && (nodeIndex == 0 || nodeIndex < |nodeAccountIDs|)
      && (idIndex == 0 || idIndex < |transactionIDs|)
      && signedIndex == 0
    }

    /** What freezing leaves: a grid of these chunks, and one ID for each of them. */
    ghost predicate FrozenAs(chunks: seq<seq<byte>>, first: IdValue)
      reads this`signedTransactions, this`nodeAccountIDs, this`transactionIDs,
          (set t | t in transactionIDs :: t.validStart)
    {
      && signedTransactions == Grid(chunks, first, nodeAccountIDs)
      && |transactionIDs| == |chunks|
      && forall c :: 0 <= c < |chunks| ==> ToProtobuf(transactionIDs[c]) == first.Later(c)
    }

    /** The ID in use, made up from the clock and the operator when there is none. */
    method InitTransactionID(client: Option<Client>) returns (ok: bool)
      requires Valid()
      modifies this`transactionIDs, this`idIndex, this`transactionID
      ensures Valid()
      ensures ok <==> old(transactionIDs) != [] || (client.Some? && client.value.operator.Some?)
      ensures !ok ==> unchanged(this)
      ensures ok ==> transactionIDs != [] && transactionID == Some(transactionIDs[idIndex])
      ensures old(transactionIDs) != [] ==> unchanged(`transactionIDs) && unchanged(`idIndex)
      // An ID made up is the operator's own.
      ensures ok && old(transactionIDs) == [] ==>
                && |transactionIDs| == 1 && fresh(transactionIDs[0].validStart)
                && transactionIDs[0].account == client.value.operator.value
                && !transactionIDs[0].scheduled && transactionIDs[0].nonce.None?
    {
      if |transactionIDs| == 0 {
        if client.None? || client.value.operator.None? {
          return false;
        }
        var now: int := *;
        var validStart := new Instant(now);
        idIndex := 0;
        transactionIDs := [TransactionID(client.value.operator.value, validStart, false, None)];
      }
      transactionID := Some(transactionIDs[idIndex]);
      ok := true;
    }

    /** One chunk signed for every node: a snapshot each. */
    method SignRow(chunk: seq<byte>, pb: IdValue)
      modifies this`signedTransactions
      ensures signedTransactions == old(signedTransactions) + Row(chunk, pb, nodeAccountIDs)
    {
      var j := 0;
      while j < |nodeAccountIDs|
        invariant 0 <= j <= |nodeAccountIDs|
        invariant signedTransactions == old(signedTransactions) + Row(chunk, pb, nodeAccountIDs[..j])
      {
        RowNext(chunk, pb, nodeAccountIDs, j);
        signedTransactions := signedTransactions + [Signed(chunk, pb, nodeAccountIDs[j])];
        j := j + 1;
      }
      TakeAll(nodeAccountIDs);
    }

    /** One turn of the outer loop: a deep copy of the ID, a row of bodies, and the ID's shared
        time moved on by a nanosecond. */
    method SignChunk(i: nat, next: TransactionID) returns (id: TransactionID)
      requires 0 <= i * chunkSize <= |contents| && chunkSize > 0
      modifies this`transactionIDs, this`signedTransactions, next.validStart
      ensures ToProtobuf(next) == old(ToProtobuf(next)).Later(1)
      ensures transactionIDs == old(transactionIDs) + [id] && fresh(id.validStart)
      ensures ToProtobuf(id) == old(ToProtobuf(next))
      ensures signedTransactions == old(signedTransactions)
                                    + Row(ChunkAt(contents, chunkSize, i), old(ToProtobuf(next)), nodeAccountIDs)
    {
      var start := i * chunkSize;
      var end := start + chunkSize;
      if end > |contents| {
        end := |contents|;
      }
      id := FromProtobuf(ToProtobuf(next));
      transactionIDs := transactionIDs + [id];
      SignRow(contents[start..end], ToProtobuf(next));
      next.validStart.nanos := next.validStart.nanos + 1;
    }

    /** The first `i` chunks are signed. */
    ghost predicate SignedSoFar(i: nat, first: IdValue, next: TransactionID)
      requires chunkSize > 0 && i <= ChunkCount(|contents|, chunkSize)
      reads this, next.validStart, (set t | t in transactionIDs :: t.validStart)
    {
      && ToProtobuf(next) == first.Later(i)
      && (forall c :: 0 <= c < |transactionIDs| ==> transactionIDs[c].validStart != next.validStart)
      && |transactionIDs| == i && (forall c :: 0 <= c < i ==> ToProtobuf(transactionIDs[c]) == first.Later(c))
      && signedTransactions == Grid(Chunks(contents, chunkSize, i), first, nodeAccountIDs)
    }

    method NextChunk(i: nat, ghost first: IdValue, next: TransactionID)
      returns (id: TransactionID)
      requires chunkSize > 0 && i < ChunkCount(|contents|, chunkSize) && SignedSoFar(i, first, next)
      modifies this`transactionIDs, this`signedTransactions, next.validStart
      ensures SignedSoFar(i + 1, first, next)
      ensures transactionIDs == old(transactionIDs) + [id] && fresh(id.validStart)
    {
      hide ChunkCount, Grid, Row, ChunkAt, Chunks;
      StartsInside(|contents|, chunkSize, i);
      GridNext(contents, chunkSize, i, first, nodeAccountIDs);
      id := SignChunk(i, next);
    }

    method SignChunks(chunks: nat, next: TransactionID) returns (ghost first: IdValue)
      requires Valid() && chunkSize > 0 && chunks == ChunkCount(|contents|, chunkSize)
      modifies this`transactionIDs, this`idIndex, this`signedTransactions, next.validStart
      ensures Valid() && first == old(ToProtobuf(next)) && ToProtobuf(next) == first.Later(chunks)
      ensures FrozenAs(AllChunks(contents, chunkSize), first) && idIndex == 0
      ensures forall t :: t in transactionIDs ==> fresh(t.validStart)
    {
      first := ToProtobuf(next);
      transactionIDs, idIndex := [], 0;
      signedTransactions := [];
      var i := 0;
      while i < chunks
        invariant 0 <= i <= chunks && idIndex == 0 && SignedSoFar(i, first, next)
        invariant forall t :: t in transactionIDs ==> fresh(t.validStart)
      {
        var _ := NextChunk(i, first, next);
        i := i + 1;
      }
    }

    /** Freezing twice changes nothing. Freezing empty contents signs nothing and drops the ID. The
        first body is signed under the ID the caller handed over, or else under one of the operator. */
    method FreezeWith(client: Option<Client>) returns (error: Option<AppendError>, ghost first: IdValue)
      requires Valid() && chunkSize > 0
      modifies this, set t | t in transactionIDs :: t.validStart
      ensures Valid() && contents == old(contents) && chunkSize == old(chunkSize) && maxChunks == old(maxChunks)
      ensures nodeIndex == old(nodeIndex)
      ensures old(IsFrozen()) ==>
                error.None? && unchanged(this) && forall t :: t in old(transactionIDs) ==> unchanged(t.validStart)
      ensures !old(IsFrozen()) ==>
                error == FreezeRefusal(client, old(nodeAccountIDs), old(transactionIDs), contents, chunkSize, maxChunks)
      ensures !old(IsFrozen()) && error.None? ==>
                && nodeAccountIDs == (if old(nodeAccountIDs) == [] then client.value.nodes else old(nodeAccountIDs))
                && FrozenAs(AllChunks(contents, chunkSize), first) && idIndex == 0
                && forall t :: t in transactionIDs ==> fresh(t.validStart)
      // The ID the caller handed over is the one that moved on.
      ensures !old(IsFrozen()) && error.None? ==>
                && transactionID.Some?
                && ToProtobuf(transactionID.value) == first.Later(ChunkCount(|contents|, chunkSize))
                && (old(transactionIDs) != [] ==>
                      && transactionID.value == old(transactionIDs[idIndex])
                      && SameId(first, old(transactionIDs[idIndex]), old(transactionIDs[idIndex].validStart.nanos)))
      ensures !old(IsFrozen()) && error.None? && old(transactionIDs) == [] ==>
                first.account == client.value.operator.value && !first.scheduled && first.nonce == 0
      // No other ID of the caller's moves; nor does any when freezing is refused, which signs nothing.
      ensures forall t ::
                t in old(transactionIDs) && (error.Some? || t.validStart != old(transactionIDs[idIndex].validStart)) ==>
                  unchanged(t.validStart)
      ensures error.Some? ==>
                && signedTransactions == old(signedTransactions)
                && (old(transactionIDs) != [] ==> transactionIDs == old(transactionIDs) && idIndex == old(idIndex))
    {
      hide FrozenAs, Chunks, ChunkCount, ToProtobuf, IdValue.Later;
      first := IdValue(0, 0, false, 0);
      if IsFrozen() {
        return None, first;
      }
      if |nodeAccountIDs| == 0 {
        if client.None? {
          return Some(NoClient), first;
        }
        nodeAccountIDs := client.value.nodes;
      }
      var ok := InitTransactionID(client);
      if !ok {
        return Some(NoTransactionID), first;
      }
      var chunks := ChunkCount(|contents|, chunkSize);
      if chunks > maxChunks {
        return Some(MaxChunksExceeded(chunks, maxChunks)), first;
      }
      WireForm(transactionIDs[idIndex]);
      first := SignChunks(chunks, transactionIDs[idIndex]);
      error := None;
    }

    /** Brings the body at `index` up to date with the current ID, then hands out the body at the
        list's own position, which never moves. */
    method BuildTransaction(index: nat) returns (tx: Signed)
      requires Valid() && index < |signedTransactions| && idIndex < |transactionIDs|
      modifies this`signedTransactions
      ensures signedTransactions
           == old(signedTransactions)[index := old(signedTransactions[index])
                                               .(id := ToProtobuf(transactionIDs[idIndex]))]
      ensures Valid() && tx == signedTransactions[0]
    {
      var signedTx := signedTransactions[index];
      signedTx := signedTx.(id := ToProtobuf(transactionIDs[idIndex]));
      signedTransactions := signedTransactions[index := signedTx];
      tx := signedTransactions[signedIndex];
    }

    lemma EntryUpToDate(chunks: seq<seq<byte>>, first: IdValue)
      requires Valid() && FrozenAs(chunks, first) && chunks != [] && nodeAccountIDs != []
      ensures |transactionIDs| == |chunks| && |nodeAccountIDs| * idIndex + nodeIndex < |signedTransactions|
      ensures signedTransactions[0] == Signed(chunks[0], first, nodeAccountIDs[0])
      ensures signedTransactions[|nodeAccountIDs| * idIndex + nodeIndex]
           == Signed(chunks[idIndex], ToProtobuf(transactionIDs[idIndex]), nodeAccountIDs[nodeIndex])
    {
      GridEntry(chunks, first, nodeAccountIDs, idIndex, nodeIndex);
      GridEntry(chunks, first, nodeAccountIDs, 0, 0);
      hide Grid;
    }

    /** The body looked up for a request belongs to the current ID and node, so bringing it up to
        date changes nothing; what is handed out is the first body all the same. */
    method MakeRequest(ghost chunks: seq<seq<byte>>, ghost first: IdValue) returns (tx: Signed)
      requires Valid() && FrozenAs(chunks, first) && chunks != [] && nodeAccountIDs != []
      modifies this`signedTransactions
      ensures signedTransactions == old(signedTransactions) && FrozenAs(chunks, first)
      ensures tx == Signed(chunks[0], first, nodeAccountIDs[0])
      // It is the body asked for only with the first ID and to the first node.
      ensures tx == Signed(chunks[idIndex], first.Later(idIndex), nodeAccountIDs[nodeIndex])
         <==> idIndex == 0 && nodeAccountIDs[nodeIndex] == nodeAccountIDs[0]
    {
      hide Grid;
      EntryUpToDate(chunks, first);
      tx := BuildTransaction(|nodeAccountIDs| * idIndex + nodeIndex);
    }

    /** A request to the current node, which is then passed over. */
    method ReachNode(ghost chunks: seq<seq<byte>>, ghost first: IdValue) returns (sent: Sent)
      requires Valid() && FrozenAs(chunks, first) && chunks != [] && nodeAccountIDs != []
      modifies this`signedTransactions, this`nodeIndex
      ensures Valid() && FrozenAs(chunks, first) && signedTransactions == old(signedTransactions)
      ensures nodeIndex == Around(old(nodeIndex), 1, |nodeAccountIDs|)
      ensures sent == Sent(Signed(chunks[0], first, nodeAccountIDs[0]), nodeAccountIDs[old(nodeIndex)])
    {
      hide Grid;
      var tx := MakeRequest(chunks, first);
      sent := Sent(tx, nodeAccountIDs[nodeIndex]);
      nodeIndex := (nodeIndex + 1) % |nodeAccountIDs|;
    }

    method ReachNodes(count: nat, ghost chunks: seq<seq<byte>>, ghost first: IdValue) returns (last: Option<Sent>)
      requires Valid() && FrozenAs(chunks, first) && chunks != [] && nodeAccountIDs != []
      modifies this`signedTransactions, this`nodeIndex
      ensures Valid() && FrozenAs(chunks, first) && signedTransactions == old(signedTransactions)
      ensures nodeIndex == Around(old(nodeIndex), count, |nodeAccountIDs|)
      ensures last == if count > 0
                      then Some(FirstBodyTo(chunks, first, Around(old(nodeIndex), count - 1, |nodeAccountIDs|)))
                      else None
    {
      hide Grid, ToProtobuf, FrozenAs, Around;
      last := None;
      AroundNone(nodeIndex, |nodeAccountIDs|);
      var k := 0;
      while k < count
        invariant 0 <= k <= count && Valid() && FrozenAs(chunks, first)
        invariant signedTransactions == old(signedTransactions)
        invariant nodeIndex == Around(old(nodeIndex), k, |nodeAccountIDs|)
        invariant last == if k > 0
                          then Some(FirstBodyTo(chunks, first, Around(old(nodeIndex), k - 1, |nodeAccountIDs|)))
                          else None
      {
        var sent := ReachNode(chunks, first);
        last := Some(sent);
        AroundNext(old(nodeIndex), k, |nodeAccountIDs|);
        k := k + 1;
      }
    }

    /** What every request is: the first chunk under the first ID naming the first node, whichever
        node it goes to. */
    ghost function FirstBodyTo(chunks: seq<seq<byte>>, first: IdValue, j: nat): Sent
      requires chunks != [] && j < |nodeAccountIDs|
      reads this`nodeAccountIDs
    {
      Sent(Signed(chunks[0], first, nodeAccountIDs[0]), nodeAccountIDs[j])
    }

    /** One chunk's requests: each node reached moves the node position on, and the node that takes
        the request moves the ID position on. */
    method SendChunk(run: ChunkRun, ghost chunks: seq<seq<byte>>, ghost first: IdValue) returns (sent: Option<Sent>)
      requires Valid() && FrozenAs(chunks, first) && chunks != [] && nodeAccountIDs != []
      modifies this`signedTransactions, this`nodeIndex, this`idIndex
      ensures Valid() && FrozenAs(chunks, first) && signedTransactions == old(signedTransactions)
      ensures nodeIndex == Around(old(nodeIndex), run.reached, |nodeAccountIDs|)
      ensures sent == if run.taken && run.reached > 0
                      then Some(FirstBodyTo(chunks, first, Around(old(nodeIndex), run.reached - 1, |nodeAccountIDs|)))
                      else None
      ensures idIndex == if sent.Some? then Around(old(idIndex), 1, |transactionIDs|) else old(idIndex)
    {
      hide Grid;
      sent := ReachNodes(run.reached, chunks, first);
      if !run.taken {
        sent := None;
      }
      if sent.Some? {
        idIndex := (idIndex + 1) % |transactionIDs|;
      }
    }

    lemma RequestsAreChunks(chunks: seq<seq<byte>>, first: IdValue)
      requires FrozenAs(chunks, first) && nodeAccountIDs != []
      ensures |signedTransactions| / |nodeAccountIDs| == |chunks| == |transactionIDs|
    {
      QuotientIsChunkCount(chunks, first, nodeAccountIDs);
    }

    /** Sends as many requests as there are chunks, stopping at the first that fails. Every one of
        them carries the first body; the nodes they go to go round the list. */
    method SendAll(runs: seq<ChunkRun>, ghost chunks: seq<seq<byte>>, ghost first: IdValue)
      returns (error: Option<AppendError>, sent: seq<Sent>)
      requires Valid() && FrozenAs(chunks, first) && chunks != [] && nodeAccountIDs != [] && |chunks| <= |runs|
      modifies this`signedTransactions, this`nodeIndex, this`idIndex
      ensures Valid() && FrozenAs(chunks, first)
      ensures |sent| <= |chunks| && SentRound(sent, runs, chunks, first, old(nodeIndex))
      ensures error.None? <==> forall i :: 0 <= i < |chunks| ==> Delivered(runs[i])
      ensures error.None? ==> |sent| == |chunks| && idIndex == old(idIndex)
      ensures error.Some? ==> error == Some(SendFailed) && exists i :: 0 <= i < |chunks| && StoppedAt(runs, i, |sent|)
    {
      hide FrozenAs, Grid, ToProtobuf, Around, Reached, Delivered, StoppedAt, SentRound;
      RequestsAreChunks(chunks, first);
      var size := |signedTransactions| / |nodeAccountIDs|;
      sent := [];
      var i := 0;
      AroundNone(idIndex, |transactionIDs|);
      AroundNone(nodeIndex, |nodeAccountIDs|);
      ReachedNone(runs);
      NoneSent(runs, chunks, first, nodeIndex);
      while i < size
        invariant 0 <= i <= size && |sent| == i && Valid() && FrozenAs(chunks, first)
        invariant idIndex == Around(old(idIndex), i, |transactionIDs|)
        invariant nodeIndex == Around(old(nodeIndex), Reached(runs, i), |nodeAccountIDs|)
        invariant SentRound(sent, runs, chunks, first, old(nodeIndex))
        invariant forall k :: 0 <= k < i ==> Delivered(runs[k])
      {
        var one := SendChunk(runs[i], chunks, first);
        ReachedNext(runs, i);
        AroundAdd(old(nodeIndex), Reached(runs, i), runs[i].reached, |nodeAccountIDs|);
        DeliveredWhen(runs[i]);
        if one.None? {
          StopsAt(runs, i, |sent|);
          return Some(SendFailed), sent;
        }
        AroundAdd(old(nodeIndex), Reached(runs, i), runs[i].reached - 1, |nodeAccountIDs|);
        OneMoreSent(sent, one.value, runs, chunks, first, old(nodeIndex));
        sent := sent + [one.value];
        if !runs[i].receiptOk {
          StopsAt(runs, i, |sent|);
          return Some(SendFailed), sent;
        }
        AroundNext(old(idIndex), i, |transactionIDs|);
        i := i + 1;
      }
      AroundAll(old(idIndex), |transactionIDs|);
      error := None;
    }

    /** Request `k` went to the node where the count of nodes reached so far ended. */
    ghost predicate SentInTurn(one: Sent, k: nat, runs: seq<ChunkRun>, chunks: seq<seq<byte>>, first: IdValue,
                               start: nat)
      requires chunks != [] && nodeAccountIDs != [] && k < |runs|
      reads this`nodeAccountIDs
    {
      && Reached(runs, k + 1) > 0
      && one == FirstBodyTo(chunks, first, Around(start, Reached(runs, k + 1) - 1, |nodeAccountIDs|))
    }

    ghost predicate SentRound(sent: seq<Sent>, runs: seq<ChunkRun>, chunks: seq<seq<byte>>, first: IdValue, start: nat)
      requires chunks != [] && nodeAccountIDs != [] && |sent| <= |runs|
      reads this`nodeAccountIDs
    {
      forall k :: 0 <= k < |sent| ==> SentInTurn(sent[k], k, runs, chunks, first, start)
    }

    lemma NoneSent(runs: seq<ChunkRun>, chunks: seq<seq<byte>>, first: IdValue, start: nat)
      requires chunks != [] && nodeAccountIDs != []
      ensures SentRound([], runs, chunks, first, start)
    {
    }

    lemma OneMoreSent(sent: seq<Sent>, one: Sent, runs: seq<ChunkRun>, chunks: seq<seq<byte>>, first: IdValue,
                      start: nat)
      requires chunks != [] && nodeAccountIDs != [] && |sent| < |runs| && SentRound(sent, runs, chunks, first, start)
      requires SentInTurn(one, |sent|, runs, chunks, first, start)
      ensures SentRound(sent + [one], runs, chunks, first, start)
    {
      hide SentInTurn;
    }

    lemma OneIdEach(chunks: seq<seq<byte>>, first: IdValue)
      requires FrozenAs(chunks, first)
      ensures |transactionIDs| == |chunks|
    {
    }

    lemma FrozenHasNodes(chunks: seq<seq<byte>>, first: IdValue)
      requires IsFrozen() && FrozenAs(chunks, first)
      ensures chunks != [] && nodeAccountIDs != []
    {
      assert |chunks| * |nodeAccountIDs| > 0;
    }

    lemma SentUnderFirst(sent: seq<Sent>, runs: seq<ChunkRun>, chunks: seq<seq<byte>>, first: IdValue, start: nat)
      requires chunks != [] && nodeAccountIDs != [] && |sent| <= |runs|
      requires SentRound(sent, runs, chunks, first, start)
      ensures forall k :: 0 <= k < |sent| ==>
                && sent[k].tx.id == first && sent[k].tx.node == nodeAccountIDs[0] && sent[k].to in nodeAccountIDs
    {
      hide Around, Reached;
    }

    /** A network that checks takes all requests of a run exactly when there is one chunk and the
        node that takes it is like the first. */
    lemma AcceptedRound(sent: seq<Sent>, runs: seq<ChunkRun>, chunks: seq<seq<byte>>, first: IdValue, start: nat)
      requires chunks != [] && nodeAccountIDs != [] && |sent| == |chunks| <= |runs|
      requires SentRound(sent, runs, chunks, first, start)
      ensures runs[0].reached > 0
      ensures Acceptable(sent) <==> |chunks| == 1 && TakenByLikeFirst(runs[0].reached, start)
    {
      assert SentInTurn(sent[0], 0, runs, chunks, first, start);
      assert Reached(runs, 1) == runs[0].reached;
      if |chunks| > 1 {
        assert SentInTurn(sent[1], 1, runs, chunks, first, start);
        assert sent[0].tx.id == sent[1].tx.id;
      }
    }

    /** The node that the first request ends at, when `reached` nodes are tried from `start` on. */
    ghost predicate TakenByLikeFirst(reached: nat, start: nat)
      requires nodeAccountIDs != [] && reached > 0
      reads this`nodeAccountIDs
    {
      nodeAccountIDs[Around(start, reached - 1, |nodeAccountIDs|)] == nodeAccountIDs[0]
    }

    /** The same of contents: they must fit one chunk, and then the file receives them. */
    lemma AcceptedExactlyWhen(sent: seq<Sent>, runs: seq<ChunkRun>, first: IdValue, start: nat)
      requires chunkSize > 0 && contents != [] && nodeAccountIDs != []
      requires |sent| == |AllChunks(contents, chunkSize)| <= |runs|
      requires AllChunks(contents, chunkSize) != []
      requires SentRound(sent, runs, AllChunks(contents, chunkSize), first, start)
      ensures runs[0].reached > 0
      ensures Acceptable(sent) <==> |contents| <= chunkSize && TakenByLikeFirst(runs[0].reached, start)
      ensures Acceptable(sent) ==> Appended(sent) == contents
    {
      var chunks := AllChunks(contents, chunkSize);
      AcceptedRound(sent, runs, chunks, first, start);
      CountBounds(|contents|, chunkSize);
      SentAlike(sent, runs, chunks, first, start);
      FileReceives(contents, chunkSize, sent);
      if |contents| <= chunkSize {
        OneChunk(contents, chunkSize);
      }
    }

    lemma SentAlike(sent: seq<Sent>, runs: seq<ChunkRun>, chunks: seq<seq<byte>>, first: IdValue, start: nat)
      requires chunks != [] && nodeAccountIDs != [] && 0 < |sent| <= |runs|
      requires SentRound(sent, runs, chunks, first, start)
      ensures sent[0].tx.contents == chunks[0] && forall i :: 0 <= i < |sent| ==> sent[i].tx == sent[0].tx
    {
    }

    /** Freezes when that has not happened, then sends. Without a node `ExecuteAll` divides by
        zero. */
    method ExecuteAll(client: Client, runs: seq<ChunkRun>, ghost frozen: seq<seq<byte>>, ghost frozenFirst: IdValue)
      returns (error: Option<AppendError>, sent: seq<Sent>, ghost first: IdValue)
      requires Valid() && chunkSize > 0 && client.operator.Some?
      requires nodeAccountIDs != [] || client.nodes != []
      requires IsFrozen() ==> FrozenAs(frozen, frozenFirst)
      requires if IsFrozen() then |runs| >= |frozen|
               else ChunkCount(|contents|, chunkSize) <= maxChunks ==> |runs| >= ChunkCount(|contents|, chunkSize)
      modifies this, set t | t in transactionIDs :: t.validStart
      ensures Valid() && contents == old(contents) && chunkSize == old(chunkSize)
      // Whatever is sent goes to the caller's nodes, or else the client's.
      ensures sent != [] ==>
                nodeAccountIDs == (if !old(IsFrozen()) && old(nodeAccountIDs) == [] then client.nodes
                                   else old(nodeAccountIDs))
      // It carries the first body, under the caller's ID or else one of the operator.
      ensures forall k :: 0 <= k < |sent| ==>
                && nodeAccountIDs != [] && sent[k].tx.id == first && sent[k].tx.node == nodeAccountIDs[0]
                && sent[k].to in nodeAccountIDs
      ensures sent != [] && old(IsFrozen()) ==> first == frozenFirst
      ensures sent != [] && !old(IsFrozen()) && old(transactionIDs) != [] ==>
                SameId(first, old(transactionIDs[idIndex]), old(transactionIDs[idIndex].validStart.nanos))
      ensures sent != [] && !old(IsFrozen()) && old(transactionIDs) == [] ==>
                first.account == client.operator.value && !first.scheduled && first.nonce == 0
      // Sending ends without an error exactly when nothing is refused and every chunk is delivered.
      ensures var refusal := if old(IsFrozen()) then None
                             else FreezeRefusal(Some(client), old(nodeAccountIDs), old(transactionIDs), contents,
                                                chunkSize, old(maxChunks));
              var chunks := if old(IsFrozen()) then frozen else AllChunks(contents, chunkSize);
              if refusal.Some? then error == refusal && sent == []
              else if chunks == [] then error == Some(EmptyIdList) && sent == []
              else
                && |chunks| <= |runs| && nodeAccountIDs != [] && |sent| <= |chunks|
                && SentRound(sent, runs, chunks, first, old(nodeIndex))
                && (error == None || error == Some(SendFailed))
                && (error == None <==> forall i :: 0 <= i < |chunks| ==> Delivered(runs[i]))
                && (error == None ==> |sent| == |chunks|)
                // A network that checks takes them all exactly so.
                && (error == None ==>
                      && runs[0].reached > 0
                      && (Acceptable(sent) <==> |chunks| == 1 && TakenByLikeFirst(runs[0].reached, old(nodeIndex))))
    {
      hide FrozenAs, Grid, ChunkCount, SentRound, Delivered, ToProtobuf, Chunks, Acceptable, TakenByLikeFirst;
      sent := [];
      first := frozenFirst;
      ghost var chunks := frozen;
      if IsFrozen() {
        FrozenHasNodes(frozen, frozenFirst);
      } else {
        error, first := FreezeWith(Some(client));
        if error.Some? {
          return;
        }
        chunks := AllChunks(contents, chunkSize);
      }
      OneIdEach(chunks, first);
      if |transactionIDs| == 0 {
        return Some(EmptyIdList), [], first;
      }
      error, sent := SendAll(runs, chunks, first);
      SentUnderFirst(sent, runs, chunks, first, old(nodeIndex));
      if error.None? {
        AcceptedRound(sent, runs, chunks, first, old(nodeIndex));
      }
    }
  }

  /** Nodes reached by the first `k` chunks. */
  function Reached(runs: seq<ChunkRun>, k: nat): nat
    requires k <= |runs|
  {
    if k == 0 then 0 else Reached(runs, k - 1) + runs[k - 1].reached
  }

  lemma ReachedNone(runs: seq<ChunkRun>)
    ensures Reached(runs, 0) == 0
  {
  }

  lemma ReachedNext(runs: seq<ChunkRun>, k: nat)
    requires k < |runs|
    ensures Reached(runs, k + 1) == Reached(runs, k) + runs[k].reached
  {
  }

  predicate Delivered(run: ChunkRun)
  {
    run.reached > 0 && run.taken && run.receiptOk
  }

  lemma DeliveredWhen(run: ChunkRun)
    ensures Delivered(run) <==> run.reached > 0 && run.taken && run.receiptOk
  {
  }

  /** The first run not to succeed is `i`; the node may have taken its request all the same. */
  predicate StoppedAt(runs: seq<ChunkRun>, i: nat, sent: nat)
    requires i < |runs|
  {
    && (forall k :: 0 <= k < i ==> Delivered(runs[k])) && !Delivered(runs[i])
    && sent == i + if runs[i].taken && runs[i].reached > 0 then 1 else 0
  }

  lemma StopsAt(runs: seq<ChunkRun>, i: nat, sent: nat)
    requires i < |runs| && (forall k :: 0 <= k < i ==> Delivered(runs[k])) && !Delivered(runs[i])
    requires sent == i + if runs[i].taken && runs[i].reached > 0 then 1 else 0
    ensures StoppedAt(runs, i, sent)
  {
  }

  lemma ModSmall(n: nat, m: nat)
    requires m > 0
    ensures n < m ==> n % m == n
  {
  }

  /** The position `k` places on, going round a list. */
  function Around(index: nat, k: nat, count: nat): (r: nat)
    requires count > 0
    ensures r < count
  {
    (index + k) % count
  }

  lemma AroundNone(index: nat, count: nat)
    requires index < count
    ensures Around(index, 0, count) == index
  {
    ModSmall(index, count);
  }

  lemma AroundNext(index: nat, k: nat, count: nat)
    requires count > 0
    ensures Around(Around(index, k, count), 1, count) == Around(index, k + 1, count)
  {
    ModNext(index + k, count);
  }

  lemma AroundAdd(index: nat, j: nat, k: nat, count: nat)
    requires count > 0
    ensures Around(Around(index, j, count), k, count) == Around(index, j + k, count)
  {
    ModOfSum(index + j, k, count);
  }

  lemma AroundAll(index: nat, count: nat)
    requires index < count
    ensures Around(index, count, count) == index
  {
    DivModUnique(index + count, count, 1, index);
  }

  function FreezeRefusal(client: Option<Client>, nodes: seq<int>, ids: seq<TransactionID>, contents: seq<byte>,
                         size: nat, maxChunks: nat): Option<AppendError>
    requires size > 0
  {
    if nodes == [] && client.None? then Some(NoClient)
    else if ids == [] && (client.None? || client.value.operator.None?) then Some(NoTransactionID)
    else if ChunkCount(|contents|, size) > maxChunks
    then Some(MaxChunksExceeded(ChunkCount(|contents|, size), maxChunks))
    else None
  }

  /** The reasons in the caller's terms. With a node list and an ID at hand, only more bytes than
      the chunks allowed can hold are refused. */
  lemma FreezesExactly(client: Option<Client>, nodes: seq<int>, ids: seq<TransactionID>, contents: seq<byte>,
                       size: nat, maxChunks: nat)
    requires size > 0
    ensures var refusal := FreezeRefusal(client, nodes, ids, contents, size, maxChunks);
            && (refusal == Some(NoClient) <==> nodes == [] && client == None)
            && (refusal == Some(NoTransactionID) <==>
                  ids == [] && (if client.None? then nodes != [] else client.value.operator == None))
            && (refusal.Some? && refusal.value.MaxChunksExceeded? ==>
                  refusal.value.max == maxChunks && |contents| <= refusal.value.chunks * size < |contents| + size)
            && (refusal == None <==>
                  && (nodes != [] || client.Some?) && (ids != [] || (client.Some? && client.value.operator.Some?))
                  && |contents| <= maxChunks * size)
  {
    var n := ChunkCount(|contents|, size);
    CountBounds(|contents|, size);
    hide ChunkCount;
    if n <= maxChunks {
      Multiples(n, maxChunks, size);
    } else {
      Below(maxChunks, n, size);
    }
  }

  lemma {:induction false} Multiples(m: nat, n: nat, size: nat)
    requires m <= n
    ensures m * size <= n * size
  {
    if m < n {
      Below(m, n, size);
    }
  }

  lemma RowNext(chunk: seq<byte>, id: IdValue, nodes: seq<int>, j: nat)
    requires j < |nodes|
    ensures Row(chunk, id, nodes[..j + 1]) == Row(chunk, id, nodes[..j]) + [Signed(chunk, id, nodes[j])]
  {
    assert nodes[..j + 1][..j] == nodes[..j];
  }

  lemma GridNext(contents: seq<byte>, size: nat, i: nat, first: IdValue, nodes: seq<int>)
    requires size > 0 && i < ChunkCount(|contents|, size) && i * size <= |contents|
    ensures Grid(Chunks(contents, size, i + 1), first, nodes)
         == Grid(Chunks(contents, size, i), first, nodes) + Row(ChunkAt(contents, size, i), first.Later(i), nodes)
  {
    var chunks := Chunks(contents, size, i + 1);
    assert chunks[..i] == Chunks(contents, size, i);
  }

  // ---------------------------------------------------------------- what reaches the file

  /** The same chunk `n` times over. */
  function Repeated(chunk: seq<byte>, n: nat): seq<byte>
  {
    if n == 0 then [] else Repeated(chunk, n - 1) + chunk
  }

  /** What a network that takes every request appends. */
  function Appended(sent: seq<Sent>): seq<byte>
  {
    if sent == [] then [] else Appended(sent[..|sent| - 1]) + sent[|sent| - 1].tx.contents
  }

  lemma {:induction false} AppendedIsRepeated(sent: seq<Sent>, tx: Signed)
    requires forall i :: 0 <= i < |sent| ==> sent[i].tx == tx
    ensures Appended(sent) == Repeated(tx.contents, |sent|)
  {
    if sent != [] {
      AppendedIsRepeated(sent[..|sent| - 1], tx);
    }
  }

  lemma {:induction false} RepeatedAt(chunk: seq<byte>, n: nat, k: nat)
    requires chunk != []
    ensures |Repeated(chunk, n)| == n * |chunk|
    ensures k < n * |chunk| ==> Repeated(chunk, n)[k] == chunk[k % |chunk|]
    decreases n
  {
    if n > 0 {
      RepeatedAt(chunk, n - 1, k);
      var before := (n - 1) * |chunk|;
      assert n * |chunk| == before + |chunk|;
      if before <= k < n * |chunk| {
        DivModUnique(k, |chunk|, n - 1, k - before);
      }
    }
  }

  /** One chunk suffices, or every chunk is full and the same as the next. */
  predicate AllChunksAlike(contents: seq<byte>, size: nat)
    requires size > 0
  {
    || |contents| <= size
    || (|contents| % size == 0 && forall k :: 0 <= k < |contents| - size ==> contents[k] == contents[k + size])
  }

  lemma {:induction false} PeriodicAt(contents: seq<byte>, size: nat, k: nat)
    requires 0 < size <= |contents| && k < |contents|
    requires forall i :: 0 <= i < |contents| - size ==> contents[i] == contents[i + size]
    ensures contents[k] == contents[k % size]
    decreases k
  {
    if k < size {
      ModSmall(k, size);
    } else {
      ModAgain(k - size, size);
      PeriodicAt(contents, size, k - size);
    }
  }

  lemma ModAgain(k: nat, size: nat)
    requires size > 0
    ensures (k + size) % size == k % size
  {
    DivModUnique(k + size, size, k / size + 1, k % size);
  }

  /** The body at the list's first position is the one for chunk `c` and node `j` only when that
      is the first chunk and a node like the first. */
  lemma RightBodyExactly(chunks: seq<seq<byte>>, first: IdValue, nodes: seq<int>, c: nat, j: nat)
    requires c < |chunks| && j < |nodes|
    ensures var grid := Grid(chunks, first, nodes);
            c * |nodes| + j < |grid| && (grid[0] == grid[c * |nodes| + j] <==> c == 0 && nodes[j] == nodes[0])
  {
    GridEntry(chunks, first, nodes, c, j);
    GridEntry(chunks, first, nodes, 0, 0);
  }

  /** With one chunk already, the second of two nodes is sent the body naming the first. */
  lemma WrongNode(chunk: seq<byte>, first: IdValue, a: int, b: int)
    requires a != b
    ensures var grid := Grid([chunk], first, [a, b]);
            |grid| == 2 && grid[1] == Signed(chunk, first, b) && grid[0] == Signed(chunk, first, a) != grid[1]
  {
    GridEntry([chunk], first, [a, b], 0, 0);
    GridEntry([chunk], first, [a, b], 0, 1);
  }

  /** If the network takes every request, the first chunk is appended over and over: the file
      receives its contents exactly when they fit one chunk or repeat with the chunk size. */
  lemma UploadedExactlyWhen(contents: seq<byte>, size: nat)
    requires size > 0 && contents != []
    ensures var chunks := AllChunks(contents, size);
            && chunks != []
            && (Repeated(chunks[0], |chunks|) == contents <==> AllChunksAlike(contents, size))
  {
    hide Chunks, Concat, Repeated, AllChunksAlike;
    var chunks := AllChunks(contents, size);
    ChunksTile(contents, size);
    ChunkEntry(contents, size, |chunks|, 0);
    CountBounds(|contents|, size);
    assert chunks[0] == if size > |contents| then contents else contents[..size];
    if |contents| <= size {
      OneChunk(contents, size);
      assert chunks[0] == contents;
    } else {
      ManyChunks(contents, size, chunks[0]);
    }
  }

  /** The same of the requests a successful run sends. */
  lemma FileReceives(contents: seq<byte>, size: nat, sent: seq<Sent>)
    requires size > 0 && contents != []
    requires |sent| == |AllChunks(contents, size)| > 0 && sent[0].tx.contents == AllChunks(contents, size)[0]
    requires forall i :: 0 <= i < |sent| ==> sent[i].tx == sent[0].tx
    ensures Appended(sent) == contents <==> AllChunksAlike(contents, size)
  {
    AppendedIsRepeated(sent, sent[0].tx);
    UploadedExactlyWhen(contents, size);
  }

  /** What a network that checks would take: no ID twice, and every body at the node it names. */
  predicate Acceptable(sent: seq<Sent>)
  {
    && (forall i, j :: 0 <= i < j < |sent| ==> sent[i].tx.id != sent[j].tx.id)
    && (forall i :: 0 <= i < |sent| ==> sent[i].tx.node == sent[i].to)
  }

  lemma OneChunk(contents: seq<byte>, size: nat)
    requires 0 < |contents| <= size
    ensures ChunkCount(|contents|, size) == 1
    ensures Repeated(contents, 1) == contents && AllChunksAlike(contents, size)
  {
    DivModUnique(|contents| + (size - 1), size, 1, |contents| - 1);
    assert Repeated(contents, 0) == [];
  }

  lemma ManyChunks(contents: seq<byte>, size: nat, chunk: seq<byte>)
    requires 0 < size < |contents| && chunk == contents[..size]
    ensures Repeated(chunk, ChunkCount(|contents|, size)) == contents <==> AllChunksAlike(contents, size)
  {
    var n := ChunkCount(|contents|, size);
    var r := Repeated(chunk, n);
    CountBounds(|contents|, size);
    RepeatedAt(chunk, n, 0);
    if r == contents {
      DivModUnique(|contents|, size, n, 0);
      forall k | 0 <= k < |contents| - size ensures contents[k] == contents[k + size] {
        RepeatedAt(chunk, n, k);
        RepeatedAt(chunk, n, k + size);
        ModAgain(k, size);
      }
    }
    if AllChunksAlike(contents, size) {
      WholeChunks(|contents|, size);
      forall k | 0 <= k < |contents| ensures r[k] == contents[k] {
        RepeatedAt(chunk, n, k);
        PeriodicAt(contents, size, k);
      }
    }
  }

  lemma WholeChunks(length: nat, size: nat)
    requires size > 0 && length % size == 0
    ensures ChunkCount(length, size) * size == length
  {
    DivModUnique(length + (size - 1), size, length / size, size - 1);
  }

  /** Two unlike bytes in chunks of one: the second never arrives. */
  lemma SecondChunkLost()
    ensures var contents: seq<byte> := [1, 2];
            var chunks := AllChunks(contents, 1);
            chunks != [] && Repeated(chunks[0], |chunks|) != contents
  {
    var contents: seq<byte> := [1, 2];
    UploadedExactlyWhen(contents, 1);
    assert contents[0] != contents[0 + 1];
  }
}

/** Creating a contract from bytecode of any size: what fits goes into the file's creation, the
    rest is appended. */
module ContractFlow {
  import opened Wrappers
  import opened Numerals
  import opened FileAppend

  const CREATE_BYTES: nat := 2048
  const MAX_CHUNKS: nat := 20

  class ContractCreateFlow {
    var bytecode: seq<byte>
    var nodeAccountIDs: seq<int>
    var createBytecode: seq<byte>
    var appendBytecode: seq<byte>

    constructor (bytecode: seq<byte>, nodeAccountIDs: seq<int>)
      ensures this.bytecode == bytecode && this.nodeAccountIDs == nodeAccountIDs
    {
      this.bytecode := bytecode;
      this.nodeAccountIDs := nodeAccountIDs;
      createBytecode, appendBytecode := [], [];
    }

    /** The two parts are the bytecode; the second is used only once the first is full. */
    method SplitBytecode()
      modifies this`createBytecode, this`appendBytecode
      ensures createBytecode + appendBytecode == bytecode
      ensures |createBytecode| <= CREATE_BYTES
      ensures appendBytecode != [] ==> |createBytecode| == CREATE_BYTES
    {
      if |bytecode| > CREATE_BYTES {
        createBytecode := bytecode[0..CREATE_BYTES];
        appendBytecode := bytecode[CREATE_BYTES..];
        return;
      }
      createBytecode := bytecode;
      appendBytecode := [];
    }

    /** An append of the second part with the default chunk size and limit. */
    method CreateFileAppendTransaction() returns (append: FileAppendTransaction)
      ensures fresh(append) && append.Valid() && !append.IsFrozen()
      ensures append.contents == appendBytecode && append.nodeAccountIDs == nodeAccountIDs
      ensures append.chunkSize == CREATE_BYTES && append.maxChunks == MAX_CHUNKS && append.transactionIDs == []
    {
      append := new FileAppendTransaction();
      append.contents := appendBytecode;
      if |nodeAccountIDs| > 0 {
        append.nodeAccountIDs := nodeAccountIDs;
      }
    }

    /** The file stages of the flow, with the bytes the file ends up with. `created` is what
        creating the file comes to: whether it, and the receipt naming the file, succeeded. A
        network that takes every request is assumed for the file's contents. */
    method UploadFile(client: Client, created: bool, runs: seq<ChunkRun>)
      returns (error: Option<FlowError>, file: seq<byte>)
      requires client.operator.Some? && (nodeAccountIDs != [] || client.nodes != [])
      requires |runs| >= MAX_CHUNKS
      modifies this`createBytecode, this`appendBytecode
      // The first reason, in order, for the stages to fail.
      ensures error == if !created then Some(NotCreated)
                       else if |bytecode| <= CREATE_BYTES then None
                       else if |bytecode| > CREATE_BYTES + MAX_CHUNKS * CREATE_BYTES then
                         Some(NotAppended(MaxChunksExceeded(AppendChunks(bytecode), MAX_CHUNKS)))
                       else if forall i :: 0 <= i < AppendChunks(bytecode) ==> Delivered(runs[i]) then None
                       else Some(NotAppended(SendFailed))
      ensures error.None? ==> (file == bytecode <==> UploadIntact(bytecode))
      ensures !created ==> file == []
      // What was created stays, even when appending fails: up to 2048 bytes.
      ensures created ==> bytecode[..if |bytecode| > 2048 then 2048 else |bytecode|] <= file
    {
      SplitBytecode();
      file := [];
      if !created {
        return Some(NotCreated), file;
      }
      file := createBytecode;
      if |appendBytecode| == 0 {
        return None, file;
      }
      assert appendBytecode == bytecode[CREATE_BYTES..];
      WithinLimit(bytecode);
      var append := CreateFileAppendTransaction();
      ghost var start := append.nodeIndex;
      var failed, sent;
      ghost var first;
      failed, sent, first := append.ExecuteAll(client, runs, [], IdValue(0, 0, false, 0));
      file := file + Appended(sent);
      if failed.Some? {
        return Some(NotAppended(failed.value)), file;
      }
      error := None;
      append.SentAlike(sent, runs, AllChunks(appendBytecode, CREATE_BYTES), first, start);
      FileReceives(appendBytecode, CREATE_BYTES, sent);
      Cancel(createBytecode, Appended(sent), appendBytecode);
    }
  }

  datatype FlowError = NotCreated | NotAppended(error: AppendError)

  function AppendChunks(bytecode: seq<byte>): nat
    requires |bytecode| > CREATE_BYTES
  {
    ChunkCount(|bytecode[CREATE_BYTES..]|, CREATE_BYTES)
  }

  /** What is left after the first part fits one append, or repeats with the chunk size. */
  predicate UploadIntact(bytecode: seq<byte>)
  {
    |bytecode| <= CREATE_BYTES || AllChunksAlike(bytecode[CREATE_BYTES..], CREATE_BYTES)
  }

  lemma Cancel(a: seq<byte>, x: seq<byte>, y: seq<byte>)
    ensures a + x == a + y <==> x == y
  {
    if a + x == a + y {
      assert (a + x)[|a|..] == x;
      assert (a + y)[|a|..] == y;
    }
  }

  /** The append stage stays within the chunk limit just for bytecode of up to 21 chunks' bytes. */
  lemma WithinLimit(bytecode: seq<byte>)
    requires |bytecode| > CREATE_BYTES
    ensures 0 < AppendChunks(bytecode)
    ensures AppendChunks(bytecode) <= MAX_CHUNKS
       <==> |bytecode| <= CREATE_BYTES + MAX_CHUNKS * CREATE_BYTES == 43_008
  {
    CountBounds(|bytecode[CREATE_BYTES..]|, CREATE_BYTES);
  }

  /** Cut, signed chunk by chunk and laid end to end, the two parts are the bytecode. */
  lemma SplitThenChunked(bytecode: seq<byte>, create: seq<byte>, append: seq<byte>)
    requires create + append == bytecode
    ensures create + Concat(AllChunks(append, CREATE_BYTES)) == bytecode
  {
    ChunksTile(append, CREATE_BYTES);
  }
}

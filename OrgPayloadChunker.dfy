/** The older chunker: a fixed padded layout with a 32-byte id and no cap on the
    number of chunks. Its slicing is the very same code as the newer chunker's,
    so the slices are `PayloadChunker.Slices`. */
module OrgPayloadChunker {
  import opened JavaLang
  import opened ChunkFactory
  import opened PayloadChunker

  /** `MESSAGE_ID_LENGTH`. */
  const MessageIdLength: nat := 32

  /** The fixed layout: the GELF magic and the padded sequence field. */
  const Padded: Factory := Factory(ChunkedGelfId, true)

  /** `createMessageId`, given the MD5 digest of host name and clock (an input
      here): the digest copied to 32 bytes. An MD5 digest has 16 bytes, so the id
      ends in 16 zero bytes. */
  function CreateMessageId(digest: seq<byte>): (id: seq<byte>)
    ensures |id| == MessageIdLength
    ensures |digest| == 16 ==> id[..16] == digest && id[16..] == Zeros(16)
  {
    CopyOf(digest, MessageIdLength)
  }

  /** `createChunk`: magic, id, `[0, seq, 0, count]`, slice. */
  function CreateChunk(messageId: seq<byte>, seqNum: byte, numChunks: byte, chunk: seq<byte>): (r: seq<byte>)
    ensures r == [0x1e, 0x0f] + messageId + [0, seqNum, 0, numChunks] + chunk
  {
    Create(Padded, messageId, seqNum, numChunks, chunk)
  }

  /** Every slice wrapped, chunk `i` numbered `(byte) i`, all with count `(byte) k`. */
  function AllChunks(messageId: seq<byte>, subPayloads: seq<seq<byte>>): seq<seq<byte>>
  {
    seq(|subPayloads|, i requires 0 <= i < |subPayloads| =>
      CreateChunk(messageId, ToByte(i), ToByte(|subPayloads|), subPayloads[i]))
  }

  lemma AllChunksStep(messageId: seq<byte>, subPayloads: seq<seq<byte>>, i: nat)
    requires i < |subPayloads|
    ensures AllChunks(messageId, subPayloads)[..i + 1]
         == AllChunks(messageId, subPayloads)[..i] + [CreateChunk(messageId, ToByte(i), ToByte(|subPayloads|), subPayloads[i])]
  {
    var spec := AllChunks(messageId, subPayloads);
    PrefixSnoc(spec, i);
    assert spec[i] == CreateChunk(messageId, ToByte(i), ToByte(|subPayloads|), subPayloads[i]);
  }

  /** `createChunks`: a `byte` counter that wraps past 127 and no cut-off. */
  method CreateChunks(messageId: seq<byte>, subPayloads: seq<seq<byte>>) returns (chunks: seq<seq<byte>>)
    ensures chunks == AllChunks(messageId, subPayloads)
  {
    chunks := [];
    var seqNum := 0;
    var i := 0;
    while i < |subPayloads|
      invariant 0 <= i <= |subPayloads|
      invariant seqNum == JavaByte(i)
      invariant chunks == AllChunks(messageId, subPayloads)[..i]
    {
      AllChunksStep(messageId, subPayloads, i);
      chunks := chunks + [CreateChunk(messageId, ToByte(seqNum), ToByte(|subPayloads|), subPayloads[i])];
      IncByteStep(i);
      seqNum := IncByte(seqNum);
      i := i + 1;
    }
    assert chunks == AllChunks(messageId, subPayloads)[..|subPayloads|];
  }

  /** The id and chunk list of `go`, for a given digest, under a positive threshold. */
  function GoOutput(payloadThreshold: int, payload: seq<byte>, digest: seq<byte>): seq<seq<byte>>
    requires payloadThreshold > 0
  {
    AllChunks(CreateMessageId(digest), Slices(payload, payloadThreshold))
  }

  /** What `go` returns for any threshold, `None` when `splitPayload` throws. */
  function GoOutcome(payloadThreshold: int, payload: seq<byte>, digest: seq<byte>): Option<seq<seq<byte>>>
  {
    match SplitOutcome(payload, payloadThreshold)
    case None => None
    case Some(s) => Some(AllChunks(CreateMessageId(digest), s))
  }

  /** `go`: one id, every slice chunked. */
  method Go(payloadThreshold: int, payload: seq<byte>, digest: seq<byte>) returns (chunks: Option<seq<seq<byte>>>)
    ensures chunks == GoOutcome(payloadThreshold, payload, digest)
  {
    var messageId := CreateMessageId(digest);
    var subPayloads := SplitPayload(payload, payloadThreshold);
    if subPayloads.None? {
      return None;
    }
    var created := CreateChunks(messageId, subPayloads.value);
    chunks := Some(created);
  }

  /** A positive threshold never throws and gives the chunks of every slice; a
      negative one that divides the length gives no chunk; any other threshold
      (zero, or negative and not dividing the length) throws. */
  lemma GoOutcomeCases(payloadThreshold: int, payload: seq<byte>, digest: seq<byte>)
    ensures payloadThreshold > 0 ==>
      GoOutcome(payloadThreshold, payload, digest) == Some(GoOutput(payloadThreshold, payload, digest))
    ensures payloadThreshold <= 0 ==>
      GoOutcome(payloadThreshold, payload, digest)
        == (if payloadThreshold < 0 && |payload| % -payloadThreshold == 0 then Some([]) else None)
  {
    if payloadThreshold <= 0 {
      SplitNonPositive(payload, payloadThreshold);
      assert AllChunks(CreateMessageId(digest), []) == [];
    }
  }

  /** Without a cap nothing is dropped: one chunk per slice, each a 38-byte header
      and one threshold of bytes, and chunk `i` decodes to the shared id, sequence
      number `(byte) i`, count `(byte) k` and slice `i`. */
  lemma GoChunks(payloadThreshold: int, payload: seq<byte>, digest: seq<byte>)
    requires payloadThreshold > 0
    ensures var chunks := GoOutput(payloadThreshold, payload, digest);
      var k := NumSlices(|payload|, payloadThreshold);
      |chunks| == k
      && (forall i :: 0 <= i < k ==> |chunks[i]| == 38 + payloadThreshold)
      && (forall i :: 0 <= i < k ==>
            Parse(Padded, MessageIdLength, chunks[i])
              == Some(ChunkFields(CreateMessageId(digest), ToByte(i), ToByte(k), Slices(payload, payloadThreshold)[i])))
  {
    var id := CreateMessageId(digest);
    var s := Slices(payload, payloadThreshold);
    SlicesShape(payload, payloadThreshold);
    forall i | 0 <= i < |s|
      ensures Parse(Padded, MessageIdLength, AllChunks(id, s)[i]) == Some(ChunkFields(id, ToByte(i), ToByte(|s|), s[i]))
    {
      ParseCreate(Padded, id, ToByte(i), ToByte(|s|), s[i]);
    }
  }

  /** The uncapped list is the newer chunker's list with a cap it never reaches. */
  lemma AllChunksIsUncapped(messageId: seq<byte>, subPayloads: seq<seq<byte>>)
    ensures AllChunks(messageId, subPayloads) == Chunks(Padded, messageId, subPayloads, 128)
  {
  }

  /** The sequence byte wraps: chunk 256 is numbered 0 again, chunk 128 carries 0x80. */
  lemma SeqNumWraps(messageId: seq<byte>, subPayloads: seq<seq<byte>>)
    requires |messageId| == MessageIdLength && |subPayloads| > 256
    ensures var chunks := AllChunks(messageId, subPayloads);
      chunks[128][35] == 0x80 && chunks[256][35] == 0 && chunks[0][35] == 0
  {
    var chunks := AllChunks(messageId, subPayloads);
    assert chunks[128] == [0x1e, 0x0f] + messageId + [0, ToByte(128), 0, ToByte(|subPayloads|)] + subPayloads[128];
    assert chunks[256] == [0x1e, 0x0f] + messageId + [0, ToByte(256), 0, ToByte(|subPayloads|)] + subPayloads[256];
  }
}

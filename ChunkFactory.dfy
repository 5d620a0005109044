/** GELF chunk framing: one chunk is the chunk magic, the message id, the
    sequence-number / sequence-count field and a slice of the payload. The
    magic and the padding choice are fixed when the factory is built; the
    padded field `[0, seq, 0, count]` is the older server's layout, the
    unpadded `[seq, count]` the newer one. */
module ChunkFactory {
  import opened JavaLang

  /** The two bytes every GELF chunk starts with. */
  const ChunkedGelfId: seq<byte> := [0x1e, 0x0f]

  /** A factory as constructed: the magic bytes and whether to pad the seq field. */
  datatype Factory = Factory(chunkedGelfId: seq<byte>, padSeq: bool)

  /** Width of the sequence-number / sequence-count field. */
  function SeqWidth(padSeq: bool): nat
  {
    if padSeq then 4 else 2
  }

  /** Number of header bytes before the payload slice. */
  function HeaderLength(f: Factory, idLength: nat): nat
  {
    |f.chunkedGelfId| + idLength + SeqWidth(f.padSeq)
  }

  /** The sequence field: the sequence number sits in the middle, the count last,
      and the padded form puts a zero byte before each. */
  function SeqNumbers(f: Factory, seqNum: byte, numChunks: byte): (r: seq<byte>)
    ensures |r| == SeqWidth(f.padSeq)
    ensures r[|r| / 2 - 1] == seqNum && r[|r| - 1] == numChunks
    ensures f.padSeq ==> r[0] == 0 && r[2] == 0
  {
    if f.padSeq then [0x00, seqNum, 0x00, numChunks] else [seqNum, numChunks]
  }

  /** `concatArrays`: `Arrays.copyOf(array1, |array1| + |array2|)`, then `array2`
      copied over the zero tail. The inputs are values, so nothing is destroyed. */
  function ConcatArrays(first: seq<byte>, second: seq<byte>): (r: seq<byte>)
    ensures r == first + second
  {
    var finalArray := CopyOf(first, |second| + |first|);
    finalArray[..|first|] + second
  }

  /** `create`: the complete chunk wrapping `subPayload`. */
  function Create(f: Factory, messageId: seq<byte>, seqNum: byte, numChunks: byte, subPayload: seq<byte>): (r: seq<byte>)
    ensures r == f.chunkedGelfId + messageId + SeqNumbers(f, seqNum, numChunks) + subPayload
    ensures |r| == HeaderLength(f, |messageId|) + |subPayload|
    ensures r[HeaderLength(f, |messageId|)..] == subPayload
  {
    ConcatArrays(ConcatArrays(ConcatArrays(f.chunkedGelfId, messageId), SeqNumbers(f, seqNum, numChunks)), subPayload)
  }

  /** What a collector reads back out of one chunk. */
  datatype ChunkFields = ChunkFields(messageId: seq<byte>, seqNum: byte, numChunks: byte, body: seq<byte>)

  /** Reading a chunk with a known id length: the reference decoder for `Create`.
      A chunk that is too short, has the wrong magic or non-zero padding is refused. */
  function Parse(f: Factory, idLength: nat, chunk: seq<byte>): Option<ChunkFields>
  {
    var m := |f.chunkedGelfId|;
    var h := HeaderLength(f, idLength);
    if |chunk| < h || chunk[..m] != f.chunkedGelfId then None
    else
      var field := chunk[m + idLength..h];
      if f.padSeq && (field[0] != 0 || field[2] != 0) then None
      else Some(ChunkFields(chunk[m..m + idLength], field[|field| / 2 - 1], field[|field| - 1], chunk[h..]))
  }

  /** Decoding a chunk built by `Create` gives back every argument. */
  lemma ParseCreate(f: Factory, messageId: seq<byte>, seqNum: byte, numChunks: byte, subPayload: seq<byte>)
    ensures Parse(f, |messageId|, Create(f, messageId, seqNum, numChunks, subPayload))
         == Some(ChunkFields(messageId, seqNum, numChunks, subPayload))
  {
    var r := Create(f, messageId, seqNum, numChunks, subPayload);
    var m := |f.chunkedGelfId|;
    var h := HeaderLength(f, |messageId|);
    assert r[..m] == f.chunkedGelfId;
    assert r[m..m + |messageId|] == messageId;
    assert r[m + |messageId|..h] == SeqNumbers(f, seqNum, numChunks);
  }

  /** Conversely, every chunk the decoder accepts is exactly the chunk `Create` builds
      from the decoded fields. */
  lemma CreateParse(f: Factory, idLength: nat, chunk: seq<byte>)
    requires Parse(f, idLength, chunk).Some?
    ensures var c := Parse(f, idLength, chunk).value;
      |c.messageId| == idLength && Create(f, c.messageId, c.seqNum, c.numChunks, c.body) == chunk
  {
    var c := Parse(f, idLength, chunk).value;
    var m := |f.chunkedGelfId|;
    var h := HeaderLength(f, idLength);
    var field := chunk[m + idLength..h];
    assert SeqNumbers(f, c.seqNum, c.numChunks) == field;
    assert chunk == chunk[..m] + chunk[m..m + idLength] + field + chunk[h..];
  }

  /** With the padded layout, the two magic bytes and an 8-byte id, the sequence
      number is byte 11 and the count byte 13 of a 14-byte header. */
  lemma PaddedOffsets(messageId: seq<byte>, seqNum: byte, numChunks: byte, subPayload: seq<byte>)
    requires |messageId| == 8
    ensures var r := Create(Factory(ChunkedGelfId, true), messageId, seqNum, numChunks, subPayload);
      |r| == 14 + |subPayload| && r[0] == 0x1e && r[1] == 0x0f && r[2..10] == messageId
      && r[10] == 0 && r[11] == seqNum && r[12] == 0 && r[13] == numChunks
  {
    var r := Create(Factory(ChunkedGelfId, true), messageId, seqNum, numChunks, subPayload);
    assert r[2..10] == messageId;
  }

  /** With the unpadded layout and an 8-byte id the header is 12 bytes: the
      sequence number is byte 10 and the count byte 11. */
  lemma UnpaddedOffsets(messageId: seq<byte>, seqNum: byte, numChunks: byte, subPayload: seq<byte>)
    requires |messageId| == 8
    ensures var r := Create(Factory(ChunkedGelfId, false), messageId, seqNum, numChunks, subPayload);
      |r| == 12 + |subPayload| && r[0] == 0x1e && r[1] == 0x0f && r[..2] == ChunkedGelfId && r[2..10] == messageId
      && r[10] == seqNum && r[11] == numChunks
  {
    var r := Create(Factory(ChunkedGelfId, false), messageId, seqNum, numChunks, subPayload);
    assert r[..2] == ChunkedGelfId;
    assert r[2..10] == messageId;
  }

  /** The 32-byte id of the older layout puts the sequence number at byte 35 and the
      count at byte 37 of a 38-byte header. */
  lemma PaddedOffsets32(messageId: seq<byte>, seqNum: byte, numChunks: byte, subPayload: seq<byte>)
    requires |messageId| == 32
    ensures var r := Create(Factory(ChunkedGelfId, true), messageId, seqNum, numChunks, subPayload);
      |r| == 38 + |subPayload| && r[..2] == ChunkedGelfId && r[2..34] == messageId
      && r[34] == 0 && r[35] == seqNum && r[36] == 0 && r[37] == numChunks && r[38..] == subPayload
  {
    var r := Create(Factory(ChunkedGelfId, true), messageId, seqNum, numChunks, subPayload);
    assert r[..2] == ChunkedGelfId;
    assert r[2..34] == messageId;
  }
}

/** What the streaming chunking writer puts on the wire for one message, as a
    function of the bytes written since the last flush. A short message is one
    datagram holding the bytes themselves; a longer one is cut into blocks of
    `maxPacketSize - 12` bytes, each sent behind a 12-byte unpadded chunk
    header; a message that needs more than 128 chunks is dropped whole. */
module StreamFormat {
  import opened JavaLang
  import opened ChunkFactory

  /** `MAX_CHUNKS`: the most chunks a GELF message may have. */
  const MaxChunks: nat := 128

  /** `MESSAGE_ID_LENGTH` of the writer. */
  const StreamIdLength: nat := 8

  /** Magic, 8-byte id, sequence number and sequence count. */
  const HeaderSize: nat := 12

  /** `SEQ_COUNT_POSITION`: the count slot follows the magic, the id and the number. */
  const SeqCountPosition: nat := 11

  /** The writer's chunk layout: GELF magic and the unpadded `[seq, count]` field. */
  const Unpadded: Factory := Factory(ChunkedGelfId, false)

  /** `s` cut into blocks of `b` bytes; only the last may be shorter. */
  function Blocks(s: seq<byte>, b: nat): seq<seq<byte>>
    requires b > 0
    decreases |s|
  {
    if |s| <= b then [s] else [s[..b]] + Blocks(s[b..], b)
  }

  /** The blocks join back to `s`. */
  lemma {:induction false} BlocksFlatten(s: seq<byte>, b: nat)
    requires b > 0
    ensures Flatten(Blocks(s, b)) == s
    decreases |s|
  {
    var r := Blocks(s, b);
    if |s| <= b {
      assert r[1..] == [];
    } else {
      BlocksFlatten(s[b..], b);
      assert r[1..] == Blocks(s[b..], b);
      assert s[..b] + s[b..] == s;
    }
  }

  /** All blocks are `b` bytes long except the last, which holds between 1 and `b`
      bytes (for a non-empty `s`). */
  lemma {:induction false} BlocksLengths(s: seq<byte>, b: nat)
    requires b > 0 && s != []
    ensures var r := Blocks(s, b);
      (forall j :: 0 <= j < |r| - 1 ==> |r[j]| == b) && 1 <= |r[|r| - 1]| <= b
    decreases |s|
  {
    var r := Blocks(s, b);
    if |s| > b {
      BlocksLengths(s[b..], b);
      var r' := Blocks(s[b..], b);
      assert r == [s[..b]] + r';
      forall j | 1 <= j < |r| - 1
        ensures |r[j]| == b
      {
        assert r[j] == r'[j - 1];
      }
    }
  }

  /** There are `ceil(|s| / b)` blocks of a non-empty `s`. */
  lemma {:induction false} BlocksCount(s: seq<byte>, b: nat)
    requires b > 0 && s != []
    ensures (|Blocks(s, b)| - 1) * b < |s| <= |Blocks(s, b)| * b
    decreases |s|
  {
    if |s| > b {
      BlocksCount(s[b..], b);
      var k' := |Blocks(s[b..], b)|;
      assert |Blocks(s, b)| == k' + 1;
      assert (k' + 1) * b == k' * b + b;
    }
  }

  /** Conversely a list of blocks of that shape that joins to `s` IS `Blocks(s, b)`. */
  lemma {:induction false} BlocksUnique(bodies: seq<seq<byte>>, s: seq<byte>, b: nat)
    requires b > 0 && bodies != [] && Flatten(bodies) == s
    requires forall j :: 0 <= j < |bodies| - 1 ==> |bodies[j]| == b
    requires 1 <= |bodies[|bodies| - 1]| <= b
    ensures bodies == Blocks(s, b)
    decreases |bodies|
  {
    if |bodies| == 1 {
      assert bodies[1..] == [];
      assert Flatten(bodies[1..]) == [];
      assert Flatten(bodies) == bodies[0] + Flatten(bodies[1..]);
      assert bodies == [bodies[0]] && bodies[0] == s;
    } else {
      var rest := bodies[1..];
      assert Flatten(bodies) == bodies[0] + Flatten(rest);
      assert |bodies[0]| == b;
      FlattenLength(rest);
      assert |Flatten(rest)| >= |rest[|rest| - 1]| >= 1;
      assert s[..b] == bodies[0] && s[b..] == Flatten(rest);
      forall j | 0 <= j < |rest| - 1
        ensures |rest[j]| == b
      {
        assert rest[j] == bodies[j + 1];
      }
      BlocksUnique(rest, s[b..], b);
    }
  }

  /** The joined length is at least the length of the last piece. */
  lemma {:induction false} FlattenLength(s: seq<seq<byte>>)
    requires s != []
    ensures |Flatten(s)| >= |s[|s| - 1]|
    decreases |s|
  {
    if |s| > 1 {
      FlattenLength(s[1..]);
      assert s[1..][|s[1..]| - 1] == s[|s| - 1];
    }
  }

  /** The datagrams of a chunked message: block `i` behind the header carrying
      sequence number `(byte) i` and count `(byte) k`. */
  function ChunkDatagrams(s: seq<byte>, messageId: seq<byte>, b: nat): seq<seq<byte>>
    requires b > 0
  {
    var blocks := Blocks(s, b);
    seq(|blocks|, i requires 0 <= i < |blocks| => Create(Unpadded, messageId, ToByte(i), ToByte(|blocks|), blocks[i]))
  }

  /** What one flush sends for the bytes `s` written since the last flush. */
  function Datagrams(s: seq<byte>, messageId: seq<byte>, maxPacketSize: int): seq<seq<byte>>
    requires maxPacketSize > HeaderSize
  {
    if |s| == 0 then []
    else if |s| <= maxPacketSize then [s]
    else if |s| > MaxChunks * (maxPacketSize - HeaderSize) then []
    else ChunkDatagrams(s, messageId, maxPacketSize - HeaderSize)
  }

  /** A message longer than one datagram but within 128 chunks is chunked. */
  lemma DatagramsAreChunks(s: seq<byte>, messageId: seq<byte>, maxPacketSize: int)
    requires maxPacketSize > HeaderSize
    requires maxPacketSize < |s| <= MaxChunks * (maxPacketSize - HeaderSize)
    ensures Datagrams(s, messageId, maxPacketSize) == ChunkDatagrams(s, messageId, maxPacketSize - HeaderSize)
  {
  }

  /** Nothing written, nothing sent; up to `maxPacketSize` bytes go out as one
      datagram holding exactly those bytes in order; more than 128 chunks' worth is
      dropped entirely. */
  lemma DatagramsUnchunked(s: seq<byte>, messageId: seq<byte>, maxPacketSize: int)
    requires maxPacketSize > HeaderSize
    ensures s == [] ==> Datagrams(s, messageId, maxPacketSize) == []
    ensures 0 < |s| <= maxPacketSize ==> Datagrams(s, messageId, maxPacketSize) == [s]
    ensures |s| > MaxChunks * (maxPacketSize - HeaderSize) ==> Datagrams(s, messageId, maxPacketSize) == []
  {
  }

  /** A chunked message is 2 to 128 datagrams of block `i` behind its header; all
      but the last are exactly `maxPacketSize` bytes and the last is a header and
      at least one byte more; the blocks joined in send order are exactly the
      bytes written. */
  lemma DatagramsChunkedShape(s: seq<byte>, messageId: seq<byte>, maxPacketSize: int)
    requires maxPacketSize > HeaderSize && |messageId| == StreamIdLength
    requires maxPacketSize < |s| <= MaxChunks * (maxPacketSize - HeaderSize)
    ensures var out := Datagrams(s, messageId, maxPacketSize);
      out == ChunkDatagrams(s, messageId, maxPacketSize - HeaderSize)
      && 2 <= |out| <= MaxChunks
      && (forall i :: 0 <= i < |out| - 1 ==> |out[i]| == maxPacketSize)
      && HeaderSize < |out[|out| - 1]| <= maxPacketSize
      && Flatten(Blocks(s, maxPacketSize - HeaderSize)) == s
  {
    var b := maxPacketSize - HeaderSize;
    DatagramsAreChunks(s, messageId, maxPacketSize);
    BlocksFlatten(s, b);
    BlocksLengths(s, b);
    ChunkedCount(s, b);
  }

  /** Datagram `i` of a chunked message decodes to the message id, sequence number
      `i`, the datagram count and block `i`. */
  lemma DatagramsChunked(s: seq<byte>, messageId: seq<byte>, maxPacketSize: int)
    requires maxPacketSize > HeaderSize && |messageId| == StreamIdLength
    requires maxPacketSize < |s| <= MaxChunks * (maxPacketSize - HeaderSize)
    ensures var out, blocks := Datagrams(s, messageId, maxPacketSize), Blocks(s, maxPacketSize - HeaderSize);
      |out| == |blocks|
      && forall i :: 0 <= i < |out| ==>
           Parse(Unpadded, StreamIdLength, out[i]) == Some(ChunkFields(messageId, ToByte(i), ToByte(|out|), blocks[i]))
  {
    var b := maxPacketSize - HeaderSize;
    var blocks := Blocks(s, b);
    var out := Datagrams(s, messageId, maxPacketSize);
    DatagramsAreChunks(s, messageId, maxPacketSize);
    assert |out| == |blocks|;
    forall i | 0 <= i < |out|
      ensures Parse(Unpadded, StreamIdLength, out[i]) == Some(ChunkFields(messageId, ToByte(i), ToByte(|out|), blocks[i]))
    {
      var d := Create(Unpadded, messageId, ToByte(i), ToByte(|out|), blocks[i]);
      assert out[i] == d;
      ParseCreate(Unpadded, messageId, ToByte(i), ToByte(|out|), blocks[i]);
    }
  }

  /** In datagram `i` of a chunked message the magic is at offsets 0-1, the number
      `(byte) i` at 10 and the count at 11. */
  lemma DatagramsChunkedOffsets(s: seq<byte>, messageId: seq<byte>, maxPacketSize: int)
    requires maxPacketSize > HeaderSize && |messageId| == StreamIdLength
    requires maxPacketSize < |s| <= MaxChunks * (maxPacketSize - HeaderSize)
    ensures var out := Datagrams(s, messageId, maxPacketSize);
      forall i :: 0 <= i < |out| ==>
        |out[i]| > SeqCountPosition && out[i][..2] == ChunkedGelfId && out[i][10] == ToByte(i) && out[i][SeqCountPosition] == ToByte(|out|)
  {
    var b := maxPacketSize - HeaderSize;
    var blocks := Blocks(s, b);
    var out := Datagrams(s, messageId, maxPacketSize);
    DatagramsAreChunks(s, messageId, maxPacketSize);
    assert |out| == |blocks|;
    forall i | 0 <= i < |out|
      ensures |out[i]| > SeqCountPosition && out[i][..2] == ChunkedGelfId && out[i][10] == ToByte(i) && out[i][SeqCountPosition] == ToByte(|out|)
    {
      var d := Create(Unpadded, messageId, ToByte(i), ToByte(|out|), blocks[i]);
      assert out[i] == d;
      UnpaddedOffsets(messageId, ToByte(i), ToByte(|out|), blocks[i]);
    }
  }

  /** A message longer than one block but within 128 of them has 2 to 128 blocks. */
  lemma ChunkedCount(s: seq<byte>, b: nat)
    requires b > 0 && b < |s| <= MaxChunks * b
    ensures 2 <= |Blocks(s, b)| <= MaxChunks
  {
    BlocksCount(s, b);
    var k := |Blocks(s, b)|;
    if k < 2 {
      MulMono(k, 1, b);
    }
    if k > MaxChunks {
      MulMono(MaxChunks, k - 1, b);
    }
  }
}

/** The streaming writer: bytes go into `packetBytes` until it is full; the next
    byte switches to chunk mode, fetches one message id and replays the buffered
    bytes into the rows of `chunks`, each row a 12-byte header and up to
    `maxPacketSize - 12` bytes of the message. A flush back-fills the chunk count
    and sends, or sends the buffer as one datagram, and always resets. The
    socket is the ghost list `sent`; the id provider and the socket failure are
    arguments. */
module ChunkingStream {
  import opened JavaLang
  import opened ChunkFactory
  import opened StreamFormat

  class GelfChunkingOutputStream {
    const maxPacketSize: int
    const packetBytes: array<byte>
    const chunks: array2<byte>

    var chunkIndex: int
    var position: int
    var chunked: bool
    var maxChunksReached: bool
    var messageID: seq<byte>

    /** The bytes written since the last flush (including ignored ones). */
    ghost var written: seq<byte>
    /** The message bytes held by each begun chunk row, in row order. */
    ghost var bodies: seq<seq<byte>>
    /** Every datagram handed to the socket, in order. */
    ghost var sent: seq<seq<byte>>
    /** How many ids were fetched from the id provider. */
    ghost var idsFetched: nat

    ghost predicate Shape()
    {
      maxPacketSize > HeaderSize && packetBytes.Length == maxPacketSize
      && chunks.Length0 == MaxChunks && chunks.Length1 == maxPacketSize
    }

    /** Row `j` starts with the magic, the id and the number `(byte) j`, and holds
        `body` after the 12-byte header. The count slot (byte 11) is left open. */
    ghost predicate RowHolds(j: int, body: seq<byte>)
      reads this, chunks
      requires Shape() && 0 <= j < MaxChunks
    {
      |messageID| == StreamIdLength && HeaderSize + |body| <= maxPacketSize
      && chunks[j, 0] == 0x1e && chunks[j, 1] == 0x0f
      && (forall k :: 0 <= k < StreamIdLength ==> chunks[j, 2 + k] == messageID[k])
      && chunks[j, 10] == ToByte(j)
      && (forall k :: 0 <= k < |body| ==> chunks[j, HeaderSize + k] == body[k])
    }

    /** Chunk mode holding the stream `s`: `chunkIndex` is the row being filled
        (-1 right after the switch), `position` the next column, every row before it
        full, every begun row holding its header and its body, and the current row
        holding at least one byte. */
    ghost predicate Chunking(s: seq<byte>)
      reads this, chunks
    {
      Open(s) && (chunkIndex >= 0 ==> HeaderSize < position)
    }

    /** `Chunking`, except that the current row may have just its header. */
    ghost predicate Open(s: seq<byte>)
      reads this, chunks
    {
      Layout(s) && RowsHold()
    }

    /** The bookkeeping half of `Chunking`, which does not look at the rows. */
    ghost predicate Layout(s: seq<byte>)
      reads this
    {
      Shape() && chunked && !maxChunksReached && |messageID| == StreamIdLength
      && -1 <= chunkIndex < MaxChunks && |bodies| == chunkIndex + 1
      && (chunkIndex == -1 ==> position == maxPacketSize)
      && (chunkIndex >= 0 ==> HeaderSize <= position <= maxPacketSize)
      && Flatten(bodies) == s
      && |s| == chunkIndex * (maxPacketSize - HeaderSize) + position - HeaderSize
      && (forall j :: 0 <= j < chunkIndex ==> |bodies[j]| == maxPacketSize - HeaderSize)
      && (chunkIndex >= 0 ==> |bodies[chunkIndex]| == position - HeaderSize)
    }

    /** Every begun row holds its header and its body. */
    ghost predicate RowsHold()
      reads this, chunks
    {
      Shape() && |bodies| <= MaxChunks && forall j :: 0 <= j < |bodies| ==> RowHolds(j, bodies[j])
    }

    ghost predicate Valid()
      reads this, packetBytes, chunks
    {
      Shape()
      && (!chunked ==> chunkIndex == 0 && !maxChunksReached && 0 <= position <= maxPacketSize
                       && written == packetBytes[..position])
      && (chunked && maxChunksReached ==> |written| > MaxChunks * (maxPacketSize - HeaderSize))
      && (chunked && !maxChunksReached ==> |written| > maxPacketSize && Chunking(written))
    }

    /** The first `length` bytes of row `i`, as handed to the socket. */
    function Row(i: int, length: int): (r: seq<byte>)
      reads chunks
      requires Shape() && 0 <= i < MaxChunks && 0 <= length <= maxPacketSize
      ensures |r| == length && forall k :: 0 <= k < length ==> r[k] == chunks[i, k]
    {
      seq(length, k requires 0 <= k < length reads chunks => chunks[i, k])
    }

    /** A row holding its header, its body and the count is the chunk `Create` builds. */
    lemma RowIsChunk(i: int, count: byte)
      requires Shape() && 0 <= i < |bodies| && i < MaxChunks && RowHolds(i, bodies[i])
      requires chunks[i, SeqCountPosition] == count
      ensures Row(i, HeaderSize + |bodies[i]|) == Create(Unpadded, messageID, ToByte(i), count, bodies[i])
    {
      var r := Row(i, HeaderSize + |bodies[i]|);
      var c := Create(Unpadded, messageID, ToByte(i), count, bodies[i]);
      UnpaddedOffsets(messageID, ToByte(i), count, bodies[i]);
      forall k | 0 <= k < |r|
        ensures r[k] == c[k]
      {
        if 2 <= k < 10 {
          assert c[k] == c[2..10][k - 2];
        } else if k >= HeaderSize {
          assert c[k] == c[HeaderSize..][k - HeaderSize];
        }
      }
    }

    /** A flushed, empty stream with zeroed buffers. */
    constructor (maxPacketSize: int)
      requires maxPacketSize > HeaderSize
      ensures Valid() && fresh(packetBytes) && fresh(chunks)
      ensures this.maxPacketSize == maxPacketSize
      ensures chunkIndex == 0 && position == 0 && !chunked && !maxChunksReached
      ensures written == [] && sent == [] && idsFetched == 0
    {
      this.maxPacketSize := maxPacketSize;
      packetBytes := new byte[maxPacketSize](_ => 0);
      chunks := new byte[MaxChunks, maxPacketSize]((_, _) => 0);
      chunkIndex, position, chunked, maxChunksReached := 0, 0, false, false;
      messageID := [];
      written, bodies, sent, idsFetched := [], [], [], 0;
    }

    /** `write(int)`. The byte after the first `maxPacketSize` turns chunk mode on
        and is the only one that fetches an id (`nextId`, what the provider would
        return); the source's recursion through `startChunking` is the replay loop
        there. */
    method Write(b: int, nextId: seq<byte>)
      requires Valid() && |nextId| == StreamIdLength
      modifies this, packetBytes, chunks
      ensures Valid()
      ensures written == old(written) + [ToByte(b)] && sent == old(sent)
      ensures |old(written)| == maxPacketSize ==> idsFetched == old(idsFetched) + 1 && messageID == nextId
      ensures |old(written)| != maxPacketSize ==> idsFetched == old(idsFetched) && messageID == old(messageID)
    {
      if maxChunksReached {
        written := written + [ToByte(b)];
        return;
      }
      if !chunked {
        // writeUnchunked
        if position < maxPacketSize {
          packetBytes[position] := ToByte(b);
          position := position + 1;
          written := written + [ToByte(b)];
          return;
        }
        StartChunking(nextId);
      }
      WriteChunked(ToByte(b), written);
      assert |written| + 1 <= MaxChunks * (maxPacketSize - HeaderSize) ==> Chunking(written + [ToByte(b)]);
      written := written + [ToByte(b)];
    }

    /** `startChunking`: fetch the id and pour the full buffer back through the
        chunked path. */
    method StartChunking(nextId: seq<byte>)
      requires Valid() && !chunked && position == maxPacketSize && |nextId| == StreamIdLength
      modifies this, chunks
      ensures Chunking(written) && messageID == nextId && idsFetched == old(idsFetched) + 1
      ensures written == old(written) && sent == old(sent)
    {
      chunked := true;
      messageID := nextId;
      idsFetched := idsFetched + 1;
      chunkIndex := -1;
      bodies := [];
      assert Flatten<byte>([]) == [];
      var i := 0;
      while i < packetBytes.Length
        invariant 0 <= i <= packetBytes.Length
        invariant Chunking(packetBytes[..i])
        invariant written == packetBytes[..] && messageID == nextId
        invariant sent == old(sent) && idsFetched == old(idsFetched) + 1
      {
        assert i < MaxChunks * (maxPacketSize - HeaderSize);
        WriteChunked(packetBytes[i], packetBytes[..i]);
        assert packetBytes[..i + 1] == packetBytes[..i] + [packetBytes[i]];
        i := i + 1;
      }
      assert packetBytes[..i] == written;
    }

    /** `writeChunked`: store the byte in the current row, or open the next row
        (header first), or, when the last of the 128 rows is full, give up on the
        message. */
    method WriteChunked(b: byte, ghost s: seq<byte>)
      requires Chunking(s)
      modifies this`chunkIndex, this`position, this`bodies, this`maxChunksReached, chunks
      ensures |s| == MaxChunks * (maxPacketSize - HeaderSize) ==> maxChunksReached
      ensures |s| != MaxChunks * (maxPacketSize - HeaderSize) ==> Chunking(s + [b])
    {
      ghost var B := maxPacketSize - HeaderSize;
      if chunkIndex <= MaxChunks - 2 {
        MulMono(chunkIndex, MaxChunks - 2, B);
      }
      if position == maxPacketSize {
        if chunkIndex == MaxChunks - 1 {
          maxChunksReached := true;
        } else {
          NextChunk(b, s);
        }
      } else {
        StoreByte(b, s);
      }
    }

    /** The branch of `writeChunked` that opens the next row, then (the source's
        recursive `write`) stores the byte at column 12, which is free because
        `maxPacketSize > 12`. */
    method NextChunk(b: byte, ghost s: seq<byte>)
      requires Chunking(s) && position == maxPacketSize && chunkIndex < MaxChunks - 1
      modifies this`chunkIndex, this`position, this`bodies, chunks
      ensures Chunking(s + [b])
    {
      OpenRow(s);
      StoreByte(b, s);
    }

    /** Advance `chunkIndex` and write the new row's header. */
    method OpenRow(ghost s: seq<byte>)
      requires Chunking(s) && position == maxPacketSize && chunkIndex < MaxChunks - 1
      modifies this`chunkIndex, this`position, this`bodies, chunks
      ensures Open(s) && chunkIndex >= 0 && position == HeaderSize
    {
      MulStep(chunkIndex, maxPacketSize - HeaderSize);
      ghost var prev := bodies;
      chunkIndex := chunkIndex + 1;
      position := 0;
      WriteHeader();
      forall j | 0 <= j < chunkIndex
        ensures RowHolds(j, prev[j])
      {
        assert old(RowHolds(j, prev[j]));
        forall k | 0 <= k < maxPacketSize
          ensures chunks[j, k] == old(chunks[j, k])
        {
        }
      }
      FlattenSnoc(prev, []);
      bodies := prev + [[]];
      assert forall j :: 0 <= j < chunkIndex ==> bodies[j] == prev[j];
      assert Layout(s);
      assert RowHolds(chunkIndex, bodies[chunkIndex]);
    }

    /** The branch of `writeChunked` that stores the byte in the current row. */
    method StoreByte(b: byte, ghost s: seq<byte>)
      requires Open(s) && chunkIndex >= 0 && position < maxPacketSize
      modifies this`position, this`bodies, chunks
      ensures Chunking(s + [b])
    {
      chunks[chunkIndex, position] := b;
      position := position + 1;
      FlattenExtendLast(bodies, b);
      bodies := bodies[chunkIndex := bodies[chunkIndex] + [b]];
      assert RowHolds(chunkIndex, bodies[chunkIndex]);
    }

    /** `writeHeader`: magic, id, `(byte) chunkIndex`, then skip the count slot. */
    method WriteHeader()
      requires Shape() && 0 <= chunkIndex < MaxChunks && position == 0 && |messageID| == StreamIdLength
      modifies this`position, chunks
      ensures position == HeaderSize && RowHolds(chunkIndex, [])
      ensures forall j, k :: 0 <= j < MaxChunks && 0 <= k < maxPacketSize && (j != chunkIndex || k >= HeaderSize)
                ==> chunks[j, k] == old(chunks[j, k])
    {
      chunks[chunkIndex, position] := ChunkedGelfId[0];
      position := position + 1;
      chunks[chunkIndex, position] := ChunkedGelfId[1];
      position := position + 1;
      var i := 0;
      while i < |messageID|
        invariant 0 <= i <= StreamIdLength && position == 2 + i
        invariant chunks[chunkIndex, 0] == 0x1e && chunks[chunkIndex, 1] == 0x0f
        invariant forall k :: 0 <= k < i ==> chunks[chunkIndex, 2 + k] == messageID[k]
        invariant forall j, k :: 0 <= j < MaxChunks && 0 <= k < maxPacketSize && (j != chunkIndex || k >= 2 + i)
                    ==> chunks[j, k] == old(chunks[j, k])
      {
        chunks[chunkIndex, position] := messageID[i];
        position := position + 1;
        i := i + 1;
      }
      chunks[chunkIndex, position] := ToByte(chunkIndex);
      position := position + 1;
      position := position + 1;
    }

    /** `flush(failAt)`: the datagrams of the message, in order, go to the socket
        until the send numbered `failAt` (counting from 0 within this flush) fails;
        `ok` is false when one failed. Either way the stream is reset. */
    method Flush(failAt: nat) returns (ok: bool)
      requires Valid()
      modifies this, chunks
      ensures Valid()
      ensures chunkIndex == 0 && position == 0 && !chunked && !maxChunksReached && written == []
      ensures messageID == old(messageID) && idsFetched == old(idsFetched)
      ensures var out := Datagrams(old(written), old(messageID), maxPacketSize);
        sent == old(sent) + (if failAt < |out| then out[..failAt] else out) && ok == (failAt >= |out|)
    {
      if chunkIndex == 0 && position == 0 {
        // nothing written since the last flush
        ok := true;
      } else if maxChunksReached {
        // too many bytes: drop everything
        ok := true;
      } else if chunked {
        ok := FlushChunked(failAt);
      } else {
        if failAt == 0 {
          ok := false;
        } else {
          sent := sent + [packetBytes[..position]];
          ok := true;
        }
      }
      Reset();
    }

    /** `flushChunked`: back-fill the count, then send the full rows and the partial last. */
    method FlushChunked(failAt: nat) returns (ok: bool)
      requires Valid() && chunked && !maxChunksReached
      modifies this`sent, chunks
      ensures var out := Datagrams(written, messageID, maxPacketSize);
        sent == old(sent) + (if failAt < |out| then out[..failAt] else out) && ok == (failAt >= |out|)
    {
      assert chunkIndex >= 0;
      FillInSequenceCounts();
      RowsAreDatagrams(written);
      ok := SendChunks(Datagrams(written, messageID, maxPacketSize), failAt);
    }

    /** The sending half of `flushChunked`: rows `0..chunkIndex-1` in full, then the
        used part of the last row, stopping at the failing send. */
    method SendChunks(ghost out: seq<seq<byte>>, failAt: nat) returns (ok: bool)
      requires Shape() && 0 <= chunkIndex < MaxChunks && 0 <= position <= maxPacketSize
      requires |out| == chunkIndex + 1
      requires forall j :: 0 <= j < chunkIndex ==> Row(j, maxPacketSize) == out[j]
      requires Row(chunkIndex, position) == out[chunkIndex]
      modifies this`sent
      ensures sent == old(sent) + (if failAt < |out| then out[..failAt] else out) && ok == (failAt >= |out|)
    {
      var i := 0;
      while i < chunkIndex
        invariant 0 <= i <= chunkIndex && i <= failAt
        invariant sent == old(sent) + out[..i]
      {
        if i == failAt {
          ok := false;
          return;
        }
        assert out[..i + 1] == out[..i] + [out[i]];
        sent := sent + [Row(i, maxPacketSize)];
        i := i + 1;
      }
      if chunkIndex == failAt {
        ok := false;
        return;
      }
      sent := sent + [Row(chunkIndex, position)];
      assert out[..chunkIndex + 1] == out;
      ok := true;
    }

    /** Once the counts are back-filled, the used rows, cut at their lengths, are
        exactly the datagrams the message calls for. */
    lemma RowsAreDatagrams(s: seq<byte>)
      requires Chunking(s) && |s| > maxPacketSize
      requires forall j :: 0 <= j <= chunkIndex ==> chunks[j, SeqCountPosition] == ToByte(chunkIndex + 1)
      ensures var out := Datagrams(s, messageID, maxPacketSize);
        0 <= chunkIndex && |out| == chunkIndex + 1
        && (forall j :: 0 <= j < chunkIndex ==> Row(j, maxPacketSize) == out[j])
        && Row(chunkIndex, position) == out[chunkIndex]
    {
      var B := maxPacketSize - HeaderSize;
      assert chunkIndex >= 0;
      MulMono(chunkIndex, MaxChunks - 1, B);
      assert |s| <= MaxChunks * B;
      BlocksUnique(bodies, s, B);
      var out := Datagrams(s, messageID, maxPacketSize);
      DatagramsAreChunks(s, messageID, maxPacketSize);
      assert |out| == |bodies|;
      forall j | 0 <= j < chunkIndex
        ensures Row(j, maxPacketSize) == out[j]
      {
        assert HeaderSize + |bodies[j]| == maxPacketSize;
        assert out[j] == Create(Unpadded, messageID, ToByte(j), ToByte(|bodies|), bodies[j]);
        RowIsChunk(j, ToByte(chunkIndex + 1));
      }
      assert HeaderSize + |bodies[chunkIndex]| == position;
      assert out[chunkIndex] == Create(Unpadded, messageID, ToByte(chunkIndex), ToByte(|bodies|), bodies[chunkIndex]);
      RowIsChunk(chunkIndex, ToByte(chunkIndex + 1));
    }

    /** `fillInSequenceCounts`: byte 11 of every used row becomes `(byte) (chunkIndex + 1)`;
        the headers and bodies the rows hold are untouched. */
    method FillInSequenceCounts()
      requires Chunking(written) && 0 <= chunkIndex
      modifies chunks
      ensures Chunking(written)
      ensures forall j :: 0 <= j <= chunkIndex ==> chunks[j, SeqCountPosition] == ToByte(chunkIndex + 1)
    {
      var i := 0;
      while i <= chunkIndex
        invariant 0 <= i <= chunkIndex + 1
        invariant forall j :: 0 <= j < i ==> chunks[j, SeqCountPosition] == ToByte(chunkIndex + 1)
        invariant forall j, k :: 0 <= j < MaxChunks && 0 <= k < maxPacketSize && (k != SeqCountPosition || j >= i)
                    ==> chunks[j, k] == old(chunks[j, k])
      {
        chunks[i, SeqCountPosition] := ToByte(chunkIndex + 1);
        i := i + 1;
      }
    }

    /** `reset`: back to the empty, unchunked state for the next message. */
    method Reset()
      requires Shape()
      modifies this
      ensures Valid()
      ensures chunkIndex == 0 && position == 0 && !chunked && !maxChunksReached && written == []
      ensures messageID == old(messageID) && sent == old(sent) && idsFetched == old(idsFetched)
    {
      position := 0;
      chunkIndex := 0;
      chunked := false;
      maxChunksReached := false;
      written := [];
    }
  }
}

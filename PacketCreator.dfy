/** The oldest packet builder: data longer than the threshold is chunked (with
    the older chunker's 32-byte id and padded layout), anything else goes out as
    a single packet. Its `splitData` / `extractChunk` and its `chunkIt` loop are
    line for line the older chunker's `splitPayload` and `createChunks`. */
module PacketCreator {
  import opened JavaLang
  import opened ChunkFactory
  import opened PayloadChunker
  import opened OrgPayloadChunker

  /** The packets `go` returns, given the digest its id is made from; `None` when
      `go` throws. Note the strict `>`: data exactly one threshold long is NOT
      chunked, and neither is empty data under a zero threshold. Longer data goes
      through `chunkIt`, whose `splitData` is the older chunker's `splitPayload`. */
  function Packets(chunkThreshold: int, data: seq<byte>, digest: seq<byte>): Option<seq<seq<byte>>>
  {
    if |data| <= chunkThreshold then Some([data]) else GoOutcome(chunkThreshold, data, digest)
  }

  /** `go`. */
  method Go(chunkThreshold: int, data: seq<byte>, digest: seq<byte>) returns (packets: Option<seq<seq<byte>>>)
    ensures packets == Packets(chunkThreshold, data, digest)
  {
    if |data| > chunkThreshold {
      packets := OrgPayloadChunker.Go(chunkThreshold, data, digest);
    } else {
      packets := Some([data]);
    }
  }

  /** When `go` fails: exactly when the data is longer than a non-positive
      threshold that is zero or does not divide its length. */
  lemma GoFailsIff(chunkThreshold: int, data: seq<byte>, digest: seq<byte>)
    ensures Packets(chunkThreshold, data, digest).None? <==>
      |data| > chunkThreshold && chunkThreshold <= 0 &&
      (chunkThreshold == 0 || |data| % -chunkThreshold != 0)
  {
    GoOutcomeCases(chunkThreshold, data, digest);
  }

  /** A zero threshold: empty data is one empty packet, anything else throws. */
  lemma ZeroThreshold(data: seq<byte>, digest: seq<byte>)
    ensures Packets(0, data, digest) == if |data| == 0 then Some([[]]) else None
  {
    GoOutcomeCases(0, data, digest);
  }

  /** A negative threshold: no packet at all when it divides the length (empty data
      included), otherwise `go` throws. */
  lemma NegativeThreshold(chunkThreshold: int, data: seq<byte>, digest: seq<byte>)
    requires chunkThreshold < 0
    ensures Packets(chunkThreshold, data, digest) ==
      if |data| % -chunkThreshold == 0 then Some([]) else None
  {
    GoOutcomeCases(chunkThreshold, data, digest);
  }

  /** Data no longer than the threshold is one packet, the data itself. */
  lemma ShortDataIsOnePacket(chunkThreshold: int, data: seq<byte>, digest: seq<byte>)
    requires |data| <= chunkThreshold
    ensures Packets(chunkThreshold, data, digest) == Some([data])
  {
  }

  /** Longer data is chunked into at least two packets, so never sent as itself. */
  lemma LongDataIsChunked(chunkThreshold: int, data: seq<byte>, digest: seq<byte>)
    requires chunkThreshold > 0 && |data| > chunkThreshold
    ensures Packets(chunkThreshold, data, digest).Some?
    ensures |Packets(chunkThreshold, data, digest).value| == NumSlices(|data|, chunkThreshold) >= 2
  {
    var k := NumSlices(|data|, chunkThreshold);
    NumSlicesCover(|data|, chunkThreshold);
    if k < 2 {
      MulMono(k, 1, chunkThreshold);
    }
  }

  /** Every chunked packet is `38 + chunkThreshold` bytes: the magic first, the shared
      id at bytes 2..34, sequence number `(byte) i` at byte 35 and the count at byte 37. */
  lemma LongDataLayout(chunkThreshold: int, data: seq<byte>, digest: seq<byte>, i: nat)
    requires chunkThreshold > 0 && |data| > chunkThreshold && i < NumSlices(|data|, chunkThreshold)
    ensures Packets(chunkThreshold, data, digest).Some?
    ensures var p := Packets(chunkThreshold, data, digest).value[i];
      |p| == 38 + chunkThreshold && p[..2] == ChunkedGelfId && p[2..34] == CreateMessageId(digest)
      && p[35] == ToByte(i) && p[37] == ToByte(NumSlices(|data|, chunkThreshold))
  {
    var id := CreateMessageId(digest);
    var s := Slices(data, chunkThreshold);
    SlicesShape(data, chunkThreshold);
    assert Packets(chunkThreshold, data, digest).value[i] == Create(Padded, id, ToByte(i), ToByte(|s|), s[i]);
    PaddedOffsets32(id, ToByte(i), ToByte(|s|), s[i]);
  }

  /** The bodies of the chunked packets, joined, are the data followed by zeros only. */
  lemma LongDataReassembles(chunkThreshold: int, data: seq<byte>, digest: seq<byte>)
    requires chunkThreshold > 0 && |data| > chunkThreshold
    ensures Packets(chunkThreshold, data, digest).Some?
    ensures var packets := Packets(chunkThreshold, data, digest).value;
      (forall i :: 0 <= i < |packets| ==> HeaderLength(Padded, MessageIdLength) <= |packets[i]|) &&
      var joined := Flatten(Bodies(Padded, MessageIdLength, packets));
      |data| <= |joined| < |data| + chunkThreshold && joined == data + Zeros(|joined| - |data|)
  {
    var s := Slices(data, chunkThreshold);
    var packets := Packets(chunkThreshold, data, digest).value;
    assert Bodies(Padded, MessageIdLength, packets) == s;
    SlicesRecoverPayload(data, chunkThreshold);
  }

  /** Threshold 10000: three bytes come back as the one packet `[1, 2, 3]`. */
  lemma ThreeBytesUnchunked(digest: seq<byte>)
    ensures Packets(10000, [1, 2, 3], digest) == Some([[1, 2, 3]])
  {
  }

  /** Threshold 3: five bytes give two 41-byte packets numbered 0 and 1 with count 2;
      nine bytes give three 41-byte packets. */
  lemma ThresholdThreeInstances(digest: seq<byte>)
    ensures var p := Packets(3, [1, 2, 3, 4, 5], digest).value;
      |p| == 2 && |p[0]| == 41 && p[0][..2] == ChunkedGelfId
      && p[0][35] == 0 && p[1][35] == 1 && p[0][37] == 2 && p[1][37] == 2
    ensures var p := Packets(3, [1, 2, 3, 4, 5, 6, 7, 8, 9], digest).value;
      |p| == 3 && |p[0]| == 41 && |p[1]| == 41 && |p[2]| == 41
  {
    var d5, d9 := [1, 2, 3, 4, 5], [1, 2, 3, 4, 5, 6, 7, 8, 9];
    LongDataLayout(3, d5, digest, 0);
    LongDataLayout(3, d5, digest, 1);
    LongDataLayout(3, d9, digest, 0);
    LongDataLayout(3, d9, digest, 1);
    LongDataLayout(3, d9, digest, 2);
  }
}

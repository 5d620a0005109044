/** The whole-buffer chunker: split a payload into threshold-sized slices,
    stamp one message id and one count on every slice, number them and stop
    at the configured maximum. The message id is the one value the id
    provider hands out for this call. */
module PayloadChunker {
  import opened JavaLang
  import opened ChunkFactory

  /** A chunker as constructed (the id provider is the `messageId` argument of `ChunkIt`). */
  datatype Chunker = Chunker(payloadThreshold: int, maxChunks: int, factory: Factory)

  /** How many slices `splitPayload` makes: the full ones and a partial tail. */
  function NumSlices(n: nat, t: int): nat
    requires t > 0
  {
    n / t + (if n % t > 0 then 1 else 0)
  }

  /** The slices cover the payload and overshoot it by less than one slice. */
  lemma NumSlicesCover(n: nat, t: int)
    requires t > 0
    ensures n <= NumSlices(n, t) * t < n + t
    ensures NumSlices(n, t) == 0 <==> n == 0
  {
    var q := n / t;
    assert n == q * t + n % t;
    if n % t > 0 {
      assert (q + 1) * t == q * t + t;
    }
  }

  /** Java computes the slice bounds `i * t` and `(i + 1) * t` in 32-bit `int`.
      While `n + t - 1` fits in an `int` neither can wrap, so there the unbounded
      products used here are Java's. */
  lemma SliceBoundsFitInt(n: nat, t: int, i: nat)
    requires t > 0 && i < NumSlices(n, t) && n + t - 1 <= IntMax
    ensures JavaInt(i * t) == i * t && JavaInt((i + 1) * t) == (i + 1) * t
  {
    NumSlicesCover(n, t);
    MulMono(i + 1, NumSlices(n, t), t);
    MulMono(i, i + 1, t);
  }

  /** Beyond that bound Java's product wraps: for a payload of `2^31 - 10` bytes at
      threshold 1000 the end of the last slice becomes negative, below its start,
      and `copyOfRange` would throw where this model returns the slice. */
  lemma LastSliceEndWraps()
    ensures var n, t := IntMax - 9, 1000;
      NumSlices(n, t) == 2147484
      && JavaInt(NumSlices(n, t) * t) < 0 <= (NumSlices(n, t) - 1) * t
  {
  }

  /** `extractSubPayload`: slice number `i`, always exactly `t` bytes, because
      `Arrays.copyOfRange` zero-fills past the end of the payload. */
  function ExtractSubPayload(payload: seq<byte>, t: int, i: nat): (r: seq<byte>)
    requires t > 0 && i * t <= |payload|
    ensures |r| == t
    ensures forall k :: 0 <= k < t ==> r[k] == if i * t + k < |payload| then payload[i * t + k] else 0
  {
    assert (i + 1) * t == i * t + t;
    CopyOfRange(payload, i * t, (i + 1) * t)
  }

  lemma SliceStart(n: nat, t: int, i: nat)
    requires t > 0 && i < NumSlices(n, t)
    ensures i * t <= n
  {
    var q := n / t;
    assert n == q * t + n % t;
    MulMono(i, q, t);
  }

  /** The list `splitPayload` returns. */
  function Slices(payload: seq<byte>, t: int): seq<seq<byte>>
    requires t > 0
  {
    seq(NumSlices(|payload|, t), i requires 0 <= i < NumSlices(|payload|, t) =>
      SliceStart(|payload|, t, i); ExtractSubPayload(payload, t, i))
  }

  /** What `splitPayload` returns for any `int` threshold, `None` when it throws.
      A zero threshold divides by zero. A negative one gives a quotient of at most
      zero, so no full slice is cut; a remainder then asks `copyOfRange` for a range
      that ends before it starts, which throws, and no remainder leaves no slice. */
  function SplitOutcome(payload: seq<byte>, t: int): Option<seq<seq<byte>>>
  {
    if t > 0 then Some(Slices(payload, t))
    else if t == 0 then None
    else if |payload| % -t == 0 then Some([])
    else None
  }

  /** `splitPayload`: the full slices in a counting loop, then the tail slice if
      Java's remainder is positive. */
  method SplitPayload(payload: seq<byte>, payloadThreshold: int) returns (subPayloads: Option<seq<seq<byte>>>)
    ensures subPayloads == SplitOutcome(payload, payloadThreshold)
  {
    if payloadThreshold == 0 {
      // `payloadLength / payloadThreshold` throws
      return None;
    }
    var payloadLength := |payload|;
    var numFullSubs := JavaDiv(payloadLength, payloadThreshold);
    var lastSubLength := JavaRem(payloadLength, payloadThreshold);
    if payloadThreshold < 0 {
      // no full slice: the loop `subPayload < numFullSubs` does not run
      JavaDivNegative(payloadLength, payloadThreshold);
      if lastSubLength > 0 {
        // copyOfRange(payload, from, from + payloadThreshold) with from > to
        return None;
      }
      return Some([]);
    }
    JavaDivPositive(payloadLength, payloadThreshold);
    var subs := [];
    var subPayload := 0;
    while subPayload < numFullSubs
      invariant 0 <= subPayload <= numFullSubs
      invariant subs == Slices(payload, payloadThreshold)[..subPayload]
    {
      SliceStart(payloadLength, payloadThreshold, subPayload);
      subs := subs + [ExtractSubPayload(payload, payloadThreshold, subPayload)];
      subPayload := subPayload + 1;
    }
    if lastSubLength > 0 {
      SliceStart(payloadLength, payloadThreshold, numFullSubs);
      subs := subs + [ExtractSubPayload(payload, payloadThreshold, numFullSubs)];
    }
    assert subs == Slices(payload, payloadThreshold);
    subPayloads := Some(subs);
  }

  /** For a threshold that is not positive, `splitPayload` throws unless the
      threshold is negative and divides the length, and then returns no slice: the
      payload is lost, unless it was empty. */
  lemma SplitNonPositive(payload: seq<byte>, t: int)
    requires t <= 0
    ensures SplitOutcome(payload, t).None? <==> t == 0 || |payload| % -t != 0
    ensures SplitOutcome(payload, t).Some? ==> SplitOutcome(payload, t) == Some([])
  {
  }

  /** Every slice is exactly `t` bytes; there are `ceil(n / t)` of them; none for an
      empty payload. */
  lemma SlicesShape(payload: seq<byte>, t: int)
    requires t > 0
    ensures |Slices(payload, t)| == NumSlices(|payload|, t)
    ensures |payload| <= |Slices(payload, t)| * t < |payload| + t
    ensures forall i :: 0 <= i < |Slices(payload, t)| ==> |Slices(payload, t)[i]| == t
    ensures payload == [] <==> Slices(payload, t) == []
  {
    NumSlicesCover(|payload|, t);
  }

  /** The slices put back together are the payload zero-padded to a whole number of
      slices: `Arrays.copyOf(payload, k * t)`. */
  lemma {:induction false} SlicesFlatten(payload: seq<byte>, t: int)
    requires t > 0
    ensures Flatten(Slices(payload, t)) == CopyOf(payload, |Slices(payload, t)| * t)
  {
    var s := Slices(payload, t);
    var j := 0;
    while j < |s|
      invariant 0 <= j <= |s|
      invariant Flatten(s[..j]) == CopyOf(payload, j * t)
    {
      SliceStart(|payload|, t, j);
      assert s[..j + 1] == s[..j] + [s[j]];
      FlattenSnoc(s[..j], s[j]);
      assert (j + 1) * t == j * t + t;
      CopyOfThenRange(payload, j * t, (j + 1) * t);
      j := j + 1;
    }
    assert s[..|s|] == s;
  }

  /** Hence the payload is a prefix of the joined slices and only zero bytes follow it. */
  lemma SlicesRecoverPayload(payload: seq<byte>, t: int)
    requires t > 0
    ensures var joined := Flatten(Slices(payload, t));
      |payload| <= |joined| < |payload| + t && joined == payload + Zeros(|joined| - |payload|)
  {
    SlicesShape(payload, t);
    SlicesFlatten(payload, t);
    CopyOfExtends(payload, |Slices(payload, t)| * t);
  }

  /** How many chunks `createChunks` emits from `k` slices. Its counter is a Java
      `byte` compared with the `int` maxChunks, so the cut-off only bites when
      maxChunks is a value the counter reaches: 0..127 (directly) or -128..-1
      (after wrapping past 127). */
  function Produced(k: nat, maxChunks: int): (p: nat)
    ensures p <= k
  {
    if 0 <= maxChunks <= 127 then (if k < maxChunks then k else maxChunks)
    else if -128 <= maxChunks < 0 then (if k < 256 + maxChunks then k else 256 + maxChunks)
    else k
  }

  /** The counter meets maxChunks exactly at the cut-off index and never before it. */
  lemma ProducedIsFirstHit(k: nat, maxChunks: int, i: nat)
    requires i < k && i <= Produced(k, maxChunks)
    ensures JavaByte(i) == maxChunks <==> i == Produced(k, maxChunks)
  {
  }

  /** The chunk list `createChunks` returns: chunk `i` carries sequence number `i`
      and every chunk carries the count of ALL slices, cut or not. */
  function Chunks(f: Factory, messageId: seq<byte>, subPayloads: seq<seq<byte>>, maxChunks: int): seq<seq<byte>>
  {
    seq(Produced(|subPayloads|, maxChunks), i requires 0 <= i < Produced(|subPayloads|, maxChunks) =>
      Create(f, messageId, ToByte(i), ToByte(|subPayloads|), subPayloads[i]))
  }

  lemma ChunksStep(f: Factory, messageId: seq<byte>, subPayloads: seq<seq<byte>>, maxChunks: int, i: nat)
    requires i < Produced(|subPayloads|, maxChunks)
    ensures Chunks(f, messageId, subPayloads, maxChunks)[..i + 1]
         == Chunks(f, messageId, subPayloads, maxChunks)[..i] + [Create(f, messageId, ToByte(i), ToByte(|subPayloads|), subPayloads[i])]
  {
    var spec := Chunks(f, messageId, subPayloads, maxChunks);
    var chunk := Create(f, messageId, ToByte(i), ToByte(|subPayloads|), subPayloads[i]);
    PrefixSnoc(spec, i);
    assert spec[i] == chunk;
  }

  /** `createChunks`: walk the slices with a `byte` counter, breaking when it equals
      maxChunks. */
  method CreateChunks(c: Chunker, messageId: seq<byte>, subPayloads: seq<seq<byte>>) returns (chunks: seq<seq<byte>>)
    ensures chunks == Chunks(c.factory, messageId, subPayloads, c.maxChunks)
  {
    ghost var spec := Chunks(c.factory, messageId, subPayloads, c.maxChunks);
    ghost var p := Produced(|subPayloads|, c.maxChunks);
    chunks := [];
    var seqNum := 0;
    var i := 0;
    while i < |subPayloads| && seqNum != c.maxChunks
      invariant 0 <= i <= p
      invariant seqNum == JavaByte(i)
      invariant i < |subPayloads| && seqNum == c.maxChunks ==> i == p
      invariant chunks == spec[..i]
    {
      ProducedIsFirstHit(|subPayloads|, c.maxChunks, i);
      var chunk := Create(c.factory, messageId, ToByte(seqNum), ToByte(|subPayloads|), subPayloads[i]);
      ChunksStep(c.factory, messageId, subPayloads, c.maxChunks, i);
      chunks := chunks + [chunk];
      IncByteStep(i);
      seqNum := IncByte(seqNum);
      i := i + 1;
      if i < |subPayloads| {
        ProducedIsFirstHit(|subPayloads|, c.maxChunks, i);
      }
    }
    assert i == p;
    assert spec[..i] == spec;
  }

  /** The list `chunkIt` returns for one payload and the one id fetched for it,
      under a positive threshold. */
  function ChunkList(c: Chunker, payload: seq<byte>, messageId: seq<byte>): seq<seq<byte>>
    requires c.payloadThreshold > 0
  {
    Chunks(c.factory, messageId, Slices(payload, c.payloadThreshold), c.maxChunks)
  }

  /** What `chunkIt` returns for any threshold, `None` when `splitPayload` throws. */
  function ChunkOutcome(c: Chunker, payload: seq<byte>, messageId: seq<byte>): Option<seq<seq<byte>>>
  {
    match SplitOutcome(payload, c.payloadThreshold)
    case None => None
    case Some(s) => Some(Chunks(c.factory, messageId, s, c.maxChunks))
  }

  /** `chunkIt`: one id for the whole payload, then split and wrap. */
  method ChunkIt(c: Chunker, payload: seq<byte>, messageId: seq<byte>) returns (chunks: Option<seq<seq<byte>>>)
    ensures chunks == ChunkOutcome(c, payload, messageId)
  {
    var subPayloads := SplitPayload(payload, c.payloadThreshold);
    if subPayloads.None? {
      return None;
    }
    var created := CreateChunks(c, messageId, subPayloads.value);
    chunks := Some(created);
  }

  /** A positive threshold never throws and gives the chunk list; a negative one
      that divides the length gives no chunk at all; any other threshold throws. */
  lemma ChunkOutcomeCases(c: Chunker, payload: seq<byte>, messageId: seq<byte>)
    ensures c.payloadThreshold > 0 ==> ChunkOutcome(c, payload, messageId) == Some(ChunkList(c, payload, messageId))
    ensures c.payloadThreshold <= 0 ==>
      ChunkOutcome(c, payload, messageId) == (if c.payloadThreshold < 0 && |payload| % -c.payloadThreshold == 0 then Some([]) else None)
  {
    if c.payloadThreshold <= 0 {
      SplitNonPositive(payload, c.payloadThreshold);
      assert Chunks(c.factory, messageId, [], c.maxChunks) == [];
    }
  }

  /** Decoding chunk `i` gives the shared id, sequence number `i`, the (byte of the)
      untruncated slice count and slice `i`. */
  lemma ChunkListDecodes(c: Chunker, payload: seq<byte>, messageId: seq<byte>, i: nat)
    requires c.payloadThreshold > 0 && i < |ChunkList(c, payload, messageId)|
    ensures var k := NumSlices(|payload|, c.payloadThreshold);
      Parse(c.factory, |messageId|, ChunkList(c, payload, messageId)[i])
        == Some(ChunkFields(messageId, ToByte(i), ToByte(k), Slices(payload, c.payloadThreshold)[i]))
  {
    var s := Slices(payload, c.payloadThreshold);
    ParseCreate(c.factory, messageId, ToByte(i), ToByte(|s|), s[i]);
  }

  /** The number of chunks is the slice count, cut at maxChunks when maxChunks is
      between 0 and 127; with maxChunks = 128 nothing is cut. */
  lemma ChunkListCount(c: Chunker, payload: seq<byte>, messageId: seq<byte>)
    requires c.payloadThreshold > 0
    ensures var k := NumSlices(|payload|, c.payloadThreshold);
      |ChunkList(c, payload, messageId)| == Produced(k, c.maxChunks)
      && (0 <= c.maxChunks <= 127 ==> |ChunkList(c, payload, messageId)| == if k < c.maxChunks then k else c.maxChunks)
      && (c.maxChunks == 128 ==> |ChunkList(c, payload, messageId)| == k)
  {
  }

  /** Every chunk is a header followed by exactly one threshold of bytes. */
  lemma ChunkListLengths(c: Chunker, payload: seq<byte>, messageId: seq<byte>)
    requires c.payloadThreshold > 0
    ensures forall i :: 0 <= i < |ChunkList(c, payload, messageId)| ==>
      |ChunkList(c, payload, messageId)[i]| == HeaderLength(c.factory, |messageId|) + c.payloadThreshold
  {
    SlicesShape(payload, c.payloadThreshold);
  }

  /** The payload slices of each chunk in the list. */
  function Bodies(f: Factory, idLength: nat, chunks: seq<seq<byte>>): seq<seq<byte>>
    requires forall i :: 0 <= i < |chunks| ==> HeaderLength(f, idLength) <= |chunks[i]|
  {
    seq(|chunks|, i requires 0 <= i < |chunks| => chunks[i][HeaderLength(f, idLength)..])
  }

  /** When nothing is cut off, the chunk bodies in list order rebuild the payload,
      followed by the zero padding of the last slice. */
  lemma ChunkListReassembles(c: Chunker, payload: seq<byte>, messageId: seq<byte>)
    requires c.payloadThreshold > 0
    requires Produced(NumSlices(|payload|, c.payloadThreshold), c.maxChunks) == NumSlices(|payload|, c.payloadThreshold)
    ensures var chunks := ChunkList(c, payload, messageId);
      (forall i :: 0 <= i < |chunks| ==> HeaderLength(c.factory, |messageId|) <= |chunks[i]|) &&
      var joined := Flatten(Bodies(c.factory, |messageId|, chunks));
      |payload| <= |joined| < |payload| + c.payloadThreshold
      && joined == payload + Zeros(|joined| - |payload|)
  {
    var chunks := ChunkList(c, payload, messageId);
    var s := Slices(payload, c.payloadThreshold);
    var h := HeaderLength(c.factory, |messageId|);
    assert |chunks| == |s|;
    forall i | 0 <= i < |chunks|
      ensures h <= |chunks[i]| && chunks[i][h..] == s[i]
    {
      assert chunks[i] == Create(c.factory, messageId, ToByte(i), ToByte(|s|), s[i]);
    }
    var bodies := Bodies(c.factory, |messageId|, chunks);
    assert bodies == s;
    SlicesRecoverPayload(payload, c.payloadThreshold);
  }

  /** Threshold 3, padded layout, 8-byte id: five bytes make two 17-byte chunks with
      sequence numbers 0 and 1 and count 2. */
  lemma FiveBytesTwoChunks(messageId: seq<byte>)
    requires |messageId| == 8
    ensures var chunks := ChunkList(Chunker(3, 127, Factory(ChunkedGelfId, true)), [1, 2, 3, 4, 5], messageId);
      |chunks| == 2 && |chunks[0]| == 17 && |chunks[1]| == 17
      && chunks[0][11] == 0 && chunks[1][11] == 1 && chunks[0][13] == 2 && chunks[1][13] == 2
      && chunks[0][..2] == ChunkedGelfId
  {
    var c := Chunker(3, 127, Factory(ChunkedGelfId, true));
    var s := Slices([1, 2, 3, 4, 5], 3);
    assert |s| == 2;
    PaddedOffsets(messageId, 0, 2, s[0]);
    PaddedOffsets(messageId, 1, 2, s[1]);
  }

  /** Threshold 3: nine bytes make three 17-byte chunks. */
  lemma NineBytesThreeChunks(messageId: seq<byte>)
    requires |messageId| == 8
    ensures var chunks := ChunkList(Chunker(3, 127, Factory(ChunkedGelfId, true)), [1, 2, 3, 4, 5, 6, 7, 8, 9], messageId);
      |chunks| == 3 && forall i :: 0 <= i < 3 ==> |chunks[i]| == 17
  {
    ChunkListLengths(Chunker(3, 127, Factory(ChunkedGelfId, true)), [1, 2, 3, 4, 5, 6, 7, 8, 9], messageId);
  }

  /** Threshold 3 and maxChunks 127: a payload of (127 + 2) * 3 bytes needs 129 slices
      and is cut to 127 chunks. */
  lemma MassivePayloadIsCut(payload: seq<byte>, messageId: seq<byte>)
    requires |payload| == (127 + 2) * 3
    ensures |ChunkList(Chunker(3, 127, Factory(ChunkedGelfId, true)), payload, messageId)| == 127
  {
  }
}

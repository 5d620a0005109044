/** The executors' single decision: a payload shorter than the chunk threshold
    goes to the transport as it is, anything else is chunked first. Compression
    and the conversion of the event to GELF JSON happen before this point, so the
    payload is an input here. Exactly one transport call is made per append; the
    call is the value returned. */
module Dispatch {
  import opened JavaLang
  import opened ChunkFactory
  import opened PayloadChunker

  /** The one transport call of an append: `send(byte[])` or `send(List<byte[]>)`. */
  datatype Call = SendOne(payload: seq<byte>) | SendList(packets: seq<seq<byte>>)

  /** What a receiver rebuilds from a call: the payload itself, or the chunk
      bodies joined in send order. */
  function Received(f: Factory, idLength: nat, c: Call): seq<byte>
    requires c.SendList? ==> forall i :: 0 <= i < |c.packets| ==> HeaderLength(f, idLength) <= |c.packets[i]|
  {
    match c
    case SendOne(p) => p
    case SendList(ps) => Flatten(Bodies(f, idLength, ps))
  }

  /** An executor of the newer package: its chunker and its threshold. The two
      thresholds are separate constructor arguments. */
  datatype Executor = Executor(chunker: Chunker, chunkThreshold: int)

  /** `AppenderExecutor.append`, given the id the chunker's provider would hand
      out; the chunker (and so the provider) is only consulted on the long path.
      `None` when `chunkIt` throws, so that no transport call is made. */
  function Append(e: Executor, payload: seq<byte>, nextId: seq<byte>): Option<Call>
  {
    if |payload| < e.chunkThreshold then Some(SendOne(payload))
    else match ChunkOutcome(e.chunker, payload, nextId)
      case None => None
      case Some(chunks) => Some(SendList(chunks))
  }

  /** The short path is taken exactly when the payload is shorter than the threshold
      (so a payload of exactly threshold bytes is chunked); it sends the payload
      unchanged whatever the chunker is and does not depend on the id the provider
      would give. On the long path a positive chunker threshold gives the chunk
      list; a negative one that divides the length sends an empty list; any other
      chunker threshold throws. */
  lemma AppendRoutes(e: Executor, payload: seq<byte>, nextId: seq<byte>, otherId: seq<byte>)
    ensures (Append(e, payload, nextId).Some? && Append(e, payload, nextId).value.SendOne?)
      <==> |payload| < e.chunkThreshold
    ensures |payload| < e.chunkThreshold ==>
      Append(e, payload, nextId) == Some(SendOne(payload)) == Append(e, payload, otherId)
    ensures |payload| >= e.chunkThreshold && e.chunker.payloadThreshold > 0 ==>
      Append(e, payload, nextId) == Some(SendList(ChunkList(e.chunker, payload, nextId)))
    ensures |payload| >= e.chunkThreshold && e.chunker.payloadThreshold <= 0 ==>
      Append(e, payload, nextId) ==
        (if e.chunker.payloadThreshold < 0 && |payload| % -e.chunker.payloadThreshold == 0
         then Some(SendList([])) else None)
  {
    ChunkOutcomeCases(e.chunker, payload, nextId);
  }

  /** Whenever the long path has a positive chunker threshold and the chunker's cap
      does not cut the list, some call is made and the receiver rebuilds the
      payload, followed on the chunked path only by the zero padding of the last
      slice. The short path delivers whatever the chunker is. */
  lemma AppendDelivers(e: Executor, payload: seq<byte>, nextId: seq<byte>)
    requires |payload| >= e.chunkThreshold ==>
      (e.chunker.payloadThreshold > 0 &&
       Produced(NumSlices(|payload|, e.chunker.payloadThreshold), e.chunker.maxChunks)
         == NumSlices(|payload|, e.chunker.payloadThreshold))
    ensures Append(e, payload, nextId).Some?
    ensures var c := Append(e, payload, nextId).value;
      (c.SendList? ==> forall i :: 0 <= i < |c.packets| ==> HeaderLength(e.chunker.factory, |nextId|) <= |c.packets[i]|)
      && var r := Received(e.chunker.factory, |nextId|, c);
      |payload| <= |r| && r == payload + Zeros(|r| - |payload|)
  {
    if |payload| >= e.chunkThreshold {
      ChunkOutcomeCases(e.chunker, payload, nextId);
      ChunkListReassembles(e.chunker, payload, nextId);
    } else {
      assert payload + Zeros(0) == payload;
    }
  }

  /** The call of `UDPAppenderExecutor.append`: the same choice, with the event
      passed along. */
  datatype EventCall<E> = EventCall(call: Call, event: E)

  /** `UDPAppenderExecutor.append`. */
  function AppendWithEvent<E>(e: Executor, payload: seq<byte>, event: E, nextId: seq<byte>): Option<EventCall<E>>
  {
    if |payload| < e.chunkThreshold then Some(EventCall(SendOne(payload), event))
    else match ChunkOutcome(e.chunker, payload, nextId)
      case None => None
      case Some(chunks) => Some(EventCall(SendList(chunks), event))
  }

  /** The event is forwarded unchanged on both paths, the packets are exactly
      those of the event-less executor, and it throws exactly when that one does. */
  lemma AppendWithEventForwards<E>(e: Executor, payload: seq<byte>, event: E, nextId: seq<byte>)
    ensures AppendWithEvent(e, payload, event, nextId).None? <==> Append(e, payload, nextId).None?
    ensures Append(e, payload, nextId).Some? ==>
      AppendWithEvent(e, payload, event, nextId) == Some(EventCall(Append(e, payload, nextId).value, event))
    ensures |payload| < e.chunkThreshold ==>
      AppendWithEvent(e, payload, event, nextId) == Some(EventCall(SendOne(payload), event))
  {
  }

  /** `append` of the older package's `AppenderExecutor` and `Executor`. The older
      `PayloadChunker` has only `go`, no `chunkIt`, so the chunker is a parameter;
      it may throw (`None`), and then no transport call is made. */
  function OrgAppend(chunkThreshold: int, payload: seq<byte>, chunkIt: seq<byte> -> Option<seq<seq<byte>>>): Option<Call>
  {
    if |payload| < chunkThreshold then Some(SendOne(payload))
    else match chunkIt(payload)
      case None => None
      case Some(chunks) => Some(SendList(chunks))
  }

  /** Short payloads go out unchanged whatever the chunker does; the rest, including
      a payload of exactly threshold bytes, go out as the chunker's list, or not at
      all when the chunker throws. */
  lemma OrgAppendRoutes(chunkThreshold: int, payload: seq<byte>, chunkIt: seq<byte> -> Option<seq<seq<byte>>>,
                        other: seq<byte> -> Option<seq<seq<byte>>>)
    ensures (OrgAppend(chunkThreshold, payload, chunkIt).Some? && OrgAppend(chunkThreshold, payload, chunkIt).value.SendOne?)
      <==> |payload| < chunkThreshold
    ensures |payload| < chunkThreshold ==>
      OrgAppend(chunkThreshold, payload, chunkIt) == Some(SendOne(payload)) == OrgAppend(chunkThreshold, payload, other)
    ensures |payload| >= chunkThreshold ==>
      (OrgAppend(chunkThreshold, payload, chunkIt).None? <==> chunkIt(payload).None?)
      && (chunkIt(payload).Some? ==> OrgAppend(chunkThreshold, payload, chunkIt) == Some(SendList(chunkIt(payload).value)))
  {
  }

  /** The newer executor is the older one given the newer chunker with the id fixed. */
  lemma AppendIsOrgAppend(e: Executor, payload: seq<byte>, nextId: seq<byte>)
    ensures Append(e, payload, nextId) == OrgAppend(e.chunkThreshold, payload, p => ChunkOutcome(e.chunker, p, nextId))
  {
  }
}

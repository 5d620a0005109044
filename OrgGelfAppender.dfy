/** The older package's appender: it wires up a chunker on every append, flipping
    the id layout for a 0.9.6 server, and reports any runtime failure through
    `addError` instead of throwing. */
module OrgGelfAppender {
  import opened JavaLang
  import opened ChunkFactory
  import opened PayloadChunker
  import opened Dispatch

  /** The chunk cap the appender hands the chunker. */
  const AppenderMaxChunks: int := 127

  /** Where a runtime exception interrupts an append: nowhere, before the
      transport is called, or inside the transport's send. */
  datatype Failure = Completes | FailsBeforeSend | FailsInSend

  class GelfAppender {
    var facility: string
    var graylog2ServerHost: string
    var graylog2ServerPort: int
    var useLoggerName: bool
    var shortMessageLength: int
    /** Fixed: the appender has no setter for it. */
    const chunkThreshold: int
    var graylog2ServerVersion: string
    var messageIdLength: int
    var padSeq: bool
    const chunkedGelfId: seq<byte>
    var additionalFields: map<string, string>

    /** Every transport call made so far, in order. */
    ghost var calls: seq<Call>
    /** How many times `addError` has been called. */
    ghost var errors: nat

    /** The id layout is always one of the two the switch allows. */
    ghost predicate Valid()
      reads this
    {
      chunkThreshold == 1000 && chunkedGelfId == ChunkedGelfId
      && ((messageIdLength == 32 && padSeq) || (messageIdLength == 8 && !padSeq))
    }

    /** The field defaults. */
    constructor ()
      ensures Valid()
      ensures facility == "GELF" && graylog2ServerHost == "localhost" && graylog2ServerPort == 12201
      ensures !useLoggerName && shortMessageLength == 255 && chunkThreshold == 1000
      ensures graylog2ServerVersion == "0.9.5" && messageIdLength == 32 && padSeq
      ensures additionalFields == map[] && calls == [] && errors == 0
    {
      facility := "GELF";
      graylog2ServerHost := "localhost";
      graylog2ServerPort := 12201;
      useLoggerName := false;
      shortMessageLength := 255;
      chunkThreshold := 1000;
      graylog2ServerVersion := "0.9.5";
      messageIdLength := 32;
      padSeq := true;
      chunkedGelfId := ChunkedGelfId;
      additionalFields := map[];
      calls, errors := [], 0;
    }

    /** `setGraylog2ServerVersion`: only records the version; the layout changes at
        the next append. */
    method SetGraylog2ServerVersion(v: string)
      modifies this`graylog2ServerVersion
      ensures graylog2ServerVersion == v
    {
      graylog2ServerVersion := v;
    }

    /** `append`, for the compressed GELF payload of the event, the digest the id
        provider would copy the id from (consumed only when chunking), and where a
        runtime exception strikes, if anywhere. The 0.9.6 switch happens before
        anything can fail; nothing ever switches back to the 32-byte padded layout.
        A failure before the send means no transport call; either failure is
        reported once through `addError`. */
    method Append(payload: seq<byte>, digest: seq<byte>, failure: Failure)
      requires Valid()
      modifies this`messageIdLength, this`padSeq, this`calls, this`errors
      ensures Valid()
      ensures graylog2ServerVersion == "0.9.6" ==> messageIdLength == 8 && !padSeq
      ensures graylog2ServerVersion != "0.9.6" ==> messageIdLength == old(messageIdLength) && padSeq == old(padSeq)
      ensures calls == old(calls)
        + (if failure == FailsBeforeSend then [] else [AppendCall(payload, CopyOf(digest, messageIdLength), padSeq)])
      ensures errors == old(errors) + (if failure == Completes then 0 else 1)
    {
      if graylog2ServerVersion == "0.9.6" {
        messageIdLength := 8;
        padSeq := false;
      }
      if failure == FailsBeforeSend {
        // the conversion, the compression or the id provider threw
        errors := errors + 1;
        return;
      }
      ghost var c := Chunker(chunkThreshold, AppenderMaxChunks, Factory(chunkedGelfId, padSeq));
      ghost var messageId := CopyOf(digest, messageIdLength);
      ghost var call := OrgAppend(chunkThreshold, payload, p => ChunkOutcome(c, p, messageId));
      ChunkOutcomeCases(c, payload, messageId);
      calls := calls + [call.value];
      if failure == FailsInSend {
        errors := errors + 1;
      }
    }
  }

  /** The call one append makes with the given id and padding. */
  function AppendCall(payload: seq<byte>, messageId: seq<byte>, padSeq: bool): Call
  {
    var c := Chunker(1000, AppenderMaxChunks, Factory(ChunkedGelfId, padSeq));
    ChunkOutcomeCases(c, payload, messageId);
    OrgAppend(1000, payload, p => ChunkOutcome(c, p, messageId)).value
  }

  /** Below 1000 bytes the payload goes out unchanged; from 1000 bytes on it is cut
      into 1000-byte slices, at most 127 chunks, each a header of the chosen layout
      followed by one slice. */
  lemma AppendCallShape(payload: seq<byte>, messageId: seq<byte>, padSeq: bool)
    ensures AppendCall(payload, messageId, padSeq).SendOne? <==> |payload| < 1000
    ensures |payload| < 1000 ==> AppendCall(payload, messageId, padSeq) == SendOne(payload)
    ensures |payload| >= 1000 ==> var ps := AppendCall(payload, messageId, padSeq).packets;
      var k := NumSlices(|payload|, 1000);
      |ps| == (if k < 127 then k else 127)
      && forall i :: 0 <= i < |ps| ==> |ps[i]| == 2 + |messageId| + SeqWidth(padSeq) + 1000
  {
    var c := Chunker(1000, AppenderMaxChunks, Factory(ChunkedGelfId, padSeq));
    if |payload| >= 1000 {
      ChunkListCount(c, payload, messageId);
      ChunkListLengths(c, payload, messageId);
    }
  }
}

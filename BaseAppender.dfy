/** The configuration every appender of the newer package shares: the GELF
    options with their defaults, the `key:value` adders for the MDC field names
    and the static fields, and the choice of chunk-id layout made at start. */
module BaseAppender {
  import opened JavaLang
  import opened GelfFields
  import opened ChunkFactory

  /** The id length and sequence layout a server version calls for: the 0.9.5
      server wants a 32-byte id and padded sequence bytes, so a 38-byte header;
      every other version keeps the 8-byte id and the two bare bytes, a 12-byte
      header. */
  function IdLayout(version: string): (r: (nat, bool))
    ensures HeaderLength(Factory(ChunkedGelfId, r.1), r.0) == if version == "0.9.5" then 38 else 12
    ensures r.1 <==> version == "0.9.5"
  {
    if version == "0.9.5" then (32, true) else (8, false)
  }

  class BaseAppender {
    var facility: Option<string>
    var useLoggerName: bool
    var useThreadName: bool
    var graylog2ServerVersion: string
    var messagePattern: string
    var shortMessagePattern: Option<string>
    var additionalFields: map<string, string>
    var staticAdditionalFields: map<string, string>
    var includeFullMDC: bool
    var shortMessageLength: int
    var messageIdLength: nat
    var padSeq: bool

    /** The id layout is one of the two a server understands. */
    predicate Valid()
      reads this`messageIdLength, this`padSeq
    {
      (messageIdLength, padSeq) == (8, false) || (messageIdLength, padSeq) == (32, true)
    }

    /** The field defaults: no facility, no name fields, version `"0.9.6"`, message
        pattern `"%m%rEx"`, no short pattern, empty maps, a 255-character short
        message and the 8-byte unpadded id layout. */
    constructor ()
      ensures Valid()
      ensures facility == None && !useLoggerName && !useThreadName && !includeFullMDC
      ensures graylog2ServerVersion == "0.9.6" && messagePattern == "%m%rEx" && shortMessagePattern == None
      ensures additionalFields == map[] && staticAdditionalFields == map[]
      ensures shortMessageLength == 255 && messageIdLength == 8 && !padSeq
    {
      facility := None;
      useLoggerName := false;
      useThreadName := false;
      graylog2ServerVersion := "0.9.6";
      messagePattern := "%m%rEx";
      shortMessagePattern := None;
      additionalFields := map[];
      staticAdditionalFields := map[];
      includeFullMDC := false;
      shortMessageLength := 255;
      messageIdLength := 8;
      padSeq := false;
    }

    /** `initExecutor`: a 0.9.5 server switches to the 32-byte padded layout; any
        other version keeps whatever layout is set. From the defaults this is
        `IdLayout(graylog2ServerVersion)`. */
    method InitExecutor()
      requires Valid()
      modifies this`messageIdLength, this`padSeq
      ensures Valid()
      ensures graylog2ServerVersion == "0.9.5" ==> (messageIdLength, padSeq) == IdLayout(graylog2ServerVersion)
      ensures graylog2ServerVersion != "0.9.5" ==> messageIdLength == old(messageIdLength) && padSeq == old(padSeq)
      ensures old(messageIdLength) == 8 && !old(padSeq) ==> (messageIdLength, padSeq) == IdLayout(graylog2ServerVersion)
    {
      if graylog2ServerVersion == "0.9.5" {
        messageIdLength := 32;
        padSeq := true;
      }
    }

    /** `addAdditionalField`: `ok` is false for the `IllegalArgumentException`,
        and then nothing changes; only the MDC field names are written. */
    method AddAdditionalField(keyValue: string) returns (ok: bool)
      modifies this`additionalFields
      ensures ok <==> ParseKeyValue(keyValue).Some?
      ensures additionalFields == if ok then old(additionalFields)[ParseKeyValue(keyValue).value.0 := ParseKeyValue(keyValue).value.1]
                                  else old(additionalFields)
    {
      var kv := ParseKeyValue(keyValue);
      if kv.None? {
        return false;
      }
      additionalFields := additionalFields[kv.value.0 := kv.value.1];
      ok := true;
    }

    /** `addStaticAdditionalField`: the same check; only the static fields are
        written. */
    method AddStaticAdditionalField(keyValue: string) returns (ok: bool)
      modifies this`staticAdditionalFields
      ensures ok <==> ParseKeyValue(keyValue).Some?
      ensures staticAdditionalFields == if ok then old(staticAdditionalFields)[ParseKeyValue(keyValue).value.0 := ParseKeyValue(keyValue).value.1]
                                        else old(staticAdditionalFields)
    {
      var kv := ParseKeyValue(keyValue);
      if kv.None? {
        return false;
      }
      staticAdditionalFields := staticAdditionalFields[kv.value.0 := kv.value.1];
      ok := true;
    }
  }

  /** What a configuration line does to the MDC field names: a well-formed
      `key:value` adds or replaces exactly that key, anything else is refused. */
  lemma AddedFieldEffect(fields: map<string, string>, k: string, v: string)
    requires ':' !in k && ':' !in v && v != []
    ensures ParseKeyValue(k + ":" + v).Some?
    ensures var f := fields[ParseKeyValue(k + ":" + v).value.0 := ParseKeyValue(k + ":" + v).value.1];
      k in f && f[k] == v && forall k' :: k' != k ==> (k' in f <==> k' in fields) && (k' in fields ==> f[k'] == fields[k'])
  {
    ParseKeyValueJoin(k, v);
  }
}

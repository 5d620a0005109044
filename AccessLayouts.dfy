/** The two access-log layouts. Both build the same map: host, the outputs of
    the full and the short pattern layout (inputs here), the request time stamp,
    version `"1.1"`, the thread name when asked for, and the static fields laid
    over all of it. The access-log variant also keeps MDC field names and field
    types, which it parses and stores but never reads when building the map. */
module AccessLayouts {
  import opened JavaLang
  import opened GelfFields

  /** The keys of `primitiveTypes`: the types `addFieldType` accepts. */
  const PrimitiveTypes: set<string> := {"int", "Integer", "long", "Long", "float", "Float", "double", "Double"}

  /** The entries `mapFields` puts before the static fields. */
  function BaseFields(host: string, full: string, short: string, timeStamp: int, useThreadName: bool, threadName: string): Message
  {
    var m := map[
      "host" := Text(host),
      "full_message" := Text(full),
      "short_message" := Text(short),
      "timestamp" := Seconds(timeStamp),
      "version" := Text("1.1")];
    if useThreadName then m["_threadName" := Text(threadName)] else m
  }

  /** The map `mapFields` returns when the static-field loop visits `order`. */
  function AccessFields(host: string, full: string, short: string, timeStamp: int, useThreadName: bool, threadName: string,
                        statics: map<string, string>, order: seq<string>): Message
  {
    StaticFields(BaseFields(host, full, short, timeStamp, useThreadName, threadName), statics, order)
  }

  /** Whatever the order of the static fields, they are laid over the base map:
      each overwrites any entry with its key, and every other key keeps its entry. */
  lemma AccessFieldsOverlay(host: string, full: string, short: string, timeStamp: int, useThreadName: bool, threadName: string,
                            statics: map<string, string>, order: seq<string>)
    requires IsKeyOrder(order, statics)
    ensures var r, base := AccessFields(host, full, short, timeStamp, useThreadName, threadName, statics, order),
                           BaseFields(host, full, short, timeStamp, useThreadName, threadName);
      r.Keys == base.Keys + statics.Keys
      && (forall k :: k in statics ==> r[k] == Text(statics[k]))
      && (forall k :: k in base && k !in statics ==> r[k] == base[k])
  {
    StaticFieldsOverlay(BaseFields(host, full, short, timeStamp, useThreadName, threadName), statics, order);
  }

  /** The base map: host, the two layout outputs, the time stamp, version `"1.1"`,
      `_threadName` exactly when `useThreadName` is set, and nothing else. */
  lemma BaseFieldsHold(host: string, full: string, short: string, timeStamp: int, useThreadName: bool, threadName: string)
    ensures var m := BaseFields(host, full, short, timeStamp, useThreadName, threadName);
      m.Keys == {"host", "full_message", "short_message", "timestamp", "version"} + (if useThreadName then {"_threadName"} else {})
      && m["host"] == Text(host) && m["full_message"] == Text(full) && m["short_message"] == Text(short)
      && m["timestamp"] == Seconds(timeStamp) && m["version"] == Text("1.1")
      && (useThreadName ==> m["_threadName"] == Text(threadName))
  {
  }

  /** `addFieldType`'s check: two parts, the second a known type. */
  function ParseFieldType(keyValue: string): (r: Option<(string, string)>)
    ensures r.Some? ==> r.value.1 in PrimitiveTypes && ParseKeyValue(keyValue) == Some(r.value)
    ensures r.None? <==> ParseKeyValue(keyValue).None? || ParseKeyValue(keyValue).value.1 !in PrimitiveTypes
  {
    match ParseKeyValue(keyValue)
    case None => None
    case Some(kv) => if kv.1 in PrimitiveTypes then Some(kv) else None
  }

  /** A known type is accepted under any key without a colon. */
  lemma FieldTypeAccepted(key: string, t: string)
    requires ':' !in key && t in PrimitiveTypes
    ensures ParseFieldType(key + ":" + t) == Some((key, t))
  {
    assert ':' !in t;
    ParseKeyValueJoin(key, t);
  }

  /** An unknown type is refused. */
  lemma FieldTypeRefused(key: string, t: string)
    requires ':' !in key && ':' !in t && t != [] && t !in PrimitiveTypes
    ensures ParseFieldType(key + ":" + t) == None
  {
    ParseKeyValueJoin(key, t);
  }

  /** The body both layouts' `mapFields` share: the base entries one by one, the
      thread name when asked for, then the static fields in the order given. */
  method BuildFields(host: string, full: string, short: string, timeStamp: int, useThreadName: bool, threadName: string,
                     statics: map<string, string>, order: seq<string>) returns (r: Message)
    requires IsKeyOrder(order, statics)
    ensures r == AccessFields(host, full, short, timeStamp, useThreadName, threadName, statics, order)
  {
    r := map[];
    r := r["host" := Text(host)];
    r := r["full_message" := Text(full)];
    r := r["short_message" := Text(short)];
    r := r["timestamp" := Seconds(timeStamp)];
    r := r["version" := Text("1.1")];
    if useThreadName {
      r := r["_threadName" := Text(threadName)];
    }
    r := AddStaticFields(r, statics, order);
  }

  class GelfLayoutAccessLog {
    var useThreadName: bool
    var additionalFields: map<string, string>
    var fieldTypes: map<string, string>
    var staticFields: map<string, string>
    var host: string

    /** Empty maps, no thread name, and the local host name (an input). */
    constructor (localHostName: string)
      ensures !useThreadName && additionalFields == map[] && fieldTypes == map[] && staticFields == map[]
      ensures host == localHostName
    {
      useThreadName := false;
      additionalFields := map[];
      fieldTypes := map[];
      staticFields := map[];
      host := localHostName;
    }

    /** `mapFields`, given the outputs of the two pattern layouts. The MDC field
        names and the field types play no part. */
    method MapFields(full: string, short: string, timeStamp: int, threadName: string, order: seq<string>) returns (r: Message)
      requires IsKeyOrder(order, staticFields)
      ensures r == AccessFields(host, full, short, timeStamp, useThreadName, threadName, staticFields, order)
    {
      r := BuildFields(host, full, short, timeStamp, useThreadName, threadName, staticFields, order);
    }

    /** `addAdditionalField`: `ok` is false for the `IllegalArgumentException`,
        and then nothing changes. */
    method AddAdditionalField(keyValue: string) returns (ok: bool)
      modifies this`additionalFields
      ensures ok <==> ParseKeyValue(keyValue).Some?
      ensures additionalFields == if ok then old(additionalFields)[ParseKeyValue(keyValue).value.0 := ParseKeyValue(keyValue).value.1]
                                  else old(additionalFields)
    {
      var kv := ParseKeyValue(keyValue);
      if kv.None? {
        return false;
      }
      additionalFields := additionalFields[kv.value.0 := kv.value.1];
      ok := true;
    }

    /** `addStaticAdditionalField`: the same check, into the static fields. */
    method AddStaticAdditionalField(keyValue: string) returns (ok: bool)
      modifies this`staticFields
      ensures ok <==> ParseKeyValue(keyValue).Some?
      ensures staticFields == if ok then old(staticFields)[ParseKeyValue(keyValue).value.0 := ParseKeyValue(keyValue).value.1]
                              else old(staticFields)
    {
      var kv := ParseKeyValue(keyValue);
      if kv.None? {
        return false;
      }
      staticFields := staticFields[kv.value.0 := kv.value.1];
      ok := true;
    }

    /** `addStaticField`: any key and value, colons included. */
    method AddStaticField(key: string, value: string)
      modifies this`staticFields
      ensures staticFields == old(staticFields)[key := value]
    {
      staticFields := staticFields[key := value];
    }

    /** `addFieldType`: two parts and a known type, or nothing changes. */
    method AddFieldType(keyValue: string) returns (ok: bool)
      modifies this`fieldTypes
      ensures ok <==> ParseFieldType(keyValue).Some?
      ensures fieldTypes == if ok then old(fieldTypes)[ParseFieldType(keyValue).value.0 := ParseFieldType(keyValue).value.1]
                            else old(fieldTypes)
      ensures forall k :: k in fieldTypes ==> (k in old(fieldTypes) && fieldTypes[k] == old(fieldTypes)[k]) || fieldTypes[k] in PrimitiveTypes
    {
      var kv := ParseFieldType(keyValue);
      if kv.None? {
        return false;
      }
      fieldTypes := fieldTypes[kv.value.0 := kv.value.1];
      ok := true;
    }
  }

  class GelfLayoutAccess {
    var useThreadName: bool
    var staticFields: map<string, string>
    var host: string

    /** No static fields, no thread name, and the local host name (an input). */
    constructor (localHostName: string)
      ensures !useThreadName && staticFields == map[] && host == localHostName
    {
      useThreadName := false;
      staticFields := map[];
      host := localHostName;
    }

    /** `mapFields`, given the outputs of the two pattern layouts: the same map as
        the access-log variant's. */
    method MapFields(full: string, short: string, timeStamp: int, threadName: string, order: seq<string>) returns (r: Message)
      requires IsKeyOrder(order, staticFields)
      ensures r == AccessFields(host, full, short, timeStamp, useThreadName, threadName, staticFields, order)
    {
      r := BuildFields(host, full, short, timeStamp, useThreadName, threadName, staticFields, order);
    }

    /** `addStaticField`: inserts or overwrites one key. */
    method AddStaticField(key: string, value: string)
      modifies this`staticFields
      ensures staticFields == old(staticFields)[key := value]
    {
      staticFields := staticFields[key := value];
    }
  }
}

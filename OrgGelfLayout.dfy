/** The older package's layout: the same field map as its converter, but built
    from the raw message, with no throwable and an untruncated full message. Its
    settings are fields set after construction, each starting at Java's default
    (`null`, `false`, `0`). */
module OrgGelfLayout {
  import opened JavaLang
  import opened GelfFields
  import opened OrgGelfConverter

  /** The map `createMessage` returns for these settings; `None` when it throws,
      which it does for a negative `shortMessageLength` and for an event with an
      MDC map while `additionalFields` was never set. */
  function LayoutFields(facility: Option<string>, useLoggerName: bool, additionalFields: Option<map<string, string>>,
                        shortMessageLength: int, e: LoggingEvent, hostname: string, now: int, order: seq<string>): Option<Message>
  {
    match TruncateTo(e.message, shortMessageLength)
    case None => None
    case Some(short) =>
      if e.mdc.Some? && additionalFields.None? then None
      else
        var m := map[
          "facility" := if facility.Some? then Text(facility.value) else Null,
          "host" := Text(hostname),
          "short_message" := Text(short),
          "full_message" := Text(e.message),
          "timestamp" := Number(now),
          "version" := Text("1.0"),
          "level" := Number(e.severity)];
        Some(Additional(useLoggerName, if additionalFields.Some? then additionalFields.value else map[], e, m, order))
  }

  class GelfLayout {
    var facility: Option<string>
    var useLoggerName: bool
    var additionalFields: Option<map<string, string>>
    var shortMessageLength: int

    /** Every setting at its Java default. */
    constructor ()
      ensures facility == None && !useLoggerName && additionalFields == None && shortMessageLength == 0
    {
      facility := None;
      useLoggerName := false;
      additionalFields := None;
      shortMessageLength := 0;
    }

    /** `createMessage`, with `additionalFields` inlined. */
    method CreateMessage(e: LoggingEvent, hostname: string, now: int, order: seq<string>) returns (r: Option<Message>)
      requires additionalFields.Some? ==> IsKeyOrder(order, additionalFields.value)
      ensures r == LayoutFields(facility, useLoggerName, additionalFields, shortMessageLength, e, hostname, now, order)
    {
      var m: Message := map[];
      m := m["facility" := if facility.Some? then Text(facility.value) else Null];
      m := m["host" := Text(hostname)];
      var short := TruncateTo(e.message, shortMessageLength);
      if short.None? {
        return None;
      }
      m := m["short_message" := Text(short.value)];
      m := m["full_message" := Text(e.message)];
      m := m["timestamp" := Number(now)];
      m := m["version" := Text("1.0")];
      m := m["level" := Number(e.severity)];
      if useLoggerName {
        m := m["_loggerName" := Text(e.loggerName)];
      }
      if e.mdc.Some? {
        if additionalFields.None? {
          return None;
        }
        m := AddMdcFields(m, additionalFields.value, e.mdc, order);
      }
      r := Some(m);
    }
  }

  /** The layout throws exactly for a negative length or for an MDC map without
      configured fields. */
  lemma LayoutFails(facility: Option<string>, useLoggerName: bool, additionalFields: Option<map<string, string>>,
                    shortMessageLength: int, e: LoggingEvent, hostname: string, now: int, order: seq<string>)
    ensures LayoutFields(facility, useLoggerName, additionalFields, shortMessageLength, e, hostname, now, order).None?
        <==> shortMessageLength < 0 || (e.mdc.Some? && additionalFields.None?)
  {
  }

  /** `short_message` is the raw message cut to `shortMessageLength`, `full_message`
      the raw message whole; an unset facility is put as `null`. With the default
      length of 0 the short message is empty. */
  lemma LayoutMessagesHold(facility: Option<string>, useLoggerName: bool, fields: map<string, string>,
                           shortMessageLength: int, e: LoggingEvent, hostname: string, now: int, order: seq<string>)
    requires shortMessageLength >= 0
    requires Renamed(fields, e) !! {"facility", "short_message", "full_message"}
    ensures var r := LayoutFields(facility, useLoggerName, Some(fields), shortMessageLength, e, hostname, now, order).value;
      "full_message" in r && r["full_message"] == Text(e.message)
      && "short_message" in r && r["short_message"].Text?
      && var short := r["short_message"].s;
      |short| <= shortMessageLength && short <= e.message && (|e.message| <= shortMessageLength ==> short == e.message)
      && (shortMessageLength == 0 ==> short == "")
      && "facility" in r && (r["facility"] == Null <==> facility.None?)
  {
    var short := TruncateTo(e.message, shortMessageLength).value;
    var m := map[
          "facility" := if facility.Some? then Text(facility.value) else Null,
          "host" := Text(hostname),
          "short_message" := Text(short),
          "full_message" := Text(e.message),
          "timestamp" := Number(now),
          "version" := Text("1.0"),
          "level" := Number(e.severity)];
    KeptField(useLoggerName, fields, e, m, order, "facility");
    KeptField(useLoggerName, fields, e, m, order, "short_message");
    KeptField(useLoggerName, fields, e, m, order, "full_message");
  }

  /** Host and clock as given, version `"1.0"`, the severity as `level`, and
      `_loggerName` exactly when `useLoggerName` is set (unless an MDC entry is
      renamed onto them). */
  lemma LayoutHeaderFieldsHold(facility: Option<string>, useLoggerName: bool, fields: map<string, string>,
                               shortMessageLength: int, e: LoggingEvent, hostname: string, now: int, order: seq<string>)
    requires shortMessageLength >= 0
    requires Renamed(fields, e) !! {"host", "timestamp", "version", "level", "_loggerName"}
    ensures var r := LayoutFields(facility, useLoggerName, Some(fields), shortMessageLength, e, hostname, now, order).value;
      "host" in r && r["host"] == Text(hostname)
      && "timestamp" in r && r["timestamp"] == Number(now)
      && "version" in r && r["version"] == Text("1.0")
      && "level" in r && r["level"] == Number(e.severity)
      && ("_loggerName" in r <==> useLoggerName) && (useLoggerName ==> r["_loggerName"] == Text(e.loggerName))
  {
    var short := TruncateTo(e.message, shortMessageLength).value;
    var m := map[
          "facility" := if facility.Some? then Text(facility.value) else Null,
          "host" := Text(hostname),
          "short_message" := Text(short),
          "full_message" := Text(e.message),
          "timestamp" := Number(now),
          "version" := Text("1.0"),
          "level" := Number(e.severity)];
    KeptField(useLoggerName, fields, e, m, order, "host");
    KeptField(useLoggerName, fields, e, m, order, "timestamp");
    KeptField(useLoggerName, fields, e, m, order, "version");
    KeptField(useLoggerName, fields, e, m, order, "level");
    LoggerNameHolds(useLoggerName, fields, e, m, order);
  }

  /** Without an MDC map the layout never needs its field table: set or not, and
      whatever it holds, the map is the same. */
  lemma LayoutIgnoresFieldsWithoutMdc(facility: Option<string>, useLoggerName: bool, additionalFields: Option<map<string, string>>,
                                      shortMessageLength: int, e: LoggingEvent, hostname: string, now: int, order: seq<string>)
    requires e.mdc.None?
    ensures LayoutFields(facility, useLoggerName, additionalFields, shortMessageLength, e, hostname, now, order)
         == LayoutFields(facility, useLoggerName, None, shortMessageLength, e, hostname, now, [])
  {
  }
}

/** The older package's converter: the GELF field map of a logging event, with
    the exception text folded into the messages. The host name, the clock and
    the syslog severity of the level come in from outside. */
module OrgGelfConverter {
  import opened JavaLang
  import opened GelfFields

  /** `LONG_MESSAGE_LENGTH`: the longest full message. */
  const LongMessageLength: nat := 4096

  /** The throwable of an event: class name, message and one rendered line per
      stack frame (`getSTEAsString`). */
  datatype ThrowableProxy = ThrowableProxy(className: string, message: string, stackTrace: seq<string>)

  /** What the older converter and layout read from a logging event: the raw and
      the formatted message, the logger name, the MDC map (`None` is `null`), the
      syslog severity and the throwable, if any. */
  datatype LoggingEvent = LoggingEvent(
    message: string,
    formattedMessage: string,
    loggerName: string,
    mdc: Option<map<string, string>>,
    severity: int,
    throwable: Option<ThrowableProxy>)

  /** The converter's configuration, fixed at construction. */
  datatype Converter = Converter(
    facility: string,
    useLoggerName: bool,
    additionalFields: map<string, string>,
    shortMessageLength: int)

  /** `toStackTraceString`: the frames appended one after the other. */
  method ToStackTraceString(elements: seq<string>) returns (s: string)
    ensures s == Flatten(elements)
  {
    s := "";
    var i := 0;
    while i < |elements|
      invariant 0 <= i <= |elements|
      invariant s == Flatten(elements[..i])
    {
      FlattenSnoc(elements[..i], elements[i]);
      assert elements[..i + 1] == elements[..i] + [elements[i]];
      s := s + elements[i];
      i := i + 1;
    }
    assert elements[..i] == elements;
  }

  /** The text of `full_message` before truncation. */
  function LongText(e: LoggingEvent): string
  {
    match e.throwable
    case None => e.formattedMessage
    case Some(t) => e.formattedMessage + "\n" + t.className + ": " + t.message + "\n" + Flatten(t.stackTrace)
  }

  /** The text of `short_message` before truncation. */
  function ShortText(e: LoggingEvent): string
  {
    match e.throwable
    case None => e.formattedMessage
    case Some(t) => e.formattedMessage + ", " + t.className + ": " + t.message
  }

  /** The logger name entry and the MDC loop of `additionalFields`. */
  function Additional(useLoggerName: bool, fields: map<string, string>, e: LoggingEvent, m: Message, order: seq<string>): Message
  {
    var m := if useLoggerName then m["_loggerName" := Text(e.loggerName)] else m;
    if e.mdc.None? then m else MdcFields(m, fields, e.mdc.value, order)
  }

  /** The map `createMessage` returns at time `now` on host `hostname`, when the
      MDC loop visits the configured keys in `order`; `None` when it throws. */
  function Fields(c: Converter, e: LoggingEvent, hostname: string, now: int, order: seq<string>): Option<Message>
  {
    match TruncateTo(ShortText(e), c.shortMessageLength)
    case None => None
    case Some(short) =>
      var m := map[
        "facility" := Text(c.facility),
        "host" := Text(hostname),
        "full_message" := Text(Truncate(LongText(e), LongMessageLength)),
        "short_message" := Text(short),
        "timestamp" := Number(now),
        "version" := Text("1.0"),
        "level" := Number(e.severity)];
      Some(Additional(c.useLoggerName, c.additionalFields, e, m, order))
  }

  /** `createMessage`, with `additionalFields` inlined. */
  method CreateMessage(c: Converter, e: LoggingEvent, hostname: string, now: int, order: seq<string>)
      returns (r: Option<Message>)
    requires IsKeyOrder(order, c.additionalFields)
    ensures r == Fields(c, e, hostname, now, order)
  {
    var m: Message := map[];
    m := m["facility" := Text(c.facility)];
    m := m["host" := Text(hostname)];
    var full, short;
    if e.throwable.Some? {
      var t := e.throwable.value;
      var trace := ToStackTraceString(t.stackTrace);
      full := e.formattedMessage + "\n" + t.className + ": " + t.message + "\n" + trace;
      short := e.formattedMessage + ", " + t.className + ": " + t.message;
    } else {
      full := e.formattedMessage;
      short := e.formattedMessage;
    }
    m := m["full_message" := Text(Truncate(full, LongMessageLength))];
    var truncated := TruncateTo(short, c.shortMessageLength);
    if truncated.None? {
      return None;
    }
    m := m["short_message" := Text(truncated.value)];
    m := m["timestamp" := Number(now)];
    m := m["version" := Text("1.0")];
    m := m["level" := Number(e.severity)];
    if c.useLoggerName {
      m := m["_loggerName" := Text(e.loggerName)];
    }
    m := AddMdcFields(m, c.additionalFields, e.mdc, order);
    r := Some(m);
  }

  /** The field names the MDC loop writes for this event. */
  function Renamed(fields: map<string, string>, e: LoggingEvent): set<string>
  {
    if e.mdc.None? then {} else MdcNames(fields, e.mdc.value)
  }

  /** A field no MDC entry is renamed onto keeps what was put before the loop. */
  lemma KeptField(useLoggerName: bool, fields: map<string, string>, e: LoggingEvent, m: Message, order: seq<string>, name: string)
    requires name !in Renamed(fields, e) && name != "_loggerName"
    ensures var r := Additional(useLoggerName, fields, e, m, order);
      (name in r <==> name in m) && (name in m ==> r[name] == m[name])
  {
    if e.mdc.Some? {
      var m' := if useLoggerName then m["_loggerName" := Text(e.loggerName)] else m;
      MdcFieldsMiss(m', fields, e.mdc.value, order, name);
    }
  }

  /** `createMessage` throws exactly for a negative `shortMessageLength`. */
  lemma FieldsFail(c: Converter, e: LoggingEvent, hostname: string, now: int, order: seq<string>)
    ensures Fields(c, e, hostname, now, order).None? <==> c.shortMessageLength < 0
  {
  }

  /** Both messages start from the formatted message. The full message is at most
      4096 characters and a prefix of the message, newline, exception class and
      message, newline and the stack frames (the bare message without a
      throwable); the short one is at most `shortMessageLength` characters and a
      prefix of the message, comma, class and exception message. Each is its
      whole text when that fits. */
  lemma MessagesHold(c: Converter, e: LoggingEvent, hostname: string, now: int, order: seq<string>)
    requires c.shortMessageLength >= 0
    requires Renamed(c.additionalFields, e) !! {"full_message", "short_message"}
    ensures var r := Fields(c, e, hostname, now, order).value;
      "full_message" in r && r["full_message"].Text?
      && "short_message" in r && r["short_message"].Text?
      && var (full, short) := (r["full_message"].s, r["short_message"].s);
      |full| <= LongMessageLength && full <= LongText(e) && (|LongText(e)| <= LongMessageLength ==> full == LongText(e))
      && |short| <= c.shortMessageLength && short <= ShortText(e) && (|ShortText(e)| <= c.shortMessageLength ==> short == ShortText(e))
      && (e.throwable.None? ==> LongText(e) == ShortText(e) == e.formattedMessage)
      && e.formattedMessage <= LongText(e) && e.formattedMessage <= ShortText(e)
  {
    var short := TruncateTo(ShortText(e), c.shortMessageLength).value;
    var m := map[
        "facility" := Text(c.facility),
        "host" := Text(hostname),
        "full_message" := Text(Truncate(LongText(e), LongMessageLength)),
        "short_message" := Text(short),
        "timestamp" := Number(now),
        "version" := Text("1.0"),
        "level" := Number(e.severity)];
    KeptField(c.useLoggerName, c.additionalFields, e, m, order, "full_message");
    KeptField(c.useLoggerName, c.additionalFields, e, m, order, "short_message");
  }

  /** Facility and host as given, the clock as `timestamp`, version `"1.0"` and the
      severity as `level` (unless an MDC entry is renamed onto them). */
  lemma HeaderFieldsHold(c: Converter, e: LoggingEvent, hostname: string, now: int, order: seq<string>)
    requires c.shortMessageLength >= 0
    requires Renamed(c.additionalFields, e) !! {"facility", "host", "timestamp", "version", "level"}
    ensures var r := Fields(c, e, hostname, now, order).value;
      "facility" in r && r["facility"] == Text(c.facility)
      && "host" in r && r["host"] == Text(hostname)
      && "timestamp" in r && r["timestamp"] == Number(now)
      && "version" in r && r["version"] == Text("1.0")
      && "level" in r && r["level"] == Number(e.severity)
  {
    var short := TruncateTo(ShortText(e), c.shortMessageLength).value;
    var m := map[
        "facility" := Text(c.facility),
        "host" := Text(hostname),
        "full_message" := Text(Truncate(LongText(e), LongMessageLength)),
        "short_message" := Text(short),
        "timestamp" := Number(now),
        "version" := Text("1.0"),
        "level" := Number(e.severity)];
    KeptField(c.useLoggerName, c.additionalFields, e, m, order, "facility");
    KeptField(c.useLoggerName, c.additionalFields, e, m, order, "host");
    KeptField(c.useLoggerName, c.additionalFields, e, m, order, "timestamp");
    KeptField(c.useLoggerName, c.additionalFields, e, m, order, "version");
    KeptField(c.useLoggerName, c.additionalFields, e, m, order, "level");
  }

  /** `_loggerName` is present exactly when `useLoggerName` is set (unless an MDC
      entry is renamed onto it). */
  lemma LoggerNameHolds(useLoggerName: bool, fields: map<string, string>, e: LoggingEvent, m: Message, order: seq<string>)
    requires "_loggerName" !in Renamed(fields, e) && "_loggerName" !in m
    ensures var r := Additional(useLoggerName, fields, e, m, order);
      ("_loggerName" in r <==> useLoggerName) && (useLoggerName ==> r["_loggerName"] == Text(e.loggerName))
  {
    if e.mdc.Some? {
      var m' := if useLoggerName then m["_loggerName" := Text(e.loggerName)] else m;
      MdcFieldsMiss(m', fields, e.mdc.value, order, "_loggerName");
    }
  }

  /** With distinct field names, every configured MDC key that has a value ends up
      under its field name: the MDC entries are put last. */
  lemma MdcFieldsWin(useLoggerName: bool, fields: map<string, string>, e: LoggingEvent, m: Message, order: seq<string>, key: string)
    requires IsKeyOrder(order, fields) && Injective(fields)
    requires e.mdc.Some? && key in e.mdc.value && key in fields
    ensures var r := Additional(useLoggerName, fields, e, m, order);
      fields[key] in r && r[fields[key]] == Text(e.mdc.value[key])
  {
    var m' := if useLoggerName then m["_loggerName" := Text(e.loggerName)] else m;
    MdcFieldsHit(m', fields, e.mdc.value, order, key);
  }
}

/** The newer package's converter: the GELF field map of a logging event. The
    rendered pattern-layout text of the event, the host name and the syslog
    severity of its level come in from outside. */
module GelfConverter {
  import opened JavaLang
  import opened GelfFields

  /** One caller-data frame. */
  datatype StackFrame = StackFrame(fileName: string, lineNumber: int)

  /** What the converter reads from a logging event. */
  datatype LoggingEvent = LoggingEvent(
    loggerName: string,
    threadName: string,
    callerData: seq<StackFrame>,
    mdc: Option<map<string, string>>,
    timeStamp: int,
    severity: int)

  /** The converter's configuration, fixed at construction. */
  datatype Converter = Converter(
    facility: string,
    useLoggerName: bool,
    useThreadName: bool,
    additionalFields: map<string, string>,
    shortMessageLength: int,
    hostname: string)

  /** The `file` value built from a frame: file name, colon, line number. */
  function FileField(frame: StackFrame): string
  {
    frame.fileName + ":" + IntToString(frame.lineNumber)
  }

  /** The entries `mapFields` puts before `additionalFields`, `short` being the
      truncated text. */
  function StandardFields(c: Converter, e: LoggingEvent, message: string, short: string): Message
  {
    var m := map[
      "facility" := Text(c.facility),
      "host" := Text(c.hostname),
      "full_message" := Text(message),
      "short_message" := Text(short)];
    var m := if |e.callerData| > 0 then m["file" := Text(FileField(e.callerData[0]))] else m;
    m["timestamp" := Seconds(e.timeStamp)]["version" := Text("1.0")]["level" := Number(e.severity)]
  }

  /** The logger and thread name entries of `additionalFields`. */
  function NameFields(c: Converter, e: LoggingEvent, m: Message): Message
  {
    var m := if c.useLoggerName then m["_loggerName" := Text(e.loggerName)] else m;
    if c.useThreadName then m["_threadName" := Text(e.threadName)] else m
  }

  /** The map before the MDC loop; `None` when the truncation throws. */
  function Unrenamed(c: Converter, e: LoggingEvent, message: string): Option<Message>
  {
    match TruncateTo(message, c.shortMessageLength)
    case None => None
    case Some(short) => Some(NameFields(c, e, StandardFields(c, e, message, short)))
  }

  /** The map `mapFields` returns for the rendered `message`, when the MDC loop
      visits the configured keys in `order`; `None` when it throws. */
  function Fields(c: Converter, e: LoggingEvent, message: string, order: seq<string>): Option<Message>
  {
    match Unrenamed(c, e, message)
    case None => None
    case Some(m) => Some(if e.mdc.None? then m else MdcFields(m, c.additionalFields, e.mdc.value, order))
  }

  /** `mapFields`, with `stackTraceField` and `additionalFields` inlined. */
  method MapFields(c: Converter, e: LoggingEvent, message: string, order: seq<string>) returns (r: Option<Message>)
    requires IsKeyOrder(order, c.additionalFields)
    ensures r == Fields(c, e, message, order)
  {
    var short := TruncateTo(message, c.shortMessageLength);
    if short.None? {
      return None;
    }
    var m := map[];
    m := m["facility" := Text(c.facility)];
    m := m["host" := Text(c.hostname)];
    m := m["full_message" := Text(message)];
    m := m["short_message" := Text(short.value)];
    if |e.callerData| > 0 {
      m := m["file" := Text(FileField(e.callerData[0]))];
    }
    m := m["timestamp" := Seconds(e.timeStamp)];
    m := m["version" := Text("1.0")];
    m := m["level" := Number(e.severity)];
    if c.useLoggerName {
      m := m["_loggerName" := Text(e.loggerName)];
    }
    if c.useThreadName {
      m := m["_threadName" := Text(e.threadName)];
    }
    m := AddMdcFields(m, c.additionalFields, e.mdc, order);
    r := Some(m);
  }

  /** The field names the MDC loop writes for this event. */
  function Renamed(c: Converter, e: LoggingEvent): set<string>
  {
    if e.mdc.None? then {} else MdcNames(c.additionalFields, e.mdc.value)
  }

  /** `mapFields` throws exactly for a negative `shortMessageLength`. */
  lemma FieldsFail(c: Converter, e: LoggingEvent, message: string, order: seq<string>)
    ensures Fields(c, e, message, order).None? <==> c.shortMessageLength < 0
  {
  }

  /** A field no MDC entry is renamed onto keeps what was put before the MDC loop. */
  lemma KeptField(c: Converter, e: LoggingEvent, message: string, order: seq<string>, name: string)
    requires IsKeyOrder(order, c.additionalFields) && name !in Renamed(c, e)
    requires c.shortMessageLength >= 0
    ensures Fields(c, e, message, order).Some? && Unrenamed(c, e, message).Some?
    ensures var r, m := Fields(c, e, message, order).value, Unrenamed(c, e, message).value;
      (name in r <==> name in m) && (name in m ==> r[name] == m[name])
  {
    if e.mdc.Some? {
      MdcFieldsMiss(Unrenamed(c, e, message).value, c.additionalFields, e.mdc.value, order, name);
    }
  }

  /** Where no MDC entry is renamed onto them, the standard fields are: facility and
      host from the configuration, the rendered text as `full_message` and its
      truncation to `shortMessageLength` (a prefix of it, the whole text when short
      enough) as `short_message`. */
  lemma MessageFieldsHold(c: Converter, e: LoggingEvent, message: string, order: seq<string>)
    requires IsKeyOrder(order, c.additionalFields)
    requires Renamed(c, e) !! {"facility", "host", "full_message", "short_message"}
    requires c.shortMessageLength >= 0
    ensures var r := Fields(c, e, message, order).value;
      "facility" in r && r["facility"] == Text(c.facility)
      && "host" in r && r["host"] == Text(c.hostname)
      && "full_message" in r && r["full_message"] == Text(message)
      && "short_message" in r && r["short_message"].Text?
      && var s := r["short_message"].s;
         |s| <= c.shortMessageLength && s <= message && (|message| <= c.shortMessageLength ==> s == message)
  {
    assert Fields(c, e, message, order).Some?;
    KeptField(c, e, message, order, "facility");
    KeptField(c, e, message, order, "host");
    KeptField(c, e, message, order, "full_message");
    KeptField(c, e, message, order, "short_message");
  }

  /** Likewise version `"1.0"`, the severity as `level` and the event time stamp. */
  lemma HeaderFieldsHold(c: Converter, e: LoggingEvent, message: string, order: seq<string>)
    requires IsKeyOrder(order, c.additionalFields)
    requires Renamed(c, e) !! {"version", "level", "timestamp"}
    requires c.shortMessageLength >= 0
    ensures var r := Fields(c, e, message, order).value;
      "version" in r && r["version"] == Text("1.0")
      && "level" in r && r["level"] == Number(e.severity)
      && "timestamp" in r && r["timestamp"] == Seconds(e.timeStamp)
  {
    KeptField(c, e, message, order, "version");
    KeptField(c, e, message, order, "level");
    KeptField(c, e, message, order, "timestamp");
  }

  /** `file` is present exactly when the event has caller data, and then names the
      file and line of the first frame. */
  lemma FileFieldHolds(c: Converter, e: LoggingEvent, message: string, order: seq<string>)
    requires IsKeyOrder(order, c.additionalFields) && "file" !in Renamed(c, e)
    requires c.shortMessageLength >= 0
    ensures var r := Fields(c, e, message, order).value;
      ("file" in r <==> |e.callerData| > 0)
      && (|e.callerData| > 0 ==> r["file"] == Text(FileField(e.callerData[0])))
  {
    KeptField(c, e, message, order, "file");
  }

  /** `_loggerName` is present exactly when `useLoggerName` is set, `_threadName`
      exactly when `useThreadName` is (unless an MDC entry is renamed onto them). */
  lemma NameFieldsHold(c: Converter, e: LoggingEvent, message: string, order: seq<string>)
    requires IsKeyOrder(order, c.additionalFields)
    requires c.shortMessageLength >= 0
    ensures var r := Fields(c, e, message, order).value;
      ("_loggerName" !in Renamed(c, e) ==>
         ("_loggerName" in r <==> c.useLoggerName) && (c.useLoggerName ==> r["_loggerName"] == Text(e.loggerName)))
      && ("_threadName" !in Renamed(c, e) ==>
         ("_threadName" in r <==> c.useThreadName) && (c.useThreadName ==> r["_threadName"] == Text(e.threadName)))
  {
    if "_loggerName" !in Renamed(c, e) {
      KeptField(c, e, message, order, "_loggerName");
    }
    if "_threadName" !in Renamed(c, e) {
      KeptField(c, e, message, order, "_threadName");
    }
  }

  /** The MDC entries come last: with distinct field names, every configured MDC key
      that has a value ends up under its field name, overriding any standard field
      of that name. */
  lemma MdcFieldsWin(c: Converter, e: LoggingEvent, message: string, order: seq<string>, key: string)
    requires IsKeyOrder(order, c.additionalFields) && Injective(c.additionalFields)
    requires e.mdc.Some? && key in e.mdc.value && key in c.additionalFields
    requires c.shortMessageLength >= 0
    ensures var r := Fields(c, e, message, order).value;
      c.additionalFields[key] in r && r[c.additionalFields[key]] == Text(e.mdc.value[key])
  {
    MdcFieldsHit(Unrenamed(c, e, message).value, c.additionalFields, e.mdc.value, order, key);
  }

  /** Without an MDC map nothing is renamed, whatever is configured. */
  lemma NoMdcNoExtraFields(c: Converter, e: LoggingEvent, message: string, order: seq<string>, other: map<string, string>)
    requires e.mdc.None?
    ensures Fields(c, e, message, order) == Fields(c.(additionalFields := other), e, message, [])
  {
  }
}

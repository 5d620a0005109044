/** The AMQP transport's `send`: publish the message with a fixed set of
    properties and wait for the broker's confirm, retrying on any failure with a
    fresh connection. One message id (from the clock and a random UUID, both
    arguments here) is shared by every attempt, so a broker can spot the
    duplicates an unconfirmed attempt leaves behind. What each attempt's
    connection, publish and confirm do is given by the oracles `connects` and
    `outcome`, indexed by the attempt number. */
module AmqpTransport {
  import opened JavaLang

  /** An open channel. */
  datatype Channel = Channel

  /** How an attempt that has a channel ends: the publish throws, the publish goes
      through but the confirm throws, or both succeed. */
  datatype Outcome = Refused | Unconfirmed | Confirmed

  /** The message properties set on every publish. */
  datatype Properties = Properties(contentType: string, contentEncoding: string, messageId: string, timestamp: int)

  /** One `basicPublish`. */
  datatype Publish = Publish(exchange: string, routingKey: string, properties: Properties, body: seq<byte>)

  /** The duplicate-detection id: `"gelf"`, the clock in milliseconds, the UUID. */
  function MessageId(now: int, uuid: string): string
  {
    "gelf" + (IntToString(now) + uuid)
  }

  /** For UUIDs of one length (`UUID.toString` always gives 36 characters) the id
      determines both the clock and the UUID: sends in different milliseconds, or
      with different UUIDs, never share a duplicate-detection id. */
  lemma MessageIdInjective(now: int, uuid: string, now': int, uuid': string)
    requires |uuid| == |uuid'|
    ensures MessageId(now, uuid) == MessageId(now', uuid') <==> now == now' && uuid == uuid'
  {
    if MessageId(now, uuid) == MessageId(now', uuid') {
      var id := MessageId(now, uuid);
      var a, b := IntToString(now), IntToString(now');
      assert ("gelf" + (a + uuid))[4..] == a + uuid && ("gelf" + (b + uuid'))[4..] == b + uuid';
      assert id[4..] == a + uuid == b + uuid';
      assert (a + uuid)[..|a|] == a && (b + uuid')[..|b|] == b;
      assert (a + uuid)[|a|..] == uuid && (b + uuid')[|b|..] == uuid';
      IntToStringInjective(now, now');
    }
  }

  /** The properties of every attempt of one send. */
  function SendProperties(messageId: string, eventTime: int): Properties
  {
    Properties("application/json; charset=utf-8", "gzip", messageId, eventTime)
  }

  /** Whether attempt `i` has a channel: only the very first can find one left open
      by an earlier send; every later attempt follows a failure that dropped it. */
  function HasChannel(i: nat, hadChannel: bool, connects: nat -> bool): bool
  {
    (i == 0 && hadChannel) || connects(i)
  }

  /** Whether attempt `i` would publish and be confirmed. */
  function Succeeds(i: nat, hadChannel: bool, connects: nat -> bool, outcome: nat -> Outcome): bool
  {
    HasChannel(i, hadChannel, connects) && outcome(i) == Confirmed
  }

  /** How many of the first `n` attempts reached the broker with a publish. */
  function PublishCount(n: nat, hadChannel: bool, connects: nat -> bool, outcome: nat -> Outcome): (c: nat)
    ensures c <= n
  {
    if n == 0 then 0
    else
      var published := HasChannel(n - 1, hadChannel, connects) && outcome(n - 1) != Refused;
      PublishCount(n - 1, hadChannel, connects, outcome) + (if published then 1 else 0)
  }

  /** `k` copies of the one publish of a send. */
  function Repeat(p: Publish, k: nat): (r: seq<Publish>)
    ensures |r| == k
    ensures forall i :: 0 <= i < k ==> r[i] == p
  {
    if k == 0 then [] else Repeat(p, k - 1) + [p]
  }

  /** One more attempt adds its publish, if it made one, to the record. */
  lemma PublishStep(before: seq<Publish>, p: Publish, n: nat, hadChannel: bool, connects: nat -> bool, outcome: nat -> Outcome)
    ensures before + Repeat(p, PublishCount(n + 1, hadChannel, connects, outcome))
         == before + Repeat(p, PublishCount(n, hadChannel, connects, outcome))
            + (if HasChannel(n, hadChannel, connects) && outcome(n) != Refused then [p] else [])
  {
    var r := Repeat(p, PublishCount(n, hadChannel, connects, outcome));
    var extra := if HasChannel(n, hadChannel, connects) && outcome(n) != Refused then [p] else [];
    assert Repeat(p, PublishCount(n + 1, hadChannel, connects, outcome)) == r + extra;
    assert before + (r + extra) == before + r + extra;
  }

  /** Whether `maxRetries` bounds the loop. `tries` is a Java `int`: once it passes
      `Integer.MAX_VALUE` it wraps to a negative value, so with `maxRetries` equal to
      `Integer.MAX_VALUE` the test `tries <= maxRetries` never fails, as with a
      negative `maxRetries`. */
  predicate Bounded(maxRetries: int)
  {
    0 <= maxRetries < IntMax
  }

  /** The loop test after `n` failed attempts, on the wrapped counter, goes on
      exactly when the loop is unbounded or fewer than `maxRetries` have failed. */
  lemma LoopTest(n: nat, maxRetries: int)
    requires Bounded(maxRetries) ==> n <= maxRetries + 1
    ensures (JavaInt(n) <= maxRetries || maxRetries < 0) <==> (!Bounded(maxRetries) || n <= maxRetries)
  {
  }

  /** With `maxRetries == Integer.MAX_VALUE` the test still passes after `2^31`
      failures, because the counter has wrapped to `Integer.MIN_VALUE`. */
  lemma MaxRetriesWraps()
    ensures JavaInt(IntMax + 1) == -IntMax - 1 && JavaInt(IntMax + 1) <= IntMax
    ensures !Bounded(IntMax)
  {
  }

  class AMQPTransport {
    const exchangeName: string
    const routingKey: string
    const maxRetries: int
    var channel: Option<Channel>

    /** How many connections were opened. */
    ghost var connections: nat
    /** Every publish that reached the broker, in order. */
    ghost var published: seq<Publish>

    constructor (exchangeName: string, routingKey: string, maxRetries: int)
      ensures this.exchangeName == exchangeName && this.routingKey == routingKey && this.maxRetries == maxRetries
      ensures channel == None && connections == 0 && published == []
    {
      this.exchangeName := exchangeName;
      this.routingKey := routingKey;
      this.maxRetries := maxRetries;
      channel := None;
      connections, published := 0, [];
    }

    /** `send(data, event)`, for the event's time stamp. The attempts stop at the
        first confirmed one or, when `maxRetries` bounds the loop, after
        `maxRetries + 1` of them; with a negative `maxRetries` or
        `Integer.MAX_VALUE` only success ends the loop, so some attempt must
        succeed. Every attempt publishes with the
        same properties, so with the same message id. */
    method Send(data: seq<byte>, eventTime: int, now: int, uuid: string, connects: nat -> bool, outcome: nat -> Outcome)
        returns (attempts: nat)
      requires Bounded(maxRetries) || exists n: nat :: Succeeds(n, channel.Some?, connects, outcome)
      modifies this`channel, this`connections, this`published
      ensures var had := old(channel).Some?;
        1 <= attempts && (Bounded(maxRetries) ==> attempts <= maxRetries + 1)
        && (forall i: nat :: i < attempts - 1 ==> !Succeeds(i, had, connects, outcome))
        && (Succeeds(attempts - 1, had, connects, outcome) || (Bounded(maxRetries) && attempts == maxRetries + 1))
        && (channel.Some? <==> Succeeds(attempts - 1, had, connects, outcome))
      ensures var had := old(channel).Some?;
        published == old(published)
          + Repeat(Publish(exchangeName, routingKey, SendProperties(MessageId(now, uuid), eventTime), data),
                   PublishCount(attempts, had, connects, outcome))
    {
      var messageid := MessageId(now, uuid);
      attempts := Retry(data, SendProperties(messageid, eventTime), channel.Some?, connects, outcome);
    }

    /** The do-while loop of `send`, publishing `data` with `properties`. */
    method Retry(data: seq<byte>, properties: Properties, ghost had: bool, connects: nat -> bool, outcome: nat -> Outcome)
        returns (attempts: nat)
      requires had == channel.Some?
      requires Bounded(maxRetries) || exists n: nat :: Succeeds(n, had, connects, outcome)
      modifies this`channel, this`connections, this`published
      ensures 1 <= attempts && (Bounded(maxRetries) ==> attempts <= maxRetries + 1)
      ensures forall i: nat :: i < attempts - 1 ==> !Succeeds(i, had, connects, outcome)
      ensures Succeeds(attempts - 1, had, connects, outcome) || (Bounded(maxRetries) && attempts == maxRetries + 1)
      ensures channel.Some? <==> Succeeds(attempts - 1, had, connects, outcome)
      ensures published == old(published)
        + Repeat(Publish(exchangeName, routingKey, properties, data), PublishCount(attempts, had, connects, outcome))
    {
      ghost var rec := Publish(exchangeName, routingKey, properties, data);
      ghost var before := published;
      ghost var bound: nat;
      if Bounded(maxRetries) {
        bound := maxRetries;
      } else {
        ghost var n: nat :| Succeeds(n, had, connects, outcome);
        bound := n;
      }
      var tries := 0;
      var ok := Pass(data, properties, 0, had, connects, outcome, before);
      LoopTest(tries + 1, maxRetries);
      while !ok && (JavaInt(tries + 1) <= maxRetries || maxRetries < 0)
        invariant tries <= bound && (Bounded(maxRetries) ==> tries <= maxRetries)
        invariant !Bounded(maxRetries) ==> Succeeds(bound, had, connects, outcome)
        invariant forall i: nat :: i < tries ==> !Succeeds(i, had, connects, outcome)
        invariant ok == Succeeds(tries, had, connects, outcome) && (channel.Some? <==> ok)
        invariant published == before + Repeat(rec, PublishCount(tries + 1, had, connects, outcome))
        decreases bound - tries
      {
        tries := tries + 1;
        ok := Pass(data, properties, tries, had, connects, outcome, before);
        LoopTest(tries + 1, maxRetries);
      }
      attempts := tries + 1;
    }

    /** Attempt number `tries` of the loop, seen through the oracles: it succeeds
        exactly when `Succeeds` says so, adds its publish to the record, and leaves
        a channel exactly on success. */
    method Pass(data: seq<byte>, properties: Properties, tries: nat, ghost had: bool,
                connects: nat -> bool, outcome: nat -> Outcome, ghost before: seq<Publish>) returns (ok: bool)
      requires channel.Some? <==> tries == 0 && had
      requires published == before + Repeat(Publish(exchangeName, routingKey, properties, data), PublishCount(tries, had, connects, outcome))
      modifies this`channel, this`connections, this`published
      ensures ok == Succeeds(tries, had, connects, outcome) && (channel.Some? <==> ok)
      ensures published == before + Repeat(Publish(exchangeName, routingKey, properties, data), PublishCount(tries + 1, had, connects, outcome))
    {
      var connected, result := connects(tries), outcome(tries);
      assert channel.Some? || connected <==> HasChannel(tries, had, connects);
      ok := Attempt(data, properties, connected, result);
      PublishStep(before, Publish(exchangeName, routingKey, properties, data), tries, had, connects, outcome);
    }

    /** One pass of the loop body: open a connection if there is no channel
        (`connects` says whether that works), then publish and wait for the
        confirm; on any failure drop the channel. `ok` is false when anything
        threw. */
    method Attempt(data: seq<byte>, properties: Properties, connects: bool, outcome: Outcome) returns (ok: bool)
      modifies this`channel, this`connections, this`published
      ensures var has := old(channel).Some? || connects;
        ok == (has && outcome == Confirmed)
        && published == old(published)
             + (if has && outcome != Refused then [Publish(exchangeName, routingKey, properties, data)] else [])
        && (channel.Some? <==> ok)
        && connections == old(connections) + (if old(channel) == None && connects then 1 else 0)
    {
      if channel == None {
        if !connects {
          return false;
        }
        channel := Some(Channel);
        connections := connections + 1;
      }
      match outcome {
        case Refused =>
          ok := false;
        case Unconfirmed =>
          published := published + [Publish(exchangeName, routingKey, properties, data)];
          ok := false;
        case Confirmed =>
          published := published + [Publish(exchangeName, routingKey, properties, data)];
          ok := true;
      }
      if !ok {
        channel := None;
      }
    }
  }
}

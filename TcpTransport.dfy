/** The TCP transport: one long-lived socket, checked and if need be replaced
    before every send, and packets written null-terminated one after the other.
    Each socket's output stream is the ghost map `streams`, keyed by the number of
    the connection; whether the socket reports itself closed or connected,
    whether a new connection succeeds and where a write fails are arguments.
    Every I/O failure is swallowed, as in the source. */
module TcpTransport {
  import opened JavaLang

  /** A connected socket and the server end it was opened to. */
  datatype Socket = Socket(address: string, port: int)

  /** `invalidSocket`: a socket exists but is closed or not connected. */
  predicate InvalidSocket(socket: Option<Socket>, isClosed: bool, isConnected: bool)
  {
    socket != None && (isClosed || !isConnected)
  }

  /** `writeNullTerminated`: the packet, then one `0x00`. */
  function NullTerminated(packet: seq<byte>): (r: seq<byte>)
    ensures |r| == |packet| + 1 && r[..|packet|] == packet && r[|packet|] == 0
  {
    packet + [0]
  }

  /** The stream bytes of writing each packet null-terminated, in order. */
  function Frames(packets: seq<seq<byte>>): seq<byte>
  {
    if packets == [] then [] else Frames(packets[..|packets| - 1]) + NullTerminated(packets[|packets| - 1])
  }

  /** How a receiver cuts a stream at the null bytes (`acc` is the frame read so
      far; an unterminated tail is not a frame). */
  function Unframe(s: seq<byte>, acc: seq<byte>): seq<seq<byte>>
    decreases |s|
  {
    if s == [] then []
    else if s[0] == 0 then [acc] + Unframe(s[1..], [])
    else Unframe(s[1..], acc + [s[0]])
  }

  /** Reading one null-free packet and its terminator. */
  lemma {:induction false} UnframeOne(p: seq<byte>, rest: seq<byte>, acc: seq<byte>)
    requires forall k :: 0 <= k < |p| ==> p[k] != 0
    ensures Unframe(p + [0] + rest, acc) == [acc + p] + Unframe(rest, [])
    decreases |p|
  {
    if p == [] {
      assert acc + p == acc;
      assert p + [0] + rest == [0] + rest;
      assert (p + [0] + rest)[1..] == rest;
    } else {
      assert (p + [0] + rest)[0] == p[0];
      assert (p + [0] + rest)[1..] == p[1..] + [0] + rest;
      UnframeOne(p[1..], rest, acc + [p[0]]);
      assert acc + [p[0]] + p[1..] == acc + p;
    }
  }

  lemma {:induction false} FramesAppend(packets: seq<seq<byte>>, rest: seq<seq<byte>>)
    ensures Frames(packets + rest) == Frames(packets) + Frames(rest)
    decreases |rest|
  {
    if rest == [] {
      assert packets + rest == packets;
    } else {
      var all := packets + rest;
      var front := rest[..|rest| - 1];
      assert all[..|all| - 1] == packets + front;
      assert all[|all| - 1] == rest[|rest| - 1];
      assert Frames(all) == Frames(packets + front) + NullTerminated(rest[|rest| - 1]);
      FramesAppend(packets, front);
      assert Frames(rest) == Frames(front) + NullTerminated(rest[|rest| - 1]);
    }
  }

  /** Null framing is lossless for null-free packets: a receiver cutting the stream
      at the null bytes gets the packets back, in order. (A gzipped payload may
      well contain a zero byte, and is then cut apart.) */
  lemma {:induction false} UnframeFrames(packets: seq<seq<byte>>)
    requires forall i, k :: 0 <= i < |packets| && 0 <= k < |packets[i]| ==> packets[i][k] != 0
    ensures Unframe(Frames(packets), []) == packets
    decreases |packets|
  {
    if packets != [] {
      var rest := packets[1..];
      assert packets == [packets[0]] + rest;
      FramesAppend([packets[0]], rest);
      assert Frames([packets[0]]) == NullTerminated(packets[0]) by {
        assert [packets[0]][..0] == [];
      }
      UnframeOne(packets[0], Frames(rest), []);
      assert [] + packets[0] == packets[0];
      UnframeFrames(rest);
    }
  }

  /** A receiver reads the frames of null-free packets off the front of a stream
      and then goes on with the rest. */
  lemma {:induction false} UnframePrefix(packets: seq<seq<byte>>, rest: seq<byte>)
    requires forall i, k :: 0 <= i < |packets| && 0 <= k < |packets[i]| ==> packets[i][k] != 0
    ensures Unframe(Frames(packets) + rest, []) == packets + Unframe(rest, [])
    decreases |packets|
  {
    if packets == [] {
      assert Frames(packets) + rest == rest;
    } else {
      var others := packets[1..];
      assert packets == [packets[0]] + others;
      FramesAppend([packets[0]], others);
      assert Frames([packets[0]]) == NullTerminated(packets[0]) by {
        assert [packets[0]][..0] == [];
      }
      assert Frames(packets) + rest == packets[0] + [0] + (Frames(others) + rest);
      UnframeOne(packets[0], Frames(others) + rest, []);
      assert [] + packets[0] == packets[0];
      UnframePrefix(others, rest);
    }
  }

  /** Bytes without a terminator never make a frame. */
  lemma {:induction false} UnframeUnterminated(s: seq<byte>, acc: seq<byte>)
    requires forall k :: 0 <= k < |s| ==> s[k] != 0
    ensures Unframe(s, acc) == []
    decreases |s|
  {
    if s != [] {
      UnframeUnterminated(s[1..], acc + [s[0]]);
    }
  }

  /** A frame cut before its terminator: on its own a receiver does not see it, but
      the next frame on the same stream is read as the cut packet joined with the
      next packet. */
  lemma CutFrameJoinsNext(packets: seq<seq<byte>>, cut: seq<byte>, next: seq<byte>)
    requires forall i, k :: 0 <= i < |packets| && 0 <= k < |packets[i]| ==> packets[i][k] != 0
    requires forall k :: 0 <= k < |cut| ==> cut[k] != 0
    requires forall k :: 0 <= k < |next| ==> next[k] != 0
    ensures Unframe(Frames(packets) + cut, []) == packets
    ensures Unframe(Frames(packets) + cut + NullTerminated(next), []) == packets + [cut + next]
  {
    UnframePrefix(packets, cut);
    UnframeUnterminated(cut, []);
    assert packets + [] == packets;
    var joined := cut + next;
    assert Frames(packets) + cut + NullTerminated(next) == Frames(packets) + (joined + [0] + []);
    UnframePrefix(packets, joined + [0] + []);
    UnframeOne(joined, [], []);
    assert [] + joined == joined;
  }

  /** The bytes the write loop puts on the stream: the frames of the packets before
      number `failAt`, then that packet without its terminator when it is the
      `write(0)` after it that throws (`nullFails`). */
  function Written(packets: seq<seq<byte>>, failAt: nat, nullFails: bool): seq<byte>
  {
    var n := if failAt < |packets| then failAt else |packets|;
    Frames(packets[..n]) + (if failAt < |packets| && nullFails then packets[failAt] else [])
  }

  class TcpTransport {
    const graylog2ServerAddress: string
    const graylog2ServerPort: int
    var socket: Option<Socket>

    /** How many connections have been opened. */
    ghost var connections: nat
    /** The number of the connection `socket` holds, if any. */
    ghost var current: nat
    /** The connections that were closed as invalid. */
    ghost var closed: set<nat>
    /** Everything written to each connection's output stream. */
    ghost var streams: map<nat, seq<byte>>

    ghost predicate Valid()
      reads this
    {
      (socket.Some? ==> socket.value == Socket(graylog2ServerAddress, graylog2ServerPort) && current < connections)
      && forall k: nat :: k < connections ==> k in streams
    }

    constructor (graylog2ServerPort: int, graylog2ServerAddress: string)
      ensures Valid() && socket == None && connections == 0 && streams == map[] && closed == {}
      ensures this.graylog2ServerPort == graylog2ServerPort && this.graylog2ServerAddress == graylog2ServerAddress
    {
      this.graylog2ServerPort := graylog2ServerPort;
      this.graylog2ServerAddress := graylog2ServerAddress;
      socket := None;
      connections, current, closed, streams := 0, 0, {}, map[];
    }

    /** The connection part of `ensureConnected`: an invalid socket is closed and
        dropped, a missing one replaced by a new connection to the configured
        address and port (which may fail, leaving none); a valid one is kept.
        `isClosed` and `isConnected` are what the current socket reports. */
    method EnsureConnected(isClosed: bool, isConnected: bool, connects: bool) returns (usable: bool)
      requires Valid()
      modifies this`socket, this`connections, this`current, this`closed, this`streams
      ensures Valid() && usable == socket.Some?
      ensures var keep := old(socket).Some? && !InvalidSocket(old(socket), isClosed, isConnected);
        (keep ==> (socket == old(socket) && current == old(current) && connections == old(connections)
           && streams == old(streams)))
        && (!keep && connects ==>
              socket == Some(Socket(graylog2ServerAddress, graylog2ServerPort)) && current == old(connections)
              && connections == old(connections) + 1 && streams == old(streams)[old(connections) := []])
        && (!keep && !connects ==> socket == None && connections == old(connections) && streams == old(streams))
      ensures closed == old(closed) + (if InvalidSocket(old(socket), isClosed, isConnected) then {old(current)} else {})
    {
      if InvalidSocket(socket, isClosed, isConnected) {
        closed := closed + {current};
        socket := None;
      }
      if socket == None {
        if !connects {
          usable := false;
          return;
        }
        socket := Some(Socket(graylog2ServerAddress, graylog2ServerPort));
        current := connections;
        streams := streams[connections := []];
        connections := connections + 1;
      }
      usable := true;
    }

    /** `send(List)`: on one socket, every packet null-terminated in list order,
        until a write of packet number `failAt` fails (its `write(0)` when
        `nullFails`, else `write(packet)`); then the rest is skipped and the socket
        is kept. Nothing is written when no connection can be made. */
    method SendList(packets: seq<seq<byte>>, isClosed: bool, isConnected: bool, connects: bool, failAt: nat, nullFails: bool)
      requires Valid()
      modifies this`socket, this`connections, this`current, this`closed, this`streams
      ensures Valid()
      ensures var keep := old(socket).Some? && !InvalidSocket(old(socket), isClosed, isConnected);
        var w := Written(packets, failAt, nullFails);
        (keep ==> (socket == old(socket) && current == old(current) && connections == old(connections)
           && streams == old(streams)[current := old(streams)[current] + w]))
        && (!keep && connects ==>
              socket.Some? && current == old(connections) && connections == old(connections) + 1
              && streams == old(streams)[current := w])
        && (!keep && !connects ==> socket == None && connections == old(connections) && streams == old(streams))
      ensures closed == old(closed) + (if InvalidSocket(old(socket), isClosed, isConnected) then {old(current)} else {})
    {
      var usable := EnsureConnected(isClosed, isConnected, connects);
      if usable {
        WriteAll(packets, failAt, nullFails);
        assert [] + Written(packets, failAt, nullFails) == Written(packets, failAt, nullFails);
      }
    }

    /** The write loop of `send(List)` on the current connection: whole frames up
        to packet number `failAt`, whose writes then throw, the `write(0)` one
        when `nullFails`. */
    method WriteAll(packets: seq<seq<byte>>, failAt: nat, nullFails: bool)
      requires current in streams
      modifies this`streams
      ensures streams == old(streams)[current := old(streams)[current] + Written(packets, failAt, nullFails)]
    {
      ghost var start := streams[current];
      assert packets[..0] == [] && start + Frames([]) == start;
      var i := 0;
      while i < |packets| && i != failAt
        invariant 0 <= i <= |packets| && i <= failAt
        invariant streams == old(streams)[current := start + Frames(packets[..i])]
      {
        assert packets[..i + 1][..i] == packets[..i];
        assert Frames(packets[..i + 1]) == Frames(packets[..i]) + NullTerminated(packets[i]);
        assert start + Frames(packets[..i + 1]) == (start + Frames(packets[..i])) + NullTerminated(packets[i]);
        streams := streams[current := streams[current] + NullTerminated(packets[i])];
        i := i + 1;
      }
      assert i == (if failAt < |packets| then failAt else |packets|);
      ghost var tail := if i < |packets| && nullFails then packets[i] else [];
      ghost var framed := streams;
      if i < |packets| && nullFails {
        // `write(packet)` went through; `write(0)` throws
        streams := streams[current := streams[current] + packets[i]];
      }
      assert streams == framed[current := framed[current] + tail] by {
        if !(i < |packets| && nullFails) {
          assert framed[current] + [] == framed[current];
        }
      }
      assert Written(packets, failAt, nullFails) == Frames(packets[..i]) + tail;
      assert start + Frames(packets[..i]) + tail == start + Written(packets, failAt, nullFails);
      assert streams == old(streams)[current := start + Frames(packets[..i]) + tail];
    }

    /** `send(byte[])`: the same for a single packet. `writes` says whether both of
        its writes succeed; if not, `nullFails` says whether it is the `write(0)`
        that throws, after the packet itself went out. */
    method Send(data: seq<byte>, isClosed: bool, isConnected: bool, connects: bool, writes: bool, nullFails: bool)
      requires Valid()
      modifies this`socket, this`connections, this`current, this`closed, this`streams
      ensures Valid()
      ensures var keep := old(socket).Some? && !InvalidSocket(old(socket), isClosed, isConnected);
        var frame := if writes then NullTerminated(data) else if nullFails then data else [];
        (keep ==> (socket == old(socket) && current == old(current) && connections == old(connections)
           && streams == old(streams)[current := old(streams)[current] + frame]))
        && (!keep && connects ==>
              socket.Some? && current == old(connections) && connections == old(connections) + 1
              && streams == old(streams)[current := frame])
        && (!keep && !connects ==> socket == None && connections == old(connections) && streams == old(streams))
      ensures closed == old(closed) + (if InvalidSocket(old(socket), isClosed, isConnected) then {old(current)} else {})
    {
      var usable := EnsureConnected(isClosed, isConnected, connects);
      if usable {
        assert current in streams;
        ghost var before := streams;
        if writes {
          streams := streams[current := streams[current] + NullTerminated(data)];
        } else if nullFails {
          streams := streams[current := streams[current] + data];
        }
        assert before[current] + [] == before[current];
        assert [] + NullTerminated(data) == NullTerminated(data) && [] + data == data;
      }
    }
  }
}

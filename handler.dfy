// The host's serial protocol handler: a byte-at-a-time recogniser of
// 0x22 0x69-framed packets, and the split of a received packet into its
// big-endian header fields.
module Handler {
  import opened Bytes

  const Start0: byte := 0x22
  const Start1: byte := 0x69

  /** A received packet, as `handle_packet` splits it. */
  datatype Packet = Packet(len: byte, hwid: u16, seqnum: u16, system: byte, command: byte, data: seq<byte>)

  /** What `handle_packet` raises: indexing past the end of a packet
      shorter than seven bytes. */
  datatype HandleError = IndexError

  /** `handle_packet`: the length byte, hwid and sequence number big-endian,
      system, command, and the rest as data. */
  function HandlePacket(raw: seq<byte>): (r: Result<Packet, HandleError>)
    ensures r.Ok? <==> |raw| >= 7
  {
    if |raw| < 7 then Raise(IndexError)
    else Ok(Packet(raw[0], GetBE16(raw, 1), GetBE16(raw, 3), raw[5], raw[6], raw[7..]))
  }

  /** The bytes a packet is split from. */
  function PacketBytes(p: Packet): (r: seq<byte>)
    ensures |r| == 7 + |p.data|
  {
    [p.len] + BE16(p.hwid) + BE16(p.seqnum) + [p.system, p.command] + p.data
  }

  /** Splitting and joining are inverse both ways. */
  lemma HandlePacketBytes(p: Packet)
    ensures HandlePacket(PacketBytes(p)) == Ok(p)
  {
    var raw := PacketBytes(p);
    BE16RoundTrip(p.hwid);
    BE16RoundTrip(p.seqnum);
    assert raw[1..3] == BE16(p.hwid) && raw[3..5] == BE16(p.seqnum);
    assert raw[7..] == p.data;
  }

  lemma BytesOfHandledPacket(raw: seq<byte>)
    requires |raw| >= 7
    ensures PacketBytes(HandlePacket(raw).value) == raw
  {
    var p := HandlePacket(raw).value;
    assert BE16(p.hwid) == raw[1..3];
    assert BE16(p.seqnum) == raw[3..5];
    assert raw == [raw[0]] + raw[1..3] + raw[3..5] + [raw[5], raw[6]] + raw[7..];
  }

  // ---------------------------------------------------------------------
  // The receive state machine

  /** `LstProtocol`'s receive state: the bytes collected (the length byte
      and the data after it), whether a frame is open, the position in the
      frame (0 and 1 for the two start bytes) and the announced length. */
  datatype Protocol = Protocol(packet: seq<byte>, inPacket: bool, byteIdx: nat, packetLen: byte)

  const Idle: Protocol := Protocol([], false, 0, 0)

  /** What one byte leads to: nothing visible, a byte handed to
      `handle_out_of_packet_data`, or a completed frame (left in `packet`). */
  datatype Event = Quiet | Stray(b: byte) | Complete

  /** One iteration of `data_received`'s loop, up to `handle_packet`. */
  function Step(st: Protocol, b: byte): (r: (Protocol, Event))
    ensures r.1.Stray? ==> !st.inPacket && r.0 == st && r.1.b == b
    ensures r.1.Complete? ==> st.inPacket && r.0.packet == st.packet + [b] && !r.0.inPacket && r.0.byteIdx == 0
    ensures r.0.packet == st.packet || r.0.packet == st.packet + [b]
  {
    if b == Start0 && st.byteIdx == 0 then (st.(byteIdx := 1), Quiet)
    else if b == Start1 && st.byteIdx == 1 then (st.(byteIdx := 2, inPacket := true, packetLen := 0), Quiet)
    else if st.inPacket then
      var p := st.packet + [b];
      var n := if st.byteIdx == 2 then b else st.packetLen;
      if st.byteIdx > 2 && st.byteIdx - 2 == n then (Protocol(p, false, 0, 0), Complete)
      else (Protocol(p, true, st.byteIdx + 1, n), Quiet)
    else (st, Stray(b))
  }

  /** The result of `data_received`: the final state, the packets queued,
      the bytes reported as unexpected, and the exception that ended it. */
  datatype Received = Received(state: Protocol, packets: seq<Packet>, stray: seq<byte>, error: Option<HandleError>)

  /** `data_received(data)` from state `st`. A completed frame is handed to
      `handle_packet` before the buffer is cleared, so when that raises the
      remaining bytes are not read and the frame stays in the buffer. */
  function Feed(st: Protocol, data: seq<byte>): (r: Received)
    ensures |r.packets| + |r.stray| <= |data|
    ensures r.error.None? ==> |r.packets| + |r.stray| + |r.state.packet| <= |st.packet| + |data|
    decreases |data|
  {
    if data == [] then Received(st, [], [], None)
    else
      var (st1, ev) := Step(st, data[0]);
      match ev
      case Quiet => Feed(st1, data[1..])
      case Stray(b) =>
        var r := Feed(st1, data[1..]);
        r.(stray := [b] + r.stray)
      case Complete =>
        match HandlePacket(st1.packet)
        case Raise(e) => Received(st1, [], [], Some(e))
        case Ok(pk) =>
          var r := Feed(st1.(packet := []), data[1..]);
          r.(packets := [pk] + r.packets)
  }

  /** The states `data_received` moves between while no exception occurs:
      outside a frame nothing is buffered; inside, the buffer holds the
      length byte and the data so far, never more than announced. */
  predicate Valid(st: Protocol)
  {
    if !st.inPacket then st.byteIdx <= 1 && st.packet == []
    else
      && st.byteIdx >= 2 && |st.packet| == st.byteIdx - 2
      && (st.byteIdx == 2 ==> st.packetLen == 0)
      && (st.byteIdx > 2 ==> st.packetLen == st.packet[0] && (st.packetLen > 0 ==> |st.packet| <= st.packetLen))
  }

  /** Each byte keeps the state valid; a completed frame is exactly the
      length byte and the announced number of bytes. */
  lemma StepValid(st: Protocol, b: byte)
    requires Valid(st)
    ensures var (st1, ev) := Step(st, b);
            && (ev != Complete ==> Valid(st1))
            && (ev == Complete ==>
                  Valid(st1.(packet := [])) && |st1.packet| == st1.packet[0] as int + 1 && st1.packet[0] > 0)
  {
  }

  /** After a frame's length byte, collecting the rest of its data ends in
      the completed frame, and reading continues from the idle state. */
  lemma {:induction false} CollectBody(p: seq<byte>, d: seq<byte>, rest: seq<byte>)
    requires |p| >= 1 && d != [] && |p| + |d| == p[0] as int + 1
    ensures Feed(Protocol(p, true, |p| + 2, p[0]), d + rest) == AfterFrame(p + d, rest)
    decreases |d|
  {
    var st := Protocol(p, true, |p| + 2, p[0]);
    assert (d + rest)[0] == d[0];
    assert (d + rest)[1..] == d[1..] + rest;
    if |d| == 1 {
      assert d[1..] + rest == rest;
      assert p + d == p + [d[0]];
    } else {
      assert Step(st, d[0]).0 == Protocol(p + [d[0]], true, |p| + 3, p[0]);
      CollectBody(p + [d[0]], d[1..], rest);
      assert p + [d[0]] + d[1..] == p + d;
    }
  }

  /** What follows a completed frame `raw`. */
  function AfterFrame(raw: seq<byte>, rest: seq<byte>): Received
  {
    match HandlePacket(raw)
    case Raise(e) => Received(Protocol(raw, false, 0, 0), [], [], Some(e))
    case Ok(pk) =>
      var r := Feed(Idle, rest);
      r.(packets := [pk] + r.packets)
  }

  /** A frame with a non-zero length, read from the idle state, is queued
      as one packet (or raises when it is shorter than seven bytes), and
      the bytes after it are read from the idle state again. */
  lemma FrameFromIdle(body: seq<byte>, rest: seq<byte>)
    requires 0 < |body| < 0x100
    ensures Feed(Idle, [Start0, Start1, |body| as byte] + body + rest) == AfterFrame([|body| as byte] + body, rest)
  {
    var n := |body| as byte;
    var data := [Start0, Start1, n] + body + rest;
    assert data[0] == Start0 && data[1..][0] == Start1 && data[1..][1..][0] == n;
    assert data[1..][1..][1..] == body + rest;
    assert Feed(Idle, data) == Feed(Protocol([], false, 1, 0), data[1..]);
    assert Feed(Protocol([], false, 1, 0), data[1..]) == Feed(Protocol([], true, 2, 0), data[1..][1..]);
    assert Step(Protocol([], true, 2, 0), n).0 == Protocol([n], true, 3, n);
    assert Feed(Protocol([], true, 2, 0), data[1..][1..]) == Feed(Protocol([n], true, 3, n), body + rest);
    CollectBody([n], body, rest);
  }

  /** A frame whose length byte is 0 never completes: every later byte is
      taken into the buffer and nothing is queued or reported. */
  lemma {:induction false} ZeroLengthSwallows(p: seq<byte>, rest: seq<byte>)
    requires |p| >= 1 && p[0] == 0
    ensures Feed(Protocol(p, true, |p| + 2, 0), rest) == Received(Protocol(p + rest, true, |p| + |rest| + 2, 0), [], [], None)
    decreases |rest|
  {
    if rest == [] {
      assert p + rest == p;
    } else {
      assert Step(Protocol(p, true, |p| + 2, 0), rest[0]) == (Protocol(p + [rest[0]], true, |p| + 3, 0), Quiet);
      assert (p + [rest[0]])[0] == 0;
      ZeroLengthSwallows(p + [rest[0]], rest[1..]);
      assert p + [rest[0]] + rest[1..] == p + rest;
    }
  }

  lemma ZeroLengthFrame(rest: seq<byte>)
    ensures var r := Feed(Idle, [Start0, Start1, 0] + rest);
            r.packets == [] && r.stray == [] && r.error.None? && r.state.inPacket
  {
    var data := [Start0, Start1, 0] + rest;
    assert data[0] == Start0 && data[1..][0] == Start1 && data[1..][1..][0] == 0;
    assert data[1..][1..][1..] == rest;
    assert Feed(Idle, data) == Feed(Protocol([], false, 1, 0), data[1..]);
    assert Feed(Protocol([], false, 1, 0), data[1..]) == Feed(Protocol([], true, 2, 0), data[1..][1..]);
    var empty: seq<byte> := [];
    assert empty + [0] == [0];
    assert Step(Protocol(empty, true, 2, 0), 0) == (Protocol([0], true, 3, 0), Quiet);
    assert Feed(Protocol([], true, 2, 0), data[1..][1..]) == Feed(Protocol([0], true, 3, 0), rest);
    ZeroLengthSwallows([0], rest);
  }

  /** A 0x22 not followed by 0x69 is not forgotten: the next byte is
      reported as unexpected and a 0x69 after it still opens a frame. */
  lemma LoneStartWaits(b: byte)
    requires b != Start1
    ensures Feed(Idle, [Start0, b, Start1]) == Received(Protocol([], true, 2, 0), [], [b], None)
  {
    var data := [Start0, b, Start1];
    assert data[1..] == [b, Start1] && data[1..][1..] == [Start1] && [Start1][1..] == [];
    var one := Protocol([], false, 1, 0);
    assert Step(Idle, Start0) == (one, Quiet);
    assert Step(one, b) == (one, Stray(b));
    assert Feed(one, [Start1]) == Received(Protocol([], true, 2, 0), [], [], None);
    assert Feed(one, [b, Start1]).stray == [b] + [];
  }

  /** `connection_lost` empties the buffer and closes any frame but keeps
      the announced length, which the next 0x69 clears again. */
  lemma ConnectionLostRestarts(n: byte, rest: seq<byte>)
    ensures Feed(Protocol([], false, 0, n), [Start0, Start1] + rest) == Feed(Idle, [Start0, Start1] + rest)
  {
    var data := [Start0, Start1] + rest;
    assert data[1..][1..] == rest;
  }

  /** Reading `rest` from `st`, with `queue` and `stray` gathered so far,
      ends where reading everything from the start (`r0`, from `q0` and
      `s0`) ends. */
  predicate FedUpTo(r0: Received, q0: seq<Packet>, s0: seq<byte>, st: Protocol, rest: seq<byte>,
                    queue: seq<Packet>, stray: seq<byte>)
  {
    var r := Feed(st, rest);
    && r0.state == r.state && r0.error == r.error
    && q0 + r0.packets == queue + r.packets && s0 + r0.stray == stray + r.stray
  }

  /** A byte with no visible effect. */
  lemma FeedQuiet(r0: Received, q0: seq<Packet>, s0: seq<byte>, st: Protocol, rest: seq<byte>,
                  queue: seq<Packet>, stray: seq<byte>)
    requires rest != [] && Step(st, rest[0]).1 == Quiet
    requires FedUpTo(r0, q0, s0, st, rest, queue, stray)
    ensures FedUpTo(r0, q0, s0, Step(st, rest[0]).0, rest[1..], queue, stray)
  {
  }

  /** A byte reported as unexpected joins the stray bytes. */
  lemma FeedStray(r0: Received, q0: seq<Packet>, s0: seq<byte>, st: Protocol, rest: seq<byte>,
                  queue: seq<Packet>, stray: seq<byte>)
    requires rest != [] && Step(st, rest[0]).1.Stray?
    requires FedUpTo(r0, q0, s0, st, rest, queue, stray)
    ensures FedUpTo(r0, q0, s0, Step(st, rest[0]).0, rest[1..], queue, stray + [rest[0]])
  {
    var r := Feed(Step(st, rest[0]).0, rest[1..]);
    assert stray + ([rest[0]] + r.stray) == stray + [rest[0]] + r.stray;
  }

  /** A completed frame that `handle_packet` accepts joins the queue, and
      reading goes on with an empty buffer. */
  lemma FeedQueued(r0: Received, q0: seq<Packet>, s0: seq<byte>, st: Protocol, rest: seq<byte>,
                   queue: seq<Packet>, stray: seq<byte>)
    requires rest != [] && Step(st, rest[0]).1 == Complete && HandlePacket(Step(st, rest[0]).0.packet).Ok?
    requires FedUpTo(r0, q0, s0, st, rest, queue, stray)
    ensures var st1 := Step(st, rest[0]).0;
            FedUpTo(r0, q0, s0, st1.(packet := []), rest[1..], queue + [HandlePacket(st1.packet).value], stray)
  {
    var st1 := Step(st, rest[0]).0;
    var pk := HandlePacket(st1.packet).value;
    var r := Feed(st1.(packet := []), rest[1..]);
    assert queue + ([pk] + r.packets) == queue + [pk] + r.packets;
  }

  /** A completed frame that `handle_packet` refuses ends the reading, with
      the frame left in the buffer. */
  lemma FeedRaised(r0: Received, q0: seq<Packet>, s0: seq<byte>, st: Protocol, rest: seq<byte>,
                   queue: seq<Packet>, stray: seq<byte>)
    requires rest != [] && Step(st, rest[0]).1 == Complete && HandlePacket(Step(st, rest[0]).0.packet).Raise?
    requires FedUpTo(r0, q0, s0, st, rest, queue, stray)
    ensures var st1 := Step(st, rest[0]).0;
            && r0.state == st1 && r0.error == Some(HandlePacket(st1.packet).error)
            && q0 + r0.packets == queue && s0 + r0.stray == stray
  {
  }

  /** The handler object: its receive state and the packet queue, and the
      bytes it reported as unexpected. */
  class LstProtocol {
    var packet: seq<byte>
    var inPacket: bool
    var byteIdx: nat
    var packetLen: byte
    var queue: seq<Packet>
    var stray: seq<byte>

    function State(): Protocol
      reads this
    {
      Protocol(packet, inPacket, byteIdx, packetLen)
    }

    constructor ()
      ensures State() == Idle && queue == [] && stray == []
    {
      packet, inPacket, byteIdx, packetLen := [], false, 0, 0;
      queue, stray := [], [];
    }

    method ConnectionLost()
      modifies this
      ensures State() == Protocol([], false, 0, old(packetLen))
      ensures queue == old(queue) && stray == old(stray)
    {
      inPacket := false;
      packet := [];
      byteIdx := 0;
    }

    /** One byte of `data_received`'s loop, up to the call of
        `handle_packet`: the branches on the start bytes, the frame and the
        stray byte. */
    method StepByte(b: byte) returns (ev: Event)
      modifies this
      ensures (State(), ev) == Step(old(State()), b)
      ensures queue == old(queue) && stray == old(stray)
    {
      ev := Quiet;
      if b == Start0 && byteIdx == 0 {
        byteIdx := byteIdx + 1;
      } else if b == Start1 && byteIdx == 1 {
        byteIdx := byteIdx + 1;
        inPacket := true;
        packetLen := 0;
      } else if inPacket {
        packet := packet + [b];
        if byteIdx == 2 {
          packetLen := b;
        }
        if byteIdx > 2 && byteIdx - 2 == packetLen {
          inPacket := false;
          packetLen := 0;
          byteIdx := 0;
          ev := Complete;
        } else {
          byteIdx := byteIdx + 1;
        }
      } else {
        ev := Stray(b);
      }
    }

    method DataReceived(data: seq<byte>) returns (err: Option<HandleError>)
      modifies this
      ensures var r := Feed(old(State()), data);
              && State() == r.state && err == r.error
              && queue == old(queue) + r.packets && stray == old(stray) + r.stray
    {
      ghost var r0, q0, s0 := Feed(State(), data), queue, stray;
      assert data[0..] == data;
      var i := 0;
      while i < |data|
        invariant 0 <= i <= |data|
        invariant FedUpTo(r0, q0, s0, State(), data[i..], queue, stray)
      {
        var b := data[i];
        assert data[i..][0] == b && data[i..][1..] == data[i + 1..];
        ghost var st0 := State();
        var ev := StepByte(b);
        if ev.Stray? {
          FeedStray(r0, q0, s0, st0, data[i..], queue, stray);
          stray := stray + [b];
        } else if ev.Complete? {
          var h := HandlePacket(packet);
          if h.Raise? {
            FeedRaised(r0, q0, s0, st0, data[i..], queue, stray);
            return Some(h.error);
          }
          FeedQueued(r0, q0, s0, st0, data[i..], queue, stray);
          queue := queue + [h.value];
          packet := [];
        } else {
          FeedQuiet(r0, q0, s0, st0, data[i..], queue, stray);
        }
        i := i + 1;
      }
      assert data[i..] == [];
      err := None;
    }
  }
}

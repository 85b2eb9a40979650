// The application's command table (`commands_handle_command` in the radio
// application): reboot and its postponement, reading and setting the clock,
// the telemetry snapshot, the callsign pair, the ranging responder, and the
// board's extension for anything else.
module AppCommands {
  import opened Bytes
  import opened Command
  import Timers
  import Schedule
  import Radio
  import Board

  const RadioReboot: byte := 0x12
  const RadioGetTime: byte := 0x13
  const RadioSetTime: byte := 0x14
  const RadioRanging: byte := 0x15
  const RadioRangingAck: byte := 0x16
  const RadioGetTelem: byte := 0x17
  const RadioTelem: byte := 0x18
  const RadioGetCallsign: byte := 0x19
  const RadioSetCallsign: byte := 0x1A
  const RadioCallsign: byte := 0x1B

  const RangingAckType: byte := 1
  const RangingAckVersion: byte := 1
  /** The ranging acknowledgement goes out with UART select 1. */
  const RfRangingUart: bool := true

  /** Sizes of the reply payloads: a timespec, the packed telemetry record
      (1 + 3 * 4 + 2 + 10 * 2 + 3 + 10 * 4 bytes) and a callsign. */
  const TimespecSize: nat := 8
  const TelemetrySize: nat := 78
  const CallsignSize: nat := 8
  /** Message length from which a reboot carries its 32-bit argument. */
  const RebootWithArgument: nat := HeaderSize + 4

  /** Values a command reads from outside this model: the timer count at the
      moment of a clock reading, the telemetry snapshot, the bytes held by the
      callsign local (never initialised before a read), and whatever the
      board's handler leaves as its result when it has none. */
  datatype Environment = Environment(fine: u16, telemetry: seq<byte>, callsign: seq<byte>, undefinedLength: byte)

  predicate WellFormed(e: Environment)
  {
    |e.telemetry| == TelemetrySize && |e.callsign| == CallsignSize
  }

  /** The state a command reads: the clock, the uptime and the reboot
      deadline. */
  datatype View = View(rtcSet: bool, seconds: u32, millis: u16, uptime: u32, autoReboot: u32)

  /** What a command comes to: a reply of the given bytes (returned as the
      reply length), an immediate reboot, a ranging packet sent straight over
      the radio with no reply, or the board's handler returning an
      undefined length over the given buffer. */
  datatype Outcome =
    | Answer(reply: seq<byte>)
    | RebootNow
    | Ranged(packet: seq<byte>)
    | Undefined(buffer: seq<byte>, length: byte)

  /** The 32-bit argument of a reboot, and the time carried by a set-time. */
  function RebootArgument(cmd: seq<byte>): u32
    requires |cmd| == MaxPayload
  {
    GetLE32(cmd, HeaderSize)
  }

  function TimeArgument(cmd: seq<byte>): Timers.Timespec
    requires |cmd| == MaxPayload
  {
    Timers.Timespec(GetLE32(cmd, HeaderSize), GetLE32(cmd, HeaderSize + 4))
  }

  function EncodeTimespec(t: Timers.Timespec): (r: seq<byte>)
    ensures |r| == TimespecSize
  {
    LE32(t.seconds) + LE32(t.nanoseconds)
  }

  /** The reply to the command buffer `cmd` of message length `len`, with
      `rest` the previous contents of the reply buffer's data field. */
  function AppOutcome(hwidFlash: u16, cmd: seq<byte>, len: byte, rest: seq<byte>, v: View, e: Environment): (o: Outcome)
    requires |cmd| == MaxPayload && |rest| == MaxData && WellFormed(e)
    ensures o.Answer? ==> HeaderSize <= |o.reply| <= HeaderSize + TelemetrySize
  {
    var op := cmd[5];
    if op == MsgAck then Answer(ReplyHeader(hwidFlash, cmd, MsgAck))
    else if op == MsgNack then Answer(ReplyHeader(hwidFlash, cmd, MsgNack))
    else if op == RadioReboot then
      if len as nat < RebootWithArgument then RebootNow
      else if Schedule.Postpone(v.autoReboot, v.uptime, RebootArgument(cmd)).1 == Schedule.Postponed
      then Answer(ReplyHeader(hwidFlash, cmd, MsgAck))
      else Answer(ReplyHeader(hwidFlash, cmd, MsgNack))
    else if op == RadioGetTime then
      if v.rtcSet
      then Answer(ReplyHeader(hwidFlash, cmd, RadioSetTime)
                  + EncodeTimespec(Timers.Timespec(v.seconds, Timers.NanosOf(v.millis, e.fine))))
      else Answer(ReplyHeader(hwidFlash, cmd, MsgNack))
    else if op == RadioSetTime then Answer(ReplyHeader(hwidFlash, cmd, MsgAck))
    else if op == RadioGetTelem then Answer(ReplyHeader(hwidFlash, cmd, RadioTelem) + e.telemetry)
    else if op == RadioSetCallsign then Answer(ReplyHeader(hwidFlash, cmd, MsgAck))
    else if op == RadioGetCallsign then Answer(ReplyHeader(hwidFlash, cmd, RadioCallsign) + e.callsign)
    else if op == RadioRanging then
      Ranged(ReplyHeader(hwidFlash, cmd, RadioRangingAck) + [RangingAckType, RangingAckVersion])
    else if op == Board.CustomMsgRfParams then Answer(ReplyHeader(hwidFlash, cmd, MsgAck))
    else Undefined(ReplyHeader(hwidFlash, cmd, MsgNack) + rest, e.undefinedLength)
  }

  /** The reboot deadline after the command. */
  function DeadlineAfter(cmd: seq<byte>, len: byte, v: View): u32
    requires |cmd| == MaxPayload
  {
    if cmd[5] == RadioReboot && len as nat >= RebootWithArgument
    then Schedule.Postpone(v.autoReboot, v.uptime, RebootArgument(cmd)).0
    else v.autoReboot
  }

  /** Every reply that is sent comes from this device, echoes the request's
      sequence number and is marked as radio output; only its opcode varies. */
  lemma ReplyEchoesRequest(hwidFlash: u16, cmd: seq<byte>, len: byte, rest: seq<byte>, v: View, e: Environment)
    requires |cmd| == MaxPayload && |rest| == MaxData && WellFormed(e)
    ensures var o := AppOutcome(hwidFlash, cmd, len, rest, v, e);
            var r := if o.Answer? then o.reply else if o.Ranged? then o.packet
                     else if o.Undefined? then o.buffer else ReplyHeader(hwidFlash, cmd, MsgAck);
            var h := DecodeHeader(r);
            h.hwid == hwidFlash && h.seqnum == DecodeHeader(cmd).seqnum && h.system == MsgTypeRadioOut
  {
    var o := AppOutcome(hwidFlash, cmd, len, rest, v, e);
    var r := if o.Answer? then o.reply else if o.Ranged? then o.packet
             else if o.Undefined? then o.buffer else ReplyHeader(hwidFlash, cmd, MsgAck);
    var hdr := Header(hwidFlash, DecodeHeader(cmd).seqnum, MsgTypeRadioOut, r[5]);
    assert r[..HeaderSize] == EncodeHeader(hdr);
    HeaderRoundTrip(hdr, r[HeaderSize..]);
    assert r == EncodeHeader(hdr) + r[HeaderSize..];
  }

  /** A reboot without its argument reboots at once; with it, it is
      acknowledged exactly when the postponement is within the cap, and only
      then is the deadline moved. */
  lemma RebootAckedIffWithinCap(hwidFlash: u16, cmd: seq<byte>, len: byte, rest: seq<byte>, v: View, e: Environment)
    requires |cmd| == MaxPayload && |rest| == MaxData && WellFormed(e)
    requires cmd[5] == RadioReboot
    ensures var o := AppOutcome(hwidFlash, cmd, len, rest, v, e);
            && (o.RebootNow? <==> len as nat < RebootWithArgument)
            && (len as nat >= RebootWithArgument ==>
                  && o.Answer? && |o.reply| == HeaderSize
                  && (o.reply[5] == MsgAck <==> RebootArgument(cmd) <= Schedule.AutoRebootMax)
                  && (o.reply[5] == MsgAck ==> DeadlineAfter(cmd, len, v) == Wrap32(v.uptime + RebootArgument(cmd)))
                  && (o.reply[5] != MsgAck ==> o.reply[5] == MsgNack && DeadlineAfter(cmd, len, v) == v.autoReboot))
  {
  }

  /** A clock reading is refused until the clock has been set; afterwards the
      reply is a set-time message whose argument, sent back to a device,
      sets its clock to the same seconds and milliseconds. */
  lemma GetTimeAnswersSetTime(hwidFlash: u16, cmd: seq<byte>, len: byte, rest: seq<byte>, v: View, e: Environment)
    requires |cmd| == MaxPayload && |rest| == MaxData && WellFormed(e)
    requires cmd[5] == RadioGetTime
    ensures var o := AppOutcome(hwidFlash, cmd, len, rest, v, e);
            && o.Answer?
            && (!v.rtcSet ==> o.reply == ReplyHeader(hwidFlash, cmd, MsgNack))
            && (v.rtcSet ==>
                  && |o.reply| == HeaderSize + TimespecSize && o.reply[5] == RadioSetTime
                  && forall back: seq<byte> ::
                       |back| == MaxPayload && back[HeaderSize..HeaderSize + TimespecSize] == o.reply[HeaderSize..] ==>
                         && TimeArgument(back).seconds == v.seconds
                         && (v.millis < Timers.MsPerSecond && e.fine < Timers.T1Period ==>
                               Timers.MillisOf(TimeArgument(back).nanoseconds) == v.millis))
  {
    if v.rtcSet {
      var o := AppOutcome(hwidFlash, cmd, len, rest, v, e);
      var t := Timers.Timespec(v.seconds, Timers.NanosOf(v.millis, e.fine));
      assert o.reply[HeaderSize..] == EncodeTimespec(t);
      forall back: seq<byte> | |back| == MaxPayload && back[HeaderSize..HeaderSize + TimespecSize] == o.reply[HeaderSize..]
        ensures TimeArgument(back) == t
      {
        TimespecReadBack(back, t);
      }
      if v.millis < Timers.MsPerSecond && e.fine < Timers.T1Period {
        Timers.ReadThenSet(v.millis, e.fine);
      }
    }
  }

  /** A timespec written at the argument position reads back as itself. */
  lemma TimespecReadBack(back: seq<byte>, t: Timers.Timespec)
    requires |back| == MaxPayload && back[HeaderSize..HeaderSize + TimespecSize] == EncodeTimespec(t)
    ensures TimeArgument(back) == t
  {
    var w := back[HeaderSize..HeaderSize + TimespecSize];
    assert back[HeaderSize..HeaderSize + 4] == w[..4] == LE32(t.seconds);
    assert back[HeaderSize + 4..HeaderSize + 8] == w[4..] == LE32(t.nanoseconds);
    GetLE32Of(back, HeaderSize, t.seconds);
    GetLE32Of(back, HeaderSize + 4, t.nanoseconds);
  }

  /** Ranging never produces a reply of its own: the acknowledgement (type 1,
      version 1) goes out over the radio instead. */
  lemma RangingRepliesOverRadio(hwidFlash: u16, cmd: seq<byte>, len: byte, rest: seq<byte>, v: View, e: Environment)
    requires |cmd| == MaxPayload && |rest| == MaxData && WellFormed(e)
    requires cmd[5] == RadioRanging
    ensures var o := AppOutcome(hwidFlash, cmd, len, rest, v, e);
            o.Ranged? && |o.packet| == HeaderSize + 2 && o.packet[5] == RadioRangingAck
            && o.packet[HeaderSize..] == [RangingAckType, RangingAckVersion]
  {
  }

  /** The reply buffer and result of a handled command agree with its
      outcome. */
  ghost predicate Delivered(o: Outcome, replyLen: byte, reboot: bool, reply: array<byte>)
    reads reply
  {
    && (reboot <==> o.RebootNow?)
    && (o.Answer? ==> replyLen as nat == |o.reply| <= reply.Length && reply[..replyLen] == o.reply)
    && (o.Undefined? ==> replyLen == o.length && reply[..] == o.buffer)
    && (o.Ranged? ==> replyLen == 0)
  }

  /** The application's command handler with the state it touches. */
  class AppHandler {
    const hwidFlash: u16
    const clock: Timers.Clock
    const scheduler: Schedule.Scheduler
    const radio: Radio.RadioLink
    const board: Board.RfConfig

    ghost predicate Valid()
    {
      radio.Valid() && scheduler.clock == clock && scheduler.radio == radio
    }

    ghost function ViewOf(): View
      reads clock, scheduler
    {
      View(clock.rtcSet, clock.rtcSeconds, clock.rtcMilliseconds, clock.uptime, scheduler.autoReboot)
    }

    constructor (hwidFlash: u16, clock: Timers.Clock, scheduler: Schedule.Scheduler,
                 radio: Radio.RadioLink, board: Board.RfConfig)
      requires radio.Valid() && scheduler.clock == clock && scheduler.radio == radio
      ensures Valid() && this.hwidFlash == hwidFlash && this.clock == clock
      ensures this.scheduler == scheduler && this.radio == radio && this.board == board
    {
      this.hwidFlash := hwidFlash;
      this.clock := clock;
      this.scheduler := scheduler;
      this.radio := radio;
      this.board := board;
    }

    /** `commands_handle_command`: fills `reply` and returns its length, or
        reports that the device reboots now. A set-time sets the clock, a
        reboot with an argument moves the deadline, ranging arms the
        precise-timing channel and transmits, and the board's opcode sets
        the radio parameters; nothing else changes. */
    method HandleCommand(cmd: array<byte>, len: byte, reply: array<byte>, e: Environment)
      returns (replyLen: byte, reboot: bool)
      requires Valid() && WellFormed(e)
      requires cmd.Length == MaxPayload && reply.Length == MaxPayload
      requires cmd != reply && cmd != radio.txBuf && reply != radio.txBuf
      modifies reply, radio, radio.txBuf, board, scheduler`autoReboot
      modifies clock`rtcMilliseconds, clock`rtcSeconds, clock`rtcSet, clock`channel1
      ensures Valid()
      ensures Delivered(AppOutcome(hwidFlash, cmd[..], len, old(reply[HeaderSize..]), old(ViewOf()), e),
                        replyLen, reboot, reply)
      ensures cmd[5] == RadioRanging ==>
                && clock.channel1 == Timers.Triggered
                && var p := ReplyHeader(hwidFlash, cmd[..], RadioRangingAck) + [RangingAckType, RangingAckVersion];
                   radio.events == old(radio.events)
                     + [Radio.Transmitted(Radio.OnAir(radio.crc, p, |p|, RfRangingUart), true), Radio.Listened]
      ensures cmd[5] != RadioRanging ==> clock.channel1 == old(clock.channel1) && radio.events == old(radio.events)
      ensures scheduler.autoReboot == DeadlineAfter(cmd[..], len, old(ViewOf()))
      ensures clock.rtcSet == (old(clock.rtcSet) || cmd[5] == RadioSetTime)
      ensures cmd[5] == RadioSetTime ==>
                clock.rtcMilliseconds == Timers.MillisOf(TimeArgument(cmd[..]).nanoseconds) &&
                clock.rtcSeconds == TimeArgument(cmd[..]).seconds
      ensures cmd[5] != RadioSetTime ==>
                clock.rtcMilliseconds == old(clock.rtcMilliseconds) && clock.rtcSeconds == old(clock.rtcSeconds)
      ensures board.params == if cmd[5] == Board.CustomMsgRfParams then Board.Unpack(cmd[HeaderSize..]) else old(board.params)
    {
      BeginReply(hwidFlash, cmd, reply);
      var op := cmd[5];
      if op == MsgAck || op == MsgNack || op == RadioSetCallsign || op == RadioSetTime || op == RadioReboot {
        replyLen, reboot := Acknowledge(cmd, len, reply, e);
      } else if op == RadioGetTime || op == RadioGetTelem || op == RadioGetCallsign {
        replyLen := Report(cmd, len, reply, e);
        reboot := false;
      } else if op == RadioRanging {
        replyLen := Range(cmd, len, reply, e);
        reboot := false;
      } else {
        replyLen := Extend(cmd, len, reply, e);
        reboot := false;
      }
    }

    /** The header-only replies: ack, nack, set-callsign (whose argument is
        copied into a local and then lost), set-time, and reboot. */
    method Acknowledge(cmd: array<byte>, len: byte, reply: array<byte>, e: Environment) returns (replyLen: byte, reboot: bool)
      requires Valid() && WellFormed(e) && cmd.Length == MaxPayload && reply.Length == MaxPayload && cmd != reply
      requires cmd[5] in {MsgAck, MsgNack, RadioSetCallsign, RadioSetTime, RadioReboot}
      requires reply[..HeaderSize] == ReplyHeader(hwidFlash, cmd[..], MsgNack)
      modifies reply, scheduler`autoReboot, clock`rtcMilliseconds, clock`rtcSeconds, clock`rtcSet
      ensures Delivered(AppOutcome(hwidFlash, cmd[..], len, old(reply[HeaderSize..]), old(ViewOf()), e),
                        replyLen, reboot, reply)
      ensures scheduler.autoReboot == DeadlineAfter(cmd[..], len, old(ViewOf()))
      ensures clock.rtcSet == (old(clock.rtcSet) || cmd[5] == RadioSetTime)
      ensures cmd[5] == RadioSetTime ==>
                clock.rtcMilliseconds == Timers.MillisOf(TimeArgument(cmd[..]).nanoseconds) &&
                clock.rtcSeconds == TimeArgument(cmd[..]).seconds
      ensures cmd[5] != RadioSetTime ==>
                clock.rtcMilliseconds == old(clock.rtcMilliseconds) && clock.rtcSeconds == old(clock.rtcSeconds)
    {
      replyLen := HeaderSize as byte;
      reboot := false;
      var op := cmd[5];
      if op == MsgAck || op == RadioSetCallsign {
        reply[5] := MsgAck;
      } else if op == RadioSetTime {
        reply[5] := MsgAck;
        clock.SetTime(Timers.Timespec(GetLE32(cmd[..], HeaderSize), GetLE32(cmd[..], HeaderSize + 4)));
      } else if op == RadioReboot {
        if (len as nat) < RebootWithArgument {
          reply[5] := MsgAck;
          reboot := true;
        } else {
          var status := scheduler.PostponeReboot(GetLE32(cmd[..], HeaderSize));
          if status == Schedule.Postponed {
            reply[5] := MsgAck;
          } else {
            reply[5] := MsgNack;
          }
        }
      }
      assert reply[..HeaderSize] == ReplyHeader(hwidFlash, cmd[..], reply[5]);
    }

    /** The replies that carry data: the clock reading, the telemetry
        snapshot and the callsign local. */
    method Report(cmd: array<byte>, len: byte, reply: array<byte>, e: Environment) returns (replyLen: byte)
      requires Valid() && WellFormed(e) && cmd.Length == MaxPayload && reply.Length == MaxPayload && cmd != reply
      requires cmd[5] in {RadioGetTime, RadioGetTelem, RadioGetCallsign}
      requires reply[..HeaderSize] == ReplyHeader(hwidFlash, cmd[..], MsgNack)
      modifies reply
      ensures Delivered(AppOutcome(hwidFlash, cmd[..], len, old(reply[HeaderSize..]), ViewOf(), e),
                        replyLen, false, reply)
    {
      var op := cmd[5];
      var payload: seq<byte>;
      if op == RadioGetTime {
        if !clock.rtcSet {
          return HeaderSize as byte;
        }
        reply[5] := RadioSetTime;
        var t := clock.GetTime(e.fine);
        payload := EncodeTimespec(t);
      } else if op == RadioGetTelem {
        reply[5] := RadioTelem;
        payload := e.telemetry;
      } else {
        reply[5] := RadioCallsign;
        payload := e.callsign;
      }
      CopyIn(reply, payload);
      replyLen := (HeaderSize + |payload|) as byte;
      assert reply[..HeaderSize] == ReplyHeader(hwidFlash, cmd[..], reply[5]);
      assert reply[..replyLen] == reply[..HeaderSize] + payload;
    }

    /** Ranging: the acknowledgement is written into the reply buffer and
        transmitted at once with precise timing, and no reply is returned.
        The radio's transmit mode is switched for this packet and restored. */
    method Range(cmd: array<byte>, len: byte, reply: array<byte>, e: Environment) returns (replyLen: byte)
      requires Valid() && WellFormed(e) && cmd.Length == MaxPayload && reply.Length == MaxPayload && cmd != reply
      requires reply != radio.txBuf && cmd[5] == RadioRanging
      requires reply[..HeaderSize] == ReplyHeader(hwidFlash, cmd[..], MsgNack)
      modifies reply, radio, radio.txBuf, clock`channel1
      ensures Valid() && clock.channel1 == Timers.Triggered
      ensures Delivered(AppOutcome(hwidFlash, cmd[..], len, old(reply[HeaderSize..]), old(ViewOf()), e),
                        replyLen, false, reply)
      ensures var p := ReplyHeader(hwidFlash, cmd[..], RadioRangingAck) + [RangingAckType, RangingAckVersion];
              radio.events == old(radio.events)
                + [Radio.Transmitted(Radio.OnAir(radio.crc, p, |p|, RfRangingUart), true), Radio.Listened]
    {
      var p := ReplyHeader(hwidFlash, cmd[..], RadioRangingAck) + [RangingAckType, RangingAckVersion];
      WriteRangingAck(cmd, reply);
      ghost var sent := reply[..];
      // radio_send_packet arms timer channel 1 before a precise transmission
      clock.TriggerForRf();
      radio.Send(reply, (HeaderSize + 2) as byte, true, RfRangingUart);
      Radio.OnAirDependsOnMessage(radio.crc, sent, p, |p|, RfRangingUart);
      replyLen := 0;
    }

    /** The ranging acknowledgement in the reply buffer. */
    method WriteRangingAck(cmd: array<byte>, reply: array<byte>)
      requires cmd.Length == MaxPayload && reply.Length == MaxPayload && cmd != reply
      requires reply[..HeaderSize] == ReplyHeader(hwidFlash, cmd[..], MsgNack)
      modifies reply
      ensures reply[..HeaderSize + 2] == ReplyHeader(hwidFlash, cmd[..], RadioRangingAck) + [RangingAckType, RangingAckVersion]
    {
      reply[5] := RadioRangingAck;
      reply[HeaderSize] := RangingAckType;
      reply[HeaderSize + 1] := RangingAckVersion;
      assert reply[..HeaderSize] == ReplyHeader(hwidFlash, cmd[..], RadioRangingAck);
    }

    /** Any other opcode goes to the board's handler. */
    method Extend(cmd: array<byte>, len: byte, reply: array<byte>, e: Environment) returns (replyLen: byte)
      requires Valid() && WellFormed(e) && cmd.Length == MaxPayload && reply.Length == MaxPayload && cmd != reply
      requires cmd[5] !in {MsgAck, MsgNack, RadioReboot, RadioGetTime, RadioSetTime, RadioGetTelem,
                           RadioSetCallsign, RadioGetCallsign, RadioRanging}
      requires reply[..HeaderSize] == ReplyHeader(hwidFlash, cmd[..], MsgNack)
      modifies reply, board
      ensures Delivered(AppOutcome(hwidFlash, cmd[..], len, old(reply[HeaderSize..]), ViewOf(), e),
                        replyLen, false, reply)
      ensures board.params == if cmd[5] == Board.CustomMsgRfParams then Board.Unpack(cmd[HeaderSize..]) else old(board.params)
    {
      replyLen := board.CustomCommands(cmd, reply, e.undefinedLength);
      assert reply[..HeaderSize] == ReplyHeader(hwidFlash, cmd[..], reply[5]);
      if cmd[5] != Board.CustomMsgRfParams {
        assert reply[..] == reply[..HeaderSize] + old(reply[HeaderSize..]);
      }
    }
  }

  /** Copies `payload` into the reply's data field. */
  method CopyIn(reply: array<byte>, payload: seq<byte>)
    requires HeaderSize + |payload| <= reply.Length
    modifies reply
    ensures reply[..HeaderSize] == old(reply[..HeaderSize])
    ensures reply[HeaderSize..HeaderSize + |payload|] == payload
  {
    var k := 0;
    while k < |payload|
      invariant 0 <= k <= |payload|
      invariant reply[..HeaderSize] == old(reply[..HeaderSize])
      invariant reply[HeaderSize..HeaderSize + k] == payload[..k]
    {
      reply[HeaderSize + k] := payload[k];
      k := k + 1;
    }
  }
}

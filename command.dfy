// The command message shared by every transport: a 6-byte header (device
// id, sequence number, subsystem, opcode) followed by up to 245 data bytes.
// Multi-byte header fields are stored little-endian, as the 8051 compiler
// lays out `uint16_t`.
module Command {
  import opened Bytes

  /** Largest payload of one serial frame, and the size of a command buffer. */
  const MaxPayload: nat := 251
  const HeaderSize: nat := 6
  const MaxData: nat := MaxPayload - HeaderSize

  /** Subsystem byte of messages to and from the radio (both are 1). */
  const MsgTypeRadioIn: byte := 1
  const MsgTypeRadioOut: byte := 1

  const MsgAck: byte := 0x10
  const MsgNack: byte := 0xFF
  const MsgAscii: byte := 0x11

  /** Broadcast and local (ground station) device ids. */
  const HwidBroadcast: u16 := 0x0000
  const HwidLocal: u16 := 0xFFFF

  datatype Header = Header(hwid: u16, seqnum: u16, system: byte, command: byte)

  function EncodeHeader(h: Header): (r: seq<byte>)
    ensures |r| == HeaderSize
  {
    LE16(h.hwid) + LE16(h.seqnum) + [h.system, h.command]
  }

  function DecodeHeader(s: seq<byte>): Header
    requires |s| >= HeaderSize
  {
    Header(GetLE16(s, 0), GetLE16(s, 2), s[4], s[5])
  }

  /** Reading the header back from any message that starts with an encoded
      header gives the same fields. */
  lemma HeaderRoundTrip(h: Header, rest: seq<byte>)
    ensures DecodeHeader(EncodeHeader(h) + rest) == h
  {
    var s := EncodeHeader(h) + rest;
    assert s[0..2] == LE16(h.hwid) && s[2..4] == LE16(h.seqnum);
    LE16RoundTrip(h.hwid);
    LE16RoundTrip(h.seqnum);
  }

  /** A message is for this device when it is addressed to the radio
      subsystem and carries this device's id or the local id. */
  predicate IsLocal(msg: seq<byte>, hwidFlash: u16)
    requires |msg| >= HeaderSize
  {
    var h := DecodeHeader(msg);
    h.system == MsgTypeRadioIn && (h.hwid == hwidFlash || h.hwid == HwidLocal)
  }

  /** The header of a reply to `cmd`: this device, the request's sequence
      number, the radio subsystem and the reply opcode. */
  function ReplyHeader(hwidFlash: u16, cmd: seq<byte>, op: byte): (r: seq<byte>)
    requires |cmd| >= HeaderSize
    ensures |r| == HeaderSize
  {
    EncodeHeader(Header(hwidFlash, DecodeHeader(cmd).seqnum, MsgTypeRadioOut, op))
  }

  /** The reply header byte by byte: the id low byte first, the request's
      sequence number bytes as they came, the subsystem and the opcode. */
  lemma ReplyHeaderBytes(hwidFlash: u16, cmd: seq<byte>, op: byte)
    requires |cmd| >= HeaderSize
    ensures ReplyHeader(hwidFlash, cmd, op) == [hwidFlash % 0x100, hwidFlash / 0x100, cmd[2], cmd[3], MsgTypeRadioOut, op]
  {
    LE16Injective(cmd, 2);
  }

  /** The reply header common to every opcode, with nack as the default
      reply. */
  method BeginReply(hwidFlash: u16, cmd: array<byte>, reply: array<byte>)
    requires cmd.Length >= HeaderSize && reply.Length >= HeaderSize && cmd != reply
    modifies reply
    ensures reply[..HeaderSize] == ReplyHeader(hwidFlash, cmd[..], MsgNack)
    ensures reply[HeaderSize..] == old(reply[HeaderSize..])
  {
    reply[0], reply[1] := hwidFlash % 0x100, hwidFlash / 0x100;
    reply[2], reply[3] := cmd[2], cmd[3];
    reply[4] := MsgTypeRadioOut;
    reply[5] := MsgNack;
    ReplyHeaderBytes(hwidFlash, cmd[..], MsgNack);
  }

  /** Replaces the opcode of a reply header, leaving the rest of the reply
      as it was. */
  method SetReplyOp(hwidFlash: u16, cmd: seq<byte>, reply: array<byte>, op: byte)
    requires |cmd| >= HeaderSize && reply.Length >= HeaderSize
    requires reply[..HeaderSize] == ReplyHeader(hwidFlash, cmd, reply[5])
    modifies reply
    ensures reply[..HeaderSize] == ReplyHeader(hwidFlash, cmd, op)
    ensures reply[HeaderSize..] == old(reply[HeaderSize..])
  {
    ReplyHeaderBytes(hwidFlash, cmd, reply[5]);
    ReplyHeaderBytes(hwidFlash, cmd, op);
    reply[5] := op;
    assert reply[..HeaderSize] == [reply[0], reply[1], reply[2], reply[3], reply[4], reply[5]];
  }
}

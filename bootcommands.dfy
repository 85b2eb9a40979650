// The bootloader's command table (`commands_handle_command` in the
// bootloader): ping, erase and write-page, each of which restarts the
// session countdown, plus the common ack and nack.
module BootCommands {
  import opened Bytes
  import opened Command
  import Flash

  const BootPing: byte := 0x00
  const BootWritePage: byte := 0x02
  const BootErase: byte := 0x0C
  const BootAck: byte := 0x01
  const BootNack: byte := 0x0F

  const AckPong: byte := 0
  const AckErased: byte := 1

  /** The session countdown a command restarts (`COMMAND_WATCHDOG_DELAY`). */
  const CommandWatchdogDelay: u16 := 45000

  /** Offsets in the command buffer of a write-page's page index and data. */
  const PageIndexAt: nat := HeaderSize
  const PageDataAt: nat := HeaderSize + 1

  /** Whether an opcode restarts the session countdown. */
  predicate KeepsSessionAlive(op: byte)
  {
    op == BootPing || op == BootErase || op == BootWritePage
  }

  /** The reply to the command buffer `cmd`. The message length is not
      consulted: a write-page's page index and data are read from the buffer
      whatever the message's length. */
  function BootReply(hwidFlash: u16, cmd: seq<byte>): (r: seq<byte>)
    requires |cmd| == MaxPayload
    ensures HeaderSize <= |r| <= HeaderSize + 1
  {
    var op := cmd[5];
    if op == MsgAck then ReplyHeader(hwidFlash, cmd, MsgAck)
    else if op == MsgNack then ReplyHeader(hwidFlash, cmd, MsgNack)
    else if op == BootPing then ReplyHeader(hwidFlash, cmd, BootAck) + [AckPong]
    else if op == BootErase then ReplyHeader(hwidFlash, cmd, BootAck) + [AckErased]
    else if op == BootWritePage then
      if Flash.Classify(cmd[PageIndexAt]) != Flash.WriteOk then ReplyHeader(hwidFlash, cmd, BootNack)
      else ReplyHeader(hwidFlash, cmd, BootAck) + [cmd[PageIndexAt]]
    else ReplyHeader(hwidFlash, cmd, MsgNack)
  }

  /** The flash after the command. */
  function BootFlash(m: seq<byte>, cmd: seq<byte>): (m': seq<byte>)
    requires |m| == Flash.FlashSize && |cmd| == MaxPayload
    ensures |m'| == Flash.FlashSize
  {
    var op := cmd[5];
    if op == BootErase then Flash.EraseApp(m)
    else if op == BootWritePage && Flash.Classify(cmd[PageIndexAt]) == Flash.WriteOk then
      Splice(m, cmd[PageIndexAt] * Flash.WritePageSize,
             cmd[PageDataAt..PageDataAt + Flash.WritePageSize])
    else m
  }

  /** Every reply is addressed from this device, echoes the request's
      sequence number and is marked as radio output. */
  lemma ReplyEchoesRequest(hwidFlash: u16, cmd: seq<byte>)
    requires |cmd| == MaxPayload
    ensures var r := BootReply(hwidFlash, cmd);
            var h := DecodeHeader(r);
            h.hwid == hwidFlash && h.seqnum == DecodeHeader(cmd).seqnum && h.system == MsgTypeRadioOut
  {
    var r := BootReply(hwidFlash, cmd);
    var hdr := Header(hwidFlash, DecodeHeader(cmd).seqnum, MsgTypeRadioOut, r[5]);
    HeaderRoundTrip(hdr, r[HeaderSize..]);
    assert r == EncodeHeader(hdr) + r[HeaderSize..];
  }

  /** A write-page is acknowledged, with its page index, exactly when the
      page lies inside the application region; then, and only then, flash
      changes, and only in that page. */
  lemma WritePageAckedIffInApp(hwidFlash: u16, m: seq<byte>, cmd: seq<byte>)
    requires |m| == Flash.FlashSize && |cmd| == MaxPayload && cmd[5] == BootWritePage
    ensures var r := BootReply(hwidFlash, cmd);
            var page := cmd[PageIndexAt];
            && (r[5] == BootAck <==> 8 <= page <= 215)
            && (r[5] == BootAck ==> |r| == HeaderSize + 1 && r[HeaderSize] == page)
            && (r[5] != BootAck ==> r[5] == BootNack && |r| == HeaderSize && BootFlash(m, cmd) == m)
            && (BootFlash(m, cmd) != m ==> 8 <= page <= 215)
  {
    Flash.ClassifyRanges(cmd[PageIndexAt]);
  }

  /** Page 255, which the signature check is tied to, is never written: the
      signature branch of write-page is dead. */
  lemma LastPageNeverWritten()
    ensures Flash.Classify(255) == Flash.ErrProtected
  {
  }

  /** Any opcode outside the table is answered with a header-only nack and
      leaves flash alone. */
  lemma UnknownOpcodeNacked(hwidFlash: u16, m: seq<byte>, cmd: seq<byte>)
    requires |m| == Flash.FlashSize && |cmd| == MaxPayload
    requires cmd[5] !in {MsgAck, MsgNack, BootPing, BootErase, BootWritePage}
    ensures BootReply(hwidFlash, cmd) == ReplyHeader(hwidFlash, cmd, MsgNack)
    ensures BootFlash(m, cmd) == m && !KeepsSessionAlive(cmd[5])
  {
  }

  /** The bootloader's command handler with the state it touches: the flash
      and the session countdown. */
  class BootHandler {
    const flash: Flash.FlashMemory
    const hwidFlash: u16
    var timeout: u16

    ghost predicate Valid()
    {
      flash.Valid()
    }

    constructor (flash: Flash.FlashMemory, hwidFlash: u16)
      requires flash.Valid()
      ensures Valid() && this.flash == flash && this.hwidFlash == hwidFlash
      ensures timeout == CommandWatchdogDelay
    {
      this.flash := flash;
      this.hwidFlash := hwidFlash;
      timeout := CommandWatchdogDelay;
    }

    /** `commands_handle_command`: writes the reply into `reply` and returns
        its length; erases or writes flash and restarts the countdown as the
        opcode asks. */
    method HandleCommand(cmd: array<byte>, len: byte, reply: array<byte>) returns (replyLen: byte)
      requires Valid() && cmd.Length == MaxPayload && reply.Length == MaxPayload
      requires cmd != reply && cmd != flash.mem && reply != flash.mem
      modifies this, flash, flash.mem, reply
      ensures Valid()
      ensures replyLen as int <= reply.Length && reply[..replyLen] == BootReply(hwidFlash, cmd[..])
      ensures flash.mem[..] == BootFlash(old(flash.mem[..]), cmd[..])
      ensures timeout == if KeepsSessionAlive(cmd[5]) then CommandWatchdogDelay else old(timeout)
    {
      BeginReply(hwidFlash, cmd, reply);
      replyLen := HeaderSize as byte;
      var op := cmd[5];
      if op == MsgAck {
        SetReplyOp(hwidFlash, cmd[..], reply, MsgAck);
      } else if op == MsgNack {
        SetReplyOp(hwidFlash, cmd[..], reply, MsgNack);
      } else if KeepsSessionAlive(op) {
        replyLen := Serve(cmd, reply);
        timeout := CommandWatchdogDelay;
      }
    }

    /** Ping, erase and write-page: the cases that restart the session
        countdown, each answered by the bootloader's ack or nack. */
    method Serve(cmd: array<byte>, reply: array<byte>) returns (replyLen: byte)
      requires Valid() && cmd.Length == MaxPayload && reply.Length == MaxPayload
      requires cmd != reply && cmd != flash.mem && reply != flash.mem
      requires KeepsSessionAlive(cmd[5])
      requires reply[..HeaderSize] == ReplyHeader(hwidFlash, cmd[..], MsgNack)
      modifies flash, flash.mem, reply
      ensures Valid()
      ensures replyLen as int <= reply.Length && reply[..replyLen] == BootReply(hwidFlash, cmd[..])
      ensures flash.mem[..] == BootFlash(old(flash.mem[..]), cmd[..])
    {
      var op := cmd[5];
      var ack: byte;
      if op == BootPing {
        ack := AckPong;
      } else if op == BootErase {
        flash.EraseAppRegion();
        ack := AckErased;
      } else {
        var page := cmd[PageIndexAt];
        var status := flash.WriteAppPage(page, cmd, PageDataAt);
        if status != Flash.WriteOk {
          SetReplyOp(hwidFlash, cmd[..], reply, BootNack);
          return HeaderSize as byte;
        }
        if page == 255 {
          // page 255 is protected, so the signature check never runs here
          assert false;
        }
        ack := page;
      }
      SetReplyOp(hwidFlash, cmd[..], reply, BootAck);
      reply[HeaderSize] := ack;
      PrefixOfRuns(reply[..], HeaderSize, HeaderSize + 1, ReplyHeader(hwidFlash, cmd[..], BootAck), [ack]);
      replyLen := HeaderSize as byte + 1;
    }
  }
}

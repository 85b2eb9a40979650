// Routing of received messages (`input_handlers.c`): a message addressed to
// this device is handed to the command handler and its reply goes back the
// way the message came; any other message is forwarded from serial to the
// air or from the air to serial, as the image's build options allow.
module Dispatch {
  import opened Bytes
  import opened Command
  import Uart
  import Radio

  datatype UartId = Uart0 | Uart1

  /** Where a message came in; a radio message carries its UART select. */
  datatype Port = FromUart(id: UartId) | FromRf(uartSel: bool)

  /** The forwarding switches of an image. */
  datatype Options = Options(forwardUart0: bool, forwardUart1: bool, forwardRf: bool)

  /** The bootloader forwards nothing; the application forwards everything. */
  const Bootloader := Options(false, false, false)
  const Application := Options(true, true, true)

  /** A reply: empty (no reply), or a header and at most 245 data bytes. */
  type Reply = r: seq<byte> | r == [] || HeaderSize <= |r| <= MaxPayload

  /** `commands_handle_command`, seen from the dispatcher: the reply to a
      message. */
  type Handler = seq<byte> -> Reply

  /** A message the firmware sends in response to one it received. */
  datatype Output =
    | Silent
    | ToUart(id: UartId, msg: seq<byte>)
    | ToAir(msg: seq<byte>, uartSel: bool)

  predicate Sendable(o: Output)
  {
    match o
    case Silent => true
    case ToUart(_, m) => |m| <= MaxPayload
    case ToAir(m, _) => HeaderSize <= |m| <= MaxPayload
  }

  /** Whether a message of this length, with this header, is for this
      device (the length test comes first, as in C). */
  predicate ForUs(msg: seq<byte>, hwidFlash: u16)
  {
    |msg| >= HeaderSize && IsLocal(msg, hwidFlash)
  }

  /** A reply sent back the way its message came. */
  function Back(port: Port, reply: seq<byte>): (out: Output)
    ensures out.ToUart? <==> port.FromUart?
    ensures out.ToUart? ==> out == ToUart(port.id, reply)
    ensures out.ToAir? ==> out == ToAir(reply, port.uartSel)
  {
    match port
    case FromUart(id) => ToUart(id, reply)
    case FromRf(sel) => ToAir(reply, sel)
  }

  /** The handler routines' decision for one non-empty message. */
  function Respond(opt: Options, handle: Handler, hwidFlash: u16, port: Port, msg: seq<byte>): (out: Output)
    requires 1 <= |msg| <= MaxPayload
    ensures Sendable(out)
  {
    if ForUs(msg, hwidFlash) then
      var reply := handle(msg);
      if reply == [] then Silent else Back(port, reply)
    else match port
      case FromUart(Uart0) =>
        if |msg| >= HeaderSize && opt.forwardUart0 then ToAir(msg, false) else Silent
      case FromUart(Uart1) =>
        if |msg| >= HeaderSize && opt.forwardUart1 then ToAir(msg, true) else Silent
      case FromRf(_) =>
        if opt.forwardRf then ToUart(Uart1, msg) else Silent
  }

  // ---------------------------------------------------------------------
  // Properties of the routing

  /** A message for this device is never forwarded: the only output is its
      reply, on the port it arrived on. */
  lemma LocalAnsweredOnSamePort(opt: Options, handle: Handler, hwidFlash: u16,
                                                   port: Port, msg: seq<byte>)
    requires 1 <= |msg| <= MaxPayload && ForUs(msg, hwidFlash)
    ensures var out := Respond(opt, handle, hwidFlash, port, msg);
            && (out == Silent <==> handle(msg) == [])
            && (out.ToUart? ==> port == FromUart(out.id) && out.msg == handle(msg))
            && (out.ToAir? ==> port == FromRf(out.uartSel) && out.msg == handle(msg))
  {
  }

  /** A message for another device leaves unchanged and only ever crosses
      between serial and air: it is never sent back where it came from, and
      a radio message goes to UART1 whatever its UART select says. */
  lemma ForwardCrossesMedium(opt: Options, handle: Handler, hwidFlash: u16, port: Port, msg: seq<byte>)
    requires 1 <= |msg| <= MaxPayload && !ForUs(msg, hwidFlash)
    ensures var out := Respond(opt, handle, hwidFlash, port, msg);
            && (out.ToAir? ==> port.FromUart? && out.msg == msg
                               && out.uartSel == (port.id == Uart1))
            && (out.ToUart? ==> port.FromRf? && out == ToUart(Uart1, msg))
            && (out == Silent <==>
                  match port
                  case FromUart(Uart0) => |msg| < HeaderSize || !opt.forwardUart0
                  case FromUart(Uart1) => |msg| < HeaderSize || !opt.forwardUart1
                  case FromRf(_) => !opt.forwardRf)
  {
  }

  /** The bootloader only ever answers: everything it sends is a reply. */
  lemma BootloaderOnlyAnswers(handle: Handler, hwidFlash: u16, port: Port, msg: seq<byte>)
    requires 1 <= |msg| <= MaxPayload
    ensures var out := Respond(Bootloader, handle, hwidFlash, port, msg);
            out == Silent || (ForUs(msg, hwidFlash) && out.msg == handle(msg))
  {
  }

  /** A serial message shorter than a header is dropped. */
  lemma ShortSerialIgnored(opt: Options, handle: Handler, hwidFlash: u16, id: UartId, msg: seq<byte>)
    requires 1 <= |msg| < HeaderSize
    ensures Respond(opt, handle, hwidFlash, FromUart(id), msg) == Silent
  {
  }

  /** Every message a packet decodes to is at least a header long, so the
      radio handler's length test never fails. */
  lemma RadioMessagesHaveHeader(crc: Radio.Checksum, data: seq<byte>)
    requires |data| == Radio.RfBufferSize
    ensures Radio.DecodePacket(crc, data).Accepted? ==> |Radio.DecodePacket(crc, data).msg| >= HeaderSize
  {
  }

  // ---------------------------------------------------------------------
  // What reaches the wires

  /** Everything sent so far: the bytes written to each UART and the radio
      events. */
  datatype Wires = Wires(uart0: seq<byte>, uart1: seq<byte>, air: seq<Radio.RadioEvent>)

  /** The wires after sending `o`: a serial frame, or a packet followed by
      the receiver being re-armed. */
  function Emit(w: Wires, crc: Radio.Checksum, o: Output): (w': Wires)
    requires Sendable(o)
    ensures o == Silent ==> w' == w
    ensures o.ToUart? ==> w'.air == w.air
    ensures o.ToAir? ==> w'.uart0 == w.uart0 && w'.uart1 == w.uart1
  {
    match o
    case Silent => w
    case ToUart(Uart0, m) => w.(uart0 := w.uart0 + Uart.Frame(m))
    case ToUart(Uart1, m) => w.(uart1 := w.uart1 + Uart.Frame(m))
    case ToAir(m, sel) =>
      w.(air := w.air + [Radio.Transmitted(Radio.OnAir(crc, m, |m|, sel), false), Radio.Listened])
  }

  /** The device's message routing: both serial ports, the radio, the shared
      receive and reply buffers, and the command handler of the image. */
  class Node {
    const uart0: Uart.UartPort
    const uart1: Uart.UartPort
    const radio: Radio.RadioLink
    const buffer: array<byte>
    const reply: array<byte>
    const hwidFlash: u16
    const opt: Options
    const handle: Handler

    ghost function Wired(): Wires
      reads uart0, uart1, radio
    {
      Wires(uart0.sent, uart1.sent, radio.events)
    }

    ghost predicate Valid()
      reads uart0, uart0.ready, uart0.lens, uart0.data
      reads uart1, uart1.ready, uart1.lens, uart1.data
    {
      && uart0.Valid() && uart1.Valid() && radio.Valid()
      && uart0 != uart1 && uart0.ready != uart1.ready
      && buffer.Length == MaxPayload && reply.Length == MaxPayload && buffer != reply
      && buffer !in {uart0.lens, uart0.data, uart0.printBuf, uart1.lens, uart1.data, uart1.printBuf}
      && reply !in {uart0.lens, uart0.data, uart0.printBuf, uart1.lens, uart1.data, uart1.printBuf}
      && radio.txBuf !in {uart0.lens, uart0.data, uart1.lens, uart1.data}
      && buffer !in {radio.rxBuf, radio.txBuf} && reply != radio.txBuf
    }

    constructor (hwidFlash: u16, opt: Options, handle: Handler, crc: Radio.Checksum)
      ensures Valid() && Wired() == Wires([], [], [])
      ensures uart0.Abstract() == Uart.Init(Uart.Uart0Buffers)
      ensures uart1.Abstract() == Uart.Init(Uart.Uart1Buffers)
      ensures this.hwidFlash == hwidFlash && this.opt == opt && this.handle == handle
      ensures radio.crc == crc && !radio.rxComplete
    {
      buffer := new byte[MaxPayload](_ => 0);
      reply := new byte[MaxPayload](_ => 0);
      uart0 := new Uart.UartPort(Uart.Uart0Buffers);
      uart1 := new Uart.UartPort(Uart.Uart1Buffers);
      radio := new Radio.RadioLink(crc);
      this.hwidFlash := hwidFlash;
      this.opt := opt;
      this.handle := handle;
    }

    /** Puts the handler's reply to `buffer[..len]` into `reply`. */
    method Answer(len: byte) returns (replyLen: byte)
      requires buffer.Length == MaxPayload && reply.Length == MaxPayload && buffer != reply
      requires len <= MaxPayload
      modifies reply
      ensures replyLen == |handle(buffer[..len])| && reply[..replyLen] == handle(buffer[..len])
    {
      var r := handle(buffer[..len]);
      forall k | 0 <= k < |r| {
        reply[k] := r[k];
      }
      assert buffer[..len] == old(buffer[..len]);
      assert reply[..|r|] == r;
      replyLen := |r|;
    }

    /** The common part of the three handlers, for a message of `len` bytes
        in `buffer`: hand it to the command handler and send the reply back
        on `port`, or forward it. */
    method Route(port: Port, len: byte)
      requires Valid() && 1 <= len <= MaxPayload
      modifies uart0`sent, uart1`sent, radio, radio.txBuf, reply
      ensures Valid()
      ensures uart0.Abstract() == old(uart0.Abstract()) && uart1.Abstract() == old(uart1.Abstract())
      ensures Wired() == Emit(old(Wired()), radio.crc, Respond(opt, handle, hwidFlash, port, old(buffer[..len])))
    {
      if len >= HeaderSize {
        assert DecodeHeader(buffer[..]) == DecodeHeader(buffer[..len]);
      }
      if len >= HeaderSize && IsLocal(buffer[..], hwidFlash) {
        ReplyOn(port, len);
      } else {
        Forward(port, len);
      }
    }

    /** A message for this device: the handler's reply, when there is one,
        goes back on the port the message came from. */
    method ReplyOn(port: Port, len: byte)
      requires Valid() && 1 <= len <= MaxPayload && ForUs(buffer[..len], hwidFlash)
      modifies uart0`sent, uart1`sent, radio, radio.txBuf, reply
      ensures Valid()
      ensures uart0.Abstract() == old(uart0.Abstract()) && uart1.Abstract() == old(uart1.Abstract())
      ensures Wired() == Emit(old(Wired()), radio.crc, Respond(opt, handle, hwidFlash, port, buffer[..len]))
    {
      var replyLen := Answer(len);
      if replyLen != 0 {
        SendBack(port, replyLen);
      }
    }

    /** Sends the first `replyLen` bytes of `reply` on `port`. */
    method SendBack(port: Port, replyLen: byte)
      requires Valid() && HeaderSize <= replyLen <= MaxPayload
      modifies uart0`sent, uart1`sent, radio, radio.txBuf
      ensures Valid()
      ensures uart0.Abstract() == old(uart0.Abstract()) && uart1.Abstract() == old(uart1.Abstract())
      ensures Wired() == Emit(old(Wired()), radio.crc, Back(port, old(reply[..replyLen])))
    {
      match port
      case FromUart(Uart0) => uart0.SendMessage(reply, replyLen);
      case FromUart(Uart1) => uart1.SendMessage(reply, replyLen);
      case FromRf(sel) => Transmit(reply, replyLen, sel);
    }

    /** A message for another device: forwarded to the other medium when
        the image forwards from this port. */
    method Forward(port: Port, len: byte)
      requires Valid() && 1 <= len <= MaxPayload && !ForUs(buffer[..len], hwidFlash)
      modifies uart1`sent, radio, radio.txBuf
      ensures Valid()
      ensures uart0.Abstract() == old(uart0.Abstract()) && uart1.Abstract() == old(uart1.Abstract())
      ensures Wired() == Emit(old(Wired()), radio.crc, Respond(opt, handle, hwidFlash, port, buffer[..len]))
    {
      match port
      case FromUart(Uart0) =>
        if len >= HeaderSize && opt.forwardUart0 {
          Transmit(buffer, len, false);
        }
      case FromUart(Uart1) =>
        if len >= HeaderSize && opt.forwardUart1 {
          Transmit(buffer, len, true);
        }
      case FromRf(_) =>
        if opt.forwardRf {
          uart1.SendMessage(buffer, len);
        }
    }

    /** `radio_send_packet` of the first `len` bytes of `cmd`, sent at
        once. */
    method Transmit(cmd: array<byte>, len: byte, uartSel: bool)
      requires Valid() && (cmd == buffer || cmd == reply)
      requires HeaderSize <= len <= MaxPayload
      modifies radio, radio.txBuf
      ensures Valid()
      ensures Wired() == Emit(old(Wired()), radio.crc, ToAir(old(cmd[..len]), uartSel))
    {
      ghost var before := cmd[..];
      radio.Send(cmd, len, false, uartSel);
      Radio.OnAirDependsOnMessage(radio.crc, before, before[..len], len, uartSel);
    }

    /** `input_handle_uart0_rx` and `input_handle_uart1_rx`: take the next
        message from the port, if any, and respond to it. */
    method HandleUartRx(id: UartId)
      requires Valid()
      modifies uart0.ready, uart1.ready, uart0`sent, uart1`sent, radio, radio.txBuf, buffer, reply
      ensures Valid()
      ensures var p := Uart.Poll(old(if id == Uart0 then uart0.Abstract() else uart1.Abstract()));
        && (id == Uart0 ==> uart0.Abstract() == p.rx && uart1.Abstract() == old(uart1.Abstract()))
        && (id == Uart1 ==> uart1.Abstract() == p.rx && uart0.Abstract() == old(uart0.Abstract()))
        && Wired() == (if p.msg == [] then old(Wired())
                       else Emit(old(Wired()), radio.crc,
                                 Respond(opt, handle, hwidFlash, FromUart(id), p.msg)))
    {
      var port := if id == Uart0 then uart0 else uart1;
      var len := port.GetMessage(buffer);
      if len != 0 {
        Route(FromUart(id), len);
      }
    }

    /** `input_handle_rf_rx`: take the received packet's message, if any,
        re-arm the receiver at once, then respond to the message. */
    method HandleRfRx()
      requires Valid()
      modifies uart0`sent, uart1`sent, radio, radio.txBuf, buffer, reply
      ensures Valid()
      ensures uart0.Abstract() == old(uart0.Abstract()) && uart1.Abstract() == old(uart1.Abstract())
      ensures !old(radio.rxComplete) ==> Wired() == old(Wired())
      ensures old(radio.rxComplete) ==> match Radio.DecodePacket(radio.crc, old(radio.rxBuf[..]))
        case RejectedOther => Wired() == old(Wired())
        case RejectedChecksum => Wired() == old(Wired()).(air := old(Wired()).air + [Radio.Listened])
        case Accepted(msg, sel) =>
          Wired() == Emit(old(Wired()).(air := old(Wired()).air + [Radio.Listened]), radio.crc,
                          Respond(opt, handle, hwidFlash, FromRf(sel), msg))
    {
      var len, sel := radio.GetMessage(buffer, false);
      if len != 0 {
        radio.Listen();
        Route(FromRf(sel), len);
      }
    }
  }
}

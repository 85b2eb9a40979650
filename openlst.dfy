// The newer host driver for one radio on a serial port: C integer packing,
// the frame it writes for each command (big-endian hwid and sequence
// number), its packet queue and the selection of replies, the decoding of
// the telemetry record, and the register fields it sends to set the radio
// parameters.
module OpenLstHost {
  import opened Bytes
  import Translator
  import Handler
  import Command
  import Board
  import AppCommands

  /** The largest message `transmit` accepts: a command buffer less the
      header. */
  const MaxDataLen: nat := 251 - 6

  /** What the driver raises. */
  datatype HostError = AssertionError | StructError | ValueError | UnboundLocalError

  // ---------------------------------------------------------------------
  // C integers

  /** The struct format `pack_cint`/`unpack_cint` pick: `<b`, `<h`, `<i`,
      upper-cased when unsigned; any other size leaves `fmt` unbound. */
  function CKind(size: int, signed: bool): (k: Option<Translator.IntKind>)
    ensures k.Some? <==> size == 1 || size == 2 || size == 4
    ensures k.Some? ==> Translator.Width(k.value) == size && Translator.IsSigned(k.value) == signed
  {
    if size == 1 then Some(if signed then Translator.Int8 else Translator.UInt8)
    else if size == 2 then Some(if signed then Translator.Int16 else Translator.UInt16)
    else if size == 4 then Some(if signed then Translator.Int32 else Translator.UInt32)
    else None
  }

  /** `pack_cint`: little-endian, two's complement when signed;
      `struct.error` for a value out of the type's range. */
  function PackCInt(v: int, size: int, signed: bool): (r: Result<seq<byte>, HostError>)
    ensures r.Ok? ==> |r.value| == size
    ensures r.Ok? <==> CKind(size, signed).Some? &&
                       Translator.TypeMin(CKind(size, signed).value) <= v <= Translator.TypeMax(CKind(size, signed).value)
  {
    match CKind(size, signed)
    case None => Raise(UnboundLocalError)
    case Some(k) =>
      if Translator.TypeMin(k) <= v <= Translator.TypeMax(k) then Ok(Translator.PackLE(v, size))
      else Raise(StructError)
  }

  /** `unpack_cint`: `struct.error` unless exactly `size` bytes are given. */
  function UnpackCInt(b: seq<byte>, size: int, signed: bool): (r: Result<int, HostError>)
    ensures r.Ok? <==> CKind(size, signed).Some? && |b| == size
  {
    match CKind(size, signed)
    case None => Raise(UnboundLocalError)
    case Some(k) => if |b| != size then Raise(StructError) else Ok(Translator.Unpack(k, b))
  }

  /** Every value `pack_cint` accepts is read back by `unpack_cint`. */
  lemma CIntRoundTrip(v: int, size: int, signed: bool)
    requires PackCInt(v, size, signed).Ok?
    ensures UnpackCInt(PackCInt(v, size, signed).value, size, signed) == Ok(v)
  {
    Translator.PackRoundTrip(CKind(size, signed).value, v);
  }

  /** Unsigned 32-bit packing is the firmware's `uint32_t` layout. */
  lemma PackU32IsLE32(v: int)
    requires 0 <= v < 0x1_0000_0000
    ensures PackCInt(v, 4, false) == Ok(LE32(v))
  {
    var b1, b2 := v / 0x100, v / 0x1_0000;
    assert Translator.PackLE(v, 4) == [v % 0x100] + Translator.PackLE(b1, 3);
    assert Translator.PackLE(b1, 3) == [b1 % 0x100] + Translator.PackLE(b1 / 0x100, 2);
    assert b1 / 0x100 == b2;
    assert Translator.PackLE(b2, 2) == [b2 % 0x100] + Translator.PackLE(b2 / 0x100, 1);
    assert b2 / 0x100 < 0x100;
    assert Translator.PackLE(b2 / 0x100, 1) == [b2 / 0x100];
    assert v % 0x1_0000 % 0x100 == v % 0x100;
    assert v % 0x1_0000 / 0x100 == b1 % 0x100;
    assert Translator.PackLE(v, 4) == [v % 0x100, b1 % 0x100, b2 % 0x100, b2 / 0x100];
    assert LE32(v) == [v % 0x100, b1 % 0x100, b2 % 0x100, b2 / 0x100];
  }

  // ---------------------------------------------------------------------
  // The frame `_send` writes

  /** `_send`'s frame: 0x22 0x69, the length of what follows, the hwid and
      sequence number big-endian, subsystem 0x01, the opcode and the
      message. `bytearray.append` raises ValueError for a length or opcode
      above 255, `struct.pack('>H')` raises for an hwid or sequence number
      outside 16 bits. */
  function SendFrame(hwid: int, seqnum: int, cmd: int, msg: seq<byte>): (r: Result<seq<byte>, HostError>)
    ensures r.Ok? <==> 6 + |msg| < 0x100 && 0 <= hwid < 0x10000 && 0 <= seqnum < 0x10000 && 0 <= cmd < 0x100
    ensures r.Ok? ==> |r.value| == 9 + |msg| && r.value[..3] == [Handler.Start0, Handler.Start1, 6 + |msg|]
    ensures r.Ok? ==> r.value[9..] == msg
  {
    if 6 + |msg| >= 0x100 then Raise(ValueError)
    else if !(0 <= hwid < 0x10000) || !(0 <= seqnum < 0x10000) then Raise(StructError)
    else if !(0 <= cmd < 0x100) then Raise(ValueError)
    else Ok([Handler.Start0, Handler.Start1, 6 + |msg|] + SentBody(hwid, seqnum, cmd, msg))
  }

  /** The frame after its length byte. */
  function SentBody(hwid: u16, seqnum: u16, cmd: byte, msg: seq<byte>): (r: seq<byte>)
    ensures |r| == 6 + |msg|
  {
    BE16(hwid) + BE16(seqnum) + [1, cmd] + msg
  }

  /** A frame `_send` writes is recognised by the serial handler as one
      packet carrying the same hwid, sequence number, opcode and message,
      and the bytes after it are read as before. */
  lemma SentFrameReceived(hwid: u16, seqnum: u16, cmd: byte, msg: seq<byte>, rest: seq<byte>)
    requires 6 + |msg| < 0x100
    ensures var r := Handler.Feed(Handler.Idle, rest);
            Handler.Feed(Handler.Idle, SendFrame(hwid, seqnum, cmd, msg).value + rest)
              == r.(packets := [Handler.Packet(6 + |msg|, hwid, seqnum, 1, cmd, msg)] + r.packets)
  {
    var body := SentBody(hwid, seqnum, cmd, msg);
    var n := 6 + |msg|;
    assert SendFrame(hwid, seqnum, cmd, msg).value + rest == [Handler.Start0, Handler.Start1, n as byte] + body + rest;
    Handler.FrameFromIdle(body, rest);
    var p := Handler.Packet(n, hwid, seqnum, 1, cmd, msg);
    Handler.HandlePacketBytes(p);
    assert Handler.PacketBytes(p) == [n as byte] + body;
  }

  /** The firmware reads 16-bit header fields little-endian, so it sees
      the hwid and sequence number this driver sends byte-swapped. */
  function Swap16(v: u16): u16
  {
    (v % 0x100) * 0x100 + v / 0x100
  }

  lemma FirmwareReadsSwapped(hwid: u16, seqnum: u16, cmd: byte, msg: seq<byte>)
    ensures Command.DecodeHeader(SentBody(hwid, seqnum, cmd, msg))
              == Command.Header(Swap16(hwid), Swap16(seqnum), Command.MsgTypeRadioIn, cmd)
  {
  }

  /** A command reaches the radio whose flash hwid is `h` exactly when the
      driver was given the byte-swapped `h` (or the swapped local id). */
  lemma AddressedRadio(hwid: u16, seqnum: u16, cmd: byte, msg: seq<byte>, hwidFlash: u16)
    ensures Command.IsLocal(SentBody(hwid, seqnum, cmd, msg), hwidFlash) <==>
              (hwid == Swap16(hwidFlash) || hwid == Swap16(Command.HwidLocal))
  {
    FirmwareReadsSwapped(hwid, seqnum, cmd, msg);
    SwapMatches(hwid, hwidFlash);
    SwapMatches(hwid, Command.HwidLocal);
  }

  /** Swapping the bytes twice gives the value back. */
  lemma SwapTwice(v: u16)
    ensures Swap16(Swap16(v)) == v
  {
    var h, l := v / 0x100, v % 0x100;
    var w := l * 0x100 + h;
    assert Swap16(v) == w;
    assert w % 0x100 == h && w / 0x100 == l;
  }

  lemma SwapMatches(a: u16, b: u16)
    ensures Swap16(a) == b <==> a == Swap16(b)
  {
    SwapTwice(a);
    SwapTwice(b);
  }

  /** The firmware's reply repeats the request's sequence-number bytes, so
      the handler reads back the number `_send` used (and the replying
      radio's hwid byte-swapped). */
  lemma ReplySeqnumMatches(hwid: u16, seqnum: u16, cmd: byte, msg: seq<byte>, hwidFlash: u16, op: byte, data: seq<byte>)
    requires 6 + |data| < 0x100
    ensures var raw := [6 + |data|] + Command.ReplyHeader(hwidFlash, SentBody(hwid, seqnum, cmd, msg), op) + data;
            Handler.HandlePacket(raw) == Ok(Handler.Packet(6 + |data|, Swap16(hwidFlash), seqnum, Command.MsgTypeRadioOut, op, data))
  {
    FirmwareReadsSwapped(hwid, seqnum, cmd, msg);
    var p := Handler.Packet(6 + |data|, Swap16(hwidFlash), seqnum, Command.MsgTypeRadioOut, op, data);
    Handler.HandlePacketBytes(p);
    var h := Command.Header(hwidFlash, Swap16(seqnum), Command.MsgTypeRadioOut, op);
    assert Command.EncodeHeader(h) == BE16(Swap16(hwidFlash)) + BE16(seqnum) + [Command.MsgTypeRadioOut, op];
    assert Handler.PacketBytes(p) == [6 + |data|] + Command.EncodeHeader(h) + data;
  }

  // ---------------------------------------------------------------------
  // Choosing a reply from the queue

  /** Python truthiness of an optional number: absent and 0 are false. */
  predicate Truthy(o: Option<int>)
  {
    o.Some? && o.value != 0
  }

  function FirstWithSeqnum(ps: seq<Handler.Packet>, s: int): (r: Option<nat>)
    ensures r.Some? ==> r.value < |ps| && ps[r.value].seqnum == s && forall j :: 0 <= j < r.value ==> ps[j].seqnum != s
    ensures r.None? ==> forall j :: 0 <= j < |ps| ==> ps[j].seqnum != s
  {
    if ps == [] then None
    else if ps[0].seqnum == s then Some(0)
    else match FirstWithSeqnum(ps[1..], s)
      case None => None
      case Some(i) => Some(i + 1)
  }

  function FirstWithCommand(ps: seq<Handler.Packet>, c: int): (r: Option<nat>)
    ensures r.Some? ==> r.value < |ps| && ps[r.value].command == c && forall j :: 0 <= j < r.value ==> ps[j].command != c
    ensures r.None? ==> forall j :: 0 <= j < |ps| ==> ps[j].command != c
  {
    if ps == [] then None
    else if ps[0].command == c then Some(0)
    else match FirstWithCommand(ps[1..], c)
      case None => None
      case Some(i) => Some(i + 1)
  }

  /** `list.pop(i)`. */
  function Pop(ps: seq<Handler.Packet>, i: nat): (r: seq<Handler.Packet>)
    requires i < |ps|
    ensures |r| == |ps| - 1 && multiset(ps) == multiset(r) + multiset{ps[i]}
    ensures r[..i] == ps[..i] && r[i..] == ps[i + 1..]
  {
    assert ps == ps[..i] + [ps[i]] + ps[i + 1..];
    ps[..i] + ps[i + 1..]
  }

  /** `get_packet` on the queue `ps`: by sequence number if one is given
      and non-zero, else by opcode if one is given and non-zero, else the
      oldest; the packet taken leaves the queue. */
  function SelectPacket(ps: seq<Handler.Packet>, cmd: Option<int>, seqnum: Option<int>): (r: (Option<Handler.Packet>, seq<Handler.Packet>))
    ensures r.0.None? ==> r.1 == ps
    ensures r.0.Some? ==> multiset(ps) == multiset(r.1) + multiset{r.0.value}
  {
    if ps == [] then (None, ps)
    else if Truthy(seqnum) then
      match FirstWithSeqnum(ps, seqnum.value)
      case None => (None, ps)
      case Some(i) => PopAt(ps, i)
    else if Truthy(cmd) then
      match FirstWithCommand(ps, cmd.value)
      case None => (None, ps)
      case Some(i) => PopAt(ps, i)
    else PopAt(ps, 0)
  }

  function PopAt(ps: seq<Handler.Packet>, i: nat): (r: (Option<Handler.Packet>, seq<Handler.Packet>))
    requires i < |ps|
    ensures r.0 == Some(ps[i]) && r.1 == Pop(ps, i)
    ensures multiset(ps) == multiset(r.1) + multiset{ps[i]}
  {
    (Some(ps[i]), Pop(ps, i))
  }

  /** A reply asked for by a non-zero sequence number is the earliest
      packet with that number, and none is taken when no packet has it. */
  lemma SelectBySeqnum(ps: seq<Handler.Packet>, cmd: Option<int>, s: int)
    requires s != 0
    ensures var (p, rest) := SelectPacket(ps, cmd, Some(s));
            && (p.Some? <==> exists j :: 0 <= j < |ps| && ps[j].seqnum == s)
            && (p.Some? ==>
                  (p.value.seqnum == s &&
                   exists i :: 0 <= i < |ps| && ps[i] == p.value && rest == Pop(ps, i) &&
                               forall j :: 0 <= j < i ==> ps[j].seqnum != s))
  {
    if ps != [] {
      var f := FirstWithSeqnum(ps, s);
      if f.Some? {
        assert ps[f.value] == SelectPacket(ps, cmd, Some(s)).0.value;
      }
    }
  }

  /** Sequence number 0 is false in Python, so asking for it is asking for
      no particular reply: the opcode, or else the oldest packet, decides. */
  lemma SeqnumZeroIgnored(ps: seq<Handler.Packet>, cmd: Option<int>)
    ensures SelectPacket(ps, cmd, Some(0)) == SelectPacket(ps, cmd, None)
    ensures ps != [] && !Truthy(cmd) ==> SelectPacket(ps, cmd, Some(0)) == (Some(ps[0]), ps[1..])
  {
    if ps != [] {
      assert Pop(ps, 0) == ps[1..];
    }
  }

  // ---------------------------------------------------------------------
  // Telemetry

  /** Where `get_telem` reads one field in the reply's data: offset, size,
      signedness. */
  datatype FieldSpec = FieldSpec(offset: nat, size: nat, signed: bool)

  /** The fields `get_telem` decodes, in order: uptime, the two UART
      counters, rx and tx mode, ten ADC channels, last RSSI, LQI and
      frequency estimate, and six packet counters. */
  const HostTelemFields: seq<FieldSpec> :=
    [FieldSpec(1, 4, false), FieldSpec(5, 4, false), FieldSpec(9, 4, false), FieldSpec(13, 1, false), FieldSpec(14, 1, false)] +
    [FieldSpec(15, 2, true), FieldSpec(17, 2, true), FieldSpec(19, 2, true), FieldSpec(21, 2, true), FieldSpec(23, 2, true),
     FieldSpec(25, 2, true), FieldSpec(27, 2, true), FieldSpec(29, 2, true), FieldSpec(31, 2, true), FieldSpec(33, 2, true)] +
    [FieldSpec(35, 1, true), FieldSpec(36, 1, false), FieldSpec(37, 1, true)] +
    [FieldSpec(38, 4, false), FieldSpec(42, 4, false), FieldSpec(46, 4, false),
     FieldSpec(50, 4, false), FieldSpec(54, 4, false), FieldSpec(58, 4, false)]

  /** A member of the firmware's packed `telemetry_t`: size and signedness. */
  datatype Member = Member(size: nat, signed: bool)

  /** `telemetry_t` member by member (the ADC array expanded), as the
      8051 compiler packs it with no padding. */
  const TelemetryT: seq<Member> :=
    [Member(1, false)] +
    [Member(4, false), Member(4, false), Member(4, false), Member(1, false), Member(1, false)] +
    [Member(2, true), Member(2, true), Member(2, true), Member(2, true), Member(2, true),
     Member(2, true), Member(2, true), Member(2, true), Member(2, true), Member(2, true)] +
    [Member(1, true), Member(1, false), Member(1, true)] +
    [Member(4, false), Member(4, false), Member(4, false), Member(4, false), Member(4, false),
     Member(4, false), Member(4, false), Member(4, false), Member(4, false), Member(4, false)]

  /** The byte offset of member `k` of `layout`: the sizes before it. */
  function Offset(layout: seq<Member>, k: nat): nat
    requires k <= |layout|
  {
    if k == 0 then 0 else Offset(layout, k - 1) + layout[k - 1].size
  }

  /** Where member `k` of `layout` is read from. */
  function FieldAt(layout: seq<Member>, k: nat): FieldSpec
    requires k < |layout|
  {
    FieldSpec(Offset(layout, k), layout[k].size, layout[k].signed)
  }

  lemma {:induction false} OffsetShift(layout: seq<Member>, k: nat)
    requires 1 <= k <= |layout|
    ensures Offset(layout, k) == layout[0].size + Offset(layout[1..], k - 1)
  {
    if k > 1 {
      OffsetShift(layout, k - 1);
      assert layout[1..][k - 2] == layout[k - 1];
    }
  }

  /** `get_telem` reads every member of `telemetry_t` after the leading
      reserved byte, up to the last packet counter, at its packed offset
      with its size and signedness; the record is the 78 bytes the firmware
      sends. */
  lemma TelemOffsetsMatch()
    ensures |HostTelemFields| + 1 < |TelemetryT|
    ensures forall j :: 0 <= j < |HostTelemFields| ==> HostTelemFields[j] == FieldAt(TelemetryT, j + 1)
    ensures Offset(TelemetryT, |TelemetryT|) == AppCommands.TelemetrySize
  {
    TelemUptime();
    TelemModes();
    TelemAdcLow();
    TelemAdcHigh();
    TelemSignal();
    TelemCounters();
    OffsetsOfCounters();
    assert Offset(TelemetryT, 26) == 66;
    assert Offset(TelemetryT, 27) == 70;
    assert Offset(TelemetryT, 28) == 74;
    assert Offset(TelemetryT, 29) == 78;
  }

  lemma OffsetsOfUptime()
    ensures Offset(TelemetryT, 1) == 1
    ensures Offset(TelemetryT, 2) == 5
    ensures Offset(TelemetryT, 3) == 9
    ensures Offset(TelemetryT, 4) == 13
    ensures Offset(TelemetryT, 5) == 14
  {
    assert Offset(TelemetryT, 1) == 1;
    assert Offset(TelemetryT, 2) == 5;
    assert Offset(TelemetryT, 3) == 9;
    assert Offset(TelemetryT, 4) == 13;
    assert Offset(TelemetryT, 5) == 14;
  }

  lemma TelemUptime()
    ensures forall j :: 0 <= j < 4 ==> HostTelemFields[j] == FieldAt(TelemetryT, j + 1)
  {
    OffsetsOfUptime();
    forall j | 0 <= j < 4
      ensures HostTelemFields[j] == FieldAt(TelemetryT, j + 1)
    {
      if j == 0 {
      } else if j == 1 {
      } else if j == 2 {
      } else {
        assert j == 3;
      }
    }
  }


  lemma OffsetsOfModes()
    ensures Offset(TelemetryT, 5) == 14
    ensures Offset(TelemetryT, 6) == 15
    ensures Offset(TelemetryT, 7) == 17
    ensures Offset(TelemetryT, 8) == 19
    ensures Offset(TelemetryT, 9) == 21
  {
    OffsetsOfUptime();
    assert Offset(TelemetryT, 6) == 15;
    assert Offset(TelemetryT, 7) == 17;
    assert Offset(TelemetryT, 8) == 19;
    assert Offset(TelemetryT, 9) == 21;
  }

  lemma TelemModes()
    ensures forall j :: 4 <= j < 8 ==> HostTelemFields[j] == FieldAt(TelemetryT, j + 1)
  {
    OffsetsOfModes();
    forall j | 4 <= j < 8
      ensures HostTelemFields[j] == FieldAt(TelemetryT, j + 1)
    {
      if j == 4 {
      } else if j == 5 {
      } else if j == 6 {
      } else {
        assert j == 7;
      }
    }
  }


  lemma OffsetsOfAdcLow()
    ensures Offset(TelemetryT, 9) == 21
    ensures Offset(TelemetryT, 10) == 23
    ensures Offset(TelemetryT, 11) == 25
    ensures Offset(TelemetryT, 12) == 27
    ensures Offset(TelemetryT, 13) == 29
  {
    OffsetsOfModes();
    assert Offset(TelemetryT, 10) == 23;
    assert Offset(TelemetryT, 11) == 25;
    assert Offset(TelemetryT, 12) == 27;
    assert Offset(TelemetryT, 13) == 29;
  }

  lemma TelemAdcLow()
    ensures forall j :: 8 <= j < 12 ==> HostTelemFields[j] == FieldAt(TelemetryT, j + 1)
  {
    OffsetsOfAdcLow();
    forall j | 8 <= j < 12
      ensures HostTelemFields[j] == FieldAt(TelemetryT, j + 1)
    {
      if j == 8 {
      } else if j == 9 {
      } else if j == 10 {
      } else {
        assert j == 11;
      }
    }
  }


  lemma OffsetsOfAdcHigh()
    ensures Offset(TelemetryT, 13) == 29
    ensures Offset(TelemetryT, 14) == 31
    ensures Offset(TelemetryT, 15) == 33
    ensures Offset(TelemetryT, 16) == 35
    ensures Offset(TelemetryT, 17) == 36
  {
    OffsetsOfAdcLow();
    assert Offset(TelemetryT, 14) == 31;
    assert Offset(TelemetryT, 15) == 33;
    assert Offset(TelemetryT, 16) == 35;
    assert Offset(TelemetryT, 17) == 36;
  }

  lemma TelemAdcHigh()
    ensures forall j :: 12 <= j < 16 ==> HostTelemFields[j] == FieldAt(TelemetryT, j + 1)
  {
    OffsetsOfAdcHigh();
    forall j | 12 <= j < 16
      ensures HostTelemFields[j] == FieldAt(TelemetryT, j + 1)
    {
      if j == 12 {
      } else if j == 13 {
      } else if j == 14 {
      } else {
        assert j == 15;
      }
    }
  }


  lemma OffsetsOfSignal()
    ensures Offset(TelemetryT, 17) == 36
    ensures Offset(TelemetryT, 18) == 37
    ensures Offset(TelemetryT, 19) == 38
    ensures Offset(TelemetryT, 20) == 42
    ensures Offset(TelemetryT, 21) == 46
  {
    OffsetsOfAdcHigh();
    assert Offset(TelemetryT, 18) == 37;
    assert Offset(TelemetryT, 19) == 38;
    assert Offset(TelemetryT, 20) == 42;
    assert Offset(TelemetryT, 21) == 46;
  }

  lemma TelemSignal()
    ensures forall j :: 16 <= j < 20 ==> HostTelemFields[j] == FieldAt(TelemetryT, j + 1)
  {
    OffsetsOfSignal();
    forall j | 16 <= j < 20
      ensures HostTelemFields[j] == FieldAt(TelemetryT, j + 1)
    {
      if j == 16 {
      } else if j == 17 {
      } else if j == 18 {
      } else {
        assert j == 19;
      }
    }
  }


  lemma OffsetsOfCounters()
    ensures Offset(TelemetryT, 21) == 46
    ensures Offset(TelemetryT, 22) == 50
    ensures Offset(TelemetryT, 23) == 54
    ensures Offset(TelemetryT, 24) == 58
    ensures Offset(TelemetryT, 25) == 62
  {
    OffsetsOfSignal();
    assert Offset(TelemetryT, 22) == 50;
    assert Offset(TelemetryT, 23) == 54;
    assert Offset(TelemetryT, 24) == 58;
    assert Offset(TelemetryT, 25) == 62;
  }

  lemma TelemCounters()
    ensures forall j :: 20 <= j < 24 ==> HostTelemFields[j] == FieldAt(TelemetryT, j + 1)
  {
    OffsetsOfCounters();
    forall j | 20 <= j < 24
      ensures HostTelemFields[j] == FieldAt(TelemetryT, j + 1)
    {
      if j == 20 {
      } else if j == 21 {
      } else if j == 22 {
      } else {
        assert j == 23;
      }
    }
  }


  /** The record a firmware with member values `vals` sends. */
  function EncodeLayout(layout: seq<Member>, vals: seq<int>): seq<byte>
    requires |vals| == |layout|
  {
    if layout == [] then [] else Translator.PackLE(vals[0], layout[0].size) + EncodeLayout(layout[1..], vals[1..])
  }

  /** Each member of an encoded record sits at its offset. */
  lemma {:induction false} EncodedAt(layout: seq<Member>, vals: seq<int>, k: nat)
    requires |vals| == |layout| && k < |layout|
    ensures Offset(layout, k) + layout[k].size <= |EncodeLayout(layout, vals)|
    ensures EncodeLayout(layout, vals)[Offset(layout, k)..Offset(layout, k) + layout[k].size]
              == Translator.PackLE(vals[k], layout[k].size)
  {
    var e := EncodeLayout(layout, vals);
    var head := Translator.PackLE(vals[0], layout[0].size);
    var tail := EncodeLayout(layout[1..], vals[1..]);
    assert e == head + tail;
    if k == 0 {
      assert e[..layout[0].size] == head;
    } else {
      EncodedAt(layout[1..], vals[1..], k - 1);
      OffsetShift(layout, k);
      assert layout[1..][k - 1] == layout[k] && vals[1..][k - 1] == vals[k];
      var o := Offset(layout, k);
      assert e[o..o + layout[k].size] == tail[o - |head|..o - |head| + layout[k].size];
    }
  }

  /** One `unpack_cint` of `get_telem`: the slice at the field's offset. */
  function ReadField(data: seq<byte>, f: FieldSpec): Result<int, HostError>
  {
    UnpackCInt(PySlice(data, f.offset, f.offset + f.size), f.size, f.signed)
  }

  /** Decode the listed fields of `data`, the first failure raising. */
  function DecodeFields(data: seq<byte>, fields: seq<FieldSpec>): (r: Result<seq<int>, HostError>)
    ensures r.Ok? ==> |r.value| == |fields|
  {
    if fields == [] then Ok([])
    else
      match ReadField(data, fields[0])
      case Raise(e) => Raise(e)
      case Ok(v) =>
        match DecodeFields(data, fields[1..])
        case Raise(e) => Raise(e)
        case Ok(vs) => Ok([v] + vs)
  }

  /** A member value fits its C type. */
  predicate Fits(m: Member, v: int)
  {
    CKind(m.size, m.signed).Some? &&
    Translator.TypeMin(CKind(m.size, m.signed).value) <= v <= Translator.TypeMax(CKind(m.size, m.signed).value)
  }

  /** The field at member `k` of an encoded record reads back its value. */
  lemma FieldDecodes(data: seq<byte>, layout: seq<Member>, vals: seq<int>, k: nat)
    requires |vals| == |layout| && k < |layout|
    requires Fits(layout[k], vals[k])
    requires EncodeLayout(layout, vals) <= data
    ensures ReadField(data, FieldAt(layout, k)) == Ok(vals[k])
  {
    var f := FieldAt(layout, k);
    EncodedAt(layout, vals, k);
    var e := EncodeLayout(layout, vals);
    assert PySlice(data, f.offset, f.offset + f.size) == e[f.offset..f.offset + f.size];
    CIntRoundTrip(vals[k], f.size, f.signed);
  }

  lemma DecodeFieldsCons(data: seq<byte>, f: FieldSpec, fs: seq<FieldSpec>, v: int, vs: seq<int>)
    requires ReadField(data, f) == Ok(v) && DecodeFields(data, fs) == Ok(vs)
    ensures DecodeFields(data, [f] + fs) == Ok([v] + vs)
  {
    assert ([f] + fs)[1..] == fs;
  }

  /** Fields that each read back a value decode to those values. */
  lemma {:induction false} DecodeFieldsOk(data: seq<byte>, fields: seq<FieldSpec>, vs: seq<int>)
    requires |vs| == |fields|
    requires forall j :: 0 <= j < |fields| ==> ReadField(data, fields[j]) == Ok(vs[j])
    ensures DecodeFields(data, fields) == Ok(vs)
  {
    if fields != [] {
      DecodeFieldsOk(data, fields[1..], vs[1..]);
      DecodeFieldsCons(data, fields[0], fields[1..], vs[0], vs[1..]);
      assert [fields[0]] + fields[1..] == fields;
      assert [vs[0]] + vs[1..] == vs;
    }
  }

  /** Decoding the host's fields from a record encoded by the firmware's
      layout gives back the values of members 1 to 24. */
  lemma TelemRoundTrip(vals: seq<int>, extra: seq<byte>)
    requires |vals| == |TelemetryT|
    requires forall k :: 0 <= k < |vals| ==> Fits(TelemetryT[k], vals[k])
    ensures DecodeFields(EncodeLayout(TelemetryT, vals) + extra, HostTelemFields) == Ok(vals[1..25])
  {
    TelemOffsetsMatch();
    var data := EncodeLayout(TelemetryT, vals) + extra;
    var out := vals[1..25];
    assert EncodeLayout(TelemetryT, vals) <= data;
    forall j | 0 <= j < |HostTelemFields|
      ensures ReadField(data, HostTelemFields[j]) == Ok(out[j])
    {
      FieldDecodes(data, TelemetryT, vals, j + 1);
    }
    DecodeFieldsOk(data, HostTelemFields, out);
  }

  /** `get_telem` on the reply it waited for: a reply must have come and be
      a telemetry message. */
  function DecodeTelemReply(resp: Option<Handler.Packet>): (r: Result<seq<int>, HostError>)
    ensures resp.None? || resp.value.command != Translator.Telem ==> r == Raise(AssertionError)
    ensures r.Ok? ==> |r.value| == |HostTelemFields|
  {
    if resp.None? || resp.value.command != Translator.Telem then Raise(AssertionError)
    else DecodeFields(resp.value.data, HostTelemFields)
  }

  /** `get_time` on its reply: nothing for a NACK, else the seconds and
      nanoseconds as unsigned 32-bit words. */
  function DecodeTimeReply(resp: Option<Handler.Packet>): (r: Result<Option<(int, int)>, HostError>)
    ensures resp.None? ==> r == Raise(AssertionError)
  {
    if resp.None? then Raise(AssertionError)
    else if resp.value.command == Translator.Nack then Ok(None)
    else
      var d := resp.value.data;
      match (UnpackCInt(PySlice(d, 0, 4), 4, false), UnpackCInt(PySlice(d, 4, 8), 4, false))
      case (Ok(s), Ok(ns)) => Ok(Some((s, ns)))
      case (Raise(e), _) => Raise(e)
      case (_, Raise(e)) => Raise(e)
  }

  /** The payload `set_time` sends is read back by `get_time`'s decoding. */
  lemma TimeRoundTrip(s: int, ns: int, p: Handler.Packet)
    requires PackCInt(s, 4, false).Ok? && PackCInt(ns, 4, false).Ok?
    requires p.command != Translator.Nack
    requires p.data == SetTimePayload(s, ns).value
    ensures DecodeTimeReply(Some(p)) == Ok(Some((s, ns)))
  {
    var a, b := PackCInt(s, 4, false).value, PackCInt(ns, 4, false).value;
    assert p.data[0..4] == a && p.data[4..8] == b;
    CIntRoundTrip(s, 4, false);
    CIntRoundTrip(ns, 4, false);
  }

  function SetTimePayload(s: int, ns: int): (r: Result<seq<byte>, HostError>)
    ensures r.Ok? <==> 0 <= s < 0x1_0000_0000 && 0 <= ns < 0x1_0000_0000
    ensures r.Ok? ==> r.value == LE32(s) + LE32(ns)
  {
    PackU32IsLE32Guarded(s);
    PackU32IsLE32Guarded(ns);
    match (PackCInt(s, 4, false), PackCInt(ns, 4, false))
    case (Ok(a), Ok(b)) => Ok(a + b)
    case (Raise(e), _) => Raise(e)
    case (_, Raise(e)) => Raise(e)
  }

  lemma PackU32IsLE32Guarded(v: int)
    ensures 0 <= v < 0x1_0000_0000 ==> PackCInt(v, 4, false) == Ok(LE32(v))
  {
    if 0 <= v < 0x1_0000_0000 {
      PackU32IsLE32(v);
    }
  }

  // ---------------------------------------------------------------------
  // Radio parameters

  /** The register fields `set_rf_params` computes (the floating-point
      arithmetic that produces them is not part of this model). */
  datatype RfFields = RfFields(freq: int, chanBwE: int, chanBwM: int, drateE: int, drateM: int,
                               deviatnE: int, deviatnM: int, power: int)

  /** The payload `set_rf_params` sends: its range assertions, the 32-bit
      frequency word, FSCTRL0 = 0 and FSCTRL1 = 6, then the packed
      bandwidth, data rate, deviation and power bytes. The bit fields are
      disjoint under the asserted bounds, so each `|` is a sum. */
  function RfParamsPayload(f: RfFields): (r: Result<seq<byte>, HostError>)
    ensures r.Ok? ==> |r.value| == Board.RfParamsSize
  {
    if !(0 <= f.chanBwE < 4) || !(0 <= f.chanBwM < 4) || !(0 <= f.drateE < 16) || !(0 <= f.drateM < 256)
       || !(0 <= f.deviatnE < 7) || !(0 <= f.deviatnM < 7)
    then Raise(AssertionError)
    else match PackCInt(f.freq, 4, false)
      case Raise(e) => Raise(e)
      case Ok(w) =>
        Ok(w + [0, 6, f.chanBwM + 4 * f.chanBwE, f.drateE, f.drateM, f.deviatnM + 16 * f.deviatnE, f.power % 0x100])
  }

  /** The board unpacks exactly the fields the driver packed (the top byte
      of the frequency word is not used). */
  lemma RfParamsReachBoard(f: RfFields)
    requires RfParamsPayload(f).Ok?
    ensures Board.Unpack(RfParamsPayload(f).value) ==
              Board.RfParams(0, 6, f.freq % 0x100, f.freq / 0x100 % 0x100, f.freq / 0x1_0000 % 0x100,
                             f.chanBwE, f.chanBwM, f.drateE, f.drateM, f.deviatnE, f.deviatnM, f.power % 0x100)
  {
    PackU32IsLE32(f.freq);
    var p := RfParamsPayload(f).value;
    var chanBw, deviatn := f.chanBwM + 4 * f.chanBwE, f.deviatnM + 16 * f.deviatnE;
    assert p == LE32(f.freq) + [0, 6, chanBw, f.drateE, f.drateM, deviatn, f.power % 0x100];
    assert GetLE32(p, 0) == GetLE32(LE32(f.freq), 0);
    LE32RoundTrip(f.freq);
    FieldPairRecovered(f.chanBwE, f.chanBwM);
    NibblePairRecovered(f.deviatnE, f.deviatnM);
  }

  lemma FieldPairRecovered(e: int, m: int)
    requires 0 <= e < 4 && 0 <= m < 4
    ensures (m + 4 * e) / 4 % 4 == e && (m + 4 * e) % 4 == m
  {
  }

  lemma NibblePairRecovered(e: int, m: int)
    requires 0 <= e < 8 && 0 <= m < 8
    ensures (m + 16 * e) / 16 % 8 == e && (m + 16 * e) % 8 == m
  {
  }

  // ---------------------------------------------------------------------
  // The driver object

  /** `randint(0, 65535)`: the sequence numbers `_send` can pack. */
  predicate InitialSeqnum(s: int)
  {
    0 <= s < 0x10000
  }

  /** `randint(0, 65536)` as written: both ends are included. */
  predicate InitialSeqnumAsWritten(s: int)
  {
    0 <= s <= 0x10000
  }

  /** The draw 65536 is possible as written, and then the first `_send`
      raises `struct.error` instead of writing a frame. */
  lemma InitialSeqnumOverflows(hwid: u16, cmd: byte, msg: seq<byte>)
    requires 6 + |msg| < 0x100
    ensures InitialSeqnumAsWritten(0x10000)
    ensures SendFrame(hwid, 0x10000, cmd, msg) == Raise(StructError)
  {
  }

  /** Every draw of the corrected range packs, and stepping it modulo
      65536 keeps it packable. */
  lemma InitialSeqnumPacks(s: int, hwid: u16, cmd: byte, msg: seq<byte>)
    requires InitialSeqnum(s) && 6 + |msg| < 0x100
    ensures SendFrame(hwid, s, cmd, msg).Ok?
    ensures InitialSeqnum((s + 1) % 0x10000)
  {
  }

  /** The driver's changing state: the next sequence number, its packet
      list and the frames written to the serial port so far. */
  datatype Link = Link(seqnum: int, packets: seq<Handler.Packet>, written: seq<seq<byte>>)

  /** `_send` on a state: write the frame, return the sequence number it
      carried and advance the counter modulo 65536; nothing changes when
      building the frame raises. */
  function SendSpec(l: Link, dest: int, cmd: int, msg: seq<byte>): (r: (Link, Result<int, HostError>))
    ensures r.1.Raise? <==> SendFrame(dest, l.seqnum, cmd, msg).Raise?
    ensures r.1.Raise? ==> r.0 == l
    ensures r.1.Ok? ==> r.1.value == l.seqnum && r.0.packets == l.packets && 0 <= r.0.seqnum < 0x10000 &&
                        r.0.written == l.written + [SendFrame(dest, l.seqnum, cmd, msg).value]
  {
    match SendFrame(dest, l.seqnum, cmd, msg)
    case Raise(e) => (l, Raise(e))
    case Ok(f) => (Link((l.seqnum + 1) % 0x10000, l.packets, l.written + [f]), Ok(l.seqnum))
  }

  /** `_send` followed by `get_packet_timeout(seqnum=seq)`, the reply being
      chosen among the packets that have arrived meanwhile. */
  function RequestSpec(l: Link, dest: int, cmd: int, msg: seq<byte>, arrived: seq<Handler.Packet>): (r: (Link, Result<Option<Handler.Packet>, HostError>))
    ensures r.1.Raise? <==> SendFrame(dest, l.seqnum, cmd, msg).Raise?
    ensures r.1.Raise? ==> r.0 == l
    ensures r.1.Ok? ==>
              && r.0.written == l.written + [SendFrame(dest, l.seqnum, cmd, msg).value]
              && r.0.seqnum == (l.seqnum + 1) % 0x10000
              && (r.1.value.None? ==> r.0.packets == l.packets + arrived)
              && (r.1.value.Some? ==> multiset(l.packets + arrived) == multiset(r.0.packets) + multiset{r.1.value.value})
  {
    var (l1, s) := SendSpec(l, dest, cmd, msg);
    if s.Raise? then (l1, Raise(s.error))
    else
      var (p, rest) := SelectPacket(l1.packets + arrived, None, Some(s.value));
      (l1.(packets := rest), Ok(p))
  }

  /** A request answered by a packet got the packet carrying its own
      sequence number, unless that number is 0; and when none has arrived
      it gets nothing and leaves the packets queued. */
  lemma RequestGetsOwnReply(l: Link, dest: int, cmd: int, msg: seq<byte>, arrived: seq<Handler.Packet>)
    requires SendFrame(dest, l.seqnum, cmd, msg).Ok? && l.seqnum != 0
    ensures var (l1, q) := RequestSpec(l, dest, cmd, msg, arrived);
            && q.Ok?
            && (q.value.Some? <==> exists j :: 0 <= j < |l.packets + arrived| && (l.packets + arrived)[j].seqnum == l.seqnum)
            && (q.value.Some? ==> q.value.value.seqnum == l.seqnum &&
                                  multiset(l.packets + arrived) == multiset(l1.packets) + multiset{q.value.value})
            && (q.value.None? ==> l1.packets == l.packets + arrived)
  {
    SelectBySeqnum(l.packets + arrived, None, l.seqnum);
  }

  /** A request sent with sequence number 0 takes the oldest packet,
      whatever it answers. */
  lemma RequestWithSeqnumZero(l: Link, dest: int, cmd: int, msg: seq<byte>, arrived: seq<Handler.Packet>)
    requires SendFrame(dest, l.seqnum, cmd, msg).Ok? && l.seqnum == 0
    requires l.packets + arrived != []
    ensures RequestSpec(l, dest, cmd, msg, arrived).1 == Ok(Some((l.packets + arrived)[0]))
  {
    SeqnumZeroIgnored(l.packets + arrived, None);
  }

  /** The assertion `flash_program_page`, `set_time` and `set_rf_params`
      make on a reply: it came, and it is the expected opcode. */
  function ExpectCommand(resp: Option<Handler.Packet>, op: int): (r: Option<HostError>)
    ensures r.None? <==> resp.Some? && resp.value.command == op
    ensures r.Some? ==> r.value == AssertionError
  {
    if resp.None? || resp.value.command != op then Some(AssertionError) else None
  }

  function ErrorOf<T>(r: Result<T, HostError>): (e: Option<HostError>)
    ensures e.None? <==> r.Ok?
  {
    if r.Raise? then Some(r.error) else None
  }

  class OpenLst {
    const hwid: int
    var seqnum: int
    /** `self.packets`: replies taken off the handler's queue and not yet
        consumed. */
    var packets: seq<Handler.Packet>
    /** The frames handed to the serial writer, oldest first. */
    var written: seq<seq<byte>>

    function State(): Link
      reads this
    {
      Link(seqnum, packets, written)
    }

    /** The sequence number starts at `draw`, the random choice. */
    constructor (hwid: int, draw: int)
      requires InitialSeqnum(draw)
      ensures this.hwid == hwid && State() == Link(draw, [], [])
    {
      this.hwid := hwid;
      seqnum := draw;
      packets := [];
      written := [];
    }

    /** `_send`. */
    method Send(dest: int, cmd: int, msg: seq<byte>) returns (r: Result<int, HostError>)
      modifies this
      ensures (State(), r) == SendSpec(old(State()), dest, cmd, msg)
    {
      var f := SendFrame(dest, seqnum, cmd, msg);
      if f.Raise? {
        return Raise(f.error);
      }
      written := written + [f.value];
      r := Ok(seqnum);
      seqnum := (seqnum + 1) % 0x10000;
    }

    /** `_send` then `get_packet_timeout(seqnum=seq)`. */
    method Request(cmd: int, msg: seq<byte>, arrived: seq<Handler.Packet>) returns (r: Result<Option<Handler.Packet>, HostError>)
      modifies this
      ensures (State(), r) == RequestSpec(old(State()), hwid, cmd, msg, arrived)
    {
      var s := Send(hwid, cmd, msg);
      if s.Raise? {
        return Raise(s.error);
      }
      var p := GetPacket(arrived, None, Some(s.value));
      r := Ok(p);
    }

    /** `receive`: the next ASCII message. */
    method Receive(arrived: seq<Handler.Packet>) returns (p: Option<Handler.Packet>)
      modifies this
      ensures (p, packets) == SelectPacket(old(packets) + arrived, Some(Translator.Ascii), None)
      ensures seqnum == old(seqnum) && written == old(written)
    {
      p := GetPacket(arrived, Some(Translator.Ascii), None);
    }

    /** `transmit`: an ASCII message of at most 245 bytes, by default to
        hwid 0. */
    method Transmit(msg: seq<byte>, dest: int := 0) returns (raised: Option<HostError>)
      modifies this
      ensures |msg| > MaxDataLen ==> raised == Some(AssertionError) && State() == old(State())
      ensures |msg| <= MaxDataLen ==>
                var (l, s) := SendSpec(old(State()), dest, Translator.Ascii, msg);
                State() == l && raised == ErrorOf(s)
    {
      if |msg| > MaxDataLen {
        return Some(AssertionError);
      }
      var s := Send(dest, Translator.Ascii, msg);
      raised := ErrorOf(s);
    }

    /** `reboot`. */
    method Reboot() returns (raised: Option<HostError>)
      modifies this
      ensures var (l, s) := SendSpec(old(State()), hwid, Translator.Reboot, []);
              State() == l && raised == ErrorOf(s)
    {
      var s := Send(hwid, Translator.Reboot, []);
      raised := ErrorOf(s);
    }

    /** `bootloader_ping`: the reply, if one came. */
    method BootloaderPing(arrived: seq<Handler.Packet>) returns (r: Result<Option<Handler.Packet>, HostError>)
      modifies this
      ensures (State(), r) == RequestSpec(old(State()), hwid, Translator.BootloaderPing, [], arrived)
    {
      r := Request(Translator.BootloaderPing, [], arrived);
    }

    /** `flash_erase`: the reply, if one came. */
    method FlashErase(arrived: seq<Handler.Packet>) returns (r: Result<Option<Handler.Packet>, HostError>)
      modifies this
      ensures (State(), r) == RequestSpec(old(State()), hwid, Translator.BootloaderErase, [], arrived)
    {
      r := Request(Translator.BootloaderErase, [], arrived);
    }

    /** `flash_program_page`: an empty or 128-byte page after its page
        number; with `checkResp` the reply must be the bootloader's ACK. */
    method FlashProgramPage(data: seq<byte>, addr: int, checkResp: bool, arrived: seq<Handler.Packet>)
      returns (r: Result<Option<Handler.Packet>, HostError>)
      modifies this
      ensures !(|data| == 0 || |data| == 128) ==> r == Raise(AssertionError) && State() == old(State())
      ensures (|data| == 0 || |data| == 128) && !(0 <= addr < 0x100) ==> r == Raise(ValueError) && State() == old(State())
      ensures (|data| == 0 || |data| == 128) && 0 <= addr < 0x100 ==>
                var (l, q) := RequestSpec(old(State()), hwid, Translator.BootloaderWritePage, [addr as byte] + data, arrived);
                State() == l &&
                r == if q.Ok? && checkResp && ExpectCommand(q.value, Translator.BootloaderAck).Some? then Raise(AssertionError) else q
    {
      if !(|data| == 128 || |data| == 0) {
        return Raise(AssertionError);
      }
      if !(0 <= addr < 0x100) {
        return Raise(ValueError);
      }
      r := Request(Translator.BootloaderWritePage, [addr as byte] + data, arrived);
      if r.Ok? && checkResp && ExpectCommand(r.value, Translator.BootloaderAck).Some? {
        r := Raise(AssertionError);
      }
    }

    /** `get_time`: nothing on a NACK, else the radio's seconds and
        nanoseconds. */
    method GetTime(arrived: seq<Handler.Packet>) returns (r: Result<Option<(int, int)>, HostError>)
      modifies this
      ensures var (l, q) := RequestSpec(old(State()), hwid, Translator.GetTime, [], arrived);
              State() == l && r == if q.Raise? then Raise(q.error) else DecodeTimeReply(q.value)
    {
      var q := Request(Translator.GetTime, [], arrived);
      if q.Raise? {
        return Raise(q.error);
      }
      r := DecodeTimeReply(q.value);
    }

    /** `set_time`: the two words, then an ACK must come back. */
    method SetTime(s: int, ns: int, arrived: seq<Handler.Packet>) returns (raised: Option<HostError>)
      modifies this
      ensures SetTimePayload(s, ns).Raise? ==> raised == Some(SetTimePayload(s, ns).error) && State() == old(State())
      ensures SetTimePayload(s, ns).Ok? ==>
                var (l, q) := RequestSpec(old(State()), hwid, Translator.SetTime, LE32(s) + LE32(ns), arrived);
                State() == l && raised == if q.Raise? then Some(q.error) else ExpectCommand(q.value, Translator.Ack)
    {
      var payload := SetTimePayload(s, ns);
      if payload.Raise? {
        return Some(payload.error);
      }
      var q := Request(Translator.SetTime, payload.value, arrived);
      raised := if q.Raise? then Some(q.error) else ExpectCommand(q.value, Translator.Ack);
    }

    /** `get_telem`: the telemetry fields of the reply. */
    method GetTelem(arrived: seq<Handler.Packet>) returns (r: Result<seq<int>, HostError>)
      modifies this
      ensures var (l, q) := RequestSpec(old(State()), hwid, Translator.GetTelem, [], arrived);
              State() == l && r == if q.Raise? then Raise(q.error) else DecodeTelemReply(q.value)
    {
      var q := Request(Translator.GetTelem, [], arrived);
      if q.Raise? {
        return Raise(q.error);
      }
      r := DecodeTelemReply(q.value);
    }

    /** `set_rf_params` from its register fields: then an ACK must come
        back. */
    method SetRfParams(f: RfFields, arrived: seq<Handler.Packet>) returns (raised: Option<HostError>)
      modifies this
      ensures RfParamsPayload(f).Raise? ==> raised == Some(RfParamsPayload(f).error) && State() == old(State())
      ensures RfParamsPayload(f).Ok? ==>
                var (l, q) := RequestSpec(old(State()), hwid, Board.CustomMsgRfParams, RfParamsPayload(f).value, arrived);
                State() == l && raised == if q.Raise? then Some(q.error) else ExpectCommand(q.value, Translator.Ack)
    {
      var payload := RfParamsPayload(f);
      if payload.Raise? {
        return Some(payload.error);
      }
      var q := Request(Board.CustomMsgRfParams, payload.value, arrived);
      raised := if q.Raise? then Some(q.error) else ExpectCommand(q.value, Translator.Ack);
    }

    /** `packets_available`: move what the handler queued since the last
        call into `packets`. */
    method PacketsAvailable(arrived: seq<Handler.Packet>) returns (n: nat)
      modifies this
      ensures packets == old(packets) + arrived && n == |packets|
      ensures written == old(written) && seqnum == old(seqnum)
    {
      packets := packets + arrived;
      n := |packets|;
    }

    /** `get_packet`, with the packets the handler queued meanwhile. */
    method GetPacket(arrived: seq<Handler.Packet>, cmd: Option<int>, seqnum': Option<int>) returns (p: Option<Handler.Packet>)
      modifies this
      ensures (p, packets) == SelectPacket(old(packets) + arrived, cmd, seqnum')
      ensures written == old(written) && seqnum == old(seqnum)
    {
      var n := PacketsAvailable(arrived);
      var ps := packets;
      if n == 0 {
        return None;
      }
      if Truthy(seqnum') {
        var i := 0;
        while i < |ps|
          invariant 0 <= i <= |ps|
          invariant forall j :: 0 <= j < i ==> ps[j].seqnum != seqnum'.value
          invariant packets == ps && written == old(written) && seqnum == old(seqnum)
        {
          if ps[i].seqnum == seqnum'.value {
            FirstIs(ps, seqnum'.value, i);
            p := Some(ps[i]);
            packets := Pop(ps, i);
            return;
          }
          i := i + 1;
        }
        return None;
      }
      if Truthy(cmd) {
        var i := 0;
        while i < |ps|
          invariant 0 <= i <= |ps|
          invariant forall j :: 0 <= j < i ==> ps[j].command != cmd.value
          invariant packets == ps && written == old(written) && seqnum == old(seqnum)
        {
          if ps[i].command == cmd.value {
            FirstCommandIs(ps, cmd.value, i);
            p := Some(ps[i]);
            packets := Pop(ps, i);
            return;
          }
          i := i + 1;
        }
        return None;
      }
      p := Some(ps[0]);
      packets := Pop(ps, 0);
    }

    /** `clean_packets`: drop the packets with the given opcode, or all. */
    method CleanPackets(arrived: seq<Handler.Packet>, cmd: Option<int>)
      modifies this
      ensures Truthy(cmd) ==> packets == Without(old(packets) + arrived, cmd.value)
      ensures !Truthy(cmd) ==> packets == []
      ensures written == old(written) && seqnum == old(seqnum)
    {
      var n := PacketsAvailable(arrived);
      var ps := packets;
      if n == 0 {
        return;
      }
      if Truthy(cmd) {
        var kept: seq<Handler.Packet> := [];
        var i := 0;
        while i < |ps|
          invariant 0 <= i <= |ps|
          invariant kept == Without(ps[..i], cmd.value)
          invariant packets == ps && written == old(written) && seqnum == old(seqnum)
        {
          assert ps[..i + 1] == ps[..i] + [ps[i]];
          WithoutAppend(ps[..i], ps[i], cmd.value);
          if ps[i].command != cmd.value {
            kept := kept + [ps[i]];
          }
          i := i + 1;
        }
        assert ps[..i] == ps;
        packets := kept;
      } else {
        packets := [];
      }
    }
  }

  lemma FirstIs(ps: seq<Handler.Packet>, s: int, i: nat)
    requires i < |ps| && ps[i].seqnum == s && forall j :: 0 <= j < i ==> ps[j].seqnum != s
    ensures FirstWithSeqnum(ps, s) == Some(i)
  {
  }

  lemma FirstCommandIs(ps: seq<Handler.Packet>, c: int, i: nat)
    requires i < |ps| && ps[i].command == c && forall j :: 0 <= j < i ==> ps[j].command != c
    ensures FirstWithCommand(ps, c) == Some(i)
  {
  }

  /** The packets of `ps` whose opcode is not `c`, in order. */
  function Without(ps: seq<Handler.Packet>, c: int): (r: seq<Handler.Packet>)
    ensures forall k :: 0 <= k < |r| ==> r[k].command != c && r[k] in ps
    ensures forall k :: 0 <= k < |ps| && ps[k].command != c ==> ps[k] in r
  {
    if ps == [] then []
    else
      var rest := Without(ps[1..], c);
      assert forall k :: 1 <= k < |ps| ==> ps[k] == ps[1..][k - 1];
      if ps[0].command == c then rest else [ps[0]] + rest
  }

  lemma {:induction false} WithoutAppend(ps: seq<Handler.Packet>, p: Handler.Packet, c: int)
    ensures Without(ps + [p], c) == Without(ps, c) + (if p.command == c then [] else [p])
  {
    if ps == [] {
      assert [] + [p] == [p];
      assert [p][1..] == [];
    } else {
      assert (ps + [p])[1..] == ps[1..] + [p];
      WithoutAppend(ps[1..], p, c);
    }
  }
}

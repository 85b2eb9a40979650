// The radio packet codec in variable-length packet mode. On the air a
// command message of `len` bytes travels as
//   [0]            length byte, len + 3 (it does not count itself)
//   [1]            flags; bit 6 selects the UART a reply is meant for
//   [2..len-1]     bytes 2.. of the command message, at the same offsets
//   [len, len+1]   the message's device id (its bytes 0 and 1)
//   [len+2, len+3] checksum, little-endian, over bytes 0..len+1
// The checksum primitive is a hardware unit; it is a parameter here, and
// every property below holds for any checksum function.
module Radio {
  import opened Bytes
  import opened Command
  import StringX

  const RfBufferSize: nat := 255
  /** Flags byte, length byte and 4-byte footer, less the 2 device-id bytes
      already counted in the command header: the shortest acceptable length
      byte is 1 + 6 + 4 - 2. */
  const MinPacketLength: nat := 9
  /** Footer size less the length byte: what the length byte adds to `len`. */
  const RfExtras: nat := 3
  const FlagsUartSel: byte := 0x40

  type Checksum = seq<byte> -> u16

  function Flags(uartSel: bool): byte
  {
    if uartSel then FlagsUartSel else 0
  }

  /** Whether bit 6 (the UART select bit) of a flags byte is set. */
  predicate UartSelOf(flags: byte)
  {
    (flags / 0x40) % 2 == 1
  }

  function Zeros(n: nat): (z: seq<byte>)
    ensures |z| == n && forall k :: 0 <= k < n ==> z[k] == 0
  {
    seq(n, _ => 0)
  }

  datatype RxOutcome =
    | RejectedOther
    | RejectedChecksum
    | Accepted(msg: seq<byte>, uartSel: bool)

  /** What `radio_get_message` makes of a completed receive buffer. A length
      byte that is too short, or too long for the footer to lie inside the
      255-byte buffer, is rejected as "other"; otherwise the buffer is
      unpacked as `Unpack` says. */
  function DecodePacket(crc: Checksum, data: seq<byte>): (o: RxOutcome)
    requires |data| == RfBufferSize
    ensures o.Accepted? ==> HeaderSize <= |o.msg| <= MaxPayload
  {
    var l := data[0];
    if l < MinPacketLength || l >= RfBufferSize then RejectedOther
    else Unpack(crc, data, l)
  }

  /** The receive path past its length check, reading memory `mem` from the
      length byte on with length byte `l`: a checksum mismatch is rejected as
      "checksum"; otherwise the message is the packet's bytes 2.. with the
      footer device id put back in front. The checksum lies at `l - 1` and
      `l`, the footer device id at `l - 3` and `l - 2`. */
  function Unpack(crc: Checksum, mem: seq<byte>, l: nat): (o: RxOutcome)
    requires MinPacketLength <= l && l + 1 <= |mem|
    ensures !o.RejectedOther?
    ensures o.Accepted? ==> |o.msg| == l - RfExtras && o.msg[..2] == mem[l - 3..l - 1]
  {
    if crc(mem[..l - 1]) != GetLE16(mem, l - 1) then RejectedChecksum
    else
      var n := l - RfExtras;
      Accepted(mem[n..n + 2] + mem[2..n], UartSelOf(mem[1]))
  }

  /** The transmit buffer `radio_send_packet` prepares before the checksum,
      following its writes in order: cleared, the command copied in, the
      flags byte, the device id copied to the footer, then the length byte. */
  function TxBody(cmd: seq<byte>, len: nat, uartSel: bool): (d: seq<byte>)
    requires 2 <= |cmd| && len <= |cmd| && len <= MaxPayload
    ensures |d| == RfBufferSize
  {
    TxBodyIn(Zeros(RfBufferSize), cmd, len, uartSel)
  }

  /** The writes of `TxBody` applied to memory `mem` starting at the
      transmit buffer (the cleared buffer, and whatever lies after it). */
  function TxBodyIn(mem: seq<byte>, cmd: seq<byte>, len: nat, uartSel: bool): (d: seq<byte>)
    requires 2 <= |cmd| && len <= |cmd| && len + 2 <= |mem|
    ensures |d| == |mem|
  {
    var d1 := Splice(mem, 0, cmd[..len]);
    var d2 := d1[1 := Flags(uartSel)];
    var d3 := d2[len := cmd[0]][len + 1 := cmd[1]];
    d3[0 := (len + RfExtras) % 0x100]
  }

  /** The complete transmit buffer: the checksum of bytes 0..len+1 is stored
      little-endian after them. */
  function EncodeBuffer(crc: Checksum, cmd: seq<byte>, len: nat, uartSel: bool): (d: seq<byte>)
    requires 2 <= |cmd| && len <= |cmd| && len <= MaxPayload
    ensures |d| == RfBufferSize
  {
    EncodeIn(crc, Zeros(RfBufferSize), cmd, len, uartSel)
  }

  /** `TxBodyIn` followed by the checksum write at `len + 2` and `len + 3`. */
  function EncodeIn(crc: Checksum, mem: seq<byte>, cmd: seq<byte>, len: nat, uartSel: bool): (d: seq<byte>)
    requires 2 <= |cmd| && len <= |cmd| && len + 4 <= |mem|
    ensures |d| == |mem|
  {
    var d4 := TxBodyIn(mem, cmd, len, uartSel);
    var c := crc(d4[..len + 2]);
    d4[len + 2 := c % 0x100][len + 3 := c / 0x100]
  }

  /** The bytes that go on the air for a message of `len` bytes: the length
      byte and the `len + 3` bytes it counts. */
  function OnAir(crc: Checksum, cmd: seq<byte>, len: nat, uartSel: bool): (p: seq<byte>)
    requires 2 <= |cmd| && len <= |cmd| && len <= MaxPayload
    ensures |p| == len + 4 && p[0] == len + RfExtras && p[0] == |p| - 1
  {
    EncodeBuffer(crc, cmd, len, uartSel)[..len + 4]
  }

  /** Before the checksum, the buffer holds the length byte, the flags, the
      message's bytes 2.., its device id, and zeros. */
  lemma TxBodyLayout(cmd: seq<byte>, len: nat, uartSel: bool)
    requires 2 <= len <= |cmd| && len <= MaxPayload
    ensures TxBody(cmd, len, uartSel)[..len + 2]
              == [len + RfExtras, Flags(uartSel)] + cmd[2..len] + cmd[..2]
    ensures forall k :: len + 2 <= k < RfBufferSize ==> TxBody(cmd, len, uartSel)[k] == 0
  {
    var tail := cmd[2..len] + cmd[..2];
    var body := [len + RfExtras, Flags(uartSel)] + tail;
    assert body == [len + RfExtras, Flags(uartSel)] + cmd[2..len] + cmd[..2];
    var d4 := TxBody(cmd, len, uartSel);
    forall k | 0 <= k < len + 2
      ensures d4[k] == body[k]
    {
      TxBodyAt(cmd, len, uartSel, k);
      if 2 <= k < len {
        assert body[k] == tail[k - 2] == cmd[2..len][k - 2];
      } else if k >= len {
        assert body[k] == tail[k - 2] == cmd[..2][k - len];
      }
    }
    assert d4[..len + 2] == body;
    forall k | len + 2 <= k < RfBufferSize
      ensures d4[k] == 0
    {
      TxBodyAt(cmd, len, uartSel, k);
    }
  }

  /** The prepared buffer as the sequence of writes that build it. */
  lemma TxBodyWrites(cmd: seq<byte>, len: nat, uartSel: bool)
    requires 2 <= |cmd| && len <= |cmd| && len <= MaxPayload
    ensures TxBody(cmd, len, uartSel)
              == Splice(Zeros(RfBufferSize), 0, cmd[..len])[1 := Flags(uartSel)][len := cmd[0]]
                   [len + 1 := cmd[1]][0 := len + RfExtras]
  {
    assert (len + RfExtras) % 0x100 == len + RfExtras;
  }

  /** Byte `k` of the prepared buffer. */
  lemma TxBodyAt(cmd: seq<byte>, len: nat, uartSel: bool, k: nat)
    requires 2 <= len <= |cmd| && len <= MaxPayload && k < RfBufferSize
    ensures TxBody(cmd, len, uartSel)[k] ==
              if k == 0 then len + RfExtras
              else if k == 1 then Flags(uartSel)
              else if k == len then cmd[0]
              else if k == len + 1 then cmd[1]
              else if k < len then cmd[k]
              else 0
  {
    SpliceIndex(Zeros(RfBufferSize), 0, cmd[..len], k);
  }

  /** For a message of at least 2 bytes, the prepared buffer has the layout
      described above, with zeros after the checksum. */
  lemma PacketLayout(crc: Checksum, cmd: seq<byte>, len: nat, uartSel: bool)
    requires 2 <= len <= |cmd| && len <= MaxPayload
    ensures var body := [len + RfExtras, Flags(uartSel)] + cmd[2..len] + cmd[..2];
            EncodeBuffer(crc, cmd, len, uartSel)
              == body + LE16(crc(body)) + Zeros(RfBufferSize - len - 4)
  {
    var body := [len + RfExtras, Flags(uartSel)] + cmd[2..len] + cmd[..2];
    TxBodyLayout(cmd, len, uartSel);
    var d4 := TxBody(cmd, len, uartSel);
    var c := crc(body);
    var d := EncodeBuffer(crc, cmd, len, uartSel);
    var lo: byte, hi: byte := c % 0x100, c / 0x100;
    assert d == d4[len + 2 := lo][len + 3 := hi];
    var e := body + LE16(c) + Zeros(RfBufferSize - len - 4);
    assert |d| == |e|;
    forall k | 0 <= k < |d|
      ensures d[k] == e[k]
    {
      if k < len + 2 {
        assert d[k] == d4[..len + 2][k] == body[k];
      } else if k < len + 4 {
        assert e[k] == LE16(c)[k - len - 2];
      }
    }
  }

  /** The packet depends only on the first `len` bytes of the command
      buffer: two buffers that agree there go on the air identically. */
  lemma OnAirDependsOnMessage(crc: Checksum, a: seq<byte>, b: seq<byte>, len: nat, uartSel: bool)
    requires 2 <= len <= |a| && len <= |b| && len <= MaxPayload
    requires a[..len] == b[..len]
    ensures OnAir(crc, a, len, uartSel) == OnAir(crc, b, len, uartSel)
  {
    PacketLayout(crc, a, len, uartSel);
    PacketLayout(crc, b, len, uartSel);
    assert a[2..len] == a[..len][2..] && b[2..len] == b[..len][2..];
    assert a[..2] == a[..len][..2] && b[..2] == b[..len][..2];
  }

  lemma FlagsRoundTrip(uartSel: bool)
    ensures UartSelOf(Flags(uartSel)) == uartSel
  {
  }

  /** A buffer whose length byte is in range and whose checksum matches is
      accepted with the message rebuilt from the packet's bytes. */
  lemma DecodeAccepts(crc: Checksum, rx: seq<byte>)
    requires |rx| == RfBufferSize
    requires MinPacketLength <= rx[0] < RfBufferSize
    requires crc(rx[..rx[0] - 1]) == GetLE16(rx, rx[0] - 1)
    ensures var n := rx[0] - RfExtras;
            DecodePacket(crc, rx) == Accepted(rx[n..n + 2] + rx[2..n], UartSelOf(rx[1]))
  {
  }

  /** Round trip: whatever the checksum function, a receiver whose buffer
      starts with the bytes sent for a message of 6 to 251 bytes (anything may
      follow them) accepts it and gets back the same message, device id
      restored to the front, and the same UART select. */
  lemma RoundTrip(crc: Checksum, cmd: seq<byte>, len: nat, uartSel: bool, rx: seq<byte>)
    requires HeaderSize <= len <= |cmd| && len <= MaxPayload
    requires |rx| == RfBufferSize
    requires rx[..len + 4] == OnAir(crc, cmd, len, uartSel)
    ensures DecodePacket(crc, rx) == Accepted(cmd[..len], uartSel)
  {
    var body := [len + RfExtras, Flags(uartSel)] + cmd[2..len] + cmd[..2];
    var c := crc(body);
    assert rx[..len + 4] == body + LE16(c) by {
      PacketLayout(crc, cmd, len, uartSel);
      assert (body + LE16(c) + Zeros(RfBufferSize - len - 4))[..len + 4] == body + LE16(c);
    }
    PrefixSplit(rx, body, c);
    BodyFields(cmd, len, uartSel, rx);
    DecodeAccepts(crc, rx);
    FlagsRoundTrip(uartSel);
    assert cmd[..2] + cmd[2..len] == cmd[..len];
  }

  /** The fields of a buffer that starts with the packet body. */
  lemma BodyFields(cmd: seq<byte>, len: nat, uartSel: bool, rx: seq<byte>)
    requires 2 <= len <= |cmd| && len <= MaxPayload && len + 2 <= |rx|
    requires rx[..len + 2] == [len + RfExtras, Flags(uartSel)] + cmd[2..len] + cmd[..2]
    ensures rx[0] == len + RfExtras && rx[1] == Flags(uartSel)
    ensures rx[2..len] == cmd[2..len] && rx[len..len + 2] == cmd[..2]
  {
    var p := rx[..len + 2];
    assert rx[2..len] == p[2..len];
    assert rx[len..len + 2] == p[len..len + 2];
  }

  lemma PrefixSplit(rx: seq<byte>, body: seq<byte>, c: u16)
    requires |body| + 2 <= |rx| && rx[..|body| + 2] == body + LE16(c)
    ensures rx[..|body|] == body && GetLE16(rx, |body|) == c
  {
    var p := rx[..|body| + 2];
    assert rx[..|body|] == p[..|body|];
    assert rx[|body|] == p[|body|] && rx[|body| + 1] == p[|body| + 1];
  }

  /** A corrupted checksum is always caught: if the footer checksum does not
      match the checksum of the bytes it covers, the packet is rejected. */
  lemma ChecksumMismatchRejected(crc: Checksum, data: seq<byte>)
    requires |data| == RfBufferSize
    requires MinPacketLength <= data[0] < RfBufferSize
    requires crc(data[..data[0] - 1]) != GetLE16(data, data[0] - 1)
    ensures DecodePacket(crc, data) == RejectedChecksum
  {
  }

  // ---------------------------------------------------------------------
  // The source's length checks as written
  //
  // Reads and writes past a 255-byte buffer reach whatever memory follows
  // it; that memory is the parameter `after`.

  /** The receive path as written: its only length check is the lower bound,
      and the buffer is unpacked from the memory the buffer starts. */
  function ReceiveAsWritten(crc: Checksum, data: seq<byte>, after: seq<byte>): RxOutcome
    requires |data| == RfBufferSize && 1 <= |after|
  {
    var l := data[0];
    if l < MinPacketLength then RejectedOther
    else Unpack(crc, data + after, l)
  }

  /** Below 255 the receive path as written and the corrected one agree,
      whatever follows the buffer. */
  lemma ReceiveAsWrittenBelow255(crc: Checksum, data: seq<byte>, after: seq<byte>)
    requires |data| == RfBufferSize && 1 <= |after| && data[0] < RfBufferSize
    ensures ReceiveAsWritten(crc, data, after) == DecodePacket(crc, data)
  {
    var l := data[0];
    if l >= MinPacketLength {
      var mem := data + after;
      assert mem[..l - 1] == data[..l - 1];
      assert GetLE16(mem, l - 1) == GetLE16(data, l - 1);
      var n := l - RfExtras;
      assert mem[n..n + 2] == data[n..n + 2] && mem[2..n] == data[2..n];
    }
  }

  /** A length byte of 255 (which the radio accepts, its maximum packet
      length being 255) passes the receive check as written: whether the
      packet is accepted then hangs on the first byte after the 255-byte
      buffer, the checksum's high byte, and an accepted message is 252 bytes,
      one more than a command holds. The corrected check refuses it. */
  lemma ReceiveLength255Overruns(crc: Checksum, data: seq<byte>, after: seq<byte>)
    requires |data| == RfBufferSize && 1 <= |after| && data[0] == 255
    ensures DecodePacket(crc, data) == RejectedOther
    ensures !ReceiveAsWritten(crc, data, after).RejectedOther?
    ensures var accepted := ReceiveAsWritten(crc, data, after).Accepted?;
            accepted <==> crc(data[..254]) == data[254] as int + 0x100 * (after[0] as int)
    ensures ReceiveAsWritten(crc, data, after).Accepted? ==>
              |ReceiveAsWritten(crc, data, after).msg| == MaxPayload + 1
  {
    var mem := data + after;
    assert mem[..254] == data[..254];
    assert mem[254] == data[254] && mem[255] == after[0];
  }

  /** The send path as written: lengths above 255 - 3 are refused (`None`);
      otherwise the buffer is cleared and the packet written into the
      memory from the buffer on. `cmd` is the memory from the command on. */
  function SendAsWritten(crc: Checksum, cmd: seq<byte>, len: nat, uartSel: bool, after: seq<byte>)
    : Option<seq<byte>>
    requires 2 <= |cmd| && len <= |cmd| && 1 <= |after|
  {
    if len > RfBufferSize - RfExtras then None
    else Some(EncodeIn(crc, Zeros(RfBufferSize) + after, cmd, len, uartSel))
  }

  /** Up to 251 bytes the send path as written and the corrected one agree:
      the transmit buffer is `EncodeBuffer` and the memory after it is kept. */
  lemma SendAsWrittenUpTo251(crc: Checksum, cmd: seq<byte>, len: nat, uartSel: bool, after: seq<byte>)
    requires 2 <= |cmd| && len <= |cmd| && 1 <= |after| && len <= MaxPayload
    ensures SendAsWritten(crc, cmd, len, uartSel, after) == Some(EncodeBuffer(crc, cmd, len, uartSel) + after)
  {
    var z := Zeros(RfBufferSize);
    var b := TxBodyIn(z, cmd, len, uartSel);
    var m := TxBodyIn(z + after, cmd, len, uartSel);
    assert m == b + after by {
      assert Splice(z + after, 0, cmd[..len]) == Splice(z, 0, cmd[..len]) + after;
    }
    assert m[..len + 2] == b[..len + 2];
    var c := crc(b[..len + 2]);
    var lo: byte, hi: byte := c % 0x100, c / 0x100;
    var e := b[len + 2 := lo][len + 3 := hi];
    forall k | 0 <= k < |m|
      ensures m[len + 2 := lo][len + 3 := hi][k] == (e + after)[k]
    {
    }
    assert m[len + 2 := lo][len + 3 := hi] == e + after;
  }

  /** A message of 252 bytes passes the send check as written: the packet's
      length byte is 255, the copy reads the command's byte 251, one past
      the 251 bytes a command holds, and the checksum's high byte overwrites
      the first byte after the 255-byte buffer. */
  lemma SendLength252Overruns(crc: Checksum, cmd: seq<byte>, uartSel: bool, after: seq<byte>)
    requires 252 <= |cmd| && 1 <= |after|
    ensures SendAsWritten(crc, cmd, 252, uartSel, after).Some?
    ensures var m := SendAsWritten(crc, cmd, 252, uartSel, after).value;
            && m[0] == 255 && m[MaxPayload] == cmd[MaxPayload]
            && m[RfBufferSize] == crc(m[..254]) / 0x100
  {
    var z := Zeros(RfBufferSize) + after;
    var d4 := TxBodyIn(z, cmd, 252, uartSel);
    SpliceIndex(z, 0, cmd[..252], MaxPayload);
    var m := EncodeIn(crc, z, cmd, 252, uartSel);
    assert m[..254] == d4[..254];
  }

  // ---------------------------------------------------------------------
  // The driver state

  datatype Counters = Counters(sent: u32, good: u32, rejectedChecksum: u32,
                               rejectedReserved: u32, rejectedOther: u32)

  datatype RadioEvent =
    | Listened
    | Transmitted(packet: seq<byte>, precise: bool)

  class RadioLink {
    const crc: Checksum
    const rxBuf: array<byte>
    const txBuf: array<byte>
    /** Set by the radio interrupt when a packet has been received. */
    var rxComplete: bool
    var lastRxTicks: u16
    var counters: Counters
    /** The receiver re-arms and packet transmissions, in order. */
    var events: seq<RadioEvent>

    ghost predicate Valid()
    {
      rxBuf.Length == RfBufferSize && txBuf.Length == RfBufferSize && rxBuf != txBuf
    }

    /** `radio_init`: the counters and the receive-tick count start at 0. */
    constructor (crc: Checksum)
      ensures Valid() && fresh(rxBuf) && fresh(txBuf)
      ensures this.crc == crc && !rxComplete && events == []
      ensures lastRxTicks == 0 && counters == Counters(0, 0, 0, 0, 0)
    {
      this.crc := crc;
      rxBuf := new byte[RfBufferSize](_ => 0);
      txBuf := new byte[RfBufferSize](_ => 0);
      rxComplete := false;
      lastRxTicks := 0;
      counters := Counters(0, 0, 0, 0, 0);
      events := [];
    }

    /** The radio interrupt and its DMA transfer, as one step: the received
        bytes land at the start of the receive buffer and the packet is
        flagged complete. */
    method PacketArrives(p: seq<byte>)
      requires Valid() && |p| <= RfBufferSize
      modifies this`rxComplete, rxBuf
      ensures rxComplete && rxBuf[..|p|] == p && rxBuf[|p|..] == old(rxBuf[|p|..])
    {
      var k := 0;
      while k < |p|
        invariant 0 <= k <= |p|
        invariant rxBuf[..k] == p[..k] && rxBuf[k..] == old(rxBuf[k..])
      {
        rxBuf[k] := p[k];
        k := k + 1;
      }
      rxComplete := true;
    }

    /** `radio_listen`: drop any received packet and re-arm the receiver. */
    method Listen()
      modifies this`rxComplete, this`events
      ensures !rxComplete && events == old(events) + [Listened]
    {
      rxComplete := false;
      events := events + [Listened];
    }

    /** `radio_get_message`: with no completed packet returns 0 and changes
        nothing; otherwise decodes the receive buffer, counts the outcome,
        releases the buffer and, on success, leaves the message in `cmd`,
        returns its length and the packet's UART select (which is otherwise
        left as `sel0`). */
    method GetMessage(cmd: array<byte>, sel0: bool) returns (len: byte, uartSel: bool)
      requires Valid() && cmd.Length >= MaxPayload && cmd != rxBuf && cmd != txBuf
      modifies this, cmd
      ensures Valid()
      ensures !old(rxComplete) ==>
        && len == 0 && uartSel == sel0 && cmd[..] == old(cmd[..])
        && !rxComplete && counters == old(counters) && events == old(events)
        && lastRxTicks == old(lastRxTicks)
      ensures old(rxComplete) ==> !rxComplete && match DecodePacket(crc, rxBuf[..])
        case RejectedOther =>
          && len == 0 && uartSel == sel0 && cmd[..] == old(cmd[..])
          && counters == old(counters).(rejectedOther := Wrap32(old(counters).rejectedOther + 1))
          && events == old(events) && lastRxTicks == old(lastRxTicks)
        case RejectedChecksum =>
          && len == 0 && uartSel == sel0 && cmd[..] == old(cmd[..])
          && counters == old(counters).(rejectedChecksum := Wrap32(old(counters).rejectedChecksum + 1))
          && events == old(events) + [Listened] && lastRxTicks == old(lastRxTicks)
        case Accepted(msg, sel) =>
          && len == |msg| && uartSel == sel
          && cmd[..len] == msg && cmd[len..] == old(cmd[len..])
          && counters == old(counters).(good := Wrap32(old(counters).good + 1))
          && events == old(events) && lastRxTicks == 0
    {
      len, uartSel := 0, sel0;
      if !rxComplete {
        return;
      }
      var l := rxBuf[0];
      if l < MinPacketLength || l >= RfBufferSize {
        counters := counters.(rejectedOther := Wrap32(counters.rejectedOther + 1));
        rxComplete := false;
        return;
      }
      var n := l - RfExtras;
      if crc(rxBuf[..l - 1]) != GetLE16(rxBuf[..], l - 1) {
        rxComplete := false;
        counters := counters.(rejectedChecksum := Wrap32(counters.rejectedChecksum + 1));
        Listen();
        return;
      }
      lastRxTicks := 0;
      CopyOut(cmd, n);
      uartSel := UartSelOf(rxBuf[1]);
      rxComplete := false;
      counters := counters.(good := Wrap32(counters.good + 1));
      len := n;
    }

    /** The copy of an accepted packet's `n` message bytes into `cmd`: the
        bytes as received, then the device id moved back from the footer. */
    method CopyOut(cmd: array<byte>, n: byte)
      requires rxBuf.Length == RfBufferSize && cmd != rxBuf
      requires 2 <= n && n + 2 <= RfBufferSize && n <= cmd.Length
      modifies cmd
      ensures cmd[..n] == rxBuf[n..n + 2] + rxBuf[2..n] && cmd[n..] == old(cmd[n..])
    {
      StringX.MemCpyX(cmd, 0, rxBuf, 0, n);
      cmd[0] := rxBuf[n];
      cmd[1] := rxBuf[n + 1];
      assert cmd[..n] == rxBuf[n..n + 2] + rxBuf[2..n] by {
        forall k | 0 <= k < n ensures cmd[k] == (rxBuf[n..n + 2] + rxBuf[2..n])[k] {
          if k >= 2 {
            assert cmd[k] == cmd[0..n][k];
          }
        }
      }
    }

    /** `radio_send_packet`: a message longer than 251 bytes is refused with
        no effect; otherwise the transmit buffer is prepared, the packet goes
        on the air (after the precise-timing delay when asked for), the
        receiver is re-armed and the sent count rises by one. */
    method Send(cmd: array<byte>, len: byte, precise: bool, uartSel: bool)
      requires Valid() && cmd.Length >= MaxPayload && cmd != txBuf
      modifies this, txBuf
      ensures Valid()
      ensures len > MaxPayload ==>
        && txBuf[..] == old(txBuf[..]) && counters == old(counters)
        && events == old(events) && rxComplete == old(rxComplete)
      ensures len <= MaxPayload ==>
        && txBuf[..] == EncodeBuffer(crc, old(cmd[..]), len, uartSel)
        && events == old(events) + [Transmitted(OnAir(crc, old(cmd[..]), len, uartSel), precise), Listened]
        && counters == old(counters).(sent := Wrap32(old(counters).sent + 1))
        && !rxComplete
      ensures lastRxTicks == old(lastRxTicks)
    {
      if len > MaxPayload {
        return;
      }
      PrepareTx(cmd, len, uartSel);
      events := events + [Transmitted(txBuf[..len + 4], precise)];
      Listen();
      counters := counters.(sent := Wrap32(counters.sent + 1));
    }

    /** The buffer preparation part of `radio_send_packet`. */
    method PrepareTx(cmd: array<byte>, len: byte, uartSel: bool)
      requires Valid() && cmd.Length >= MaxPayload && cmd != txBuf && len <= MaxPayload
      modifies txBuf
      ensures txBuf[..] == EncodeBuffer(crc, cmd[..], len, uartSel)
    {
      WriteBody(cmd, len, uartSel);
      var c := crc(txBuf[..len + 2]);
      var footer := LE16(c);
      txBuf[len + 2] := footer[0];
      txBuf[len + 3] := footer[1];
    }

    /** The writes before the checksum: clear, copy, flags, footer device
        id, length byte. */
    method WriteBody(cmd: array<byte>, len: byte, uartSel: bool)
      requires Valid() && cmd.Length >= MaxPayload && cmd != txBuf && len <= MaxPayload
      modifies txBuf
      ensures txBuf[..] == TxBody(cmd[..], len, uartSel)
    {
      StringX.MemSetX(txBuf, 0, 0, RfBufferSize);
      assert txBuf[..] == Zeros(RfBufferSize);
      StringX.MemCpyX(txBuf, 0, cmd, 0, len);
      assert txBuf[..] == Splice(Zeros(RfBufferSize), 0, cmd[..len]);
      ghost var s1 := txBuf[..];
      txBuf[1] := Flags(uartSel);
      assert txBuf[..] == s1[1 := Flags(uartSel)];
      ghost var s2: seq<byte> := txBuf[..];
      var id0, id1 := cmd[0], cmd[1];
      txBuf[len] := id0;
      txBuf[len + 1] := id1;
      assert txBuf[..] == s2[len := id0][len + 1 := id1];
      ghost var s3 := txBuf[..];
      var lengthByte: byte := len + RfExtras;
      txBuf[0] := lengthByte;
      assert txBuf[..] == s3[0 := lengthByte];
      TxBodyWrites(cmd[..], len, uartSel);
    }
  }
}

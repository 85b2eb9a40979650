// The board's extension of the application command table: one opcode that
// carries packed radio parameters, which the board unpacks into register
// fields for the next radio configuration.
module Board {
  import opened Bytes
  import opened Command

  const CustomMsgRfParams: byte := 0x80

  /** Size of the parameter record in the command data: a 32-bit frequency
      word and seven single bytes. */
  const RfParamsSize: nat := 11

  /** The register fields `custom_commands` fills in. */
  datatype RfParams = RfParams(
    fsctrl0: byte, fsctrl1: byte,
    freq0: byte, freq1: byte, freq2: byte,
    chanBwE: byte, chanBwM: byte,
    drateE: byte, drateM: byte,
    deviatnE: byte, deviatnM: byte,
    paConfig: byte)

  /** Unpacks the parameter record at the start of `data`. The frequency word
      is little-endian; its top byte is dropped. The masks of the source are
      written as remainders, which is what they compute on unsigned values. */
  function Unpack(data: seq<byte>): (p: RfParams)
    requires |data| >= RfParamsSize
    ensures p.chanBwE < 4 && p.chanBwM < 4 && p.drateE < 16
    ensures p.deviatnE < 8 && p.deviatnM < 8
    ensures p.freq0 == GetLE32(data, 0) % 0x100
    ensures p.freq1 == GetLE32(data, 0) / 0x100 % 0x100
    ensures p.freq2 == GetLE32(data, 0) / 0x1_0000 % 0x100
  {
    var freq := GetLE32(data, 0);
    RfParams(
      data[4], data[5],
      freq % 0x100, (freq / 0x100) % 0x100, (freq / 0x1_0000) % 0x100,
      (data[6] / 4) % 4, data[6] % 4,
      data[7] % 16, data[8],
      (data[9] / 16) % 8, data[9] % 8,
      data[10])
  }

  /** The board's radio parameters and the command that sets them. */
  class RfConfig {
    var params: RfParams

    constructor (initial: RfParams)
      ensures params == initial
    {
      params := initial;
    }

    /** `custom_commands`. The rf-params opcode acknowledges and replaces the
        parameters; it returns the header length. Any other opcode leaves
        everything alone and returns no defined value, modelled as
        `undefinedLength`. */
    method CustomCommands(cmd: array<byte>, reply: array<byte>, undefinedLength: byte) returns (replyLen: byte)
      requires cmd.Length == MaxPayload && reply.Length == MaxPayload && cmd != reply
      modifies this, reply
      ensures cmd[5] == CustomMsgRfParams ==>
                && params == Unpack(cmd[HeaderSize..])
                && replyLen as nat == HeaderSize
                && reply[..] == old(reply[..])[5 := MsgAck]
      ensures cmd[5] != CustomMsgRfParams ==>
                params == old(params) && replyLen == undefinedLength && reply[..] == old(reply[..])
    {
      if cmd[5] == CustomMsgRfParams {
        reply[5] := MsgAck;
        var freq := GetLE32(cmd[..], HeaderSize);
        assert GetLE32(cmd[HeaderSize..], 0) == freq;
        params := RfParams(
          cmd[HeaderSize + 4], cmd[HeaderSize + 5],
          freq % 0x100, (freq / 0x100) % 0x100, (freq / 0x1_0000) % 0x100,
          (cmd[HeaderSize + 6] / 4) % 4, cmd[HeaderSize + 6] % 4,
          cmd[HeaderSize + 7] % 16, cmd[HeaderSize + 8],
          (cmd[HeaderSize + 9] / 16) % 8, cmd[HeaderSize + 9] % 8,
          cmd[HeaderSize + 10]);
        return HeaderSize as byte;
      }
      replyLen := undefinedLength;
    }
  }
}

// The host's command handler: sequence numbers, reply matching, the serial
// (ESP) framing of outgoing messages, the incremental parser of incoming
// frames, and the send/retry loop over a transport. Time, the serial port
// and the receive queue are outside the model: what a transport delivers
// during one attempt is given as a sequence of polled messages.
module HostCommands {
  import opened Bytes
  import opened Translator

  const SeqnumMin: int := 16
  const SeqnumMax: int := 64000

  const EspStart0: byte := 0x22
  const EspStart1: byte := 0x69

  /** `_inc_seqnum`: the successor modulo 64000, never below 16. */
  function NextSeqnum(s: int): (r: int)
    ensures SeqnumMin <= r < SeqnumMax
  {
    var n := (s + 1) % SeqnumMax;
    if n < SeqnumMin then SeqnumMin else n
  }

  /** Within the range, the sequence number counts up by one and wraps from
      63999 to 16. */
  lemma NextSeqnumCycles(s: int)
    requires SeqnumMin <= s < SeqnumMax
    ensures NextSeqnum(s) == if s == SeqnumMax - 1 then SeqnumMin else s + 1
  {
  }

  /** `_is_reply`: both messages carry at least the hwid and seqnum, and
      those four bytes agree. */
  predicate IsReply(m1: seq<byte>, m2: seq<byte>)
  {
    |m1| >= 4 && |m2| >= 4 && m1[0..4] == m2[0..4]
  }

  /** A message answers another exactly when both carry the same
      little-endian hwid and the same seqnum. */
  lemma IsReplySameFields(m1: seq<byte>, m2: seq<byte>)
    ensures IsReply(m1, m2) <==>
              |m1| >= 4 && |m2| >= 4 && GetLE16(m1, 0) == GetLE16(m2, 0) && GetLE16(m1, 2) == GetLE16(m2, 2)
  {
    if |m1| >= 4 && |m2| >= 4 {
      LE16Injective(m1, 0);
      LE16Injective(m2, 0);
      LE16Injective(m1, 2);
      LE16Injective(m2, 2);
      assert m1[0..4] == m1[0..2] + m1[2..4] && m2[0..4] == m2[0..2] + m2[2..4];
    }
  }

  /** A message answers a command built by `bytes_from_string` exactly when
      it starts with the command's hwid and seqnum, little-endian. */
  lemma IsReplyToCommand(hwid: u16, seqnum: u16, rest: seq<byte>, reply: seq<byte>)
    ensures IsReply(LE16(hwid) + LE16(seqnum) + rest, reply) <==>
              |reply| >= 4 && reply[0..2] == LE16(hwid) && reply[2..4] == LE16(seqnum)
  {
    var m := LE16(hwid) + LE16(seqnum) + rest;
    assert m[0..4] == LE16(hwid) + LE16(seqnum);
    if |reply| >= 4 {
      assert reply[0..4] == reply[0..2] + reply[2..4];
    }
  }

  // ---------------------------------------------------------------------
  // Serial framing

  /** `SerialCommandHandler.send_message`: 0x22 0x69, the length, the
      message. `chr` raises for a length above 255. */
  function Frame(msg: seq<byte>): (r: Option<seq<byte>>)
    ensures r.Some? <==> |msg| < 0x100
    ensures r.Some? ==> |r.value| == |msg| + 3 && r.value[3..] == msg
  {
    if |msg| < 0x100 then Some([EspStart0, EspStart1, |msg|] + msg) else None
  }

  predicate HeaderAt(b: seq<byte>, i: nat)
  {
    i + 2 <= |b| && b[i] == EspStart0 && b[i + 1] == EspStart1
  }

  /** The position of the first 0x22 0x69 in `b`, if there is one. */
  function FindHeader(b: seq<byte>): (r: Option<nat>)
    ensures r.Some? ==> HeaderAt(b, r.value) && forall j :: 0 <= j < r.value ==> !HeaderAt(b, j)
    ensures r.None? ==> forall j :: 0 <= j < |b| ==> !HeaderAt(b, j)
  {
    FindHeaderFrom(b, 0)
  }

  function FindHeaderFrom(b: seq<byte>, i: nat): (r: Option<nat>)
    requires i <= |b|
    ensures r.Some? ==> i <= r.value && HeaderAt(b, r.value) && forall j :: i <= j < r.value ==> !HeaderAt(b, j)
    ensures r.None? ==> forall j :: i <= j < |b| ==> !HeaderAt(b, j)
    decreases |b| - i
  {
    if i + 2 > |b| then None
    else if HeaderAt(b, i) then Some(i)
    else FindHeaderFrom(b, i + 1)
  }

  // ---------------------------------------------------------------------
  // The ESP frame parser

  /** Where the `esp_parser` generator is suspended, with its live locals:
      waiting for more bytes to find a header in `buf`, for the length byte,
      for the rest of a frame's data, or just after yielding a message of
      `length` bytes from the front of `data`. */
  datatype ParserState =
    | SeekHeader(buf: seq<byte>)
    | AwaitLength(packet: seq<byte>)
    | AwaitData(length: byte, data: seq<byte>)
    | Delivered(length: byte, data: seq<byte>)

  /** The generator right after its priming `next()`. */
  const Fresh: ParserState := SeekHeader([])

  /** One `send(chunk)`: the chunk is appended where the generator waits and
      it runs to its next `yield`, which answers a message or nothing. */
  function Resume(st: ParserState, chunk: seq<byte>): (ParserState, Option<seq<byte>>)
  {
    match st
    case SeekHeader(buf) => Scan(buf + chunk)
    case AwaitLength(packet) => FromPacket(packet + chunk)
    case AwaitData(n, data) => FromData(n, data + chunk)
    case Delivered(n, data) => Scan(PySlice(data + chunk, n, |data + chunk|))
  }

  /** The top of the generator's loop: everything up to and including the
      first header is dropped. */
  function Scan(buf: seq<byte>): (r: (ParserState, Option<seq<byte>>))
    ensures FindHeader(buf).None? ==> r == (SeekHeader(buf), None)
    ensures r.1.Some? ==> FindHeader(buf).Some?
    ensures r.1.Some? && FindHeader(buf).Some? ==>
              var i := FindHeader(buf).value;
              i + 3 + |r.1.value| <= |buf| && |r.1.value| == buf[i + 2] && r.1.value == buf[i + 3..i + 3 + |r.1.value|]
  {
    match FindHeader(buf)
    case None => (SeekHeader(buf), None)
    case Some(i) => FromPacket(buf[i + 2..])
  }

  function FromPacket(packet: seq<byte>): (ParserState, Option<seq<byte>>)
  {
    if |packet| < 1 then (AwaitLength(packet), None) else FromData(packet[0], packet[1..])
  }

  /** The length is not range-checked; a frame is answered as soon as its
      data is complete. */
  function FromData(n: byte, data: seq<byte>): (r: (ParserState, Option<seq<byte>>))
    ensures r.1.Some? <==> |data| >= n
    ensures r.1.Some? ==> |r.1.value| == n && r.1.value == data[..n]
  {
    if |data| < n then (AwaitData(n, data), None) else (Delivered(n, data), Some(data[..n]))
  }

  /** `buf` holds no header even with a 0x22 appended. */
  lemma NoHeaderBeforeStart(junk: seq<byte>, rest: seq<byte>)
    requires FindHeader(junk).None?
    ensures FindHeader(junk + [EspStart0, EspStart1] + rest) == Some(|junk|)
  {
    var b := junk + [EspStart0, EspStart1] + rest;
    assert HeaderAt(b, |junk|);
    forall j | 0 <= j < |junk|
      ensures !HeaderAt(b, j)
    {
      if j + 1 < |junk| {
        assert !HeaderAt(junk, j);
      }
    }
    FirstHeaderIs(b, |junk|);
  }

  lemma FirstHeaderIs(b: seq<byte>, i: nat)
    requires HeaderAt(b, i) && forall j :: 0 <= j < i ==> !HeaderAt(b, j)
    ensures FindHeader(b) == Some(i)
  {
  }

  /** A framed message, after any bytes without a header, is found and
      parsed whole; the bytes after it stay in the parser's state. */
  lemma ScanFrame(junk: seq<byte>, msg: seq<byte>, rest: seq<byte>)
    requires |msg| < 0x100 && FindHeader(junk).None?
    ensures Scan(junk + Frame(msg).value + rest) == (Delivered(|msg| as byte, msg + rest), Some(msg))
  {
    var b := junk + Frame(msg).value + rest;
    var tail := [|msg| as byte] + msg + rest;
    assert b == junk + [EspStart0, EspStart1] + tail;
    NoHeaderBeforeStart(junk, tail);
    assert b[|junk| + 2..] == tail;
    assert tail[1..] == msg + rest;
    assert (msg + rest)[..|msg|] == msg;
  }

  /** A framed message, after any bytes without a header, is parsed back
      whole by the first `send`; the bytes after it are kept for the next
      frame. */
  lemma FrameParses(junk: seq<byte>, msg: seq<byte>, rest: seq<byte>)
    requires |msg| < 0x100 && FindHeader(junk).None?
    ensures Resume(Fresh, junk + Frame(msg).value + rest) == (Delivered(|msg| as byte, msg + rest), Some(msg))
  {
    var b := junk + Frame(msg).value + rest;
    assert [] + b == b;
    ScanFrame(junk, msg, rest);
  }

  /** After a message is answered, the next `send` continues with the bytes
      that followed it. */
  lemma RemainderKept(msg: seq<byte>, rest: seq<byte>, chunk: seq<byte>)
    requires |msg| < 0x100
    ensures Resume(Delivered(|msg| as byte, msg + rest), chunk) == Scan(rest + chunk)
  {
    assert PySlice(msg + rest + chunk, |msg|, |msg + rest + chunk|) == rest + chunk;
  }

  /** Two frames sent back to back are answered by two `send`s, the second
      needing no new bytes. */
  lemma TwoFrames(m1: seq<byte>, m2: seq<byte>)
    requires |m1| < 0x100 && |m2| < 0x100
    ensures Resume(Fresh, Frame(m1).value + Frame(m2).value).1 == Some(m1)
    ensures Resume(Resume(Fresh, Frame(m1).value + Frame(m2).value).0, []).1 == Some(m2)
  {
    var f1, f2 := Frame(m1).value, Frame(m2).value;
    assert FindHeader([]).None?;
    FrameParses([], m1, f2);
    assert [] + f1 + f2 == f1 + f2;
    RemainderKept(m1, f2, []);
    ScanFrame([], m2, []);
    assert [] + f2 + [] == f2 + [];
  }

  /** A length byte of 0 yields the empty message. */
  lemma EmptyFrame()
    ensures Resume(Fresh, [EspStart0, EspStart1, 0]).1 == Some([])
  {
    assert FindHeader([]).None?;
    FrameParses([], [], []);
    assert [] + Frame([]).value + [] == [EspStart0, EspStart1, 0];
  }

  /** The `esp_parser` generator as an object: `Send` is `parser.send`. */
  class EspParser {
    var state: ParserState

    constructor ()
      ensures state == Fresh
    {
      state := Fresh;
    }

    method Send(chunk: seq<byte>) returns (msg: Option<seq<byte>>)
      modifies this
      ensures (state, msg) == Resume(old(state), chunk)
    {
      var buf: seq<byte>;
      match state {
        case SeekHeader(b) =>
          buf := b + chunk;
        case AwaitLength(packet) =>
          state, msg := FromPacket(packet + chunk).0, FromPacket(packet + chunk).1;
          return;
        case AwaitData(n, data) =>
          var d := data + chunk;
          if |d| < n {
            state, msg := AwaitData(n, d), None;
          } else {
            state, msg := Delivered(n, d), Some(d[..n]);
          }
          return;
        case Delivered(n, data) =>
          var d := data + chunk;
          buf := PySlice(d, n, |d|);
      }
      var h := FindHeader(buf);
      if h.None? {
        state, msg := SeekHeader(buf), None;
        return;
      }
      var packet := buf[h.value + 2..];
      if |packet| < 1 {
        state, msg := AwaitLength(packet), None;
        return;
      }
      var length := packet[0];
      var data := packet[1..];
      if |data| < length {
        state, msg := AwaitData(length, data), None;
      } else {
        state, msg := Delivered(length, data), Some(data[..length]);
      }
    }
  }

  // ---------------------------------------------------------------------
  // Sending commands

  /** The reply `_send_cmd_once` accepts among the messages polled after
      sending `msg`: the first non-empty one that is a reply. */
  function FirstReply(msg: seq<byte>, polled: seq<seq<byte>>): (r: Option<seq<byte>>)
    ensures r.Some? <==> exists k :: 0 <= k < |polled| && polled[k] != [] && IsReply(msg, polled[k])
    ensures r.Some? ==> r.value in polled && r.value != [] && IsReply(msg, r.value)
  {
    if polled == [] then None
    else if polled[0] != [] && IsReply(msg, polled[0]) then Some(polled[0])
    else
      var r := FirstReply(msg, polled[1..]);
      assert forall k :: 1 <= k < |polled| ==> polled[k] == polled[1..][k - 1];
      r
  }

  /** A reply as the text `_send_cmd_once` returns. */
  function AsText(table: seq<CommandDef>, reply: Option<seq<byte>>): (r: Option<Str>)
    ensures r.Some? <==> reply.Some?
  {
    if reply.Some? then Some(StringFromBytes(table, reply.value)) else None
  }

  /** What attempt `k` polls: the environment's window for it, or nothing
      once those run out. */
  function PollsAt(polls: seq<seq<seq<byte>>>, k: nat): seq<seq<byte>>
  {
    if k < |polls| then polls[k] else []
  }

  /** The outcome of the retry loop from attempt `k` on: the first reply
      and the number of attempts made. */
  function Retry(msg: seq<byte>, polls: seq<seq<seq<byte>>>, limit: nat, k: nat): (r: (Option<seq<byte>>, nat))
    requires k <= limit
    ensures k <= r.1 <= limit
    ensures r.0.None? ==> r.1 == limit
    ensures r.0.Some? ==> r.1 >= 1 && r.0 == FirstReply(msg, PollsAt(polls, r.1 - 1))
    ensures forall j :: k <= j < r.1 - 1 ==> FirstReply(msg, PollsAt(polls, j)).None?
    decreases limit - k
  {
    if k == limit then (None, k)
    else
      var window := PollsAt(polls, k);
      var first := FirstReply(msg, window);
      if first.Some? then
        assert PollsAt(polls, (k + 1) - 1) == window;
        (first, k + 1)
      else Retry(msg, polls, limit, k + 1)
  }

  /** How many attempts `send_cmd` makes at most: `retries + 1`; without a
      bound the source keeps trying, and the model stops after the last
      window the environment supplies (at least one attempt). */
  function AttemptLimit(retries: Option<nat>, supplied: nat): (n: nat)
    ensures n >= 1
    ensures retries.Some? ==> n == retries.value + 1
    ensures retries.None? ==> n >= supplied
  {
    if retries.Some? then retries.value + 1 else if supplied == 0 then 1 else supplied
  }

  /** The retry loop after `tries` attempts has the outcome `Retry` gives
      from the start: none yet, or the reply of the last attempt. */
  predicate RetriedUpTo(msg: seq<byte>, polls: seq<seq<seq<byte>>>, limit: nat, reply: Option<seq<byte>>, tries: nat)
    requires tries <= limit
  {
    if reply.None? then Retry(msg, polls, limit, 0) == Retry(msg, polls, limit, tries)
    else Retry(msg, polls, limit, 0) == (reply, tries)
  }

  /** One attempt of the retry loop keeps `RetriedUpTo`. */
  lemma RetryStep(msg: seq<byte>, polls: seq<seq<seq<byte>>>, limit: nat, tries: nat)
    requires tries < limit && RetriedUpTo(msg, polls, limit, None, tries)
    ensures RetriedUpTo(msg, polls, limit, FirstReply(msg, PollsAt(polls, tries)), tries + 1)
  {
  }

  /** `n` copies of the message `m`. */
  function Repeat(m: seq<byte>, n: nat): (r: seq<seq<byte>>)
    ensures |r| == n && forall k :: 0 <= k < n ==> r[k] == m
  {
    if n == 0 then [] else Repeat(m, n - 1) + [m]
  }

  /** Sending `m` once more after `n` copies of it. */
  lemma RepeatSnoc(before: seq<seq<byte>>, m: seq<byte>, n: nat)
    ensures before + Repeat(m, n) + [m] == before + Repeat(m, n + 1)
  {
  }

  /** `CommandHandler`: the target hwid, the sequence number and the
      messages handed to the transport so far. */
  class CommandHandler {
    /** The translator's command table the handler encodes and decodes with. */
    const table: seq<CommandDef>
    var hwid: int
    var seqnum: int
    var sent: seq<seq<byte>>

    constructor (hwid: int)
      ensures table == Commands
      ensures this.hwid == hwid && seqnum == SeqnumMin && sent == []
    {
      table := Commands;
      this.hwid := hwid;
      seqnum := SeqnumMin;
      sent := [];
    }

    method IncSeqnum()
      modifies this
      ensures seqnum == NextSeqnum(old(seqnum))
      ensures hwid == old(hwid) && sent == old(sent)
    {
      var n := (seqnum + 1) % SeqnumMax;
      seqnum := if n < SeqnumMin then SeqnumMin else n;
    }

    /** `_send_cmd_once`: build the message (which may raise), send it, then
        look through the polled messages for the first reply. */
    method SendCmdOnce(cmd: Str, polled: seq<seq<byte>>) returns (r: Result<Option<Str>, Error>)
      modifies this
      ensures hwid == old(hwid) && seqnum == old(seqnum)
      ensures var m := BytesFromString(table, hwid, seqnum, cmd);
              && (m.Raise? ==> r == Raise(m.error) && sent == old(sent))
              && (m.Ok? ==> r == Ok(AsText(table, FirstReply(m.value, polled))) && sent == old(sent) + [m.value])
    {
      var m := BytesFromString(table, hwid, seqnum, cmd);
      if m.Raise? {
        return Raise(m.error);
      }
      var reply := SendMessage(m.value, polled);
      r := Ok(AsText(table, reply));
    }

    /** The part of `_send_cmd_once` after the message is built: hand it to
        the transport and wait for the first reply among `polled`. */
    method SendMessage(msg: seq<byte>, polled: seq<seq<byte>>) returns (reply: Option<seq<byte>>)
      modifies this
      ensures hwid == old(hwid) && seqnum == old(seqnum)
      ensures reply == FirstReply(msg, polled) && sent == old(sent) + [msg]
    {
      sent := sent + [msg];
      var i := 0;
      while i < |polled|
        invariant 0 <= i <= |polled|
        invariant FirstReply(msg, polled) == FirstReply(msg, polled[i..])
        invariant hwid == old(hwid) && seqnum == old(seqnum) && sent == old(sent) + [msg]
      {
        assert polled[i..][1..] == polled[i + 1..];
        var r := polled[i];
        if r != [] && IsReply(msg, r) {
          return Some(r);
        }
        i := i + 1;
      }
      reply := None;
    }

    /** `send_cmd`: one sequence-number step, then attempts with that same
        number until one is answered or the retries are used up. Every
        attempt builds the same message from the same state, so it is built
        once here: when building raises, the first attempt raises before
        anything is sent. */
    method SendCmd(cmd: Str, retries: Option<nat>, polls: seq<seq<seq<byte>>>) returns (r: Result<Option<Str>, Error>)
      modifies this
      ensures seqnum == NextSeqnum(old(seqnum)) && hwid == old(hwid)
      ensures var m := BytesFromString(table, hwid, seqnum, cmd);
              && (m.Raise? ==> r == Raise(m.error) && sent == old(sent))
              && (m.Ok? ==>
                    var (reply, tries) := Retry(m.value, polls, AttemptLimit(retries, |polls|), 0);
                    r == Ok(AsText(table, reply)) && sent == old(sent) + Repeat(m.value, tries))
    {
      IncSeqnum();
      var m := BytesFromString(table, hwid, seqnum, cmd);
      if m.Raise? {
        return Raise(m.error);
      }
      var reply, tries := Attempts(m.value, polls, AttemptLimit(retries, |polls|));
      r := Ok(AsText(table, reply));
    }

    /** `send_cmd`'s loop: send `msg` again, with the next window of polled
        messages, until a reply comes or `limit` attempts are made. */
    method Attempts(msg: seq<byte>, polls: seq<seq<seq<byte>>>, limit: nat) returns (reply: Option<seq<byte>>, tries: nat)
      modifies this
      ensures hwid == old(hwid) && seqnum == old(seqnum)
      ensures (reply, tries) == Retry(msg, polls, limit, 0)
      ensures sent == old(sent) + Repeat(msg, tries)
    {
      reply, tries := None, 0;
      ghost var before := sent;
      while tries < limit && reply.None?
        invariant tries <= limit
        invariant hwid == old(hwid) && seqnum == old(seqnum)
        invariant sent == before + Repeat(msg, tries)
        invariant RetriedUpTo(msg, polls, limit, reply, tries)
      {
        RetryStep(msg, polls, limit, tries);
        reply := SendMessage(msg, PollsAt(polls, tries));
        RepeatSnoc(before, msg, tries);
        tries := tries + 1;
      }
    }

    /** `send_cmd_resp`: the reply must be exactly the expected text. */
    method SendCmdResp(cmd: Str, expected: Str, retries: Option<nat>, polls: seq<seq<seq<byte>>>)
      returns (r: Result<Str, ResponseError>)
      modifies this
      ensures seqnum == NextSeqnum(old(seqnum)) && hwid == old(hwid)
      ensures var m := BytesFromString(table, hwid, seqnum, cmd);
              && (m.Raise? ==> r == Raise(TranslateFailed(m.error)))
              && (m.Ok? ==>
                    var reply := AsText(table, Retry(m.value, polls, AttemptLimit(retries, |polls|), 0).0);
                    r == if reply == Some(expected) then Ok(expected) else Raise(Mismatch(reply)))
    {
      var resp := SendCmd(cmd, retries, polls);
      if resp.Raise? {
        return Raise(TranslateFailed(resp.error));
      }
      if resp.value != Some(expected) {
        return Raise(Mismatch(resp.value));
      }
      r := Ok(expected);
    }
  }

  /** What `send_cmd_resp` raises: the translator's error passing through,
      or `ResponseError` carrying the reply actually received. */
  datatype ResponseError = TranslateFailed(e: Error) | Mismatch(got: Option<Str>)
}

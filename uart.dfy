// The serial (ESP) frame decoder shared by UART0 and UART1: a four-state
// byte machine run once per received byte by the receive interrupt, a pool
// of fixed-size reassembly buffers, the poll that hands a finished frame to
// the main loop, and the transmit framing. UART0 has one buffer, UART1
// three; the code is otherwise the same.
module Uart {
  import opened Bytes
  import opened Command
  import StringX

  const Start0: byte := 0x22
  const Start1: byte := 0x69
  const Uart0Buffers: nat := 1
  const Uart1Buffers: nat := 3

  datatype EspState = WaitStart0 | WaitStart1 | WaitLength | ReceiveData

  /** The decoder's static variables: state, the per-buffer ready flags and
      lengths, the buffers themselves laid out row after row (each
      `MaxPayload` bytes), the buffer being filled, the fill offset and the
      32-bit count of completed frames. */
  datatype Rx = Rx(state: EspState, ready: seq<bool>, lens: seq<byte>, data: seq<byte>,
                   active: nat, offset: nat, count: u32)

  /** Start of buffer `i` in the row-major buffer area. */
  function Base(i: nat): nat
  {
    i * MaxPayload
  }

  /** Buffer `i` ends at or before the start of any later buffer `j`;
      buffer `j` starts `j` rows in. */
  lemma BaseBelow(i: nat, j: nat)
    requires i < j
    ensures Base(i) + MaxPayload <= Base(j) && Base(j) == j * MaxPayload
  {
    assert MaxPayload == 251;
  }

  predicate WellFormed(r: Rx)
  {
    && |r.ready| >= 1
    && |r.lens| == |r.ready|
    && |r.data| == |r.ready| * MaxPayload
    && r.active < |r.ready|
    && (forall k :: 0 <= k < |r.lens| ==> r.lens[k] <= MaxPayload)
    && (forall k :: 0 <= k < |r.ready| && r.ready[k] ==> r.lens[k] >= 1)
    && (r.state == ReceiveData ==> !r.ready[r.active] && r.offset < r.lens[r.active])
  }

  /** The decoder after initialisation: idle, every buffer free, count 0. */
  function Init(n: nat): (r: Rx)
    requires n >= 1
    ensures WellFormed(r) && |r.ready| == n
  {
    Rx(WaitStart0, seq(n, _ => false), seq(n, _ => 0), seq(n * MaxPayload, _ => 0), 0, 0, 0)
  }

  /** Index of the first entry equal to `v`, or `|s|` when there is none. */
  function FirstWith(s: seq<bool>, v: bool): (i: nat)
    ensures i <= |s|
    ensures forall k :: 0 <= k < i ==> s[k] != v
    ensures i < |s| ==> s[i] == v
  {
    if s == [] then 0 else if s[0] == v then 0 else 1 + FirstWith(s[1..], v)
  }

  /** One received byte (`uart1_rx_isr`, `uart0_rx_isr`). A length byte claims
      the lowest-index buffer that is not ready; the source's scan has no
      bound, and here it stops at the last buffer. */
  function Step(r: Rx, c: byte): (r': Rx)
    requires WellFormed(r)
    ensures WellFormed(r') && |r'.ready| == |r.ready|
  {
    match r.state
    case WaitStart0 =>
      if c == Start0 then r.(state := WaitStart1) else r
    case WaitStart1 =>
      // a repeated 0x22 and any other byte both keep waiting for 0x69
      if c == Start1 then r.(state := WaitLength) else r
    case WaitLength =>
      if c > MaxPayload || c < 1 then r.(state := WaitStart1)
      else
        var i := FirstWith(r.ready, false);
        if i >= |r.ready| then r.(active := 0, state := WaitStart0)
        else r.(lens := r.lens[i := c], active := i, offset := 0, state := ReceiveData)
    case ReceiveData =>
      var d := r.data[Base(r.active) + r.offset := c];
      if r.offset + 1 == r.lens[r.active] then
        r.(data := d, offset := r.offset + 1, ready := r.ready[r.active := true],
           state := WaitStart0, count := Wrap32(r.count + 1))
      else
        r.(data := d, offset := r.offset + 1)
  }

  /** The decoder after a sequence of received bytes. */
  function Feed(r: Rx, s: seq<byte>): (r': Rx)
    requires WellFormed(r)
    ensures WellFormed(r') && |r'.ready| == |r.ready|
    decreases |s|
  {
    if s == [] then r else Feed(Step(r, s[0]), s[1..])
  }

  /** The bytes held by buffer `i`. */
  function Buffer(r: Rx, i: nat): seq<byte>
    requires WellFormed(r) && i < |r.ready|
  {
    r.data[Base(i)..Base(i) + r.lens[i]]
  }

  datatype Polled = Polled(rx: Rx, msg: seq<byte>)

  /** `uart*_get_message`: the lowest-index ready buffer is handed over and
      released; with none ready the message is empty and nothing changes. */
  function Poll(r: Rx): (p: Polled)
    requires WellFormed(r)
    ensures WellFormed(p.rx)
    ensures p.msg == [] <==> forall k :: 0 <= k < |r.ready| ==> !r.ready[k]
    ensures |p.msg| <= MaxPayload
  {
    var i := FirstWith(r.ready, true);
    if i == |r.ready| then Polled(r, [])
    else Polled(r.(ready := r.ready[i := false]), Buffer(r, i))
  }

  /** The transmitted form of a message: both start bytes, the length, the
      bytes. */
  function Frame(m: seq<byte>): (f: seq<byte>)
    requires |m| < 0x100
    ensures |f| == |m| + 3 && f[3..] == m
  {
    [Start0, Start1, |m|] + m
  }


  // ---------------------------------------------------------------------
  // Properties of the decoder

  lemma {:induction false} FeedAppend(r: Rx, a: seq<byte>, b: seq<byte>)
    requires WellFormed(r)
    ensures Feed(r, a + b) == Feed(Feed(r, a), b)
    decreases |a|
  {
    if a != [] {
      assert (a + b)[1..] == a[1..] + b;
      FeedAppend(Step(r, a[0]), a[1..], b);
    } else {
      assert a + b == b;
    }
  }

  /** While waiting for the first start byte, bytes other than 0x22 are
      ignored. */
  lemma {:induction false} IdleUntilStart0(r: Rx, s: seq<byte>)
    requires WellFormed(r) && r.state == WaitStart0
    requires forall k :: 0 <= k < |s| ==> s[k] != Start0
    ensures Feed(r, s) == r
    decreases |s|
  {
    if s != [] {
      IdleUntilStart0(r, s[1..]);
    }
  }

  /** Once 0x22 has been seen the decoder waits for 0x69 for ever: no other
      byte, 0x22 included, returns it to the first start state. */
  lemma {:induction false} Start1IsSticky(r: Rx, s: seq<byte>)
    requires WellFormed(r) && r.state == WaitStart1
    requires forall k :: 0 <= k < |s| ==> s[k] != Start1
    ensures Feed(r, s) == r
    decreases |s|
  {
    if s != [] {
      Start1IsSticky(r, s[1..]);
    }
  }

  /** A length byte of 0 or above 251 goes back to waiting for 0x69 (not for
      0x22) and claims no buffer. */
  lemma BadLengthBackToStart1(r: Rx, len: byte)
    requires WellFormed(r) && r.state == WaitStart0
    requires len == 0 || len > MaxPayload
    ensures Feed(r, [Start0, Start1, len]) == r.(state := WaitStart1)
  {
    var r1 := Step(r, Start0);
    var r2 := Step(r1, Start1);
    assert Feed(r2, [len]) == Step(r2, len);
    assert [Start0, Start1, len][1..] == [Start1, len];
    assert [Start1, len][1..] == [len];
  }

  /** With every buffer ready, a well-formed frame header is dropped: the
      decoder returns to the first start state and no buffer, length or
      count changes. */
  lemma FrameDroppedWhenFull(r: Rx, len: byte)
    requires WellFormed(r) && r.state == WaitStart0
    requires forall k :: 0 <= k < |r.ready| ==> r.ready[k]
    requires 1 <= len <= MaxPayload
    ensures Feed(r, [Start0, Start1, len]) == r.(active := 0)
  {
    var r1 := Step(r, Start0);
    var r2 := Step(r1, Start1);
    assert Feed(r2, [len]) == Step(r2, len);
    assert [Start0, Start1, len][1..] == [Start1, len];
    assert [Start1, len][1..] == [len];
  }

  /** UART0 has a single buffer: while it holds an unread frame, the next
      frame's header is dropped. */
  lemma Uart0DropsWhileBufferHeld(r: Rx, len: byte)
    requires WellFormed(r) && |r.ready| == Uart0Buffers && r.ready[0]
    requires r.state == WaitStart0 && 1 <= len <= MaxPayload
    ensures Feed(r, [Start0, Start1, len]).ready == r.ready
    ensures Feed(r, [Start0, Start1, len]).state == WaitStart0
    ensures Feed(r, [Start0, Start1, len]).count == r.count
  {
    FrameDroppedWhenFull(r, len);
  }

  lemma SpliceOne(s: seq<byte>, at: nat, v: seq<byte>)
    requires at + |v| <= |s| && |v| >= 1
    ensures Splice(s[at := v[0]], at + 1, v[1..]) == Splice(s, at, v)
  {
    var a := Splice(s[at := v[0]], at + 1, v[1..]);
    var b := Splice(s, at, v);
    assert forall k :: 0 <= k < |s| ==> a[k] == b[k];
  }

  /** Receiving the data bytes of a claimed buffer writes them in order from
      the current offset; the last one marks the buffer ready, adds one to
      the frame count and returns to the first start state. */
  lemma {:induction false} FillBuffer(r: Rx, s: seq<byte>)
    requires WellFormed(r) && r.state == ReceiveData
    requires |s| >= 1 && r.offset + |s| == r.lens[r.active]
    ensures Feed(r, s) == r.(data := Splice(r.data, Base(r.active) + r.offset, s),
                             offset := r.lens[r.active],
                             ready := r.ready[r.active := true],
                             state := WaitStart0,
                             count := Wrap32(r.count + 1))
    decreases |s|
  {
    var at := Base(r.active) + r.offset;
    BaseBelow(r.active, |r.ready|);
    FeedCons(r, s);
    if |s| == 1 {
      LastDataByte(r, s[0]);
      assert Splice(r.data, at, s) == r.data[at := s[0]];
    } else {
      var r1 := InnerDataByte(r, s[0]);
      FillBuffer(r1, s[1..]);
      FillCombine(r, s, r1, Feed(r1, s[1..]));
    }
  }

  /** The inductive step of `FillBuffer`: the state after the remaining
      bytes, seen from before the first one. */
  lemma FillCombine(r: Rx, s: seq<byte>, r1: Rx, f: Rx)
    requires WellFormed(r) && r.state == ReceiveData
    requires |s| >= 2 && r.offset + |s| == r.lens[r.active]
    requires Base(r.active) + r.offset + |s| <= |r.data|
    requires r1 == r.(data := r.data[Base(r.active) + r.offset := s[0]], offset := r.offset + 1)
    requires f == r1.(data := Splice(r1.data, Base(r1.active) + r1.offset, s[1..]),
                      offset := r1.lens[r1.active],
                      ready := r1.ready[r1.active := true],
                      state := WaitStart0,
                      count := Wrap32(r1.count + 1))
    ensures f == r.(data := Splice(r.data, Base(r.active) + r.offset, s),
                    offset := r.lens[r.active],
                    ready := r.ready[r.active := true],
                    state := WaitStart0,
                    count := Wrap32(r.count + 1))
  {
    SpliceOne(r.data, Base(r.active) + r.offset, s);
  }

  lemma FeedCons(r: Rx, s: seq<byte>)
    requires WellFormed(r) && |s| >= 1
    ensures Feed(r, s) == Feed(Step(r, s[0]), s[1..])
  {
  }

  /** The byte that completes a frame. */
  lemma LastDataByte(r: Rx, c: byte)
    requires WellFormed(r) && r.state == ReceiveData && r.offset + 1 == r.lens[r.active]
    ensures Base(r.active) + r.offset < |r.data|
    ensures Feed(Step(r, c), []) == r.(data := r.data[Base(r.active) + r.offset := c],
                                       offset := r.lens[r.active],
                                       ready := r.ready[r.active := true],
                                       state := WaitStart0,
                                       count := Wrap32(r.count + 1))
  {
    BaseBelow(r.active, |r.ready|);
  }

  /** A data byte before the last one; returns the decoder after it. */
  lemma InnerDataByte(r: Rx, c: byte) returns (r1: Rx)
    requires WellFormed(r) && r.state == ReceiveData && r.offset + 1 < r.lens[r.active]
    ensures Base(r.active) + r.offset < |r.data|
    ensures r1 == Step(r, c)
    ensures r1 == r.(data := r.data[Base(r.active) + r.offset := c], offset := r.offset + 1)
    ensures WellFormed(r1) && r1.state == ReceiveData
  {
    BaseBelow(r.active, |r.ready|);
    r1 := Step(r, c);
  }

  /** A valid frame header reaching an idle decoder with a free buffer claims
      the lowest-index free buffer for a frame of that length. */
  lemma HeaderClaimsBuffer(r: Rx, len: byte)
    requires WellFormed(r) && r.state == WaitStart0
    requires 1 <= len <= MaxPayload
    requires FirstWith(r.ready, false) < |r.ready|
    ensures var i := FirstWith(r.ready, false);
            Feed(r, [Start0, Start1, len])
              == r.(lens := r.lens[i := len], active := i, offset := 0, state := ReceiveData)
  {
    var r1 := Step(r, Start0);
    var r2 := Step(r1, Start1);
    assert Feed(r2, [len]) == Step(r2, len);
    assert [Start0, Start1, len][1..] == [Start1, len];
    assert [Start1, len][1..] == [len];
  }

  /** Writing inside buffer `i` leaves every other buffer's bytes alone. */
  lemma SpliceKeepsOtherBuffers(d: seq<byte>, n: nat, i: nat, j: nat, m: seq<byte>, lj: nat)
    requires |d| == n * MaxPayload && i < n && j < n && i != j
    requires |m| <= MaxPayload && lj <= MaxPayload
    ensures Base(i) + |m| <= |d| && Base(j) + lj <= |d|
    ensures Splice(d, Base(i), m)[Base(j)..Base(j) + lj] == d[Base(j)..Base(j) + lj]
  {
    BaseBelow(i, n);
    BaseBelow(j, n);
    if j < i {
      BaseBelow(j, i);
    } else {
      BaseBelow(i, j);
    }
    var e := Splice(d, Base(i), m);
    assert forall k :: Base(j) <= k < Base(j) + lj ==> e[k] == d[k];
  }

  /** The decoder state after a whole frame reaches an idle decoder that has
      a free buffer. */
  lemma {:induction false} FrameLands(r: Rx, m: seq<byte>)
    requires WellFormed(r) && r.state == WaitStart0
    requires 1 <= |m| <= MaxPayload
    requires FirstWith(r.ready, false) < |r.ready|
    ensures var i := FirstWith(r.ready, false);
            Feed(r, Frame(m))
              == r.(lens := r.lens[i := |m|], active := i, offset := |m|,
                    data := Splice(r.data, Base(i), m), ready := r.ready[i := true],
                    state := WaitStart0, count := Wrap32(r.count + 1))
  {
    HeaderClaimsBuffer(r, |m|);
    var r3 := Feed(r, [Start0, Start1, |m|]);
    assert Frame(m) == [Start0, Start1, |m|] + m;
    FeedAppend(r, [Start0, Start1, |m|], m);
    FillBuffer(r3, m);
  }

  /** A complete frame sent to an idle decoder with a free buffer lands in
      the lowest-index free buffer, which becomes ready holding exactly the
      message; the frame count rises by one and no other buffer changes. */
  lemma FrameDelivered(r: Rx, m: seq<byte>)
    requires WellFormed(r) && r.state == WaitStart0
    requires 1 <= |m| <= MaxPayload
    requires FirstWith(r.ready, false) < |r.ready|
    ensures var i := FirstWith(r.ready, false);
            var r' := Feed(r, Frame(m));
            && r'.state == WaitStart0
            && r'.ready == r.ready[i := true]
            && r'.lens == r.lens[i := |m|]
            && Buffer(r', i) == m
            && r'.count == Wrap32(r.count + 1)
            && (forall j :: 0 <= j < |r.ready| && j != i ==> Buffer(r', j) == Buffer(r, j))
  {
    var i := FirstWith(r.ready, false);
    FrameLands(r, m);
    var r' := Feed(r, Frame(m));
    OtherBuffersKept(r, r', i, m);
  }

  /** Filling buffer `i` with `m` leaves every other buffer as it was. */
  lemma OtherBuffersKept(r: Rx, r': Rx, i: nat, m: seq<byte>)
    requires WellFormed(r) && WellFormed(r') && |r'.ready| == |r.ready| && i < |r.ready|
    requires |m| <= MaxPayload && Base(i) + |m| <= |r.data|
    requires r'.data == Splice(r.data, Base(i), m) && r'.lens == r.lens[i := |m|]
    ensures forall j :: 0 <= j < |r.ready| && j != i ==> Buffer(r', j) == Buffer(r, j)
  {
    forall j | 0 <= j < |r.ready| && j != i
      ensures Buffer(r', j) == Buffer(r, j)
    {
      SpliceKeepsOtherBuffers(r.data, |r.ready|, i, j, m, r.lens[j]);
    }
  }

  /** A frame received while no buffer is waiting comes straight back out of
      the next poll, byte for byte, and the poll leaves no buffer ready. */
  lemma FrameThenPoll(r: Rx, m: seq<byte>)
    requires WellFormed(r) && r.state == WaitStart0
    requires forall k :: 0 <= k < |r.ready| ==> !r.ready[k]
    requires 1 <= |m| <= MaxPayload
    ensures Poll(Feed(r, Frame(m))).msg == m
    ensures forall k :: 0 <= k < |r.ready| ==> !Poll(Feed(r, Frame(m))).rx.ready[k]
  {
    assert FirstWith(r.ready, false) == 0;
    FrameDelivered(r, m);
    var r' := Feed(r, Frame(m));
    assert FirstWith(r'.ready, true) == 0;
  }

  /** Poll hands out the lowest-index ready buffer (index order, not the order
      of arrival) and releases only that one. */
  lemma PollLowestReady(r: Rx, i: nat)
    requires WellFormed(r) && i < |r.ready| && r.ready[i]
    requires forall k :: 0 <= k < i ==> !r.ready[k]
    ensures Poll(r).msg == Buffer(r, i) && |Poll(r).msg| == r.lens[i]
    ensures Poll(r).rx == r.(ready := r.ready[i := false])
  {
    assert FirstWith(r.ready, true) == i;
  }

  /** From a freshly initialised UART1 decoder, the bytes 22 22 69 03 01 02 03
      leave exactly one ready buffer, buffer 0, holding 01 02 03, with the
      decoder back in its first start state. */
  lemma ScenarioRepeatedStart()
    ensures var r := Feed(Init(Uart1Buffers), [0x22, 0x22, 0x69, 3, 1, 2, 3]);
            && r.state == WaitStart0
            && r.ready == [true, false, false]
            && Buffer(r, 0) == [1, 2, 3]
            && r.count == 1
  {
    var r0 := Init(Uart1Buffers);
    var m: seq<byte> := [1, 2, 3];
    var r1 := Step(r0, Start0);
    assert [0x22, 0x22, 0x69, 3, 1, 2, 3] == [Start0] + Frame(m);
    FeedAppend(r0, [Start0], Frame(m));
    assert Feed(r0, [Start0]) == r1;
    assert Step(r1, Start0) == r1;
    assert Frame(m)[0] == Start0;
    assert Feed(r1, Frame(m)) == Feed(r1, Frame(m)[1..]);
    assert Feed(r0, Frame(m)) == Feed(r1, Frame(m)[1..]);
    assert r0.ready == [false, false, false];
    FrameDelivered(r0, m);
  }

  // ---------------------------------------------------------------------
  // The driver state, updated in place

  class UartPort {
    var state: EspState
    const ready: array<bool>
    const lens: array<byte>
    const data: array<byte>
    var active: nat
    var offset: nat
    var rxCount: u32
    /** `print_buf`, the command buffer that debug text is assembled in. */
    const printBuf: array<byte>
    /** Every byte written to the transmit register, in order. */
    var sent: seq<byte>

    ghost function Abstract(): Rx
      reads this`state, this`active, this`offset, this`rxCount, ready, lens, data
    {
      Rx(state, ready[..], lens[..], data[..], active, offset, rxCount)
    }

    ghost predicate Valid()
      reads this`state, this`active, this`offset, this`rxCount, ready, lens, data
    {
      && data != printBuf && lens != printBuf && lens != data
      && printBuf.Length == MaxPayload
      && WellFormed(Abstract())
    }

    /** `uart*_init`: frame count zero, every buffer free, decoder idle. */
    constructor (n: nat)
      requires n >= 1
      ensures Valid() && Abstract() == Init(n) && sent == []
      ensures fresh(ready) && fresh(lens) && fresh(data) && fresh(printBuf)
    {
      state := WaitStart0;
      ready := new bool[n](_ => false);
      lens := new byte[n](_ => 0);
      data := new byte[n * MaxPayload](_ => 0);
      printBuf := new byte[MaxPayload](_ => 0);
      active := 0;
      offset := 0;
      rxCount := 0;
      sent := [];
    }

    /** The receive interrupt, run once per byte. */
    method RxByte(c: byte)
      requires Valid()
      modifies this, ready, lens, data
      ensures Valid() && sent == old(sent)
      ensures Abstract() == Step(old(Abstract()), c)
    {
      match state
      case WaitStart0 =>
        if c == Start0 {
          state := WaitStart1;
        }
      case WaitStart1 =>
        if c == Start1 {
          state := WaitLength;
        } else if c == Start0 {
          state := WaitStart1;
        }
      case WaitLength =>
        RxLength(c);
      case ReceiveData =>
        RxData(c);
    }

    /** The length byte: checked, then a free buffer is claimed or the frame
        is dropped. */
    method RxLength(c: byte)
      requires Valid() && state == WaitLength
      modifies this, lens
      ensures Valid() && sent == old(sent)
      ensures Abstract() == Step(old(Abstract()), c)
    {
      if c > MaxPayload || c < 1 {
        state := WaitStart1;
      } else {
        var i := 0;
        while i < ready.Length && ready[i]
          invariant 0 <= i <= ready.Length
          invariant forall k :: 0 <= k < i ==> ready[k]
        {
          i := i + 1;
        }
        assert i == FirstWith(ready[..], false);
        if i >= ready.Length {
          active := 0;
          state := WaitStart0;
        } else {
          lens[i] := c;
          assert lens[..] == old(lens[..])[i := c];
          active := i;
          offset := 0;
          state := ReceiveData;
        }
      }
    }

    /** A data byte: stored at the fill offset; the last one completes the
        frame. */
    method RxData(c: byte)
      requires Valid() && state == ReceiveData
      modifies this, ready, data
      ensures Valid() && sent == old(sent)
      ensures Abstract() == Step(old(Abstract()), c)
    {
      ghost var r := Abstract();
      BaseBelow(active, ready.Length);
      ghost var d := r.data[Base(active) + offset := c];
      data[Base(active) + offset] := c;
      assert data[..] == d;
      offset := offset + 1;
      if offset == lens[active] {
        ready[active] := true;
        assert ready[..] == r.ready[active := true];
        state := WaitStart0;
        rxCount := Wrap32(rxCount + 1);
        assert Abstract() == r.(data := d, offset := r.offset + 1, ready := r.ready[r.active := true],
                                state := WaitStart0, count := Wrap32(r.count + 1));
      } else {
        assert Abstract() == r.(data := d, offset := r.offset + 1);
      }
    }

    /** `uart*_get_message`: copies the lowest-index ready buffer into `buf`,
        releases it and returns its length; returns 0 and leaves `buf` alone
        when no buffer is ready. */
    method GetMessage(buf: array<byte>) returns (len: byte)
      requires Valid() && buf.Length >= MaxPayload
      requires buf != data && buf != lens && buf != printBuf
      modifies ready, buf
      ensures Valid() && sent == old(sent)
      ensures var p := Poll(old(Abstract()));
              && Abstract() == p.rx
              && len == |p.msg|
              && buf[..len] == p.msg
              && buf[len..] == old(buf[len..])
    {
      var i := 0;
      while i < ready.Length
        invariant 0 <= i <= ready.Length
        invariant forall k :: 0 <= k < i ==> !ready[k]
      {
        if ready[i] {
          assert i == FirstWith(ready[..], true);
          len := Release(i, buf);
          return;
        }
        i := i + 1;
      }
      assert FirstWith(ready[..], true) == ready.Length;
      len := 0;
    }

    /** The found branch of `uart*_get_message`: buffer `i` is copied into
        `buf` and released. */
    method Release(i: nat, buf: array<byte>) returns (len: byte)
      requires Valid() && i < ready.Length && ready[i] && buf.Length >= MaxPayload
      requires buf != data && buf != lens && buf != printBuf
      modifies ready, buf
      ensures Valid()
      ensures var r := old(Abstract());
              && Abstract() == r.(ready := r.ready[i := false])
              && len == |Buffer(r, i)| && buf[..len] == Buffer(r, i) && buf[len..] == old(buf[len..])
    {
      len := lens[i];
      BaseBelow(i, ready.Length);
      StringX.MemCpyX(buf, 0, data, Base(i), len);
      assert buf[..len] == buf[0..len];
      ready[i] := false;
      assert ready[..] == old(ready[..])[i := false];
    }

    /** `uart*_send_message`: the two start bytes, the length, then the
        message bytes in order. */
    method SendMessage(msg: array<byte>, len: byte)
      requires len <= msg.Length
      modifies this`sent
      ensures sent == old(sent) + Frame(msg[..len])
    {
      sent := sent + [Start0];
      sent := sent + [Start1];
      sent := sent + [len];
      var k := 0;
      while k < len
        invariant 0 <= k <= len
        invariant sent == old(sent) + [Start0, Start1, len] + msg[..k]
      {
        sent := sent + [msg[k]];
        assert msg[..k + 1] == msg[..k] + [msg[k]];
        k := k + 1;
      }
    }

    /** `dprintf*`: sends the NUL-terminated text in `msg` as an ASCII command
        from this device (sequence number 0), its length being the text's
        length plus the 6 header bytes. The text must fit the command's 245
        data bytes with its NUL. */
    method DPrintf(msg: array<byte>, hwidFlash: u16)
      requires Valid() && msg != printBuf
      requires exists k :: 0 <= k < msg.Length && msg[k] == 0
      requires StringX.CStrLen(msg[..]) < MaxData
      modifies this`sent, printBuf
      ensures sent == old(sent) +
        Frame(EncodeHeader(Header(hwidFlash, 0, MsgTypeRadioOut, MsgAscii))
              + msg[..StringX.CStrLen(msg[..])])
    {
      ghost var n := StringX.CStrLen(msg[..]);
      assert msg[..][n] == 0;
      var h := EncodeHeader(Header(hwidFlash, 0, MsgTypeRadioOut, MsgAscii));
      forall k | 0 <= k < HeaderSize {
        printBuf[k] := h[k];
      }
      assert msg[n] == 0;
      var len := StringX.StrCpyLenX(printBuf, HeaderSize, msg);
      assert printBuf[..HeaderSize] == h;
      assert printBuf[HeaderSize..HeaderSize + len] == msg[..len];
      PrefixOfRuns(printBuf[..], HeaderSize, HeaderSize + len, h, msg[..len]);
      SendMessage(printBuf, len + HeaderSize);
    }
  }
}

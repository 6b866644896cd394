/** The per-datagram work of the receive loop: decode the fixed-offset float
    arguments, append them to the accumulator, and when it is full write the
    blob-size field and the blob into out_buf and emit the packet. */
module Relay {
  import opened Results
  import opened Bytes
  import opened Osc
  import opened Layout
  import opened OutboundPrefix
  import opened Chunking
  import opened Arith

  /** What one recvfrom call into recv_buf yields: a failure, or the bytes received. */
  datatype Datagram = RecvFailed | Received(bytes: seq<byte>)

  /** Capacity of recv_buf, the most recvfrom hands over from one datagram. */
  const RECV_BUF_BYTES: nat := 2048

  /** recvfrom into recv_buf: a datagram longer than the buffer is cut to its
      first RECV_BUF_BYTES bytes and the rest is discarded. */
  function Receive(wire: Option<seq<byte>>): (d: Datagram)
    ensures d.RecvFailed? <==> wire.None?
    ensures d.Received? ==> |d.bytes| <= RECV_BUF_BYTES && d.bytes <= wire.value
    ensures d.Received? && |wire.value| <= RECV_BUF_BYTES ==> d.bytes == wire.value
    ensures d.Received? && |wire.value| > RECV_BUF_BYTES ==> d.bytes == wire.value[..RECV_BUF_BYTES]
  {
    match wire
    case None => RecvFailed
    case Some(p) => Received(if |p| <= RECV_BUF_BYTES then p else p[..RECV_BUF_BYTES])
  }

  /** The inbound decoder: the argument bytes of a datagram long enough to hold
      them, taken at the fixed offset without looking at the address or the
      type tags. */
  function Decode(L: PacketLayout, d: Datagram): (r: Option<seq<byte>>)
    requires L.WellFormed()
    ensures r.Some? <==> d.Received? && |d.bytes| >= L.inMinBytes
    ensures r.Some? ==> |r.value| == L.inArgsBytes
  {
    if d.RecvFailed? || |d.bytes| == 0 then None
    else if |d.bytes| < L.inMinBytes then None
    else Some(d.bytes[L.inArgsOffset..L.inArgsOffset + L.inArgsBytes])
  }

  /** A well-formed inbound message decodes to exactly its argument bytes,
      whatever follows it, provided its type-tag block has the length of ",fff"
      that the fixed offset assumes. */
  lemma DecodeFloatMessage(s: Shape, L: PacketLayout, args: seq<byte>, trailing: seq<byte>)
    requires s.Valid() && Startup(s) == Success(L)
    requires |args| == 4 * s.floatsPerRead
    requires |OscString(FloatTags(s.floatsPerRead))| == |OscString(FLOAT3_TAGS)|
    ensures Decode(L, Received(EncodeFloatMessage(s.inAddress, args) + trailing)) == Some(args)
  {
    var header := OscString(s.inAddress) + OscString(FloatTags(|args| / 4));
    var p := EncodeFloatMessage(s.inAddress, args) + trailing;
    assert p == header + args + trailing;
    assert p[|header|..|header| + |args|] == args;
  }

  /** The decoder reads nothing but the length and the argument window: two
      datagrams that agree there decode alike, whatever their headers hold. */
  lemma DecodeIgnoresHeader(L: PacketLayout, p: seq<byte>, q: seq<byte>)
    requires L.WellFormed() && |p| == |q|
    requires |p| >= L.inMinBytes ==>
               p[L.inArgsOffset..L.inArgsOffset + L.inArgsBytes]
               == q[L.inArgsOffset..L.inArgsOffset + L.inArgsBytes]
    ensures Decode(L, Received(p)) == Decode(L, Received(q))
  {
  }

  /** Through recv_buf, a datagram on the wire is accepted exactly when it is
      long enough and the layout's minimum fits the buffer; the argument bytes
      taken are the wire datagram's own. */
  lemma DecodeReceived(L: PacketLayout, p: seq<byte>)
    requires L.WellFormed()
    ensures Decode(L, Receive(Some(p))).Some? <==> L.inMinBytes <= |p| && L.inMinBytes <= RECV_BUF_BYTES
    ensures Decode(L, Receive(Some(p))).Some? ==>
              Decode(L, Receive(Some(p))).value == p[L.inArgsOffset..L.inArgsOffset + L.inArgsBytes]
  {
    var d := Receive(Some(p));
    if |p| > RECV_BUF_BYTES {
      assert |d.bytes| == RECV_BUF_BYTES;
      if L.inMinBytes <= RECV_BUF_BYTES {
        assert d.bytes[L.inArgsOffset..L.inArgsOffset + L.inArgsBytes]
               == p[L.inArgsOffset..L.inArgsOffset + L.inArgsBytes];
      }
    }
  }

  /** accum, the write cursor wptr - accum, and out_buf. */
  datatype RelayState = RelayState(accum: seq<byte>, cursor: nat, outBuf: seq<byte>)
  {
    /** What holds at the top of every loop iteration: the buffers have their
        allocated sizes and the cursor sits on a block boundary short of wend. */
    predicate Inv(L: PacketLayout) {
      && L.WellFormed()
      && |accum| == L.accumBytes && |outBuf| == L.outBufBytes
      && cursor < L.accumBytes && cursor % L.inArgsBytes == 0
    }
  }

  /** The state on entry to the loop: accum as the stack left it, the cursor at
      its start, and out_buf holding the prefix over whatever it held before. */
  function Start(s: Shape, L: PacketLayout, accum0: seq<byte>, outBuf0: seq<byte>): (st: RelayState)
    requires s.Valid() && Startup(s) == Success(L)
    requires |accum0| == L.accumBytes && |outBuf0| == L.outBufBytes
    ensures st.Inv(L) && st.cursor == 0
    ensures st.outBuf[..L.blobSizeOffset] == OutPrefix(s.outAddress)
  {
    assert L.WellFormed();
    assert L.inArgsBytes <= L.accumBytes by {
      MulLeq(1, L.readsPerBlob, L.inArgsBytes);
    }
    assert 0 % L.inArgsBytes == 0;
    var st := RelayState(accum0, 0, InitOutBuf(s, L, outBuf0));
    assert |st.accum| == L.accumBytes;
    assert |st.outBuf| == L.outBufBytes;
    st
  }

  /** A cursor on a block boundary short of the end has room for one more block,
      and stays on a boundary after it. */
  lemma NextSlot(c: nat, a: nat, n: nat)
    requires a > 0 && c % a == 0 && c < a * n
    ensures c + a <= a * n && (c + a) % a == 0
  {
    var k := c / a;
    assert c == k * a;
    if n <= k {
      MulLeq(n, k, a);
    }
    MulLeq(k + 1, n, a);
    assert (k + 1) * a == c + a;
    DivModUnique(k + 1, 0, a);
  }

  /** The accumulator after one append: the block copied in at the cursor. */
  function Append(accum: seq<byte>, cursor: nat, args: seq<byte>): (r: seq<byte>)
    requires cursor + |args| <= |accum|
    ensures |r| == |accum|
    ensures r[..cursor + |args|] == accum[..cursor] + args
    ensures r[cursor + |args|..] == accum[cursor + |args|..]
  {
    var r := Overwrite(accum, cursor, args);
    assert r[..cursor + |args|] == r[..cursor] + r[cursor..cursor + |args|];
    r
  }

  /** The outbound encoder: out_buf after the blob-size field and the full
      accumulator are written behind the prefix. */
  function Flush(L: PacketLayout, outBuf: seq<byte>, accum: seq<byte>): (r: seq<byte>)
    requires L.WellFormed() && |outBuf| == L.outBufBytes && |accum| == L.blobBytes
    ensures |r| == |outBuf|
    ensures r[..L.blobSizeOffset] == outBuf[..L.blobSizeOffset]
    ensures r[..L.outPacketBytes] == outBuf[..L.blobSizeOffset] + BigEndian32(L.blobBytes) + accum
    ensures r[L.outPacketBytes..] == outBuf[L.outPacketBytes..]
  {
    var withSize := Overwrite(outBuf, L.blobSizeOffset, BigEndian32(L.blobBytes));
    var r := Overwrite(withSize, L.blobDataOffset, accum);
    assert r[..L.outPacketBytes]
           == r[..L.blobSizeOffset] + r[L.blobSizeOffset..L.blobDataOffset]
              + r[L.blobDataOffset..L.outPacketBytes];
    assert r[..L.blobSizeOffset] == withSize[..L.blobSizeOffset];
    assert r[L.blobSizeOffset..L.blobDataOffset] == withSize[L.blobSizeOffset..L.blobDataOffset];
    r
  }

  /** The outcome of one loop iteration: the new state and the packet sent, if any. */
  datatype StepResult = StepResult(state: RelayState, emitted: Option<seq<byte>>)

  /** One iteration of the receive loop after recvfrom has returned. */
  function Step(L: PacketLayout, st: RelayState, d: Datagram): (r: StepResult)
    requires st.Inv(L)
    ensures r.state.Inv(L)
    ensures Decode(L, d).None? ==> r == StepResult(st, None)
    ensures Decode(L, d).Some? ==>
              var args := Decode(L, d).value;
              var end := st.cursor + L.inArgsBytes;
              && end <= L.accumBytes
              && r.state.accum[..end] == st.accum[..st.cursor] + args
              && r.state.accum[end..] == st.accum[end..]
              && (end < L.accumBytes ==>
                    r == StepResult(RelayState(r.state.accum, end, st.outBuf), None))
              && (end == L.accumBytes ==>
                    && r.state.cursor == 0
                    && r.emitted == Some(st.outBuf[..L.blobSizeOffset]
                                         + BigEndian32(L.blobBytes) + r.state.accum)
                    && r.state.outBuf[..L.outPacketBytes] == r.emitted.value
                    && r.state.outBuf[L.outPacketBytes..] == st.outBuf[L.outPacketBytes..])
    ensures r.state.outBuf[..L.blobSizeOffset] == st.outBuf[..L.blobSizeOffset]
  {
    match Decode(L, d)
    case None => StepResult(st, None)
    case Some(args) =>
      NextSlot(st.cursor, L.inArgsBytes, L.readsPerBlob);
      var accum := Append(st.accum, st.cursor, args);
      var cursor := st.cursor + L.inArgsBytes;
      if cursor == L.accumBytes then
        var outBuf := Flush(L, st.outBuf, accum);
        var next := RelayState(accum, 0, outBuf);
        assert 0 % L.inArgsBytes == 0;
        assert next.Inv(L);
        StepResult(next, Some(outBuf[..L.outPacketBytes]))
      else
        var next := RelayState(accum, cursor, st.outBuf);
        assert cursor % L.inArgsBytes == 0 && cursor < L.accumBytes;
        assert next.Inv(L);
        StepResult(next, None)
  }

  /** The state after a finite run of datagrams and the packets sent, in order. */
  datatype RunResult = RunResult(state: RelayState, packets: seq<seq<byte>>)

  /** The receive loop over a finite sequence of datagrams. */
  function Run(L: PacketLayout, st: RelayState, ds: seq<Datagram>): (r: RunResult)
    requires st.Inv(L)
    ensures r.state.Inv(L)
    ensures r.state.outBuf[..L.blobSizeOffset] == st.outBuf[..L.blobSizeOffset]
    ensures forall k | 0 <= k < |r.packets| :: |r.packets[k]| == L.outPacketBytes
    decreases |ds|
  {
    if ds == [] then RunResult(st, [])
    else Extend(L, Run(L, st, ds[..|ds| - 1]), ds[|ds| - 1])
  }

  /** One more iteration of the loop after a run: the step's state, and its
      packet, if any, sent after the earlier ones. */
  function Extend(L: PacketLayout, prev: RunResult, d: Datagram): (r: RunResult)
    requires prev.state.Inv(L)
    ensures r.state.Inv(L)
    ensures r.state.outBuf[..L.blobSizeOffset] == prev.state.outBuf[..L.blobSizeOffset]
    ensures |prev.packets| <= |r.packets| <= |prev.packets| + 1 && r.packets[..|prev.packets|] == prev.packets
  {
    var step := Step(L, prev.state, d);
    RunResult(step.state, prev.packets + if step.emitted.Some? then [step.emitted.value] else [])
  }

  /** The argument blocks of the datagrams the decoder accepts, in arrival order. */
  function Accepted(L: PacketLayout, ds: seq<Datagram>): (r: seq<seq<byte>>)
    requires L.WellFormed()
    ensures |r| <= |ds|
    ensures forall i | 0 <= i < |r| :: |r[i]| == L.inArgsBytes
    decreases |ds|
  {
    if ds == [] then []
    else
      var prev := Accepted(L, ds[..|ds| - 1]);
      match Decode(L, ds[|ds| - 1])
      case None => prev
      case Some(args) => prev + [args]
  }

  /** The packets due for the given groups of argument blocks: prefix, blob
      size, then the group's blocks in order. */
  function Packets(L: PacketLayout, address: seq<byte>, groups: seq<seq<seq<byte>>>): (r: seq<seq<byte>>)
    requires L.WellFormed()
    ensures |r| == |groups|
    ensures forall k | 0 <= k < |r| ::
              r[k] == OutPrefix(address) + BigEndian32(L.blobBytes) + Concat(groups[k])
    decreases |groups|
  {
    if groups == [] then []
    else
      Packets(L, address, groups[..|groups| - 1])
        + [OutPrefix(address) + BigEndian32(L.blobBytes) + Concat(groups[|groups| - 1])]
  }

  /** What a run from the loop's entry state has done: one packet per complete
      group of readsPerBlob accepted blocks, in arrival order; the accumulator
      holds the blocks of the incomplete group; the prefix of out_buf is intact. */
  ghost predicate RelayedInOrder(s: Shape, L: PacketLayout, st: RelayState, ds: seq<Datagram>)
    requires st.Inv(L)
  {
    var r := Run(L, st, ds);
    var A := Accepted(L, ds);
    && r.packets == Packets(L, s.outAddress, Chunks(A, L.readsPerBlob))
    && r.state.cursor == |Leftover(A, L.readsPerBlob)| * L.inArgsBytes
    && r.state.accum[..r.state.cursor] == Concat(Leftover(A, L.readsPerBlob))
    && r.state.outBuf[..L.blobSizeOffset] == OutPrefix(s.outAddress)
  }

  /** A rejected datagram keeps RelayedInOrder. */
  lemma RelayedInOrderRejected(s: Shape, L: PacketLayout, st: RelayState, ds: seq<Datagram>, d: Datagram)
    requires st.Inv(L) && RelayedInOrder(s, L, st, ds) && Decode(L, d).None?
    ensures RelayedInOrder(s, L, st, ds + [d])
  {
    var x := ds + [d];
    assert x[..|x| - 1] == ds && x[|x| - 1] == d;
    assert Accepted(L, x) == Accepted(L, ds);
    RunRejectedLast(L, st, ds, d);
  }

  /** An accepted block that does not complete a group is appended behind the
      group so far, and nothing is sent. */
  lemma StepAppendsBlock(L: PacketLayout, st: RelayState, d: Datagram, lo: seq<seq<byte>>)
    requires st.Inv(L) && Decode(L, d).Some?
    requires |lo| + 1 < L.readsPerBlob
    requires st.cursor == |lo| * L.inArgsBytes && st.accum[..st.cursor] == Concat(lo)
    ensures var r, args := Step(L, st, d), Decode(L, d).value;
            && r.emitted.None?
            && r.state.cursor == |lo + [args]| * L.inArgsBytes
            && r.state.accum[..r.state.cursor] == Concat(lo + [args])
            && r.state.outBuf == st.outBuf
  {
    var args, a := Decode(L, d).value, L.inArgsBytes;
    NextBlockFills(|lo|, L.readsPerBlob, a);
    assert st.cursor + a < L.accumBytes;
    assert Concat(lo + [args]) == Concat(lo) + args by {
      assert (lo + [args])[..|lo|] == lo;
    }
  }

  /** An accepted block that completes a group sends the prefix, the blob size
      and the whole group, and puts the cursor back at the start. */
  lemma StepFlushesGroup(L: PacketLayout, st: RelayState, d: Datagram, lo: seq<seq<byte>>)
    requires st.Inv(L) && Decode(L, d).Some?
    requires |lo| + 1 == L.readsPerBlob
    requires st.cursor == |lo| * L.inArgsBytes && st.accum[..st.cursor] == Concat(lo)
    ensures var r, args := Step(L, st, d), Decode(L, d).value;
            && r.emitted
               == Some(st.outBuf[..L.blobSizeOffset] + BigEndian32(L.blobBytes) + Concat(lo + [args]))
            && r.state.cursor == 0
  {
    var args, a := Decode(L, d).value, L.inArgsBytes;
    NextBlockFills(|lo|, L.readsPerBlob, a);
    assert st.cursor + a == L.accumBytes;
    assert Concat(lo + [args]) == Concat(lo) + args by {
      assert (lo + [args])[..|lo|] == lo;
    }
    var r := Step(L, st, d);
    assert r.state.accum == r.state.accum[..L.accumBytes];
  }

  /** An accepted datagram that does not fill the accumulator keeps RelayedInOrder. */
  lemma RelayedInOrderAppended(s: Shape, L: PacketLayout, st: RelayState, ds: seq<Datagram>, d: Datagram)
    requires st.Inv(L) && RelayedInOrder(s, L, st, ds) && Decode(L, d).Some?
    requires |Leftover(Accepted(L, ds), L.readsPerBlob)| + 1 < L.readsPerBlob
    ensures RelayedInOrder(s, L, st, ds + [d])
  {
    var x := ds + [d];
    var args := Decode(L, d).value;
    var A, n := Accepted(L, ds), L.readsPerBlob;
    var lo := Leftover(A, n);
    assert Accepted(L, x) == A + [args] by {
      assert x[..|x| - 1] == ds && x[|x| - 1] == d;
    }
    ChunksSnoc(A, args, n);
    var prev := Run(L, st, ds);
    StepAppendsBlock(L, prev.state, d, lo);
    RunLast(L, st, ds, d);
    assert prev.packets + [] == prev.packets;
  }

  /** An accepted datagram that fills the accumulator sends the packet of the
      completed group and keeps RelayedInOrder. */
  lemma RelayedInOrderFlushed(s: Shape, L: PacketLayout, st: RelayState, ds: seq<Datagram>, d: Datagram)
    requires st.Inv(L) && RelayedInOrder(s, L, st, ds) && Decode(L, d).Some?
    requires |Leftover(Accepted(L, ds), L.readsPerBlob)| + 1 == L.readsPerBlob
    ensures RelayedInOrder(s, L, st, ds + [d])
  {
    var x := ds + [d];
    var args := Decode(L, d).value;
    var A, n := Accepted(L, ds), L.readsPerBlob;
    var lo := Leftover(A, n);
    assert Accepted(L, x) == A + [args] by {
      assert x[..|x| - 1] == ds && x[|x| - 1] == d;
    }
    ChunksSnoc(A, args, n);
    var prev := Run(L, st, ds);
    StepFlushesGroup(L, prev.state, d, lo);
    RunLast(L, st, ds, d);
    var groups := Chunks(A, n);
    var packet := OutPrefix(s.outAddress) + BigEndian32(L.blobBytes) + Concat(lo + [args]);
    assert Run(L, st, x).packets == prev.packets + [packet];
    assert |Leftover(Accepted(L, x), n)| * L.inArgsBytes == 0;
    assert (groups + [lo + [args]])[..|groups|] == groups;
    assert Packets(L, s.outAddress, groups + [lo + [args]])
           == Packets(L, s.outAddress, groups) + [packet];
  }

  /** From the loop's entry state, every run has relayed in order. */
  lemma {:induction false} RunRelaysInOrder(s: Shape, L: PacketLayout, st: RelayState, ds: seq<Datagram>)
    requires s.Valid() && Startup(s) == Success(L)
    requires st.Inv(L) && st.cursor == 0
    requires st.outBuf[..L.blobSizeOffset] == OutPrefix(s.outAddress)
    ensures var r := Run(L, st, ds);
            var A := Accepted(L, ds);
            && r.packets == Packets(L, s.outAddress, Chunks(A, L.readsPerBlob))
            && r.state.cursor == |Leftover(A, L.readsPerBlob)| * L.inArgsBytes
            && r.state.accum[..r.state.cursor] == Concat(Leftover(A, L.readsPerBlob))
            && r.state.outBuf[..L.blobSizeOffset] == OutPrefix(s.outAddress)
    decreases |ds|
  {
    if ds == [] {
      assert RelayedInOrder(s, L, st, ds);
    } else {
      var ds', d := ds[..|ds| - 1], ds[|ds| - 1];
      assert ds == ds' + [d];
      RunRelaysInOrder(s, L, st, ds');
      assert RelayedInOrder(s, L, st, ds');
      if Decode(L, d).None? {
        RelayedInOrderRejected(s, L, st, ds', d);
      } else if |Leftover(Accepted(L, ds'), L.readsPerBlob)| + 1 < L.readsPerBlob {
        RelayedInOrderAppended(s, L, st, ds', d);
      } else {
        RelayedInOrderFlushed(s, L, st, ds', d);
      }
      assert RelayedInOrder(s, L, st, ds);
    }
  }

  /** A rejected datagram at the end of a run changes neither state nor packets. */
  lemma RunRejectedLast(L: PacketLayout, st: RelayState, ds: seq<Datagram>, d: Datagram)
    requires st.Inv(L) && Decode(L, d).None?
    ensures Run(L, st, ds + [d]) == Run(L, st, ds)
  {
    var x := ds + [d];
    assert x[..|x| - 1] == ds && x[|x| - 1] == d;
    var prev := Run(L, st, ds);
    assert prev.packets + [] == prev.packets;
  }

  /** The run over one more datagram extends the run so far. */
  lemma RunLast(L: PacketLayout, st: RelayState, xs: seq<Datagram>, e: Datagram)
    requires st.Inv(L)
    ensures Run(L, st, xs + [e]) == Extend(L, Run(L, st, xs), e)
  {
    var x := xs + [e];
    assert x[..|x| - 1] == xs && x[|x| - 1] == e;
  }

  /** Runs that agree keep agreeing when the same datagram arrives next. */
  lemma RunSameNext(L: PacketLayout, st: RelayState, xs: seq<Datagram>, ys: seq<Datagram>, e: Datagram)
    requires st.Inv(L) && Run(L, st, xs) == Run(L, st, ys)
    ensures Run(L, st, xs + [e]) == Run(L, st, ys + [e])
  {
    RunLast(L, st, xs, e);
    RunLast(L, st, ys, e);
  }

  /** A datagram the decoder rejects leaves no trace: the run with it and the
      run without it end in the same state having sent the same packets. */
  lemma {:induction false} RejectedLeavesNoTrace(L: PacketLayout, st: RelayState, before: seq<Datagram>,
                                                  d: Datagram, after: seq<Datagram>)
    requires st.Inv(L) && Decode(L, d).None?
    ensures Run(L, st, before + [d] + after) == Run(L, st, before + after)
    decreases |after|
  {
    if after == [] {
      assert before + [d] + after == before + [d];
      assert before + after == before;
      RunRejectedLast(L, st, before, d);
    } else {
      var after', e := after[..|after| - 1], after[|after| - 1];
      assert after == after' + [e];
      RejectedLeavesNoTrace(L, st, before, d, after');
      Regroup(before, [d], after', e);
      Regroup(before, [], after', e);
      assert before + [] == before;
      RunSameNext(L, st, before + [d] + after', before + after', e);
    }
  }

  /** Appending after a concatenation of three. */
  lemma Regroup<T>(a: seq<T>, b: seq<T>, c: seq<T>, e: T)
    ensures a + b + (c + [e]) == (a + b + c) + [e]
  {
  }

  /** A group of readsPerBlob accepted blocks fills exactly one blob. */
  lemma GroupFillsBlob(L: PacketLayout, A: seq<seq<byte>>, k: nat)
    requires L.WellFormed()
    requires forall i | 0 <= i < |A| :: |A[i]| == L.inArgsBytes
    requires k < |Chunks(A, L.readsPerBlob)|
    ensures var n := L.readsPerBlob;
            && k * n + n <= |A|
            && Chunks(A, n)[k] == A[k * n..k * n + n]
            && |Concat(Chunks(A, n)[k])| == L.blobBytes
  {
    var n := L.readsPerBlob;
    ChunkAt(A, n, k);
    var first := k * n;
    var group := Chunks(A, n)[k];
    assert group == A[first..first + n];
    assert forall i | 0 <= i < |group| :: |group[i]| == L.inArgsBytes by {
      forall i | 0 <= i < |group|
        ensures |group[i]| == L.inArgsBytes
      {
        assert group[i] == A[first + i];
      }
    }
    ConcatUniform(group, L.inArgsBytes);
    assert |group| == n;
    assert n * L.inArgsBytes == L.inArgsBytes * n;
  }

  /** The packet the relay sends for a blob's worth of data is the OSC
      encoding of the blob message at the outbound address. */
  lemma PacketIsBlobMessage(L: PacketLayout, address: seq<byte>, data: seq<byte>)
    requires L.WellFormed() && |data| == L.blobBytes
    ensures OutPrefix(address) + BigEndian32(L.blobBytes) + data
            == EncodeBlobMessage(BlobMessage(address, data))
  {
    assert BlobPadding(|data|) == 0;
  }

  /** The packet for group k of the accepted blocks parses back to the blob
      message carrying blocks first .. first + R - 1 (R = readsPerBlob,
      first = k*R) laid end to end. */
  lemma GroupPacketParses(L: PacketLayout, address: seq<byte>, A: seq<seq<byte>>, k: nat, first: nat)
    requires L.WellFormed() && IsCString(address)
    requires forall i | 0 <= i < |A| :: |A[i]| == L.inArgsBytes
    requires k < |Chunks(A, L.readsPerBlob)| && first == k * L.readsPerBlob
    ensures first + L.readsPerBlob <= |A|
    ensures ParseBlobMessage(OutPrefix(address) + BigEndian32(L.blobBytes)
                             + Concat(Chunks(A, L.readsPerBlob)[k]))
            == Some(BlobMessage(address, Concat(A[first..first + L.readsPerBlob])))
  {
    GroupFillsBlob(L, A, k);
    var group := Chunks(A, L.readsPerBlob)[k];
    var m := BlobMessage(address, Concat(group));
    PacketIsBlobMessage(L, address, m.blob);
    BlobMessageRoundTrip(m);
  }

  /** Packet k of a run from the loop's entry state is the OSC blob message
      at the outbound address whose blob is accepted blocks k*R .. k*R + R - 1
      (R = readsPerBlob, first = k*R) laid end to end. */
  lemma PacketCarriesGroup(s: Shape, L: PacketLayout, st: RelayState, ds: seq<Datagram>,
                           k: nat, first: nat)
    requires s.Valid() && Startup(s) == Success(L)
    requires st.Inv(L) && st.cursor == 0
    requires st.outBuf[..L.blobSizeOffset] == OutPrefix(s.outAddress)
    requires k < |Run(L, st, ds).packets| && first == k * L.readsPerBlob
    ensures var A, n := Accepted(L, ds), L.readsPerBlob;
            && first + n <= |A|
            && ParseBlobMessage(Run(L, st, ds).packets[k])
               == Some(BlobMessage(s.outAddress, Concat(A[first..first + n])))
  {
    var A, n := Accepted(L, ds), L.readsPerBlob;
    var packets := Run(L, st, ds).packets;
    RunRelaysInOrder(s, L, st, ds);
    var groups := Chunks(A, n);
    assert packets == Packets(L, s.outAddress, groups);
    assert packets[k] == OutPrefix(s.outAddress) + BigEndian32(L.blobBytes) + Concat(groups[k]);
    GroupPacketParses(L, s.outAddress, A, k, first);
  }

  /** A run that has accepted exactly readsPerBlob blocks has sent exactly one
      packet, carrying those blocks, and its cursor is back at the start. */
  lemma OneGroupOnePacket(s: Shape, L: PacketLayout, st: RelayState, ds: seq<Datagram>)
    requires s.Valid() && Startup(s) == Success(L)
    requires st.Inv(L) && st.cursor == 0
    requires st.outBuf[..L.blobSizeOffset] == OutPrefix(s.outAddress)
    requires |Accepted(L, ds)| == L.readsPerBlob
    ensures Run(L, st, ds).packets
            == [OutPrefix(s.outAddress) + BigEndian32(L.blobBytes) + Concat(Accepted(L, ds))]
    ensures Run(L, st, ds).state.cursor == 0
  {
    var A, n := Accepted(L, ds), L.readsPerBlob;
    RunRelaysInOrder(s, L, st, ds);
    assert A[..n] == A && A[n..] == [];
    assert Chunks(A[n..], n) == [] && Leftover(A[n..], n) == [];
    assert Chunks(A, n) == [A];
    assert Leftover(A, n) == [];
    var groups: seq<seq<seq<byte>>> := [A];
    assert groups[..0] == [];
  }

  /** From startup, one packet is sent per readsPerBlob accepted datagrams, and
      the cursor holds the blocks of the accepted datagrams left over. */
  lemma FlushCadence(s: Shape, L: PacketLayout, accum0: seq<byte>, outBuf0: seq<byte>,
                     ds: seq<Datagram>)
    requires s.Valid() && Startup(s) == Success(L)
    requires |accum0| == L.accumBytes && |outBuf0| == L.outBufBytes
    ensures var r := Run(L, Start(s, L, accum0, outBuf0), ds);
            var A := Accepted(L, ds);
            && |r.packets| == |A| / L.readsPerBlob
            && r.state.cursor == (|A| % L.readsPerBlob) * L.inArgsBytes
  {
    var st := Start(s, L, accum0, outBuf0);
    var A := Accepted(L, ds);
    var n := L.readsPerBlob;
    var c, l := |Chunks(A, n)|, |Leftover(A, n)|;
    RunRelaysInOrder(s, L, st, ds);
    var r := Run(L, st, ds);
    assert |r.packets| == c;
    assert r.state.cursor == l * L.inArgsBytes;
    ChunkCount(A, n);
    DivModUnique(c, l, n);
    assert |A| / n == c && |A| % n == l;
  }
}

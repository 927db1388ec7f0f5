/**
 The chip's receive and transmit rings: power-of-two memories behind 16-bit pointers that only
 ever count up and wrap. Each ring is related to an unbounded byte stream.
 */
module Rings {
  import opened Words

  /** Ring sizes: proper divisors of 2^16, so that wrapped pointers keep their ring address. */
  ghost predicate RingSize(n: int) {
    0 < n < U16 && U16 % n == 0
  }

  lemma WrapKeepsAddress(k: int, n: int)
    requires RingSize(n)
    ensures Wrap16(k) % n == k % n
  {
    var q := U16 / n;
    assert U16 == q * n;
    var m := k / U16;
    assert k == m * U16 + Wrap16(k);
    assert k == (m * q) * n + Wrap16(k);
    AddMultiple(Wrap16(k), m * q, n);
  }

  lemma AddMultiple(a: int, m: int, n: int)
    requires n > 0
    ensures (a + m * n) % n == a % n
  {
    var q, r := a / n, a % n;
    assert a + m * n == (q + m) * n + r;
    UniqueRemainder(a + m * n, n, q + m, r);
  }

  lemma UniqueRemainder(a: int, n: int, q: int, r: int)
    requires 0 <= r < n && a == q * n + r
    ensures a % n == r
  {
    var d := a / n - q;
    assert d * n == r - a % n;
    assert d == 0 by {
      if d >= 1 {
        MulGrows(d, n);
        assert false;
      } else if d <= -1 {
        MulGrows(-d, n);
        assert false;
      }
    }
  }

  lemma MulGrows(d: int, n: int)
    requires d >= 1 && n > 0
    ensures d * n >= n
  {
  }

  /** Ring memory after `data` is written byte by byte from address `p` on. */
  function Store(mem: seq<byte>, p: int, data: seq<byte>): (m: seq<byte>)
    requires 0 < |mem| && |data| <= |mem|
    ensures |m| == |mem|
  {
    seq(|mem|, j requires 0 <= j < |mem| =>
      if Slot(p, j, |mem|) < |data| then data[Slot(p, j, |mem|)] else mem[j])
  }

  /** How far address `j` of a ring of `n` bytes lies after pointer `p`. */
  function Slot(p: int, j: int, n: nat): nat
    requires n > 0
  {
    (j - p) % n
  }

  /** `n` bytes read one by one from pointer `p` on. */
  function Load(mem: seq<byte>, p: int, n: nat): (s: seq<byte>)
    requires RingSize(|mem|)
    ensures |s| == n
  {
    seq(n, i requires 0 <= i < n => mem[Wrap16(p + i) % |mem|])
  }

  /** Ring memory holds the bytes of `stream` at positions `from` up to `to`. */
  ghost predicate HoldsStream(mem: seq<byte>, stream: seq<byte>, from: nat, to: nat)
    requires 0 < |mem|
  {
    && from <= to <= |stream|
    && to - from <= |mem|
    && forall k {:trigger stream[k]} | from <= k < to :: mem[k % |mem|] == stream[k]
  }

  lemma StoreAt(mem: seq<byte>, p: int, data: seq<byte>, k: int)
    requires 0 < |mem| && |data| <= |mem|
    requires p <= k < p + |mem|
    ensures Store(mem, p, data)[k % |mem|] == if k < p + |data| then data[k - p] else mem[k % |mem|]
  {
    var n := |mem|;
    var q := k / n;
    AddMultiple(k - p, -q, n);
    assert k % n - p == k - p + -q * n;
    assert (k % n - p) % n == (k - p) % n;
    AddMultiple(k - p, 0, n);
    UniqueRemainder(k - p, n, 0, k - p);
  }

  lemma SlotWraps(p: int, j: int, n: nat)
    requires RingSize(n)
    ensures Slot(Wrap16(p), j, n) == Slot(p, j, n)
  {
    var m, q := p / U16, U16 / n;
    assert p == m * U16 + Wrap16(p);
    assert U16 == q * n;
    assert m * U16 == (m * q) * n;
    AddMultiple(j - p, m * q, n);
  }

  lemma StoreWraps(mem: seq<byte>, p: int, data: seq<byte>)
    requires RingSize(|mem|) && |data| <= |mem|
    ensures Store(mem, Wrap16(p), data) == Store(mem, p, data)
  {
    forall j {:trigger Slot(p, j, |mem|)} | 0 <= j < |mem|
      ensures Slot(Wrap16(p), j, |mem|) == Slot(p, j, |mem|)
    {
      SlotWraps(p, j, |mem|);
    }
    hide Slot;
  }

  /** Storing the next bytes of a stream extends what the ring holds. */
  lemma StoreExtends(mem: seq<byte>, stream: seq<byte>, from: nat, to: nat, n: nat)
    requires RingSize(|mem|) && HoldsStream(mem, stream, from, to)
    requires to + n <= |stream| && to + n - from <= |mem|
    ensures HoldsStream(Store(mem, Wrap16(to), stream[to..to + n]), stream, from, to + n)
  {
    var data := stream[to..to + n];
    StoreWraps(mem, to, data);
    var m := Store(mem, to, data);
    forall k {:trigger stream[k]} | from <= k < to + n
      ensures m[k % |mem|] == stream[k]
    {
      if k < to {
        AddMultiple(k, 1, |mem|);
        StoreAt(mem, to, data, k + |mem|);
      } else {
        StoreAt(mem, to, data, k);
      }
    }
  }

  lemma WrapTwice(p: int, i: int)
    ensures Wrap16(Wrap16(p) + i) == Wrap16(p + i)
  {
  }

  lemma SubWraps(a: nat, n: nat)
    requires n < U16
    ensures Sub16(Wrap16(a + n), Wrap16(a)) == n
  {
  }

  lemma LoadStream(mem: seq<byte>, stream: seq<byte>, from: nat, to: nat, p: nat, n: nat)
    requires RingSize(|mem|) && HoldsStream(mem, stream, from, to)
    requires from <= p && p + n <= to
    ensures Load(mem, Wrap16(p), n) == stream[p..p + n]
  {
    forall i | 0 <= i < n
      ensures Load(mem, Wrap16(p), n)[i] == stream[p + i]
    {
      WrapTwice(p, i);
      WrapKeepsAddress(p + i, |mem|);
      hide Wrap16;
    }
  }

  // ---- Receive ring ----

  /**
   `rd` is the read pointer register as the host last wrote it, `base` its value at the last
   RECV command, and `wr` the chip's own write pointer.
   */
  datatype Rx = Rx(mem: seq<byte>, rd: u16, base: u16, wr: u16) {

    /** Sn_RX_RSR: bytes received and not yet released. */
    function Pending(): u16 {
      Sub16(wr, base)
    }

    function Arrive(data: seq<byte>): Rx
      requires 0 < |mem| && |data| <= |mem|
    {
      this.(mem := Store(mem, wr, data), wr := Wrap16(wr + |data|))
    }

    function Peek(n: nat): seq<byte>
      requires RingSize(|mem|)
    {
      Load(mem, rd, n)
    }

    function MoveTo(p: u16): Rx {
      this.(rd := p)
    }

    /** The RECV command: the chip takes over the read pointer. */
    function Recv(): Rx {
      this.(base := rd)
    }

    /** The ring holds `stream` from position `taken`, the first unreleased byte, up to `end`. */
    ghost predicate Holds(stream: seq<byte>, taken: nat, end: nat) {
      && RingSize(|mem|)
      && HoldsStream(mem, stream, taken, end)
      && base == Wrap16(taken)
      && wr == Wrap16(end)
    }
  }

  lemma RxPending(rx: Rx, stream: seq<byte>, taken: nat, end: nat)
    requires rx.Holds(stream, taken, end)
    ensures rx.Pending() == end - taken
  {
    assert end == taken + (end - taken) && end - taken < U16;
    hide HoldsStream, Wrap16, Sub16;
    SubWraps(taken, end - taken);
  }

  lemma RxArrives(rx: Rx, stream: seq<byte>, taken: nat, end: nat, n: nat)
    requires rx.Holds(stream, taken, end)
    requires end + n <= |stream| && end + n - taken <= |rx.mem|
    ensures rx.Arrive(stream[end..end + n]).Holds(stream, taken, end + n)
  {
    StoreExtends(rx.mem, stream, taken, end, n);
    WrapTwice(end, n);
  }

  lemma RxReleases(rx: Rx, stream: seq<byte>, taken: nat, end: nat, n: nat)
    requires rx.Holds(stream, taken, end)
    requires taken + n <= end && rx.rd == Wrap16(taken + n)
    ensures rx.Recv().Holds(stream, taken + n, end)
  {
  }

  lemma RxPeeks(rx: Rx, stream: seq<byte>, taken: nat, end: nat, n: nat)
    requires rx.Holds(stream, taken, end)
    requires taken + n <= end && rx.rd == Wrap16(taken)
    ensures rx.Peek(n) == stream[taken..taken + n]
  {
    LoadStream(rx.mem, stream, taken, end, taken, n);
  }

  // ---- Runs of the receive ring against a plain queue ----

  datatype RxOp = Arrive(n: nat) | Peek(n: nat) | Read(n: nat) | Skip(n: nat) | Flush

  datatype RxOut = Bytes(data: seq<byte>) | Nothing

  /** A plain queue of bytes; `gone` are the bytes delivered or skipped so far. */
  datatype Fifo = Fifo(gone: seq<byte>, queue: seq<byte>)

  /** What fits a ring of `size` bytes, and asks for no more than is pending. */
  predicate FifoAllows(f: Fifo, stream: seq<byte>, size: nat, op: RxOp) {
    && |f.gone| + |f.queue| <= |stream|
    && match op
    case Arrive(n) => |f.gone| + |f.queue| + n <= |stream| && |f.queue| + n <= size
    case Peek(n) => n <= |f.queue|
    case Read(n) => n <= |f.queue|
    case Skip(n) => n <= |f.queue|
    case Flush => true
  }

  function FifoStep(f: Fifo, stream: seq<byte>, size: nat, op: RxOp): (Fifo, RxOut)
    requires FifoAllows(f, stream, size, op)
  {
    var end := |f.gone| + |f.queue|;
    match op
    case Arrive(n) => (f.(queue := f.queue + stream[end..end + n]), Nothing)
    case Peek(n) => (f, Bytes(f.queue[..n]))
    case Read(n) => (Fifo(f.gone + f.queue[..n], f.queue[n..]), Bytes(f.queue[..n]))
    case Skip(n) => (Fifo(f.gone + f.queue[..n], f.queue[n..]), Nothing)
    case Flush => (Fifo(f.gone + f.queue, []), Nothing)
  }

  /** The same operation as the driver performs it on the ring; `end` counts the bytes arrived. */
  function RingStep(rx: Rx, stream: seq<byte>, end: nat, op: RxOp): (Rx, nat, RxOut)
    requires RingSize(|rx.mem|)
    requires op.Arrive? ==> end + op.n <= |stream| && op.n <= |rx.mem|
  {
    match op
    case Arrive(n) => (rx.Arrive(stream[end..end + n]), end + n, Nothing)
    case Peek(n) => (rx, end, Bytes(rx.Peek(n)))
    case Read(n) => (rx.MoveTo(Wrap16(rx.rd + n)).Recv(), end, Bytes(rx.Peek(n)))
    case Skip(n) => (rx.MoveTo(Wrap16(rx.rd + n)).Recv(), end, Nothing)
    case Flush => (rx.MoveTo(rx.wr).Recv(), end, Nothing)
  }

  /** Between operations: the ring stands for the queue. */
  ghost predicate Represents(rx: Rx, stream: seq<byte>, end: nat, f: Fifo) {
    && end == |f.gone| + |f.queue| <= |stream|
    && f.gone + f.queue == stream[..end]
    && rx.Holds(stream, |f.gone|, end)
    && rx.rd == rx.base
  }

  lemma RepresentsAt(rx: Rx, stream: seq<byte>, end: nat, f: Fifo)
    requires Represents(rx, stream, end, f)
    ensures f.gone == stream[..|f.gone|] && f.queue == stream[|f.gone|..end]
  {
    var all := f.gone + f.queue;
    assert f.gone == all[..|f.gone|] && f.queue == all[|f.gone|..];
  }

  lemma ReleaseRefines(rx: Rx, stream: seq<byte>, end: nat, f: Fifo, n: nat)
    requires Represents(rx, stream, end, f) && n <= |f.queue|
    ensures Represents(rx.MoveTo(Wrap16(rx.rd + n)).Recv(), stream, end, Fifo(f.gone + f.queue[..n], f.queue[n..]))
  {
    WrapTwice(|f.gone|, n);
    hide HoldsStream, Wrap16;
    RxReleases(rx.MoveTo(Wrap16(rx.rd + n)), stream, |f.gone|, end, n);
    assert f.gone + f.queue[..n] + f.queue[n..] == f.gone + f.queue;
  }

  lemma PeekRefines(rx: Rx, stream: seq<byte>, end: nat, f: Fifo, n: nat)
    requires Represents(rx, stream, end, f) && n <= |f.queue|
    ensures RingSize(|rx.mem|) && rx.Peek(n) == f.queue[..n]
  {
    RepresentsAt(rx, stream, end, f);
    hide HoldsStream;
    RxPeeks(rx, stream, |f.gone|, end, n);
  }

  lemma ArriveRefines(rx: Rx, stream: seq<byte>, end: nat, f: Fifo, n: nat)
    requires Represents(rx, stream, end, f) && FifoAllows(f, stream, |rx.mem|, Arrive(n))
    ensures RingSize(|rx.mem|) && end + n <= |stream| && n <= |rx.mem|
    ensures var (rx', end', _) := RingStep(rx, stream, end, Arrive(n));
      |rx'.mem| == |rx.mem| && Represents(rx', stream, end', FifoStep(f, stream, |rx.mem|, Arrive(n)).0)
  {
    RxArrives(rx, stream, |f.gone|, end, n);
    assert f.gone + (f.queue + stream[end..end + n]) == stream[..end + n];
  }

  lemma FlushRefines(rx: Rx, stream: seq<byte>, end: nat, f: Fifo)
    requires Represents(rx, stream, end, f)
    ensures RingSize(|rx.mem|)
    ensures var (rx', end', _) := RingStep(rx, stream, end, Flush);
      |rx'.mem| == |rx.mem| && Represents(rx', stream, end', FifoStep(f, stream, |rx.mem|, Flush).0)
  {
    RxPending(rx, stream, |f.gone|, end);
    WrapTwice(|f.gone|, |f.queue|);
    ReleaseRefines(rx, stream, end, f, |f.queue|);
  }

  lemma RingStepRefines(rx: Rx, stream: seq<byte>, end: nat, f: Fifo, op: RxOp)
    requires Represents(rx, stream, end, f) && FifoAllows(f, stream, |rx.mem|, op)
    ensures RingSize(|rx.mem|) && (op.Arrive? ==> end + op.n <= |stream| && op.n <= |rx.mem|)
    ensures var (rx', end', out) := RingStep(rx, stream, end, op);
      var (f', fout) := FifoStep(f, stream, |rx.mem|, op);
      out == fout && |rx'.mem| == |rx.mem| && Represents(rx', stream, end', f')
  {
    match op
    case Arrive(n) =>
      ArriveRefines(rx, stream, end, f, n);
    case Peek(n) =>
      PeekRefines(rx, stream, end, f, n);
    case Read(n) =>
      PeekRefines(rx, stream, end, f, n);
      ReleaseRefines(rx, stream, end, f, n);
    case Skip(n) =>
      ReleaseRefines(rx, stream, end, f, n);
    case Flush =>
      FlushRefines(rx, stream, end, f);
  }

  /** Every operation of a run is one the queue allows. */
  ghost predicate FifoAllowsAll(f: Fifo, stream: seq<byte>, size: nat, ops: seq<RxOp>)
    decreases |ops|
  {
    ops == [] || (
      && FifoAllows(f, stream, size, ops[0])
      && FifoAllowsAll(FifoStep(f, stream, size, ops[0]).0, stream, size, ops[1..]))
  }

  ghost function FifoRun(f: Fifo, stream: seq<byte>, size: nat, ops: seq<RxOp>): (Fifo, seq<RxOut>)
    requires FifoAllowsAll(f, stream, size, ops)
    decreases |ops|
  {
    if ops == [] then (f, [])
    else
      var (f', out) := FifoStep(f, stream, size, ops[0]);
      var (f'', outs) := FifoRun(f', stream, size, ops[1..]);
      (f'', [out] + outs)
  }

  /** The run on the ring; operations the ring has no meaning for stop it. */
  ghost function RingRun(rx: Rx, stream: seq<byte>, end: nat, ops: seq<RxOp>): (Rx, nat, seq<RxOut>)
    decreases |ops|
  {
    if ops == [] then (rx, end, [])
    else if !RingSize(|rx.mem|) || (ops[0].Arrive? && (end + ops[0].n > |stream| || ops[0].n > |rx.mem|)) then
      (rx, end, [])
    else
      var (rx', end', out) := RingStep(rx, stream, end, ops[0]);
      var (rx'', end'', outs) := RingRun(rx', stream, end', ops[1..]);
      (rx'', end'', [out] + outs)
  }

  /**
   Receive ring refines a FIFO: whatever the run and however often the pointers wrap, the ring
   answers as the queue does, and the bytes gone followed by the bytes still to be read from the
   ring are exactly the bytes that arrived.
   */
  lemma {:induction false} RingRefinesFifo(rx: Rx, stream: seq<byte>, end: nat, f: Fifo, ops: seq<RxOp>)
    requires Represents(rx, stream, end, f)
    requires FifoAllowsAll(f, stream, |rx.mem|, ops)
    ensures var (rx', end', outs) := RingRun(rx, stream, end, ops);
      var (f', fouts) := FifoRun(f, stream, |rx.mem|, ops);
      && outs == fouts
      && Represents(rx', stream, end', f')
      && f'.gone + rx'.Peek(rx'.Pending()) == stream[..end']
    decreases |ops|
  {
    if ops == [] {
      RxPending(rx, stream, |f.gone|, end);
      PeekRefines(rx, stream, end, f, |f.queue|);
    } else {
      RingStepRefines(rx, stream, end, f, ops[0]);
      var (rx', end', _) := RingStep(rx, stream, end, ops[0]);
      RingRefinesFifo(rx', stream, end', FifoStep(f, stream, |rx.mem|, ops[0]).0, ops[1..]);
    }
  }

  // ---- Transmit ring ----

  /**
   `rd` follows what has left on the wire. `base` is what a read of the write pointer register
   returns: it keeps its value until SEND. `wr` is the value last written to that register.
   */
  datatype Tx = Tx(mem: seq<byte>, rd: u16, base: u16, wr: u16) {

    /** Sn_TX_FSR. */
    function Free(): int {
      |mem| - Sub16(base, rd)
    }

    /** What `W5500::write` does: as much as the free size allows, `offset` bytes after `base`. */
    function Write(offset: u16, data: seq<byte>): Tx
      requires 0 < |mem| && 0 <= Free()
    {
      if Free() == 0 then this else
      this.(mem := Store(mem, Wrap16(base + offset), data[..Min(|data|, Free())]),
            wr := Wrap16(Wrap16(base + offset) + Min(|data|, Free())))
    }

    /** The SEND command puts the bytes from `base` up to `wr` on the wire as one unit. */
    function Unit(): seq<byte>
      requires RingSize(|mem|)
    {
      Load(mem, base, Sub16(wr, base))
    }

    function Send(): Tx {
      this.(base := wr)
    }

    function Transmit(n: nat): Tx {
      this.(rd := Wrap16(rd + n))
    }

    /**
     The ring holds everything handed over by SEND from position `done` on, the first byte not
     yet transmitted, followed by the bytes gathered since.
     */
    ghost predicate Holds(queued: seq<byte>, done: nat, gathered: seq<byte>) {
      && RingSize(|mem|)
      && done <= |queued|
      && HoldsStream(mem, queued + gathered, done, |queued + gathered|)
      && rd == Wrap16(done)
      && base == Wrap16(|queued|)
      && wr == Wrap16(|queued| + |gathered|)
    }
  }

  lemma TxFree(tx: Tx, queued: seq<byte>, done: nat, gathered: seq<byte>)
    requires tx.Holds(queued, done, gathered)
    ensures tx.Free() == |tx.mem| - (|queued| - done)
    ensures |gathered| <= tx.Free()
  {
    var n := |queued| - done;
    assert |queued + gathered| == |queued| + |gathered|;
    assert n + |gathered| <= |tx.mem|;
    SubWraps(done, n);
    hide HoldsStream, Wrap16, Sub16;
  }

  lemma HoldsLonger(mem: seq<byte>, stream: seq<byte>, from: nat, to: nat, more: seq<byte>)
    requires 0 < |mem| && HoldsStream(mem, stream, from, to)
    ensures HoldsStream(mem, stream + more, from, to)
  {
    assert forall k | from <= k < to :: (stream + more)[k] == stream[k];
  }

  lemma Appended(queued: seq<byte>, gathered: seq<byte>, data: seq<byte>)
    ensures queued + (gathered + data) == queued + gathered + data
    ensures var end := |queued| + |gathered|; (queued + gathered + data)[end..end + |data|] == data
  {
  }

  lemma TxGathers(tx: Tx, queued: seq<byte>, done: nat, gathered: seq<byte>, data: seq<byte>)
    requires tx.Holds(queued, done, gathered)
    requires |gathered| + |data| <= tx.Free() && tx.Free() > 0
    ensures tx.Write(|gathered|, data).Holds(queued, done, gathered + data)
    ensures tx.Write(|gathered|, data).Free() == tx.Free()
  {
    hide HoldsStream, Store, Wrap16, Sub16;
    TxFree(tx, queued, done, gathered);
    var all, end := queued + gathered + data, |queued| + |gathered|;
    Appended(queued, gathered, data);
    assert data[..Min(|data|, tx.Free())] == data == all[end..end + |data|];
    HoldsLonger(tx.mem, queued + gathered, done, end, data);
    WrapTwice(|queued|, |gathered|);
    WrapTwice(end, |data|);
    StoreExtends(tx.mem, all, done, end, |data|);
  }

  lemma TxSends(tx: Tx, queued: seq<byte>, done: nat, gathered: seq<byte>)
    requires tx.Holds(queued, done, gathered)
    ensures tx.Unit() == gathered
    ensures tx.Send().Holds(queued + gathered, done, [])
  {
    TxFree(tx, queued, done, gathered);
    var all := queued + gathered;
    SubWraps(|queued|, |gathered|);
    assert all + [] == all;
    assert all[|queued|..|queued| + |gathered|] == gathered;
    hide HoldsStream, Wrap16, Sub16, Load;
    LoadStream(tx.mem, all, done, |all|, |queued|, |gathered|);
  }

  lemma TxTransmits(tx: Tx, queued: seq<byte>, done: nat, gathered: seq<byte>, n: nat)
    requires tx.Holds(queued, done, gathered)
    requires done + n <= |queued|
    ensures tx.Transmit(n).Holds(queued, done + n, gathered)
    ensures tx.Transmit(n).Free() == tx.Free() + n
  {
    WrapTwice(done, n);
    assert tx.Transmit(n).Holds(queued, done + n, gathered);
    TxFree(tx, queued, done, gathered);
    TxFree(tx.Transmit(n), queued, done + n, gathered);
  }

  /**
   The free size is compared with one call's data only. When that and the bytes gathered before
   it exceed the free size together, the oldest byte still needed is overwritten.
   */
  lemma OverrunDestroys(tx: Tx, queued: seq<byte>, done: nat, gathered: seq<byte>, n: nat)
    returns (data: seq<byte>)
    requires tx.Holds(queued, done, gathered)
    requires 0 < tx.Free() < |gathered| + Min(n, tx.Free())
    ensures |data| == n
    ensures done < |queued + gathered|
    ensures tx.Write(|gathered|, data).mem[done % |tx.mem|] != (queued + gathered)[done]
  {
    TxFree(tx, queued, done, gathered);
    var all, size := queued + gathered, |tx.mem|;
    var m, end := Min(n, tx.Free()), |all|;
    var b: byte := if all[done] == 0 then 1 else 0;
    data := seq(n, _ => b);
    WrapTwice(|queued|, |gathered|);
    StoreWraps(tx.mem, end, data[..m]);
    StoreAt(tx.mem, end, data[..m], done + size);
    AddMultiple(done, 1, size);
  }

  // ---- Runs of the transmit ring ----

  /** A call of `Socket::write`, or progress of the chip between two calls. */
  datatype TxOp = Write(data: seq<byte>) | Transmit(n: nat)

  function Written(ops: seq<TxOp>): seq<byte> {
    if ops == [] then []
    else (if ops[0].Write? then ops[0].data else []) + Written(ops[1..])
  }

  function Transmitted(ops: seq<TxOp>): nat {
    if ops == [] then 0
    else (if ops[0].Transmit? then ops[0].n else 0) + Transmitted(ops[1..])
  }

  /** The ring and `_write_offset` after a run. */
  ghost function TxRun(tx: Tx, offset: u16, ops: seq<TxOp>): (Tx, u16)
    decreases |ops|
  {
    if ops == [] then (tx, offset)
    else if !(0 < |tx.mem| && 0 <= tx.Free()) then (tx, offset)
    else
      match ops[0]
      case Write(data) =>
        TxRun(tx.Write(offset, data), Wrap16(offset + Min(|data|, tx.Free())), ops[1..])
      case Transmit(n) => TxRun(tx.Transmit(n), offset, ops[1..])
  }

  /** Running `ops` gathers what they write and transmits what they transmit. */
  ghost predicate RunGathers(tx: Tx, queued: seq<byte>, done: nat, gathered: seq<byte>, ops: seq<TxOp>)
    requires |gathered| < U16
  {
    var (tx', offset') := TxRun(tx, |gathered|, ops);
    && tx'.Holds(queued, done + Transmitted(ops), gathered + Written(ops))
    && offset' == |gathered + Written(ops)|
  }

  lemma {:induction false} TxRunGathers(tx: Tx, queued: seq<byte>, done: nat, gathered: seq<byte>, ops: seq<TxOp>)
    requires tx.Holds(queued, done, gathered)
    requires |gathered| + |Written(ops)| <= tx.Free() && tx.Free() > 0
    requires done + Transmitted(ops) <= |queued|
    ensures |gathered| < U16 && RunGathers(tx, queued, done, gathered, ops)
    decreases |ops|
  {
    TxFree(tx, queued, done, gathered);
    if ops == [] {
      assert gathered + [] == gathered;
    } else {
      hide Tx.Write, Tx.Transmit, Tx.Holds, TxRun, RunGathers;
      var rest := ops[1..];
      match ops[0]
      case Write(data) =>
        TxGathers(tx, queued, done, gathered, data);
        TxRunGathers(tx.Write(|gathered|, data), queued, done, gathered + data, rest);
        RunWrites(tx, queued, done, gathered, ops);
      case Transmit(n) =>
        TxTransmits(tx, queued, done, gathered, n);
        TxRunGathers(tx.Transmit(n), queued, done + n, gathered, rest);
        RunTransmits(tx, queued, done, gathered, ops);
    }
  }

  lemma RunWrites(tx: Tx, queued: seq<byte>, done: nat, gathered: seq<byte>, ops: seq<TxOp>)
    requires ops != [] && ops[0].Write? && 0 < |tx.mem|
    requires |gathered| + |ops[0].data| <= tx.Free() < U16
    requires RunGathers(tx.Write(|gathered|, ops[0].data), queued, done, gathered + ops[0].data, ops[1..])
    ensures RunGathers(tx, queued, done, gathered, ops)
  {
    WriteRun(tx, |gathered|, ops);
    hide Tx.Write, Tx.Free, Tx.Holds, TxRun;
    Associates(gathered, ops[0].data, Written(ops[1..]));
  }

  lemma RunTransmits(tx: Tx, queued: seq<byte>, done: nat, gathered: seq<byte>, ops: seq<TxOp>)
    requires ops != [] && ops[0].Transmit? && 0 < |tx.mem| && 0 <= tx.Free() && |gathered| < U16
    requires RunGathers(tx.Transmit(ops[0].n), queued, done + ops[0].n, gathered, ops[1..])
    ensures RunGathers(tx, queued, done, gathered, ops)
  {
    hide Tx.Transmit, Tx.Free, Tx.Holds;
    assert [] + Written(ops[1..]) == Written(ops[1..]);
  }

  lemma WriteRun(tx: Tx, offset: u16, ops: seq<TxOp>)
    requires ops != [] && ops[0].Write? && 0 < |tx.mem|
    requires offset + |ops[0].data| <= tx.Free() < U16
    ensures TxRun(tx, offset, ops) == TxRun(tx.Write(offset, ops[0].data), offset + |ops[0].data|, ops[1..])
  {
    hide Tx.Write, Tx.Free;
  }

  /**
   Gather, then send: writes whose total fits the free size at the first of them go out as
   exactly their concatenation, in one unit, whatever the chip transmits meanwhile and wherever
   the ring wraps; nothing handed over earlier is touched.
   */
  lemma GatherSendsConcatenation(tx: Tx, queued: seq<byte>, done: nat, ops: seq<TxOp>)
    requires tx.Holds(queued, done, [])
    requires |Written(ops)| <= tx.Free() && tx.Free() > 0
    requires done + Transmitted(ops) <= |queued|
    ensures var (tx', offset') := TxRun(tx, 0, ops);
      && offset' == |Written(ops)|
      && RingSize(|tx'.mem|)
      && tx'.Unit() == Written(ops)
      && tx'.Send().Holds(queued + Written(ops), done + Transmitted(ops), [])
  {
    TxRunGathers(tx, queued, done, [], ops);
    assert [] + Written(ops) == Written(ops);
    var (tx', _) := TxRun(tx, 0, ops);
    TxSends(tx', queued, done + Transmitted(ops), Written(ops));
  }
}

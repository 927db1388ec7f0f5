/**
 The W5500 as the driver's environment. A `Port` is one socket's share of the chip: its register
 block, its two rings and the network behind it. Before every SPI frame the network may deliver
 further datagrams and the transmitter may make progress; nothing is assumed about when.
 */
module Chip {
  import opened Words
  import opened Rings
  import opened Framing
  import opened Registers

  /** What one SEND put on the wire, and the destination registers at that moment. */
  datatype Sent = Sent(ip: seq<byte>, port: u16, data: seq<byte>)

  /** What the host has read from the interrupt register and from the status register, in order. */
  class Polls {
    ghost var flags: seq<byte>
    ghost var status: seq<byte>

    constructor ()
    {
      flags, status := [], [];
    }
  }

  class Port {
    /** Every datagram the network will ever deliver here, in order: arbitrary, but fixed. */
    const script: seq<Datagram>
    /** How many of them have arrived. */
    var count: nat
    /** The socket register block; the pointer registers at 0x20 up to 0x2C are in the rings. */
    var regs: seq<byte>
    var rx: Rx
    var tx: Tx
    /** Stream position of the first received byte not yet released. */
    var taken: nat
    /** Bytes handed over by SEND so far, and how many of them have been transmitted. */
    var queued: seq<byte>
    var done: nat
    /** Bytes written to the transmit ring since the last SEND. */
    var gathered: seq<byte>
    var sent: seq<Sent>
    /** Every command given but SEND and RECV. */
    var control: seq<byte>
    const polls: Polls

    /** After a reset, with both rings of the same size. */
    constructor (script: seq<Datagram>, size: nat)
      requires AllValid(script) && RingSize(size)
      ensures this.script == script && Valid()
      ensures taken == count == 0 && rx.rd == 0 && tx.wr == 0
      ensures gathered == queued == [] && sent == [] && control == []
    {
      this.script := script;
      count, taken, done := 0, 0, 0;
      regs := ZeroBytes(0x30);
      rx := Rx(ZeroBytes(size), 0, 0, 0);
      tx := Tx(ZeroBytes(size), 0, 0, 0);
      queued, gathered, sent, control := [], [], [], [];
      polls := new Polls();
    }

    ghost predicate Valid()
      reads this
    {
      && AllValid(script) && count <= |script|
      && |regs| == 0x30
      && rx.Holds(Flatten(script), taken, Arrived())
      && tx.(wr := Wrap16(|queued| + |gathered|)).Holds(queued, done, gathered)
    }

    /** Stream position up to which bytes have arrived. */
    function Arrived(): nat
      requires count <= |script|
      reads this
    {
      Boundary(script, count)
    }

    /** The socket register block as the host reads it. */
    function Window(): (w: seq<byte>)
      requires |regs| == 0x30 && 0 <= tx.Free() < U16
      reads this
      ensures |w| == 0x30
    {
      regs[..0x20] + Bytes16(tx.Free()) + Bytes16(tx.rd) + Bytes16(tx.base)
      + Bytes16(rx.Pending()) + Bytes16(rx.rd) + Bytes16(rx.wr) + regs[0x2C..]
    }

    function DestIp(): seq<byte>
      requires |regs| == 0x30
      reads this
    {
      regs[0x0C..0x10]
    }

    function DestPort(): u16
      requires |regs| == 0x30
      reads this
    {
      Be16(regs[0x10], regs[0x11])
    }

    function SourcePort(): u16
      requires |regs| == 0x30
      reads this
    {
      Be16(regs[0x04], regs[0x05])
    }

    // ---- What may change behind the host's back ----

    /** Nothing but arrivals on the receive side. */
    twostate predicate RxServed()
      reads this
    {
      && taken == old(taken) && rx.rd == old(rx.rd) && rx.base == old(rx.base)
      && |rx.mem| == old(|rx.mem|) && old(count) <= count
    }

    /** Nothing but progress of the transmitter on the transmit side. */
    twostate predicate TxServed()
      reads this
    {
      && queued == old(queued) && gathered == old(gathered) && sent == old(sent)
      && tx.base == old(tx.base) && tx.wr == old(tx.wr) && |tx.mem| == old(|tx.mem|)
      && old(tx.Free()) <= tx.Free()
    }

    /** Nothing but the interrupt and status registers. */
    twostate predicate RegsServed()
      reads this
    {
      |regs| == old(|regs|)
      && forall i | 0 <= i < |regs| && i != 0x02 && i != 0x03 :: regs[i] == old(regs[i])
    }

    twostate predicate Served()
      reads this
    {
      RxServed() && TxServed() && RegsServed() && control == old(control)
    }

    twostate lemma DestinationKept()
      requires old(Valid()) && Valid() && RegsServed()
      ensures DestIp() == old(DestIp()) && DestPort() == old(DestPort()) && SourcePort() == old(SourcePort())
    {
    }

    /** Any number of datagrams arrive, transmission makes any progress, status bits change. */
    method Serve()
      requires Valid()
      modifies this
      ensures Valid() && Served()
    {
      ServeRx();
      ServeTx();
      var irq: byte, status: byte :| true;
      regs := regs[0x02 := irq][0x03 := status];
    }

    method ServeRx()
      requires Valid()
      modifies this`rx, this`count
      ensures Valid() && RxServed()
    {
      assert Deliverable(count);
      var n: nat :| Deliverable(n);
      Delivered(n);
      hide Rx.Holds, Tx.Holds, Flatten, Boundary, HoldsStream, Deliverable;
      rx := rx.Arrive(Flatten(script)[Boundary(script, count)..Boundary(script, n)]);
      count := n;
    }

    /** The first `n` datagrams of the script can have arrived next: they fit the ring. */
    predicate Deliverable(n: nat)
      requires AllValid(script)
      reads this
    {
      count <= n <= |script| && (n == count || Boundary(script, n) - taken <= |rx.mem|)
    }

    lemma Delivered(n: nat)
      requires Valid() && Deliverable(n)
      ensures count <= n <= |script| && Boundary(script, count) <= Boundary(script, n) <= |Flatten(script)|
      ensures 0 < |rx.mem| && Boundary(script, n) - Boundary(script, count) <= |rx.mem|
      ensures var rx' := rx.Arrive(Flatten(script)[Boundary(script, count)..Boundary(script, n)]);
        && rx'.Holds(Flatten(script), taken, Boundary(script, n))
        && rx'.rd == rx.rd && rx'.base == rx.base && |rx'.mem| == |rx.mem|
    {
      BoundaryMonotone(script, count, n);
      FlattenPrefix(script, n);
      RxArrives(rx, Flatten(script), taken, Arrived(), Boundary(script, n) - Boundary(script, count));
      hide Flatten, Boundary;
    }

    method ServeTx()
      requires Valid()
      modifies this`tx, this`done
      ensures Valid() && TxServed()
    {
      hide Rx.Holds, Flatten, Boundary, HoldsStream, Sub16, Wrap16;
      ghost var g := gathered;
      var n: nat :| done + n <= |queued|;
      TxTransmits(tx.(wr := Wrap16(|queued| + |g|)), queued, done, g, n);
      tx := tx.Transmit(n);
      done := done + n;
    }

    // ---- Frames addressed to this socket's blocks ----

    /** A frame for the register block (1), the transmit ring (2) or the receive ring (3) of a socket. */
    ghost predicate Frame(h: seq<byte>, block: nat, write: bool) {
      |h| == 3 && Block(h) % 4 == block && IsWrite(h) == write
    }

    /** The record of polls, if a read of these registers adds to it. */
    function Polled(addr: nat, n: nat): set<Polls> {
      if addr <= 0x03 && addr + n > 0x02 then {polls} else {}
    }

    method ReadRegs(h: seq<byte>, n: nat) returns (data: seq<byte>)
      requires Valid() && Frame(h, 1, false) && Address(h) + n <= 0x30
      modifies this, Polled(Address(h), n)
      ensures Valid() && Served() && |data| == n
      ensures polls.flags == old(polls.flags) + Shown(0x02, Address(h), data)
      ensures polls.status == old(polls.status) + Shown(0x03, Address(h), data)
      ensures 0 <= tx.Free() < U16 && data == Window()[Address(h)..Address(h) + n]
    {
      var addr := Address(h);
      Serve();
      TxFree(tx.(wr := Wrap16(|queued| + |gathered|)), queued, done, gathered);
      data := Window()[addr..addr + n];
      if addr <= 0x03 && addr + n > 0x02 {
        polls.flags := polls.flags + Shown(0x02, addr, data);
        polls.status := polls.status + Shown(0x03, addr, data);
      }
    }

    /** A write to plain registers: neither the command register nor a ring pointer. */
    method WriteRegs(h: seq<byte>, data: seq<byte>)
      requires Valid() && Frame(h, 1, true) && Address(h) + |data| <= 0x20
      requires !(Address(h) <= 0x01 < Address(h) + |data|)
      modifies this
      ensures Valid() && RxServed() && TxServed() && control == old(control)
      ensures regs[Address(h)..Address(h) + |data|] == data
      ensures forall i | 0 <= i < 0x30 && !(Address(h) <= i < Address(h) + |data|) && i != 0x02 && i != 0x03 ::
        regs[i] == old(regs[i])
    {
      var addr := Address(h);
      Serve();
      regs := regs[..addr] + data + regs[addr + |data|..];
    }

    method WriteTxPointer(h: seq<byte>, data: seq<byte>)
      requires Valid() && Frame(h, 1, true) && Address(h) == 0x24 && |data| == 2
      modifies this
      ensures Valid() && RxServed() && RegsServed()
      ensures tx.wr == Be16(data[0], data[1]) && tx.base == old(tx.base) && |tx.mem| == old(|tx.mem|)
      ensures queued == old(queued) && gathered == old(gathered) && sent == old(sent)
      ensures old(tx.Free()) <= tx.Free()
    {
      Serve();
      tx := tx.(wr := Be16(data[0], data[1]));
    }

    method WriteRxPointer(h: seq<byte>, data: seq<byte>)
      requires Valid() && Frame(h, 1, true) && Address(h) == 0x28 && |data| == 2
      modifies this
      ensures Valid() && TxServed() && RegsServed()
      ensures rx.rd == Be16(data[0], data[1]) && rx.base == old(rx.base) && |rx.mem| == old(|rx.mem|)
      ensures taken == old(taken) && old(count) <= count
    {
      Serve();
      rx := rx.MoveTo(Be16(data[0], data[1]));
    }

    /** RECV: the bytes before the read pointer are released. */
    method Recv()
      requires Valid() && taken + Sub16(rx.rd, rx.base) <= Arrived()
      modifies this
      ensures Valid() && RecvDone()
    {
      Serve();
      BoundaryMonotone(script, old(count), count);
      var n := Sub16(rx.rd, rx.base);
      AdvancedPointer(taken, rx.rd);
      RxReleases(rx, Flatten(script), taken, Arrived(), n);
      rx := rx.Recv();
      taken := taken + n;
    }

    /** SEND: everything gathered leaves as one unit, to the destination registers of the moment. */
    method Send()
      requires Valid() && tx.wr == Wrap16(|queued| + |gathered|)
      modifies this
      ensures Valid() && SendDone()
    {
      Serve();
      assert tx.(wr := Wrap16(|queued| + |gathered|)) == tx;
      TxSends(tx, queued, done, gathered);
      TxFree(tx, queued, done, gathered);
      sent := sent + [Sent(DestIp(), DestPort(), tx.Unit())];
      tx := tx.Send();
      queued, gathered := queued + gathered, [];
      TxFree(tx, queued, done, gathered);
    }

    /** Any other command; what it does to the status is up to the chip. */
    method Command(c: byte)
      requires Valid() && c != 0x40 && c != 0x20
      modifies this
      ensures Valid() && RxServed() && TxServed() && RegsServed() && control == old(control) + [c]
    {
      Serve();
      control := control + [c];
    }

    /** What the network and the rings make of SEND. */
    twostate predicate SendDone()
      reads this
    {
      && |regs| == 0x30 && RxServed() && RegsServed() && control == old(control)
      && sent == old(sent) + [Sent(DestIp(), DestPort(), old(gathered))]
      && queued == old(queued + gathered) && gathered == []
      && tx.base == tx.wr == old(tx.wr) == Wrap16(|queued| + |gathered|) && |tx.mem| == old(|tx.mem|)
      && old(tx.Free()) - old(|gathered|) <= tx.Free()
    }

    /** What the rings make of RECV. */
    twostate predicate RecvDone()
      reads this
    {
      && TxServed() && RegsServed() && control == old(control)
      && taken == old(taken + Sub16(rx.rd, rx.base)) && rx.rd == old(rx.rd) && rx.base == rx.rd
      && |rx.mem| == old(|rx.mem|) && old(count) <= count
    }

    /** A command byte is written. */
    method Execute(h: seq<byte>, c: byte)
      requires Valid() && Frame(h, 1, true) && Address(h) == 0x01
      requires c == 0x20 ==> tx.wr == Wrap16(|queued| + |gathered|)
      requires c == 0x40 ==> taken + Sub16(rx.rd, rx.base) <= Arrived()
      modifies this
      ensures Valid()
      ensures c == 0x20 ==> SendDone()
      ensures c == 0x40 ==> RecvDone()
      ensures c != 0x20 && c != 0x40 ==> RxServed() && TxServed() && RegsServed() && control == old(control) + [c]
    {
      hide Rx.Holds, Tx.Holds, Flatten, Boundary, HoldsStream, Tx.Free, Rx.Pending, Sub16, Wrap16;
      match c
      case 0x20 => Send();
      case 0x40 => Recv();
      case _ => Command(c);
    }

    /** Bytes written to the transmit memory right behind those already gathered. */
    method StoreTx(h: seq<byte>, data: seq<byte>)
      requires Valid() && Frame(h, 2, true) && Address(h) == Wrap16(|queued| + |gathered|)
      requires |gathered| + |data| <= tx.Free() && tx.Free() > 0
      modifies this
      ensures Valid() && RxServed() && RegsServed()
      ensures gathered == old(gathered) + data && queued == old(queued) && sent == old(sent)
      ensures tx.base == old(tx.base) && tx.wr == old(tx.wr) && |tx.mem| == old(|tx.mem|)
      ensures old(tx.Free()) <= tx.Free()
    {
      hide Rx.Holds, Tx.Holds, Flatten, Boundary, HoldsStream, Store, Wrap16;
      Serve();
      Stored(data);
      tx := tx.(mem := Store(tx.mem, Address(h), data));
      gathered := gathered + data;
    }

    lemma Stored(data: seq<byte>)
      requires Valid() && |gathered| + |data| <= tx.Free() && tx.Free() > 0
      ensures 0 < |tx.mem| && |data| <= |tx.mem|
      ensures var tx' := tx.(mem := Store(tx.mem, Wrap16(|queued| + |gathered|), data));
        && tx'.(wr := Wrap16(|queued| + |gathered + data|)).Holds(queued, done, gathered + data)
        && |tx'.mem| == |tx.mem| && tx'.Free() == tx.Free()
    {
      hide Rx.Holds, Flatten, Boundary, HoldsStream, Store, Sub16;
      var t := tx.(wr := Wrap16(|queued| + |gathered|));
      TxFree(t, queued, done, gathered);
      TxGathers(t, queued, done, gathered, data);
      WrapTwice(|queued|, |gathered|);
      WrapTwice(|queued| + |gathered|, |data|);
      assert data[..Min(|data|, t.Free())] == data;
      hide Wrap16;
    }

    method LoadRx(h: seq<byte>, n: nat) returns (data: seq<byte>)
      requires Valid() && Frame(h, 3, false)
      modifies this
      ensures Valid() && Served()
      ensures data == Load(rx.mem, Address(h), n)
    {
      Serve();
      data := Load(rx.mem, Address(h), n);
    }
  }

  class Chip {
    const ports: seq<Port>
    /** The common register block. */
    var common: seq<byte>

    constructor (ports: seq<Port>)
      requires |ports| == MAX_SOCKETS && forall i, j | 0 <= i < j < |ports| :: ports[i] != ports[j]
      ensures this.ports == ports && Valid()
    {
      this.ports := ports;
      common := ZeroBytes(0x40);
    }

    ghost predicate Valid()
      reads this
    {
      && |ports| == MAX_SOCKETS && |common| == 0x40
      && forall i, j | 0 <= i < j < |ports| :: ports[i] != ports[j]
    }

    /** The socket a frame is for; the three blocks of socket `n` follow block `4 * n`. */
    function Decode(h: seq<byte>): Port
      requires |h| == 3 && Block(h) % 4 != 0 && Block(h) / 4 < |ports|
    {
      ports[Block(h) / 4]
    }

    method ReadCommon(h: seq<byte>, n: nat) returns (data: seq<byte>)
      requires |h| == 3 && Block(h) == 0 && !IsWrite(h)
      requires Valid() && Address(h) + n <= 0x40
      ensures data == common[Address(h)..Address(h) + n]
    {
      data := common[Address(h)..Address(h) + n];
    }

    method WriteCommon(h: seq<byte>, data: seq<byte>)
      requires |h| == 3 && Block(h) == 0 && IsWrite(h)
      requires Valid() && Address(h) + |data| <= 0x40
      modifies this
      ensures Valid()
      ensures common == old(common)[..Address(h)] + data + old(common)[Address(h) + |data|..]
    {
      common := common[..Address(h)] + data + common[Address(h) + |data|..];
    }
  }

  /** What a read of `data` from address `addr` on shows of the register at `reg`. */
  ghost function Shown(reg: nat, addr: nat, data: seq<byte>): seq<byte> {
    if addr <= reg < addr + |data| then [data[reg - addr]] else []
  }

  lemma AdvancedPointer(taken: nat, rd: u16)
    ensures rd == Wrap16(taken + Sub16(rd, Wrap16(taken)))
  {
  }
}

/** The W5500 driver: every operation is a short sequence of SPI frames. */
module Driver {
  import opened Words
  import opened Rings
  import opened Framing
  import opened Registers
  import opened Chip
  import C = Chip

  /** Every random number drawn so far. */
  class Draws {
    ghost var drawn: seq<nat>

    constructor ()
    {
      drawn := [];
    }
  }

  /** The bus also keeps the time; it never runs backwards, and any time may pass between reads. */
  class Bus {
    const chip: Chip
    const draws: Draws
    var clock: nat

    constructor (chip: Chip)
      ensures this.chip == chip
    {
      this.chip := chip;
      draws := new Draws();
      clock := 0;
    }

    method Millis() returns (now: nat)
      modifies this
      ensures old(clock) <= clock == now
    {
      var passed: nat :| true;
      clock := clock + passed;
      now := clock;
    }

    method Random() returns (r: nat)
      modifies draws
      ensures r < U64 && draws.drawn == old(draws.drawn) + [r]
    {
      r :| 0 <= r < U64;
      draws.drawn := draws.drawn + [r];
    }
  }

  class W5500 {
    const bus: Bus

    constructor (bus: Bus)
      ensures this.bus == bus
    {
      this.bus := bus;
    }

    ghost predicate Valid()
      reads bus.chip
    {
      bus.chip.Valid()
    }

    function Port(s: nat): Port
      requires s < |bus.chip.ports|
    {
      bus.chip.ports[s]
    }

    // ---- Common registers ----

    method WriteCommon(reg: Register, data: seq<byte>)
      requires Valid() && |data| == reg.size && reg.offset + reg.size <= 0x40
      modifies bus.chip
      ensures Valid()
      ensures bus.chip.common
        == old(bus.chip.common)[..reg.offset] + data + old(bus.chip.common)[reg.offset + reg.size..]
    {
      var header := FrameHeader(COMMON_BLOCK, reg.offset, true);
      FrameHeaderDecodes(COMMON_BLOCK, reg.offset, true);
      bus.chip.WriteCommon(header, data);
    }

    method ReadCommon(reg: Register) returns (data: seq<byte>)
      requires Valid() && reg.offset + reg.size <= 0x40
      ensures data == bus.chip.common[reg.offset..reg.offset + reg.size]
    {
      var header := FrameHeader(COMMON_BLOCK, reg.offset, false);
      FrameHeaderDecodes(COMMON_BLOCK, reg.offset, false);
      data := bus.chip.ReadCommon(header, reg.size);
    }

    /** The four address registers of the common block. */
    ghost function Addresses(): (a: (seq<byte>, seq<byte>, seq<byte>, seq<byte>))
      requires Valid()
      reads bus.chip
      ensures |a.0| == |a.1| == |a.3| == 4 && |a.2| == 6
    {
      var c := bus.chip.common;
      (c[0x01..0x05], c[0x05..0x09], c[0x09..0x0F], c[0x0F..0x13])
    }

    ghost function Mac(): (mac: seq<byte>)
      requires Valid()
      reads bus.chip
      ensures |mac| == 6
    {
      Addresses().2
    }

    method SetGateway(ip: seq<byte>)
      requires Valid() && |ip| == 4
      modifies bus.chip
      ensures Valid() && Addresses() == (ip, old(Addresses()).1, old(Addresses()).2, old(Addresses()).3)
    {
      ghost var was := bus.chip.common;
      WriteCommon(GATEWAY, ip);
      ghost var now := bus.chip.common;
      assert now[0x01..0x05] == ip;
      assert now[0x05..0x09] == was[0x05..0x09] && now[0x09..0x0F] == was[0x09..0x0F];
      assert now[0x0F..0x13] == was[0x0F..0x13];
    }

    method SetSubnetMask(mask: seq<byte>)
      requires Valid() && |mask| == 4
      modifies bus.chip
      ensures Valid() && Addresses() == (old(Addresses()).0, mask, old(Addresses()).2, old(Addresses()).3)
    {
      ghost var was := bus.chip.common;
      WriteCommon(SUBNET_MASK, mask);
      ghost var now := bus.chip.common;
      assert now[0x05..0x09] == mask;
      assert now[0x01..0x05] == was[0x01..0x05] && now[0x09..0x0F] == was[0x09..0x0F];
      assert now[0x0F..0x13] == was[0x0F..0x13];
    }

    method SetIp(ip: seq<byte>)
      requires Valid() && |ip| == 4
      modifies bus.chip
      ensures Valid() && Addresses() == (old(Addresses()).0, old(Addresses()).1, old(Addresses()).2, ip)
    {
      ghost var was := bus.chip.common;
      WriteCommon(SOURCE_IP, ip);
      ghost var now := bus.chip.common;
      assert now[0x0F..0x13] == ip;
      assert now[0x01..0x05] == was[0x01..0x05] && now[0x05..0x09] == was[0x05..0x09];
      assert now[0x09..0x0F] == was[0x09..0x0F];
    }

    method GetMac() returns (mac: seq<byte>)
      requires Valid()
      ensures mac == Mac()
    {
      mac := ReadCommon(HARDWARE_ADDRESS);
    }

    // ---- Socket registers ----

    function SocketHeader(s: nat, reg: Register, write: bool): (h: seq<byte>)
      requires Valid() && s < MAX_SOCKETS
      reads bus.chip
      ensures |h| == 3 && Address(h) == reg.offset && Block(h) % 4 == 1 && Block(h) / 4 == s && IsWrite(h) == write
      ensures bus.chip.Decode(h) == Port(s)
    {
      FrameHeaderDecodes(SocketBlock(s), reg.offset, write);
      FrameHeader(SocketBlock(s), reg.offset, write)
    }

    method ReadSocket(reg: Register, s: nat) returns (data: seq<byte>)
      requires Valid() && s < MAX_SOCKETS && Port(s).Valid() && reg.offset + reg.size <= 0x30
      modifies Port(s), Port(s).Polled(reg.offset, reg.size)
      ensures Port(s).Valid() && Port(s).Served() && |data| == reg.size
      ensures Port(s).polls.flags == old(Port(s).polls.flags) + Shown(0x02, reg.offset, data)
      ensures Port(s).polls.status == old(Port(s).polls.status) + Shown(0x03, reg.offset, data)
      ensures 0 <= Port(s).tx.Free() < U16
      ensures data == Port(s).Window()[reg.offset..reg.offset + reg.size]
    {
      var header := SocketHeader(s, reg, false);
      data := bus.chip.Decode(header).ReadRegs(header, reg.size);
    }

    method WriteSocket(reg: Register, s: nat, data: seq<byte>)
      requires Valid() && s < MAX_SOCKETS && Port(s).Valid()
      requires |data| == reg.size && reg.offset + reg.size <= 0x20
      requires !(reg.offset <= COMMAND.offset < reg.offset + reg.size)
      modifies Port(s)
      ensures Port(s).Valid() && Port(s).RxServed() && Port(s).TxServed() && Port(s).control == old(Port(s).control)
      ensures Port(s).regs[reg.offset..reg.offset + reg.size] == data
      ensures forall i | 0 <= i < 0x30 && !(reg.offset <= i < reg.offset + reg.size)
          && i != 0x02 && i != 0x03 :: Port(s).regs[i] == old(Port(s).regs[i])
    {
      var header := SocketHeader(s, reg, true);
      bus.chip.Decode(header).WriteRegs(header, data);
    }

    method ReadU16(reg: Register, s: nat) returns (v: u16)
      requires Valid() && s < MAX_SOCKETS && Port(s).Valid() && reg.size == 2 && reg.offset + reg.size <= 0x30
      modifies Port(s), Port(s).Polled(reg.offset, 2)
      ensures Port(s).Valid() && Port(s).Served()
      ensures 0 <= Port(s).tx.Free() < U16
      ensures v == Be16(Port(s).Window()[reg.offset], Port(s).Window()[reg.offset + 1])
    {
      var buf := ReadSocket(reg, s);
      v := Be16(buf[0], buf[1]);
    }

    method GetTxFreeSize(s: nat) returns (v: u16)
      requires Valid() && s < MAX_SOCKETS && Port(s).Valid()
      modifies Port(s)
      ensures Port(s).Valid() && Port(s).Served() && v == Port(s).tx.Free()
    {
      v := ReadU16(TX_FREE_SIZE, s);
      Be16RoundTrip(Port(s).tx.Free());
    }

    method GetTxWritePointer(s: nat) returns (v: u16)
      requires Valid() && s < MAX_SOCKETS && Port(s).Valid()
      modifies Port(s)
      ensures Port(s).Valid() && Port(s).Served() && v == Port(s).tx.base
    {
      v := ReadU16(TX_WRITE_POINTER, s);
      Be16RoundTrip(Port(s).tx.base);
    }

    method GetRxByteCount(s: nat) returns (v: u16)
      requires Valid() && s < MAX_SOCKETS && Port(s).Valid()
      modifies Port(s)
      ensures Port(s).Valid() && Port(s).Served() && v == Port(s).Arrived() - Port(s).taken
    {
      v := ReadU16(RX_RECEIVED_SIZE, s);
      Be16RoundTrip(Port(s).rx.Pending());
      RxPending(Port(s).rx, Flatten(Port(s).script), Port(s).taken, Port(s).Arrived());
    }

    method GetRxReadPointer(s: nat) returns (v: u16)
      requires Valid() && s < MAX_SOCKETS && Port(s).Valid()
      modifies Port(s)
      ensures Port(s).Valid() && Port(s).Served() && v == Port(s).rx.rd
    {
      v := ReadU16(RX_READ_POINTER, s);
      Be16RoundTrip(Port(s).rx.rd);
    }

    method GetRxWritePointer(s: nat) returns (v: u16)
      requires Valid() && s < MAX_SOCKETS && Port(s).Valid()
      modifies Port(s)
      ensures Port(s).Valid() && Port(s).Served() && v == Port(s).rx.wr
    {
      v := ReadU16(RX_WRITE_POINTER, s);
      Be16RoundTrip(Port(s).rx.wr);
    }

    /** Any command; SEND and RECV ask that the ring pointers be in order. */
    method SendSocketCommand(s: nat, command: byte)
      requires Valid() && s < MAX_SOCKETS && Port(s).Valid()
      requires command == 0x20 ==> Port(s).tx.wr == Wrap16(|Port(s).queued| + |Port(s).gathered|)
      requires command == 0x40 ==> Port(s).taken + Sub16(Port(s).rx.rd, Port(s).rx.base) <= Port(s).Arrived()
      modifies Port(s)
      ensures Port(s).Valid()
      ensures command == 0x20 ==> Port(s).SendDone()
      ensures command == 0x40 ==> Port(s).RecvDone()
      ensures command != 0x20 && command != 0x40 ==>
        && Port(s).RxServed() && Port(s).TxServed() && Port(s).RegsServed()
        && Port(s).control == old(Port(s).control) + [command]
    {
      hide Tx.Holds, Rx.Holds, Tx.Free, Wrap16, Sub16, Be16, Boundary, Flatten, Block, FrameHeader, C.Port.Valid,
        C.Port.Arrived, C.Port.SendDone, C.Port.RecvDone, C.Chip.Decode;
      var header := SocketHeader(s, COMMAND, true);
      bus.chip.Decode(header).Execute(header, command);
    }

    method SetTxWritePointer(s: nat, v: u16)
      requires Valid() && s < MAX_SOCKETS && Port(s).Valid()
      modifies Port(s)
      ensures Port(s).Valid() && Port(s).RxServed() && Port(s).RegsServed()
      ensures Port(s).tx.wr == v && Port(s).tx.base == old(Port(s).tx.base)
      ensures Port(s).queued == old(Port(s).queued) && Port(s).gathered == old(Port(s).gathered)
      ensures Port(s).sent == old(Port(s).sent) && old(Port(s).tx.Free()) <= Port(s).tx.Free()
    {
      hide Tx.Holds, Rx.Holds, Tx.Free, Be16, Hi, Lo;
      var header := SocketHeader(s, TX_WRITE_POINTER, true);
      Be16RoundTrip(v);
      bus.chip.Decode(header).WriteTxPointer(header, Bytes16(v));
    }

    method SetRxReadPointer(s: nat, v: u16)
      requires Valid() && s < MAX_SOCKETS && Port(s).Valid()
      modifies Port(s)
      ensures Port(s).Valid() && Port(s).TxServed() && Port(s).RegsServed()
      ensures Port(s).rx.rd == v && Port(s).taken == old(Port(s).taken)
      ensures Port(s).rx.base == old(Port(s).rx.base) && old(Port(s).count) <= Port(s).count
    {
      hide Tx.Holds, Rx.Holds, Tx.Free, Be16, Hi, Lo;
      var header := SocketHeader(s, RX_READ_POINTER, true);
      Be16RoundTrip(v);
      bus.chip.Decode(header).WriteRxPointer(header, Bytes16(v));
    }

    // ---- Transmitting ----

    /** The write pointer register agrees with what has been gathered. */
    ghost predicate TxReady(s: nat)
      requires s < |bus.chip.ports|
      reads Port(s)
    {
      Port(s).tx.wr == Wrap16(|Port(s).queued| + |Port(s).gathered|)
    }

    /**
     Adds data `offset` bytes behind the write pointer, as much as the free size allows; SEND has
     yet to follow. The free size takes no account of what has been gathered before, so this is
     sound for the first write after a SEND, and for later ones as long as all of it fits.
     */
    method Write(s: nat, data: seq<byte>, offset: u16) returns (written: nat)
      requires Valid() && s < MAX_SOCKETS && Port(s).Valid() && TxReady(s)
      requires offset == |Port(s).gathered|
      requires offset == 0 || offset + |data| <= Port(s).tx.Free()
      modifies Port(s)
      ensures Port(s).Valid() && TxReady(s) && Port(s).RxServed() && Port(s).RegsServed()
      ensures written <= |data| && Port(s).gathered == old(Port(s).gathered) + data[..written]
      ensures written == |data| || (old(Port(s).tx.Free()) <= written && offset + |data| > old(Port(s).tx.Free()))
      ensures Port(s).queued == old(Port(s).queued) && Port(s).sent == old(Port(s).sent)
      ensures old(Port(s).tx.Free()) <= Port(s).tx.Free()
    {
      hide Tx.Holds, Rx.Holds, Tx.Free, Wrap16, Be16, Hi, Lo;
      var free := GetTxFreeSize(s);
      if free == 0 {
        assert old(Port(s).gathered) + data[..0] == old(Port(s).gathered);
        return 0;
      }
      var pointer := GetTxWritePointer(s);
      var start := Wrap16(pointer + offset);
      TxBase(s);
      WrapTwice(|Port(s).queued|, offset);
      var header := FrameHeader(TxBlock(s), start, true);
      FrameHeaderDecodes(TxBlock(s), start, true);
      var bytesToSend := if |data| <= free then |data| else free;
      bus.chip.Decode(header).StoreTx(header, data[..bytesToSend]);
      WrapTwice(|Port(s).queued| + offset, bytesToSend);
      SetTxWritePointer(s, Wrap16(start + bytesToSend));
      return bytesToSend;
    }

    /** Hands everything gathered to the network as one unit. */
    method Send(s: nat)
      requires Valid() && s < MAX_SOCKETS && Port(s).Valid() && TxReady(s)
      modifies Port(s)
      ensures Port(s).Valid() && TxReady(s) && Port(s).RxServed() && Port(s).RegsServed()
      ensures Port(s).sent
        == old(Port(s).sent) + [Sent(Port(s).DestIp(), Port(s).DestPort(), old(Port(s).gathered))]
      ensures Port(s).gathered == []
      ensures Port(s).queued == old(Port(s).queued) + old(Port(s).gathered)
    {
      hide Tx.Holds, Rx.Holds, Tx.Free, Wrap16, Be16, Flatten, Boundary;
      SendSocketCommand(s, SEND);
    }

    method SendBuffer(s: nat, data: seq<byte>, offset: u16) returns (written: nat)
      requires Valid() && s < MAX_SOCKETS && Port(s).Valid() && TxReady(s)
      requires offset == |Port(s).gathered|
      requires offset == 0 || offset + |data| <= Port(s).tx.Free()
      modifies Port(s)
      ensures Port(s).Valid() && TxReady(s) && Port(s).RxServed() && Port(s).RegsServed()
      ensures written <= |data|
      ensures written == |data| || (old(Port(s).tx.Free()) <= written && offset + |data| > old(Port(s).tx.Free()))
      ensures Port(s).sent
        == old(Port(s).sent) + [Sent(Port(s).DestIp(), Port(s).DestPort(), old(Port(s).gathered) + data[..written])]
      ensures Port(s).gathered == []
    {
      written := Write(s, data, offset);
      Send(s);
    }

    // ---- Receiving ----

    /** The read pointer register agrees with the bytes released. */
    ghost predicate RxReady(s: nat)
      requires s < |bus.chip.ports|
      reads Port(s)
    {
      Port(s).rx.rd == Wrap16(Port(s).taken)
    }

    /** The receive stream from the first unreleased byte on. */
    ghost function Ahead(s: nat, n: nat): (data: seq<byte>)
      requires s < |bus.chip.ports| && Port(s).Valid() && Port(s).taken + n <= Port(s).Arrived()
      reads Port(s)
    {
      Flatten(Port(s).script)[Port(s).taken..Port(s).taken + n]
    }

    method Peek(s: nat, n: nat) returns (data: seq<byte>)
      requires Valid() && s < MAX_SOCKETS && Port(s).Valid() && RxReady(s)
      requires Port(s).taken + n <= Port(s).Arrived()
      modifies Port(s)
      ensures Port(s).Valid() && Port(s).Served() && RxReady(s)
      ensures data == old(Ahead(s, n))
    {
      hide Tx.Holds, Rx.Holds, Tx.Free, Wrap16, Be16, Hi, Lo, Load, Boundary;
      var readOffset := GetRxReadPointer(s);
      var header := FrameHeader(RxBlock(s), readOffset, false);
      FrameHeaderDecodes(RxBlock(s), readOffset, false);
      data := bus.chip.Decode(header).LoadRx(header, n);
      BoundaryMonotone(Port(s).script, old(Port(s).count), Port(s).count);
      RxPeeks(Port(s).rx, Flatten(Port(s).script), Port(s).taken, Port(s).Arrived(), n);
    }

    /** Releases the next `n` bytes without reading them. */
    method Skip(s: nat, n: nat)
      requires Valid() && s < MAX_SOCKETS && Port(s).Valid() && RxReady(s)
      requires Port(s).taken + n <= Port(s).Arrived()
      modifies Port(s)
      ensures Port(s).Valid() && Port(s).TxServed() && Port(s).RegsServed() && RxReady(s)
      ensures Port(s).taken == old(Port(s).taken) + n && old(Port(s).count) <= Port(s).count
    {
      hide Tx.Holds, Tx.Free, Wrap16, Be16, Hi, Lo, Boundary;
      var pointer := GetRxReadPointer(s);
      SetRxReadPointer(s, Wrap16(pointer + n));
      PointerAdvances(Port(s).taken, n);
      BoundaryMonotone(Port(s).script, old(Port(s).count), Port(s).count);
      PendingBelowRing(s);
      SendSocketCommand(s, RECV);
    }

    method Read(s: nat, n: nat) returns (data: seq<byte>)
      requires Valid() && s < MAX_SOCKETS && Port(s).Valid() && RxReady(s)
      requires Port(s).taken + n <= Port(s).Arrived()
      modifies Port(s)
      ensures Port(s).Valid() && Port(s).TxServed() && Port(s).RegsServed() && RxReady(s)
      ensures Port(s).taken == old(Port(s).taken) + n && old(Port(s).count) <= Port(s).count
      ensures data == old(Ahead(s, n))
    {
      data := Peek(s, n);
      BoundaryMonotone(Port(s).script, old(Port(s).count), Port(s).count);
      Skip(s, n);
    }

    /** Discards whatever has arrived when the write pointer is read. */
    method Flush(s: nat) returns (ghost k: nat)
      requires Valid() && s < MAX_SOCKETS && Port(s).Valid() && RxReady(s)
      modifies Port(s)
      ensures Port(s).Valid() && Port(s).TxServed() && Port(s).RegsServed() && RxReady(s)
      ensures old(Port(s).count) <= k <= Port(s).count
      ensures Port(s).taken == Boundary(Port(s).script, k)
    {
      hide Tx.Holds, Tx.Free, Wrap16, Be16, Hi, Lo, Boundary;
      var _ := GetRxReadPointer(s);
      var writePtr := GetRxWritePointer(s);
      k := Port(s).count;
      ghost var n := Port(s).Arrived() - Port(s).taken;
      SetRxReadPointer(s, writePtr);
      PointerAdvances(Port(s).taken, n);
      BoundaryMonotone(Port(s).script, k, Port(s).count);
      PendingBelowRing(s);
      SendSocketCommand(s, RECV);
    }

    lemma TxBase(s: nat)
      requires s < |bus.chip.ports| && Port(s).Valid()
      ensures Port(s).tx.base == Wrap16(|Port(s).queued|)
    {
    }

    lemma PendingBelowRing(s: nat)
      requires s < |bus.chip.ports| && Port(s).Valid()
      ensures Port(s).Arrived() - Port(s).taken < U16
    {
    }
  }

  lemma PointerAdvances(taken: nat, n: nat)
    ensures Wrap16(Wrap16(taken) + n) == Wrap16(taken + n)
    ensures n < U16 ==> Sub16(Wrap16(taken + n), Wrap16(taken)) == n
  {
    WrapTwice(taken, n);
  }
}

/** Sockets: the write offset of a gathered packet, and the unread rest of a received one. */
module Sockets {
  import opened Words
  import opened Rings
  import opened Framing
  import opened Registers
  import opened Chip
  import opened Driver

  class Socket {
    const driver: W5500
    const sockfd: nat
    /** Bytes written since the last send. */
    var writeOffset: u16

    constructor (driver: W5500, sockfd: nat)
      ensures this.driver == driver && this.sockfd == sockfd && writeOffset == 0
      ensures driver.Valid() && sockfd < MAX_SOCKETS && Port().Valid() && Fresh() ==> Attached() && Valid()
    {
      this.driver := driver;
      this.sockfd := sockfd;
      writeOffset := 0;
    }

    ghost predicate Attached()
      reads driver.bus.chip
    {
      driver.Valid() && sockfd < MAX_SOCKETS
    }

    function Port(): Port
      requires sockfd < |driver.bus.chip.ports|
    {
      driver.bus.chip.ports[sockfd]
    }

    /** The port is as after a reset. */
    ghost predicate Fresh()
      requires sockfd < |driver.bus.chip.ports|
      reads Port()
    {
      Port().taken == 0 && Port().rx.rd == 0 && Port().tx.wr == 0 && Port().queued == Port().gathered == []
    }

    ghost predicate Valid()
      requires Attached()
      reads this, driver.bus.chip, Port()
    {
      && Port().Valid()
      && driver.TxReady(sockfd)
      && driver.RxReady(sockfd)
      && writeOffset == |Port().gathered|
    }

    // ---- Gathering and sending ----

    /** Only gathering has happened since: nothing sent, no free space lost. */
    twostate predicate OnlyGathered()
      requires Attached()
      reads this, driver.bus.chip, Port()
    {
      && Valid() && Port().RxServed() && Port().RegsServed()
      && Port().sent == old(Port().sent) && old(Port().tx.Free()) <= Port().tx.Free()
    }

    method Write(data: seq<byte>) returns (ret: nat)
      requires Attached() && Valid()
      requires writeOffset == 0 || writeOffset + |data| <= Port().tx.Free()
      modifies this, Port()
      ensures Valid() && Port().RxServed() && Port().RegsServed()
      ensures ret <= |data| && Port().gathered == old(Port().gathered) + data[..ret]
      ensures old(writeOffset) + |data| <= old(Port().tx.Free()) ==>
        ret == |data| && Port().gathered == old(Port().gathered) + data
      ensures ret < |data| ==> old(Port().tx.Free()) <= ret
      ensures Port().sent == old(Port().sent) && old(Port().tx.Free()) <= Port().tx.Free()
    {
      hide Tx.Holds, Rx.Holds, Tx.Free, Wrap16;
      GatheredFits();
      ret := driver.Write(sockfd, data, writeOffset);
      GatheredFits();
      WrapSmall(writeOffset + ret);
      writeOffset := Wrap16(writeOffset + ret);
    }

    method SendBuffer(data: seq<byte>) returns (ret: nat)
      requires Attached() && Valid()
      requires writeOffset == 0 || writeOffset + |data| <= Port().tx.Free()
      modifies this, Port()
      ensures Valid() && Port().RxServed() && Port().RegsServed()
      ensures ret <= |data| && writeOffset == 0
      ensures ret < |data| ==> old(Port().tx.Free()) <= ret < old(writeOffset) + |data|
      ensures old(writeOffset) + |data| <= old(Port().tx.Free()) ==> ret == |data| && data[..ret] == data
      ensures Port().sent
        == old(Port().sent) + [Sent(Port().DestIp(), Port().DestPort(), old(Port().gathered) + data[..ret])]
    {
      ret := driver.SendBuffer(sockfd, data, writeOffset);
      writeOffset := 0;
    }

    /** Does nothing at all when nothing has been written. */
    method Send()
      requires Attached() && Valid()
      modifies this, Port()
      ensures Valid() && Port().RxServed() && Port().RegsServed()
      ensures writeOffset == 0
      ensures old(writeOffset) == 0 ==> Port().sent == old(Port().sent)
      ensures old(writeOffset) != 0 ==>
        Port().sent == old(Port().sent) + [Sent(Port().DestIp(), Port().DestPort(), old(Port().gathered))]
    {
      if writeOffset == 0 {
        return;
      }
      driver.Send(sockfd);
      writeOffset := 0;
    }

    lemma GatheredFits()
      requires Attached() && Port().Valid()
      ensures |Port().gathered| < U16
      ensures |Port().gathered| <= Port().tx.Free() < U16
    {
      var p := Port();
      TxFree(p.tx.(wr := Wrap16(|p.queued| + |p.gathered|)), p.queued, p.done, p.gathered);
    }

    // ---- Registers ----

    method SetUdpMode()
      requires Attached() && Valid()
      modifies Port()
      ensures Valid() && Port().RxServed() && Port().TxServed() && Port().control == old(Port().control)
      ensures Port().regs[0x00] == 2 && Port().DestIp() == old(Port().DestIp())
      ensures Port().DestPort() == old(Port().DestPort()) && Port().SourcePort() == old(Port().SourcePort())
    {
      hide Tx.Holds, Rx.Holds, Tx.Free, Wrap16, Be16;
      driver.WriteSocket(MODE, sockfd, [MODE_UDP]);
      assert Port().regs[0x00..0x01] == [MODE_UDP];
      assert Port().regs[0x00] == [MODE_UDP][0];
    }

    method SetDestIp(ip: seq<byte>)
      requires Attached() && Valid() && |ip| == 4
      modifies Port()
      ensures Valid() && Port().RxServed() && Port().TxServed() && Port().control == old(Port().control)
      ensures Port().DestIp() == ip
      ensures Port().DestPort() == old(Port().DestPort()) && Port().SourcePort() == old(Port().SourcePort())
    {
      driver.WriteSocket(DEST_IP, sockfd, ip);
    }

    method SetDestPort(port: u16)
      requires Attached() && Valid()
      modifies Port()
      ensures Valid() && Port().RxServed() && Port().TxServed() && Port().control == old(Port().control)
      ensures Port().DestPort() == port
      ensures Port().DestIp() == old(Port().DestIp()) && Port().SourcePort() == old(Port().SourcePort())
    {
      Be16RoundTrip(port);
      driver.WriteSocket(DEST_PORT, sockfd, Bytes16(port));
      hide Be16;
      assert Port().regs[0x10..0x12] == Bytes16(port);
      assert Port().regs[0x10] == Bytes16(port)[0] && Port().regs[0x11] == Bytes16(port)[1];
    }

    method SetSourcePort(port: u16)
      requires Attached() && Valid()
      modifies Port()
      ensures Valid() && Port().RxServed() && Port().TxServed() && Port().control == old(Port().control)
      ensures Port().SourcePort() == port
      ensures Port().DestIp() == old(Port().DestIp()) && Port().DestPort() == old(Port().DestPort())
    {
      Be16RoundTrip(port);
      driver.WriteSocket(SOURCE_PORT, sockfd, Bytes16(port));
      hide Be16;
      assert Port().regs[0x04..0x06] == Bytes16(port);
      assert Port().regs[0x04] == Bytes16(port)[0] && Port().regs[0x05] == Bytes16(port)[1];
    }

    method Close()
      requires Attached() && Valid()
      modifies Port()
      ensures Valid() && Port().RxServed() && Port().TxServed() && Port().RegsServed()
      ensures Port().control == old(Port().control) + [0x10]
    {
      driver.SendSocketCommand(sockfd, CLOSE);
    }

    method GetInterruptFlags() returns (flags: byte)
      requires Attached() && Valid()
      modifies Port(), Port().polls
      ensures Valid() && Port().Served() && flags == Port().regs[0x02]
      ensures Port().polls.flags == old(Port().polls.flags) + [flags]
      ensures Port().polls.status == old(Port().polls.status)
    {
      var data := driver.ReadSocket(INTERRUPT, sockfd);
      flags := data[0];
    }

    method ClearInterruptFlag(flag: byte)
      requires Attached() && Valid()
      modifies Port()
      ensures Valid() && Port().Served() && Port().regs[0x02] == flag
    {
      driver.WriteSocket(INTERRUPT, sockfd, [flag]);
      assert Port().regs[0x02..0x03] == [flag];
      assert Port().regs[0x02] == [flag][0];
    }
  }

  class UdpSocket {
    const base: Socket
    /** Unread bytes of the current packet. */
    var packetBytesRemaining: int
    /** How many packets of the script have had their header read, or were flushed. */
    ghost var index: nat

    constructor (base: Socket)
      ensures this.base == base && packetBytesRemaining == 0 && index == 0
      ensures base.Attached() && base.Valid() && base.Fresh() ==> Attached() && Valid()
    {
      this.base := base;
      packetBytesRemaining := 0;
      index := 0;
    }

    ghost predicate Attached()
      reads base.driver.bus.chip
    {
      base.Attached()
    }

    function Port(): Port
      requires base.sockfd < |base.driver.bus.chip.ports|
    {
      base.Port()
    }

    ghost predicate Valid()
      requires Attached()
      reads this, base, base.driver.bus.chip, Port()
    {
      && base.Valid()
      && index <= Port().count
      && Port().taken + packetBytesRemaining == Boundary(Port().script, index)
      && 0 <= packetBytesRemaining
      && (index == 0 ==> packetBytesRemaining == 0)
      && (index > 0 ==> packetBytesRemaining <= |Port().script[index - 1].payload|)
    }

    /** The part of the current packet's payload that has not been read. */
    ghost function Unread(): (rest: seq<byte>)
      requires Attached() && Valid()
      reads this, base, base.driver.bus.chip, Port()
      ensures |rest| == packetBytesRemaining
    {
      if index == 0 then [] else
      var payload := Port().script[index - 1].payload;
      payload[|payload| - packetBytesRemaining..]
    }

    /** What the receive operations leave alone. */
    twostate predicate SendSideKept()
      requires Attached() && old(Attached())
      reads this, base, base.driver.bus.chip, Port()
    {
      && Port().TxServed() && Port().RegsServed()
      && base.writeOffset == old(base.writeOffset)
    }

    method Ready() returns (b: bool)
      requires Attached() && Valid()
      modifies Port(), Port().polls
      ensures Valid() && Port().Served() && Unread() == old(Unread())
      ensures StatusPolled(old(Port().polls.status), Port().polls.status, b)
      ensures Port().polls.flags == old(Port().polls.flags)
      ensures b <==> Port().regs[0x03] == 0x22
    {
      hide Tx.Holds, Rx.Holds, Tx.Free, Wrap16, Be16, Boundary, Flatten;
      var status := base.driver.ReadSocket(STATUS, base.sockfd);
      b := status[0] == STATUS_UDP;
    }

    method Init() returns (b: bool)
      requires Attached() && Valid()
      modifies Port(), Port().polls
      ensures StatusPolled(old(Port().polls.status), Port().polls.status, b)
      ensures Port().polls.flags == old(Port().polls.flags)
      ensures Valid() && Unread() == old(Unread()) && Port().RxServed() && Port().TxServed()
      ensures Port().DestIp() == old(Port().DestIp()) && Port().DestPort() == old(Port().DestPort())
      ensures Port().regs[0x00] == 2 && Port().control == old(Port().control) + [0x01]
      ensures b <==> Port().regs[0x03] == 0x22
    {
      hide Tx.Holds, Rx.Holds, Tx.Free, Wrap16, Be16, Boundary, Flatten;
      base.SetUdpMode();
      label Set:
      b := Open();
      Port().DestinationKept@Set();
    }

    method SendOpen()
      requires Attached() && Valid()
      modifies Port()
      ensures Valid() && Unread() == old(Unread()) && Port().RxServed() && Port().TxServed() && Port().RegsServed()
      ensures Port().control == old(Port().control) + [0x01]
    {
      hide Tx.Holds, Rx.Holds, Tx.Free, Wrap16, Be16, Boundary, Flatten;
      base.driver.SendSocketCommand(base.sockfd, OPEN);
    }

    method Open() returns (b: bool)
      requires Attached() && Valid()
      modifies Port(), Port().polls
      ensures StatusPolled(old(Port().polls.status), Port().polls.status, b)
      ensures Port().polls.flags == old(Port().polls.flags)
      ensures Valid() && Unread() == old(Unread()) && Port().RxServed() && Port().TxServed() && Port().RegsServed()
      ensures Port().control == old(Port().control) + [0x01] && (b <==> Port().regs[0x03] == 0x22)
    {
      hide Tx.Holds, Rx.Holds, Tx.Free, Wrap16, Be16, Boundary, Flatten, UdpSocket.Unread;
      SendOpen();
      b := Ready();
    }

    /** Whether the RECV flag was up when the interrupt register was read; if so it is cleared. */
    method CheckFlag() returns (recv: bool)
      requires Attached() && Valid()
      modifies Port(), Port().polls
      ensures Valid() && Port().Served() && Unread() == old(Unread()) && Port().DestIp() == old(Port().DestIp())
      ensures FlagPolled(old(Port().polls.flags), Port().polls.flags, recv)
      ensures Port().polls.status == old(Port().polls.status)
      ensures Port().regs[0x02] == if recv then 4 else Port().polls.flags[|old(Port().polls.flags)|]
    {
      hide Tx.Holds, Rx.Holds, Tx.Free, Wrap16, Be16, Boundary, Flatten;
      var flags := base.GetInterruptFlags();
      recv := flags / FLAG_RECV % 2 == 1;
      if recv {
        base.ClearInterruptFlag(FLAG_RECV);
      }
      Port().DestinationKept();
    }

    lemma IndexInScript()
      requires Attached() && Valid()
      ensures index <= Port().count <= |Port().script|
    {
    }

    lemma UnreadAhead(n: nat)
      requires Attached() && Valid() && n <= packetBytesRemaining
      ensures Port().taken + n <= Port().Arrived()
      ensures base.driver.Ahead(base.sockfd, n) == Unread()[..n]
    {
      var p := Port();
      BoundaryMonotone(p.script, index, p.count);
      hide Tx.Holds, Rx.Holds, Tx.Free, Wrap16, Flatten;
      if index > 0 {
        hide Boundary;
        RestOfPayload(p.script, index - 1, p.taken, packetBytesRemaining, n);
      }
    }

    method HasPacket() returns (b: bool)
      requires Attached() && Valid()
      modifies Port()
      ensures Valid() && Port().Served() && index == old(index)
      ensures Unread() == old(Unread())
      ensures packetBytesRemaining == 0 ==> (b <==> index < Port().count)
    {
      hide Tx.Holds, Rx.Holds, Tx.Free, Boundary;
      var rxBytes := base.driver.GetRxByteCount(base.sockfd);
      BoundaryMonotone(Port().script, index, Port().count);
      b := rxBytes >= HEADER;
    }

    /** The header values belong to the current packet, and none of its payload has been read. */
    ghost predicate Opened(size: int, sourceIp: seq<byte>, sourcePort: u16)
      requires Attached() && Valid() && index > 0
      reads this, base, base.driver.bus.chip, Port()
    {
      var d := Port().script[index - 1];
      sourceIp == d.ip && sourcePort == d.port && size == |d.payload| && Unread() == d.payload
    }

    /** Takes the header of the next packet off the stream, or returns -1 when there is none. */
    method ReadPacketHeader() returns (size: int, sourceIp: seq<byte>, sourcePort: u16)
      requires Attached() && Valid() && packetBytesRemaining == 0
      modifies this, Port()
      ensures Valid() && SendSideKept() && old(Port().count) <= Port().count
      ensures size < 0 ==> size == -1 && index == old(index) == old(Port().count) && packetBytesRemaining == 0
      ensures size >= 0 ==> index == old(index) + 1 <= Port().count <= |Port().script|
      ensures size >= 0 ==> Opened(size, sourceIp, sourcePort)
    {
      hide Tx.Holds, Rx.Holds, Tx.Free, Wrap16, Be16, Hi, Lo, Boundary, Flatten;
      var hasPacket := HasPacket();
      if !hasPacket {
        return -1, [], 0;
      }
      ghost var d := Port().script[index];
      NextBoundary(Port().script, index);
      HeaderAt(Port().script, index);
      BoundaryMonotone(Port().script, index + 1, Port().count);
      var buf := base.driver.Read(base.sockfd, HEADER);
      HeaderDecodes(d);
      assert buf == Header(d);
      sourceIp := buf[..4];
      sourcePort := Be16(buf[4], buf[5]);
      packetBytesRemaining := Be16(buf[6], buf[7]);
      index := index + 1;
      size := packetBytesRemaining;
    }

    /** The header values of the next packet, without taking anything off the stream. */
    method PeekPacket() returns (size: int, sourceIp: seq<byte>, sourcePort: u16)
      requires Attached() && Valid() && packetBytesRemaining == 0
      modifies Port()
      ensures Valid() && Port().Served() && Unread() == []
      ensures size < 0 ==> size == -1 && index == old(Port().count)
      ensures size >= 0 ==> index < Port().count
      ensures size >= 0 ==>
        var d := Port().script[index]; sourceIp == d.ip && sourcePort == d.port && size == |d.payload|
    {
      hide Tx.Holds, Rx.Holds, Tx.Free, Wrap16, Be16, Hi, Lo, Boundary, Flatten;
      var hasPacket := HasPacket();
      if !hasPacket {
        return -1, [], 0;
      }
      ghost var d := Port().script[index];
      NextBoundary(Port().script, index);
      HeaderAt(Port().script, index);
      BoundaryMonotone(Port().script, index + 1, Port().count);
      var buf := base.driver.Peek(base.sockfd, HEADER);
      HeaderDecodes(d);
      assert buf == Header(d);
      return Be16(buf[6], buf[7]), buf[..4], Be16(buf[4], buf[5]);
    }

    method Read(n: nat) returns (data: seq<byte>)
      requires Attached() && Valid() && n <= packetBytesRemaining
      modifies this, Port()
      ensures Valid() && SendSideKept() && index == old(index) && old(Port().count) <= Port().count
      ensures data == old(Unread())[..n] && Unread() == old(Unread())[n..]
    {
      hide Tx.Holds, Rx.Holds, Tx.Free, Wrap16, Boundary, Flatten;
      UnreadAhead(n);
      data := base.driver.Read(base.sockfd, n);
      packetBytesRemaining := packetBytesRemaining - n;
    }

    method ReadByte() returns (b: byte)
      requires Attached() && Valid() && 1 <= packetBytesRemaining
      modifies this, Port()
      ensures Valid() && SendSideKept() && index == old(index) && old(Port().count) <= Port().count
      ensures b == old(Unread())[0] && Unread() == old(Unread())[1..]
    {
      hide Tx.Holds, Rx.Holds, Tx.Free, Wrap16, Boundary, Flatten;
      UnreadAhead(1);
      var data := base.driver.Read(base.sockfd, 1);
      b := data[0];
      packetBytesRemaining := packetBytesRemaining - 1;
    }

    method Skip(n: nat)
      requires Attached() && Valid() && n <= packetBytesRemaining
      modifies this, Port()
      ensures Valid() && SendSideKept() && index == old(index) && old(Port().count) <= Port().count
      ensures Unread() == old(Unread())[n..]
    {
      hide Tx.Holds, Rx.Holds, Tx.Free, Wrap16, Boundary, Flatten;
      UnreadAhead(n);
      base.driver.Skip(base.sockfd, n);
      packetBytesRemaining := packetBytesRemaining - n;
    }

    method SkipToPacketEnd()
      requires Attached() && Valid()
      modifies this, Port()
      ensures Valid() && SendSideKept() && index == old(index) && old(Port().count) <= Port().count
      ensures Unread() == [] && Port().taken == Boundary(Port().script, index)
    {
      Skip(packetBytesRemaining);
    }

    /** Drops the rest of the current packet and every packet behind it that has arrived. */
    method Flush()
      requires Attached() && Valid()
      modifies this, Port()
      ensures Valid() && SendSideKept() && old(Port().count) <= Port().count
      ensures old(Port().count) <= index && Unread() == []
    {
      ghost var k := base.driver.Flush(base.sockfd);
      index := k;
      packetBytesRemaining := 0;
    }
  }

  /** One more value was read from the interrupt register, and `recv` tells whether it had RECV up. */
  ghost predicate FlagPolled(was: seq<byte>, now: seq<byte>, recv: bool) {
    |now| == |was| + 1 && was <= now && (recv <==> now[|was|] / 4 % 2 == 1)
  }

  /** One more value was read from the status register, and `up` tells whether it said UDP. */
  ghost predicate StatusPolled(was: seq<byte>, now: seq<byte>, up: bool) {
    |now| == |was| + 1 && was <= now && (up <==> now[|was|] == 0x22)
  }

  lemma NextBoundary(ds: seq<Datagram>, k: nat)
    requires k < |ds|
    ensures Boundary(ds, k + 1) == Boundary(ds, k) + HEADER + |ds[k].payload|
  {
  }

  lemma HeaderDecodes(d: Datagram)
    requires d.Valid()
    ensures Header(d)[..4] == d.ip
    ensures Be16(Header(d)[4], Header(d)[5]) == d.port
    ensures Be16(Header(d)[6], Header(d)[7]) == |d.payload|
  {
    Be16RoundTrip(d.port);
    Be16RoundTrip(|d.payload|);
  }
}

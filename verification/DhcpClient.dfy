/** The DHCP client itself, on top of the socket layer; `DhcpFsm.Step` specifies its updates. */
module DhcpClient {
  import opened Words
  import opened Framing
  import R = Registers
  import opened Driver
  import opened Sockets
  import opened DhcpOptions
  import opened DhcpPacket
  import opened DhcpFsm
  import Runs = DhcpRuns
  import Ids = DhcpIds
  import C = Chip
  import H = DhcpHeader
  import Rings

  const SERVER_PORT: u16 := 67
  const CLIENT_PORT: u16 := 68

  /** Values read from the interrupt and the status register, and random numbers drawn. */
  datatype Polled = Polled(flags: seq<byte>, status: seq<byte>, drawn: seq<nat>)

  /** The status register said UDP at once, or after an OPEN, or not even then. */
  ghost predicate LinkPolled(was: seq<byte>, now: seq<byte>, link: Link) {
    was <= now && match link
      case Ready => |now| == |was| + 1 && now[|was|] == 0x22
      case Opened => |now| == |was| + 2 && now[|was|] != 0x22 && now[|was| + 1] == 0x22
      case Down => |now| == |was| + 2 && now[|was|] != 0x22 && now[|was| + 1] != 0x22
  }

  /** One random number was drawn, and `random` is its low 32 bits. */
  ghost predicate DrawnAs(was: seq<nat>, now: seq<nat>, random: u32) {
    |now| == |was| + 1 && was <= now && random == now[|was|] % 0x1_0000_0000
  }

  /** The input of an update in this phase says what the update read. */
  ghost predicate Saw(phase: Phase, was: Polled, now: Polled, i: Input) {
    match phase
    case Start =>
      && now.flags == was.flags && LinkPolled(was.status, now.status, i.link)
      && (if i.link == Down then now.drawn == was.drawn else DrawnAs(was.drawn, now.drawn, i.random))
    case Leased => now == was
    case _ => now.status == was.status && now.drawn == was.drawn && FlagPolled(was.flags, now.flags, i.recv)
  }

  /** The run a client has been through. */
  class Trace {
    ghost var states: seq<Machine>
    ghost var inputs: seq<Input>

    constructor ()
    {
      states, inputs := [], [];
    }

    ghost method Begin(m: Machine)
      modifies this
      ensures states == [m] && inputs == []
    {
      states, inputs := [m], [];
    }

    ghost method Extend(i: Input)
      requires Run(states, inputs) && Legal(i) && TimeAt(inputs, |inputs|) <= i.c0
      requires Admitted(states[|inputs|], i)
      modifies this
      ensures states == old(states) + [Step(old(states[|inputs|]), i)] && inputs == old(inputs) + [i]
      ensures Run(states, inputs) && states[|inputs|] == Step(old(states[|inputs|]), i)
      ensures TimeAt(inputs, |inputs|) == i.c3
    {
      Runs.RunExtends(states, inputs, i);
      hide Step, Run;
      states, inputs := states + [Step(states[|inputs|], i)], inputs + [i];
    }
  }

  class Client {
    const driver: W5500
    const socket: UdpSocket
    const hostname: seq<byte>

    var initialXid: u32
    var xid: u32
    var localIp: Address
    var dhcpServerIp: Address
    var subnetMask: Address
    var gatewayIp: Address
    var dnsServerIp: Address
    var leaseDuration: u32
    var timerT1: u32
    var timerT2: u32
    var state: Phase
    var leaseRequestStart: nat
    var lastDiscoverBroadcast: nat
    var firstRequestBroadcast: nat
    var lastRequestBroadcast: nat
    var renewDeadline: nat
    var rebindDeadline: nat
    ghost var history: History
    const trace: Trace
    /** Packets the socket had sent before the client's first. */
    ghost const before: nat

    ghost predicate Attached()
      reads driver.bus.chip
    {
      driver.Valid() && socket.base.driver == driver && socket.Attached()
    }

    function Port(): C.Port
      requires socket.base.driver == driver && socket.base.sockfd < |driver.bus.chip.ports|
    {
      socket.Port()
    }

    ghost function Held(): Lease
      reads this
    {
      Lease(localIp, dhcpServerIp, subnetMask, gatewayIp, dnsServerIp, leaseDuration)
    }

    /** The client and the registers it has set on the chip, as the transition system sees them. */
    ghost function View(): Machine
      requires Attached() && |Port().regs| == 0x30
      reads this, driver.bus.chip, Port()
    {
      Machine(state, initialXid, xid, Held(), timerT1, timerT2, leaseRequestStart,
              lastDiscoverBroadcast, firstRequestBroadcast, lastRequestBroadcast, renewDeadline, rebindDeadline,
              Net(), Port().DestIp(), history)
    }

    ghost function Net(): NetConfig
      requires Attached()
      reads driver.bus.chip
    {
      var a := driver.Addresses();
      NetConfig(a.0, a.1, a.3)
    }

    /** The bytes of a packet in the log. */
    ghost function PacketOf(msg: Message, mac: Mac): seq<byte> {
      PacketSent(msg.kind, msg.xid, SecondsElapsed(msg.started, msg.at), mac, hostname, msg.lease)
    }

    /** The packets in the log are the ones that went out after the first `before`. */
    ghost predicate OnTheWire(log: seq<Message>, sent: seq<C.Sent>, before: nat, mac: Mac) {
      && |sent| == before + |log|
      && forall j | 0 <= j < |log| ::
        sent[before + j].ip == log[j].dest && sent[before + j].data == PacketOf(log[j], mac)
    }

    /** Between updates: nothing half read, nothing half written, no time stamp in the future. */
    ghost predicate Valid()
      requires Attached()
      reads this, socket, socket.base, driver.bus, driver.bus.chip, Port()
    {
      && SocketIdle()
      && Past(View(), driver.bus.clock)
      && OnTheWire(history.log, Port().sent, before, driver.Mac())
    }

    /** The client is in the last state of a run, so that whatever holds of runs holds of its past. */
    ghost predicate Traced()
      requires Attached() && |Port().regs| == 0x30
      reads this, trace, driver.bus, driver.bus.chip, Port()
    {
      && Sourced(Port().script, driver.Mac(), trace.states, trace.inputs)
      && Run(trace.states, trace.inputs) && trace.states[|trace.inputs|] == View()
      && TimeAt(trace.inputs, |trace.inputs|) <= driver.bus.clock
    }

    constructor (driver: W5500, socket: UdpSocket, hostname: seq<byte>)
      requires driver.Valid() && socket.base.driver == driver && socket.Attached() && socket.Valid()
      requires socket.packetBytesRemaining == 0 && socket.base.writeOffset == 0
      ensures this.driver == driver && this.socket == socket && this.hostname == hostname
      ensures Attached() && Valid() && Initial(View()) && Traced()
      ensures fresh(trace) && trace.inputs == []
    {
      this.driver, this.socket, this.hostname := driver, socket, hostname;
      initialXid, xid := 0, 0;
      leaseDuration, timerT1, timerT2 := 0, 0, 0;
      state := Phase.Start;
      leaseRequestStart, lastDiscoverBroadcast := 0, 0;
      firstRequestBroadcast, lastRequestBroadcast := 0, 0;
      renewDeadline, rebindDeadline := 0, 0;
      history := History([], 0, 0, 0, 0, false, []);
      before := |socket.Port().sent|;
      trace := new Trace();
      new;
      trace.Begin(View());
    }

    /** Puts the client's own addresses in the chip's registers. */
    method Configure()
      requires Attached()
      modifies driver.bus.chip
      ensures Attached()
      ensures Net() == NetConfig(gatewayIp, subnetMask, localIp) && driver.Mac() == old(driver.Mac())
    {
      hide W5500.Addresses;
      driver.SetGateway(gatewayIp);
      driver.SetSubnetMask(subnetMask);
      driver.SetIp(localIp);
    }

    method ResetCurrentLease()
      requires Attached() && SocketIdle()
      modifies `localIp, `dhcpServerIp, `subnetMask, `gatewayIp, `dnsServerIp, `leaseDuration, driver.bus.chip
      ensures Attached() && SocketIdle()
      ensures Held() == NO_LEASE && Net() == UNCONFIGURED && driver.Mac() == old(driver.Mac())
    {
      ClearFields();
      hide W5500.Addresses, Net;
      Configure();
    }

    method ClearFields()
      modifies `localIp, `dhcpServerIp, `subnetMask, `gatewayIp, `dnsServerIp, `leaseDuration
      ensures Held() == NO_LEASE
    {
      localIp := NO_ADDRESS;
      dhcpServerIp := NO_ADDRESS;
      subnetMask := NO_ADDRESS;
      gatewayIp := NO_ADDRESS;
      dnsServerIp := NO_ADDRESS;
      leaseDuration := 0;
    }

    // ---- Writing a packet ----

    static method EmbedU16(buffer: array<byte>, at: nat, v: u16)
      requires at + 2 <= buffer.Length
      modifies buffer
      ensures buffer[..] == old(buffer[..at]) + Bytes16(v) + old(buffer[at + 2..])
    {
      buffer[at] := Hi(v);
      buffer[at + 1] := Lo(v);
    }

    static method EmbedU32(buffer: array<byte>, at: nat, v: u32)
      requires at + 4 <= buffer.Length
      modifies buffer
      ensures buffer[..] == old(buffer[..at]) + Bytes32(v) + old(buffer[at + 4..])
    {
      buffer[at] := v / 0x100_0000;
      buffer[at + 1] := v / 0x1_0000 % 0x100;
      buffer[at + 2] := v / 0x100 % 0x100;
      buffer[at + 3] := v % 0x100;
    }

    /** Copies bytes into the buffer; also the way `memset` to zero is written. */
    static method Fill(buffer: array<byte>, at: nat, data: seq<byte>)
      requires at + |data| <= buffer.Length
      modifies buffer
      ensures buffer[..] == old(buffer[..at]) + data + old(buffer[at + |data|..])
    {
      for i := 0 to |data|
        invariant buffer[..at] == old(buffer[..at]) && buffer[at..at + i] == data[..i]
        invariant buffer[at + i..] == old(buffer[at + i..])
      {
        buffer[at + i] := data[i];
      }
    }

    /** The first 28 bytes. */
    method WriteFixed(buffer: array<byte>, secs: u16)
      requires Attached() && socket.base.Valid() && buffer.Length == 32 && buffer[..] == ZeroBytes(32)
      requires socket.base.writeOffset + 28 <= Port().tx.Free()
      modifies buffer, socket.base, Port()
      ensures socket.base.OnlyGathered()
      ensures Port().gathered == old(Port().gathered)
        + ([1, 1, 6, 0] + Bytes32(xid) + Bytes16(secs) + Bytes16(BROADCAST_FLAG) + ZeroBytes(16))
      ensures buffer[..] == ZeroBytes(32)
    {
      FillFixed(buffer, xid, secs);
      hide Bytes32, Bytes16;
      var _ := socket.base.Write(buffer[..28]);
      Fill(buffer, 0, ZeroBytes(32));
    }

    static method FillFixed(buffer: array<byte>, xid: u32, secs: u16)
      requires buffer.Length == 32 && buffer[..] == ZeroBytes(32)
      modifies buffer
      ensures buffer[..28]
        == [1, 1, 6, 0] + Bytes32(xid) + Bytes16(secs) + Bytes16(BROADCAST_FLAG) + ZeroBytes(16)
    {
      hide Bytes32, Bytes16;
      buffer[0], buffer[1], buffer[2], buffer[3] := 1, 1, 6, 0;
      EmbedU32(buffer, 4, xid);
      assert buffer[..8] == [1, 1, 6, 0] + Bytes32(xid) && buffer[8..] == ZeroBytes(24);
      EmbedU16(buffer, 8, secs);
      assert buffer[..10] == [1, 1, 6, 0] + Bytes32(xid) + Bytes16(secs) && buffer[10..] == ZeroBytes(22);
      EmbedU16(buffer, 10, BROADCAST_FLAG);
      assert buffer[..12] == [1, 1, 6, 0] + Bytes32(xid) + Bytes16(secs) + Bytes16(BROADCAST_FLAG);
      assert buffer[12..] == ZeroBytes(20);
      assert buffer[12..28] == buffer[12..][..16] == ZeroBytes(16);
    }

    /** The hardware address field, sname and file: 208 bytes. */
    method WriteAddresses(buffer: array<byte>)
      requires Attached() && socket.base.Valid() && buffer.Length == 32 && buffer[..] == ZeroBytes(32)
      requires socket.base.writeOffset + 208 <= Port().tx.Free()
      modifies buffer, socket.base, Port()
      ensures socket.base.OnlyGathered()
      ensures Port().gathered == old(Port().gathered) + (driver.Mac() + ZeroBytes(10) + ZeroBytes(192))
      ensures buffer[..] == ZeroBytes(32)
    {
      ghost var start := Port().gathered;
      var mac := driver.GetMac();
      Fill(buffer, 0, mac);
      assert buffer[..16] == mac + ZeroBytes(10);
      var _ := socket.base.Write(buffer[..16]);
      Fill(buffer, 0, ZeroBytes(6));
      assert buffer[..] == ZeroBytes(32);
      assert ZeroBytes(0) == [];
      for i := 0 to 6
        invariant socket.base.OnlyGathered() && buffer[..] == ZeroBytes(32)
        invariant Port().gathered == start + (mac + ZeroBytes(10) + ZeroBytes(32 * i))
        invariant socket.base.writeOffset + (6 - i) * 32 <= Port().tx.Free()
      {
        var _ := socket.base.Write(buffer[..32]);
        assert ZeroBytes(32 * i) + ZeroBytes(32) == ZeroBytes(32 * (i + 1));
      }
    }

    /** Magic cookie, message type, client identifier and host name. */
    method WriteIdentity(buffer: array<byte>, kind: byte)
      requires Attached() && socket.base.Valid() && buffer.Length == 32 && buffer[..] == ZeroBytes(32)
      requires socket.base.writeOffset + 18 + |hostname| % 256 <= Port().tx.Free()
      modifies buffer, socket.base, Port()
      ensures socket.base.OnlyGathered()
      ensures Port().gathered == old(Port().gathered) + (Bytes32(MAGIC_COOKIE)
        + [MESSAGE_TYPE, 1, kind, CLIENT_IDENTIFIER, 7, 1] + driver.Mac()
        + [CLIENT_HOSTNAME, |HostnameSent(hostname)|] + HostnameSent(hostname))
    {
      var mac := driver.GetMac();
      var hostnameLen := |hostname| % 256;
      FillIdentity(buffer, kind, mac, hostnameLen);
      hide Bytes32;
      var _ := socket.base.Write(buffer[..18]);
      var _ := socket.base.Write(hostname[..hostnameLen]);
    }

    static method FillIdentity(buffer: array<byte>, kind: byte, mac: Mac, hostnameLen: byte)
      requires buffer.Length == 32
      modifies buffer
      ensures buffer[..18] == Bytes32(MAGIC_COOKIE) + [MESSAGE_TYPE, 1, kind, CLIENT_IDENTIFIER, 7, 1] + mac
        + [CLIENT_HOSTNAME, hostnameLen]
    {
      EmbedU32(buffer, 0, MAGIC_COOKIE);
      buffer[4], buffer[5], buffer[6] := MESSAGE_TYPE, 0x01, kind;
      buffer[7], buffer[8], buffer[9] := CLIENT_IDENTIFIER, 0x07, 0x01;
      Fill(buffer, 10, mac);
      buffer[16], buffer[17] := CLIENT_HOSTNAME, hostnameLen;
    }

    /** The requested address and the chosen server, in a REQUEST only. */
    method WriteRequested(buffer: array<byte>, kind: byte)
      requires Attached() && socket.base.Valid() && buffer.Length == 32
      requires socket.base.writeOffset + 12 <= Port().tx.Free()
      modifies buffer, socket.base, Port()
      ensures socket.base.OnlyGathered()
      ensures Port().gathered == old(Port().gathered)
        + if kind == REQUEST then [REQUESTED_IP, 4] + localIp + [SERVER_IDENTIFIER, 4] + dhcpServerIp else []
    {
      if kind == REQUEST {
        buffer[0], buffer[1] := REQUESTED_IP, 0x04;
        Fill(buffer, 2, localIp);
        buffer[6], buffer[7] := SERVER_IDENTIFIER, 0x04;
        Fill(buffer, 8, dhcpServerIp);
        assert buffer[..12] == [REQUESTED_IP, 4] + localIp + [SERVER_IDENTIFIER, 4] + dhcpServerIp;
        var _ := socket.base.Write(buffer[..12]);
      }
    }

    /** The parameter request list and END. */
    method WriteParams(buffer: array<byte>)
      requires Attached() && socket.base.Valid() && buffer.Length == 32
      requires socket.base.writeOffset + 9 <= Port().tx.Free()
      modifies buffer, socket.base, Port()
      ensures socket.base.OnlyGathered()
      ensures Port().gathered == old(Port().gathered)
        + [PARAM_REQUEST, 6, SUBNET_MASK, ROUTERS, DNS_SERVERS, DOMAIN_NAME, T1_VALUE, T2_VALUE, END]
    {
      buffer[0], buffer[1] := PARAM_REQUEST, 0x06;
      buffer[2], buffer[3], buffer[4] := SUBNET_MASK, ROUTERS, DNS_SERVERS;
      buffer[5], buffer[6], buffer[7] := DOMAIN_NAME, T1_VALUE, T2_VALUE;
      buffer[8] := END;
      assert buffer[..9] == [PARAM_REQUEST, 6, SUBNET_MASK, ROUTERS, DNS_SERVERS, DOMAIN_NAME, T1_VALUE, T2_VALUE, END];
      var _ := socket.base.Write(buffer[..9]);
    }

    /** Room for the longest packet. */
    ghost predicate RoomToSend()
      requires Attached()
      reads driver.bus.chip, Port()
    {
      Port().tx.Free() >= 275 + |hostname| % 256
    }

    /** One more packet has gone out: the one `msg` describes. */
    ghost predicate Transmitted(was: seq<C.Sent>, sent: seq<C.Sent>, msg: Message)
      requires Attached()
      reads driver.bus.chip
    {
      && |sent| == |was| + 1 && was <= sent
      && sent[|was|].ip == msg.dest && sent[|was|].data == PacketOf(msg, driver.Mac())
    }

    /** Gathers a packet, reusing one buffer for all its parts. */
    method GatherPacket(kind: byte, secs: u16)
      requires Attached() && socket.base.Valid() && socket.base.writeOffset == 0 && RoomToSend()
      modifies socket.base, Port()
      ensures socket.base.OnlyGathered()
      ensures Port().gathered == PacketSent(kind, xid, secs, driver.Mac(), hostname, Held())
    {
      var buffer := new byte[32](_ => 0);
      assert buffer[..] == ZeroBytes(32);
      assert Port().gathered == [];
      PacketInPieces(kind, xid, secs, driver.Mac(), hostname, Held());
      hide Bytes32, Bytes16, C.Port.DestIp, W5500.Addresses, Rings.Tx.Holds, Rings.Rx.Holds, Rings.Tx.Free,
        PacketSent, ZeroBytes, HostnameSent;
      WriteFixed(buffer, secs);
      WriteAddresses(buffer);
      WriteIdentity(buffer, kind);
      WriteRequested(buffer, kind);
      WriteParams(buffer);
    }

    method SendDhcpPacket(kind: byte) returns (ghost msg: Message)
      requires Attached() && SocketIdle() && RoomToSend()
      modifies this`history, socket.base, Port(), driver.bus
      ensures SocketIdle() && Port().RxServed() && Port().RegsServed()
      ensures Port().DestIp() == old(Port().DestIp())
      ensures old(driver.bus.clock) <= msg.at <= driver.bus.clock
      ensures msg == Message(kind, xid, leaseRequestStart, msg.at, Held(), Port().DestIp())
      ensures history == old(history).(log := old(history).log + [msg])
      ensures Transmitted(old(Port().sent), Port().sent, msg)
    {
      var now := driver.bus.Millis();
      hide SecondsElapsed, PacketSent, W5500.Addresses, Rings.Tx.Holds, Rings.Rx.Holds;
      GatherPacket(kind, SecondsElapsed(leaseRequestStart, now));
      PacketNotEmpty(kind, xid, SecondsElapsed(leaseRequestStart, now), driver.Mac(), hostname, Held());
      socket.base.Send();
      Port().DestinationKept();
      msg := Message(kind, xid, leaseRequestStart, now, Held(), Port().DestIp());
      history := history.(log := history.log + [msg]);
    }

    // ---- Reading a reply ----

    /** Everything the network will deliver can be parsed without leaving a packet. */
    ghost predicate AllSafe()
      requires Attached()
      reads driver.bus.chip
    {
      forall d | d in Port().script :: Safe(d.payload, driver.Mac())
    }

    /** Only the receive side of the socket has changed. */
    twostate predicate OnlyHeard()
      requires Attached() && old(Attached())
      reads socket, socket.base, driver.bus.chip, Port()
    {
      && socket.Valid() && socket.SendSideKept() && old(Port().count) <= Port().count

    }

    /** The receive side of the socket has moved on within the current packet. */
    twostate predicate OnlyRead()
      requires Attached() && old(Attached())
      reads socket, socket.base, driver.bus.chip, Port()
    {
      && socket.Valid() && socket.SendSideKept() && old(Port().count) <= Port().count
      && socket.index == old(socket.index)
    }

    /** Four bytes of a value of `size` bytes; the rest is skipped. */
    method ReadFour(size: nat) returns (data: Address)
      requires Attached() && socket.Valid() && 4 <= size <= |socket.Unread()|
      modifies socket, Port()
      ensures OnlyRead()
      ensures data == old(socket.Unread())[..4] && socket.Unread() == old(socket.Unread())[size..]
    {
      hide Rings.Tx.Holds, Rings.Rx.Holds, Rings.Tx.Free, C.Port.Valid;
      data := socket.Read(4);
      socket.Skip(size - 4);
    }

    /** The field of one option is set to the first four bytes of its value. */
    method TakeValue(opt: byte, size: nat)
      requires Attached() && socket.Valid() && 4 <= size <= |socket.Unread()|
      requires opt in {SUBNET_MASK, ROUTERS, DNS_SERVERS, SERVER_IDENTIFIER, LEASE_TIME}
      modifies `localIp, `dhcpServerIp, `subnetMask, `gatewayIp, `dnsServerIp, `leaseDuration
      modifies socket, Port()
      ensures OnlyRead()
      ensures Held() == Assigned(opt, old(socket.Unread())[..4], old(Held()))
      ensures socket.Unread() == old(socket.Unread())[size..]
    {
      hide Rings.Tx.Holds, Rings.Rx.Holds, Rings.Tx.Free, C.Port.Valid, UdpSocket.Valid, UdpSocket.Unread,
        Socket.Valid, Assigned;
      var data := ReadFour(size);
      AssignValue(opt, data);
    }

    /** One option other than END, whose code and length have just been read. */
    method ParseValue(opt: byte, optLen: byte, kind: byte) returns (kind': byte)
      requires Attached() && socket.Valid() && opt != END
      requires Fits([opt, optLen] + socket.Unread())
      modifies `localIp, `dhcpServerIp, `subnetMask, `gatewayIp, `dnsServerIp, `leaseDuration
      modifies socket, Port()
      ensures OnlyRead()
      ensures socket.Unread() == ([opt, optLen] + old(socket.Unread()))[Span([opt, optLen] + old(socket.Unread()))..]
      ensures (kind', Held()) == Pass([opt, optLen] + old(socket.Unread()), kind, old(Held()))
    {
      ValueOf(opt, optLen, socket.Unread(), kind, Held());
      hide Rings.Tx.Holds, Rings.Rx.Holds, Rings.Tx.Free, C.Port.Valid, UdpSocket.Valid, UdpSocket.Unread,
        Socket.Valid, Be32, Pass, Span, Fits, Assigned;
      kind' := kind;
      if opt == MESSAGE_TYPE {
        kind' := socket.ReadByte();
      } else if opt == SUBNET_MASK || opt == SERVER_IDENTIFIER || opt == LEASE_TIME {
        TakeValue(opt, 4);
      } else if opt == ROUTERS || opt == DNS_SERVERS {
        TakeValue(opt, optLen);
      } else {
        socket.Skip(optLen);
      }
    }

    method AssignValue(opt: byte, data: Address)
      requires opt in {SUBNET_MASK, ROUTERS, DNS_SERVERS, SERVER_IDENTIFIER, LEASE_TIME}
      modifies `localIp, `dhcpServerIp, `subnetMask, `gatewayIp, `dnsServerIp, `leaseDuration
      ensures Held() == Assigned(opt, data, old(Held()))
    {
      hide Be32;
      if opt == SUBNET_MASK {
        subnetMask := data;
      } else if opt == ROUTERS {
        gatewayIp := data;
      } else if opt == DNS_SERVERS {
        dnsServerIp := data;
      } else if opt == SERVER_IDENTIFIER {
        dhcpServerIp := data;
      } else {
        leaseDuration := Be32(data);
      }
    }

    /** One pass of the option loop; `done` when it met END and dropped the rest of the packet. */
    method ParsePass(kind: byte) returns (kind': byte, done: bool)
      requires Attached() && socket.Valid() && socket.packetBytesRemaining != 0
      requires !Walk(socket.Unread(), kind, Held()).Overrun?
      modifies `localIp, `dhcpServerIp, `subnetMask, `gatewayIp, `dnsServerIp, `leaseDuration
      modifies socket, Port()
      ensures OnlyRead()
      ensures |socket.Unread()| < |old(socket.Unread())| && (done ==> socket.packetBytesRemaining == 0)
      ensures Walk(old(socket.Unread()), kind, old(Held()))
        == if done then Done(kind', Held(), true) else Walk(socket.Unread(), kind', Held())
    {
      hide Rings.Tx.Holds, Rings.Rx.Holds, Rings.Tx.Free, C.Port.Valid, UdpSocket.Valid, UdpSocket.Unread,
        Socket.Valid, Pass, Span, Fits, Walk, Boundary, Flatten, Safe, W5500.Addresses;
      ghost var p := socket.Unread();
      HeadAndTail(p);
      var opt := socket.ReadByte();
      assert p[0] == opt && [opt] + socket.Unread() == p;
      if opt == END {
        WalkEnds(p, kind, Held());
        socket.SkipToPacketEnd();
        kind', done := kind, true;
      } else {
        kind' := PassOption(opt, kind, p);
        done := false;
      }
    }

    /** A pass at an option other than END; `p` is what was left in front of its code. */
    method PassOption(opt: byte, kind: byte, ghost p: seq<byte>) returns (kind': byte)
      requires Attached() && socket.Valid() && opt != END && p == [opt] + socket.Unread()
      requires !Walk(p, kind, Held()).Overrun?
      modifies `localIp, `dhcpServerIp, `subnetMask, `gatewayIp, `dnsServerIp, `leaseDuration
      modifies socket, Port()
      ensures OnlyRead() && |socket.Unread()| < |p|
      ensures Walk(p, kind, old(Held())) == Walk(socket.Unread(), kind', Held())
    {
      hide Rings.Tx.Holds, Rings.Rx.Holds, Rings.Tx.Free, C.Port.Valid, UdpSocket.Valid, UdpSocket.Unread,
        Socket.Valid, Pass, Span, Fits, Walk;
      WalkStep(p, kind, Held());
      kind' := ParseOption(opt, kind);
    }

    method ParseOption(opt: byte, kind: byte) returns (kind': byte)
      requires Attached() && socket.Valid() && opt != END
      requires Fits([opt] + socket.Unread())
      modifies `localIp, `dhcpServerIp, `subnetMask, `gatewayIp, `dnsServerIp, `leaseDuration
      modifies socket, Port()
      ensures OnlyRead()
      ensures socket.Unread() == ([opt] + old(socket.Unread()))[Span([opt] + old(socket.Unread()))..]
      ensures (kind', Held()) == Pass([opt] + old(socket.Unread()), kind, old(Held()))
    {
      ghost var p := [opt] + socket.Unread();
      assert |p| >= 2;
      hide Rings.Tx.Holds, Rings.Rx.Holds, Rings.Tx.Free, C.Port.Valid, UdpSocket.Valid, UdpSocket.Unread,
        Socket.Valid, Pass, Span, Fits;
      var optLen := socket.ReadByte();
      assert [opt, optLen] + socket.Unread() == p;
      kind' := ParseValue(opt, optLen, kind);
    }

    /**
     The option loop. A packet closed by END is taken exactly; one that just runs out is followed
     by a flush of everything else that has arrived.
     */
    method ParseOptions() returns (kind: byte)
      requires Attached() && socket.Valid()
      requires !Walk(socket.Unread(), ERROR, Held()).Overrun?
      modifies `localIp, `dhcpServerIp, `subnetMask, `gatewayIp, `dnsServerIp, `leaseDuration
      modifies socket, Port()
      ensures OnlyHeard() && socket.packetBytesRemaining == 0
      ensures var w := Walk(old(socket.Unread()), ERROR, old(Held()));
        && kind == w.kind && Held() == w.lease
        && (if w.ended then socket.index == old(socket.index) else old(Port().count) <= socket.index)
    {
      ghost var w := Walk(socket.Unread(), ERROR, Held());
      kind := ERROR;
      var done := false;
      hide Rings.Tx.Holds, Rings.Rx.Holds, Rings.Tx.Free, C.Port.Valid, UdpSocket.Valid, UdpSocket.Unread,
        Socket.Valid, Walk;
      while socket.packetBytesRemaining != 0 && !done
        invariant OnlyRead()
        invariant w == if done then Done(kind, Held(), true) else Walk(socket.Unread(), kind, Held())
        invariant done ==> socket.packetBytesRemaining == 0
        decreases |socket.Unread()|
      {
        kind, done := ParsePass(kind);
      }
      if !done {
        WalkAtEnd(kind, Held());
        assert socket.Unread() == [];
        socket.Flush();
      }
    }

    /** What parsing the next payload of the script makes of the fields it starts from. */
    ghost function Reading(k: nat, was: Lease): Walked
      requires Attached() && k < |Port().script| && |Port().script[k].payload| >= H.HEADER_SIZE
      reads this, driver.bus.chip
    {
      Parsed(Port().script[k].payload, driver.Mac(), initialXid, xid, was)
    }

    /**
     Parsing datagram `k` gave `kind` and the present fields. If END closed it, exactly it was
     taken; if not, so were all of the `arrived` datagrams there were.
     */
    ghost predicate HeardFrom(k: nat, arrived: nat, was: Lease, kind: byte)
      requires Attached() && k < |Port().script| && |Port().script[k].payload| >= H.HEADER_SIZE
      reads this, socket, driver.bus.chip
    {
      var w := Reading(k, was);
      && w.Done? && w.kind == kind && w.lease == Held()
      && (if w.ended then socket.index == k + 1 else arrived <= socket.index)
    }

    /** Datagram `j` is still to be read. */
    ghost predicate Queued(j: nat)
      reads socket
    {
      socket.index <= j
    }

    method ParseDhcpResponse() returns (kind: byte, ghost found: bool)
      requires Attached() && socket.Valid() && socket.packetBytesRemaining == 0 && AllSafe()
      modifies `localIp, `dhcpServerIp, `subnetMask, `gatewayIp, `dnsServerIp, `leaseDuration
      modifies socket, Port()
      ensures OnlyHeard() && socket.packetBytesRemaining == 0
      ensures !found ==> kind == ERROR && Held() == old(Held()) && socket.index == old(socket.index)
      ensures !found ==> old(socket.index) == old(Port().count)
      ensures found ==> old(socket.index) < Port().count
      ensures found ==> |Port().script[old(socket.index)].payload| >= H.HEADER_SIZE
      ensures found ==> HeardFrom(old(socket.index), old(Port().count), old(Held()), kind)
      ensures found ==> forall j | old(socket.index) < j < old(Port().count) ::
        Queued(j) <==> Reading(old(socket.index), old(Held())).ended
    {
      hide Rings.Tx.Holds, Rings.Rx.Holds, Rings.Tx.Free, C.Port.Valid, UdpSocket.Valid, UdpSocket.Unread,
        Socket.Valid, W5500.Addresses, W5500.Mac, Walk, Parsed, Boundary, Flatten;
      ghost var k := socket.index;
      var size, _, _ := socket.ReadPacketHeader();
      if size < 0 {
        return ERROR, false;
      }
      found := true;
      ghost var payload := Port().script[k].payload;
      assert Safe(payload, driver.Mac());
      hide Safe;
      SafeParses(payload, driver.Mac(), initialXid, xid, Held());
      kind := ParsePayload(payload);
    }

    /** Everything after the packet's framing header. */
    method ParsePayload(ghost payload: seq<byte>) returns (kind: byte)
      requires Attached() && socket.Valid() && socket.Unread() == payload && Safe(payload, driver.Mac())
      requires Parsed(payload, driver.Mac(), initialXid, xid, Held()).Done?
      modifies `localIp, `dhcpServerIp, `subnetMask, `gatewayIp, `dnsServerIp, `leaseDuration
      modifies socket, Port()
      ensures OnlyHeard() && socket.packetBytesRemaining == 0
      ensures var w := Parsed(payload, driver.Mac(), initialXid, xid, old(Held()));
        && kind == w.kind && Held() == w.lease
        && (if w.ended then socket.index == old(socket.index) else old(Port().count) <= socket.index)
    {
      hide Rings.Tx.Holds, Rings.Rx.Holds, Rings.Tx.Free, C.Port.Valid, UdpSocket.Valid, Socket.Valid,
        W5500.Addresses, Walk, H.Decode;
      var data := socket.Read(H.HEADER_SIZE);
      var header := ParseHeader(data);
      DecodePayload(payload);
      assert H.Decode(data) == H.Decode(payload) by { DecodePrefix(payload); }
      var ok := Accepts(header);
      if !ok {
        socket.Flush();
        return ERROR;
      }
      localIp := header.yiaddr;
      socket.Skip(206);
      assert socket.Unread() == payload[OPTIONS_START..];
      kind := ParseOptions();
    }

    /** The three tests a reply has to pass. */
    method Accepts(header: H.Header) returns (ok: bool)
      requires Attached()
      ensures ok <==> header.op == BOOTREPLY && header.chaddr == driver.Mac() && initialXid <= header.xid <= xid
    {
      if header.op != BOOTREPLY {
        return false;
      }
      var mac := driver.GetMac();
      if header.chaddr != mac {
        return false;
      }
      if header.xid < initialXid || header.xid > xid {
        return false;
      }
      return true;
    }

    static method ParseHeader(data: seq<byte>) returns (header: H.Header)
      requires |data| == H.HEADER_SIZE
      ensures header == H.Decode(data)
    {
      var parsed := new H.ParseContext();
      var _ := parsed.Consume(data, H.HEADER_SIZE);
      H.AbsorbAllDecodes(data);
      header := parsed.View();
    }

    // ---- The state machine ----

    /** The socket is at rest: nothing half read and nothing half written. */
    ghost predicate SocketIdle()
      requires Attached()
      reads socket, socket.base, driver.bus.chip, Port()
    {
      && socket.Valid() && socket.packetBytesRemaining == 0 && socket.base.writeOffset == 0
      && |Port().regs| == 0x30
    }

    /** Brings the socket up if it is not. */
    method OpenSocket() returns (link: Link)
      requires Attached() && SocketIdle()
      modifies Port(), Port().polls
      ensures SocketIdle() && Port().RxServed() && Port().TxServed()
      ensures LinkPolled(old(Port().polls.status), Port().polls.status, link)
      ensures Port().polls.flags == old(Port().polls.flags)
      ensures Port().DestIp() == if link == Opened then [255, 255, 255, 255] else old(Port().DestIp())
      ensures link != Opened ==> (link == Ready <==> Port().regs[0x03] == 0x22)
      ensures link == Opened ==> Port().DestPort() == 67 && Port().SourcePort() == 68
      ensures Port().control == old(Port().control) + if link == Ready then [] else [0x01]
    {
      hide Rings.Tx.Holds, Rings.Rx.Holds, Rings.Tx.Free, UdpSocket.Unread, C.Port.DestPort;
      var ready := socket.Ready();
      if ready {
        Port().DestinationKept();
        return Ready;
      }
      ready := socket.Init();
      if !ready {
        return Down;
      }
      socket.base.SetDestIp(BROADCAST);
      socket.base.SetDestPort(SERVER_PORT);
      socket.base.SetSourcePort(CLIENT_PORT);
      return Opened;
    }

    lemma WireGrows(log: seq<Message>, was: seq<C.Sent>, sent: seq<C.Sent>, msg: Message)
      requires Attached() && OnTheWire(log, was, before, driver.Mac()) && Transmitted(was, sent, msg)
      ensures OnTheWire(log + [msg], sent, before, driver.Mac())
    {
      hide PacketOf;
      forall j | 0 <= j < |log + [msg]|
        ensures sent[before + j].ip == (log + [msg])[j].dest
          && sent[before + j].data == PacketOf((log + [msg])[j], driver.Mac())
      {
        if j < |log| {
          assert sent[before + j] == was[before + j];
        }
      }
    }

    /** What the client has read off the chip and drawn at random so far. */
    ghost function Seen(): Polled
      requires Attached()
      reads driver.bus.chip, Port().polls, driver.bus.draws
    {
      Polled(Port().polls.flags, Port().polls.status, driver.bus.draws.drawn)
    }

    /** The input's clock readings were taken during the call. */
    twostate predicate ReadDuring(i: Input)
      reads driver.bus
    {
      old(driver.bus.clock) <= i.c0 && i.c3 <= driver.bus.clock
    }

    /** The socket brought up, as the transition system sees it. */
    method Connect() returns (link: Link)
      requires Attached() && SocketIdle()
      modifies `history, Port(), Port().polls
      ensures SocketIdle() && Port().RxServed() && Port().TxServed() && history.log == old(history).log
      ensures LinkPolled(old(Port().polls.status), Port().polls.status, link)
      ensures Port().polls.flags == old(Port().polls.flags)
      ensures View() == Linked(old(View()), link)
    {
      hide Rings.Tx.Holds, Rings.Rx.Holds, Rings.Tx.Free, C.Port.Valid, UdpSocket.Valid, UdpSocket.Unread,
        Socket.Valid, C.Port.DestIp, C.Port.DestPort, W5500.Addresses, Net, LinkPolled;
      link := OpenSocket();
      if link == Opened {
        history := history.(isOpen := true, offers := []);
      }
    }

    method FsmStart() returns (ghost i: Input)
      requires Attached() && Valid() && RoomToSend() && state == Phase.Start
      modifies this, socket.base, Port(), Port().polls, driver.bus, driver.bus.draws, driver.bus.chip
      ensures Attached() && Valid() && driver.Mac() == old(driver.Mac())
      ensures Legal(i) && ReadDuring(i) && !i.recv && Saw(Phase.Start, old(Seen()), Seen(), i)
      ensures View() == StepStart(old(View()), i)
    {
      hide Rings.Tx.Holds, Rings.Rx.Holds, Rings.Tx.Free, C.Port.Valid, UdpSocket.Valid, UdpSocket.Unread,
        Socket.Valid, C.Port.DestIp, C.Port.DestPort, W5500.Addresses, OnTheWire, Net, LinkPolled, DrawnAs, Begun,
        Boundary, Flatten, Safe, C.Port.Window;
      ghost var m := View();
      ResetCurrentLease();
      assert View() == Cleared(m);
      var link := Connect();
      if link == Down {
        ghost var now := driver.bus.clock;
        return Input(Down, 0, false, NOTHING, now, now, now, now);
      }
      i := BeginSession(link);
    }

    /** A packet goes out and into the log. */
    method Announce(kind: byte) returns (ghost at: nat)
      requires Attached() && SocketIdle() && RoomToSend()
      requires OnTheWire(history.log, Port().sent, before, driver.Mac())
      modifies this`history, socket.base, Port(), driver.bus
      ensures SocketIdle() && OnTheWire(history.log, Port().sent, before, driver.Mac())
      ensures Port().RxServed() && Port().RegsServed()
      ensures old(driver.bus.clock) <= at <= driver.bus.clock
      ensures View() == Say(old(View()), kind, at)
    {
      hide Rings.Tx.Holds, Rings.Rx.Holds, Rings.Tx.Free, C.Port.Valid, UdpSocket.Valid, Socket.Valid,
        C.Port.DestIp, W5500.Addresses, PacketOf, OnTheWire, Net;
      ghost var log, was := history.log, Port().sent;
      ghost var msg := SendDhcpPacket(kind);
      WireGrows(log, was, Port().sent, msg);
      at := msg.at;
    }

    method PickId() returns (random: u32)
      modifies `history, `initialXid, `xid, `leaseRequestStart, driver.bus, driver.bus.draws
      ensures DrawnAs(old(driver.bus.draws.drawn), driver.bus.draws.drawn, random)
      ensures old(driver.bus.clock) <= leaseRequestStart == driver.bus.clock && initialXid == xid == random
      ensures history == old(history).(session := |old(history).log|, bumps := 0)
    {
      history := history.(session := |history.log|, bumps := 0);
      var r := driver.bus.Random();
      initialXid := Wrap32(r);
      xid := initialXid;
      leaseRequestStart := driver.bus.Millis();
      return initialXid;
    }

    method NewTransaction() returns (random: u32)
      requires Attached() && |Port().regs| == 0x30
      modifies `history, `initialXid, `xid, `leaseRequestStart, driver.bus, driver.bus.draws
      ensures DrawnAs(old(driver.bus.draws.drawn), driver.bus.draws.drawn, random)
      ensures old(driver.bus.clock) <= leaseRequestStart == driver.bus.clock && history.log == old(history).log
      ensures View() == Session(old(View()), random, leaseRequestStart)
    {
      hide C.Port.DestIp, W5500.Addresses, Net;
      random := PickId();
    }

    method StampDiscover()
      requires Attached() && |Port().regs| == 0x30
      modifies `lastDiscoverBroadcast, `state, driver.bus
      ensures old(driver.bus.clock) <= lastDiscoverBroadcast == driver.bus.clock
      ensures View() == old(View()).(lastDiscover := lastDiscoverBroadcast, phase := Phase.Discover)
    {
      hide C.Port.DestIp, W5500.Addresses, Net;
      lastDiscoverBroadcast := driver.bus.Millis();
      state := Phase.Discover;
    }

    method BeginSession(link: Link) returns (ghost i: Input)
      requires Attached() && Valid() && RoomToSend()
      modifies `history, `initialXid, `xid, `leaseRequestStart, `lastDiscoverBroadcast, `state
      modifies socket.base, Port(), driver.bus, driver.bus.draws
      ensures Valid() && Legal(i) && ReadDuring(i) && !i.recv && i.link == link
      ensures DrawnAs(old(driver.bus.draws.drawn), driver.bus.draws.drawn, i.random)
      ensures View() == Begun(old(View()), i)
    {
      hide Rings.Tx.Holds, Rings.Rx.Holds, Rings.Tx.Free, C.Port.Valid, UdpSocket.Valid, Socket.Valid,
        C.Port.DestIp, W5500.Addresses, PacketOf, OnTheWire, Net, View, Say, Session, Past;
      ghost var m, start := View(), driver.bus.clock;
      var random := NewTransaction();
      ghost var started := driver.bus.clock;
      ghost var at := Announce(DISCOVER);
      StampDiscover();
      ghost var now := driver.bus.clock;
      i := Input(link, random, false, NOTHING, started, at, now, now);
      PastBegun(m, i, start, now);
    }

    /** The reply is what parsing datagram `k` of the script makes of the fields `was`. */
    ghost predicate ReplyFrom(k: nat, was: Lease, low: u32, high: u32, reply: Reply)
      requires Attached()
      reads driver.bus.chip
    {
      k < |Port().script| && Makes(Port().script[k].payload, driver.Mac(), low, high, was, reply)
    }

    /** Nothing acceptable was heard, or the next datagram was; the latter if one was queued. */
    ghost predicate Heard(k: nat, queued: nat, was: Lease, reply: Reply)
      requires Attached()
      reads `initialXid, `xid, driver.bus.chip
    {
      && (reply == Reply(ERROR, was, 0) || ReplyFrom(k, was, initialXid, xid, reply))
      && (k < queued ==> ReplyFrom(k, was, initialXid, xid, reply))
    }

    /** What was heard, as a reply. */
    ghost function AsReply(k: nat, kind: byte, found: bool): Reply
      requires Attached() && (found ==> k < |Port().script| && |Port().script[k].payload| >= H.HEADER_SIZE)
      reads this, driver.bus.chip
    {
      Reply(kind, Held(), if found then H.Decode(Port().script[k].payload).xid else 0)
    }

    lemma ReplyMade(k: nat, arrived: nat, was: Lease, kind: byte)
      requires Attached() && k < |Port().script| && |Port().script[k].payload| >= H.HEADER_SIZE
      requires HeardFrom(k, arrived, was, kind)
      ensures ReplyFrom(k, was, initialXid, xid, AsReply(k, kind, true))
    {
      hide Parsed, H.Decode, W5500.Mac;
    }

    /** Parses one packet, if there is one. */
    method Hear() returns (kind: byte, ghost reply: Reply)
      requires Attached() && SocketIdle() && AllSafe()
      modifies `localIp, `dhcpServerIp, `subnetMask, `gatewayIp, `dnsServerIp, `leaseDuration
      modifies socket, Port()
      ensures SocketIdle() && socket.SendSideKept() && Port().DestIp() == old(Port().DestIp())
      ensures View() == old(View()).(lease := Held())
      ensures reply.kind == kind && reply.lease == Held()
      ensures Heard(old(socket.index), old(Port().count), old(Held()), reply)
    {
      hide Rings.Tx.Holds, Rings.Rx.Holds, Rings.Tx.Free, UdpSocket.Unread, C.Port.DestIp, C.Port.DestPort,
        C.Port.SourcePort, W5500.Addresses, W5500.Mac, Parsed, Safe, Flatten, Boundary, HeardFrom, ReplyFrom, Makes,
        Reading, H.Decode, Net;
      ghost var k, was, arrived, found := socket.index, Held(), Port().count, false;
      kind, found := ParseDhcpResponse();
      reply := AsReply(k, kind, found);
      if found {
        ReplyMade(k, arrived, was, kind);
      }
      Port().DestinationKept();
    }

    /** If the RECV flag is up, one packet is parsed. */
    method Listen() returns (recv: bool, kind: byte, ghost reply: Reply)
      requires Attached() && SocketIdle() && AllSafe()
      modifies `localIp, `dhcpServerIp, `subnetMask, `gatewayIp, `dnsServerIp, `leaseDuration
      modifies socket, Port(), Port().polls
      ensures FlagPolled(old(Port().polls.flags), Port().polls.flags, recv)
      ensures Port().polls.status == old(Port().polls.status)
      ensures SocketIdle() && socket.SendSideKept() && Port().DestIp() == old(Port().DestIp())
      ensures View() == if recv then old(View()).(lease := Held()) else old(View())
      ensures reply.kind == kind && reply.lease == Held()
      ensures recv ==> Heard(old(socket.index), old(Port().count), old(Held()), reply)
      ensures Port().sent == old(Port().sent) && (old(RoomToSend()) ==> RoomToSend())
    {
      hide Rings.Tx.Holds, Rings.Rx.Holds, Rings.Tx.Free, C.Port.Valid, UdpSocket.Valid, UdpSocket.Unread,
        Socket.Valid, C.Port.DestIp, C.Port.DestPort, W5500.Addresses, ReplyFrom, Flatten, Boundary;
      recv := socket.CheckFlag();
      if !recv {
        return false, ERROR, Reply(ERROR, Held(), 0);
      }
      kind, reply := Hear();
    }

    /** From now on packets go to the server that made the offer, and nobody else. */
    method ChooseServer()
      requires Attached() && SocketIdle()
      modifies `history, Port()
      ensures SocketIdle() && Port().RxServed() && Port().TxServed()
      ensures history.log == old(history).log
      ensures View() == Chosen(old(View()))
    {
      hide Rings.Tx.Holds, Rings.Rx.Holds, Rings.Tx.Free, UdpSocket.Unread, C.Port.DestPort, W5500.Addresses, Net;
      socket.base.SetDestIp(dhcpServerIp);
      history := history.(offers := history.offers + [dhcpServerIp], retries := 0);
    }

    method StampRequest()
      requires Attached() && |Port().regs| == 0x30
      modifies `history, `lastRequestBroadcast, `firstRequestBroadcast, `state, driver.bus
      ensures old(driver.bus.clock) <= lastRequestBroadcast <= firstRequestBroadcast == driver.bus.clock
      ensures history.log == old(history).log
      ensures View() == Stamped(old(View()), lastRequestBroadcast, firstRequestBroadcast)
    {
      hide C.Port.DestIp, W5500.Addresses, Net;
      var last := driver.bus.Millis();
      var first := driver.bus.Millis();
      lastRequestBroadcast, firstRequestBroadcast, state := last, first, Phase.Request;
      history := history.(gap := first - last);
    }

    method TakeOffer() returns (ghost i: Input)
      requires Attached() && SocketIdle() && RoomToSend()
      requires OnTheWire(history.log, Port().sent, before, driver.Mac())
      modifies `history, `lastRequestBroadcast, `firstRequestBroadcast, `state
      modifies socket.base, Port(), driver.bus
      ensures SocketIdle() && OnTheWire(history.log, Port().sent, before, driver.Mac())
      ensures Legal(i) && ReadDuring(i)
      ensures View() == OfferTaken(old(View()), i)
    {
      hide Rings.Tx.Holds, Rings.Rx.Holds, Rings.Tx.Free, C.Port.Valid, UdpSocket.Valid, Socket.Valid,
        C.Port.DestIp, W5500.Addresses, OnTheWire, Net, Chosen, Stamped, Say;
      ChooseServer();
      ghost var at := Announce(REQUEST);
      StampRequest();
      hide View;
      i := Input(Ready, 0, false, NOTHING, at, lastRequestBroadcast, firstRequestBroadcast,
                 firstRequestBroadcast);
    }

    /** If it has been long enough, another DISCOVER under the next id. */
    method Rediscover() returns (ghost i: Input)
      requires Attached() && SocketIdle() && RoomToSend()
      requires OnTheWire(history.log, Port().sent, before, driver.Mac())
      modifies `history, `xid, `lastDiscoverBroadcast
      modifies socket.base, Port(), driver.bus
      ensures SocketIdle() && OnTheWire(history.log, Port().sent, before, driver.Mac())
      ensures Legal(i) && ReadDuring(i)
      ensures View() == Rediscovered(old(View()), i)
    {
      hide Rings.Tx.Holds, Rings.Rx.Holds, Rings.Tx.Free, C.Port.Valid, UdpSocket.Valid, Socket.Valid,
        C.Port.DestIp, W5500.Addresses, OnTheWire, Net;
      var now := driver.bus.Millis();
      i := Input(Ready, 0, false, NOTHING, now, now, now, now);
      if now - lastDiscoverBroadcast > DISCOVER_INTERVAL {
        BumpId();
        ghost var at := Announce(DISCOVER);
        lastDiscoverBroadcast := driver.bus.Millis();
        i := i.(c1 := at, c2 := lastDiscoverBroadcast, c3 := lastDiscoverBroadcast);
      }
    }

    method BumpId()
      requires Attached() && |Port().regs| == 0x30
      modifies `history, `xid
      ensures history.log == old(history).log
      ensures View() == Bumped(old(View()))
    {
      hide C.Port.DestIp, W5500.Addresses, Net;
      xid := Wrap32(xid + 1);
      history := history.(bumps := history.bumps + 1);
    }

    method FsmDiscover() returns (ghost i: Input)
      requires Attached() && Valid() && RoomToSend() && AllSafe() && state == Phase.Discover
      modifies `localIp, `dhcpServerIp, `subnetMask, `gatewayIp, `dnsServerIp, `leaseDuration
      modifies `history, `xid, `lastDiscoverBroadcast, `lastRequestBroadcast, `firstRequestBroadcast, `state
      modifies socket, socket.base, Port(), Port().polls, driver.bus
      ensures Valid() && Legal(i) && ReadDuring(i) && Saw(Phase.Discover, old(Seen()), Seen(), i)
      ensures i.recv ==> WasHeard(i.reply)
      ensures View() == StepDiscover(old(View()), i)
    {
      hide Rings.Tx.Holds, Rings.Rx.Holds, Rings.Tx.Free, C.Port.Valid, UdpSocket.Valid, Socket.Valid,
        C.Port.DestIp, W5500.Addresses, OnTheWire, Net, Heard;
      ghost var m, start := View(), driver.bus.clock;
      hide View, Past, OfferTaken, Rediscovered;
      var recv, kind, reply := Listen();
      if recv && kind == OFFER {
        i := TakeOffer();
      } else {
        i := Rediscover();
      }
      i := i.(recv := recv, reply := reply);
      PastKept(m, i, start, driver.bus.clock);
    }

    /** The reply comes from the datagram that was next when the call began. */
    twostate predicate WasHeard(reply: Reply)
      requires old(Attached())
      reads {}
    {
      old(Heard(socket.index, Port().count, Held(), reply))
    }

    /** The lease taken: timers and deadlines, then the addresses on the chip. */
    method Bind() returns (ghost i: Input)
      requires Attached() && SocketIdle()
      modifies `state, `leaseDuration, `timerT1, `timerT2, `renewDeadline, `rebindDeadline
      modifies driver.bus, driver.bus.chip
      ensures Attached() && SocketIdle() && driver.Mac() == old(driver.Mac())
      ensures Legal(i) && ReadDuring(i)
      ensures View() == Bound(old(View()), i)
    {
      hide W5500.Addresses, Net, C.Port.DestIp, HalfLease, SevenEighths, Wrap32;
      i := SetDeadlines();
      Configure();
    }

    method SetDeadlines() returns (ghost i: Input)
      requires Attached()
      modifies `state, `leaseDuration, `timerT1, `timerT2, `renewDeadline, `rebindDeadline, driver.bus
      ensures Legal(i) && ReadDuring(i)
      ensures state == Phase.Leased && Held() == Accepted(old(Held()))
      ensures timerT1 == if old(timerT1) == 0 then HalfLease(leaseDuration) else old(timerT1)
      ensures timerT2 == if old(timerT2) == 0 then SevenEighths(leaseDuration) else old(timerT2)
      ensures renewDeadline == i.c0 + Wrap32(timerT1 * 1000) && rebindDeadline == i.c1 + Wrap32(timerT2 * 1000)
    {
      hide HalfLease, SevenEighths;
      state := Phase.Leased;
      SetTimers();
      var now := driver.bus.Millis();
      renewDeadline := now + Wrap32(timerT1 * 1000);
      i := Input(Ready, 0, false, NOTHING, now, now, now, now);
      now := driver.bus.Millis();
      rebindDeadline := now + Wrap32(timerT2 * 1000);
      i := i.(c1 := now, c2 := now, c3 := now);
    }

    /** Fills in what the server left out. Multiplying by 0.875 and truncating is exact here. */
    method SetTimers()
      modifies `leaseDuration, `timerT1, `timerT2
      ensures leaseDuration == Accepted(old(Held())).duration
      ensures timerT1 == if old(timerT1) == 0 then HalfLease(leaseDuration) else old(timerT1)
      ensures timerT2 == if old(timerT2) == 0 then SevenEighths(leaseDuration) else old(timerT2)
    {
      if leaseDuration == 0 {
        leaseDuration := DEFAULT_LEASE;
      }
      if timerT1 == 0 {
        timerT1 := leaseDuration / 2;
      }
      if timerT2 == 0 {
        timerT2 := leaseDuration * 7 / 8;
      }
    }

    ghost method CountRetry()
      requires Attached() && |Port().regs| == 0x30
      modifies `history
      ensures history.log == old(history).log
      ensures View() == Retried(old(View()))
    {
      hide C.Port.DestIp, W5500.Addresses, Net;
      history := history.(retries := history.retries + 1);
    }

    /** If it has been long enough, the request again. */
    method AskAgain() returns (ghost i: Input)
      requires Attached() && SocketIdle() && RoomToSend()
      requires OnTheWire(history.log, Port().sent, before, driver.Mac())
      modifies `history, `lastRequestBroadcast, socket.base, Port(), driver.bus
      ensures SocketIdle() && OnTheWire(history.log, Port().sent, before, driver.Mac())
      ensures Legal(i) && ReadDuring(i)
      ensures View() == Asked(old(View()), i)
    {
      hide Rings.Tx.Holds, Rings.Rx.Holds, Rings.Tx.Free, C.Port.Valid, UdpSocket.Valid, Socket.Valid,
        C.Port.DestIp, W5500.Addresses, OnTheWire, Net;
      var now := driver.bus.Millis();
      i := Input(Ready, 0, false, NOTHING, now, now, now, now);
      if now - lastRequestBroadcast > REQUEST_RETRY {
        CountRetry();
        ghost var at := Announce(REQUEST);
        lastRequestBroadcast := driver.bus.Millis();
        i := i.(c1 := at, c2 := lastRequestBroadcast, c3 := lastRequestBroadcast);
      }
    }

    /** Gives up once the first request is too long ago. */
    method CheckTimeout() returns (now: nat)
      requires Attached() && SocketIdle()
      modifies `state, driver.bus
      ensures SocketIdle() && old(driver.bus.clock) <= now == driver.bus.clock
      ensures View() == if now - firstRequestBroadcast > REQUEST_TIMEOUT
        then old(View()).(phase := Phase.Start) else old(View())
    {
      hide Rings.Tx.Holds, Rings.Rx.Holds, Rings.Tx.Free, C.Port.Valid, UdpSocket.Valid, Socket.Valid,
        C.Port.DestIp, W5500.Addresses, Net;
      now := driver.bus.Millis();
      if now - firstRequestBroadcast > REQUEST_TIMEOUT {
        state := Phase.Start;
      }
    }

    method KeepAsking() returns (ghost i: Input)
      requires Attached() && SocketIdle() && RoomToSend()
      requires OnTheWire(history.log, Port().sent, before, driver.Mac())
      modifies `history, `lastRequestBroadcast, `state, socket.base, Port(), driver.bus
      ensures SocketIdle() && OnTheWire(history.log, Port().sent, before, driver.Mac())
      ensures Legal(i) && ReadDuring(i)
      ensures View() == TimedOut(Asked(old(View()), i), i)
    {
      hide Rings.Tx.Holds, Rings.Rx.Holds, Rings.Tx.Free, C.Port.Valid, UdpSocket.Valid, Socket.Valid,
        C.Port.DestIp, W5500.Addresses, OnTheWire, Net, Say, Retried;
      i := AskAgain();
      ghost var m := View();
      assert m.firstRequest == firstRequestBroadcast;
      hide View;
      var now := CheckTimeout();
      i := i.(c3 := now);
    }

    /** What follows listening: the lease is taken, the session refused, or the wait goes on. */
    method Answer(recv: bool, kind: byte) returns (ghost i: Input)
      requires Attached() && SocketIdle() && RoomToSend()
      requires OnTheWire(history.log, Port().sent, before, driver.Mac())
      modifies `leaseDuration, `timerT1, `timerT2, `renewDeadline, `rebindDeadline
      modifies `history, `lastRequestBroadcast, `state, socket.base, Port(), driver.bus, driver.bus.chip
      ensures Attached() && driver.Mac() == old(driver.Mac())
      ensures SocketIdle() && OnTheWire(history.log, Port().sent, before, driver.Mac())
      ensures Legal(i) && ReadDuring(i)
      ensures View() == if recv && kind == ACK then Bound(old(View()), i)
        else if recv && kind == NAK then old(View()).(phase := Phase.Start)
        else TimedOut(Asked(old(View()), i), i)
    {
      hide C.Port.Valid, UdpSocket.Valid, Socket.Valid, C.Port.DestIp, W5500.Addresses, OnTheWire, Net, Bound,
        Asked, TimedOut;
      if recv && kind == ACK {
        ghost var m := View();
        i := Bind();
        assert history == m.history;
      } else if recv && kind == NAK {
        state := Phase.Start;
        ghost var now := driver.bus.clock;
        i := Input(Ready, 0, false, NOTHING, now, now, now, now);
      } else {
        i := KeepAsking();
      }
    }

    method FsmRequest() returns (ghost i: Input)
      requires Attached() && Valid() && RoomToSend() && AllSafe() && (state == Phase.Request || state == Phase.Renew)
      modifies `localIp, `dhcpServerIp, `subnetMask, `gatewayIp, `dnsServerIp, `leaseDuration
      modifies `history, `lastRequestBroadcast, `state, `timerT1, `timerT2, `renewDeadline, `rebindDeadline
      modifies socket, socket.base, Port(), Port().polls, driver.bus, driver.bus.chip
      ensures Attached() && Valid() && driver.Mac() == old(driver.Mac())
      ensures Legal(i) && ReadDuring(i) && Saw(Phase.Request, old(Seen()), Seen(), i)
      ensures i.recv ==> WasHeard(i.reply)
      ensures View() == StepRequest(old(View()), i)
    {
      hide Rings.Tx.Holds, Rings.Rx.Holds, Rings.Tx.Free, C.Port.Valid, UdpSocket.Valid, Socket.Valid,
        C.Port.DestIp, W5500.Addresses, OnTheWire, Net, Heard;
      ghost var m, start := View(), driver.bus.clock;
      hide View, Past, StepRequest, Asked, TimedOut, Bound, RoomToSend, AllSafe, C.Port.TxServed,
        C.Port.RxServed, C.Port.RegsServed;
      var recv, kind, reply := Listen();
      i := Answer(recv, kind);
      RequestInHalves(m, i, recv, reply);
      i := i.(recv := recv, reply := reply);
      PastKept(m, i, start, driver.bus.clock);
    }

    method FsmLeased() returns (ghost i: Input)
      requires Attached() && Valid() && state == Phase.Leased
      modifies `state, `history, driver.bus
      ensures Valid() && Legal(i) && ReadDuring(i) && !i.recv && Saw(Phase.Leased, old(Seen()), Seen(), i)
      ensures View() == StepLeased(old(View()), i)
    {
      hide Rings.Tx.Holds, Rings.Rx.Holds, Rings.Tx.Free, C.Port.Valid, UdpSocket.Valid, Socket.Valid,
        C.Port.DestIp, W5500.Addresses, OnTheWire, Net;
      var now := driver.bus.Millis();
      i := Input(Ready, 0, false, NOTHING, now, now, now, now);
      if now > rebindDeadline {
        state := Phase.Start;
      } else if now > renewDeadline {
        state := Phase.Renew;
        history := history.(retries := 0);
      }
    }

    /** The update proper: one step of the transition system, on what it saw. */
    method Dispatch() returns (ghost i: Input)
      requires Attached() && Valid() && RoomToSend() && AllSafe()
      modifies this, socket, socket.base, Port(), Port().polls, driver.bus, driver.bus.draws, driver.bus.chip
      ensures Attached() && Valid() && driver.Mac() == old(driver.Mac())
      ensures Legal(i) && ReadDuring(i) && Saw(old(state), old(Seen()), Seen(), i)
      ensures i.recv ==> WasHeard(i.reply)
      ensures View() == Step(old(View()), i)
    {
      ghost var m := View();
      assert m.phase == state;
      hide View, Valid, Attached, C.Port.Valid, StepStart, StepDiscover, StepRequest, StepLeased, WasHeard,
        RoomToSend, AllSafe, W5500.Mac, Legal, ReadDuring, Heard, ReplyFrom, Makes, SocketIdle, OnTheWire, Past,
        UdpSocket.Valid, Socket.Valid, Net, W5500.Addresses, C.Port.DestIp, Safe, Held, Step;
      StepPhases(m);
      match state
      case Start => i := FsmStart();
      case Discover => i := FsmDiscover();
      case Request => i := FsmRequest();
      case Renew => i := FsmRequest();
      case Leased => i := FsmLeased();
    }

    /** What parsing the next datagram gives, or Overrun if none has arrived. */
    ghost function Upcoming(): Walked
      requires Attached()
      reads this, socket, driver.bus.chip, Port()
    {
      if socket.index < Port().count && socket.index < |Port().script|
        && |Port().script[socket.index].payload| >= H.HEADER_SIZE
      then Reading(socket.index, Held()) else Overrun
    }

    /** What was heard is the next datagram, if there was one. */
    lemma NextHeard(m: Machine, i: Input, k: nat, queued: nat, w: Walked)
      requires Attached()
      requires w.Done? ==>
        && k < queued && k < |Port().script| && |Port().script[k].payload| >= H.HEADER_SIZE
        && w == Parsed(Port().script[k].payload, driver.Mac(), m.initialXid, m.xid, m.lease)
      requires k < queued ==>
        && k < |Port().script|
        && Makes(Port().script[k].payload, driver.Mac(), m.initialXid, m.xid, m.lease, i.reply)
      ensures HeardAs(w, i)
    {
      hide Parsed, W5500.Mac, H.Decode;
    }

    /** Update after update, the client goes through a run of the transition system. */
    method Advance() returns (ghost i: Input)
      requires Attached() && Valid() && Traced() && RoomToSend() && AllSafe()
      modifies this, trace, socket, socket.base, Port(), Port().polls, driver.bus, driver.bus.draws, driver.bus.chip
      ensures Attached() && Valid() && driver.Mac() == old(driver.Mac())
      ensures Legal(i) && ReadDuring(i) && Saw(old(state), old(Seen()), Seen(), i)
      ensures i.recv ==> WasHeard(i.reply) && HeardAs(old(Upcoming()), i)
      ensures View() == Step(old(View()), i)
      ensures Traced() && trace.states == old(trace.states) + [View()] && trace.inputs == old(trace.inputs) + [i]
      ensures old(state) == Phase.Discover && old(xid) < old(initialXid) ==> state == Phase.Discover
    {
      ghost var m := View();
      ghost var w := Upcoming();
      assert m.phase == state && m.xid == xid && m.initialXid == initialXid;
      hide View, Valid, C.Port.Valid, Step, Run, RoomToSend, AllSafe, W5500.Mac, Makes, Delivered, Sourced, Admitted;
      i := Dispatch();
      if i.recv {
        HeardAdmitted(Port().script, driver.Mac(), m, i, old(socket.index));
        NextHeard(m, i, old(socket.index), old(Port().count), w);
      }
      SourcedExtends(Port().script, driver.Mac(), trace.states, trace.inputs, View(), i);
      trace.Extend(i);
      if m.phase == Phase.Discover && m.xid < m.initialXid {
        Ids.DeafStep(m, i);
      }
    }

    /** One packet has gone out, of this type and with these lease fields, to this address. */
    ghost predicate SentOne(was: seq<C.Sent>, kind: byte, ip: Address, at: nat, l: Lease)
      requires Attached()
      reads this, driver.bus.chip, Port()
    {
      && |Port().sent| == |was| + 1 && Port().sent[|was|].ip == ip
      && Port().sent[|was|].data
        == PacketSent(kind, xid, SecondsElapsed(leaseRequestStart, at), driver.Mac(), hostname, l)
    }

    /** An offer has been taken: REQUEST (3) has gone to the server it names, for the address it offers. */
    ghost predicate Asking(was: seq<C.Sent>, l: Lease, at: nat)
      requires Attached() && |Port().regs| == 0x30
      reads this, driver.bus.chip, Port()
    {
      state == Phase.Request && Held() == l && Port().DestIp() == l.server && SentOne(was, 3, l.server, at, l)
    }

    /** The lease is held, and its gateway, mask and address are in the chip's registers. */
    ghost predicate Holding(l: Lease)
      requires Attached()
      reads this, driver.bus.chip
    {
      && state == Phase.Leased
      && Held() == l.(duration := if l.duration == 0 then 86400 else l.duration)
      && driver.bus.chip.common[0x01..0x05] == l.gateway
      && driver.bus.chip.common[0x05..0x09] == l.mask
      && driver.bus.chip.common[0x0F..0x13] == l.ip
    }

    lemma NewOnWire(log: seq<Message>, msg: Message, was: seq<C.Sent>, ip: Address, at: nat, l: Lease)
      requires Attached() && OnTheWire(log + [msg], Port().sent, before, driver.Mac()) && |was| == before + |log|
      requires msg == Message(msg.kind, xid, leaseRequestStart, at, l, ip)
      ensures SentOne(was, msg.kind, ip, at, l)
    {
      assert (log + [msg])[|log|] == msg;
      hide PacketSent, SecondsElapsed, W5500.Mac;
    }

    /** The client and the wire after a step from `m`, with `was` on the wire before it. */
    ghost predicate Stepped(m: Machine, i: Input, was: seq<C.Sent>)
      requires Attached() && |Port().regs| == 0x30
      reads this, driver.bus.chip, Port()
    {
      && Legal(i) && View() == Step(m, i) && |was| == before + |m.history.log|
      && OnTheWire(history.log, Port().sent, before, driver.Mac())
    }

    lemma OfferAnswered(m: Machine, i: Input, was: seq<C.Sent>)
      requires Attached() && |Port().regs| == 0x30 && Stepped(m, i, was)
      requires m.phase == Phase.Discover && i.recv && i.reply.kind == 2
      ensures Asking(was, i.reply.lease, i.c0)
    {
      hide Step, OnTheWire, SentOne, C.Port.DestIp, Net;
      Runs.DiscoverSends(m, i);
      NewOnWire(m.history.log, Message(3, m.xid, m.started, i.c0, i.reply.lease, i.reply.lease.server), was,
                i.reply.lease.server, i.c0, i.reply.lease);
    }

    lemma ReplyTaken(m: Machine, i: Input, was: seq<C.Sent>)
      requires Attached() && |Port().regs| == 0x30 && Stepped(m, i, was)
      requires (m.phase == Phase.Request || m.phase == Phase.Renew) && i.recv
      ensures i.reply.kind == 5 ==> Holding(i.reply.lease)
      ensures i.reply.kind == 6 ==> state == Phase.Start
    {
      hide Step, OnTheWire, C.Port.DestIp;
      Runs.RequestSends(m, i);
    }

    lemma SessionAnnounced(m: Machine, i: Input, was: seq<C.Sent>)
      requires Attached() && |Port().regs| == 0x30 && Stepped(m, i, was) && m.phase == Phase.Start
      ensures if i.link == Down then state == Phase.Start else
        state == Phase.Discover && SentOne(was, 1, Port().DestIp(), i.c1, Held())
    {
      hide Step, OnTheWire, SentOne, C.Port.DestIp, Net;
      Runs.StartSends(m, i);
      if i.link != Down {
        NewOnWire(m.history.log, Message(1, i.random, i.c0, i.c1, Held(), Port().DestIp()), was,
                  Port().DestIp(), i.c1, Held());
      }
    }

    /**
     One update. With the RECV flag up and a reply next in the queue, an OFFER (2) is answered by
     a request to its server, an ACK (5) makes the client hold the lease, and a NAK (6) makes it
     start anew. A new session sends one DISCOVER (1), if the socket is up.
     */
    method Update() returns (ghost i: Input)
      requires Attached() && Valid() && Traced() && RoomToSend() && AllSafe()
      modifies this, trace, socket, socket.base, Port(), Port().polls, driver.bus, driver.bus.draws, driver.bus.chip
      ensures Attached() && Valid() && driver.Mac() == old(driver.Mac())
      ensures Legal(i) && ReadDuring(i) && Saw(old(state), old(Seen()), Seen(), i)
      ensures View() == Step(old(View()), i)
      ensures Traced() && trace.states == old(trace.states) + [View()] && trace.inputs == old(trace.inputs) + [i]
      ensures i.recv ==> Responds(old(state), old(Upcoming()), old(Port().sent), i)
      ensures old(state) == Phase.Start ==> if i.link == Down then state == Phase.Start else
        state == Phase.Discover && SentOne(old(Port().sent), 1, Port().DestIp(), i.c1, Held())
      ensures old(state) == Phase.Discover && old(xid) < old(initialXid) ==> state == Phase.Discover
    {
      hide View, Valid, C.Port.Valid, Step, Run, Traced, RoomToSend, AllSafe, W5500.Mac, Saw, Seen, SentOne, Upcoming,
        WasHeard, HeardAs, Responds, Legal;
      Viewed();
      ghost var m, was, w := View(), Port().sent, Upcoming();
      i := Advance();
      Viewed();
      assert Stepped(m, i, was);
      if m.phase == Phase.Start {
        SessionAnnounced(m, i, was);
      }
      if i.recv {
        Response(m, i, was, w);
      }
    }

    lemma Viewed()
      requires Attached() && Valid()
      ensures |Port().regs| == 0x30 && View().phase == state && |Port().sent| == before + |View().history.log|
      ensures View().history == history && OnTheWire(history.log, Port().sent, before, driver.Mac())
    {
    }

    lemma Response(m: Machine, i: Input, was: seq<C.Sent>, w: Walked)
      requires Attached() && |Port().regs| == 0x30 && Stepped(m, i, was) && i.recv && HeardAs(w, i)
      ensures Responds(m.phase, w, was, i)
    {
      hide Stepped, Asking, Holding;
      if m.phase == Phase.Discover && w.Done? && w.kind == 2 {
        OfferAnswered(m, i, was);
      }
      if m.phase == Phase.Request || m.phase == Phase.Renew {
        ReplyTaken(m, i, was);
      }
    }

    /** What becomes of a reply that was next in the queue and parsed as `w`. */
    ghost predicate Responds(phase: Phase, w: Walked, was: seq<C.Sent>, i: Input)
      requires Attached() && |Port().regs| == 0x30
      reads this, driver.bus.chip, Port()
    {
      w.Done? ==>
        && (phase == Phase.Discover && w.kind == 2 ==> Asking(was, w.lease, i.c0))
        && (phase == Phase.Request || phase == Phase.Renew ==>
              && (w.kind == 5 ==> Holding(w.lease))
              && (w.kind == 6 ==> state == Phase.Start))
    }

    /**
     A well-formed reply that is next in the queue is what the next update with the RECV flag up
     responds to: its message type is that of option 53, and its lease fields are what its other
     options mean, with the address at byte 16.
     */
    lemma ReplyUpcoming(head: seq<byte>, pads: seq<nat>, opts: seq<Opt>, trail: seq<byte>, kind: byte)
      requires Attached() && socket.index < Port().count && socket.index < |Port().script|
      requires |pads| == |opts| + 1 && AllWellFormed(opts) && AllEven(pads)
      requires Port().script[socket.index].payload == head + Area(pads, opts, trail)
      requires |head| == 240 && head[0] == 2 && head[28..34] == driver.Mac() && initialXid <= Be32(head[4..8]) <= xid
      requires LastValue(opts, 53, [255]) == [kind]
      ensures var w := Upcoming();
        w.Done? && w.kind == kind && Means(opts, 255, Held().(ip := head[16..20]), kind, w.lease)
    {
      ReplyParses(head, pads, opts, trail, driver.Mac(), initialXid, xid, Held());
      hide Parsed, Area, LastValue, W5500.Mac, Bytes32, Be32, AllEven, AllWellFormed, Options, Safe;
    }

    /**
     So whatever lease the client holds, it came by it as `LeaseProvenance` says, its OFFER and
     ACK answering what it had sent in that session, and both made of datagrams that were delivered.
     */
    lemma LeaseHasOrigin() returns (s: nat, o: nat, a: nat)
      requires Attached() && |Port().regs| == 0x30 && Traced() && (state == Phase.Leased || state == Phase.Renew)
      ensures Runs.Provenance(trace.states, trace.inputs, |trace.inputs|, s, o, a)
      ensures Net() == ConfigOf(trace.states[a + 1].lease)
      ensures Delivered(Port().script, driver.Mac(), trace.states[o], trace.inputs[o].reply)
      ensures Delivered(Port().script, driver.Mac(), trace.states[a], trace.inputs[a].reply)
    {
      s, o, a := Runs.LeaseProvenance(trace.states, trace.inputs, |trace.inputs|);
    }

    /**
     Every payload the client would accept answers something it sent in this session, and as long
     as its id has not wrapped it would accept every such reply.
     */
    lemma AcceptsSentIds(p: seq<byte>)
      requires Attached() && |Port().regs| == 0x30 && Traced() && history.log != [] && |p| >= H.HEADER_SIZE
      ensures var own := p[0] == 2 && p[28..34] == driver.Mac()
          && Runs.SentId(history.log, history.session, Be32(p[4..8]));
        && (ForUs(p, driver.Mac(), initialXid, xid) ==> own)
        && (initialXid + history.bumps < U32 ==> (ForUs(p, driver.Mac(), initialXid, xid) <==> own))
    {
      hide H.Decode, Runs.SentId, Be32;
      Ids.AcceptedIsOwn(trace.states, trace.inputs, |trace.inputs|, p, driver.Mac());
    }
  }

  /** Parsing the payload in state `m` gives the reply. */
  ghost predicate Makes(p: seq<byte>, mac: Mac, low: u32, high: u32, was: Lease, reply: Reply) {
    && |p| >= H.HEADER_SIZE
    && var w := Parsed(p, mac, low, high, was);
       w.Done? && reply == Reply(w.kind, w.lease, H.Decode(p).xid)
  }

  ghost predicate Delivered(script: seq<Datagram>, mac: Mac, m: Machine, reply: Reply) {
    exists k :: 0 <= k < |script| && Makes(script[k].payload, mac, m.initialXid, m.xid, m.lease, reply)
  }

  ghost predicate HeardAs(w: Walked, i: Input) {
    w.Done? ==> i.reply.kind == w.kind && i.reply.lease == w.lease
  }

  /** Every reply of a run that gave a message type was made of a delivered datagram. */
  ghost predicate Sourced(script: seq<Datagram>, mac: Mac, ms: seq<Machine>, ins: seq<Input>) {
    && |ms| == |ins| + 1
    && forall j | 0 <= j < |ins| && ins[j].recv && ins[j].reply.kind != ERROR ::
      Delivered(script, mac, ms[j], ins[j].reply)
  }

  lemma SourcedExtends(script: seq<Datagram>, mac: Mac, ms: seq<Machine>, ins: seq<Input>, m: Machine, i: Input)
    requires Sourced(script, mac, ms, ins)
    requires i.recv && i.reply.kind != ERROR ==> Delivered(script, mac, ms[|ins|], i.reply)
    ensures Sourced(script, mac, ms + [m], ins + [i])
  {
    hide Delivered;
  }

  lemma StepPhases(m: Machine)
    ensures match m.phase
      case Start => forall i | Legal(i) :: Step(m, i) == StepStart(m, i)
      case Discover => forall i | Legal(i) :: Step(m, i) == StepDiscover(m, i)
      case Leased => forall i | Legal(i) :: Step(m, i) == StepLeased(m, i)
      case _ => forall i | Legal(i) :: Step(m, i) == StepRequest(m, i)
  {
    hide StepStart, StepDiscover, StepLeased, StepRequest;
  }

  /** What parsing a payload gives has passed the range test if it has any effect. */
  lemma MadeAdmitted(p: seq<byte>, mac: Mac, m: Machine, i: Input)
    requires Makes(p, mac, m.initialXid, m.xid, m.lease, i.reply)
    ensures Admitted(m, i)
  {
    hide Walk;
  }

  /** Whatever was heard has passed the range test if it has any effect, and comes from the network. */
  lemma HeardAdmitted(script: seq<Datagram>, mac: Mac, m: Machine, i: Input, k: nat)
    requires i.reply == Reply(ERROR, m.lease, 0)
      || (k < |script| && Makes(script[k].payload, mac, m.initialXid, m.xid, m.lease, i.reply))
    ensures Admitted(m, i)
    ensures i.reply.kind != ERROR ==> Delivered(script, mac, m, i.reply)
  {
    hide Makes;
    if k < |script| && Makes(script[k].payload, mac, m.initialXid, m.xid, m.lease, i.reply) {
      MadeAdmitted(script[k].payload, mac, m, i);
    }
  }

  /** The lease with the field of one option replaced. */
  ghost function Assigned(opt: byte, data: Address, l: Lease): Lease {
    if opt == SUBNET_MASK then l.(mask := data)
    else if opt == ROUTERS then l.(gateway := data)
    else if opt == DNS_SERVERS then l.(dns := data)
    else if opt == SERVER_IDENTIFIER then l.(server := data)
    else l.(duration := Be32(data))
  }

  /** How much of what follows an option's length byte is read or skipped. */
  ghost function Consumed(opt: byte, optLen: byte): nat {
    if opt == MESSAGE_TYPE then 1
    else if opt == SUBNET_MASK || opt == SERVER_IDENTIFIER || opt == LEASE_TIME then 4
    else optLen
  }

  /** One pass of the option loop, seen from behind the length byte. */
  lemma ValueOf(opt: byte, optLen: byte, rest: seq<byte>, kind: byte, l: Lease)
    requires Fits([opt, optLen] + rest) && opt != END
    ensures var n := Consumed(opt, optLen);
      && n <= |rest| && ([opt, optLen] + rest)[Span([opt, optLen] + rest)..] == rest[n..]
      && (opt == ROUTERS || opt == DNS_SERVERS ==> optLen >= 4)
      && Pass([opt, optLen] + rest, kind, l)
         == if opt == MESSAGE_TYPE then (rest[0], l)
            else if opt in {SUBNET_MASK, ROUTERS, DNS_SERVERS, SERVER_IDENTIFIER, LEASE_TIME} then
              (kind, Assigned(opt, rest[..4], l))
            else (kind, l)
  {
    hide Be32;
    var p := [opt, optLen] + rest;
    assert |p| >= 6 ==> p[2..6] == rest[..4];
  }

  lemma DecodePrefix(p: seq<byte>)
    requires |p| >= H.HEADER_SIZE
    ensures H.Decode(p[..H.HEADER_SIZE]) == H.Decode(p)
  {
  }

  lemma DecodePayload(p: seq<byte>)
    requires |p| >= H.HEADER_SIZE
    ensures H.Decode(p).op == p[0] && H.Decode(p).chaddr == p[28..34] && |H.Decode(p).yiaddr| == 4
  {
  }

  lemma WalkEnds(p: seq<byte>, kind: byte, l: Lease)
    requires p != [] && p[0] == END
    ensures Walk(p, kind, l) == Done(kind, l, true)
  {
  }

  lemma HeadAndTail(p: seq<byte>)
    ensures p != [] ==> p == [p[0]] + p[1..]
  {
  }

  lemma WalkAtEnd(kind: byte, l: Lease)
    ensures Walk([], kind, l) == Done(kind, l, false)
  {
  }

  /** A walk that does not overrun, at an option other than END. */
  lemma WalkStep(p: seq<byte>, kind: byte, l: Lease)
    requires p != [] && p[0] != END && !Walk(p, kind, l).Overrun?
    ensures Fits(p) && |p| >= 2 && Span(p) <= |p| && Span(p) >= 2
    ensures var (kind', l') := Pass(p, kind, l);
      Walk(p, kind, l) == Walk(p[Span(p)..], kind', l')
  {
  }

  lemma PacketNotEmpty(kind: byte, xid: u32, secs: u16, mac: Mac, hostname: seq<byte>, l: Lease)
    ensures PacketSent(kind, xid, secs, mac, hostname, l) != []
  {
  }
}

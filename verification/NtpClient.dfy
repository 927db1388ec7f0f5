/** The NTP client on top of the socket layer. */
module NtpClient {
  import opened Words
  import opened Framing
  import opened Driver
  import opened Sockets
  import opened NtpTime
  import C = Chip
  import Rings

  /** The datagrams the client can read: 48 bytes, or more, in which case they are thrown away. */
  predicate Safe(p: seq<byte>) {
    |p| >= PACKET_SIZE
  }

  /** The time after a stretch of the script: that of the last packet of the right size, if any. */
  function LastReading(script: seq<Datagram>, a: nat, b: nat, before: nat): nat
    requires a <= b <= |script|
    decreases b
  {
    if a == b then before
    else if |script[b - 1].payload| == PACKET_SIZE then Reading(script[b - 1].payload)
    else LastReading(script, a, b - 1, before)
  }

  /** Datagram `k` has the size that makes its time count. */
  predicate Timed(script: seq<Datagram>, k: nat)
    requires k < |script|
  {
    |script[k].payload| == 48
  }

  ghost predicate SomeTimed(script: seq<Datagram>, a: nat, b: nat)
    requires b <= |script|
  {
    exists k :: a <= k < b && Timed(script, k)
  }

  /** Nothing of the right size was taken since datagram `k`, and `time` is the time in it. */
  ghost predicate LastTimed(script: seq<Datagram>, k: nat, b: nat, time: nat)
    requires k < b <= |script|
  {
    && Timed(script, k) && time == Reading(script[k].payload)
    && forall j | k < j < b :: !Timed(script, j)
  }

  /** With a packet of the right size, the time is that of the last one, whatever it was before. */
  lemma {:induction false} LastReadingTimed(script: seq<Datagram>, a: nat, b: nat, before: nat) returns (k: nat)
    requires a <= b <= |script| && SomeTimed(script, a, b)
    ensures a <= k < b && LastTimed(script, k, b, LastReading(script, a, b, before))
    decreases b
  {
    k := b - 1;
    if !Timed(script, k) {
      k := LastReadingTimed(script, a, b - 1, before);
    }
  }

  /** Without one it stays what it was. */
  lemma {:induction false} LastReadingUntimed(script: seq<Datagram>, a: nat, b: nat, before: nat)
    requires a <= b <= |script| && !SomeTimed(script, a, b)
    ensures LastReading(script, a, b, before) == before
    decreases b
  {
    if a < b {
      assert !Timed(script, b - 1);
      LastReadingUntimed(script, a, b - 1, before);
    }
  }

  /** The time afterwards is independent of the time before exactly if some packet had the right size. */
  lemma FreshIffTimed(script: seq<Datagram>, a: nat, b: nat)
    requires a <= b <= |script|
    ensures (forall t, t': nat :: LastReading(script, a, b, t) == LastReading(script, a, b, t'))
       <==> SomeTimed(script, a, b)
  {
    if SomeTimed(script, a, b) {
      forall t, t': nat
        ensures LastReading(script, a, b, t) == LastReading(script, a, b, t')
      {
        var k := LastReadingTimed(script, a, b, t);
        var k' := LastReadingTimed(script, a, b, t');
        assert Timed(script, k) && Timed(script, k');
      }
    } else {
      LastReadingUntimed(script, a, b, 0);
      LastReadingUntimed(script, a, b, 1);
    }
  }

  const REQUEST: seq<byte> := [0x23] + ZeroBytes(47)

  /** A request is a packet of 48 bytes, of version 4 and in client mode (3), and otherwise zero. */
  lemma RequestFields()
    ensures |REQUEST| == 48 && REQUEST[0] / 64 == 0 && REQUEST[0] / 8 % 8 == 4 && REQUEST[0] % 8 == 3
    ensures forall i | 1 <= i < 48 :: REQUEST[i] == 0
  {
  }

  class Client {
    const driver: W5500
    const socket: UdpSocket
    var lastRequest: nat
    var lastResponse: nat
    var pollInterval: byte

    constructor (driver: W5500, socket: UdpSocket)
      ensures this.driver == driver && this.socket == socket
      ensures lastRequest == lastResponse == 0 && pollInterval == 1
    {
      this.driver, this.socket := driver, socket;
      lastRequest, lastResponse, pollInterval := 0, 0, 1;
    }

    ghost predicate Attached()
      reads driver.bus.chip
    {
      driver.Valid() && socket.base.driver == driver && socket.Attached()
    }

    function Port(): C.Port
      requires socket.base.driver == driver && socket.base.sockfd < |driver.bus.chip.ports|
    {
      socket.Port()
    }

    /** Between calls no packet is half read. */
    ghost predicate Valid()
      requires Attached()
      reads socket, socket.base, driver.bus.chip, Port()
    {
      socket.Valid() && socket.packetBytesRemaining == 0
    }

    ghost predicate AllSafe()
      requires Attached()
      reads driver.bus.chip
    {
      forall d | d in Port().script :: Safe(d.payload)
    }

    /** Takes the next packet, if there is one, and the time it carries. */
    method ParsePacket(currentTimeMs: nat) returns (more: bool, timeMs: nat)
      requires Attached() && Valid() && AllSafe()
      modifies `lastResponse, `pollInterval, socket, Port(), driver.bus
      ensures Valid() && socket.SendSideKept() && old(driver.bus.clock) <= driver.bus.clock
      ensures old(Port().count) <= Port().count
      ensures more ==> socket.index == old(socket.index) + 1 <= |Port().script|
      ensures !more ==> socket.index == old(socket.index) == old(Port().count)
      ensures timeMs == LastReading(Port().script, old(socket.index), socket.index, currentTimeMs)
      ensures if more && |Port().script[old(socket.index)].payload| == 48
        then lastResponse == driver.bus.clock && pollInterval == Port().script[old(socket.index)].payload[2]
        else lastResponse == old(lastResponse) && pollInterval == old(pollInterval)
    {
      hide Rings.Tx.Holds, Rings.Rx.Holds, Rings.Tx.Free, C.Port.Valid, UdpSocket.Valid, UdpSocket.Unread,
        Socket.Valid;
      socket.IndexInScript();
      timeMs := currentTimeMs;
      ghost var k := socket.index;
      var packetSize, _, _ := socket.ReadPacketHeader();
      if packetSize < 0 {
        return false, timeMs;
      }
      more := true;
      ghost var payload := Port().script[k].payload;
      assert Safe(payload);
      if packetSize > PACKET_SIZE {
        socket.Skip(packetSize);
        return;
      }
      var buffer := socket.Read(PACKET_SIZE);
      assert buffer == payload;
      timeMs := UnixMillis(Be32(buffer[40..44]), Be32(buffer[44..48]));
      lastResponse := driver.bus.Millis();
      pollInterval := buffer[2];
    }

    /**
     Takes packets until none is left. `parsed` tells that some packet was taken. The time is that
     of the last packet of the right size, `last`; without one it is the old time, whatever
     `parsed` says.
     */
    method Drain(currentTimeMs: nat) returns (parsed: bool, timeMs: nat, ghost last: nat)
      requires Attached() && Valid() && AllSafe()
      modifies `lastResponse, `pollInterval, socket, Port(), driver.bus
      ensures Valid() && socket.SendSideKept() && old(socket.index) <= socket.index <= |Port().script|
      ensures old(Port().count) <= socket.index
      ensures parsed <==> old(socket.index) < socket.index
      ensures if SomeTimed(Port().script, old(socket.index), socket.index)
        then parsed && old(socket.index) <= last < socket.index && LastTimed(Port().script, last, socket.index, timeMs)
        else timeMs == currentTimeMs
    {
      hide Rings.Tx.Holds, Rings.Rx.Holds, Rings.Tx.Free, C.Port.Valid, UdpSocket.Valid, UdpSocket.Unread,
        Socket.Valid, Reading;
      socket.IndexInScript();
      parsed, timeMs := false, currentTimeMs;
      var more := true;
      while more
        invariant Valid() && socket.SendSideKept() && old(socket.index) <= socket.index <= |Port().script|
        invariant old(Port().count) <= Port().count && (!more ==> old(Port().count) <= socket.index)
        invariant parsed <==> old(socket.index) < socket.index
        invariant timeMs == LastReading(Port().script, old(socket.index), socket.index, currentTimeMs)
        decreases |Port().script| - socket.index, more
      {
        ghost var k := socket.index;
        more, timeMs := ParsePacket(timeMs);
        if more {
          parsed := true;
        }
      }
      last := 0;
      if SomeTimed(Port().script, old(socket.index), socket.index) {
        last := LastReadingTimed(Port().script, old(socket.index), socket.index, currentTimeMs);
      } else {
        LastReadingUntimed(Port().script, old(socket.index), socket.index, currentTimeMs);
      }
    }

    /** One request of 48 bytes: version 4, client mode, and nothing else. */
    method SendRequest()
      requires Attached() && Valid() && socket.base.writeOffset + PACKET_SIZE <= Port().tx.Free()
      modifies `lastRequest, socket.base, Port(), driver.bus
      ensures Valid() && Port().RxServed() && Port().RegsServed()
      ensures Port().sent
        == old(Port().sent) + [C.Sent(Port().DestIp(), Port().DestPort(), old(Port().gathered) + REQUEST)]
      ensures socket.base.writeOffset == 0 && lastRequest == driver.bus.clock
    {
      hide Rings.Tx.Holds, Rings.Rx.Holds, Rings.Tx.Free, C.Port.Valid, C.Port.DestIp, C.Port.DestPort;
      var buffer := new byte[PACKET_SIZE](_ => 0);
      buffer[0] := 4 * 8 + 3;
      assert buffer[..] == REQUEST;
      var _ := socket.base.SendBuffer(buffer[..]);
      lastRequest := driver.bus.Millis();
    }
  }
}
